/**
 * Script resolution of the launcher (`find_script`): the name given to
 * `run <name>` becomes the file name "<name>.lunash.lua", which is looked
 * for in the current directory, then in the per-user data directory's
 * `scripts/` folder, then in each directory listed in LUA_SCRIPT_PATH, and
 * the first path that exists wins.
 */
module Resolver {
  import opened Wrappers
  import StringUtils
  import opened FsUtils

  /** The launcher's package name, which every script file name carries. */
  const PkgName: string := "lunash"

  /** The canonical file name of the script called `name`. */
  function ScriptName(name: string): (file: string)
    ensures |file| == |name| + 11 && file[..|name|] == name && file[|name|..] == ".lunash.lua"
  {
    var file := name + "." + PkgName + ".lua";
    assert file[|name|..] == "." + PkgName + ".lua";
    file
  }

  /**
   * What resolution observes of the outside world:
   * `existing` holds the paths for which `Path::exists` is true;
   * `dataLocalDir` is the per-user data directory of the application, None
   * when the platform gives none; `scriptPath` is the value of LUA_SCRIPT_PATH,
   * None when it is unset or not valid Unicode.
   */
  datatype Env = Env(existing: set<string>, dataLocalDir: Option<string>, scriptPath: Option<string>)

  /** The second tier: `<data_local_dir>/scripts/<file>`, when there is such a directory. */
  function UserCandidates(env: Env, file: string): (cs: seq<string>)
    ensures |cs| == if env.dataLocalDir.Some? then 1 else 0
  {
    match env.dataLocalDir
    case None => []
    case Some(d) => [JoinPath(JoinPath(d, "scripts"), file)]
  }

  /** The entries of LUA_SCRIPT_PATH, in the order listed. */
  function SearchDirs(env: Env): seq<string> {
    match env.scriptPath
    case None => []
    case Some(v) => StringUtils.Split(v, ":")
  }

  /** The third tier: `file` inside each directory of `dirs`, in order. */
  function DirCandidates(dirs: seq<string>, file: string): (cs: seq<string>)
    ensures |cs| == |dirs|
    ensures forall i :: 0 <= i < |dirs| ==> cs[i] == JoinPath(dirs[i], file)
  {
    seq(|dirs|, i requires 0 <= i < |dirs| => JoinPath(dirs[i], file))
  }

  /** Every path resolution may probe, in the order it probes them. */
  function Candidates(env: Env, name: string): (cs: seq<string>)
    ensures |cs| == 1 + |UserCandidates(env, ScriptName(name))| + |SearchDirs(env)|
    ensures cs[0] == ScriptName(name)
  {
    var file := ScriptName(name);
    [file] + UserCandidates(env, file) + DirCandidates(SearchDirs(env), file)
  }

  /** The position of the first candidate that exists; `|cands|` when none does. */
  function FirstExisting(cands: seq<string>, existing: set<string>): (k: nat)
    ensures k <= |cands|
    ensures forall j :: 0 <= j < k ==> cands[j] !in existing
    ensures k < |cands| ==> cands[k] in existing
  {
    if cands == [] || cands[0] in existing then 0 else 1 + FirstExisting(cands[1..], existing)
  }

  /** The candidate resolution settles on, if any. */
  function Resolve(env: Env, name: string): (r: Option<string>)
    ensures r.None? <==> forall c :: c in Candidates(env, name) ==> c !in env.existing
    ensures r.Some? ==> r.value in env.existing && IsFirstExisting(Candidates(env, name), env.existing, r.value)
  {
    FirstFoundIsFirst(Candidates(env, name), env.existing);
    FirstFound(Candidates(env, name), env.existing)
  }

  /** `p` is in `cands`, at a position no existing candidate precedes. */
  ghost predicate IsFirstExisting(cands: seq<string>, existing: set<string>, p: string) {
    exists k :: 0 <= k < |cands| && cands[k] == p && forall j :: 0 <= j < k ==> cands[j] !in existing
  }

  /** The candidates probed: all up to and including the first that exists. */
  ghost function Probed(env: Env, name: string): seq<string> {
    ProbedIn(Candidates(env, name), env.existing)
  }

  lemma {:induction false} FirstExistingAt(cands: seq<string>, existing: set<string>, k: nat)
    requires k <= |cands|
    requires forall j :: 0 <= j < k ==> cands[j] !in existing
    requires k < |cands| ==> cands[k] in existing
    ensures FirstExisting(cands, existing) == k
  {
  }

  /** Resolution and its probes, once the first existing candidate is known to be at `k`. */
  lemma {:induction false} SettlesAt(env: Env, name: string, k: nat)
    requires k <= |Candidates(env, name)|
    requires forall j :: 0 <= j < k ==> Candidates(env, name)[j] !in env.existing
    requires k < |Candidates(env, name)| ==> Candidates(env, name)[k] in env.existing
    ensures Resolve(env, name) == if k < |Candidates(env, name)| then Some(Candidates(env, name)[k]) else None
    ensures Probed(env, name) == if k < |Candidates(env, name)| then Candidates(env, name)[..k + 1] else Candidates(env, name)
  {
    FirstExistingAt(Candidates(env, name), env.existing, k);
  }

  /** The first existing path among `cands`, if any. */
  function FirstFound(cands: seq<string>, existing: set<string>): Option<string> {
    var k := FirstExisting(cands, existing);
    if k < |cands| then Some(cands[k]) else None
  }

  lemma {:induction false} FirstFoundIsFirst(cands: seq<string>, existing: set<string>)
    ensures FirstFound(cands, existing).None? <==> forall c :: c in cands ==> c !in existing
    ensures FirstFound(cands, existing).Some? ==>
              FirstFound(cands, existing).value in existing
              && IsFirstExisting(cands, existing, FirstFound(cands, existing).value)
  {
    var k := FirstExisting(cands, existing);
    if k < |cands| {
      assert cands[k] in cands;
    } else {
      forall c | c in cands ensures c !in existing {
        var j :| 0 <= j < |cands| && cands[j] == c;
      }
    }
  }

  /** The paths probed in `cands`: all up to and including the first existing one. */
  ghost function ProbedIn(cands: seq<string>, existing: set<string>): seq<string> {
    var k := FirstExisting(cands, existing);
    if k < |cands| then cands[..k + 1] else cands
  }

  /** The loop over the LUA_SCRIPT_PATH entries: probe `file` in each directory in turn. */
  method ProbeDirs(dirs: seq<string>, file: string, existing: set<string>) returns (r: Option<string>, ghost probed: seq<string>)
    ensures r == FirstFound(DirCandidates(dirs, file), existing)
    ensures probed == ProbedIn(DirCandidates(dirs, file), existing)
  {
    ghost var cs := DirCandidates(dirs, file);
    probed := [];
    var i := 0;
    while i < |dirs|
      invariant 0 <= i <= |dirs|
      invariant probed == cs[..i]
      invariant forall j :: 0 <= j < i ==> cs[j] !in existing
    {
      var scriptPath := JoinPath(dirs[i], file);
      assert scriptPath == cs[i];
      assert cs[..i + 1] == cs[..i] + [scriptPath];
      probed := probed + [scriptPath];
      if scriptPath in existing {
        FirstExistingAt(cs, existing, i);
        return Some(scriptPath), probed;
      }
      i := i + 1;
    }
    FirstExistingAt(cs, existing, |cs|);
    r := None;
  }

  /** Candidates in front that do not exist are probed and passed over. */
  lemma {:induction false} AfterMisses(front: seq<string>, rest: seq<string>, existing: set<string>)
    requires forall c :: c in front ==> c !in existing
    ensures FirstFound(front + rest, existing) == FirstFound(rest, existing)
    ensures ProbedIn(front + rest, existing) == front + ProbedIn(rest, existing)
  {
    FirstExistingSkip(front, rest, existing);
    var k := FirstExisting(rest, existing);
    if k < |rest| {
      assert (front + rest)[..|front| + k + 1] == front + rest[..k + 1];
    }
  }

  /**
   * `find_script`: probe the candidates tier by tier and return the first
   * that exists. `probed` records the paths whose existence was asked.
   */
  method FindScript(env: Env, name: string) returns (r: Option<string>, ghost probed: seq<string>)
    ensures r == Resolve(env, name)
    ensures probed == Probed(env, name)
  {
    var file := ScriptName(name);
    ghost var cs := Candidates(env, name);
    probed := [file];
    if file in env.existing {
      SettlesAt(env, name, 0);
      return Some(file), probed;
    }
    if env.dataLocalDir.Some? {
      var userScript := JoinPath(JoinPath(env.dataLocalDir.value, "scripts"), file);
      probed := probed + [userScript];
      if userScript in env.existing {
        SettlesAt(env, name, 1);
        return Some(userScript), probed;
      }
    }
    ghost var front := [file] + UserCandidates(env, file);
    assert probed == front;
    var dirs: seq<string> := [];
    if env.scriptPath.Some? {
      dirs := StringUtils.Split(env.scriptPath.value, ":");
    }
    ghost var tier3 := DirCandidates(dirs, file);
    assert cs == front + tier3;
    AfterMisses(front, tier3, env.existing);
    var found, inDirs := ProbeDirs(dirs, file, env.existing);
    r, probed := found, probed + inDirs;
  }

  /** `main`'s report when resolution finds nothing. */
  function NotFoundMessage(name: string): (msg: string)
    ensures |msg| == |name| + 23
    ensures msg[..12] == "Script for '" && msg[12..12 + |name|] == name && msg[12 + |name|..] == "' not found"
  {
    var msg := "Script for '" + name + "' not found";
    assert msg[..12] == "Script for '";
    assert msg[12..12 + |name|] == name;
    assert msg[12 + |name|..] == "' not found";
    msg
  }

  /** `find_script(..).ok_or_else(..)` in `main`: the path, or the not-found message. */
  function ResolveOrReport(env: Env, name: string): (r: Result<string, string>)
    ensures r.Err? <==> forall c :: c in Candidates(env, name) ==> c !in env.existing
    ensures r.Err? ==> r.error == NotFoundMessage(name)
    ensures r.Ok? ==> r.value in env.existing && IsFirstExisting(Candidates(env, name), env.existing, r.value)
  {
    match Resolve(env, name)
    case None => Err(NotFoundMessage(name))
    case Some(p) => Ok(p)
  }

  /**
   * A script in the current directory wins whatever the data directory and
   * LUA_SCRIPT_PATH are, and nothing else is probed.
   */
  lemma {:induction false} LocalScriptWins(existing: set<string>, dataLocalDir: Option<string>, scriptPath: Option<string>, name: string)
    requires ScriptName(name) in existing
    ensures Resolve(Env(existing, dataLocalDir, scriptPath), name) == Some(ScriptName(name))
    ensures Probed(Env(existing, dataLocalDir, scriptPath), name) == [ScriptName(name)]
  {
    var env := Env(existing, dataLocalDir, scriptPath);
    FirstExistingAt(Candidates(env, name), existing, 0);
  }

  /** Every candidate path ends with the canonical file name. */
  lemma {:induction false} CandidatesEndWithScriptName(env: Env, name: string)
    ensures forall c :: c in Candidates(env, name) ==> EndsWith(c, ScriptName(name))
  {
    var file := ScriptName(name);
    var user := UserCandidates(env, file);
    var dirs := DirCandidates(SearchDirs(env), file);
    assert Candidates(env, name) == [file] + user + dirs;
    assert EndsWith(file, file) by { assert file[|file| - |file|..] == file; }
    if env.dataLocalDir.Some? {
      assert user == [JoinPath(JoinPath(env.dataLocalDir.value, "scripts"), file)];
      JoinPathEndsWith(JoinPath(env.dataLocalDir.value, "scripts"), file);
    }
    DirCandidatesEndWith(SearchDirs(env), file);
  }

  lemma {:induction false} DirCandidatesEndWith(dirs: seq<string>, file: string)
    ensures forall c :: c in DirCandidates(dirs, file) ==> EndsWith(c, file)
  {
    var cs := DirCandidates(dirs, file);
    forall c | c in cs ensures EndsWith(c, file) {
      var i :| 0 <= i < |cs| && cs[i] == c;
      JoinPathEndsWith(dirs[i], file);
    }
  }

  /** A found script ends with the canonical file name. */
  lemma {:induction false} FoundEndsWithScriptName(env: Env, name: string, p: string)
    requires Resolve(env, name) == Some(p)
    ensures EndsWith(p, ScriptName(name))
  {
    CandidatesEndWithScriptName(env, name);
    var cs := Candidates(env, name);
    assert cs[FirstExisting(cs, env.existing)] in cs;
  }

  /** Candidates known not to exist do not move the first existing one. */
  lemma {:induction false} FirstExistingSkip(a: seq<string>, b: seq<string>, existing: set<string>)
    requires forall c :: c in a ==> c !in existing
    ensures FirstExisting(a + b, existing) == |a| + FirstExisting(b, existing)
  {
    if a != [] {
      assert a[0] in a;
      assert (a + b)[1..] == a[1..] + b;
      FirstExistingSkip(a[1..], b, existing);
    } else {
      assert a + b == b;
    }
  }

  /**
   * Without a local script, the user's script directory is consulted
   * before LUA_SCRIPT_PATH: an existing user script wins.
   */
  lemma {:induction false} UserScriptBeforeSearchPath(env: Env, name: string, d: string)
    requires ScriptName(name) !in env.existing
    requires env.dataLocalDir == Some(d)
    requires JoinPath(JoinPath(d, "scripts"), ScriptName(name)) in env.existing
    ensures Resolve(env, name) == Some(JoinPath(JoinPath(d, "scripts"), ScriptName(name)))
  {
    FirstExistingAt(Candidates(env, name), env.existing, 1);
  }

  /**
   * With neither a local nor a user script, the result is the script in the
   * first directory of LUA_SCRIPT_PATH, in listed order, that holds it.
   */
  lemma {:induction false} SearchPathInOrder(env: Env, name: string)
    requires ScriptName(name) !in env.existing
    requires forall c :: c in UserCandidates(env, ScriptName(name)) ==> c !in env.existing
    ensures var file := ScriptName(name);
            var dirs := SearchDirs(env);
            var k := FirstExisting(DirCandidates(dirs, file), env.existing);
            Resolve(env, name) == if k < |dirs| then Some(JoinPath(dirs[k], file)) else None
  {
    var file := ScriptName(name);
    var front := [file] + UserCandidates(env, file);
    var tier3 := DirCandidates(SearchDirs(env), file);
    assert Candidates(env, name) == front + tier3;
    FirstExistingSkip(front, tier3, env.existing);
  }
}
