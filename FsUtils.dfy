/**
 * The `fs` module of the launcher: `basename(path)`, `dirname(path)` and the
 * `dirname` attribute, which ask Rust's `std::path` for the last component
 * and the parent of a path; and the Unix `Path::join` used to build script
 * locations. Paths are `/`-separated strings broken into components.
 */
module FsUtils {
  import opened Wrappers
  import opened StringUtils

  /** A path starting at the root. */
  predicate IsAbsolute(p: string) {
    |p| > 0 && p[0] == '/'
  }

  /** A component as `std::path` yields one: non-empty, free of '/', and not ".". */
  predicate IsComponent(c: string) {
    c != "" && c != "." && '/' !in c
  }

  /** The pieces of a split that name something: empty pieces and "." are dropped. */
  function KeepNames(pieces: seq<string>): (r: seq<string>)
    ensures forall c :: c in r ==> c in pieces && c != "" && c != "."
  {
    if pieces == [] then []
    else (if pieces[0] == "" || pieces[0] == "." then [] else [pieces[0]]) + KeepNames(pieces[1..])
  }

  lemma {:induction false} KeepNamesConcat(a: seq<string>, b: seq<string>)
    ensures KeepNames(a + b) == KeepNames(a) + KeepNames(b)
  {
    if a != [] {
      assert (a + b)[1..] == a[1..] + b;
      KeepNamesConcat(a[1..], b);
    } else {
      assert a + b == b;
    }
  }

  /** The components of `p`: repeated separators collapse and "." steps vanish. */
  function Components(p: string): (r: seq<string>)
    ensures forall c :: c in r ==> IsComponent(c)
  {
    SplitPartsAvoidChar(p, "/");
    KeepNames(Split(p, "/"))
  }

  /** The components of two paths joined by a separator are their components in turn. */
  lemma {:induction false} ComponentsConcat(x: string, y: string)
    ensures Components(x + "/" + y) == Components(x) + Components(y)
  {
    SplitConcat(x, y, "/");
    KeepNamesConcat(Split(x, "/"), Split(y, "/"));
  }

  lemma {:induction false} ComponentsOfEmpty()
    ensures Components("") == []
  {
    IndexOfChar("", "/", 0);
    SplitWhole("", "/");
  }

  lemma {:induction false} ComponentsOfOne(c: string)
    requires IsComponent(c)
    ensures Components(c) == [c]
  {
    IndexOfChar(c, "/", |c|);
    SplitWhole(c, "/");
    assert [c][1..] == [];
    assert KeepNames([c]) == [c] + KeepNames([]);
    assert Components(c) == KeepNames(Split(c, "/"));
  }

  /** A leading root adds no component. */
  lemma {:induction false} ComponentsOfRooted(x: string)
    ensures Components("/" + x) == Components(x)
  {
    assert "/" + x == "" + "/" + x;
    ComponentsConcat("", x);
    ComponentsOfEmpty();
  }

  /** Joining components with '/' and reading them back gives the same components. */
  lemma {:induction false} ComponentsOfJoin(cs: seq<string>)
    requires forall c :: c in cs ==> IsComponent(c)
    ensures Components(Join(cs, "/")) == cs
    ensures !IsAbsolute(Join(cs, "/"))
  {
    if |cs| == 0 {
      ComponentsOfEmpty();
    } else if |cs| == 1 {
      assert cs[0] in cs;
      ComponentsOfOne(cs[0]);
    } else {
      assert cs[0] in cs;
      ComponentsOfOne(cs[0]);
      ComponentsOfJoin(cs[1..]);
      ComponentsConcat(cs[0], Join(cs[1..], "/"));
      assert cs == [cs[0]] + cs[1..];
    }
  }

  /**
   * `Path::new(path).file_name()`: the last component, or nil when the path
   * has none (the root, the empty path) or ends in "..".
   */
  function Basename(p: string): (r: Option<string>)
    ensures r.Some? <==> Components(p) != [] && Components(p)[|Components(p)| - 1] != ".."
    ensures r.Some? ==> IsComponent(r.value) && r.value != ".." && r.value == Components(p)[|Components(p)| - 1]
  {
    var cs := Components(p);
    if cs == [] || cs[|cs| - 1] == ".." then None
    else
      assert cs[|cs| - 1] in cs;
      Some(cs[|cs| - 1])
  }

  /** The path made of the root marker of `p` (if any) and the components `cs`. */
  function Rebuild(p: string, cs: seq<string>): string {
    (if IsAbsolute(p) then "/" else "") + Join(cs, "/")
  }

  /**
   * `Path::new(path).parent()`: the path without its last component, nil
   * for a path with no component (the root, the empty path). The parent
   * keeps the root marker: "/a" has parent "/", "a" has parent "".
   */
  function Dirname(p: string): (r: Option<string>)
    ensures r.None? <==> Components(p) == []
    ensures r.Some? ==> Components(r.value) == Components(p)[..|Components(p)| - 1]
    ensures r.Some? ==> (IsAbsolute(r.value) <==> IsAbsolute(p))
  {
    var cs := Components(p);
    if cs == [] then None
    else
      var parent := cs[..|cs| - 1];
      assert forall c :: c in parent ==> c in cs;
      ComponentsOfJoin(parent);
      if IsAbsolute(p) then ComponentsOfRooted(Join(parent, "/")); Some(Rebuild(p, parent))
      else assert Rebuild(p, parent) == Join(parent, "/"); Some(Rebuild(p, parent))
  }

  /**
   * The `dirname` attribute: the parent of the current directory; a
   * failure to read the current directory is raised as an error.
   */
  function DirnameOfCwd(cwd: Result<string, string>): (r: Result<Option<string>, string>)
    ensures r.Err? <==> cwd.Err?
    ensures r.Err? ==> r.error == cwd.error
    ensures r.Ok? ==> r.value == Dirname(cwd.value)
  {
    match cwd
    case Err(e) => Err(e)
    case Ok(dir) => Ok(Dirname(dir))
  }

  /**
   * `Path::new(dir).join(file)` on Unix: a rooted `file` replaces `dir`;
   * otherwise a '/' goes between them unless `dir` is empty or already ends
   * with one.
   */
  function JoinPath(dir: string, file: string): (r: string)
    ensures IsAbsolute(file) ==> r == file
    ensures !IsAbsolute(file) ==> |r| >= |dir| + |file| && r[..|dir|] == dir
  {
    if IsAbsolute(file) then file
    else if dir == "" || dir[|dir| - 1] == '/' then dir + file
    else dir + "/" + file
  }

  /** A joined path always ends with the file name that was joined. */
  lemma {:induction false} JoinPathEndsWith(dir: string, file: string)
    ensures EndsWith(JoinPath(dir, file), file)
  {
    var r := JoinPath(dir, file);
    assert r[|r| - |file|..] == file;
  }

  /** `file` is a suffix of `s`. */
  predicate EndsWith(s: string, file: string) {
    |file| <= |s| && s[|s| - |file|..] == file
  }

  /** Joining a relative file appends its components to those of the directory. */
  lemma {:induction false} JoinPathComponents(dir: string, file: string)
    requires !IsAbsolute(file)
    ensures Components(JoinPath(dir, file)) == Components(dir) + Components(file)
  {
    if dir == "" {
      ComponentsOfEmpty();
      assert JoinPath(dir, file) == file;
    } else if dir[|dir| - 1] == '/' {
      var d := dir[..|dir| - 1];
      assert dir == d + "/" + "";
      assert JoinPath(dir, file) == d + "/" + file;
      ComponentsConcat(d, file);
      ComponentsConcat(d, "");
      ComponentsOfEmpty();
    } else {
      ComponentsConcat(dir, file);
    }
  }

  /**
   * Whenever `basename` gives a name, `dirname` gives a directory, and
   * joining the two leads back to the same components.
   */
  lemma {:induction false} BasenameDirnameRecompose(p: string)
    requires Basename(p).Some?
    ensures Dirname(p).Some?
    ensures Components(JoinPath(Dirname(p).value, Basename(p).value)) == Components(p)
  {
    var cs := Components(p);
    var b := Basename(p).value;
    var d := Dirname(p).value;
    JoinPathComponents(d, b);
    ComponentsOfOne(b);
    assert cs == cs[..|cs| - 1] + [b];
  }

  lemma {:induction false} AbsoluteFileComponents(p: string)
    requires p == "/a/b.txt"
    ensures Components(p) == ["a", "b.txt"]
  {
    var cs := ["a", "b.txt"];
    assert Join(cs, "/") == "a/b.txt";
    assert p == "/" + Join(cs, "/");
    ComponentsOfJoin(cs);
    ComponentsOfRooted(Join(cs, "/"));
  }

  /** "/a/b.txt" has base name "b.txt" and directory "/a". */
  lemma {:induction false} AbsoluteFileExample()
    ensures Basename("/a/b.txt") == Some("b.txt")
    ensures Dirname("/a/b.txt") == Some("/a")
  {
    AbsoluteFileComponents("/a/b.txt");
    assert Rebuild("/a/b.txt", ["a"]) == "/a";
  }

  /** The root has neither a base name nor a directory. */
  lemma {:induction false} RootExample()
    ensures Basename("/") == None
    ensures Dirname("/") == None
  {
    assert "/" == "/" + "";
    ComponentsOfRooted("");
    ComponentsOfEmpty();
  }
}
