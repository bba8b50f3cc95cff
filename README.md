# lunash launcher core, modelled in Dafny

lunash is a command launcher that embeds a Lua runtime. `lunash run <name>`
looks up the script file `<name>.lunash.lua` and runs it, with native modules
for guest scripts: `fs`, `stringx`, `regex`, `http`, plus the `arg` table.
This project models the parts of `src/main.rs` that have logic of their own.
It proves what they compute:

- **Script resolution** (`find_script`). Module `Resolver`.
  The canonical file name is probed in three places, in this order:
  1. the current directory;
  2. `<data_local_dir>/scripts/`;
  3. each `:`-separated entry of `LUA_SCRIPT_PATH`, in listed order.

  The first path that exists wins. The outside world is a value `Env` with
  three parts:
  - the set of existing paths (what `Path::exists` answers);
  - the per-user data directory, which may be absent;
  - the variable's value, which may be absent.

  `FindScript` is the imperative search, with early returns and a loop.
  `Resolve` is the first-match specification it is proved against. A ghost
  out-parameter records which paths were probed. That record shows the later
  tiers are never consulted once a match is found.
- **`stringx.split` and `stringx.trim`** (module `StringUtils`). These are
  functions over `seq<char>`. Split is proved to be a left-to-right,
  non-overlapping split that keeps empty pieces. Trim takes whitespace as a
  character predicate passed in by the caller, because the model has no
  Unicode tables.
- **`fs.basename`, `fs.dirname` and the `fs.dirname` attribute** (module
  `FsUtils`). These work on a component model of `/`-separated paths. The
  module also holds the Unix `Path::join` used to build candidate paths.
- **`regex.captures`** (module `RegexUtils`). The regex engine is an oracle:
  the model takes what the engine reports and runs the table-filling loop.
  Group `i` goes under key `i + 1`, and only groups that took part are stored.
- **The `arg` table** (module `Runtime`). The loop copies the process
  arguments into a table keyed from 0.

Lua tables are `map<int, string>` values, built by the loops that fill them.
I/O is a parameter of the operations that need it:
- file existence;
- the data directory;
- the environment variable;
- the current directory;
- the regex engine.

Conventions of the code that the model keeps:
- `arg` is 0-based, as `main` fills it (src/main.rs:228-229), so the program
  path is under key 0.
- `captures` leaves holes for groups that did not take part
  (src/main.rs:85-88); later groups keep their numbers.
- The HTTP client is reached through `.lock().unwrap()` (src/main.rs:104-105,
  123-124), which panics on a poisoned lock. The HTTP module is outside this
  model (see below).

The package name that `env!("CARGO_PKG_NAME")` puts into script names is
taken to be `lunash`. This is the name that `ProjectDirs::from("", "", "lunash")`
also uses. `Cargo.toml` is not part of this model.

`split` is modelled for every separator, the empty one included. With an
empty separator Rust matches at every character boundary, so `"ab"` splits
into `["", "a", "b", ""]`. The lemmas that only hold for non-empty
separators say so in their `requires`.

## Model

| member | source | states |
|---|---|---|
| StringUtils.Split | src/main.rs:59-61 | there is always at least one part; the lemmas below state what the parts are |
| StringUtils.IndexOfLeftmost | src/main.rs:60 | `sep` occurs at the returned position, and at no earlier one; None exactly when `sep` occurs nowhere in `s` |
| StringUtils.SplitJoin | src/main.rs:59-61 | joining the parts of `split(s, sep)` with `sep` gives back `s`, for every separator |
| StringUtils.SplitPartsAvoidSep | src/main.rs:59-61 | no part of a split by a non-empty separator contains the separator |
| StringUtils.SplitCount | src/main.rs:59-61 | the number of parts is one more than the number of non-overlapping occurrences, counted by a left-to-right scan |
| StringUtils.SplitKeepsEmptySegments | src/main.rs:59-61 | `split("a,,b", ",")` is `["a", "", "b"]`: empty pieces are kept |
| StringUtils.SplitConcat | src/main.rs:59-61 | for a one-character separator, splitting `x + sep + y` gives the parts of `x` followed by the parts of `y` |
| StringUtils.JoinSplit | src/main.rs:59-61 | for a one-character separator, splitting undoes joining parts that do not hold it |
| StringUtils.SplitPartsAvoidChar | src/main.rs:59-61 | no part of a split by a one-character separator holds that character |
| StringUtils.TrimStart | src/main.rs:64 | the result is a suffix of `s`; everything removed is whitespace; the result does not start with whitespace |
| StringUtils.TrimEnd | src/main.rs:64 | the result is a prefix of `s`; everything removed is whitespace; the result does not end with whitespace |
| StringUtils.Trim | src/main.rs:64 | the result is a contiguous piece of `s` with only whitespace before and after it, and it neither starts nor ends with whitespace |
| StringUtils.TrimOfTrimmed | src/main.rs:64 | a string that neither starts nor ends with whitespace is its own trim |
| StringUtils.TrimUnique | src/main.rs:64 | whitespace, then a string without whitespace at its ends, then whitespace: trim gives exactly that middle string |
| StringUtils.TrimIdempotent | src/main.rs:64 | applying trim twice gives the same result as once |
| StringUtils.TrimBlanks | src/main.rs:64 | `trim("  x  ")` is `"x"` |
| FsUtils.Components | src/main.rs:35-53 | every component of a path is non-empty, is not `.`, and holds no `/` |
| FsUtils.ComponentsOfJoin | src/main.rs:35-53 | joining valid components with `/` and reading the components back gives the same list; the join is not rooted |
| FsUtils.Basename | src/main.rs:35-40 | nil exactly when the path has no component or ends in `..`; otherwise the last component |
| FsUtils.Dirname | src/main.rs:48-53 | nil exactly when the path has no component; otherwise a path with all components but the last, rooted exactly when the input is |
| FsUtils.DirnameOfCwd | src/main.rs:27-31 | the attribute is the parent of the current directory; failing to read the current directory raises that error |
| FsUtils.BasenameDirnameRecompose | src/main.rs:35-53 | when `basename` gives a name, `dirname` gives a directory, and joining the two gives back the path's components |
| FsUtils.AbsoluteFileExample | src/main.rs:35-53 | `basename("/a/b.txt")` is `"b.txt"`; `dirname("/a/b.txt")` is `"/a"` |
| FsUtils.RootExample | src/main.rs:35-53 | `basename("/")` and `dirname("/")` are both nil |
| FsUtils.JoinPath | src/main.rs:150-162 | a rooted file replaces the directory; a relative file is placed after the whole directory text |
| FsUtils.JoinPathEndsWith | src/main.rs:150-162 | a path built with `join` ends with the file name joined |
| FsUtils.JoinPathComponents | src/main.rs:150-162 | joining a relative file adds its components after those of the directory |
| Resolver.ScriptName | src/main.rs:140 | the file name is the script name followed by `.lunash.lua` |
| Resolver.UserCandidates | src/main.rs:149-153 | one candidate when there is a per-user data directory, none otherwise |
| Resolver.DirCandidates | src/main.rs:160-162 | one candidate per `LUA_SCRIPT_PATH` entry: the `i`-th is the file joined to the `i`-th entry, in listed order |
| Resolver.Candidates | src/main.rs:140-162 | the local file name comes first, and there is one more candidate per user-tier path and per `LUA_SCRIPT_PATH` entry |
| Resolver.Resolve | src/main.rs:139-170 | None exactly when no candidate of any tier exists; otherwise an existing candidate with no existing candidate before it |
| Resolver.FirstExisting | src/main.rs:142-169 | the position of the first existing candidate: none before it exists, and it exists unless it is past the end |
| Resolver.ProbeDirs | src/main.rs:160-167 | the loop over `LUA_SCRIPT_PATH` entries returns the first directory's path that exists, in listed order, and probes nothing after it |
| Resolver.FindScript | src/main.rs:139-170 | the result is the first existing candidate of the three tiers, in tier order, or None; only the candidates up to the match are probed |
| Resolver.NotFoundMessage | src/main.rs:193 | the message is `Script for '`, then the name, then `' not found` |
| Resolver.ResolveOrReport | src/main.rs:192-193 | the not-found message exactly when no candidate exists; otherwise the existing candidate that no existing candidate precedes, which is `find_script`'s first match |
| Resolver.LocalScriptWins | src/main.rs:142-146 | a script in the current directory is returned whatever the data directory and `LUA_SCRIPT_PATH` are, and it is the only path probed |
| Resolver.CandidatesEndWithScriptName | src/main.rs:140-162 | every candidate path ends with `<name>.lunash.lua` |
| Resolver.FoundEndsWithScriptName | src/main.rs:140-169 | a found script's path ends with `<name>.lunash.lua` |
| Resolver.FirstExistingSkip | src/main.rs:142-167 | candidates that do not exist do not move the first existing one; they only shift its position |
| Resolver.UserScriptBeforeSearchPath | src/main.rs:148-157 | with no local script, an existing `<data_local_dir>/scripts/<file>` wins over every `LUA_SCRIPT_PATH` entry |
| Resolver.SearchPathInOrder | src/main.rs:159-167 | with no local or user script, the result is the file in the first listed `LUA_SCRIPT_PATH` directory that holds it, or None |
| RegexUtils.Captures | src/main.rs:81-92 | an invalid pattern gives its error, and no match gives an empty table. A match stores key `k` exactly when group `k-1` took part, holding that group's text; the other groups keep their numbers |
| Runtime.ArgTable | src/main.rs:226-231 | the keys are exactly `0 .. |args|-1`, and key `i` holds `args[i]` verbatim |

## Left out

- The HTTP module (src/main.rs:96-137) is left out. It is network I/O through
  a shared client behind a mutex, and neither can be modelled here.
- `fs.readlink` (src/main.rs:42-46) is left out. It only wraps a system call.
- `regex.new` and `regex.is_match` (src/main.rs:70-79) are left out. They only
  call the regex crate. Matching itself is the oracle given to `Captures`.
- `main`'s orchestration (src/main.rs:172-251) is left out, apart from the
  `arg` loop and the not-found report. That covers:
  - parsing the command line;
  - the worker thread and its join;
  - creating the Lua state and loading its standard libraries;
  - registering the globals;
  - reading, loading and running the script.
  
  These are interpreter and OS plumbing.
- Computing the per-user data directory and reading the current directory
  are platform-dependent, so both are parameters.
- Basename, Dirname: these use a simplified component model of `std::path`:
  - Repeated separators collapse.
  - `.` components are dropped. Rust drops them too, except a leading one.
    So the model says `"./a"` has parent `""` where Rust says `"."`, and `"."`
    has no parent where Rust says `""`.
  - A parent is rebuilt from its components, so the model gives `"/a/b"` for
    `"/a//b/c"` where Rust keeps the original text `"/a//b"`.
- The `fs` userdata registers both a field getter `dirname`
  (src/main.rs:27) and a function `dirname` (src/main.rs:48). mlua looks up
  field getters before methods, so `fs.dirname(path)` probably reads the
  field's string and then fails when Lua calls it; the function may be
  unreachable from Lua. The model gives each its own member and does not
  model this name clash.
- DirnameOfCwd: the panic of `to_str().unwrap()` on a directory name that is
  not UTF-8 is not modelled, because model strings are always Unicode.
- Trim: whitespace is a predicate supplied by the caller, not Unicode's
  `White_Space` table.
- Captures: a Lua pattern or text that is not valid UTF-8 is not modelled. It
  makes `to_str()` fail before matching. Errors from `table.set` (memory
  exhaustion) are not modelled either.
- JoinPath: it follows `PathBuf::push` on Unix only. Windows prefixes and
  separators are not modelled.
