/**
 * The `stringx` module of the launcher: `split(s, sep)` and `trim(s)`,
 * which hand the string to Rust's `str::split` and `str::trim`.
 */
module StringUtils {
  import opened Wrappers

  // ---------------------------------------------------------------------
  // Occurrences of a separator
  // ---------------------------------------------------------------------

  /** `sep` occurs in `s` starting at position `i`. */
  predicate OccursAt(s: string, sep: string, i: nat) {
    i + |sep| <= |s| && s[i..i + |sep|] == sep
  }

  /** `sep` occurs somewhere in `s`. */
  ghost predicate Contains(s: string, sep: string) {
    exists i: nat :: OccursAt(s, sep, i)
  }

  lemma {:induction false} OccursAtTail(s: string, sep: string, j: nat)
    requires |s| > 0
    ensures OccursAt(s, sep, j + 1) <==> OccursAt(s[1..], sep, j)
  {
    if j + 1 + |sep| <= |s| {
      assert s[1..][j..j + |sep|] == s[j + 1..j + 1 + |sep|];
    }
  }

  /** The leftmost position at which a non-empty `sep` occurs in `s`, if any. */
  function IndexOf(s: string, sep: string): (r: Option<nat>)
    requires |sep| > 0
    ensures r.Some? ==> r.value + |sep| <= |s|
    decreases |s|
  {
    if |s| < |sep| then None
    else if s[..|sep|] == sep then Some(0)
    else
      match IndexOf(s[1..], sep)
      case None => None
      case Some(k) => Some(k + 1)
  }

  /**
   * `IndexOf` finds an occurrence with none before it, and finds nothing
   * only when there is no occurrence at all.
   */
  lemma {:induction false} IndexOfLeftmost(s: string, sep: string)
    requires |sep| > 0
    ensures IndexOf(s, sep).Some? ==> OccursAt(s, sep, IndexOf(s, sep).value)
    ensures IndexOf(s, sep).Some? ==> forall j: nat :: j < IndexOf(s, sep).value ==> !OccursAt(s, sep, j)
    ensures IndexOf(s, sep).None? ==> forall j: nat :: !OccursAt(s, sep, j)
    decreases |s|
  {
    if |s| >= |sep| && s[..|sep|] != sep {
      IndexOfLeftmost(s[1..], sep);
      forall j: nat | j > 0 ensures OccursAt(s, sep, j) <==> OccursAt(s[1..], sep, j - 1) {
        OccursAtTail(s, sep, j - 1);
      }
    }
  }

  /**
   * The number of non-overlapping occurrences of a non-empty `sep` found by
   * scanning `s` from the left one character at a time: a reference count
   * independent of `IndexOf`.
   */
  function CountOccurrences(s: string, sep: string): nat
    requires |sep| > 0
    decreases |s|
  {
    if |s| < |sep| then 0
    else if s[..|sep|] == sep then 1 + CountOccurrences(s[|sep|..], sep)
    else CountOccurrences(s[1..], sep)
  }

  // ---------------------------------------------------------------------
  // split
  // ---------------------------------------------------------------------

  /** One single-character string per character of `s`, followed by "". */
  function Pieces(s: string): (r: seq<string>)
    ensures |r| == |s| + 1
  {
    if s == [] then [""] else [s[..1]] + Pieces(s[1..])
  }

  /**
   * `s.split(sep)`: the pieces of `s` between the occurrences of `sep`
   * found left to right without overlap, empty pieces kept. With an empty
   * separator Rust matches at every character boundary, so the result is
   * "", then every character, then "".
   */
  function Split(s: string, sep: string): (parts: seq<string>)
    ensures |parts| > 0
    decreases |s|
  {
    if |sep| == 0 then [""] + Pieces(s)
    else
      match IndexOf(s, sep)
      case None => [s]
      case Some(i) => [s[..i]] + Split(s[i + |sep|..], sep)
  }

  /** The parts glued back together with `sep` between neighbours. */
  function Join(parts: seq<string>, sep: string): string
  {
    if |parts| == 0 then ""
    else if |parts| == 1 then parts[0]
    else parts[0] + sep + Join(parts[1..], sep)
  }

  lemma {:induction false} JoinPieces(s: string)
    ensures Join(Pieces(s), "") == s
  {
    if s != [] {
      JoinPieces(s[1..]);
      assert Pieces(s)[1..] == Pieces(s[1..]);
    }
  }

  /** One step of `Split` once the leftmost occurrence is known. */
  lemma {:induction false} SplitAt(s: string, sep: string, i: nat)
    requires |sep| > 0 && IndexOf(s, sep) == Some(i)
    ensures i + |sep| <= |s|
    ensures Split(s, sep) == [s[..i]] + Split(s[i + |sep|..], sep)
  {
  }

  lemma {:induction false} SplitWhole(s: string, sep: string)
    requires |sep| > 0 && IndexOf(s, sep) == None
    ensures Split(s, sep) == [s]
  {
  }

  lemma {:induction false} JoinCons(p: string, rest: seq<string>, sep: string)
    requires |rest| > 0
    ensures Join([p] + rest, sep) == p + sep + Join(rest, sep)
  {
    assert ([p] + rest)[1..] == rest;
  }

  /** Joining the parts of a split with the separator gives back the string. */
  lemma {:induction false} SplitJoin(s: string, sep: string)
    ensures Join(Split(s, sep), sep) == s
  {
    if |sep| == 0 {
      JoinPieces(s);
      JoinCons("", Pieces(s), sep);
    } else {
      SplitJoinNonEmpty(s, sep);
    }
  }

  lemma {:induction false} SplitJoinNonEmpty(s: string, sep: string)
    requires |sep| > 0
    ensures Join(Split(s, sep), sep) == s
    decreases |s|
  {
    var r := IndexOf(s, sep);
    if r.None? {
      SplitWhole(s, sep);
    } else {
      var i := r.value;
      SplitAt(s, sep, i);
      var rest := s[i + |sep|..];
      var tail := Split(rest, sep);
      SplitJoinNonEmpty(rest, sep);
      JoinCons(s[..i], tail, sep);
      IndexOfLeftmost(s, sep);
      AroundOccurrence(s, sep, i);
    }
  }

  /** A string is the text before an occurrence, the occurrence, and the text after it. */
  lemma {:induction false} AroundOccurrence(s: string, sep: string, i: nat)
    requires OccursAt(s, sep, i)
    ensures s == s[..i] + sep + s[i + |sep|..]
  {
    assert s == s[..i] + s[i..i + |sep|] + s[i + |sep|..];
  }

  lemma {:induction false} PrefixOccurrence(s: string, sep: string, i: nat, j: nat)
    requires i <= |s|
    requires OccursAt(s[..i], sep, j)
    ensures OccursAt(s, sep, j)
  {
    assert s[..i][j..j + |sep|] == s[j..j + |sep|];
  }

  /** No part of a split by a non-empty separator contains the separator. */
  lemma {:induction false} SplitPartsAvoidSep(s: string, sep: string)
    requires |sep| > 0
    ensures forall p :: p in Split(s, sep) ==> !Contains(p, sep)
    decreases |s|
  {
    IndexOfLeftmost(s, sep);
    var r := IndexOf(s, sep);
    if r.None? {
      SplitWhole(s, sep);
    } else {
      var i := r.value;
      SplitAt(s, sep, i);
      SplitPartsAvoidSep(s[i + |sep|..], sep);
      forall j: nat ensures !OccursAt(s[..i], sep, j) {
        if OccursAt(s[..i], sep, j) { PrefixOccurrence(s, sep, i, j); }
      }
    }
  }

  /** `CountOccurrences` skips a prefix in which `sep` does not start. */
  lemma {:induction false} CountSkip(s: string, sep: string, i: nat)
    requires |sep| > 0 && i <= |s|
    requires forall j: nat :: j < i ==> !OccursAt(s, sep, j)
    ensures CountOccurrences(s, sep) == CountOccurrences(s[i..], sep)
    decreases i
  {
    if i > 0 && |s| >= |sep| {
      assert !OccursAt(s, sep, 0);
      assert s[..|sep|] != sep;
      forall j: nat | j < i - 1 ensures !OccursAt(s[1..], sep, j) {
        OccursAtTail(s, sep, j);
      }
      CountSkip(s[1..], sep, i - 1);
      assert s[1..][i - 1..] == s[i..];
    } else if i > 0 {
      assert CountOccurrences(s[i..], sep) == 0;
    }
  }

  /** `CountOccurrences` counts the leftmost occurrence and goes on after it. */
  lemma {:induction false} CountAt(s: string, sep: string, i: nat)
    requires |sep| > 0 && IndexOf(s, sep) == Some(i)
    ensures i + |sep| <= |s|
    ensures CountOccurrences(s, sep) == 1 + CountOccurrences(s[i + |sep|..], sep)
  {
    IndexOfLeftmost(s, sep);
    CountSkip(s, sep, i);
    var t := s[i..];
    assert t[..|sep|] == s[i..i + |sep|];
    assert t[|sep|..] == s[i + |sep|..];
  }

  /** A split has one more part than there are separator occurrences. */
  lemma {:induction false} SplitCount(s: string, sep: string)
    requires |sep| > 0
    ensures |Split(s, sep)| == CountOccurrences(s, sep) + 1
    decreases |s|
  {
    match IndexOf(s, sep)
    case None =>
      IndexOfLeftmost(s, sep);
      SplitWhole(s, sep);
      CountSkip(s, sep, |s|);
    case Some(i) =>
      var rest := s[i + |sep|..];
      SplitAt(s, sep, i);
      CountAt(s, sep, i);
      SplitCount(rest, sep);
  }

  // ---------------------------------------------------------------------
  // Single-character separators (such as ':' and '/')
  // ---------------------------------------------------------------------

  lemma {:induction false} OccursAtChar(s: string, sep: string, j: nat)
    requires |sep| == 1
    ensures OccursAt(s, sep, j) <==> j < |s| && s[j] == sep[0]
  {
    if j < |s| && s[j] == sep[0] {
      assert s[j..j + 1] == [s[j]];
    }
  }

  /** For a one-character separator, `IndexOf` finds the first position holding it. */
  lemma {:induction false} IndexOfChar(s: string, sep: string, k: nat)
    requires |sep| == 1 && k <= |s|
    requires forall j :: 0 <= j < k ==> s[j] != sep[0]
    requires k < |s| ==> s[k] == sep[0]
    ensures IndexOf(s, sep) == if k < |s| then Some(k) else None
  {
    forall j: nat | j < k ensures !OccursAt(s, sep, j) { OccursAtChar(s, sep, j); }
    IndexOfLeftmost(s, sep);
    var r := IndexOf(s, sep);
    if r.Some? {
      OccursAtChar(s, sep, r.value);
    }
    if k < |s| {
      OccursAtChar(s, sep, k);
    } else {
      forall j: nat ensures !OccursAt(s, sep, j) { OccursAtChar(s, sep, j); }
    }
  }

  /** No part of a split by a one-character separator holds that character. */
  lemma {:induction false} SplitPartsAvoidChar(s: string, sep: string)
    requires |sep| == 1
    ensures forall p :: p in Split(s, sep) ==> sep[0] !in p
  {
    SplitPartsAvoidSep(s, sep);
    forall p | p in Split(s, sep) ensures sep[0] !in p {
      if sep[0] in p {
        var j :| 0 <= j < |p| && p[j] == sep[0];
        OccursAtChar(p, sep, j);
        assert Contains(p, sep);
      }
    }
  }

  function FirstIndexOfChar(s: string, c: char): (k: nat)
    ensures k <= |s|
    ensures forall j :: 0 <= j < k ==> s[j] != c
    ensures k < |s| ==> s[k] == c
  {
    if s == [] || s[0] == c then 0 else 1 + FirstIndexOfChar(s[1..], c)
  }

  /** Splitting on a one-character separator distributes over an occurrence of it. */
  lemma {:induction false} SplitConcat(x: string, y: string, sep: string)
    requires |sep| == 1
    ensures Split(x + sep + y, sep) == Split(x, sep) + Split(y, sep)
    decreases |x|
  {
    var k := FirstIndexOfChar(x, sep[0]);
    ConcatIndex(x, y, sep, k);
    IndexOfChar(x, sep, k);
    if k == |x| {
      SplitAt(x + sep + y, sep, k);
      SplitWhole(x, sep);
      assert x[..k] == x;
    } else {
      var rest := x[k + 1..];
      SplitConcat(rest, y, sep);
      SplitConcatStep(x, y, sep, k, rest);
    }
  }

  lemma {:induction false} SplitConcatStep(x: string, y: string, sep: string, k: nat, rest: string)
    requires |sep| == 1 && k < |x| && rest == x[k + 1..]
    requires IndexOf(x, sep) == Some(k)
    requires IndexOf(x + sep + y, sep) == Some(k)
    requires (x + sep + y)[..k] == x[..k]
    requires (x + sep + y)[k + 1..] == rest + sep + y
    requires Split(rest + sep + y, sep) == Split(rest, sep) + Split(y, sep)
    ensures Split(x + sep + y, sep) == Split(x, sep) + Split(y, sep)
  {
    var s := x + sep + y;
    SplitAt(s, sep, k);
    SplitAt(x, sep, k);
    var h, a, b := x[..k], Split(rest, sep), Split(y, sep);
    assert Split(s, sep) == [h] + (a + b);
    assert Split(x, sep) == [h] + a;
    ConsAssoc(h, a, b);
  }

  lemma {:induction false} ConsAssoc<T>(h: T, a: seq<T>, b: seq<T>)
    ensures [h] + (a + b) == ([h] + a) + b
  {
  }

  /** Where the first separator of `x + sep + y` is, and what surrounds it. */
  lemma {:induction false} ConcatIndex(x: string, y: string, sep: string, k: nat)
    requires |sep| == 1 && k <= |x|
    requires forall j :: 0 <= j < k ==> x[j] != sep[0]
    requires k < |x| ==> x[k] == sep[0]
    ensures IndexOf(x + sep + y, sep) == Some(k)
    ensures (x + sep + y)[..k] == x[..k]
    ensures (x + sep + y)[k + 1..] == if k < |x| then x[k + 1..] + sep + y else y
  {
    var s := x + sep + y;
    IndexOfChar(s, sep, k);
    if k < |x| {
      assert s[k + 1..] == x[k + 1..] + sep + y;
    } else {
      assert s[k + 1..] == y;
    }
  }

  /**
   * For a one-character separator, splitting undoes joining parts that do
   * not hold the separator character.
   */
  lemma {:induction false} JoinSplit(parts: seq<string>, sep: string)
    requires |sep| == 1 && |parts| > 0
    requires forall p :: p in parts ==> sep[0] !in p
    ensures Split(Join(parts, sep), sep) == parts
  {
    var p := parts[0];
    assert p in parts;
    if |parts| == 1 {
      JoinSplitOne(p, sep);
    } else {
      var tail := parts[1..];
      assert parts == [p] + tail;
      JoinCons(p, tail, sep);
      JoinSplit(tail, sep);
      JoinSplitStep(p, tail, Join(tail, sep), sep);
    }
  }

  lemma {:induction false} JoinSplitOne(p: string, sep: string)
    requires |sep| == 1 && sep[0] !in p
    ensures Split(Join([p], sep), sep) == [p]
  {
    IndexOfChar(p, sep, |p|);
    SplitWhole(p, sep);
  }

  lemma {:induction false} JoinSplitStep(p: string, tail: seq<string>, joined: string, sep: string)
    requires |sep| == 1 && sep[0] !in p
    requires Split(joined, sep) == tail
    ensures Split(p + sep + joined, sep) == [p] + tail
  {
    IndexOfChar(p, sep, |p|);
    SplitWhole(p, sep);
    SplitConcat(p, joined, sep);
  }

  /** Empty segments are kept: "a,,b" split on "," is ["a", "", "b"]. */
  lemma {:induction false} SplitKeepsEmptySegments()
    ensures Split("a,,b", ",") == ["a", "", "b"]
  {
    var parts := ["a", "", "b"];
    assert Join(parts, ",") == "a,,b";
    JoinSplit(parts, ",");
  }

  // ---------------------------------------------------------------------
  // trim
  // ---------------------------------------------------------------------

  /** Every character of `t` is whitespace. */
  predicate AllSpace(t: string, isSpace: char -> bool) {
    forall k :: 0 <= k < |t| ==> isSpace(t[k])
  }

  /** `t` neither starts nor ends with whitespace. */
  predicate Trimmed(t: string, isSpace: char -> bool) {
    |t| == 0 || (!isSpace(t[0]) && !isSpace(t[|t| - 1]))
  }

  /** `s` without its leading whitespace. */
  function TrimStart(s: string, isSpace: char -> bool): (r: string)
    ensures |r| <= |s| && r == s[|s| - |r|..]
    ensures AllSpace(s[..|s| - |r|], isSpace)
    ensures |r| == 0 || !isSpace(r[0])
  {
    if |s| > 0 && isSpace(s[0]) then
      var r := TrimStart(s[1..], isSpace);
      TrimStartStep(s, s[1..], r, isSpace);
      r
    else
      s
  }

  lemma {:induction false} TrimStartStep(s: string, t: string, r: string, isSpace: char -> bool)
    requires |s| > 0 && isSpace(s[0]) && t == s[1..]
    requires |r| <= |t| && r == t[|t| - |r|..] && AllSpace(t[..|t| - |r|], isSpace)
    ensures |r| <= |s| && r == s[|s| - |r|..] && AllSpace(s[..|s| - |r|], isSpace)
  {
    var n := |s| - |r|;
    assert t[..n - 1] == s[1..n];
    assert r == s[n..];
    forall k | 0 <= k < n
      ensures isSpace(s[..n][k])
    {
      if k > 0 {
        assert s[..n][k] == t[..n - 1][k - 1];
      }
    }
  }

  /** `s` without its trailing whitespace. */
  function TrimEnd(s: string, isSpace: char -> bool): (r: string)
    ensures |r| <= |s| && r == s[..|r|]
    ensures AllSpace(s[|r|..], isSpace)
    ensures |r| == 0 || !isSpace(r[|r| - 1])
  {
    if |s| > 0 && isSpace(s[|s| - 1]) then
      var r := TrimEnd(s[..|s| - 1], isSpace);
      assert s[..|s| - 1][|r|..] == s[|r|..|s| - 1];
      r
    else
      s
  }

  /**
   * `s.trim()`: `s` without the whitespace at either end; `isSpace` stands
   * for `char::is_whitespace`.
   */
  function Trim(s: string, isSpace: char -> bool): (r: string)
    ensures PaddedInfix(s, r, isSpace)
    ensures Trimmed(r, isSpace)
  {
    var t := TrimStart(s, isSpace);
    var r := TrimEnd(t, isSpace);
    assert |r| > 0 ==> r[0] == t[0];
    InfixWitness(s, t, r, isSpace);
    r
  }

  /** `r` is a contiguous piece of `s` with only whitespace before and after it. */
  ghost predicate PaddedInfix(s: string, r: string, isSpace: char -> bool) {
    exists i :: 0 <= i <= |s| - |r| && r == s[i..i + |r|]
                && AllSpace(s[..i], isSpace) && AllSpace(s[i + |r|..], isSpace)
  }

  lemma {:induction false} InfixWitness(s: string, t: string, r: string, isSpace: char -> bool)
    requires |t| <= |s| && t == s[|s| - |t|..] && AllSpace(s[..|s| - |t|], isSpace)
    requires |r| <= |t| && r == t[..|r|] && AllSpace(t[|r|..], isSpace)
    ensures PaddedInfix(s, r, isSpace)
  {
    var i := |s| - |t|;
    assert s[i..i + |r|] == r;
    assert s[i + |r|..] == t[|r|..];
    assert 0 <= i <= |s| - |r| && r == s[i..i + |r|]
           && AllSpace(s[..i], isSpace) && AllSpace(s[i + |r|..], isSpace);
  }

  lemma {:induction false} TrimStartOf(a: string, t: string, isSpace: char -> bool)
    requires AllSpace(a, isSpace)
    requires |t| == 0 || !isSpace(t[0])
    ensures TrimStart(a + t, isSpace) == t
  {
    if |a| > 0 {
      assert (a + t)[1..] == a[1..] + t;
      TrimStartOf(a[1..], t, isSpace);
    } else {
      assert a + t == t;
    }
  }

  lemma {:induction false} TrimEndOf(t: string, b: string, isSpace: char -> bool)
    requires AllSpace(b, isSpace)
    requires |t| == 0 || !isSpace(t[|t| - 1])
    ensures TrimEnd(t + b, isSpace) == t
  {
    if |b| > 0 {
      assert (t + b)[..|t + b| - 1] == t + b[..|b| - 1];
      TrimEndOf(t, b[..|b| - 1], isSpace);
    } else {
      assert t + b == t;
    }
  }

  /**
   * `Trim` is determined by its contract: whenever `s` is whitespace, then
   * a string that neither starts nor ends with whitespace, then whitespace,
   * the trim of `s` is that middle string.
   */
  lemma {:induction false} TrimUnique(s: string, a: string, m: string, b: string, isSpace: char -> bool)
    requires s == a + m + b
    requires AllSpace(a, isSpace) && AllSpace(b, isSpace) && Trimmed(m, isSpace)
    ensures Trim(s, isSpace) == m
  {
    if |m| == 0 {
      assert s == (a + b) + "";
      TrimStartOf(a + b, "", isSpace);
    } else {
      assert s == a + (m + b);
      TrimStartOf(a, m + b, isSpace);
      TrimEndOf(m, b, isSpace);
    }
  }

  /** Trimming twice is trimming once. */
  lemma {:induction false} TrimIdempotent(s: string, isSpace: char -> bool)
    ensures Trim(Trim(s, isSpace), isSpace) == Trim(s, isSpace)
  {
    TrimOfTrimmed(Trim(s, isSpace), isSpace);
  }

  /** A string without whitespace at its ends is its own trim. */
  lemma {:induction false} TrimOfTrimmed(m: string, isSpace: char -> bool)
    requires Trimmed(m, isSpace)
    ensures Trim(m, isSpace) == m
  {
    assert "" + m == m;
    assert m + "" == m;
    TrimStartOf("", m, isSpace);
    TrimEndOf(m, "", isSpace);
  }

  /** With the blank as whitespace, "  x  " trims to "x". */
  lemma {:induction false} TrimBlanks()
    ensures Trim("  x  ", c => c == ' ') == "x"
  {
    TrimUnique("  x  ", "  ", "x", "  ", c => c == ' ');
  }
}
