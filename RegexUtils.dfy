/**
 * The `regex.captures(pattern, text)` function of the launcher's `regex`
 * module. The regex engine is an oracle: `MatchOutcome` is what compiling
 * `pattern` and matching it against `text` reports.
 */
module RegexUtils {
  import opened Wrappers

  /**
   * The engine's answer: the pattern does not compile (with the engine's
   * message), it compiles but does not match, or it matches with `groups`,
   * where group 0 is the whole match and a group that did not take part in
   * the match is None.
   */
  datatype MatchOutcome =
    | InvalidPattern(message: string)
    | NoMatch
    | Matched(groups: seq<Option<string>>)

  /**
   * Build the Lua table of captures: group `i` that took part is stored
   * under key `i + 1`; groups that did not take part leave a hole and later
   * groups keep their numbers. An invalid pattern raises its error.
   */
  method Captures(outcome: MatchOutcome) returns (r: Result<map<int, string>, string>)
    ensures r.Err? <==> outcome.InvalidPattern?
    ensures r.Err? ==> r.error == outcome.message
    ensures outcome.NoMatch? ==> r == Ok(map[])
    ensures outcome.Matched? ==>
              r.Ok?
              && (forall k :: k in r.value <==> 1 <= k <= |outcome.groups| && outcome.groups[k - 1].Some?)
              && (forall k :: k in r.value ==> r.value[k] == outcome.groups[k - 1].value)
  {
    match outcome {
      case InvalidPattern(message) =>
        r := Err(message);
      case NoMatch =>
        r := Ok(map[]);
      case Matched(groups) =>
        var table: map<int, string> := map[];
        for i := 0 to |groups|
          invariant forall k :: k in table <==> 1 <= k <= i && groups[k - 1].Some?
          invariant forall k :: k in table ==> table[k] == groups[k - 1].value
        {
          if groups[i].Some? {
            table := table[i + 1 := groups[i].value];
          }
        }
        r := Ok(table);
    }
  }

  /**
   * Two uses: `(\d+)-(\d+)` on "12-34" gives the whole match then the
   * groups left to right; `(a)(x)?(b)` on "ab" leaves key 3's group in
   * place after the hole at key 2.
   */
  method CapturesUses() {
    var pairs := Captures(Matched([Some("12-34"), Some("12"), Some("34")]));
    assert pairs.Ok?;
    assert forall k :: k in pairs.value <==> 1 <= k <= 3;
    assert pairs.value[1] == "12-34" && pairs.value[2] == "12" && pairs.value[3] == "34";

    var holes := Captures(Matched([Some("ab"), Some("a"), None, Some("b")]));
    assert holes.Ok? && 3 !in holes.value;
    assert holes.value[4] == "b";

    var none := Captures(NoMatch);
    assert none == Ok(map[]);
  }
}
