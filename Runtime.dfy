/**
 * The part of the launcher's session set-up that the model covers: the
 * global `arg` table built from the process arguments.
 */
module Runtime {

  /**
   * The `arg` table: the process arguments, copied verbatim under the keys
   * 0, 1, ..., so the program name sits under key 0.
   */
  method ArgTable(args: seq<string>) returns (table: map<int, string>)
    ensures forall k :: k in table <==> 0 <= k < |args|
    ensures forall i :: 0 <= i < |args| ==> table[i] == args[i]
  {
    table := map[];
    for i := 0 to |args|
      invariant forall k :: k in table <==> 0 <= k < i
      invariant forall k :: 0 <= k < i ==> table[k] == args[k]
    {
      table := table[i := args[i]];
    }
  }
}
