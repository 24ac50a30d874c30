/** Poll observations: one store's status at one UTC instant. */
module Samples {
  import opened Selection

  type StoreId = string

  /** The source compares the status column with 'active'; any other value counts
      as inactive. */
  datatype Status = Active | Inactive

  /** A row of the `store_status` table with its timestamp already parsed, as whole
      seconds since the epoch. */
  datatype Sample = Sample(store: StoreId, instant: int, status: Status)

  /** Timestamps never decrease along the sequence. */
  ghost predicate Ascending(s: seq<Sample>) {
    forall i, j :: 0 <= i < j < |s| ==> s[i].instant <= s[j].instant
  }

  /** Any order-preserving selection of an ascending sequence is ascending. */
  lemma SelectKeepsAscending(s: seq<Sample>, keep: Sample -> bool)
    requires Ascending(s)
    ensures Ascending(Select(s, keep))
  {
    var ix := SelectIsOrderedSubsequence(s, keep);
  }
}
