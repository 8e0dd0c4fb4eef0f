/**
  The script the search returns has the fewest insertions and deletions:
  no valid script of the same two row sequences has fewer, and the count
  it has is what the longest identity-matched common subsequence leaves over.
 */
module Optimality {
  import opened EditScript
  import opened EditGraph
  import opened Myers

  /** Every valid script takes at least the edit distance in insertions and deletions. */
  lemma NoShorterScript<T>(a: seq<T>, b: seq<T>, same: (T, T) -> bool, eq: (T, T) -> bool, cs: seq<Change>)
    requires ValidScript(a, b, same, eq, cs)
    ensures Dist(a, b, same, |a|, |b|) <= EditCount(cs)
  {
    TraceCost(a, b, same, eq, |a|, |b|, cs);
  }

  /**
    The search's script is valid, and its insertions plus deletions are no
    more than any other valid script's; it deletes and inserts exactly
    the rows outside a longest common subsequence.
   */
  lemma DiffMinimal<T>(a: seq<T>, b: seq<T>, same: (T, T) -> bool, eq: (T, T) -> bool, cs: seq<Change>)
    requires ValidScript(a, b, same, eq, cs)
    ensures Diff(a, b, same, eq).Some?
    ensures EditCount(Diff(a, b, same, eq).value) <= EditCount(cs)
    ensures |Deleted(Diff(a, b, same, eq).value)| + |Inserted(Diff(a, b, same, eq).value)|
            == |a| + |b| - 2 * Lcs(a, b, same, |a|, |b|)
  {
    DiffSucceeds(a, b, same, eq);
    NoShorterScript(a, b, same, eq, cs);
    DistIsLcs(a, b, same, |a|, |b|);
    EditCountSplit(Diff(a, b, same, eq).value);
  }

  /**
    The search's insertions and deletions never outnumber the rows of both
    sequences: deleting every old row and inserting every new one is the
    worst case.
   */
  lemma DiffWithinMax<T>(a: seq<T>, b: seq<T>, same: (T, T) -> bool, eq: (T, T) -> bool)
    ensures Diff(a, b, same, eq).Some?
    ensures |Deleted(Diff(a, b, same, eq).value)| + |Inserted(Diff(a, b, same, eq).value)| <= |a| + |b|
  {
    DiffSucceeds(a, b, same, eq);
    EditCountSplit(Diff(a, b, same, eq).value);
  }

  /**
    The edit distance is attained: some valid script has exactly that many
    insertions and deletions, and no valid script has fewer.
   */
  lemma DistAttained<T>(a: seq<T>, b: seq<T>, same: (T, T) -> bool, eq: (T, T) -> bool)
    ensures exists cs :: ValidScript(a, b, same, eq, cs) && EditCount(cs) == Dist(a, b, same, |a|, |b|)
    ensures forall cs :: ValidScript(a, b, same, eq, cs) ==> Dist(a, b, same, |a|, |b|) <= EditCount(cs)
  {
    DiffSucceeds(a, b, same, eq);
    var r := Diff(a, b, same, eq).value;
    assert ValidScript(a, b, same, eq, r) && EditCount(r) == Dist(a, b, same, |a|, |b|);
    forall cs | ValidScript(a, b, same, eq, cs)
      ensures Dist(a, b, same, |a|, |b|) <= EditCount(cs)
    {
      NoShorterScript(a, b, same, eq, cs);
    }
  }
}
