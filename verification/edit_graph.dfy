/**
  The edit graph of an old row sequence `a` and a new row sequence `b`
  under an identity predicate `same`: grid points (i, j) with a horizontal
  edge (delete a[i]) and a vertical edge (insert b[j]) of cost one each, and
  a free diagonal edge from (i, j) to (i + 1, j + 1) when a[i] and b[j] have
  the same identity. This is the reference against which the search is
  judged minimal.
 */
module EditGraph {
  import opened EditScript

  function Min(x: int, y: int): int { if x <= y then x else y }

  function Max(x: int, y: int): int { if x >= y then x else y }

  /**
    The least number of insertions and deletions that turn the first `i`
    old rows into the first `j` new rows, identity-matched rows being free.
   */
  function Dist<T>(a: seq<T>, b: seq<T>, same: (T, T) -> bool, i: nat, j: nat): (r: nat)
    requires i <= |a| && j <= |b|
    ensures i - j <= r && j - i <= r && r <= i + j
    decreases i + j
  {
    if i == 0 then j
    else if j == 0 then i
    else
      var viaEdit := Min(Dist(a, b, same, i - 1, j), Dist(a, b, same, i, j - 1)) + 1;
      if same(a[i - 1], b[j - 1]) then Min(viaEdit, Dist(a, b, same, i - 1, j - 1))
      else viaEdit
  }

  /**
    Length of a longest common subsequence of the first `i` old rows and
    the first `j` new rows, pairing rows of the same identity.
   */
  function Lcs<T>(a: seq<T>, b: seq<T>, same: (T, T) -> bool, i: nat, j: nat): (r: nat)
    requires i <= |a| && j <= |b|
    ensures r <= i && r <= j
    decreases i + j
  {
    if i == 0 || j == 0 then 0
    else
      var skip := Max(Lcs(a, b, same, i - 1, j), Lcs(a, b, same, i, j - 1));
      if same(a[i - 1], b[j - 1]) then Max(skip, Lcs(a, b, same, i - 1, j - 1) + 1)
      else skip
  }

  /** Edit distance is what is left after the longest common subsequence. */
  lemma {:induction false} DistIsLcs<T>(a: seq<T>, b: seq<T>, same: (T, T) -> bool, i: nat, j: nat)
    requires i <= |a| && j <= |b|
    ensures Dist(a, b, same, i, j) + 2 * Lcs(a, b, same, i, j) == i + j
  {
    AgreeUpTo(a, b, same, i, j);
  }

  /** At (i, j) the edit distance and the longest common subsequence account for all rows. */
  ghost predicate Agree<T>(a: seq<T>, b: seq<T>, same: (T, T) -> bool, i: nat, j: nat)
    requires i <= |a| && j <= |b|
  {
    Dist(a, b, same, i, j) + 2 * Lcs(a, b, same, i, j) == i + j
  }

  /** `Agree` holds at every grid point, by induction on i + j. */
  lemma {:induction false} AgreeUpTo<T>(a: seq<T>, b: seq<T>, same: (T, T) -> bool, i: nat, j: nat)
    requires i <= |a| && j <= |b|
    ensures Agree(a, b, same, i, j)
    decreases i + j
  {
    if i > 0 && j > 0 {
      AgreeUpTo(a, b, same, i - 1, j);
      AgreeUpTo(a, b, same, i, j - 1);
      AgreeUpTo(a, b, same, i - 1, j - 1);
      AgreeStep(a, b, same, i, j);
    }
  }

  /** One step of `AgreeUpTo`: the two recurrences agree at (i, j) when they agree before it. */
  lemma AgreeStep<T>(a: seq<T>, b: seq<T>, same: (T, T) -> bool, i: nat, j: nat)
    requires 0 < i <= |a| && 0 < j <= |b|
    requires Agree(a, b, same, i - 1, j) && Agree(a, b, same, i, j - 1) && Agree(a, b, same, i - 1, j - 1)
    ensures Agree(a, b, same, i, j)
  {
    var up, left := Lcs(a, b, same, i - 1, j), Lcs(a, b, same, i, j - 1);
    var viaEdit := Min(Dist(a, b, same, i - 1, j), Dist(a, b, same, i, j - 1)) + 1;
    assert viaEdit == i + j - 2 * Max(up, left);
  }

  /**
    The last step of a shortest path into (i, j) is a deletion, an insertion,
    or a free diagonal between rows of the same identity.
   */
  lemma DistLastStep<T>(a: seq<T>, b: seq<T>, same: (T, T) -> bool, i: nat, j: nat)
    requires 0 < i <= |a| && j <= |b|
    ensures || Dist(a, b, same, i, j) == Dist(a, b, same, i - 1, j) + 1
            || (0 < j && Dist(a, b, same, i, j) == Dist(a, b, same, i, j - 1) + 1)
            || (0 < j && same(a[i - 1], b[j - 1]) && Dist(a, b, same, i, j) == Dist(a, b, same, i - 1, j - 1))
  {
  }

  /** A sequence is at distance zero from itself when identity is reflexive on it. */
  lemma {:induction false} DistSelf<T>(a: seq<T>, same: (T, T) -> bool, i: nat)
    requires i <= |a|
    requires forall t :: 0 <= t < |a| ==> same(a[t], a[t])
    ensures Dist(a, a, same, i, i) == 0
  {
    if i > 0 {
      DistSelf(a, same, i - 1);
    }
  }

  /** Deleting one more old row costs at most one more edit. */
  lemma DistDelete<T>(a: seq<T>, b: seq<T>, same: (T, T) -> bool, i: nat, j: nat)
    requires i < |a| && j <= |b|
    ensures Dist(a, b, same, i + 1, j) <= Dist(a, b, same, i, j) + 1
  {
  }

  /** Inserting one more new row costs at most one more edit. */
  lemma DistInsert<T>(a: seq<T>, b: seq<T>, same: (T, T) -> bool, i: nat, j: nat)
    requires i <= |a| && j < |b|
    ensures Dist(a, b, same, i, j + 1) <= Dist(a, b, same, i, j) + 1
  {
  }

  /**
    The cost of reaching any point (x, y) of the unbounded quadrant: the
    edit distance on the grid, plus one edit per step beyond it. The
    search's paths may leave the grid, so its bookkeeping is stated against
    this cost.
   */
  function Cost<T>(a: seq<T>, b: seq<T>, same: (T, T) -> bool, x: nat, y: nat): (r: nat)
    ensures x <= |a| && y <= |b| ==> r == Dist(a, b, same, x, y)
    decreases x + y
  {
    if x > |a| then Cost(a, b, same, x - 1, y) + 1
    else if y > |b| then Cost(a, b, same, x, y - 1) + 1
    else Dist(a, b, same, x, y)
  }

  /** Beyond the grid, each step of overshoot costs exactly one more. */
  lemma {:induction false} CostBeyond<T>(a: seq<T>, b: seq<T>, same: (T, T) -> bool, x: nat, y: nat)
    requires |a| <= x && |b| <= y
    ensures Cost(a, b, same, x, y) == Dist(a, b, same, |a|, |b|) + (x - |a|) + (y - |b|)
    decreases x + y
  {
    if x > |a| {
      CostBeyond(a, b, same, x - 1, y);
    } else if y > |b| {
      CostBeyond(a, b, same, x, y - 1);
    }
  }

  /** A horizontal edge into (x, y) costs at most one, on or off the grid. */
  lemma {:induction false} CostDelete<T>(a: seq<T>, b: seq<T>, same: (T, T) -> bool, x: nat, y: nat)
    requires x > 0
    ensures Cost(a, b, same, x, y) <= Cost(a, b, same, x - 1, y) + 1
    decreases y
  {
    if x <= |a| {
      if y > |b| {
        CostDelete(a, b, same, x, y - 1);
      } else {
        DistDelete(a, b, same, x - 1, y);
      }
    }
  }

  /** A vertical edge into (x, y) costs at most one, on or off the grid. */
  lemma {:induction false} CostInsert<T>(a: seq<T>, b: seq<T>, same: (T, T) -> bool, x: nat, y: nat)
    requires y > 0
    ensures Cost(a, b, same, x, y) <= Cost(a, b, same, x, y - 1) + 1
    decreases x
  {
    if x > |a| {
      CostInsert(a, b, same, x - 1, y);
    } else if y <= |b| {
      DistInsert(a, b, same, x, y - 1);
    }
  }

  /** A diagonal edge into (x, y) between rows of the same identity is free. */
  lemma CostMatch<T>(a: seq<T>, b: seq<T>, same: (T, T) -> bool, x: nat, y: nat)
    requires 0 < x <= |a| && 0 < y <= |b| && same(a[x - 1], b[y - 1])
    ensures Cost(a, b, same, x, y) <= Cost(a, b, same, x - 1, y - 1)
  {
  }

  /**
    Soundness of the cost: a path to (x, y), on or off the grid, takes at
    least `Cost(x, y)` insertions and deletions.
   */
  lemma {:induction false} TraceCost<T>(a: seq<T>, b: seq<T>, same: (T, T) -> bool, eq: (T, T) -> bool,
                                        x: nat, y: nat, cs: seq<Change>)
    requires Trace(a, b, same, eq, x, y, cs)
    ensures Cost(a, b, same, x, y) <= EditCount(cs)
    decreases x + y
  {
    var front := if cs == [] then [] else cs[..|cs| - 1];
    if x == 0 && y == 0 && cs == [] {
    } else if x > 0 && cs != [] && cs[|cs| - 1] == Delete(x - 1) && Trace(a, b, same, eq, x - 1, y, front) {
      TraceCost(a, b, same, eq, x - 1, y, front);
      CostDelete(a, b, same, x, y);
    } else if y > 0 && cs != [] && cs[|cs| - 1] == Insert(y - 1) && Trace(a, b, same, eq, x, y - 1, front) {
      TraceCost(a, b, same, eq, x, y - 1, front);
      CostInsert(a, b, same, x, y);
    } else if eq(a[x - 1], b[y - 1]) {
      TraceCost(a, b, same, eq, x - 1, y - 1, cs);
      CostMatch(a, b, same, x, y);
    } else {
      TraceCost(a, b, same, eq, x - 1, y - 1, front);
      CostMatch(a, b, same, x, y);
    }
  }

  /**
    A path that ends at or beyond the far corner (|a|, |b|) takes at least
    the edit distance plus one edit per step of overshoot.
   */
  lemma TraceBeyond<T>(a: seq<T>, b: seq<T>, same: (T, T) -> bool, eq: (T, T) -> bool,
                       x: nat, y: nat, cs: seq<Change>)
    requires |a| <= x && |b| <= y && Trace(a, b, same, eq, x, y, cs)
    ensures Dist(a, b, same, |a|, |b|) + (x - |a|) + (y - |b|) <= EditCount(cs)
  {
    TraceCost(a, b, same, eq, x, y, cs);
    CostBeyond(a, b, same, x, y);
  }

  /**
    A path with no more edits than the edit distance that ends at or beyond
    the far corner ends exactly on it, with exactly that many edits: its
    script is a valid script of minimal cost.
   */
  lemma TraceAtCorner<T>(a: seq<T>, b: seq<T>, same: (T, T) -> bool, eq: (T, T) -> bool,
                         x: nat, y: nat, cs: seq<Change>)
    requires |a| <= x && |b| <= y && Trace(a, b, same, eq, x, y, cs)
    requires EditCount(cs) <= Dist(a, b, same, |a|, |b|)
    ensures x == |a| && y == |b| && EditCount(cs) == Dist(a, b, same, |a|, |b|)
    ensures ValidScript(a, b, same, eq, cs)
  {
    TraceBeyond(a, b, same, eq, x, y, cs);
  }
}
