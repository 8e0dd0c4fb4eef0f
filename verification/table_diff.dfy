/**
  The diff engine of TableDiff.swift, written as in Swift: one array `V`
  of (x, changes) pairs indexed by diagonal k + MAX, filled in round by
  round, and returned from as soon as a path reaches past both ends. Swift
  arrays are values, so `V` is a sequence that the loop rebinds.

  The two public entry points differ only in the content comparison they
  pass down: the first treats no two rows as equal in content, the second
  uses the rows' own equality.
 */
module TableDiff {
  import opened EditScript
  import opened EditGraph
  import opened Myers

  /**
    Slots of `V` hold the paths of round D numbered below `n`: path j sits at
    slot Diagonal(D, j) + max.
   */
  ghost predicate Holds<T>(a: seq<T>, b: seq<T>, same: (T, T) -> bool, eq: (T, T) -> bool,
                           V: seq<Path>, max: int, D: nat, n: nat)
    requires n <= D + 1
  {
    forall j :: 0 <= j < n ==>
      0 <= Diagonal(D, j) + max < |V| && V[Diagonal(D, j) + max] == Furthest(a, b, same, eq, D, j)
  }

  /** Reading one slot that `Holds` covers. */
  lemma HoldsAt<T>(a: seq<T>, b: seq<T>, same: (T, T) -> bool, eq: (T, T) -> bool,
                   V: seq<Path>, max: int, D: nat, n: nat, j: nat, slot: int)
    requires n <= D + 1 && Holds(a, b, same, eq, V, max, D, n)
    requires j < n && slot == Diagonal(D, j) + max
    ensures 0 <= slot < |V| && V[slot] == Furthest(a, b, same, eq, D, j)
  {
  }

  /** Storing path n of round D in its slot extends what `V` holds for round D. */
  lemma HoldsSet<T>(a: seq<T>, b: seq<T>, same: (T, T) -> bool, eq: (T, T) -> bool,
                    V: seq<Path>, max: int, D: nat, n: nat, slot: int, p: Path)
    requires n <= D && Holds(a, b, same, eq, V, max, D, n)
    requires slot == Diagonal(D, n) + max && 0 <= slot < |V|
    requires p == Furthest(a, b, same, eq, D, n)
    ensures Holds(a, b, same, eq, V[slot := p], max, D, n + 1)
  {
  }

  /**
    Round D + 1 writes only diagonals of the other parity, so what `V` holds
    for round D survives it.
   */
  lemma HoldsKeep<T>(a: seq<T>, b: seq<T>, same: (T, T) -> bool, eq: (T, T) -> bool,
                     V: seq<Path>, max: int, D: nat, n: nat, i: nat, slot: int, p: Path)
    requires n <= D + 1 && Holds(a, b, same, eq, V, max, D, n)
    requires slot == Diagonal(D + 1, i) + max && 0 <= slot < |V|
    ensures Holds(a, b, same, eq, V[slot := p], max, D, n)
  {
    forall j | 0 <= j < n
      ensures V[slot := p][Diagonal(D, j) + max] == V[Diagonal(D, j) + max]
    {
      assert Diagonal(D, j) != Diagonal(D + 1, i);
    }
  }

  /**
    What `V` holds when round D opens diagonal k = Diagonal(D, i): the
    slots the opening edit may read.
   */
  ghost predicate Ready<T>(a: seq<T>, b: seq<T>, same: (T, T) -> bool, eq: (T, T) -> bool,
                           V: seq<Path>, max: nat, D: nat)
  {
    && max == |a| + |b| && 0 < max && D <= max && |V| == 2 * max + 1
    && (D == 0 ==> V[1 + max] == Path(0, []))
    && (0 < D ==> Holds(a, b, same, eq, V, max, D - 1, D))
  }

  /** Round 0 opens diagonal 0 from the initial slot above it, at the origin. */
  lemma OriginSlot<T>(a: seq<T>, b: seq<T>, same: (T, T) -> bool, eq: (T, T) -> bool,
                      V: seq<Path>, max: nat, D: nat, i: nat, k: int)
    requires D == 0 && i <= D && k == Diagonal(D, i) && Ready(a, b, same, eq, V, max, D)
    ensures 0 <= k + 1 + max < |V| && V[k + 1 + max] == Path(0, [])
  {
    assert k == 0;
  }

  /**
    The Swift code's insertion branch in a later round (the lowest diagonal, or
    the upper neighbour strictly further) is the choice `OpensByInsert`
    makes, and the slot it reads holds the upper neighbour's path.
   */
  lemma InsertSlot<T>(a: seq<T>, b: seq<T>, same: (T, T) -> bool, eq: (T, T) -> bool,
                      V: seq<Path>, max: nat, D: nat, i: nat, k: int)
    requires 0 < D && i <= D && k == Diagonal(D, i) && Ready(a, b, same, eq, V, max, D)
    requires k == -(D as int) || (k != D && V[k - 1 + max].x < V[k + 1 + max].x)
    ensures i < D && OpensByInsert(a, b, same, eq, D, i)
    ensures 0 <= k + 1 + max < |V| && V[k + 1 + max] == Furthest(a, b, same, eq, D - 1, i)
  {
    assert i < D;
    HoldsAt(a, b, same, eq, V, max, D - 1, D, i, k + 1 + max);
    if i != 0 {
      HoldsAt(a, b, same, eq, V, max, D - 1, D, i - 1, k - 1 + max);
      assert Furthest(a, b, same, eq, D - 1, i - 1).x < Furthest(a, b, same, eq, D - 1, i).x;
    }
  }

  /**
    The Swift code's deletion branch (the highest diagonal, or the lower
    neighbour at least as far) is the choice `OpensByInsert` rejects, and
    the slot it reads holds the lower neighbour's path.
   */
  lemma DeleteSlot<T>(a: seq<T>, b: seq<T>, same: (T, T) -> bool, eq: (T, T) -> bool,
                      V: seq<Path>, max: nat, D: nat, i: nat, k: int)
    requires i <= D && k == Diagonal(D, i) && Ready(a, b, same, eq, V, max, D)
    requires !(k == -(D as int) || (k != D && V[k - 1 + max].x < V[k + 1 + max].x))
    ensures 0 < i && 0 < D && !OpensByInsert(a, b, same, eq, D, i)
    ensures 0 <= k - 1 + max < |V| && V[k - 1 + max] == Furthest(a, b, same, eq, D - 1, i - 1)
  {
    assert 0 < D && 0 < i;
    HoldsAt(a, b, same, eq, V, max, D - 1, D, i - 1, k - 1 + max);
    if i != D {
      HoldsAt(a, b, same, eq, V, max, D - 1, D, i, k + 1 + max);
      assert !(Furthest(a, b, same, eq, D - 1, i - 1).x < Furthest(a, b, same, eq, D - 1, i).x);
    }
  }

  /** Round 0's only path slides from the origin. */
  lemma FurthestAtOrigin<T>(a: seq<T>, b: seq<T>, same: (T, T) -> bool, eq: (T, T) -> bool, D: nat, i: nat)
    requires D == 0 && i <= D
    ensures Furthest(a, b, same, eq, D, i) == Slide(a, b, same, eq, 0, 0, [])
  {
    var s := StepUnfold(a, b, same, eq, D, i, Furthest(a, b, same, eq, D, i));
  }

  /**
    A diagonal opened by an insertion: the path slides from one row below
    where the upper neighbour `p` stopped, with that insertion appended.
   */
  lemma FurthestByInsert<T>(a: seq<T>, b: seq<T>, same: (T, T) -> bool, eq: (T, T) -> bool,
                            D: nat, i: nat, k: int, p: Path)
    requires 0 < D && i < D && k == Diagonal(D, i) && OpensByInsert(a, b, same, eq, D, i)
    requires p == Furthest(a, b, same, eq, D - 1, i)
    ensures 0 <= p.x - k
    ensures Furthest(a, b, same, eq, D, i) == Slide(a, b, same, eq, p.x, p.x - k, p.changes + [Insert(p.x - k - 1)])
  {
    var s := StepUnfold(a, b, same, eq, D, i, Furthest(a, b, same, eq, D, i));
  }

  /**
    A diagonal opened by a deletion: the path slides from one column right
    of where the lower neighbour `p` stopped, with that deletion appended.
   */
  lemma FurthestByDelete<T>(a: seq<T>, b: seq<T>, same: (T, T) -> bool, eq: (T, T) -> bool,
                            D: nat, i: nat, k: int, p: Path)
    requires 0 < D && 0 < i <= D && k == Diagonal(D, i) && !OpensByInsert(a, b, same, eq, D, i)
    requires p == Furthest(a, b, same, eq, D - 1, i - 1)
    ensures 0 <= p.x + 1 - k
    ensures Furthest(a, b, same, eq, D, i) == Slide(a, b, same, eq, p.x + 1, p.x + 1 - k, p.changes + [Delete(p.x)])
  {
    var s := StepUnfold(a, b, same, eq, D, i, Furthest(a, b, same, eq, D, i));
  }

  /**
    The opening edit of the Swift code's inner loop: on diagonal
    k = Diagonal(D, i), take the upper neighbour's slot and append an
    insertion (no edit in round 0), or take the lower neighbour's slot and
    append a deletion. Sliding from the result gives round D's
    furthest-reaching path on that diagonal.
   */
  method Open<T>(a: seq<T>, b: seq<T>, same: (T, T) -> bool, eq: (T, T) -> bool,
                 V: seq<Path>, max: nat, D: nat, k: int, ghost i: nat)
    returns (x: int, changes: seq<Change>)
    requires i <= D && k == Diagonal(D, i) && Ready(a, b, same, eq, V, max, D)
    ensures 0 <= x && 0 <= x - k
    ensures Furthest(a, b, same, eq, D, i) == Slide(a, b, same, eq, x, x - k, changes)
  {
    if k == -(D as int) || (k != D && V[k - 1 + max].x < V[k + 1 + max].x) {
      x, changes := OpenFromAbove(a, b, same, eq, V, max, D, k, i);
    } else {
      x, changes := OpenFromBelow(a, b, same, eq, V, max, D, k, i);
    }
  }

  /**
    The insertion branch: take the path of diagonal k + 1 and, after round
    0, append the insertion of the new row just passed.
   */
  method OpenFromAbove<T>(a: seq<T>, b: seq<T>, same: (T, T) -> bool, eq: (T, T) -> bool,
                          V: seq<Path>, max: nat, D: nat, k: int, ghost i: nat)
    returns (x: int, changes: seq<Change>)
    requires i <= D && k == Diagonal(D, i) && Ready(a, b, same, eq, V, max, D)
    requires k == -(D as int) || (k != D && V[k - 1 + max].x < V[k + 1 + max].x)
    ensures 0 <= x && 0 <= x - k
    ensures Furthest(a, b, same, eq, D, i) == Slide(a, b, same, eq, x, x - k, changes)
  {
    if D == 0 {
      OriginSlot(a, b, same, eq, V, max, D, i, k);
      FurthestAtOrigin(a, b, same, eq, D, i);
    } else {
      InsertSlot(a, b, same, eq, V, max, D, i, k);
      FurthestByInsert(a, b, same, eq, D, i, k, V[k + 1 + max]);
    }
    x, changes := V[k + 1 + max].x, V[k + 1 + max].changes;
    if D != 0 {
      changes := changes + [Insert(x - k - 1)];
    }
  }

  /**
    The deletion branch: take the path of diagonal k - 1, move one old row
    right and append the deletion of the old row just passed.
   */
  method OpenFromBelow<T>(a: seq<T>, b: seq<T>, same: (T, T) -> bool, eq: (T, T) -> bool,
                          V: seq<Path>, max: nat, D: nat, k: int, ghost i: nat)
    returns (x: int, changes: seq<Change>)
    requires i <= D && k == Diagonal(D, i) && Ready(a, b, same, eq, V, max, D)
    requires !(k == -(D as int) || (k != D && V[k - 1 + max].x < V[k + 1 + max].x))
    ensures 0 <= x && 0 <= x - k
    ensures Furthest(a, b, same, eq, D, i) == Slide(a, b, same, eq, x, x - k, changes)
  {
    DeleteSlot(a, b, same, eq, V, max, D, i, k);
    FurthestByDelete(a, b, same, eq, D, i, k, V[k - 1 + max]);
    x, changes := V[k - 1 + max].x, V[k - 1 + max].changes;
    x := x + 1;
    changes := changes + [Delete(x - 1)];
  }

  /**
    One pass of the Swift code's inner loop body, up to storing the result:
    open diagonal k = Diagonal(D, i), then follow it. The result is round
    D's furthest-reaching path on that diagonal.
   */
  method Extend<T>(a: seq<T>, b: seq<T>, same: (T, T) -> bool, eq: (T, T) -> bool,
                   V: seq<Path>, max: nat, D: nat, k: int, ghost i: nat)
    returns (x: int, y: int, changes: seq<Change>)
    requires i <= D && k == Diagonal(D, i) && Ready(a, b, same, eq, V, max, D)
    ensures y == x - k && Path(x, changes) == Furthest(a, b, same, eq, D, i)
  {
    x, changes := Open(a, b, same, eq, V, max, D, k, i);
    y := x - k;
    x, y, changes := Follow(a, b, same, eq, x, y, changes);
  }

  /**
    The Swift code's snake: follow the diagonal from (x0, y0) while the rows
    have the same identity, appending an update for each matched pair whose
    contents differ. It stops on the same diagonal, where the diagonal
    cannot be followed, with the changes `Slide` describes.
   */
  method Follow<T>(a: seq<T>, b: seq<T>, same: (T, T) -> bool, eq: (T, T) -> bool,
                   x0: int, y0: int, changes0: seq<Change>)
    returns (x: int, y: int, changes: seq<Change>)
    requires 0 <= x0 && 0 <= y0
    ensures x0 <= x && x - y == x0 - y0 && Stuck(a, b, same, x, y)
    ensures Path(x, changes) == Slide(a, b, same, eq, x0, y0, changes0)
  {
    x, y, changes := x0, y0, changes0;
    while x < |a| && y < |b| && same(a[x], b[y])
      invariant x0 <= x && x - y == x0 - y0 && 0 <= y
      invariant Slide(a, b, same, eq, x, y, changes) == Slide(a, b, same, eq, x0, y0, changes0)
      decreases |a| - x
    {
      if !eq(a[x], b[y]) {
        changes := changes + [Update(x)];
      }
      x, y := x + 1, y + 1;
    }
  }

  /**
    The private `changes` of TableDiff.swift: round D = 0, 1, ... extends every
    diagonal -D, -D + 2, ..., D and returns the first script that reaches
    past both ends. The search result is `Diff`; the code after the loops
    (`fatalError()`) is unreachable.
   */
  method Changes<T>(a: seq<T>, b: seq<T>, same: (T, T) -> bool, eq: (T, T) -> bool)
    returns (r: seq<Change>)
    ensures Diff(a, b, same, eq) == Some(r)
    ensures ValidScript(a, b, same, eq, r)
  {
    var max := |a| + |b|;
    if max == 0 {
      DiffSucceeds(a, b, same, eq);
      return [];
    }
    var V: seq<Path> := seq(2 * max + 1, _ => Path(0, []));
    var D := 0;
    while D <= max
      invariant |V| == 2 * max + 1
      invariant Search(a, b, same, eq, D, 0) == Search(a, b, same, eq, 0, 0)
      invariant D <= max ==> Ready(a, b, same, eq, V, max, D)
    {
      var found, changes;
      V, found, changes := Round(a, b, same, eq, V, max, D);
      if found {
        DiffSucceeds(a, b, same, eq);
        return changes;
      }
      D := D + 1;
    }
    DiffSucceeds(a, b, same, eq);
    assert false;
  }

  /**
    One pass of the Swift code's inner loop: extend the diagonals -D, -D + 2,
    ..., D of round D in turn, storing each path in `V[k + MAX]`, and stop
    with the first script that reaches past both ends. Without one, `V`
    holds all of round D and the search goes on with round D + 1.
   */
  method Round<T>(a: seq<T>, b: seq<T>, same: (T, T) -> bool, eq: (T, T) -> bool,
                  V0: seq<Path>, max: nat, D: nat)
    returns (V: seq<Path>, found: bool, r: seq<Change>)
    requires Ready(a, b, same, eq, V0, max, D)
    ensures |V| == |V0|
    ensures found ==> Search(a, b, same, eq, D, 0) == Some(r)
    ensures !found ==> Search(a, b, same, eq, D, 0) == Search(a, b, same, eq, D + 1, 0)
    ensures !found && D + 1 <= max ==> Ready(a, b, same, eq, V, max, D + 1)
  {
    V, found, r := V0, false, [];
    var k := -(D as int);
    ghost var i: nat := 0;
    while k <= D
      invariant i <= D + 1 && k == Diagonal(D, i) && |V| == |V0|
      invariant Search(a, b, same, eq, D, i) == Search(a, b, same, eq, D, 0)
      invariant Ready(a, b, same, eq, V, max, D)
      invariant Holds(a, b, same, eq, V, max, D, i)
    {
      var x, y, changes := Extend(a, b, same, eq, V, max, D, k, i);
      Advance(a, b, same, eq, V, max, D, i, k, Path(x, changes));
      V := V[k + max := Path(x, changes)];
      if x >= |a| && y >= |b| {
        return V, true, changes;
      }
      k, i := k + 2, i + 1;
    }
    RoundDone(a, b, same, eq, V, max, D, i);
  }

  /**
    Storing path i of round D keeps `V` ready for the rest of the round, and
    the search either ends with that path's script or moves on to path i + 1.
   */
  lemma Advance<T>(a: seq<T>, b: seq<T>, same: (T, T) -> bool, eq: (T, T) -> bool,
                   V: seq<Path>, max: nat, D: nat, i: nat, k: int, p: Path)
    requires i <= D && k == Diagonal(D, i)
    requires Ready(a, b, same, eq, V, max, D) && Holds(a, b, same, eq, V, max, D, i)
    requires p == Furthest(a, b, same, eq, D, i)
    ensures 0 <= k + max < |V|
    ensures Ready(a, b, same, eq, V[k + max := p], max, D)
    ensures Holds(a, b, same, eq, V[k + max := p], max, D, i + 1)
    ensures p.x >= |a| && p.x - k >= |b| ==> Search(a, b, same, eq, D, i) == Some(p.changes)
    ensures !(p.x >= |a| && p.x - k >= |b|) ==> Search(a, b, same, eq, D, i) == Search(a, b, same, eq, D, i + 1)
  {
    HoldsSet(a, b, same, eq, V, max, D, i, k + max, p);
    if D == 0 {
      assert k + max == max;
    } else {
      HoldsKeep(a, b, same, eq, V, max, D - 1, D, i, k + max, p);
    }
  }

  /** After round D, `V` holds all of it: ready for round D + 1 if there is one. */
  lemma RoundDone<T>(a: seq<T>, b: seq<T>, same: (T, T) -> bool, eq: (T, T) -> bool,
                     V: seq<Path>, max: nat, D: nat, i: nat)
    requires i == D + 1 && |V| == 2 * max + 1 && max == |a| + |b| && 0 < max && D <= max
    requires Holds(a, b, same, eq, V, max, D, i)
    ensures D + 1 <= max ==> Ready(a, b, same, eq, V, max, D + 1)
    ensures Search(a, b, same, eq, D, i) == Search(a, b, same, eq, D + 1, 0)
  {
  }

  /**
    The search's script is consistent as a batch update: applying its
    deletions and insertions to the old row count gives the new row count.
   */
  lemma RowCountsAgree<T>(a: seq<T>, b: seq<T>, same: (T, T) -> bool, eq: (T, T) -> bool)
    ensures Diff(a, b, same, eq).Some?
    ensures |a| - |Deleted(Diff(a, b, same, eq).value)| + |Inserted(Diff(a, b, same, eq).value)| == |b|
  {
    DiffSucceeds(a, b, same, eq);
    var r := Diff(a, b, same, eq).value;
    TraceAligned(a, b, same, eq, |a|, |b|, r);
    AlignedBalance(a, b, same, eq, |a|, |b|, r);
  }

  /** The search never produces `Move`: matching insertions and deletions are not consolidated. */
  lemma NoMoves<T>(a: seq<T>, b: seq<T>, same: (T, T) -> bool, eq: (T, T) -> bool)
    ensures Diff(a, b, same, eq).Some?
    ensures forall c :: c in Diff(a, b, same, eq).value ==> !c.Move?
  {
    DiffSucceeds(a, b, same, eq);
    TraceAligned(a, b, same, eq, |a|, |b|, Diff(a, b, same, eq).value);
  }

  // ----- The two public entry points -----

  /** The content comparison of the identity-only entry point: rows never count as equal. */
  function NeverEqual<T>(x: T, y: T): bool { false }

  /** The content comparison of the equatable entry point: the rows' own equality. */
  function Equal<T(==)>(x: T, y: T): bool { x == y }

  /**
    `changesFrom(_:to:hasSameIdentity:)`: a script with the fewest
    insertions and deletions under the given identity, in which every row
    kept from the old array is reported as updated, since no content
    comparison is available.
   */
  method ChangesFrom<T>(oldArray: seq<T>, newArray: seq<T>, hasSameIdentity: (T, T) -> bool)
    returns (r: seq<Change>)
    ensures Diff(oldArray, newArray, hasSameIdentity, NeverEqual) == Some(r)
    ensures Aligned(oldArray, newArray, hasSameIdentity, NeverEqual, |oldArray|, |newArray|, r)
    ensures forall i :: Update(i) in r <==> 0 <= i < |oldArray| && Delete(i) !in r
    ensures |oldArray| + |newArray| == 0 ==> r == []
    ensures oldArray == newArray && (forall t :: 0 <= t < |oldArray| ==> hasSameIdentity(oldArray[t], oldArray[t]))
            ==> forall i :: Update(i) in r <==> 0 <= i < |oldArray|
  {
    r := Changes(oldArray, newArray, hasSameIdentity, NeverEqual);
    TraceAligned(oldArray, newArray, hasSameIdentity, NeverEqual, |oldArray|, |newArray|, r);
    UpdatesAllKept(oldArray, newArray, hasSameIdentity, |oldArray|, |newArray|, r);
    if oldArray == newArray && (forall t :: 0 <= t < |oldArray| ==> hasSameIdentity(oldArray[t], oldArray[t])) {
      DiffSucceeds(oldArray, newArray, hasSameIdentity, NeverEqual);
      DistSelf(oldArray, hasSameIdentity, |oldArray|);
      NothingDeleted(r);
    }
  }

  /** A script with no insertions or deletions deletes no row. */
  lemma NothingDeleted(cs: seq<Change>)
    requires EditCount(cs) == 0
    ensures forall i :: Delete(i) !in cs
  {
    EditCountSplit(cs);
    forall i
      ensures Delete(i) !in cs
    {
      assert i !in Deleted(cs);
    }
  }

  /**
    With no content comparison, the updated old rows are exactly the kept
    ones: every kept row pairs with a new row, and every pair is reported.
   */
  lemma UpdatesAllKept<T>(a: seq<T>, b: seq<T>, same: (T, T) -> bool, x: int, y: int, cs: seq<Change>)
    requires Aligned(a, b, same, NeverEqual, x, y, cs)
    ensures forall i :: Update(i) in cs <==> 0 <= i < x && Delete(i) !in cs
  {
    var olds, u := KeptOld(cs, x), Updated(cs);
    forall i | 0 <= i < x && Delete(i) !in cs
      ensures Update(i) in cs
    {
      assert i in olds;
      var t :| 0 <= t < |olds| && olds[t] == i;
      assert olds[t] in u;
    }
    forall i | Update(i) in cs
      ensures 0 <= i < x && Delete(i) !in cs
    {
      assert i in u;
      var t :| 0 <= t < |u| && u[t] == i;
    }
  }

  /**
    `changesFrom(_:to:)` for rows that are `Identifiable` and `Equatable`: a
    script with the fewest insertions and deletions under the rows'
    identity, with an update exactly for the kept rows whose contents
    changed. An array compared with itself needs no changes.
   */
  method ChangesFromEquatable<T(==)>(oldArray: seq<T>, newArray: seq<T>, hasSameIdentity: (T, T) -> bool)
    returns (r: seq<Change>)
    ensures Diff(oldArray, newArray, hasSameIdentity, Equal) == Some(r)
    ensures Aligned(oldArray, newArray, hasSameIdentity, Equal, |oldArray|, |newArray|, r)
    ensures |oldArray| + |newArray| == 0 ==> r == []
    ensures oldArray == newArray && (forall t :: 0 <= t < |oldArray| ==> hasSameIdentity(oldArray[t], oldArray[t]))
            ==> r == []
  {
    r := Changes(oldArray, newArray, hasSameIdentity, Equal);
    TraceAligned(oldArray, newArray, hasSameIdentity, Equal, |oldArray|, |newArray|, r);
    if oldArray == newArray && (forall t :: 0 <= t < |oldArray| ==> hasSameIdentity(oldArray[t], oldArray[t])) {
      DiffSucceeds(oldArray, newArray, hasSameIdentity, Equal);
      DistSelf(oldArray, hasSameIdentity, |oldArray|);
      UnchangedTrace(oldArray, hasSameIdentity, Equal, |oldArray|, r);
    }
  }

  /**
    A path from the origin along the main diagonal of an array against
    itself, with no insertions or deletions, records no changes when the
    content comparison holds of every row with itself.
   */
  lemma {:induction false} UnchangedTrace<T>(a: seq<T>, same: (T, T) -> bool, eq: (T, T) -> bool,
                                             x: nat, cs: seq<Change>)
    requires forall t :: 0 <= t < |a| ==> eq(a[t], a[t])
    requires Trace(a, a, same, eq, x, x, cs) && EditCount(cs) == 0
    ensures cs == []
    decreases x
  {
    if cs != [] {
      assert EditCount(cs) == EditCount(cs[..|cs| - 1]) + (if cs[|cs| - 1].Delete? || cs[|cs| - 1].Insert? then 1 else 0);
      UnchangedTrace(a, same, eq, x - 1, cs);
    }
  }

  /**
    Diffing an array against itself gives no changes whenever both the
    identity and the content comparison hold of every row with itself.
    Swift's `Equatable` requires `==` to be reflexive; a row type whose
    `==` is not (a floating-point NaN field) gets an `Update` for each such
    row instead, as `Scenarios.UpdateInPlace` shows.
   */
  lemma SelfDiffEmpty<T>(a: seq<T>, same: (T, T) -> bool, eq: (T, T) -> bool)
    requires forall t :: 0 <= t < |a| ==> same(a[t], a[t])
    requires forall t :: 0 <= t < |a| ==> eq(a[t], a[t])
    ensures Diff(a, a, same, eq) == Some([])
  {
    DiffSucceeds(a, a, same, eq);
    DistSelf(a, same, |a|);
    UnchangedTrace(a, same, eq, |a|, Diff(a, a, same, eq).value);
  }
}
