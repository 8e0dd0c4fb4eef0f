/**
  The greedy shortest-edit-script search of TableDiff.swift, written as pure
  functions. Round `D` of the search computes, for every diagonal
  k = x - y in -D, -D + 2, ..., D, the furthest-reaching path with D
  insertions and deletions. The paths of round D are numbered i = 0 .. D
  from the lowest diagonal up, so path i lies on diagonal
  k = `Diagonal(D, i)` = 2 * i - D; `Furthest(D, i)` is that path, exactly
  as TableDiff.swift leaves it in `V[k + MAX]` after round `D`.

  The search goes on diagonals that leave the grid (x beyond the old rows
  or y beyond the new rows); nothing below assumes x <= |a| or y <= |b|
  except where it is proved.
 */
module Myers {
  import opened EditScript
  import opened EditGraph

  datatype Option<T> = None | Some(value: T)

  /** The furthest x reached on one diagonal, with the changes along the way. */
  datatype Path = Path(x: int, changes: seq<Change>)

  /** The diagonal k = x - y of path i in round D: -D, -D + 2, ..., D. */
  function Diagonal(D: nat, i: nat): int { 2 * i - D }

  /** The diagonal cannot be followed from (x, y): no identity match there. */
  predicate Stuck<T>(a: seq<T>, b: seq<T>, same: (T, T) -> bool, x: int, y: int)
  {
    !(0 <= x < |a| && 0 <= y < |b| && same(a[x], b[y]))
  }

  /**
    Follow the diagonal from (x, y) while the rows have the same identity,
    recording an `Update` for each matched pair whose contents differ.
   */
  function Slide<T>(a: seq<T>, b: seq<T>, same: (T, T) -> bool, eq: (T, T) -> bool,
                    x: nat, y: nat, cs: seq<Change>): (r: Path)
    ensures x <= r.x
    decreases |a| - x
  {
    if x < |a| && y < |b| && same(a[x], b[y]) then
      Slide(a, b, same, eq, x + 1, y + 1, if eq(a[x], b[y]) then cs else cs + [Update(x)])
    else
      Path(x, cs)
  }

  /**
    Whether round D > 0 opens diagonal k = Diagonal(D, i) with an insertion
    from diagonal k + 1 (true) or with a deletion from diagonal k - 1: the
    lowest diagonal can only be reached by an insertion, the highest only by
    a deletion, and in between the neighbour that reached strictly further
    wins, a tie going to the deletion.
   */
  predicate OpensByInsert<T>(a: seq<T>, b: seq<T>, same: (T, T) -> bool, eq: (T, T) -> bool,
                             D: nat, i: nat)
    requires 0 < D && i <= D
    decreases D, 0
  {
    i == 0 || (i != D && Furthest(a, b, same, eq, D - 1, i - 1).x < Furthest(a, b, same, eq, D - 1, i).x)
  }

  /**
    The edit that opens diagonal k in round D, before following the
    diagonal. Round 0 starts from the origin.
   */
  function Step<T>(a: seq<T>, b: seq<T>, same: (T, T) -> bool, eq: (T, T) -> bool,
                   D: nat, i: nat): (r: Path)
    requires i <= D
    ensures 0 <= r.x && Diagonal(D, i) <= r.x
    decreases D, 1
  {
    var k := Diagonal(D, i);
    if D == 0 then Path(0, [])
    else if OpensByInsert(a, b, same, eq, D, i) then
      var p := Furthest(a, b, same, eq, D - 1, i);
      Path(p.x, p.changes + [Insert(p.x - k - 1)])
    else
      var p := Furthest(a, b, same, eq, D - 1, i - 1);
      Path(p.x + 1, p.changes + [Delete(p.x)])
  }

  /** The furthest-reaching path on diagonal `Diagonal(D, i)` after round D. */
  function Furthest<T>(a: seq<T>, b: seq<T>, same: (T, T) -> bool, eq: (T, T) -> bool,
                       D: nat, i: nat): (r: Path)
    requires i <= D
    ensures 0 <= r.x && Diagonal(D, i) <= r.x
    decreases D, 2
  {
    var s := Step(a, b, same, eq, D, i);
    Slide(a, b, same, eq, s.x, s.x - Diagonal(D, i), s.changes)
  }

  /**
    The search from path i of round D on: the first path to reach
    x >= |a| and y >= |b| ends it. `None` is the Swift code's `fatalError()`:
    every round up to |a| + |b| finished without such a path.
   */
  function Search<T>(a: seq<T>, b: seq<T>, same: (T, T) -> bool, eq: (T, T) -> bool,
                     D: nat, i: nat): (r: Option<seq<Change>>)
    requires i <= D + 1
    decreases |a| + |b| + 1 - D, D + 1 - i
  {
    if D > |a| + |b| then None
    else if i > D then Search(a, b, same, eq, D + 1, 0)
    else
      var p := Furthest(a, b, same, eq, D, i);
      if p.x >= |a| && p.x - Diagonal(D, i) >= |b| then Some(p.changes)
      else Search(a, b, same, eq, D, i + 1)
  }

  /** The whole search: empty inputs need no changes. */
  function Diff<T>(a: seq<T>, b: seq<T>, same: (T, T) -> bool, eq: (T, T) -> bool): Option<seq<Change>>
  {
    if |a| + |b| == 0 then Some([]) else Search(a, b, same, eq, 0, 0)
  }

  // ----- One round, unfolded -----

  /**
    `s` is where the opening edit of diagonal k = Diagonal(D, i) lands in
    round D: the origin in round 0, otherwise one row further down (an
    insertion) from diagonal k + 1 or one row further right (a deletion)
    from diagonal k - 1, as `OpensByInsert` chooses.
   */
  predicate Opens<T>(a: seq<T>, b: seq<T>, same: (T, T) -> bool, eq: (T, T) -> bool,
                     D: nat, i: nat, s: Path)
    requires i <= D
  {
    && (D == 0 ==> s.x == 0 && s.x - Diagonal(D, i) == 0 && s.changes == [])
    && (0 < D && OpensByInsert(a, b, same, eq, D, i) ==>
          var p := Furthest(a, b, same, eq, D - 1, i);
          && s.x == p.x && s.x - Diagonal(D, i) == p.x - Diagonal(D - 1, i) + 1
          && s.changes == p.changes + [Insert(p.x - Diagonal(D - 1, i))])
    && (0 < D && !OpensByInsert(a, b, same, eq, D, i) ==>
          var p := Furthest(a, b, same, eq, D - 1, i - 1);
          && s.x == p.x + 1 && s.x - Diagonal(D, i) == p.x - Diagonal(D - 1, i - 1)
          && s.changes == p.changes + [Delete(p.x)])
  }

  /** Round D's path on a diagonal is the slide from where its opening edit lands. */
  lemma StepUnfold<T>(a: seq<T>, b: seq<T>, same: (T, T) -> bool, eq: (T, T) -> bool,
                      D: nat, i: nat, r: Path) returns (s: Path)
    requires i <= D && r == Furthest(a, b, same, eq, D, i)
    ensures 0 <= s.x && Diagonal(D, i) <= s.x
    ensures Opens(a, b, same, eq, D, i, s)
    ensures r == Slide(a, b, same, eq, s.x, s.x - Diagonal(D, i), s.changes)
  {
    s := Step(a, b, same, eq, D, i);
  }

  // ----- Soundness: every path the search builds is a real edit path -----

  /**
    Following the diagonal extends a trace: if `cs` traces a path to (x, y)
    on diagonal k, the changes of the slide `r` from there trace a path to
    where it stops, with no more insertions or deletions than before.
   */
  lemma {:induction false} SlideTrace<T>(a: seq<T>, b: seq<T>, same: (T, T) -> bool, eq: (T, T) -> bool,
                                         k: int, x: nat, y: nat, cs: seq<Change>, r: Path)
    requires y == x - k && r == Slide(a, b, same, eq, x, y, cs)
    requires Trace(a, b, same, eq, x, y, cs)
    ensures r.x - k >= 0 && Trace(a, b, same, eq, r.x, r.x - k, r.changes)
    ensures EditCount(r.changes) == EditCount(cs)
    decreases |a| - x
  {
    if x < |a| && y < |b| && same(a[x], b[y]) {
      TraceMatch(a, b, same, eq, x, y, cs);
      EditCountAppend(cs, Update(x));
      SlideTrace(a, b, same, eq, k, x + 1, y + 1, if eq(a[x], b[y]) then cs else cs + [Update(x)], r);
    } else {
      assert r.x - k == y && r.changes == cs;
    }
  }

  /** The opening edit of round D extends a path of round D - 1 by one edit. */
  lemma {:induction false} StepTrace<T>(a: seq<T>, b: seq<T>, same: (T, T) -> bool, eq: (T, T) -> bool,
                                        D: nat, i: nat, s: Path)
    requires i <= D && Opens(a, b, same, eq, D, i, s)
    ensures s.x - Diagonal(D, i) >= 0 && Trace(a, b, same, eq, s.x, s.x - Diagonal(D, i), s.changes)
    ensures EditCount(s.changes) == D
    decreases D, 1
  {
    if D == 0 {
      TraceStart(a, b, same, eq);
    } else if OpensByInsert(a, b, same, eq, D, i) {
      InsertTrace(a, b, same, eq, D, i, Furthest(a, b, same, eq, D - 1, i), s);
    } else {
      DeleteTrace(a, b, same, eq, D, i, Furthest(a, b, same, eq, D - 1, i - 1), s);
    }
  }

  /** An insertion opening diagonal k extends the trace of diagonal k + 1. */
  lemma {:induction false} InsertTrace<T>(a: seq<T>, b: seq<T>, same: (T, T) -> bool, eq: (T, T) -> bool,
                                          D: nat, i: nat, p: Path, s: Path)
    requires 0 < D && i < D && p == Furthest(a, b, same, eq, D - 1, i)
    requires s.x == p.x && s.x - Diagonal(D, i) == p.x - Diagonal(D - 1, i) + 1
    requires s.changes == p.changes + [Insert(p.x - Diagonal(D - 1, i))]
    ensures s.x - Diagonal(D, i) >= 0 && Trace(a, b, same, eq, s.x, s.x - Diagonal(D, i), s.changes)
    ensures EditCount(s.changes) == D
    decreases D, 0
  {
    FurthestTrace(a, b, same, eq, D - 1, i, p);
    TraceInsert(a, b, same, eq, p.x, p.x - Diagonal(D - 1, i), p.changes);
    EditCountAppend(p.changes, Insert(p.x - Diagonal(D - 1, i)));
  }

  /** A deletion opening diagonal k extends the trace of diagonal k - 1. */
  lemma {:induction false} DeleteTrace<T>(a: seq<T>, b: seq<T>, same: (T, T) -> bool, eq: (T, T) -> bool,
                                          D: nat, i: nat, p: Path, s: Path)
    requires 0 < i <= D && p == Furthest(a, b, same, eq, D - 1, i - 1)
    requires s.x == p.x + 1 && s.x - Diagonal(D, i) == p.x - Diagonal(D - 1, i - 1)
    requires s.changes == p.changes + [Delete(p.x)]
    ensures s.x - Diagonal(D, i) >= 0 && Trace(a, b, same, eq, s.x, s.x - Diagonal(D, i), s.changes)
    ensures EditCount(s.changes) == D
    decreases D, 0
  {
    FurthestTrace(a, b, same, eq, D - 1, i - 1, p);
    TraceDelete(a, b, same, eq, p.x, p.x - Diagonal(D - 1, i - 1), p.changes);
    EditCountAppend(p.changes, Delete(p.x));
  }

  /**
    The script of every furthest-reaching path of round D traces a monotone
    path with exactly D insertions and deletions to its end point, on or off
    the grid.
   */
  lemma {:induction false} FurthestTrace<T>(a: seq<T>, b: seq<T>, same: (T, T) -> bool, eq: (T, T) -> bool,
                                            D: nat, i: nat, r: Path)
    requires i <= D && r == Furthest(a, b, same, eq, D, i)
    ensures r.x - Diagonal(D, i) >= 0 && Trace(a, b, same, eq, r.x, r.x - Diagonal(D, i), r.changes)
    ensures EditCount(r.changes) == D
    decreases D, 2
  {
    var s := StepUnfold(a, b, same, eq, D, i, r);
    StepTrace(a, b, same, eq, D, i, s);
    SlideTrace(a, b, same, eq, Diagonal(D, i), s.x, s.x - Diagonal(D, i), s.changes, r);
  }

  // ----- Completeness: the search reaches as far as any edit path -----

  /** Round D reaches at least as far as either neighbour did in round D - 1, plus the edit. */
  lemma StepAdvances<T>(a: seq<T>, b: seq<T>, same: (T, T) -> bool, eq: (T, T) -> bool,
                        D: nat, i: nat, r: Path)
    requires 1 <= D && i <= D && r == Furthest(a, b, same, eq, D, i)
    ensures i != D ==> Furthest(a, b, same, eq, D - 1, i).x <= r.x
    ensures i != 0 ==> Furthest(a, b, same, eq, D - 1, i - 1).x + 1 <= r.x
  {
    var s := StepUnfold(a, b, same, eq, D, i, r);
  }

  /** A slide along diagonal k stops only where the diagonal cannot be followed. */
  lemma {:induction false} SlideStuck<T>(a: seq<T>, b: seq<T>, same: (T, T) -> bool, eq: (T, T) -> bool,
                                         k: int, x: nat, y: nat, cs: seq<Change>, r: Path)
    requires y == x - k && r == Slide(a, b, same, eq, x, y, cs)
    ensures Stuck(a, b, same, r.x, r.x - k)
    decreases |a| - x
  {
    if x < |a| && y < |b| && same(a[x], b[y]) {
      SlideStuck(a, b, same, eq, k, x + 1, y + 1, if eq(a[x], b[y]) then cs else cs + [Update(x)], r);
    } else {
      assert r.x == x;
    }
  }

  /** Every furthest-reaching path ends where its diagonal cannot be followed. */
  lemma FurthestStuck<T>(a: seq<T>, b: seq<T>, same: (T, T) -> bool, eq: (T, T) -> bool,
                         D: nat, i: nat, r: Path)
    requires i <= D && r == Furthest(a, b, same, eq, D, i)
    ensures Stuck(a, b, same, r.x, r.x - Diagonal(D, i))
  {
    var s := StepUnfold(a, b, same, eq, D, i, r);
    SlideStuck(a, b, same, eq, Diagonal(D, i), s.x, s.x - Diagonal(D, i), s.changes, r);
  }

  /** A path that stops on a diagonal stops beyond every identity match it has passed there. */
  lemma StuckPastMatch<T>(a: seq<T>, b: seq<T>, same: (T, T) -> bool, k: int, x0: nat, y0: nat, x: int)
    requires y0 == x0 - k && x0 < |a| && y0 < |b| && same(a[x0], b[y0])
    requires x0 <= x && Stuck(a, b, same, x, x - k)
    ensures x0 < x
  {
  }

  /**
    Furthest-reaching: if grid point (x, y) on diagonal k = Diagonal(D, i)
    is within D edits of the origin, round D gets at least as far as x there.
   */
  lemma {:induction false} FurthestReaches<T>(a: seq<T>, b: seq<T>, same: (T, T) -> bool, eq: (T, T) -> bool,
                                              D: nat, i: nat, x: nat, y: nat, r: Path)
    requires i <= D && x <= |a| && y <= |b| && y == x - Diagonal(D, i)
    requires Dist(a, b, same, x, y) <= D
    requires r == Furthest(a, b, same, eq, D, i)
    ensures x <= r.x
    decreases D, x, 1
  {
    if x == 0 {
      return;
    }
    DistLastStep(a, b, same, x, y);
    if Dist(a, b, same, x - 1, y) + 1 <= D {
      ReachesByDelete(a, b, same, eq, D, i, x, y, r);
    } else if 0 < y && Dist(a, b, same, x, y - 1) + 1 <= D {
      ReachesByInsert(a, b, same, eq, D, i, x, y, r);
    } else {
      ReachesByMatch(a, b, same, eq, D, i, x, y, r);
    }
  }

  /** (x, y) is within D edits through a deletion from (x - 1, y) on diagonal k - 1. */
  lemma {:induction false} ReachesByDelete<T>(a: seq<T>, b: seq<T>, same: (T, T) -> bool, eq: (T, T) -> bool,
                                              D: nat, i: nat, x: nat, y: nat, r: Path)
    requires i <= D && 0 < x <= |a| && y <= |b| && y == x - Diagonal(D, i)
    requires Dist(a, b, same, x - 1, y) + 1 <= D
    requires r == Furthest(a, b, same, eq, D, i)
    ensures x <= r.x
    decreases D, x, 0
  {
    assert 0 < i;
    var p := Furthest(a, b, same, eq, D - 1, i - 1);
    FurthestReaches(a, b, same, eq, D - 1, i - 1, x - 1, y, p);
    StepAdvances(a, b, same, eq, D, i, r);
  }

  /** (x, y) is within D edits through an insertion from (x, y - 1) on diagonal k + 1. */
  lemma {:induction false} ReachesByInsert<T>(a: seq<T>, b: seq<T>, same: (T, T) -> bool, eq: (T, T) -> bool,
                                              D: nat, i: nat, x: nat, y: nat, r: Path)
    requires i <= D && x <= |a| && 0 < y <= |b| && y == x - Diagonal(D, i)
    requires Dist(a, b, same, x, y - 1) + 1 <= D
    requires r == Furthest(a, b, same, eq, D, i)
    ensures x <= r.x
    decreases D, x, 0
  {
    assert i < D;
    var p := Furthest(a, b, same, eq, D - 1, i);
    FurthestReaches(a, b, same, eq, D - 1, i, x, y - 1, p);
    StepAdvances(a, b, same, eq, D, i, r);
  }

  /**
    (x, y) is within D edits through the free diagonal from (x - 1, y - 1):
    round D reaches (x - 1, y - 1) on the same diagonal and cannot stop there.
   */
  lemma {:induction false} ReachesByMatch<T>(a: seq<T>, b: seq<T>, same: (T, T) -> bool, eq: (T, T) -> bool,
                                             D: nat, i: nat, x: nat, y: nat, r: Path)
    requires i <= D && 0 < x <= |a| && 0 < y <= |b| && y == x - Diagonal(D, i)
    requires same(a[x - 1], b[y - 1]) && Dist(a, b, same, x - 1, y - 1) <= D
    requires r == Furthest(a, b, same, eq, D, i)
    ensures x <= r.x
    decreases D, x, 0
  {
    FurthestReaches(a, b, same, eq, D, i, x - 1, y - 1, r);
    FurthestStuck(a, b, same, eq, D, i, r);
    StuckPastMatch(a, b, same, Diagonal(D, i), x - 1, y - 1, r.x);
  }

  // ----- The search ends exactly on (|a|, |b|) after Dist rounds -----

  /**
    Continuing from path i of round D, before the round that equals the
    edit distance has passed diagonal |a| - |b|, the search returns a valid
    script with exactly Dist insertions and deletions.
   */
  lemma {:induction false} SearchSucceeds<T>(a: seq<T>, b: seq<T>, same: (T, T) -> bool, eq: (T, T) -> bool,
                                             D: nat, i: nat)
    requires i <= D + 1
    requires D <= Dist(a, b, same, |a|, |b|)
    requires D == Dist(a, b, same, |a|, |b|) ==> Diagonal(D, i) <= |a| - |b|
    ensures Search(a, b, same, eq, D, i).Some?
    ensures ValidScript(a, b, same, eq, Search(a, b, same, eq, D, i).value)
    ensures EditCount(Search(a, b, same, eq, D, i).value) == Dist(a, b, same, |a|, |b|)
  {
    SolvedFrom(a, b, same, eq, D, i);
  }

  /** The search result is a valid script with exactly edit-distance many edits. */
  ghost predicate Solves<T>(a: seq<T>, b: seq<T>, same: (T, T) -> bool, eq: (T, T) -> bool,
                            o: Option<seq<Change>>)
  {
    o.Some? && ValidScript(a, b, same, eq, o.value) && EditCount(o.value) == Dist(a, b, same, |a|, |b|)
  }

  /** `SearchSucceeds` by induction on the rounds and paths still to scan. */
  lemma {:induction false} SolvedFrom<T>(a: seq<T>, b: seq<T>, same: (T, T) -> bool, eq: (T, T) -> bool,
                                         D: nat, i: nat)
    requires i <= D + 1
    requires D <= Dist(a, b, same, |a|, |b|)
    requires D == Dist(a, b, same, |a|, |b|) ==> Diagonal(D, i) <= |a| - |b|
    ensures Solves(a, b, same, eq, Search(a, b, same, eq, D, i))
    decreases |a| + |b| + 1 - D, D + 1 - i
  {
    if i > D {
      SolvedFrom(a, b, same, eq, D + 1, 0);
      assert Search(a, b, same, eq, D, i) == Search(a, b, same, eq, D + 1, 0);
    } else {
      var p := Furthest(a, b, same, eq, D, i);
      if p.x >= |a| && p.x - Diagonal(D, i) >= |b| {
        FurthestWalk(a, b, same, eq, D, i, p);
        WalkSolves(a, b, same, eq, D, p.x, p.x - Diagonal(D, i), p.changes);
        assert Search(a, b, same, eq, D, i) == Some(p.changes);
      } else {
        if D == Dist(a, b, same, |a|, |b|) {
          if Diagonal(D, i) == |a| - |b| {
            CornerReached(a, b, same, eq, D, i, p);
            assert false;
          }
          DiagonalParity(a, b, same, D, i);
        }
        SolvedFrom(a, b, same, eq, D, i + 1);
        assert Search(a, b, same, eq, D, i) == Search(a, b, same, eq, D, i + 1);
      }
    }
  }

  /** `cs` is a path of D insertions and deletions from the origin to (x, y). */
  ghost predicate Walk<T>(a: seq<T>, b: seq<T>, same: (T, T) -> bool, eq: (T, T) -> bool,
                          D: nat, x: int, y: int, cs: seq<Change>)
  {
    0 <= x && 0 <= y && Trace(a, b, same, eq, x, y, cs) && EditCount(cs) == D
  }

  /** `FurthestTrace`, stated as a `Walk`. */
  lemma FurthestWalk<T>(a: seq<T>, b: seq<T>, same: (T, T) -> bool, eq: (T, T) -> bool,
                        D: nat, i: nat, p: Path)
    requires i <= D && p == Furthest(a, b, same, eq, D, i)
    ensures Walk(a, b, same, eq, D, p.x, p.x - Diagonal(D, i), p.changes)
  {
    FurthestTrace(a, b, same, eq, D, i, p);
  }

  /**
    A walk of D edits that reaches x >= |a| and y >= |b| without exceeding
    the edit distance ends exactly on (|a|, |b|), after exactly the edit
    distance many edits, and its script solves the search.
   */
  lemma WalkSolves<T>(a: seq<T>, b: seq<T>, same: (T, T) -> bool, eq: (T, T) -> bool,
                      D: nat, x: int, y: int, cs: seq<Change>)
    requires Walk(a, b, same, eq, D, x, y, cs)
    requires |a| <= x && |b| <= y && D <= Dist(a, b, same, |a|, |b|)
    ensures x == |a| && y == |b| && D == Dist(a, b, same, |a|, |b|)
    ensures Solves(a, b, same, eq, Some(cs))
  {
    TraceAtCorner(a, b, same, eq, x, y, cs);
  }

  /** In the round equal to the edit distance, the path on diagonal |a| - |b| reaches the corner. */
  lemma CornerReached<T>(a: seq<T>, b: seq<T>, same: (T, T) -> bool, eq: (T, T) -> bool,
                         D: nat, i: nat, p: Path)
    requires i <= D && p == Furthest(a, b, same, eq, D, i)
    requires D == Dist(a, b, same, |a|, |b|) && Diagonal(D, i) == |a| - |b|
    ensures p.x >= |a| && p.x - Diagonal(D, i) >= |b|
  {
    FurthestReaches(a, b, same, eq, D, i, |a|, |b|, p);
  }

  /**
    The diagonals of the round equal to the edit distance have the parity
    of |a| - |b|: one below it is two below it.
   */
  lemma DiagonalParity<T>(a: seq<T>, b: seq<T>, same: (T, T) -> bool, D: nat, i: nat)
    requires D == Dist(a, b, same, |a|, |b|) && Diagonal(D, i) < |a| - |b|
    ensures Diagonal(D, i) + 2 <= |a| - |b|
  {
    DistIsLcs(a, b, same, |a|, |b|);
    var lcs := Lcs(a, b, same, |a|, |b|);
    assert |a| - |b| - Diagonal(D, i) == 2 * (|a| - i - lcs);
  }

  /**
    The search never reaches `fatalError()`: it returns a valid script
    whose insertions and deletions number exactly the edit distance.
   */
  lemma DiffSucceeds<T>(a: seq<T>, b: seq<T>, same: (T, T) -> bool, eq: (T, T) -> bool)
    ensures Diff(a, b, same, eq).Some?
    ensures ValidScript(a, b, same, eq, Diff(a, b, same, eq).value)
    ensures EditCount(Diff(a, b, same, eq).value) == Dist(a, b, same, |a|, |b|)
  {
    if |a| + |b| == 0 {
      TraceStart(a, b, same, eq);
      assert |a| == 0 && |b| == 0;
    } else {
      SearchSucceeds(a, b, same, eq, 0, 0);
    }
  }
}
