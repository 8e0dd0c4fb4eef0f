/**
  Edit scripts: the `Change` values the diff engine emits, the index lists a
  script names, and what it means for a script to describe a monotone path
  through the edit graph of an old and a new row sequence.

  A script is read the way a table view applies a batch update: `Delete`
  indices refer to the old rows, `Insert` indices to the new rows, and
  `Update` indices to the old position of a row that survives but whose
  content changed.
 */
module EditScript {

  /** One edit operation; `Move` is declared in TableDiff.swift but never produced. */
  datatype Change =
    | Insert(index: int)
    | Update(index: int)
    | Delete(index: int)
    | Move(fromIndex: int, toIndex: int)

  /** Strictly increasing, in order of appearance. */
  ghost predicate Increasing(s: seq<int>)
  {
    forall i, j :: 0 <= i < j < |s| ==> s[i] < s[j]
  }

  /** Every element lies in `[0, bound)`. */
  ghost predicate Within(s: seq<int>, bound: int)
  {
    forall i :: 0 <= i < |s| ==> 0 <= s[i] < bound
  }

  /** The old-row indices named by `Delete` entries, in script order. */
  function Deleted(cs: seq<Change>): (r: seq<int>)
    ensures |r| <= |cs|
    ensures forall i {:trigger i in r} :: i in r <==> Delete(i) in cs
  {
    if cs == [] then []
    else
      var last := cs[|cs| - 1];
      assert cs == cs[..|cs| - 1] + [last];
      Deleted(cs[..|cs| - 1]) + (if last.Delete? then [last.index] else [])
  }

  /** The new-row indices named by `Insert` entries, in script order. */
  function Inserted(cs: seq<Change>): (r: seq<int>)
    ensures |r| <= |cs|
    ensures forall i {:trigger i in r} :: i in r <==> Insert(i) in cs
  {
    if cs == [] then []
    else
      var last := cs[|cs| - 1];
      assert cs == cs[..|cs| - 1] + [last];
      Inserted(cs[..|cs| - 1]) + (if last.Insert? then [last.index] else [])
  }

  /** The old-row indices named by `Update` entries, in script order. */
  function Updated(cs: seq<Change>): (r: seq<int>)
    ensures |r| <= |cs|
    ensures forall i {:trigger i in r} :: i in r <==> Update(i) in cs
  {
    if cs == [] then []
    else
      var last := cs[|cs| - 1];
      assert cs == cs[..|cs| - 1] + [last];
      Updated(cs[..|cs| - 1]) + (if last.Update? then [last.index] else [])
  }

  /** Appending one change extends exactly one of the three index lists. */
  lemma AppendChange(cs: seq<Change>, c: Change)
    ensures Deleted(cs + [c]) == Deleted(cs) + (if c.Delete? then [c.index] else [])
    ensures Inserted(cs + [c]) == Inserted(cs) + (if c.Insert? then [c.index] else [])
    ensures Updated(cs + [c]) == Updated(cs) + (if c.Update? then [c.index] else [])
  {
    assert (cs + [c])[..|cs|] == cs;
  }

  /** The indices in `[0, bound)` that `removed` does not name, in increasing order. */
  function Kept(removed: seq<int>, bound: int): (r: seq<int>)
    ensures Increasing(r)
    ensures forall i {:trigger i in r} :: i in r <==> 0 <= i < bound && i !in removed
    decreases bound
  {
    if bound <= 0 then []
    else
      var prev := Kept(removed, bound - 1);
      assert forall i :: 0 <= i < |prev| ==> prev[i] < bound - 1 by {
        forall i | 0 <= i < |prev| ensures prev[i] < bound - 1 {
          assert prev[i] in prev;
        }
      }
      prev + (if bound - 1 in removed then [] else [bound - 1])
  }

  /** The old rows a script keeps among the first `x`. */
  function KeptOld(cs: seq<Change>, x: int): seq<int>
  {
    Kept(Deleted(cs), x)
  }

  /** The new rows a script does not insert among the first `y`. */
  function KeptNew(cs: seq<Change>, y: int): seq<int>
  {
    Kept(Inserted(cs), y)
  }

  /** Number of insertions plus deletions: the cost of a script. */
  function EditCount(cs: seq<Change>): (r: nat)
    ensures r <= |cs|
  {
    if cs == [] then 0
    else EditCount(cs[..|cs| - 1]) + (if cs[|cs| - 1].Delete? || cs[|cs| - 1].Insert? then 1 else 0)
  }

  /** Appending one change adds one to the cost exactly when it is an insertion or a deletion. */
  lemma EditCountAppend(cs: seq<Change>, c: Change)
    ensures EditCount(cs + [c]) == EditCount(cs) + (if c.Delete? || c.Insert? then 1 else 0)
  {
    assert (cs + [c])[..|cs|] == cs;
  }

  /** The cost of a script is the number of deleted plus the number of inserted indices it names. */
  lemma {:induction false} EditCountSplit(cs: seq<Change>)
    ensures EditCount(cs) == |Deleted(cs)| + |Inserted(cs)|
    decreases |cs|
  {
    if cs != [] {
      EditCountSplit(cs[..|cs| - 1]);
    }
  }

  /**
    The kept old rows `olds` and kept new rows `news` pair up one to one, in
    order; every pair has the same identity, and the old index of a pair is
    listed in `updated` exactly when the two rows differ in content.
   */
  ghost predicate Paired<T>(a: seq<T>, b: seq<T>, same: (T, T) -> bool, eq: (T, T) -> bool,
                            olds: seq<int>, news: seq<int>, updated: seq<int>)
  {
    && |olds| == |news|
    && forall t :: 0 <= t < |olds| ==>
         && 0 <= olds[t] < |a| && 0 <= news[t] < |b|
         && same(a[olds[t]], b[news[t]])
         && (olds[t] in updated <==> !eq(a[olds[t]], b[news[t]]))
  }

  /**
    `cs` is the script of a monotone edit-graph path from (0, 0) to (x, y):
    no moves; deletions name increasing old indices below `x`; insertions
    name increasing new indices below `y`; updates name increasing old
    indices below `x` that are not deleted; and the untouched rows pair up
    by identity. The point (x, y) may lie outside the grid.
   */
  ghost predicate Aligned<T>(a: seq<T>, b: seq<T>, same: (T, T) -> bool, eq: (T, T) -> bool,
                             x: int, y: int, cs: seq<Change>)
  {
    && Ordered(x, y, cs)
    && Paired(a, b, same, eq, KeptOld(cs, x), KeptNew(cs, y), Updated(cs))
  }

  /** The index part of `Aligned`: what a script says without looking at rows. */
  ghost predicate Ordered(x: int, y: int, cs: seq<Change>)
  {
    && (forall c :: c in cs ==> !c.Move?)
    && Increasing(Deleted(cs)) && Within(Deleted(cs), x)
    && Increasing(Inserted(cs)) && Within(Inserted(cs), y)
    && Increasing(Updated(cs)) && Within(Updated(cs), x)
    && (forall i :: i in Updated(cs) ==> i !in Deleted(cs))
  }

  /**
    `cs` is the trace of a monotone path through the edit graph from (0, 0)
    to (x, y). Read from its end, each step is a horizontal edge that deletes
    old row x - 1, a vertical edge that inserts new row y - 1, or a diagonal
    edge between rows of the same identity, which adds an `Update` of old row
    x - 1 exactly when their contents differ. Horizontal and vertical edges
    may run beyond the grid; diagonal ones may not.
   */
  ghost predicate Trace<T>(a: seq<T>, b: seq<T>, same: (T, T) -> bool, eq: (T, T) -> bool,
                           x: nat, y: nat, cs: seq<Change>)
    decreases x + y
  {
    || (x == 0 && y == 0 && cs == [])
    || (x > 0 && cs != [] && cs[|cs| - 1] == Delete(x - 1) && Trace(a, b, same, eq, x - 1, y, cs[..|cs| - 1]))
    || (y > 0 && cs != [] && cs[|cs| - 1] == Insert(y - 1) && Trace(a, b, same, eq, x, y - 1, cs[..|cs| - 1]))
    || (&& 0 < x <= |a| && 0 < y <= |b| && same(a[x - 1], b[y - 1])
        && if eq(a[x - 1], b[y - 1]) then Trace(a, b, same, eq, x - 1, y - 1, cs)
           else cs != [] && cs[|cs| - 1] == Update(x - 1) && Trace(a, b, same, eq, x - 1, y - 1, cs[..|cs| - 1]))
  }

  /** A complete script: the trace of a path from (0, 0) to (|a|, |b|). */
  ghost predicate ValidScript<T>(a: seq<T>, b: seq<T>, same: (T, T) -> bool, eq: (T, T) -> bool,
                                 cs: seq<Change>)
  {
    Trace(a, b, same, eq, |a|, |b|, cs)
  }

  /** The empty script traces the path that has not left the origin. */
  lemma TraceStart<T>(a: seq<T>, b: seq<T>, same: (T, T) -> bool, eq: (T, T) -> bool)
    ensures Trace(a, b, same, eq, 0, 0, [])
  {
  }

  /** Following a horizontal edge appends the deletion of old row x. */
  lemma TraceDelete<T>(a: seq<T>, b: seq<T>, same: (T, T) -> bool, eq: (T, T) -> bool,
                       x: nat, y: nat, cs: seq<Change>)
    requires Trace(a, b, same, eq, x, y, cs)
    ensures Trace(a, b, same, eq, x + 1, y, cs + [Delete(x)])
  {
    assert (cs + [Delete(x)])[..|cs|] == cs;
  }

  /** Following a vertical edge appends the insertion of new row y. */
  lemma TraceInsert<T>(a: seq<T>, b: seq<T>, same: (T, T) -> bool, eq: (T, T) -> bool,
                       x: nat, y: nat, cs: seq<Change>)
    requires Trace(a, b, same, eq, x, y, cs)
    ensures Trace(a, b, same, eq, x, y + 1, cs + [Insert(y)])
  {
    assert (cs + [Insert(y)])[..|cs|] == cs;
  }

  /** Following a diagonal edge appends an update exactly when the rows differ. */
  lemma TraceMatch<T>(a: seq<T>, b: seq<T>, same: (T, T) -> bool, eq: (T, T) -> bool,
                      x: nat, y: nat, cs: seq<Change>)
    requires x < |a| && y < |b| && same(a[x], b[y])
    requires Trace(a, b, same, eq, x, y, cs)
    ensures Trace(a, b, same, eq, x + 1, y + 1, if eq(a[x], b[y]) then cs else cs + [Update(x)])
  {
    assert (cs + [Update(x)])[..|cs|] == cs;
  }

  /**
    What a trace says about its script: no moves; deletions name increasing
    old indices below `x`; insertions name increasing new indices below `y`;
    updates name increasing, undeleted old indices below `x`; and the rows
    the script leaves alone pair up in order by identity, with an update
    exactly for the pairs whose contents differ.
   */
  lemma {:induction false} TraceAligned<T>(a: seq<T>, b: seq<T>, same: (T, T) -> bool, eq: (T, T) -> bool,
                                           x: nat, y: nat, cs: seq<Change>)
    requires Trace(a, b, same, eq, x, y, cs)
    ensures Aligned(a, b, same, eq, x, y, cs)
    decreases x + y
  {
    if x == 0 && y == 0 && cs == [] {
      AlignedStart(a, b, same, eq);
    } else if cs != [] && x > 0 && cs[|cs| - 1] == Delete(x - 1) && Trace(a, b, same, eq, x - 1, y, cs[..|cs| - 1]) {
      TraceAligned(a, b, same, eq, x - 1, y, cs[..|cs| - 1]);
      AlignedLastDelete(a, b, same, eq, x, y, cs);
    } else if cs != [] && y > 0 && cs[|cs| - 1] == Insert(y - 1) && Trace(a, b, same, eq, x, y - 1, cs[..|cs| - 1]) {
      TraceAligned(a, b, same, eq, x, y - 1, cs[..|cs| - 1]);
      AlignedLastInsert(a, b, same, eq, x, y, cs);
    } else {
      assert 0 < x <= |a| && 0 < y <= |b| && same(a[x - 1], b[y - 1]);
      if eq(a[x - 1], b[y - 1]) {
        TraceAligned(a, b, same, eq, x - 1, y - 1, cs);
        AlignedLastMatch(a, b, same, eq, x, y, cs);
      } else {
        TraceAligned(a, b, same, eq, x - 1, y - 1, cs[..|cs| - 1]);
        AlignedLastUpdate(a, b, same, eq, x, y, cs);
      }
    }
  }

  /** `AlignedDelete`, read from the end of the script. */
  lemma AlignedLastDelete<T>(a: seq<T>, b: seq<T>, same: (T, T) -> bool, eq: (T, T) -> bool,
                             x: nat, y: nat, cs: seq<Change>)
    requires x > 0 && cs != [] && cs[|cs| - 1] == Delete(x - 1)
    requires Aligned(a, b, same, eq, x - 1, y, cs[..|cs| - 1])
    ensures Aligned(a, b, same, eq, x, y, cs)
  {
    AlignedDelete(a, b, same, eq, x - 1, y, cs[..|cs| - 1]);
    assert cs[..|cs| - 1] + [Delete(x - 1)] == cs;
  }

  /** `AlignedInsert`, read from the end of the script. */
  lemma AlignedLastInsert<T>(a: seq<T>, b: seq<T>, same: (T, T) -> bool, eq: (T, T) -> bool,
                             x: nat, y: nat, cs: seq<Change>)
    requires y > 0 && cs != [] && cs[|cs| - 1] == Insert(y - 1)
    requires Aligned(a, b, same, eq, x, y - 1, cs[..|cs| - 1])
    ensures Aligned(a, b, same, eq, x, y, cs)
  {
    AlignedInsert(a, b, same, eq, x, y - 1, cs[..|cs| - 1]);
    assert cs[..|cs| - 1] + [Insert(y - 1)] == cs;
  }

  /** `AlignedMatch` for rows equal in content, read from the end of the script. */
  lemma AlignedLastMatch<T>(a: seq<T>, b: seq<T>, same: (T, T) -> bool, eq: (T, T) -> bool,
                            x: nat, y: nat, cs: seq<Change>)
    requires 0 < x <= |a| && 0 < y <= |b| && same(a[x - 1], b[y - 1]) && eq(a[x - 1], b[y - 1])
    requires Aligned(a, b, same, eq, x - 1, y - 1, cs)
    ensures Aligned(a, b, same, eq, x, y, cs)
  {
    AlignedMatch(a, b, same, eq, x - 1, y - 1, cs);
  }

  /** `AlignedMatch` for rows that differ in content, read from the end of the script. */
  lemma AlignedLastUpdate<T>(a: seq<T>, b: seq<T>, same: (T, T) -> bool, eq: (T, T) -> bool,
                             x: nat, y: nat, cs: seq<Change>)
    requires 0 < x <= |a| && 0 < y <= |b| && same(a[x - 1], b[y - 1]) && !eq(a[x - 1], b[y - 1])
    requires cs != [] && cs[|cs| - 1] == Update(x - 1)
    requires Aligned(a, b, same, eq, x - 1, y - 1, cs[..|cs| - 1])
    ensures Aligned(a, b, same, eq, x, y, cs)
  {
    AlignedMatch(a, b, same, eq, x - 1, y - 1, cs[..|cs| - 1]);
    assert cs[..|cs| - 1] + [Update(x - 1)] == cs;
  }

  /** Two removal lists that agree below `bound` keep the same indices. */
  lemma {:induction false} KeptFrame(s: seq<int>, s': seq<int>, bound: int)
    requires forall i :: 0 <= i < bound ==> (i in s <==> i in s')
    ensures Kept(s, bound) == Kept(s', bound)
    decreases bound
  {
    if bound > 0 {
      KeptFrame(s, s', bound - 1);
    }
  }

  /** Removing the next index and moving past it keeps the same rows. */
  lemma KeptSkip(s: seq<int>, x: int)
    requires 0 <= x
    ensures Kept(s + [x], x + 1) == Kept(s, x)
  {
    KeptFrame(s + [x], s, x);
  }

  /** The empty script is the path that has not left the origin. */
  lemma AlignedStart<T>(a: seq<T>, b: seq<T>, same: (T, T) -> bool, eq: (T, T) -> bool)
    ensures Aligned(a, b, same, eq, 0, 0, [])
  {
    assert Kept([], 0) == [];
  }

  /** A horizontal edge (x, y) -> (x + 1, y) deletes old row x. */
  lemma AlignedDelete<T>(a: seq<T>, b: seq<T>, same: (T, T) -> bool, eq: (T, T) -> bool,
                         x: int, y: int, cs: seq<Change>)
    requires 0 <= x
    requires Aligned(a, b, same, eq, x, y, cs)
    ensures Aligned(a, b, same, eq, x + 1, y, cs + [Delete(x)])
  {
    var cs' := cs + [Delete(x)];
    AppendChange(cs, Delete(x));
    var d, u := Deleted(cs), Updated(cs);
    assert Deleted(cs') == d + [x];
    assert Increasing(d + [x]) && Within(d + [x], x + 1);
    assert Within(u, x + 1);
    forall i | i in u ensures i !in d + [x] {
      var j :| 0 <= j < |u| && u[j] == i;
    }
    KeptSkip(d, x);
    assert KeptOld(cs', x + 1) == KeptOld(cs, x);
    assert Inserted(cs') == Inserted(cs) && Updated(cs') == u;
    assert KeptNew(cs', y) == KeptNew(cs, y);
    forall c | c in cs' ensures !c.Move? {
      assert c in cs || c == Delete(x);
    }
  }

  /** A vertical edge (x, y) -> (x, y + 1) inserts new row y. */
  lemma AlignedInsert<T>(a: seq<T>, b: seq<T>, same: (T, T) -> bool, eq: (T, T) -> bool,
                         x: int, y: int, cs: seq<Change>)
    requires 0 <= y
    requires Aligned(a, b, same, eq, x, y, cs)
    ensures Aligned(a, b, same, eq, x, y + 1, cs + [Insert(y)])
  {
    var cs' := cs + [Insert(y)];
    AppendChange(cs, Insert(y));
    var n := Inserted(cs);
    assert Inserted(cs') == n + [y];
    assert Increasing(n + [y]) && Within(n + [y], y + 1);
    KeptSkip(n, y);
    assert KeptNew(cs', y + 1) == KeptNew(cs, y);
    assert Deleted(cs') == Deleted(cs) && Updated(cs') == Updated(cs);
    assert KeptOld(cs', x) == KeptOld(cs, x);
    forall c | c in cs' ensures !c.Move? {
      assert c in cs || c == Insert(y);
    }
  }

  /**
    A diagonal edge (x, y) -> (x + 1, y + 1) between rows of the same
    identity keeps both, and records an update when their contents differ.
   */
  lemma AlignedMatch<T>(a: seq<T>, b: seq<T>, same: (T, T) -> bool, eq: (T, T) -> bool,
                        x: int, y: int, cs: seq<Change>)
    requires 0 <= x < |a| && 0 <= y < |b| && same(a[x], b[y])
    requires Aligned(a, b, same, eq, x, y, cs)
    ensures Aligned(a, b, same, eq, x + 1, y + 1,
                    if eq(a[x], b[y]) then cs else cs + [Update(x)])
  {
    var cs' := if eq(a[x], b[y]) then cs else cs + [Update(x)];
    var d, n, u := Deleted(cs), Inserted(cs), Updated(cs);
    AppendChange(cs, Update(x));
    assert Deleted(cs') == d && Inserted(cs') == n;
    assert Updated(cs') == if eq(a[x], b[y]) then u else u + [x];
    OrderedMatch(x, y, cs, !eq(a[x], b[y]));
    NotBelow(d, x);
    NotBelow(n, y);
    NotBelow(u, x);
    var olds, news := KeptOld(cs, x), KeptNew(cs, y);
    assert KeptOld(cs', x + 1) == olds + [x];
    assert KeptNew(cs', y + 1) == news + [y];
    forall t | 0 <= t < |olds| ensures olds[t] < x {
      assert olds[t] in olds;
    }
    PairedExtend(a, b, same, eq, olds, news, u, x, y);
  }

  /** The index part of a diagonal edge, with or without an update entry. */
  lemma OrderedMatch(x: int, y: int, cs: seq<Change>, changed: bool)
    requires 0 <= x && 0 <= y
    requires Ordered(x, y, cs)
    ensures Ordered(x + 1, y + 1, if changed then cs + [Update(x)] else cs)
  {
    var d, n, u := Deleted(cs), Inserted(cs), Updated(cs);
    WithinWider(d, x);
    WithinWider(n, y);
    if changed {
      var cs' := cs + [Update(x)];
      AppendChange(cs, Update(x));
      assert Deleted(cs') == d && Inserted(cs') == n && Updated(cs') == u + [x];
      NotBelow(d, x);
      IncreasingAppend(u, x);
      forall i | i in u + [x] ensures i !in d {
        assert i in u || i == x;
      }
      forall c | c in cs' ensures !c.Move? {
        assert c in cs || c == Update(x);
      }
    } else {
      WithinWider(u, x);
    }
  }

  /** A bound on indices is also a bound one higher. */
  lemma WithinWider(s: seq<int>, bound: int)
    requires Within(s, bound)
    ensures Within(s, bound + 1)
  {
  }

  /** Appending an index above all of a list's indices keeps it increasing. */
  lemma IncreasingAppend(s: seq<int>, v: int)
    requires 0 <= v && Increasing(s) && Within(s, v)
    ensures Increasing(s + [v]) && Within(s + [v], v + 1)
  {
  }

  /** An index list bounded by `bound` does not contain `bound`. */
  lemma NotBelow(s: seq<int>, bound: int)
    requires Within(s, bound)
    ensures bound !in s
  {
    forall j | 0 <= j < |s| ensures s[j] != bound {
    }
  }

  /** One more identity-matched pair beyond all kept rows extends the pairing. */
  lemma PairedExtend<T>(a: seq<T>, b: seq<T>, same: (T, T) -> bool, eq: (T, T) -> bool,
                        olds: seq<int>, news: seq<int>, u: seq<int>, x: int, y: int)
    requires Paired(a, b, same, eq, olds, news, u)
    requires 0 <= x < |a| && 0 <= y < |b| && same(a[x], b[y])
    requires forall t :: 0 <= t < |olds| ==> olds[t] < x
    requires x !in u
    ensures Paired(a, b, same, eq, olds + [x], news + [y], if eq(a[x], b[y]) then u else u + [x])
  {
    var u' := if eq(a[x], b[y]) then u else u + [x];
    var olds', news' := olds + [x], news + [y];
    forall t | 0 <= t < |olds'|
      ensures 0 <= olds'[t] < |a| && 0 <= news'[t] < |b|
      ensures same(a[olds'[t]], b[news'[t]])
      ensures olds'[t] in u' <==> !eq(a[olds'[t]], b[news'[t]])
    {
      if t < |olds| {
        assert olds'[t] == olds[t] && news'[t] == news[t];
        assert olds[t] in u' <==> olds[t] in u;
      }
    }
  }

  /**
    An aligned script keeps as many old rows as new rows, so the old count
    minus the deletions plus the insertions is the new count.
   */
  lemma AlignedBalance<T>(a: seq<T>, b: seq<T>, same: (T, T) -> bool, eq: (T, T) -> bool,
                          x: nat, y: nat, cs: seq<Change>)
    requires Aligned(a, b, same, eq, x, y, cs)
    ensures x - |Deleted(cs)| + |Inserted(cs)| == y
  {
    KeptCount(Deleted(cs), x);
    KeptCount(Inserted(cs), y);
  }

  /**
    A strictly increasing list of indices below `bound` and the indices it
    leaves out partition `[0, bound)`.
   */
  lemma {:induction false} KeptCount(s: seq<int>, bound: int)
    requires 0 <= bound
    requires Increasing(s) && Within(s, bound)
    ensures |s| + |Kept(s, bound)| == bound
    decreases bound
  {
    if bound == 0 {
      FirstWithin(s, bound);
    } else if bound - 1 in s {
      DropTop(s, bound);
      KeptCount(s[..|s| - 1], bound - 1);
    } else {
      BelowTop(s, bound);
      KeptCount(s, bound - 1);
    }
  }

  /** The first index of a bounded list lies below the bound. */
  lemma FirstWithin(s: seq<int>, bound: int)
    requires Within(s, bound)
    ensures |s| > 0 ==> 0 <= s[0] < bound
  {
  }

  /**
    When the top index is removed, it is the last entry, and dropping it
    leaves a list that keeps the same rows below the top.
   */
  lemma DropTop(s: seq<int>, bound: int)
    requires 0 < bound && Increasing(s) && Within(s, bound) && bound - 1 in s
    ensures |s| > 0 && Increasing(s[..|s| - 1]) && Within(s[..|s| - 1], bound - 1)
    ensures |Kept(s, bound)| == |Kept(s[..|s| - 1], bound - 1)|
  {
    LastIsTop(s, bound);
    var s' := s[..|s| - 1];
    forall i | 0 <= i < bound - 1 ensures i in s <==> i in s' {
      if i in s {
        var j :| 0 <= j < |s| && s[j] == i;
        assert j != |s| - 1;
      }
    }
    KeptFrame(s, s', bound - 1);
  }

  /** An increasing list below `bound` that names bound - 1 names it last. */
  lemma LastIsTop(s: seq<int>, bound: int)
    requires Increasing(s) && Within(s, bound) && bound - 1 in s
    ensures |s| > 0 && s[|s| - 1] == bound - 1
    ensures Increasing(s[..|s| - 1]) && Within(s[..|s| - 1], bound - 1)
  {
    var j :| 0 <= j < |s| && s[j] == bound - 1;
    assert s[j] <= s[|s| - 1];
  }

  /** When the top index is kept, every removed index lies below it. */
  lemma BelowTop(s: seq<int>, bound: int)
    requires 0 < bound && Within(s, bound) && bound - 1 !in s
    ensures Within(s, bound - 1)
    ensures |Kept(s, bound)| == |Kept(s, bound - 1)| + 1
  {
    forall i | 0 <= i < |s| ensures s[i] < bound - 1 {
      assert s[i] in s;
    }
  }
}
