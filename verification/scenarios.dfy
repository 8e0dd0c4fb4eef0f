/**
  The smallest tables, worked through: what the search returns for one row
  inserted, one row deleted, one row replaced by an unrelated one, one
  row whose content changed in place, and a tie between the two
  neighbouring diagonals.
 */
module Scenarios {
  import opened EditScript
  import opened Myers

  /** Into an empty table, the one new row is inserted. */
  lemma InsertIntoEmpty<T>(x: T, same: (T, T) -> bool, eq: (T, T) -> bool)
    ensures Diff([], [x], same, eq) == Some([Insert(0)])
  {
    DiffSucceeds([], [x], same, eq);
    var r := Diff([], [x], same, eq).value;
    assert r != [] && r[|r| - 1] == Insert(0) && Trace([], [x], same, eq, 0, 0, r[..|r| - 1]);
    assert r == r[..|r| - 1] + [Insert(0)];
  }

  /** Emptying a one-row table deletes that row. */
  lemma DeleteToEmpty<T>(x: T, same: (T, T) -> bool, eq: (T, T) -> bool)
    ensures Diff([x], [], same, eq) == Some([Delete(0)])
  {
    DiffSucceeds([x], [], same, eq);
    var r := Diff([x], [], same, eq).value;
    assert r != [] && r[|r| - 1] == Delete(0) && Trace([x], [], same, eq, 0, 0, r[..|r| - 1]);
    assert r == r[..|r| - 1] + [Delete(0)];
  }

  /**
    Replacing a row by one of another identity deletes the old row and then
    inserts the new one: the search reaches the corner through the deletion
    diagonal, which got further in the round before.
   */
  lemma ReplaceOne<T>(x: T, y: T, same: (T, T) -> bool, eq: (T, T) -> bool)
    requires !same(x, y)
    ensures Diff([x], [y], same, eq) == Some([Delete(0), Insert(0)])
  {
    var a, b := [x], [y];
    var none: seq<Change> := [];
    assert Step(a, b, same, eq, 0, 0) == Path(0, none);
    var p00 := Furthest(a, b, same, eq, 0, 0);
    assert p00 == Path(0, none);
    assert Search(a, b, same, eq, 0, 0) == Search(a, b, same, eq, 1, 0);
    assert none + [Insert(0)] == [Insert(0)] && none + [Delete(0)] == [Delete(0)];
    assert Step(a, b, same, eq, 1, 0) == Path(0, [Insert(0)]);
    var p10 := Furthest(a, b, same, eq, 1, 0);
    assert p10 == Path(0, [Insert(0)]);
    assert Step(a, b, same, eq, 1, 1) == Path(1, [Delete(0)]);
    var p11 := Furthest(a, b, same, eq, 1, 1);
    assert p11 == Path(1, [Delete(0)]);
    assert Search(a, b, same, eq, 1, 0) == Search(a, b, same, eq, 1, 1);
    assert Search(a, b, same, eq, 1, 1) == Search(a, b, same, eq, 2, 0);
    assert Step(a, b, same, eq, 2, 0) == Path(0, [Insert(0), Insert(1)]);
    var p20 := Furthest(a, b, same, eq, 2, 0);
    assert p20 == Path(0, [Insert(0), Insert(1)]);
    assert OpensByInsert(a, b, same, eq, 2, 1);
    assert Step(a, b, same, eq, 2, 1) == Path(1, [Delete(0), Insert(0)]);
    var p21 := Furthest(a, b, same, eq, 2, 1);
    assert p21 == Path(1, [Delete(0), Insert(0)]);
    assert Search(a, b, same, eq, 2, 0) == Search(a, b, same, eq, 2, 1);
  }

  /**
    A row that keeps its identity but changes its content is updated in
    place, at its old index.
   */
  lemma UpdateInPlace<T>(x: T, y: T, same: (T, T) -> bool, eq: (T, T) -> bool)
    requires same(x, y) && !eq(x, y)
    ensures Diff([x], [y], same, eq) == Some([Update(0)])
  {
    var a, b := [x], [y];
    var none: seq<Change> := [];
    assert Step(a, b, same, eq, 0, 0) == Path(0, none);
    assert none + [Update(0)] == [Update(0)];
    assert Slide(a, b, same, eq, 1, 1, [Update(0)]) == Path(1, [Update(0)]);
    assert Furthest(a, b, same, eq, 0, 0) == Path(1, [Update(0)]);
  }

  /**
    Row p moves from the front to the back, q is dropped and r is new.
    In round 2 both neighbours of diagonal 0 reached column 1, one by
    inserting r and matching p, the other by deleting p. The strict test
    sends the tie to the deletion branch, which extends diagonal -1's path,
    the one that inserted r and matched p.
   */
  lemma TieGoesToDeletion<T>(p: T, q: T, r: T, same: (T, T) -> bool, eq: (T, T) -> bool)
    requires same(p, p) && eq(p, p) && !same(p, r) && !same(q, r)
    ensures Diff([p, q], [r, p], same, eq) == Some([Insert(0), Delete(1)])
  {
    var a, b := [p, q], [r, p];
    var none: seq<Change> := [];
    assert Step(a, b, same, eq, 0, 0) == Path(0, none);
    assert Furthest(a, b, same, eq, 0, 0) == Path(0, none);
    assert Search(a, b, same, eq, 0, 0) == Search(a, b, same, eq, 1, 0);
    assert none + [Insert(0)] == [Insert(0)] && none + [Delete(0)] == [Delete(0)];
    assert Step(a, b, same, eq, 1, 0) == Path(0, [Insert(0)]);
    assert Slide(a, b, same, eq, 1, 2, [Insert(0)]) == Path(1, [Insert(0)]);
    var p10 := Furthest(a, b, same, eq, 1, 0);
    assert p10 == Path(1, [Insert(0)]);
    assert Step(a, b, same, eq, 1, 1) == Path(1, [Delete(0)]);
    var p11 := Furthest(a, b, same, eq, 1, 1);
    assert p11 == Path(1, [Delete(0)]);
    assert Search(a, b, same, eq, 1, 0) == Search(a, b, same, eq, 1, 1);
    assert Search(a, b, same, eq, 1, 1) == Search(a, b, same, eq, 2, 0);
    assert Step(a, b, same, eq, 2, 0) == Path(1, [Insert(0), Insert(2)]);
    assert Furthest(a, b, same, eq, 2, 0) == Path(1, [Insert(0), Insert(2)]);
    assert !OpensByInsert(a, b, same, eq, 2, 1);
    assert Step(a, b, same, eq, 2, 1) == Path(2, [Insert(0), Delete(1)]);
    assert Furthest(a, b, same, eq, 2, 1) == Path(2, [Insert(0), Delete(1)]);
    assert Search(a, b, same, eq, 2, 0) == Search(a, b, same, eq, 2, 1);
  }
}
