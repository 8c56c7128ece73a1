/** Keeping the elements whose integer id is above a cursor, where reading
    an id or the cursor may fail. */
module KeyFilter {
  import opened Optional
  import StableSort

  /** The filter: `None` as soon as an id, or the cursor (read once per
      element), cannot be read; otherwise the elements above the cursor, in
      order. An empty input reads nothing and cannot fail. */
  function FilterAbove<T>(id: T -> Option<int>, batch: seq<T>, cursor: Option<int>): (r: Option<seq<T>>)
    ensures r.Some? ==> |r.value| <= |batch|
    ensures r.Some? ==> forall x | x in r.value ::
              x in batch && id(x).Some? && cursor.Some? && id(x).value > cursor.value
    decreases |batch|
  {
    if |batch| == 0 then Some([])
    else if id(batch[0]).None? || cursor.None? then None
    else
      match FilterAbove(id, batch[1..], cursor)
      case None => None
      case Some(rest) => Some(if id(batch[0]).value > cursor.value then [batch[0]] + rest else rest)
  }

  /** The filter fails exactly when some id cannot be read, or when the batch
      is non-empty and the cursor cannot be read. */
  lemma {:induction false} FilterFails<T>(id: T -> Option<int>, batch: seq<T>, cursor: Option<int>)
    ensures FilterAbove(id, batch, cursor).None? <==>
              (exists i | 0 <= i < |batch| :: id(batch[i]).None?) || (|batch| > 0 && cursor.None?)
    decreases |batch|
  {
    if |batch| > 0 {
      FilterFails(id, batch[1..], cursor);
      if exists i | 0 <= i < |batch[1..]| :: id(batch[1..][i]).None? {
        var i :| 0 <= i < |batch[1..]| && id(batch[1..][i]).None?;
        assert batch[i + 1] == batch[1..][i];
      }
      if exists i | 0 <= i < |batch| :: id(batch[i]).None? {
        var i :| 0 <= i < |batch| && id(batch[i]).None?;
        if i > 0 { assert batch[1..][i - 1] == batch[i]; }
      }
    }
  }

  /** A successful filter keeps each element above the cursor as often as it
      occurs in the batch, and nothing else. */
  lemma {:induction false} FilterKeeps<T>(id: T -> Option<int>, batch: seq<T>, cursor: Option<int>, x: T)
    requires FilterAbove(id, batch, cursor).Some?
    ensures multiset(FilterAbove(id, batch, cursor).value)[x] ==
              if id(x).GetOr(0) > cursor.GetOr(0) then multiset(batch)[x] else 0
    decreases |batch|
  {
    if |batch| > 0 {
      FilterKeeps(id, batch[1..], cursor, x);
      assert batch == [batch[0]] + batch[1..];
    }
  }

  /** A successful filter keeps, in batch order, the elements of each key
      above the cursor, and none of the others. */
  lemma {:induction false} FilterOrder<T>(id: T -> Option<int>, key: T -> int, batch: seq<T>, cursor: Option<int>, k: int)
    requires forall x :: key(x) == id(x).GetOr(0)
    requires FilterAbove(id, batch, cursor).Some?
    ensures StableSort.WithKey(key, FilterAbove(id, batch, cursor).value, k) ==
              if k > cursor.GetOr(0) then StableSort.WithKey(key, batch, k) else []
    decreases |batch|
  {
    if |batch| > 0 {
      var rest := FilterAbove(id, batch[1..], cursor).value;
      FilterOrder(id, key, batch[1..], cursor, k);
      StableSort.WithKeyCons(key, batch[0], rest, k);
      StableSort.WithKeyCons(key, batch[0], batch[1..], k);
      assert batch == [batch[0]] + batch[1..];
    }
  }

  /** When every id is readable and above a readable cursor, everything is kept. */
  lemma {:induction false} FilterKeepsAllAbove<T>(id: T -> Option<int>, batch: seq<T>, cursor: Option<int>)
    requires cursor.Some?
    requires forall x | x in batch :: id(x).Some? && id(x).value > cursor.value
    ensures FilterAbove(id, batch, cursor) == Some(batch)
    decreases |batch|
  {
    if |batch| > 0 {
      FilterKeepsAllAbove(id, batch[1..], cursor);
      assert batch == [batch[0]] + batch[1..];
    }
  }

  /** Of two elements, the first at the cursor and the second above it, only
      the second is kept. */
  lemma FilterDropsFirst<T>(id: T -> Option<int>, a: T, b: T, cursor: Option<int>)
    requires cursor.Some? && id(a) == cursor && id(b).Some? && id(b).value > cursor.value
    ensures FilterAbove(id, [a, b], cursor) == Some([b])
  {
    assert [a, b][0] == a && [a, b][1..] == [b];
    assert [b][0] == b && [b][1..] == [];
    assert FilterAbove(id, [], cursor) == Some([]);
    assert [b] + [] == [b];
    assert FilterAbove(id, [b], cursor) == Some([b]);
  }

  /** Three elements all above the cursor are all kept, in order. */
  lemma FilterKeepsThree<T>(id: T -> Option<int>, a: T, b: T, c: T, cursor: Option<int>)
    requires cursor.Some?
    requires id(a).Some? && id(a).value > cursor.value
    requires id(b).Some? && id(b).value > cursor.value
    requires id(c).Some? && id(c).value > cursor.value
    ensures FilterAbove(id, [a, b, c], cursor) == Some([a, b, c])
  {
    FilterKeepsAllAbove(id, [a, b, c], cursor);
  }

  /** A successful filter keeps nothing exactly when no element is above the cursor. */
  lemma {:induction false} FilterEmpty<T>(id: T -> Option<int>, batch: seq<T>, cursor: Option<int>)
    requires FilterAbove(id, batch, cursor).Some?
    ensures FilterAbove(id, batch, cursor).value == [] <==>
              forall i | 0 <= i < |batch| :: id(batch[i]).GetOr(0) <= cursor.GetOr(0)
    decreases |batch|
  {
    if |batch| > 0 {
      FilterEmpty(id, batch[1..], cursor);
      assert forall i | 1 <= i < |batch| :: batch[i] == batch[1..][i - 1];
    }
  }
}
