/** A stable sort by an integer key, the behaviour of JavaScript's
    `Array.prototype.sort` with a comparator whose sign is the sign of
    `key(a) - key(b)`. */
module StableSort {

  /** The elements of `s` with key `k`, in their order in `s`. */
  function WithKey<T>(key: T -> int, s: seq<T>, k: int): seq<T> {
    if |s| == 0 then []
    else (if key(s[0]) == k then [s[0]] else []) + WithKey(key, s[1..], k)
  }

  predicate Sorted<T>(key: T -> int, s: seq<T>) {
    forall i, j | 0 <= i < j < |s| :: key(s[i]) <= key(s[j])
  }

  lemma WithKeyCons<T>(key: T -> int, x: T, s: seq<T>, k: int)
    ensures WithKey(key, [x] + s, k) == (if key(x) == k then [x] else []) + WithKey(key, s, k)
  {
    assert ([x] + s)[1..] == s;
  }

  /** Insertion of `x` in front of the first element whose key is not smaller. */
  function Insert<T>(key: T -> int, x: T, s: seq<T>): seq<T> {
    if |s| == 0 || key(x) <= key(s[0]) then [x] + s
    else [s[0]] + Insert(key, x, s[1..])
  }

  /** Insertion adds exactly one occurrence of `x`. */
  lemma {:induction false} InsertPermutation<T>(key: T -> int, x: T, s: seq<T>)
    ensures multiset(Insert(key, x, s)) == multiset{x} + multiset(s)
  {
    if |s| > 0 && key(x) > key(s[0]) {
      InsertPermutation(key, x, s[1..]);
      assert s == [s[0]] + s[1..];
    }
  }

  /** Insertion into a sorted sequence keeps it sorted. */
  lemma {:induction false} InsertSorted<T>(key: T -> int, x: T, s: seq<T>)
    requires Sorted(key, s)
    ensures Sorted(key, Insert(key, x, s))
  {
    if |s| > 0 && key(x) > key(s[0]) {
      var tail := Insert(key, x, s[1..]);
      InsertSorted(key, x, s[1..]);
      InsertPermutation(key, x, s[1..]);
      forall j | 0 <= j < |tail| ensures key(s[0]) <= key(tail[j]) {
        assert tail[j] in multiset(tail);
        if tail[j] != x {
          assert tail[j] in multiset(s[1..]);
          var m :| 0 <= m < |s[1..]| && s[1..][m] == tail[j];
          assert s[1..][m] == s[m + 1];
        }
      }
    }
  }

  /** Insertion puts `x` ahead of the elements that share its key and leaves
      the order among the others alone: what a stable sort does for an
      element that came before them. */
  lemma {:induction false} InsertStable<T>(key: T -> int, x: T, s: seq<T>, k: int)
    ensures WithKey(key, Insert(key, x, s), k)
            == if key(x) == k then [x] + WithKey(key, s, k) else WithKey(key, s, k)
    decreases |s|
  {
    if |s| == 0 || key(x) <= key(s[0]) {
      WithKeyCons(key, x, s, k);
    } else {
      InsertStable(key, x, s[1..], k);
      InsertStableStep(key, x, s, k);
    }
  }

  /** The step of `InsertStable` past an element with a smaller key. */
  lemma InsertStableStep<T>(key: T -> int, x: T, s: seq<T>, k: int)
    requires |s| > 0 && key(x) > key(s[0])
    requires WithKey(key, Insert(key, x, s[1..]), k)
             == if key(x) == k then [x] + WithKey(key, s[1..], k) else WithKey(key, s[1..], k)
    ensures WithKey(key, Insert(key, x, s), k)
            == if key(x) == k then [x] + WithKey(key, s, k) else WithKey(key, s, k)
  {
    var tail := Insert(key, x, s[1..]);
    var pre := if key(s[0]) == k then [s[0]] else [];
    WithKeyCons(key, s[0], tail, k);
    assert WithKey(key, s, k) == pre + WithKey(key, s[1..], k);
  }

  /** Insertion sort from the back: the result is sorted, a permutation of the
      input, and stable, since the elements sharing a key stay in their input
      order. */
  function Sort<T>(key: T -> int, s: seq<T>): (r: seq<T>)
    ensures Sorted(key, r)
    ensures multiset(r) == multiset(s)
    ensures forall k :: WithKey(key, r, k) == WithKey(key, s, k)
  {
    if |s| == 0 then []
    else
      var rest := Sort(key, s[1..]);
      InsertSorted(key, s[0], rest);
      InsertPermutation(key, s[0], rest);
      assert s == [s[0]] + s[1..];
      assert forall k :: WithKey(key, Insert(key, s[0], rest), k) == WithKey(key, s, k) by {
        forall k ensures WithKey(key, Insert(key, s[0], rest), k) == WithKey(key, s, k) {
          InsertStable(key, s[0], rest, k);
          WithKeyCons(key, s[0], s[1..], k);
        }
      }
      Insert(key, s[0], rest)
  }

  /** Every element that `WithKey` picks is in `s` and has key `k`. */
  lemma {:induction false} WithKeyMembers<T>(key: T -> int, s: seq<T>, k: int)
    ensures forall x | x in WithKey(key, s, k) :: x in s && key(x) == k
  {
    if |s| > 0 {
      WithKeyMembers(key, s[1..], k);
    }
  }

  /** Two sorted sequences that agree on every key start with the same element. */
  lemma SortedSameHead<T>(key: T -> int, r: seq<T>, t: seq<T>)
    requires Sorted(key, r) && Sorted(key, t) && |r| > 0 && |t| > 0
    requires forall k :: WithKey(key, r, k) == WithKey(key, t, k)
    ensures r[0] == t[0]
  {
    var a, b := key(r[0]), key(t[0]);
    WithKeyMembers(key, r, b);
    WithKeyMembers(key, t, a);
    assert WithKey(key, r, a)[0] == r[0];
    assert WithKey(key, t, b)[0] == t[0];
    var ma :| 0 <= ma < |t| && t[ma] == r[0];
    var mb :| 0 <= mb < |r| && r[mb] == t[0];
    assert b <= key(t[ma]) == a;
    assert a <= key(r[mb]) == b;
  }

  /** Agreement on every key passes from two sequences with the same head to their tails. */
  lemma SameHeadTails<T>(key: T -> int, r: seq<T>, t: seq<T>, k: int)
    requires |r| > 0 && |t| > 0 && r[0] == t[0]
    requires WithKey(key, r, k) == WithKey(key, t, k)
    ensures WithKey(key, r[1..], k) == WithKey(key, t[1..], k)
  {
    var pre := if key(r[0]) == k then [r[0]] else [];
    assert WithKey(key, r, k) == pre + WithKey(key, r[1..], k);
    assert WithKey(key, t, k) == pre + WithKey(key, t[1..], k);
    assert WithKey(key, r[1..], k) == WithKey(key, r, k)[|pre|..];
  }

  /** A sorted sequence is fixed by what `WithKey` picks from it: two sorted
      sequences that agree on every key are equal. Hence `Sort` is the only
      sorted, stable rearrangement of its input. */
  lemma {:induction false} SortedUnique<T>(key: T -> int, r: seq<T>, t: seq<T>)
    requires Sorted(key, r) && Sorted(key, t)
    requires forall k :: WithKey(key, r, k) == WithKey(key, t, k)
    ensures r == t
    decreases |r| + |t|
  {
    assert |r| > 0 ==> |t| > 0 by {
      if |r| > 0 { assert WithKey(key, t, key(r[0])) != []; }
    }
    assert |t| > 0 ==> |r| > 0 by {
      if |t| > 0 { assert WithKey(key, r, key(t[0])) != []; }
    }
    if |r| > 0 {
      SortedSameHead(key, r, t);
      forall k ensures WithKey(key, r[1..], k) == WithKey(key, t[1..], k) {
        SameHeadTails(key, r, t, k);
      }
      SortedUnique(key, r[1..], t[1..]);
      assert r == [r[0]] + r[1..] && t == [t[0]] + t[1..];
    }
  }

  /** A sorted sequence that agrees with `s` on every key is `Sort(key, s)`. */
  lemma SortIsUnique<T>(key: T -> int, s: seq<T>, q: seq<T>)
    requires Sorted(key, q)
    requires forall k :: WithKey(key, q, k) == WithKey(key, s, k)
    ensures q == Sort(key, s)
  {
    SortedUnique(key, q, Sort(key, s));
  }

  /** Sorting `[x] + s` inserts `x` into the sorted `s`. */
  lemma SortCons<T>(key: T -> int, x: T, s: seq<T>)
    ensures Sort(key, [x] + s) == Insert(key, x, Sort(key, s))
  {
    assert ([x] + s)[0] == x && ([x] + s)[1..] == s;
  }

  /** An element not above the head of `s` goes in front. */
  lemma InsertFront<T>(key: T -> int, x: T, s: seq<T>)
    requires |s| == 0 || key(x) <= key(s[0])
    ensures Insert(key, x, s) == [x] + s
  {
  }

  /** An element above `y` is inserted after it. */
  lemma InsertPast<T>(key: T -> int, x: T, y: T, s: seq<T>)
    requires key(x) > key(y)
    ensures Insert(key, x, [y] + s) == [y] + Insert(key, x, s)
  {
    assert ([y] + s)[0] == y && ([y] + s)[1..] == s;
  }

  /** A single element is sorted as it is. */
  lemma SortOne<T>(key: T -> int, x: T)
    ensures Sort(key, [x]) == [x]
  {
    SortCons(key, x, []);
    InsertFront(key, x, []);
    assert [x] + [] == [x];
  }

  /** Two elements already in ascending key order stay as they are. */
  lemma SortAscendingTwo<T>(key: T -> int, b: T, c: T)
    requires key(b) < key(c)
    ensures Sort(key, [b, c]) == [b, c]
  {
    SortOne(key, c);
    SortCons(key, b, [c]);
    InsertFront(key, b, [c]);
    assert [b] + [c] == [b, c];
  }

  /** Inserting the largest of three behind two smaller ones appends it. */
  lemma InsertLargest<T>(key: T -> int, a: T, b: T, c: T)
    requires key(b) < key(a) && key(c) < key(a)
    ensures Insert(key, a, [b, c]) == [b, c, a]
  {
    assert [b, c] == [b] + [c];
    InsertPast(key, a, b, [c]);
    assert [c] == [c] + [];
    InsertPast(key, a, c, []);
    InsertFront(key, a, []);
    assert [b] + ([c] + ([a] + [])) == [b, c, a];
  }

  /** Three elements given as largest, smallest, middle come out as smallest,
      middle, largest. */
  lemma SortThree<T>(key: T -> int, a: T, b: T, c: T)
    requires key(b) < key(c) < key(a)
    ensures Sort(key, [a, b, c]) == [b, c, a]
  {
    SortAscendingTwo(key, b, c);
    SortCons(key, a, [b, c]);
    assert [a] + [b, c] == [a, b, c];
    InsertLargest(key, a, b, c);
  }

  /** Two elements given in descending key order come out swapped. */
  lemma SortTwo<T>(key: T -> int, a: T, b: T)
    requires key(b) < key(a)
    ensures Sort(key, [a, b]) == [b, a]
  {
    SortOne(key, b);
    SortCons(key, a, [b]);
    assert [a] + [b] == [a, b];
    InsertPast(key, a, b, []);
    InsertFront(key, a, []);
    assert [b] + ([a] + []) == [b, a];
  }
}
