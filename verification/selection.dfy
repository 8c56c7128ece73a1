/** New-item selection of the fetch handler: keep the statuses whose id,
    read with `BigInt`, is above the cursor, then sort them in ascending order
    of that value with JavaScript's stable `Array.prototype.sort`. */
module Selection {
  import opened Optional
  import BigIntParse
  import StableSort
  import KeyFilter
  import TruthSocial

  type Post = TruthSocial.Post

  /** `BigInt(post.id)`; `None` when it throws. */
  function IdValue(p: Post): Option<int> {
    BigIntParse.StringToBigInt(p.id)
  }

  predicate ValidId(p: Post) {
    IdValue(p).Some?
  }

  /** The sort key of a status; only meaningful for a valid id. */
  function Key(p: Post): int {
    IdValue(p).GetOr(0)
  }

  /** `BigInt(lastProcessedId)`; only meaningful when that does not throw. */
  function CursorValue(cursor: string): int {
    BigIntParse.StringToBigInt(cursor).GetOr(0)
  }

  /** The statuses of `s` with id value `k`, in their order in `s`. */
  function WithId(s: seq<Post>, k: int): seq<Post> {
    StableSort.WithKey(Key, s, k)
  }

  predicate SortedById(s: seq<Post>) {
    StableSort.Sorted(Key, s)
  }

  /** `data.filter((post) => BigInt(post.id) > BigInt(lastProcessedId))`,
      with `None` for the SyntaxError `BigInt` throws on a malformed string. */
  function FilterNew(batch: seq<Post>, cursor: string): (r: Option<seq<Post>>)
    ensures r.Some? ==> |r.value| <= |batch| && forall p | p in r.value :: p in batch
  {
    KeyFilter.FilterAbove(IdValue, batch, BigIntParse.StringToBigInt(cursor))
  }

  /** The callback reads the post's id and then the cursor, so the filter
      throws exactly when some id is malformed, or when the batch is non-empty
      and the cursor is malformed; an empty batch never reads the cursor. */
  lemma FilterNewThrows(batch: seq<Post>, cursor: string)
    ensures FilterNew(batch, cursor).None? <==>
              (exists i | 0 <= i < |batch| :: !ValidId(batch[i]))
              || (|batch| > 0 && BigIntParse.StringToBigInt(cursor).None?)
  {
    KeyFilter.FilterFails(IdValue, batch, BigIntParse.StringToBigInt(cursor));
  }

  /** `q` holds every status of `batch` whose id is above the cursor, as
      often as `batch` does, and nothing else. */
  ghost predicate SelectsAbove(batch: seq<Post>, cursor: string, q: seq<Post>) {
    forall p :: multiset(q)[p] == if Key(p) > CursorValue(cursor) then multiset(batch)[p] else 0
  }

  /** For each id value above the cursor, `q` lists the statuses of `batch`
      with that value in their `batch` order; it lists none of the others. */
  ghost predicate KeepsOrderAbove(batch: seq<Post>, cursor: string, q: seq<Post>) {
    forall k :: WithId(q, k) == if k > CursorValue(cursor) then WithId(batch, k) else []
  }

  /** No status of `batch` is above the cursor. */
  predicate NoneAbove(batch: seq<Post>, cursor: string) {
    forall i | 0 <= i < |batch| :: Key(batch[i]) <= CursorValue(cursor)
  }

  /** A successful filter keeps every status above the cursor as often as it
      occurs in the batch, and nothing else: each kept id is strictly above
      the cursor, so a status whose id equals the cursor is left out. */
  lemma FilterNewKeeps(batch: seq<Post>, cursor: string)
    requires FilterNew(batch, cursor).Some?
    ensures SelectsAbove(batch, cursor, FilterNew(batch, cursor).value)
  {
    forall p ensures multiset(FilterNew(batch, cursor).value)[p] ==
                       if Key(p) > CursorValue(cursor) then multiset(batch)[p] else 0 {
      KeyFilter.FilterKeeps(IdValue, batch, BigIntParse.StringToBigInt(cursor), p);
    }
  }

  /** A successful filter keeps, in batch order, the statuses of each id value
      above the cursor, and none of the others. */
  lemma FilterNewOrder(batch: seq<Post>, cursor: string)
    requires FilterNew(batch, cursor).Some?
    ensures KeepsOrderAbove(batch, cursor, FilterNew(batch, cursor).value)
  {
    assert forall p :: Key(p) == IdValue(p).GetOr(0);
    forall k ensures WithId(FilterNew(batch, cursor).value, k) ==
                       if k > CursorValue(cursor) then WithId(batch, k) else [] {
      KeyFilter.FilterOrder(IdValue, Key, batch, BigIntParse.StringToBigInt(cursor), k);
    }
  }

  /** A successful filter selects nothing exactly when no status of the
      batch is above the cursor. */
  lemma FilterNewEmpty(batch: seq<Post>, cursor: string)
    requires FilterNew(batch, cursor).Some?
    ensures FilterNew(batch, cursor).value == [] <==> NoneAbove(batch, cursor)
  {
    KeyFilter.FilterEmpty(IdValue, batch, BigIntParse.StringToBigInt(cursor));
  }

  /** `newPosts.sort((a, b) => Number(BigInt(a.id) - BigInt(b.id)))`. Only the
      sign of the comparator matters, and `Number` of a non-zero `BigInt`
      difference is never zero, so this is a stable sort by id value. */
  function SortById(s: seq<Post>): (r: seq<Post>)
    ensures SortedById(r)
    ensures multiset(r) == multiset(s)
    ensures forall k :: WithId(r, k) == WithId(s, k)
  {
    StableSort.Sort(Key, s)
  }

  /** The sorted queue selects the statuses above the cursor and keeps the
      batch order among equal ids. */
  lemma QueueSelects(batch: seq<Post>, cursor: string)
    requires FilterNew(batch, cursor).Some?
    ensures SelectsAbove(batch, cursor, SortById(FilterNew(batch, cursor).value))
    ensures KeepsOrderAbove(batch, cursor, SortById(FilterNew(batch, cursor).value))
  {
    FilterNewKeeps(batch, cursor);
    FilterNewOrder(batch, cursor);
  }

  /** The sorted queue is the only sorted sequence that keeps the batch order
      among the statuses of each id value above the cursor and lists no other. */
  lemma QueueExact(batch: seq<Post>, cursor: string, q: seq<Post>)
    requires FilterNew(batch, cursor).Some?
    requires SortedById(q) && KeepsOrderAbove(batch, cursor, q)
    ensures q == SortById(FilterNew(batch, cursor).value)
  {
    var kept := FilterNew(batch, cursor).value;
    FilterNewOrder(batch, cursor);
    forall k ensures StableSort.WithKey(Key, q, k) == StableSort.WithKey(Key, kept, k) {
      assert WithId(q, k) == WithId(kept, k);
    }
    StableSort.SortIsUnique(Key, kept, q);
  }

  /** Statuses with ids "50", "10" and "30" above cursor "5" are processed
      as "10", "30", "50". */
  lemma FifoExample(a: Post, b: Post, c: Post)
    requires a.id == "50" && b.id == "10" && c.id == "30"
    ensures FilterNew([a, b, c], "5") == Some([a, b, c])
    ensures SortById([a, b, c]) == [b, c, a]
  {
    FifoIds(a, b, c);
    FifoFilter(a, b, c);
    StableSort.SortThree(Key, a, b, c);
  }

  /** The ids of `FifoExample` read as 50, 10 and 30. */
  lemma FifoIds(a: Post, b: Post, c: Post)
    requires a.id == "50" && b.id == "10" && c.id == "30"
    ensures IdValue(a) == Some(50) && IdValue(b) == Some(10) && IdValue(c) == Some(30)
  {
    ReadTwoDigits(a, '5', '0');
    ReadTwoDigits(b, '1', '0');
    ReadTwoDigits(c, '3', '0');
  }

  /** The cursor "5" reads as 5, below all three ids of `FifoExample`. */
  lemma FifoFilter(a: Post, b: Post, c: Post)
    requires IdValue(a) == Some(50) && IdValue(b) == Some(10) && IdValue(c) == Some(30)
    ensures FilterNew([a, b, c], "5") == Some([a, b, c])
  {
    assert BigIntParse.IsDecimal("5");
    BigIntParse.ParseDecimal("5");
    BigIntParse.DigitsOne("5");
    KeyFilter.FilterKeepsThree(IdValue, a, b, c, BigIntParse.StringToBigInt("5"));
  }

  /** Cursor "30" with ids "30" and "31" keeps only "31": the bound is exclusive. */
  lemma ExclusiveBoundExample(a: Post, b: Post)
    requires a.id == "30" && b.id == "31"
    ensures FilterNew([a, b], "30") == Some([b])
  {
    ReadTwoDigits(a, '3', '0');
    ReadTwoDigits(b, '3', '1');
    KeyFilter.FilterDropsFirst(IdValue, a, b, BigIntParse.StringToBigInt("30"));
  }

  /** Ids "10" and "9" are taken as "9", then "10": numeric, not string, order. */
  lemma NineBeforeTenInQueue(a: Post, b: Post)
    requires a.id == "10" && b.id == "9"
    ensures SortById([a, b]) == [b, a]
  {
    BigIntParse.NineBeforeTen();
    StableSort.SortTwo(Key, a, b);
  }

  /** A post whose id is two decimal digits reads as ten times the first plus the second. */
  lemma ReadTwoDigits(p: Post, hi: char, lo: char)
    requires p.id == [hi, lo] && '0' <= hi <= '9' && '0' <= lo <= '9'
    ensures IdValue(p) == Some((hi as int - '0' as int) * 10 + (lo as int - '0' as int))
  {
    assert BigIntParse.DigitValue(hi) == hi as int - '0' as int;
    assert BigIntParse.DigitValue(lo) == lo as int - '0' as int;
    BigIntParse.ParseDigitPair(p.id);
  }
}
