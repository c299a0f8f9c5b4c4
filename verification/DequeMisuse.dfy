/** Calls of the deque that go wrong. */
module DequeMisuse {
  /* What src/main/ddeque.cpp does after clear(), and requests that read through NULL. */

  import opened Deque
  import opened DequeChunks
  import opened DequeLists

  // --------------------------------------------------------------------------
  // push_back after clear
  // --------------------------------------------------------------------------

  /** The deque has more than two chunks, or two full ones. */
  predicate TooLong(cs: seq<Chunk>, size: nat) {
    |cs| > 2 || (|cs| == 2 && cs[1].tail >= size)
  }

  /** The chunks in use were cs, the unused ones es: what push_back finds after clear. */
  lemma ClearedChunks(cs: seq<Chunk>, es: seq<Chunk>, size: nat)
    requires Dense(cs, size) && AllIdle(es, size) && size > 0
    ensures TwoFull(cs + es, size) <==> TooLong(cs, size)
    ensures !TooLong(cs, size) ==> Returned(cs + es, size) == Items(cs)
    ensures Items(cs) == [] <==> cs == []
  {
    NoItems(cs, size);
    if |cs| > 0 { assert FitsAt(cs, size, 0); }
    if |cs| > 1 { assert FitsAt(cs, size, 1); }
    if cs == [] {
      assert cs + es == es && Windows([]) == [];
    } else if |cs| == 1 {
      assert cs == [cs[0]];
      ItemsOne(cs[0]);
    } else if |cs| == 2 {
      assert cs == [cs[0], cs[1]];
      ItemsTwo(cs[0], cs[1]);
    }
  }

  /** clear and then push_back: all the old items are back, behind them the new one, with a
      count of one item; or, when the deque had more than two chunks or two full ones, the
      item is written behind the end of a chunk. So the deque holds the new item alone
      exactly if it was empty before clear. */
  method ClearThenPush(d: Deque, x: Item) returns (o: Pushed)
    requires d.Valid()
    modifies d
    ensures o.Overrun? <==> TooLong(old(Data(d.mem, d.used)), d.chunkSize)
    ensures o.Stored? ==> d.Contents() == old(d.Contents()) + [x] && d.items == 1
    ensures o.Exhausted? ==> d.Contents() == old(d.Contents()) && d.items == 0
    ensures o.Exhausted? <==> d.refused > old(d.refused)
    ensures o.Stored? ==> (d.Contents() == [x] <==> old(d.Contents()) == [])
  {
    ghost var cs, es := Data(d.mem, d.used), Data(d.mem, d.spare);
    ClearedChunks(cs, es, d.chunkSize);
    d.Clear();
    o := d.PushBack(x);
  }

  lemma ReversedNext(xs: seq<Item>, n: nat)
    requires n < |xs|
    ensures Reversed(xs[..n + 1]) == [xs[n]] + Reversed(xs[..n])
  {
  }

  /** clear and then a number of push_fronts: as long as there is memory, the deque holds
      the new items alone, the last one first. */
  method ClearThenPushFront(d: Deque, xs: seq<Item>) returns (n: nat)
    requires d.Valid()
    modifies d
    ensures n <= |xs| && d.items == n && d.Contents() == Reversed(xs[..n])
    ensures n == |xs| <==> d.refused == old(d.refused)
  {
    d.Clear();
    n := 0;
    while n < |xs|
      invariant n <= |xs| && d.Working() && d.Contents() == Reversed(xs[..n]) && d.refused == old(d.refused)
    {
      var ok := d.PushFront(xs[n]);
      if !ok { return; }
      ReversedNext(xs, n);
      n := n + 1;
    }
  }

  // --------------------------------------------------------------------------
  // Requests that read through NULL
  // --------------------------------------------------------------------------

  /** A bulk push_back of nothing on a new deque. */
  method PushNothing() returns (r: Request)
    ensures r.Fault?
  {
    var d := new Deque(4);
    r := d.PushBackMany([]);
  }

  /** Bulk pushes at the front of a new deque: of more than fits into one chunk, with memory
      for the chunks, and of nothing. */
  method PushTooMuchInFront(turn: bool) returns (d: Deque, r: Request)
    ensures fresh(d) && (d.refused == 0 ==> r.Fault?)
  {
    d := new Deque(4);
    r := d.PushFrontMany([1, 2, 3, 4, 5], turn);
  }

  method PushNothingInFront(turn: bool) returns (r: Request)
    ensures r.Fault?
  {
    var d := new Deque(4);
    r := d.PushFrontMany([], turn);
  }
}
