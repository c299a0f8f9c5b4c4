/** Access to the deque by position (src/main/ddeque.cpp): get() from the nearer end, and
    the iterators. */
module DequeWalk {
  import opened Basics
  import opened Buckets
  import opened Deque
  import opened DequeChunks
  import opened DequeLists
  import opened Iterators
  import opened LinkedMemory

  /** The chunks of a list and their windows. */
  ghost predicate Walkable(m: Chunks, used: seq<Ptr>, size: nat) {
    Segment(m, used, NULL, NULL) && Dense(Data(m, used), size)
  }

  ghost function Ranges(m: Chunks, used: seq<Ptr>): seq<seq<Item>> {
    Windows(Data(m, used))
  }

  ghost function Rank(m: Chunks, used: seq<Ptr>, b: nat): nat
    requires b <= |used|
  {
    Before(Ranges(m, used), b)
  }

  ghost function Total(m: Chunks, used: seq<Ptr>): nat {
    |Items(Data(m, used))|
  }

  /** What a walk sees at the b-th chunk; ranks are those of the first items of the chunks. */
  ghost predicate StepAt(m: Chunks, used: seq<Ptr>, ranks: seq<nat>, b: nat)
    requires b < |used| && |ranks| == |used| + 1
  {
    && used[b] in m && used[b] != NULL
    && m[used[b]].next == (if b + 1 < |used| then used[b + 1] else NULL)
    && m[used[b]].prev == (if b > 0 then used[b - 1] else NULL)
    && m[used[b]].data.head < m[used[b]].data.tail <= |m[used[b]].data.items|
    && ranks[b + 1] == ranks[b] + m[used[b]].data.tail - m[used[b]].data.head
  }

  /** The chunks of a list one behind the other. (What the walks need, without the
      recursion that counts the items.) */
  ghost predicate Ladder(m: Chunks, used: seq<Ptr>, ranks: seq<nat>) {
    && |ranks| == |used| + 1 && ranks[0] == 0
    && (forall b: nat {:trigger StepAt(m, used, ranks, b)} :: b < |used| ==> StepAt(m, used, ranks, b))
  }

  ghost function RanksOf(m: Chunks, used: seq<Ptr>): (ranks: seq<nat>) {
    seq(|used| + 1, b requires 0 <= b <= |used| => Rank(m, used, b))
  }

  lemma LadderOf(m: Chunks, used: seq<Ptr>, size: nat)
    requires Walkable(m, used, size)
    ensures Ladder(m, used, RanksOf(m, used)) && RanksOf(m, used)[|used|] == Total(m, used)
  {
    var ws := Ranges(m, used);
    BeforeIsPrefix(ws, |ws|);
    assert ws[..|ws|] == ws;
    forall b: nat | b < |used| ensures StepAt(m, used, RanksOf(m, used), b) {
      Neighbours(m, used, b);
      assert FitsAt(Data(m, used), size, b);
    }
  }

  /** No rank of a chunk is beyond the last one. */
  lemma {:induction false} RanksGrow(m: Chunks, used: seq<Ptr>, ranks: seq<nat>, b: nat, c: nat)
    requires Ladder(m, used, ranks) && b <= c <= |used|
    ensures ranks[b] <= ranks[c]
  {
    if b < c {
      assert StepAt(m, used, ranks, c - 1);
      RanksGrow(m, used, ranks, b, c - 1);
    }
  }

  /** The slot of the i-th item. */
  ghost predicate Holds(m: Chunks, used: seq<Ptr>, p: Ptr, offset: nat, i: nat) {
    && p in used && p in m && m[p].data.head <= offset < m[p].data.tail <= |m[p].data.items|
    && i < Total(m, used) && m[p].data.items[offset] == Items(Data(m, used))[i]
  }

  lemma SlotHolds(m: Chunks, used: seq<Ptr>, size: nat, b: nat, offset: nat)
    requires Walkable(m, used, size) && b < |used|
    requires used[b] in m ==> m[used[b]].data.head <= offset < m[used[b]].data.tail
    ensures used[b] in m && Holds(m, used, used[b], offset, RanksOf(m, used)[b] + offset - m[used[b]].data.head)
  {
    Neighbours(m, used, b);
    assert FitsAt(Data(m, used), size, b);
    var c := m[used[b]].data;
    assert Ranges(m, used)[b] == c.items[c.head..c.tail];
    FlatAt(Ranges(m, used), b, offset - c.head);
  }

  // --------------------------------------------------------------------------
  // By position
  // --------------------------------------------------------------------------

  /** The slot of rank i, in the b-th chunk. */
  ghost predicate SlotAt(m: Chunks, used: seq<Ptr>, ranks: seq<nat>, p: Ptr, offset: nat, i: int, b: nat) {
    && |ranks| == |used| + 1 && b < |used| && p == used[b] && p in m
    && m[p].data.head <= offset < m[p].data.tail && i == ranks[b] + offset - m[p].data.head
  }

  /** From the first chunk on. (The list is never left: it holds more than i items.) */
  method FromHead(m: Chunks, head: Ptr, i: nat, ghost used: seq<Ptr>, ghost ranks: seq<nat>) returns (p: Ptr, offset: nat, ghost b: nat)
    requires Ladder(m, used, ranks) && i < ranks[|used|] && head == First(used)
    ensures p != NULL && SlotAt(m, used, ranks, p, offset, i, b)
  {
    b := 0;
    var rest: nat := i;
    p := head;
    while true
      invariant b < |used| && p == used[b] && ranks[b] + rest == i
      decreases |used| - b
    {
      assert StepAt(m, used, ranks, b);
      var n := m[p].data.tail - m[p].data.head;
      if rest < n { return p, m[p].data.head + rest, b; }
      rest := rest - n;
      p := m[p].next;
      b := b + 1;
    }
  }

  /** From the last chunk on; i counts from the back. */
  method FromTail(m: Chunks, tail: Ptr, i: nat, ghost used: seq<Ptr>, ghost ranks: seq<nat>) returns (p: Ptr, offset: nat, ghost b: nat)
    requires Ladder(m, used, ranks) && i < ranks[|used|] && tail == Last(used)
    ensures p != NULL && SlotAt(m, used, ranks, p, offset, ranks[|used|] - 1 - i, b)
  {
    b := |used| - 1;
    var rest: nat := i;
    p := tail;
    while true
      invariant b < |used| && p == used[b] && ranks[b + 1] - rest == ranks[|used|] - i > 0
      decreases b
    {
      assert StepAt(m, used, ranks, b);
      var n := m[p].data.tail - m[p].data.head;
      if rest < n { return p, m[p].data.tail - rest - 1, b; }
      rest := rest - n;
      p := m[p].prev;
      b := b - 1;
    }
  }

  /** get: the slot of the i-th item, from whichever end is nearer; NULL exactly without one. */
  method Get(d: Deque, i: nat) returns (p: Ptr, offset: nat)
    requires d.Valid()
    ensures p == NULL <==> i >= |d.Contents()|
    ensures p != NULL ==> Holds(d.mem, d.used, p, offset, i) && d.mem[p].data.items[offset] == d.Contents()[i]
  {
    ghost var b;
    LadderOf(d.mem, d.used, d.chunkSize);
    p, offset, b := Pick(d.mem, d.head, d.tail, d.items, i, d.used, RanksOf(d.mem, d.used));
    if p != NULL { SlotHolds(d.mem, d.used, d.chunkSize, b, offset); }
  }

  /** The choice between both ends. */
  method Pick(m: Chunks, head: Ptr, tail: Ptr, items: nat, i: nat, ghost used: seq<Ptr>, ghost ranks: seq<nat>)
    returns (p: Ptr, offset: nat, ghost b: nat)
    requires Ladder(m, used, ranks) && items == ranks[|used|] && head == First(used) && tail == Last(used)
    ensures p == NULL <==> i >= items
    ensures p != NULL ==> SlotAt(m, used, ranks, p, offset, i, b)
  {
    var half := items / 2;
    if i < half {
      p, offset, b := FromHead(m, head, i, used, ranks);
    } else if i < items {
      p, offset, b := FromTail(m, tail, items - i - 1, used, ranks);
    } else {
      p, offset, b := NULL, 0, 0;
    }
  }

  // --------------------------------------------------------------------------
  // Iterators
  // --------------------------------------------------------------------------

  datatype Iterator = Invalid | Iterator(item: Ptr, index: nat, offset: nat, reverse: bool)

  /** The iterator stands in the b-th chunk, and its index is the rank of its item. */
  ghost predicate StandsOn(m: Chunks, used: seq<Ptr>, ranks: seq<nat>, it: Iterator, b: nat) {
    it.Iterator? && SlotAt(m, used, ranks, it.item, it.offset, it.index, b)
  }

  ghost predicate Stands(m: Chunks, used: seq<Ptr>, it: Iterator, b: nat) {
    StandsOn(m, used, RanksOf(m, used), it, b)
  }

  /** iter and riter: the iterators at both ends. */
  method Iter(d: Deque) returns (it: Iterator)
    requires d.Valid()
    ensures it.Invalid? <==> d.Contents() == []
    ensures it.Iterator? ==> Stands(d.mem, d.used, it, 0) && it.index == 0 && !it.reverse
  {
    if d.items <= 0 { return Invalid; }
    LadderOf(d.mem, d.used, d.chunkSize);
    assert StepAt(d.mem, d.used, RanksOf(d.mem, d.used), 0);
    it := Iterator(d.head, 0, d.mem[d.head].data.head, false);
  }

  method RIter(d: Deque) returns (it: Iterator)
    requires d.Valid()
    ensures it.Invalid? <==> d.Contents() == []
    ensures it.Iterator? ==> Stands(d.mem, d.used, it, |d.used| - 1) && it.index == |d.Contents()| - 1 && it.reverse
  {
    if d.items <= 0 { return Invalid; }
    LadderOf(d.mem, d.used, d.chunkSize);
    assert StepAt(d.mem, d.used, RanksOf(d.mem, d.used), |d.used| - 1);
    it := Iterator(d.tail, d.items - 1, d.mem[d.tail].data.tail - 1, true);
  }

  /** The forward loop of iter_move. */
  method Forward(m: Chunks, it: Iterator, n: nat, ghost used: seq<Ptr>, ghost ranks: seq<nat>, ghost b: nat)
    returns (it': Iterator, ghost b': nat)
    requires Ladder(m, used, ranks) && StandsOn(m, used, ranks, it, b)
    ensures it'.Invalid? <==> it.index + n >= ranks[|used|]
    ensures it'.Iterator? ==> StandsOn(m, used, ranks, it', b') && it'.index == it.index + n && it'.reverse == it.reverse
  {
    it', b' := it, b;
    var rest: nat := n;
    while rest > 0
      invariant StandsOn(m, used, ranks, it', b') && it'.index + rest == it.index + n && it'.reverse == it.reverse
      decreases rest
    {
      assert StepAt(m, used, ranks, b');
      var c := m[it'.item].data;
      var step := if c.tail - it'.offset < rest then c.tail - it'.offset else rest;
      it' := it'.(offset := it'.offset + step, index := it'.index + step);
      if it'.offset >= c.tail {
        var next := m[it'.item].next;
        assert b' + 1 < |used| ==> StepAt(m, used, ranks, b' + 1);
        if next == NULL { return Invalid, b'; }
        b' := b' + 1;
        it' := it'.(item := next, offset := m[next].data.head);
      }
      rest := rest - step;
    }
    assert StepAt(m, used, ranks, b');
    RanksGrow(m, used, ranks, b' + 1, |used|);
  }

  /** The backward loop; n steps towards the front. */
  method Backward(m: Chunks, it: Iterator, n: nat, ghost used: seq<Ptr>, ghost ranks: seq<nat>, ghost b: nat)
    returns (it': Iterator, ghost b': nat)
    requires Ladder(m, used, ranks) && StandsOn(m, used, ranks, it, b)
    ensures it'.Invalid? <==> n > it.index
    ensures it'.Iterator? ==> StandsOn(m, used, ranks, it', b') && it'.index == it.index - n && it'.reverse == it.reverse
  {
    it', b' := it, b;
    var rest: nat := n;
    while rest > 0
      invariant StandsOn(m, used, ranks, it', b') && it'.index - rest == it.index - n && it'.reverse == it.reverse
      decreases rest
    {
      assert StepAt(m, used, ranks, b') && (b' > 0 ==> StepAt(m, used, ranks, b' - 1));
      if it'.offset <= m[it'.item].data.head {
        var prev := m[it'.item].prev;
        if prev == NULL { return Invalid, b'; }
        b' := b' - 1;
        it' := it'.(item := prev, offset := m[prev].data.tail);
      }
      var c := m[it'.item].data;
      var step := if it'.offset - c.head < rest then it'.offset - c.head else rest;
      it' := it'.(offset := it'.offset - step, index := it'.index - step);
      rest := rest - step;
    }
  }

  /** iter_move by any signed number of steps: it ends at the item so many ranks away with
      its index updated, or nowhere exactly if there is no such item. */
  method IterMove(d: Deque, it: Iterator, n: int, ghost b: nat) returns (it': Iterator, ghost b': nat)
    requires d.Valid() && Stands(d.mem, d.used, it, b)
    ensures it'.Invalid? <==> it.index + n < 0 || it.index + n >= |d.Contents()|
    ensures it'.Iterator? ==> Stands(d.mem, d.used, it', b') && it'.index == it.index + n && it'.reverse == it.reverse
    ensures it'.Iterator? ==> Holds(d.mem, d.used, it'.item, it'.offset, it.index + n)
  {
    LadderOf(d.mem, d.used, d.chunkSize);
    Inside(d.mem, d.used, d.chunkSize, it, b);
    if n >= 0 {
      it', b' := Forward(d.mem, it, n, d.used, RanksOf(d.mem, d.used), b);
    } else {
      it', b' := Backward(d.mem, it, -n, d.used, RanksOf(d.mem, d.used), b);
    }
    if it'.Iterator? { Inside(d.mem, d.used, d.chunkSize, it', b'); }
  }

  lemma Inside(m: Chunks, used: seq<Ptr>, size: nat, it: Iterator, b: nat)
    requires Walkable(m, used, size) && Stands(m, used, it, b)
    ensures it.index < Total(m, used) && Holds(m, used, it.item, it.offset, it.index)
  {
    var ranks := RanksOf(m, used);
    LadderOf(m, used, size);
    assert StepAt(m, used, ranks, b);
    RanksGrow(m, used, ranks, b + 1, |used|);
    SlotHolds(m, used, size, b, it.offset);
  }

  // --------------------------------------------------------------------------
  // Whole iterations
  // --------------------------------------------------------------------------

  /** advance: n steps in the direction of the iterator. */
  method Advance(d: Deque, it: Iterator, n: int, ghost b: nat) returns (it': Iterator, ghost b': nat)
    requires d.Valid() && Stands(d.mem, d.used, it, b)
    ensures it'.Invalid? <==> it.index + Directed(it.reverse, n) < 0 || it.index + Directed(it.reverse, n) >= |d.Contents()|
    ensures it'.Iterator? ==> Stands(d.mem, d.used, it', b') && it'.index == it.index + Directed(it.reverse, n)
    ensures it'.Iterator? ==> it'.reverse == it.reverse
  {
    it', b' := IterMove(d, it, if it.reverse then -n else n, b);
  }

  /** max_advance() and remaining(): advance() by n leads to an item exactly if n is at most k,
      and in the direction of the iterator, its own item is the first of those left. */
  method StepsLeft(d: Deque, it: Iterator, ghost b: nat) returns (k: nat, left: nat)
    requires d.Valid() && Stands(d.mem, d.used, it, b)
    ensures forall n: nat {:trigger Directed(it.reverse, n)} :: n <= k <==> 0 <= it.index + Directed(it.reverse, n) < |d.Contents()|
    ensures left <= |d.Contents()| && it.index == Place(it.reverse, |d.Contents()| - left, |d.Contents()|)
  {
    Inside(d.mem, d.used, d.chunkSize, it, b);
    k, left := MaxAdvance(it.reverse, it.index, d.items), Remaining(it.reverse, it.index, d.items);
  }

  /** The iterator stands where k items in its direction have been visited. */
  ghost predicate StandsAfter(m: Chunks, used: seq<Ptr>, it: Iterator, b: nat, reverse: bool, k: int) {
    if k < Total(m, used)
    then Stands(m, used, it, b) && it.index == Place(reverse, k, Total(m, used)) && it.reverse == reverse
    else it.Invalid?
  }

  /** One item, and ++. */
  method Step(d: Deque, it: Iterator, ghost b: nat, ghost k: nat) returns (x: Item, it': Iterator, ghost b': nat)
    requires d.Valid() && it.Iterator? && StandsAfter(d.mem, d.used, it, b, it.reverse, k)
    ensures k < |d.Contents()| && x == d.Contents()[Place(it.reverse, k, |d.Contents()|)]
    ensures StandsAfter(d.mem, d.used, it', b', it.reverse, k + 1)
  {
    Inside(d.mem, d.used, d.chunkSize, it, b);
    x := d.mem[it.item].data.items[it.offset];
    it', b' := Advance(d, it, 1, b);
  }

  /** All items from one end in the direction of the iterator. */
  method VisitFrom(d: Deque, it: Iterator, ghost b: nat, ghost reverse: bool) returns (xs: seq<Item>)
    requires d.Valid() && StandsAfter(d.mem, d.used, it, b, reverse, 0)
    ensures xs == Along(d.Contents(), reverse)
  {
    ghost var all, at := d.Contents(), b;
    var here := it;
    xs := [];
    while here.Iterator?
      invariant Visited(all, reverse, xs) && StandsAfter(d.mem, d.used, here, at, reverse, |xs|)
      decreases |all| - |xs|
    {
      var x;
      x, here, at := Step(d, here, at, |xs|);
      VisitOne(all, reverse, xs, x);
      xs := xs + [x];
    }
    VisitedAll(all, reverse, xs);
  }

  /** From iter() on with ++: the contents. */
  method Visit(d: Deque) returns (xs: seq<Item>)
    requires d.Valid()
    ensures xs == d.Contents()
  {
    var it := Iter(d);
    xs := VisitFrom(d, it, 0, false);
    AlongForwards(d.Contents());
  }

  /** From riter() on with ++: the contents the other way round. */
  method VisitBack(d: Deque) returns (xs: seq<Item>)
    requires d.Valid()
    ensures xs == Along(d.Contents(), true)
  {
    var it := RIter(d);
    xs := VisitFrom(d, it, if it.Iterator? then |d.used| - 1 else 0, true);
  }

  // --------------------------------------------------------------------------
  // Chunks and items
  // --------------------------------------------------------------------------

  /** The counters count what they say, no chunk is on two lists or lost, and the chunks in
      use are used: k of them hold at most k * chunkSize items, and at least
      (k - 2) * chunkSize + 2 when k is two or more. */
  lemma ChunkAccount(d: Deque)
    requires d.Valid()
    ensures d.chunks - d.idle == |d.used| && d.idle == |d.spare|
    ensures NoRepeats(d.used) && NoRepeats(d.spare) && Disjoint(d.used, d.spare)
    ensures d.mem.Keys == Members(d.used) + Members(d.spare)
    ensures var k := d.chunks - d.idle;
      && d.items <= k * d.chunkSize && (k >= 2 ==> d.items >= (k - 2) * d.chunkSize + 2)
      && (d.items == 0 <==> k == 0)
  {
    HeldApart(d.mem, d.used, d.spare, []);
    HowMany(Data(d.mem, d.used), d.chunkSize);
  }
}
