/** The double-ended queue (src/main/ddeque.cpp): chunks in a doubly linked list, and a
    list of recycled ones.  Chunks live in an explicit memory. */
module Deque {
  import opened Basics
  import opened DequeChunks
  import opened DequeLists
  import opened LinkedMemory

  /** How a request for chunks ends. Fault is a read through NULL. */
  datatype Request = Acquired | NoMemory | Fault

  /** How push_back ends. Overrun is a write behind the end of a chunk. */
  datatype Pushed = Stored | Exhausted | Overrun

  class Deque {
    const chunkSize: nat
    var head: Ptr
    var tail: Ptr
    var unused: Ptr
    var items: nat
    var chunks: nat
    var idle: int
    var mem: Chunks
    ghost var used: seq<Ptr>
    ghost var spare: seq<Ptr>
    ghost var refused: nat              // requests for memory that were refused

    // ------------------------------------------------------------------------
    // The invariant
    // ------------------------------------------------------------------------

    /** The links are sound while an operation holds some chunks in its hands. */
    ghost predicate Loose(held: seq<Ptr>)
      reads `head, `tail, `unused, `chunks, `mem, `used, `spare
    {
      && chunkSize > 0 && Listed(mem, used, spare, held)
      && head == First(used) && tail == Last(used) && unused == First(spare)
      && chunks == |used| + |spare| + |held|
    }

    /** The same, and the unused chunks have empty windows. */
    ghost predicate Holding(held: seq<Ptr>)
      reads `head, `tail, `unused, `chunks, `mem, `used, `spare
    {
      Loose(held) && AllIdle(Data(mem, spare), chunkSize)
    }

    ghost predicate Valid()
      reads this
    {
      && Holding([]) && idle == |spare|
      && Dense(Data(mem, used), chunkSize) && items == |Items(Data(mem, used))|
    }

    /** In order but for the windows of the unused chunks: a deque that is valid, or was
        cleared since. */
    ghost predicate Working()
      reads this
    {
      && Loose([]) && idle == |spare| && WindowsFit(Data(mem, spare), chunkSize)
      && Dense(Data(mem, used), chunkSize) && items == |Items(Data(mem, used))|
    }

    /** The items from front to back. */
    ghost function Contents(): seq<Item>
      reads `mem, `used
    {
      Items(Data(mem, used))
    }

    constructor (chunkSize: nat)
      requires chunkSize > 0
      ensures Valid() && Contents() == [] && this.chunkSize == chunkSize && chunks == 0 && mem == map[] && refused == 0
    {
      this.chunkSize := chunkSize;
      head, tail, unused := NULL, NULL, NULL;
      items, chunks, idle := 0, 0, 0;
      mem, used, spare, refused := map[], [], [], 0;
    }

    // ------------------------------------------------------------------------
    // Chunks
    // ------------------------------------------------------------------------

    /** alloc_chunk: NULL, or a new chunk with an empty window. */
    method AllocChunk() returns (p: Ptr)
      modifies `mem, `refused
      ensures refused == old(refused) + (if p != NULL then 0 else 1)
      ensures p == NULL ==> mem == old(mem)
      ensures p != NULL ==> p !in old(mem) && mem.Keys == old(mem.Keys) + {p} && Keeps(old(mem), mem, {})
      ensures p != NULL ==> mem[p].next == NULL && mem[p].prev == NULL && Idle(mem[p].data, chunkSize)
    {
      var granted := *;
      if !granted {
        refused := refused + 1;
        return NULL;
      }
      ghost var free := FreshAddress(mem.Keys);
      assert free !in mem.Keys;
      p :| p != NULL && p !in mem.Keys;
      ghost var zeros: seq<Item> := seq(chunkSize, _ => 0);
      assert |zeros| == chunkSize;
      var junk: seq<Item> :| |junk| == chunkSize;
      mem := mem[p := Node(NULL, NULL, Chunk(0, 0, junk))];
    }

    /** free_chunk_list. */
    method FreeChunkList(first: Ptr, ghost l: seq<Ptr>, ghost before: Ptr)
      requires Segment(mem, l, before, NULL) && first == First(l)
      modifies `mem
      ensures mem == old(mem) - Members(l)
    {
      var curr := first;
      if l != [] { SegmentEnds(mem, l, before, NULL); }
      ghost var rest, prev := l, before;
      while curr != NULL
        invariant Segment(mem, rest, prev, NULL) && curr == First(rest) && (curr == NULL <==> rest == [])
        invariant Members(rest) <= Members(l) && mem == old(mem) - (Members(l) - Members(rest))
        decreases |rest|
      {
        ghost var p, more := rest[0], rest[1..];
        assert rest == [p] + more;
        SegmentCut(mem, [p], more, prev, NULL);
        SegmentEnds(mem, rest, prev, NULL);
        if more != [] { SegmentEnds(mem, more, p, NULL); }
        var next := mem[curr].next;
        KeepsSegment(mem, mem - {curr}, {curr}, more, p, NULL);
        assert forall q :: q in rest <==> q == p || q in more;
        mem := mem - {curr};
        curr, rest, prev := next, more, p;
      }
    }

    /** alloc_chunk_list: so many new chunks, the first of which points back to the last,
        or none at all. */
    method AllocChunkList(count: nat) returns (first: Ptr, ghost l: seq<Ptr>)
      requires count > 0
      modifies `mem, `refused
      ensures refused == old(refused) + (if first != NULL then 0 else 1)
      ensures first == NULL ==> mem == old(mem)
      ensures first != NULL ==> |l| == count && first == l[0] && Segment(mem, l, Last(l), NULL) && AllIdle(Data(mem, l), chunkSize)
      ensures first != NULL ==> Keeps(old(mem), mem, {}) && mem.Keys == old(mem.Keys) + Members(l)
      ensures first != NULL ==> forall p :: p in l ==> p !in old(mem)
    {
      l := [];
      first := AllocChunk();
      if first == NULL { return; }
      l := [first];
      var tail := first;
      for i := 1 to count
        invariant refused == old(refused) && |l| == i && first == l[0] && tail == Last(l) && Fresh(old(mem), mem, l, chunkSize)
      {
        ghost var m1 := mem;
        var curr := AllocChunk();
        if curr == NULL {
          FreeChunkList(first, l, NULL);
          FreshFreed(old(mem), m1, l, chunkSize);
          return NULL, [];
        }
        FreshOneMore(old(mem), m1, mem, l, curr, chunkSize);
        mem := SetPrev(mem, curr, tail);
        mem := SetNext(mem, tail, curr);
        tail := curr;
        l := l + [curr];
      }
      FreshClosed(old(mem), mem, l, chunkSize);
      mem := SetPrev(mem, first, tail);
    }

    /** acquire_chunk: the first unused chunk with the window it has, or a new one. */
    method AcquireChunk() returns (p: Ptr)
      requires Loose([]) && idle == |spare|
      modifies `unused, `chunks, `idle, `mem, `spare, `refused
      ensures refused == old(refused) + (if p != NULL then 0 else 1)
      ensures p == NULL ==> old(spare) == [] && unchanged(`unused, `chunks, `idle, `mem, `spare)
      ensures p != NULL ==> Loose([p]) && Segment(mem, [p], NULL, NULL) && idle == |spare|
      ensures p != NULL ==> Data(mem, used) == old(Data(mem, used)) && chunks == old(chunks) + (if old(spare) == [] then 1 else 0)
      ensures p != NULL ==> NextChunk(old(Data(mem, spare)), DataOf(mem, p), Data(mem, spare), chunkSize)
    {
      p := unused;
      SpareIs(mem, spare);
      if p == NULL {
        p := AllocChunk();
        if p != NULL {
          TakeNew(old(mem), mem, used, spare, [p]);
          chunks := chunks + 1;
        }
        return;
      }
      TakeRecycled(p);
    }

    method TakeRecycled(p: Ptr)
      requires Loose([]) && idle == |spare| && p == unused != NULL
      modifies `unused, `idle, `mem, `spare
      ensures Loose([p]) && Segment(mem, [p], NULL, NULL) && idle == |spare| && Data(mem, used) == old(Data(mem, used))
      ensures NextChunk(old(Data(mem, spare)), DataOf(mem, p), Data(mem, spare), chunkSize)
    {
      TakeOne(mem, used, spare);
      unused := mem[p].next;
      if unused != NULL { mem := SetPrev(mem, unused, NULL); }
      mem := SetNext(mem, p, NULL);
      mem := SetPrev(mem, p, NULL);
      idle := idle - 1;
      spare := spare[1..];
    }

    /** release_chunk: a chunk in hand goes back to the recycled ones. */
    method ReleaseChunk(p: Ptr)
      requires Holding([p]) && p != NULL && |DataOf(mem, p).items| == chunkSize
      modifies `unused, `idle, `mem, `spare
      ensures Holding([]) && spare == [p] + old(spare) && idle == old(idle) + 1
      ensures Data(mem, used) == old(Data(mem, used))
    {
      Release(mem, used, spare, p, chunkSize);
      mem := mem[p := Node(unused, NULL, mem[p].data.(head := 0, tail := 0))];
      if unused != NULL { mem := SetPrev(mem, unused, p); }
      unused := p;
      idle := idle + 1;
      spare := [p] + spare;
    }

    // ------------------------------------------------------------------------
    // One item at the back
    // ------------------------------------------------------------------------

    /** A chunk in hand becomes the last used one. */
    method LinkBack(p: Ptr)
      requires Loose([p]) && Segment(mem, [p], NULL, NULL)
      modifies `head, `tail, `mem, `used
      ensures Loose([]) && Data(mem, used) == old(Data(mem, used)) + [old(DataOf(mem, p))]
      ensures Data(mem, spare) == old(Data(mem, spare))
    {
      AttachBackOne(mem, used, spare, p);
      if tail == NULL {
        head := p;
      } else {
        mem := SetPrev(mem, p, tail);
        mem := SetNext(mem, tail, p);
      }
      tail := p;
      used := used + [p];
    }

    /** One more chunk at the back. */
    method AddBack() returns (ok: bool)
      requires Loose([]) && idle == |spare|
      modifies `head, `tail, `unused, `chunks, `idle, `mem, `used, `spare, `refused
      ensures refused == old(refused) + (if ok then 0 else 1)
      ensures Loose([]) && idle == |spare|
      ensures ok ==> OneOpened(old(Data(mem, used)), old(Data(mem, spare)), Data(mem, used), Data(mem, spare), chunkSize)
      ensures ok ==> chunks == old(chunks) + (if old(spare) == [] then 1 else 0)
      ensures !ok ==> old(spare) == [] && mem == old(mem) && used == old(used) && spare == []
    {
      var p := AcquireChunk();
      if p == NULL { return false; }
      LinkBack(p);
      ok := true;
    }

    /** Writes an item behind the last window. */
    method WriteBack(x: Item)
      requires Loose([]) && used != []
      requires LastOf(Data(mem, used)).tail < |LastOf(Data(mem, used)).items|
      modifies `items, `mem
      ensures Loose([]) && Data(mem, spare) == old(Data(mem, spare)) && items == old(items) + 1
      ensures Data(mem, used) == WrittenBack(old(Data(mem, used)), x)
    {
      Neighbours(mem, used, |used| - 1);
      WriteUsed(mem, used, spare, [], |used| - 1, Extended(mem[tail].data, [x]));
      mem := SetData(mem, tail, Extended(mem[tail].data, [x]));
      items := items + 1;
    }

    /** The same if the last chunk has room. */
    method StoreLast(x: Item) returns (ok: bool)
      requires Loose([]) && used != [] && |LastOf(Data(mem, used)).items| == chunkSize
      modifies `items, `mem
      ensures Loose([]) && Data(mem, spare) == old(Data(mem, spare)) && items == old(items) + (if ok then 1 else 0)
      ensures ok <==> LastOf(old(Data(mem, used))).tail < chunkSize
      ensures Data(mem, used) == if ok then WrittenBack(old(Data(mem, used)), x) else old(Data(mem, used))
    {
      TailEnds(mem, used);
      ok := mem[tail].data.tail < chunkSize;
      if ok { WriteBack(x); }
    }

    /** Chunks for one more item at the back; us and ss are the chunks in use and the unused
        ones after the first test, for a deque without chunks. */
    method OpenBack() returns (ok: bool, ghost us: seq<Chunk>, ghost ss: seq<Chunk>)
      requires Loose([]) && idle == |spare|
      modifies `head, `tail, `unused, `chunks, `idle, `mem, `used, `spare, `refused
      ensures refused == old(refused) + (if ok then 0 else 1)
      ensures Loose([]) && idle == |spare|
      ensures ok ==> chunks == old(chunks) + More(Opens(old(Data(mem, used)), old(Data(mem, spare)), chunkSize), old(|spare|))
      ensures ok ==> used != [] && Opened(old(Data(mem, used)), old(Data(mem, spare)), us, ss, Data(mem, used), Data(mem, spare), chunkSize)
      ensures !ok ==> Refused(old(Data(mem, used)), old(Data(mem, spare)), Data(mem, used), Data(mem, spare), chunkSize)
    {
      us, ss := [], [];
      TailEnds(mem, used);
      if tail == NULL {
        ok := AddBack();
        if !ok { return; }
      }
      TailEnds(mem, used);
      us, ss := Data(mem, used), Data(mem, spare);
      ok := true;
      if mem[tail].data.tail >= chunkSize { ok := AddBack(); }
    }

    /** push_back. In a deque that is in order an item is added, or nothing has changed. In
        a cleared one the old windows of the first chunks come back with it, and when two of
        them are full the item is written behind the second one. */
    method PushBack(x: Item) returns (o: Pushed)
      requires Valid() || Stale()
      modifies `head, `tail, `unused, `items, `chunks, `idle, `mem, `used, `spare, `refused
      ensures refused == old(refused) + (if !o.Exhausted? then 0 else 1)
      ensures old(Valid()) && o.Exhausted? ==> old(spare) == [] && NeedsChunk(old(Data(mem, used)), chunkSize)
      ensures !o.Exhausted? ==> chunks == old(chunks) + More(Opens(old(Data(mem, used)), old(Data(mem, spare)), chunkSize), old(|spare|))
      ensures old(Valid()) ==> Valid() && !o.Overrun? && Contents() == old(Contents()) + (if o.Stored? then [x] else [])
      ensures old(Stale()) ==> (o.Overrun? <==> TwoFull(old(Data(mem, spare)), chunkSize))
      ensures old(Stale()) && o.Exhausted? ==> NoneToOpen(old(Data(mem, spare)), chunkSize)
      ensures old(Stale()) ==> Contents() == Returned(old(Data(mem, spare)), chunkSize) + (if o.Stored? then [x] else [])
      ensures old(Stale()) ==> items == if o.Stored? then 1 else 0
    {
      var ok := OpenFor(x);
      if !ok { return Exhausted; }
      var stored := StoreLast(x);
      o := if stored then Stored else Overrun;
    }

    /** Chunks for one more item at the back of a deque that is valid, or was cleared. */
    method OpenFor(ghost x: Item) returns (ok: bool)
      requires Valid() || Stale()
      modifies `head, `tail, `unused, `chunks, `idle, `mem, `used, `spare, `refused
      ensures refused == old(refused) + (if ok then 0 else 1)
      ensures Loose([]) && idle == |spare| && (ok ==> used != [] && |LastOf(Data(mem, used)).items| == chunkSize)
      ensures ok ==> chunks == old(chunks) + More(Opens(old(Data(mem, used)), old(Data(mem, spare)), chunkSize), old(|spare|))
      ensures old(Valid()) && !ok ==> Valid() && Contents() == old(Contents()) && old(spare) == [] && NeedsChunk(old(Data(mem, used)), chunkSize)
      ensures old(Valid()) && ok ==> LastOf(Data(mem, used)).tail < chunkSize && AllIdle(Data(mem, spare), chunkSize)
      ensures old(Valid()) && ok ==> Dense(WrittenBack(Data(mem, used), x), chunkSize)
      ensures old(Valid()) && ok ==> Items(WrittenBack(Data(mem, used), x)) == old(Contents()) + [x]
      ensures old(Stale()) ==> Contents() == Returned(old(Data(mem, spare)), chunkSize)
      ensures old(Stale()) && !ok ==> NoneToOpen(old(Data(mem, spare)), chunkSize) && !TwoFull(old(Data(mem, spare)), chunkSize)
      ensures old(Stale()) && ok ==> (LastOf(Data(mem, used)).tail >= chunkSize <==> TwoFull(old(Data(mem, spare)), chunkSize))
      ensures old(Stale()) && ok && LastOf(Data(mem, used)).tail < chunkSize ==>
        Items(WrittenBack(Data(mem, used), x)) == Returned(old(Data(mem, spare)), chunkSize) + [x]
    {
      ghost var cs, ds := Data(mem, used), Data(mem, spare);
      ghost var us, ss;
      ok, us, ss := OpenBack();
      if !ok {
        if old(Valid()) { RefusedValid(cs, ds, Data(mem, used), Data(mem, spare), chunkSize); }
        if old(Stale()) { RefusedStale(ds, Data(mem, used), Data(mem, spare), chunkSize); }
        return;
      }
      if old(Valid()) { OpenedValid(cs, ds, us, ss, Data(mem, used), Data(mem, spare), chunkSize, x); }
      if old(Stale()) { OpenedStale(ds, us, ss, Data(mem, used), Data(mem, spare), chunkSize, x); }
    }

    // ------------------------------------------------------------------------
    // One item at the front
    // ------------------------------------------------------------------------

    /** A chunk in hand becomes the first used one. */
    method LinkFront(p: Ptr)
      requires Loose([p]) && Segment(mem, [p], NULL, NULL)
      modifies `head, `tail, `mem, `used
      ensures Loose([]) && used == [p] + old(used) && Data(mem, used) == [old(DataOf(mem, p))] + old(Data(mem, used))
      ensures Data(mem, spare) == old(Data(mem, spare))
    {
      AttachFrontOne(mem, used, spare, p);
      if head == NULL {
        tail := p;
      } else {
        mem := SetNext(mem, p, head);
        mem := SetPrev(mem, head, p);
      }
      head := p;
      used := [p] + used;
    }

    /** One more chunk at the front, with an empty window at its end, whatever window it had. */
    method AddFront() returns (ok: bool)
      requires Loose([]) && idle == |spare| && Dense(Data(mem, used), chunkSize) && WindowsFit(Data(mem, spare), chunkSize)
      requires used != [] ==> Data(mem, used)[0].head == 0
      modifies `head, `tail, `unused, `chunks, `idle, `mem, `used, `spare, `refused
      ensures refused == old(refused) + (if ok then 0 else 1)
      ensures Loose([]) && idle == |spare| && FewerSpare(old(Data(mem, spare)), Data(mem, spare))
      ensures ok ==> RoomFront(Data(mem, used), chunkSize, old(Contents()))
      ensures ok ==> chunks == old(chunks) + (if old(spare) == [] then 1 else 0)
      ensures !ok ==> mem == old(mem) && used == old(used) && old(spare) == [] && chunks == old(chunks)
    {
      var p := AcquireChunk();
      if p == NULL { return false; }
      FitsNext(old(Data(mem, spare)), DataOf(mem, p), Data(mem, spare), chunkSize);
      WriteHeld(mem, used, spare, p, AtEnd(mem[p].data, chunkSize));
      mem := SetData(mem, p, AtEnd(mem[p].data, chunkSize));
      ghost var cs := Data(mem, used);
      LinkFront(p);
      assert Data(mem, used)[1..] == cs;
      ok := true;
    }

    /** Writes an item in front of the first window. */
    method PlaceFront(x: Item, ghost s: seq<Item>)
      requires Loose([]) && idle == |spare| && items == |s| && RoomFront(Data(mem, used), chunkSize, s)
      modifies `items, `mem
      ensures Loose([]) && idle == |spare| && Dense(Data(mem, used), chunkSize) && items == |Items(Data(mem, used))|
      ensures Data(mem, spare) == old(Data(mem, spare)) && Contents() == [x] + s
    {
      PlaceFirst(Data(mem, used), chunkSize, s, x);
      Neighbours(mem, used, 0);
      WriteUsed(mem, used, spare, [], 0, Preceded(mem[head].data, [x]));
      mem := SetData(mem, head, Preceded(mem[head].data, [x]));
      items := items + 1;
    }

    /** push_front: without memory for a chunk, everything stays as it was. It resets the
        window of a chunk it takes, so it also works on a cleared deque, any number of times. */
    method PushFront(x: Item) returns (ok: bool)
      requires Valid() || Working()
      modifies `head, `tail, `unused, `items, `chunks, `idle, `mem, `used, `spare, `refused
      ensures refused == old(refused) + (if ok then 0 else 1)
      ensures !ok ==> old(spare) == [] && FrontFull(old(Data(mem, used)))
      ensures ok ==> chunks == old(chunks) + (if FrontFull(old(Data(mem, used))) && old(spare) == [] then 1 else 0)
      ensures Working() && Contents() == if ok then [x] + old(Contents()) else old(Contents())
      ensures old(Valid()) ==> Valid()
    {
      ghost var s := Contents();
      ghost var ds := Data(mem, spare);
      if Valid() { IdleFits(ds, chunkSize); }
      ok := OpenFront();
      FewerFit(ds, Data(mem, spare), chunkSize);
      if ok { PlaceFront(x, s); }
    }

    /** A chunk for one more item at the front. */
    method OpenFront() returns (ok: bool)
      requires Working()
      modifies `head, `tail, `unused, `chunks, `idle, `mem, `used, `spare, `refused
      ensures refused == old(refused) + (if ok then 0 else 1)
      ensures Loose([]) && idle == |spare| && FewerSpare(old(Data(mem, spare)), Data(mem, spare))
      ensures ok ==> RoomFront(Data(mem, used), chunkSize, old(Contents()))
      ensures ok ==> chunks == old(chunks) + (if FrontFull(old(Data(mem, used))) && old(spare) == [] then 1 else 0)
      ensures !ok ==> mem == old(mem) && used == old(used) && old(spare) == [] && FrontFull(old(Data(mem, used)))
    {
      TailIs(mem, used, chunkSize);
      ok := true;
      if head == NULL || mem[head].data.head <= 0 { ok := AddFront(); }
    }

    // ------------------------------------------------------------------------
    // Taking items off
    // ------------------------------------------------------------------------

    /** Takes the last chunk in use out of the list. */
    method UnlinkTail() returns (chunk: Ptr)
      requires Holding([]) && used != []
      modifies `head, `tail, `mem, `used
      ensures Holding([chunk]) && chunk != NULL && DataOf(mem, chunk) == LastOf(old(Data(mem, used)))
      ensures Data(mem, used) == Init(old(Data(mem, used)))
    {
      DetachBack(mem, used, spare, chunkSize);
      chunk := tail;
      tail := mem[tail].prev;
      if tail == NULL {
        head := NULL;
      } else {
        mem := SetNext(mem, tail, NULL);
      }
      used := used[..|used| - 1];
    }

    /** Takes the first chunk in use out of the list. */
    method UnlinkHead() returns (chunk: Ptr)
      requires Holding([]) && used != []
      modifies `head, `tail, `mem, `used
      ensures Holding([chunk]) && chunk != NULL && DataOf(mem, chunk) == old(Data(mem, used))[0]
      ensures Data(mem, used) == old(Data(mem, used))[1..]
    {
      DetachFront(mem, used, spare, chunkSize);
      chunk := head;
      head := mem[head].next;
      if head == NULL {
        tail := NULL;
      } else {
        mem := SetPrev(mem, head, NULL);
      }
      used := used[1..];
    }

    /** Takes n items off the last window, and recycles its chunk when it gets empty. */
    method ShrinkTail(n: nat)
      requires Holding([]) && idle == |spare| && Dense(Data(mem, used), chunkSize) && used != []
      requires 0 < n <= LastOf(Data(mem, used)).tail - LastOf(Data(mem, used)).head
      modifies `head, `tail, `unused, `idle, `mem, `used, `spare
      ensures Holding([]) && idle == |spare| && Data(mem, used) == Shrunk(old(Data(mem, used)), n)
    {
      TailIs(mem, used, chunkSize);
      WriteUsed(mem, used, spare, [], |used| - 1, mem[tail].data.(tail := mem[tail].data.tail - n));
      mem := SetData(mem, tail, mem[tail].data.(tail := mem[tail].data.tail - n));
      if mem[tail].data.tail <= mem[tail].data.head {
        var chunk := UnlinkTail();
        ReleaseChunk(chunk);
      }
    }

    /** Takes n items off the first window, and recycles its chunk when it gets empty. */
    method ShrinkHead(n: nat)
      requires Holding([]) && idle == |spare| && Dense(Data(mem, used), chunkSize) && used != []
      requires 0 < n <= Data(mem, used)[0].tail - Data(mem, used)[0].head
      modifies `head, `tail, `unused, `idle, `mem, `used, `spare
      ensures Holding([]) && idle == |spare| && Data(mem, used) == ShrunkFront(old(Data(mem, used)), n)
    {
      TailIs(mem, used, chunkSize);
      WriteUsed(mem, used, spare, [], 0, mem[head].data.(head := mem[head].data.head + n));
      mem := SetData(mem, head, mem[head].data.(head := mem[head].data.head + n));
      if mem[head].data.head >= mem[head].data.tail {
        var chunk := UnlinkHead();
        ReleaseChunk(chunk);
      }
    }

    /** What the loops below keep: everything but the count of items. */
    ghost predicate Uncounted()
      reads `head, `tail, `unused, `chunks, `idle, `mem, `used, `spare
    {
      Holding([]) && idle == |spare| && Dense(Data(mem, used), chunkSize)
    }

    /** Takes n items off the last window and gives them back. */
    method CutTail(limit: nat) returns (block: seq<Item>)
      requires Uncounted() && Contents() != [] && limit > 0
      modifies `head, `tail, `unused, `idle, `mem, `used, `spare
      ensures Uncounted() && 0 < |block| <= limit && old(Contents()) == Contents() + block
    {
      NoItems(Data(mem, used), chunkSize);
      TailIs(mem, used, chunkSize);
      var c := mem[tail].data;
      var n := if limit < c.tail - c.head then limit else c.tail - c.head;
      block := c.items[c.tail - n..c.tail];
      ShrinkBack(Data(mem, used), chunkSize, n);
      ShrinkTail(n);
    }

    /** Takes n items off the first window and gives them back. */
    method CutHead(limit: nat) returns (block: seq<Item>)
      requires Uncounted() && Contents() != [] && limit > 0
      modifies `head, `tail, `unused, `idle, `mem, `used, `spare
      ensures Uncounted() && 0 < |block| <= limit && old(Contents()) == block + Contents()
    {
      NoItems(Data(mem, used), chunkSize);
      TailIs(mem, used, chunkSize);
      var c := mem[head].data;
      var n := if limit < c.tail - c.head then limit else c.tail - c.head;
      block := c.items[c.head..c.head + n];
      ShrinkFront(Data(mem, used), chunkSize, n);
      ShrinkHead(n);
    }

    /** pop_back of one item. */
    method PopBack() returns (ok: bool, x: Item)
      requires Valid()
      modifies `head, `tail, `unused, `items, `idle, `mem, `used, `spare
      ensures Valid() && (ok <==> old(Contents()) != [])
      ensures old(Contents()) == Contents() + (if ok then [x] else [])
    {
      ok, x := false, 0;
      if items <= 0 { return; }
      var block := CutTail(1);
      items := items - 1;
      ok, x := true, block[0];
      assert block == [x];
    }

    /** pop_front of one item. */
    method PopFront() returns (ok: bool, x: Item)
      requires Valid()
      modifies `head, `tail, `unused, `items, `idle, `mem, `used, `spare
      ensures Valid() && (ok <==> old(Contents()) != [])
      ensures old(Contents()) == (if ok then [x] else []) + Contents()
    {
      ok, x := false, 0;
      if items <= 0 { return; }
      var block := CutHead(1);
      items := items - 1;
      ok, x := true, block[0];
      assert block == [x];
    }

    /** take_back: the last items, in order. */
    method TakeBack(count: nat) returns (data: seq<Item>)
      requires Valid()
      modifies `head, `tail, `unused, `items, `idle, `mem, `used, `spare
      ensures Valid() && old(Contents()) == Contents() + data
      ensures |data| == if count < |old(Contents())| then count else |old(Contents())|
    {
      var n := if count < items then count else items;
      data := [];
      ghost var s, rest := Contents(), Contents();
      while |data| < n
        invariant Uncounted() && Contents() == rest && s == rest + data && |data| <= n <= items == |s|
      {
        var block := CutTail(n - |data|);
        rest := Contents();
        Assoc(rest, block, data);
        data := block + data;
      }
      items := items - n;
    }

    /** pop_back of several items: the last items, the last one first. */
    method PopBackMany(count: nat) returns (data: seq<Item>)
      requires Valid()
      modifies `head, `tail, `unused, `items, `idle, `mem, `used, `spare
      ensures Valid() && old(Contents()) == Contents() + Reversed(data)
      ensures |data| == if count < |old(Contents())| then count else |old(Contents())|
    {
      var n := if count < items then count else items;
      data := [];
      ghost var s, rest := Contents(), Contents();
      while |data| < n
        invariant Uncounted() && Contents() == rest && s == rest + Reversed(data) && |data| <= n <= items == |s|
      {
        var block := CutTail(n - |data|);
        var turned := ReverseCopy(block);
        rest := Contents();
        Assoc(rest, block, Reversed(data));
        ReversedConcat(data, turned);
        ReversedTwice(block);
        data := data + turned;
      }
      items := items - n;
    }

    /** pop_front of several items: the first items, in order. */
    method PopFrontMany(count: nat) returns (data: seq<Item>)
      requires Valid()
      modifies `head, `tail, `unused, `items, `idle, `mem, `used, `spare
      ensures Valid() && old(Contents()) == data + Contents()
      ensures |data| == if count < |old(Contents())| then count else |old(Contents())|
    {
      var n := if count < items then count else items;
      data := [];
      ghost var s, rest := Contents(), Contents();
      while |data| < n
        invariant Uncounted() && Contents() == rest && s == data + rest && |data| <= n <= items == |s|
      {
        var block := CutHead(n - |data|);
        rest := Contents();
        Assoc(data, block, rest);
        data := data + block;
      }
      items := items - n;
    }

    /** first and last: the items at both ends. */
    method FirstItem() returns (ok: bool, x: Item)
      requires Valid()
      ensures (ok <==> Contents() != []) && (ok ==> x == Contents()[0])
    {
      ok, x := false, 0;
      if items <= 0 { return; }
      HowMany(Data(mem, used), chunkSize);
      TailIs(mem, used, chunkSize);
      DropFirst(Data(mem, used), chunkSize);
      ok, x := true, mem[head].data.items[mem[head].data.head];
    }

    method LastItem() returns (ok: bool, x: Item)
      requires Valid()
      ensures (ok <==> Contents() != []) && (ok ==> x == Contents()[|Contents()| - 1])
    {
      ok, x := false, 0;
      if items <= 0 { return; }
      HowMany(Data(mem, used), chunkSize);
      TailIs(mem, used, chunkSize);
      DropLast(Data(mem, used), chunkSize);
      ok, x := true, mem[tail].data.items[mem[tail].data.tail - 1];
    }

    // ------------------------------------------------------------------------
    // Several chunks at once
    // ------------------------------------------------------------------------

    /** What a request for chunks leaves when it succeeds: a list in hand whose first chunk
        points back to the last one. */
    ghost predicate InHand(first: Ptr, l: seq<Ptr>)
      reads `head, `tail, `unused, `chunks, `mem, `used, `spare
    {
      && Holding(l) && l != [] && first == l[0]
      && Segment(mem, l, Last(l), NULL) && AllIdle(Data(mem, l), chunkSize)
    }

    /** acquire_unused_chunk_list. A request for no chunks detaches one all the same, and
        reads through NULL when there is none. */
    method AcquireUnused(count: nat) returns (r: Request, first: Ptr, ghost l: seq<Ptr>)
      requires Holding([]) && idle == |spare| && count <= |spare|
      modifies `unused, `idle, `mem, `spare
      ensures r.Fault? || r.Acquired?
      ensures r.Fault? <==> count == 0 && old(unused) == NULL
      ensures r.Acquired? ==> InHand(first, l) && |l| == (if count == 0 then 1 else count)
      ensures r.Acquired? ==> old(spare) == l + spare && idle == old(idle) - count
      ensures r.Acquired? ==> Data(mem, used) == old(Data(mem, used))
    {
      first, l := unused, [];
      SpareIs(mem, spare);
      ghost var k := if count == 0 then 1 else count;
      var last := Walk(mem, first, count, spare);
      if last == NULL { return Fault, first, l; }
      l := spare[..k];
      assert spare == l + spare[k..];
      TakeUnused(first, last, k);
      idle := idle - count;
      r := Acquired;
    }

    /** Follows the list for count - 1 steps. */
    static method Walk(m: Chunks, first: Ptr, count: nat, ghost ns: seq<Ptr>) returns (last: Ptr)
      requires Segment(m, ns, NULL, NULL) && first == First(ns) && count <= |ns|
      ensures ns == [] ==> last == NULL
      ensures ns != [] ==> last == ns[if count == 0 then 0 else count - 1] && last != NULL
    {
      last := first;
      if ns != [] { Neighbours(m, ns, 0); }
      var i := 1;
      while i < count
        invariant i == 1 || i <= count
        invariant ns == [] ==> last == NULL && i == 1
        invariant ns != [] ==> i <= |ns| && last == ns[i - 1] && last != NULL
      {
        Neighbours(m, ns, i - 1);
        Neighbours(m, ns, i);
        last := m[last].next;
        i := i + 1;
      }
    }

    method TakeUnused(first: Ptr, last: Ptr, ghost k: nat)
      requires Holding([]) && 0 < k <= |spare| && first == spare[0] && last == spare[k - 1]
      modifies `unused, `mem, `spare
      ensures spare == old(spare)[k..] && InHand(first, old(spare)[..k]) && Data(mem, used) == old(Data(mem, used))
    {
      TakeSpare(mem, used, spare, k, chunkSize, last);
      Neighbours(mem, spare, k - 1);
      if k < |spare| { Neighbours(mem, spare, k); }
      RelinksKeepData(mem, TakenSpare(mem, spare, k, last), used);
      RelinksKeepData(mem, TakenSpare(mem, spare, k, last), spare[..k]);
      unused := mem[last].next;
      mem := SetNext(mem, last, NULL);
      if unused != NULL { mem := SetPrev(mem, unused, NULL); }
      mem := SetPrev(mem, first, last);
      spare := spare[k..];
    }

    /** acquire_chunk_list: recycled chunks first, new ones for the rest. */
    method AcquireChunkList(count: nat) returns (r: Request, first: Ptr, ghost l: seq<Ptr>)
      requires Holding([]) && idle == |spare|
      modifies `unused, `chunks, `idle, `mem, `spare, `refused
      ensures refused == old(refused) + (if !r.NoMemory? then 0 else 1)
      ensures r.NoMemory? ==> count > old(idle)
      ensures r.Acquired? ==> chunks == old(chunks) + More(count, old(idle))
      ensures r.Acquired? ==> if count <= old(idle) then l + spare == old(spare) else spare == [] && old(spare) <= l
      ensures r.Fault? <==> count == 0 && old(unused) == NULL
      ensures r.NoMemory? ==> unchanged(`unused, `chunks, `idle, `mem, `spare)
      ensures r.Acquired? ==> InHand(first, l) && |l| == (if count == 0 then 1 else count)
      ensures r.Acquired? ==> idle == |spare| + (if count == 0 then 1 else 0)
      ensures r.Acquired? ==> Data(mem, used) == old(Data(mem, used))
    {
      if count <= idle {
        r, first, l := AcquireUnused(count);
        return;
      }
      var toAlloc := count - idle;
      first, l := AllocChunkList(toAlloc);
      if first == NULL { return NoMemory, first, l; }
      TakeNew(old(mem), mem, used, spare, l);
      chunks := chunks + toAlloc;
      r := Acquired;
      if idle > 0 {
        first, l := AddUnused(first, l);
      }
    }

    /** All recycled chunks go in front of a list of new ones. */
    method AddUnused(added: Ptr, ghost l: seq<Ptr>) returns (first: Ptr, ghost l': seq<Ptr>)
      requires InHand(added, l) && spare != []
      modifies `unused, `idle, `mem, `spare
      ensures spare == [] && idle == 0 && l' == old(spare) + l && InHand(first, l')
      ensures Data(mem, used) == old(Data(mem, used))
    {
      Combine(mem, used, spare, l, chunkSize);
      RelinksKeepData(mem, Combined(mem, spare, l), used);
      first := unused;
      var last := LastOfList(mem, first, spare);
      unused := NULL;
      idle := 0;
      mem := SetNext(mem, last, added);
      mem := SetPrev(mem, first, mem[added].prev);
      mem := SetPrev(mem, added, last);
      assert mem == old(Combined(mem, spare, l));
      l' := spare + l;
      spare := [];
    }

    static method LastOfList(m: Chunks, first: Ptr, ghost ns: seq<Ptr>) returns (last: Ptr)
      requires Segment(m, ns, NULL, NULL) && ns != [] && first == ns[0]
      ensures last == Last(ns)
    {
      last := first;
      ghost var i := 0;
      Neighbours(m, ns, 0);
      while m[last].next != NULL
        invariant i < |ns| && last == ns[i] && last in m
        decreases |ns| - i
      {
        Neighbours(m, ns, i);
        last := m[last].next;
        i := i + 1;
        Neighbours(m, ns, i);
      }
      Neighbours(m, ns, i);
      if i + 1 < |ns| { Neighbours(m, ns, i + 1); }
    }

    // ------------------------------------------------------------------------
    // Several items at the back
    // ------------------------------------------------------------------------

    /** The requests for room at the back that ask for no chunk: nothing to store in an
        empty deque, or exactly as much as the last chunk still takes. */
    ghost predicate AsksForNone(count: nat)
      reads `mem, `used
    {
      if used == [] then count == 0 else LastOf(Data(mem, used)).tail + count == chunkSize
    }

    /** preallocate_back: chunks for count more items behind those in use, and the one to
        start with. */
    method PreallocateBack(count: nat) returns (r: Request, chunk: Ptr)
      requires Valid()
      modifies `head, `tail, `unused, `chunks, `idle, `mem, `used, `spare, `refused
      ensures refused == old(refused) + (if !r.NoMemory? then 0 else 1)
      ensures r.NoMemory? ==> BackAsk(old(Data(mem, used)), chunkSize, count) > old(idle)
      ensures r.Acquired? ==> chunks == old(chunks) + More(BackAsk(old(Data(mem, used)), chunkSize, count), old(idle))
      ensures r.Fault? <==> old(AsksForNone(count)) && old(unused) == NULL
      ensures r.NoMemory? ==> Valid() && Contents() == old(Contents())
      ensures r.Acquired? ==> Holding([]) && idle == |spare| + (if old(AsksForNone(count)) then 1 else 0)
      ensures r.Acquired? ==> Filling(Data(mem, used), |old(used)|, chunkSize, old(Contents()))
      ensures r.Acquired? ==> var i := if old(used) == [] then 0 else |old(used)| - 1;
        && i < |used| && chunk == used[i] && Data(mem, used)[i].tail <= chunkSize
        && |used| == ChunksFor(Data(mem, used)[i], i, chunkSize, count, old(used) == []) + (if old(AsksForNone(count)) then 1 else 0)
    {
      TailIs(mem, used, chunkSize);
      if tail == NULL { r, chunk := PreallocateFirst(count); } else { r, chunk := PreallocateBehind(count); }
    }

    /** The same for an empty deque. */
    method PreallocateFirst(count: nat) returns (r: Request, chunk: Ptr)
      requires Valid() && used == []
      modifies `head, `tail, `unused, `chunks, `idle, `mem, `used, `spare, `refused
      ensures refused == old(refused) + (if !r.NoMemory? then 0 else 1)
      ensures r.NoMemory? ==> CountFor(count, chunkSize) > old(idle)
      ensures r.Acquired? ==> chunks == old(chunks) + More(CountFor(count, chunkSize), old(idle))
      ensures r.Fault? <==> count == 0 && old(unused) == NULL
      ensures r.NoMemory? ==> Valid() && Contents() == old(Contents())
      ensures r.Acquired? ==> Holding([]) && idle == |spare| + (if count == 0 then 1 else 0)
      ensures r.Acquired? ==> Filling(Data(mem, used), 0, chunkSize, old(Contents()))
      ensures r.Acquired? ==> used != [] && chunk == used[0] && Data(mem, used)[0].tail == 0
      ensures r.Acquired? ==> |used| == ChunksFor(Data(mem, used)[0], 0, chunkSize, count, true) + (if count == 0 then 1 else 0)
    {
      var n := ChunksCount(count, chunkSize);
      r, chunk := AddListBack(n);
      if r.Acquired? {
        FirstIdle(Data(mem, used), chunkSize, old(Contents()));
        FirstBlocks(Data(mem, used)[0], chunkSize, count);
      }
    }

    /** The same for a deque with items: its last chunk is the one to start with. */
    method PreallocateBehind(count: nat) returns (r: Request, chunk: Ptr)
      requires Valid() && used != []
      modifies `head, `tail, `unused, `chunks, `idle, `mem, `used, `spare, `refused
      ensures refused == old(refused) + (if !r.NoMemory? then 0 else 1)
      ensures r.NoMemory? ==> BackAsk(old(Data(mem, used)), chunkSize, count) > old(idle)
      ensures r.Acquired? ==> chunks == old(chunks) + More(BackAsk(old(Data(mem, used)), chunkSize, count), old(idle))
      ensures r.Fault? <==> old(AsksForNone(count)) && old(unused) == NULL
      ensures r.NoMemory? ==> Valid() && Contents() == old(Contents())
      ensures r.Acquired? ==> Holding([]) && idle == |spare| + (if old(AsksForNone(count)) then 1 else 0)
      ensures r.Acquired? ==> Filling(Data(mem, used), |old(used)|, chunkSize, old(Contents()))
      ensures r.Acquired? ==> |old(used)| <= |used| && chunk == used[|old(used)| - 1]
      ensures r.Acquired? ==> Data(mem, used)[|old(used)| - 1].tail <= chunkSize
      ensures r.Acquired? ==>
        |used| == ChunksFor(Data(mem, used)[|old(used)| - 1], |old(used)| - 1, chunkSize, count, false) + (if old(AsksForNone(count)) then 1 else 0)
    {
      TailIs(mem, used, chunkSize);
      BlocksLeft(LastOf(Data(mem, used)), |used| - 1, chunkSize, count);
      chunk := tail;
      if mem[tail].data.tail + count < chunkSize {
        FilledUp(Data(mem, used), chunkSize, Contents());
        return Acquired, tail;
      }
      var n := ChunksCount(count + mem[tail].data.tail - chunkSize, chunkSize);
      var first;
      r, first := AddListBack(n);
    }

    /** Chunks behind those in use; a request for none takes one. */
    method AddListBack(n: nat) returns (r: Request, first: Ptr)
      requires Holding([]) && idle == |spare| && Dense(Data(mem, used), chunkSize)
      modifies `head, `tail, `unused, `chunks, `idle, `mem, `used, `spare, `refused
      ensures refused == old(refused) + (if !r.NoMemory? then 0 else 1)
      ensures r.NoMemory? ==> n > old(idle)
      ensures r.Acquired? ==> chunks == old(chunks) + More(n, old(idle))
      ensures r.Fault? <==> n == 0 && old(unused) == NULL
      ensures r.NoMemory? ==> unchanged(`head, `tail, `unused, `chunks, `idle, `mem, `used, `spare)
      ensures r.Acquired? ==> Holding([]) && idle == |spare| + (if n == 0 then 1 else 0)
      ensures r.Acquired? ==> Filling(Data(mem, used), |old(used)|, chunkSize, old(Contents()))
      ensures r.Acquired? ==> |used| == |old(used)| + (if n == 0 then 1 else n) && first == used[|old(used)|]
      ensures r.Acquired? && old(used) != [] ==> used[|old(used)| - 1] == old(tail)
      ensures r.Acquired? && old(used) != [] ==> Data(mem, used)[|old(used)| - 1] == LastOf(old(Data(mem, used)))
    {
      ghost var l;
      r, first, l := AcquireChunkList(n);
      if !r.Acquired? { return; }
      FillingMore(Data(mem, used), Data(mem, l), chunkSize, Contents());
      LinkListBack(first, l);
    }

    /** A list in hand goes behind the last chunk in use. */
    method LinkListBack(first: Ptr, ghost l: seq<Ptr>)
      requires InHand(first, l)
      modifies `head, `tail, `mem, `used
      ensures Holding([]) && used == old(used) + l
      ensures Data(mem, used) == old(Data(mem, used)) + Data(mem, l) && AllIdle(Data(mem, l), chunkSize)
    {
      AttachListBack(mem, used, spare, l, chunkSize);
      var oldTail := tail;
      tail := mem[first].prev;
      if oldTail == NULL {
        head := first;
        mem := SetPrev(mem, first, NULL);
      } else {
        mem := SetNext(mem, oldTail, first);
        mem := SetPrev(mem, first, oldTail);
      }
      used := used + l;
    }

    /** Copies a block of items behind the window of a chunk. */
    method WriteBlock(chunk: Ptr, block: seq<Item>, ghost i: nat)
      requires Holding([]) && i < |used| && chunk == used[i]
      requires |Data(mem, used)[i].items| == chunkSize && Data(mem, used)[i].tail + |block| <= chunkSize
      modifies `mem
      ensures Holding([]) && Data(mem, used) == old(Data(mem, used))[i := Extended(old(Data(mem, used))[i], block)]
    {
      Neighbours(mem, used, i);
      WriteUsed(mem, used, spare, [], i, Extended(mem[chunk].data, block));
      mem := SetData(mem, chunk, Extended(mem[chunk].data, block));
    }

    /** One more chunk of a bulk push_back. */
    method BackRound(chunk: Ptr, data: seq<Item>, offset: nat, n: nat, ghost k: nat, ghost s: seq<Item>, ghost total: seq<Item>)
      returns (at: Ptr, ghost s': seq<Item>)
      requires Holding([]) && 0 < n <= chunkSize && offset + n <= |data| && 0 < k < |used| && chunk == used[k - 1]
      requires Filling(Data(mem, used), k, chunkSize, s) && Data(mem, used)[k - 1].tail == chunkSize && Behind(data, offset, s, total)
      modifies `mem
      ensures Holding([]) && at == used[k] && Filling(Data(mem, used), k + 1, chunkSize, s') && Behind(data, offset + n, s', total)
      ensures Data(mem, used)[k].tail == n
    {
      var block := data[offset..offset + n];
      BehindStep(data, offset, n, s, total);
      s' := s + block;
      Neighbours(mem, used, k - 1);
      at := mem[chunk].next;
      FillNext(Data(mem, used), k, chunkSize, s, block);
      WriteBlock(at, block, k);
    }

    /** The rest of a bulk push_back: whole chunks behind the one filled last. */
    method FillRest(chunk: Ptr, data: seq<Item>, done: nat, ghost k: nat, ghost s: seq<Item>, ghost total: seq<Item>) returns (ghost k': nat)
      requires Holding([]) && done < |data| && 0 < k <= |used| && chunk == used[k - 1] && Behind(data, done, s, total)
      requires Filling(Data(mem, used), k, chunkSize, s) && Data(mem, used)[k - 1].tail == chunkSize
      requires |used| - k >= CountFor(|data| - done, chunkSize)
      modifies `mem
      ensures Holding([]) && Filling(Data(mem, used), k', chunkSize, total)
      ensures |used| - k' == |used| - k - CountFor(|data| - done, chunkSize)
    {
      var at, offset := chunk, done;
      ghost var stored := s;
      k' := k;
      while offset < |data|
        invariant Holding([]) && offset <= |data| && 0 < k' <= |used| && at == used[k' - 1]
        invariant Filling(Data(mem, used), k', chunkSize, stored) && Behind(data, offset, stored, total)
        invariant offset < |data| ==> Data(mem, used)[k' - 1].tail == chunkSize
        invariant k' + CountFor(|data| - offset, chunkSize) == k + CountFor(|data| - done, chunkSize)
      {
        var n := if |data| - offset < chunkSize then |data| - offset else chunkSize;
        at, stored := BackRound(at, data, offset, n, k', stored, total);
        offset := offset + n;
        k' := k' + 1;
      }
      BehindEnd(data, stored, total);
    }

    /** One chunk more than the items need is in use, and still counted as unused. */
    ghost predicate Overdrawn()
      reads this
    {
      && Holding([]) && used != [] && idle == |spare| + 1
      && LastOf(Data(mem, used)).head == LastOf(Data(mem, used)).tail
    }

    /** push_back of several items. The items end up behind the others, but for a request for
        no chunks: that one is a read through NULL, or leaves a chunk too many in the list. */
    method PushBackMany(data: seq<Item>) returns (r: Request)
      requires Valid()
      modifies `head, `tail, `unused, `items, `chunks, `idle, `mem, `used, `spare, `refused
      ensures refused == old(refused) + (if !r.NoMemory? then 0 else 1)
      ensures r.NoMemory? ==> BackAsk(old(Data(mem, used)), chunkSize, |data|) > old(idle)
      ensures r.Acquired? ==> chunks == old(chunks) + More(BackAsk(old(Data(mem, used)), chunkSize, |data|), old(idle))
      ensures r.Fault? <==> old(AsksForNone(|data|)) && old(unused) == NULL
      ensures r.NoMemory? ==> Valid() && Contents() == old(Contents())
      ensures r.Acquired? ==> Contents() == old(Contents()) + data
      ensures r.Acquired? ==> (Valid() <==> !old(AsksForNone(|data|)))
      ensures r.Acquired? && old(AsksForNone(|data|)) ==> Overdrawn()
    {
      ghost var s, empty, none, k := Contents(), used == [], AsksForNone(|data|), |used|;
      var chunk;
      r, chunk := PreallocateBack(|data|);
      if !r.Acquired? { return; }
      items := items + |data|;
      StoreBack(chunk, data, empty, if empty then 0 else k - 1, s, if none then 1 else 0);
    }

    /** The first block of a bulk push_back: into the empty deque or behind the last item. */
    method StoreFirst(chunk: Ptr, block: seq<Item>, ghost empty: bool, ghost i: nat, ghost s: seq<Item>)
      requires Holding([]) && i < |used| && chunk == used[i] && (empty ==> i == 0)
      requires Filling(Data(mem, used), if empty then i else i + 1, chunkSize, s)
      requires Data(mem, used)[i].tail + |block| <= chunkSize
      modifies `mem
      ensures Holding([]) && Filling(Data(mem, used), if empty && block == [] then 0 else i + 1, chunkSize, s + block)
      ensures Data(mem, used)[i].tail == old(Data(mem, used))[i].tail + |block|
    {
      FirstFilled(Data(mem, used), empty, i, chunkSize, s, block);
      WriteBlock(chunk, block, i);
    }

    /** The copying part of a bulk push_back. */
    method StoreBack(chunk: Ptr, data: seq<Item>, ghost empty: bool, ghost i: nat, ghost s: seq<Item>, ghost extra: nat)
      requires Holding([]) && i < |used| && chunk == used[i] && (empty ==> i == 0) && extra <= 1
      requires Filling(Data(mem, used), if empty then i else i + 1, chunkSize, s) && Data(mem, used)[i].tail <= chunkSize
      requires |used| == ChunksFor(Data(mem, used)[i], i, chunkSize, |data|, empty) + extra
      modifies `mem
      ensures Holding([]) && Items(Data(mem, used)) == s + data
      ensures Dense(Data(mem, used), chunkSize) <==> extra == 0
      ensures extra == 1 ==> Idle(LastOf(Data(mem, used)), chunkSize)
    {
      Neighbours(mem, used, i);
      var room := chunkSize - mem[chunk].data.tail;
      var done := if |data| < room then |data| else room;
      ghost var total, stored := s + data, s + data[..done];
      BehindStart(data, s);
      BehindStep(data, 0, done, s, total);
      StoreFirst(chunk, data[..done], empty, i, s);
      ghost var k := if empty && data == [] then 0 else i + 1;
      if done < |data| { k := FillRest(chunk, data, done, i + 1, stored, total); } else { BehindEnd(data, stored, total); }
      AllStored(Data(mem, used), k, chunkSize, total, extra);
    }

    // ------------------------------------------------------------------------
    // Several items at the front
    // ------------------------------------------------------------------------

    /** A list in hand goes in front of the first chunk in use. */
    method LinkListFront(first: Ptr, ghost l: seq<Ptr>)
      requires InHand(first, l)
      modifies `head, `tail, `mem, `used
      ensures Holding([]) && used == l + old(used)
      ensures Data(mem, used) == Data(mem, l) + old(Data(mem, used)) && AllIdle(Data(mem, l), chunkSize)
    {
      AttachListFront(mem, used, spare, l, chunkSize);
      var last := mem[first].prev;
      if head == NULL {
        tail := last;
      } else {
        mem := SetNext(mem, last, head);
        mem := SetPrev(mem, head, last);
      }
      head := first;
      mem := SetPrev(mem, first, NULL);
      used := l + used;
    }

    /** preallocate_front with chunks in use: chunks for count more items before those. The
        chunk to start with is the old first one, the k-th now. */
    method PreallocateFront(count: nat) returns (r: Request, chunk: Ptr, ghost k: nat)
      requires Valid() && used != []
      modifies `head, `tail, `unused, `chunks, `idle, `mem, `used, `spare, `refused
      ensures refused == old(refused) + (if !r.NoMemory? then 0 else 1)
      ensures r.NoMemory? ==> FrontAsk(old(Data(mem, used)), chunkSize, count) > old(idle)
      ensures r.Acquired? ==> chunks == old(chunks) + More(FrontAsk(old(Data(mem, used)), chunkSize, count), old(idle))
      ensures !r.Fault?
      ensures r.NoMemory? ==> Valid() && Contents() == old(Contents())
      ensures r.Acquired? ==> Holding([]) && idle == |spare| && k < |used| && chunk == used[k]
      ensures r.Acquired? ==> FillingFront(Data(mem, used), k, chunkSize, old(Contents()))
      ensures r.Acquired? ==> var h := Data(mem, used)[k].head; k == if h >= count then 0 else CountFor(count - h, chunkSize)
    {
      k := 0;
      TailIs(mem, used, chunkSize);
      chunk := head;
      if mem[head].data.head >= count {
        FilledFront(Data(mem, used), chunkSize, Contents());
        return Acquired, head, 0;
      }
      var n := ChunksCount(count - mem[head].data.head, chunkSize);
      r := AddListFront(n);
      k := n;
    }

    /** Chunks in front of those in use. */
    method AddListFront(n: nat) returns (r: Request)
      requires Holding([]) && idle == |spare| && n > 0 && used != [] && Dense(Data(mem, used), chunkSize)
      modifies `head, `tail, `unused, `chunks, `idle, `mem, `used, `spare, `refused
      ensures refused == old(refused) + (if !r.NoMemory? then 0 else 1)
      ensures r.NoMemory? ==> n > old(idle)
      ensures r.Acquired? ==> chunks == old(chunks) + More(n, old(idle))
      ensures !r.Fault? && (r.NoMemory? ==> unchanged(`head, `tail, `unused, `chunks, `idle, `mem, `used, `spare))
      ensures r.Acquired? ==> Holding([]) && idle == |spare| && n < |used| && used[n] == old(head)
      ensures r.Acquired? ==> FillingFront(Data(mem, used), n, chunkSize, old(Contents()))
      ensures r.Acquired? ==> Data(mem, used)[n] == old(Data(mem, used))[0]
    {
      var first;
      ghost var l;
      r, first, l := AcquireChunkList(n);
      if !r.Acquired? { return; }
      FillingFrontMore(Data(mem, l), Data(mem, used), chunkSize, Contents());
      LinkListFront(first, l);
    }

    /** preallocate_front in an empty deque: the chunk to start with is the first one,
        whatever their number. */
    method PreallocateOnly(count: nat) returns (r: Request, chunk: Ptr, ghost l: seq<Ptr>)
      requires Valid() && used == []
      modifies `head, `tail, `unused, `chunks, `idle, `mem, `used, `spare, `refused
      ensures refused == old(refused) + (if !r.NoMemory? then 0 else 1)
      ensures r.NoMemory? ==> CountFor(count, chunkSize) > old(idle)
      ensures r.Acquired? ==> chunks == old(chunks) + More(CountFor(count, chunkSize), old(idle))
      ensures r.Fault? <==> count == 0 && old(unused) == NULL
      ensures r.NoMemory? ==> Valid() && Contents() == old(Contents())
      ensures r.Acquired? ==> Holding([]) && used == l && l != [] && chunk == used[0] && idle == |spare| + (if count == 0 then 1 else 0)
      ensures r.Acquired? ==> count <= chunkSize ==> |l| == 1
      ensures r.Acquired? ==> Data(mem, used)[0] == AtEnd(Data(mem, used)[0], chunkSize) && |Data(mem, used)[0].items| == chunkSize
    {
      var n := ChunksCount(count, chunkSize);
      r, chunk, l := AcquireChunkList(n);
      if !r.Acquired? { return; }
      LinkListFront(chunk, l);
      assert used == l;
      Neighbours(mem, used, 0);
      WriteUsed(mem, used, spare, [], 0, AtEnd(mem[head].data, chunkSize));
      mem := SetData(mem, head, AtEnd(mem[head].data, chunkSize));
    }

    /** Copies a block of items in front of the window of a chunk. */
    method WriteBefore(chunk: Ptr, block: seq<Item>, ghost i: nat)
      requires Holding([]) && i < |used| && chunk == used[i]
      requires |block| <= Data(mem, used)[i].head <= |Data(mem, used)[i].items|
      modifies `mem
      ensures Holding([]) && Data(mem, used) == old(Data(mem, used))[i := Preceded(old(Data(mem, used))[i], block)]
    {
      Neighbours(mem, used, i);
      WriteUsed(mem, used, spare, [], i, Preceded(mem[chunk].data, block));
      mem := SetData(mem, chunk, Preceded(mem[chunk].data, block));
    }

    /** Copies a block of items to the end of an empty chunk. */
    method WriteAtEnd(chunk: Ptr, block: seq<Item>, ghost i: nat)
      requires Holding([]) && i < |used| && chunk == used[i]
      requires |block| <= chunkSize == |Data(mem, used)[i].items|
      modifies `mem
      ensures Holding([])
      ensures Data(mem, used) == old(Data(mem, used))[i := Preceded(AtEnd(old(Data(mem, used))[i], chunkSize), block)]
    {
      Neighbours(mem, used, i);
      WriteUsed(mem, used, spare, [], i, Preceded(AtEnd(mem[chunk].data, chunkSize), block));
      mem := SetData(mem, chunk, Preceded(AtEnd(mem[chunk].data, chunkSize), block));
    }

    /** One more chunk of a bulk push at the front. */
    method FrontRound(chunk: Ptr, data: seq<Item>, turn: bool, rest: nat, n: nat, ghost i: nat, ghost s: seq<Item>)
      returns (at: Ptr, ghost block: seq<Item>)
      requires Holding([]) && 0 < n <= rest <= |data| && 0 < i < |used| && chunk == used[i]
      requires n == if rest < chunkSize then rest else chunkSize
      requires FillingFront(Data(mem, used), i, chunkSize, s) && Data(mem, used)[i].head == 0
      modifies `mem
      ensures Holding([]) && at == used[i - 1] && block == Turned(data, turn)[rest - n..rest]
      ensures FillingFront(Data(mem, used), i - 1, chunkSize, block + s)
      ensures n < rest ==> Data(mem, used)[i - 1].head == 0
    {
      Neighbours(mem, used, i);
      at := mem[chunk].prev;
      var copy := Piece(data, turn, rest, n);
      block := copy;
      FillBefore(Data(mem, used), i, chunkSize, s, block);
      WriteAtEnd(at, copy, i - 1);
    }

    /** The rest of a bulk push at the front: whole chunks before the one filled last. */
    method FillFrontRest(chunk: Ptr, data: seq<Item>, turn: bool, left: nat, ghost k: nat, ghost s: seq<Item>, ghost total: seq<Item>)
      requires Holding([]) && left <= |data| && k < |used| && chunk == used[k] && k == CountFor(left, chunkSize)
      requires FillingFront(Data(mem, used), k, chunkSize, s) && Ahead(Turned(data, turn), left, s, total)
      requires left > 0 ==> Data(mem, used)[k].head == 0
      modifies `mem
      ensures Holding([]) && FillingFront(Data(mem, used), 0, chunkSize, total)
    {
      var at, rest: nat := chunk, left;
      ghost var i: nat, all, stored := k, Turned(data, turn), s;
      while rest > 0
        invariant Holding([]) && rest <= |data| && i < |used| && at == used[i] && i == CountFor(rest, chunkSize)
        invariant FillingFront(Data(mem, used), i, chunkSize, stored) && Ahead(all, rest, stored, total)
        invariant rest > 0 ==> Data(mem, used)[i].head == 0
      {
        var n := if rest < chunkSize then rest else chunkSize;
        AheadStep(all, rest, n, stored, total);
        CountNext(rest, chunkSize);
        ghost var block;
        at, block := FrontRound(at, data, turn, rest, n, i, stored);
        stored := block + stored;
        rest := rest - n;
        i := i - 1;
      }
      AheadEnd(all, stored, total);
    }

    /** forward_copy or reverse_copy of the block that ends `left` items from the front of
        what the deque shall hold. */
    static method Piece(data: seq<Item>, turn: bool, left: nat, n: nat) returns (block: seq<Item>)
      requires n <= left <= |data|
      ensures block == Turned(data, turn)[left - n..left]
    {
      if turn {
        ReversedPiece(data, left, n);
        block := ReverseCopy(data[|data| - left..|data| - left + n]);
      } else {
        block := data[left - n..left];
      }
    }

    /** prepend (in order) and push_front (turned around) of several items. Both read
        through NULL in an empty deque when the items need more than one chunk, and when
        there is nothing to store and no recycled chunk. */
    method PushFrontMany(data: seq<Item>, turn: bool) returns (r: Request)
      requires Valid()
      modifies `head, `tail, `unused, `items, `chunks, `idle, `mem, `used, `spare, `refused
      ensures refused == old(refused) + (if !r.NoMemory? then 0 else 1)
      ensures r.NoMemory? ==> FrontAsk(old(Data(mem, used)), chunkSize, |data|) > old(idle)
      ensures r.Acquired? ==> chunks == old(chunks) + More(FrontAsk(old(Data(mem, used)), chunkSize, |data|), old(idle))
      ensures !r.NoMemory? ==> (r.Fault? <==>
        old(Contents()) == [] && (|data| > chunkSize || (data == [] && old(unused) == NULL)))
      ensures r.NoMemory? ==> Valid() && Contents() == old(Contents())
      ensures r.Acquired? ==> Contents() == Turned(data, turn) + old(Contents())
      ensures r.Acquired? ==> (Valid() <==> !(old(Contents()) == [] && data == []))
      ensures r.Acquired? && !Valid() ==> Overdrawn()
    {
      TailIs(mem, used, chunkSize);
      HowMany(Data(mem, used), chunkSize);
      if head == NULL {
        var chunk;
        ghost var l;
        r, chunk, l := PreallocateOnly(|data|);
        if !r.Acquired? { return; }
        items := items + |data|;
        r := StoreOnly(chunk, data, turn);
      } else {
        r := PushBefore(data, turn);
      }
    }

    /** A bulk push in front of chunks in use. */
    method PushBefore(data: seq<Item>, turn: bool) returns (r: Request)
      requires Valid() && used != []
      modifies `head, `tail, `unused, `items, `chunks, `idle, `mem, `used, `spare, `refused
      ensures refused == old(refused) + (if !r.NoMemory? then 0 else 1)
      ensures r.NoMemory? ==> FrontAsk(old(Data(mem, used)), chunkSize, |data|) > old(idle)
      ensures r.Acquired? ==> chunks == old(chunks) + More(FrontAsk(old(Data(mem, used)), chunkSize, |data|), old(idle))
      ensures !r.Fault? && Valid() && Contents() == (if r.Acquired? then Turned(data, turn) else []) + old(Contents())
    {
      ghost var s, k := Contents(), 0;
      var chunk;
      r, chunk, k := PreallocateFront(|data|);
      if !r.Acquired? { return; }
      items := items + |data|;
      StoreFront(chunk, data, turn, k, s);
    }

    /** The copying part in an empty deque. */
    method StoreOnly(chunk: Ptr, data: seq<Item>, turn: bool) returns (r: Request)
      requires Holding([]) && used != [] && chunk == used[0] && (|data| <= chunkSize ==> |used| == 1)
      requires Data(mem, used)[0] == AtEnd(Data(mem, used)[0], chunkSize) && |Data(mem, used)[0].items| == chunkSize
      modifies `mem
      ensures r.Fault? <==> |data| > chunkSize
      ensures r.Fault? || r.Acquired?
      ensures r.Acquired? ==> Holding([]) && Items(Data(mem, used)) == Turned(data, turn)
      ensures r.Acquired? ==> (Dense(Data(mem, used), chunkSize) <==> data != [])
      ensures r.Acquired? && data == [] ==> LastOf(Data(mem, used)).head == LastOf(Data(mem, used)).tail
    {
      Neighbours(mem, used, 0);
      var room := mem[chunk].data.head;
      var n := if |data| < room then |data| else room;
      var block := Piece(data, turn, |data|, n);
      ghost var c := Data(mem, used)[0];
      WriteBefore(chunk, block, 0);
      Neighbours(mem, used, 0);
      if |data| - n > 0 {
        // one more round follows prev, which is NULL
        assert mem[chunk].prev == NULL;
        return Fault;
      }
      assert block == Turned(data, turn);
      OnlyChunk(c, chunkSize, block);
      assert Data(mem, used) == [Preceded(AtEnd(c, chunkSize), block)];
      r := Acquired;
    }

    /** The first block of a bulk push at the front: before the first item. */
    method StoreBefore(chunk: Ptr, data: seq<Item>, turn: bool, n: nat, ghost k: nat, ghost s: seq<Item>) returns (ghost block: seq<Item>)
      requires Holding([]) && k < |used| && chunk == used[k] && FillingFront(Data(mem, used), k, chunkSize, s)
      requires n <= |data| && n <= Data(mem, used)[k].head
      modifies `mem
      ensures Holding([]) && block == Turned(data, turn)[|data| - n..|data|]
      ensures FillingFront(Data(mem, used), k, chunkSize, block + s)
      ensures Data(mem, used)[k].head == old(Data(mem, used))[k].head - n
    {
      var copy := Piece(data, turn, |data|, n);
      block := copy;
      FillFirst(Data(mem, used), k, chunkSize, s, block);
      WriteBefore(chunk, copy, k);
    }

    /** The copying part in front of chunks in use. */
    method StoreFront(chunk: Ptr, data: seq<Item>, turn: bool, ghost k: nat, ghost s: seq<Item>)
      requires Holding([]) && k < |used| && chunk == used[k] && FillingFront(Data(mem, used), k, chunkSize, s)
      requires var h := Data(mem, used)[k].head; k == if h >= |data| then 0 else CountFor(|data| - h, chunkSize)
      modifies `mem
      ensures Holding([]) && Dense(Data(mem, used), chunkSize) && Items(Data(mem, used)) == Turned(data, turn) + s
    {
      ghost var all, total := Turned(data, turn), Turned(data, turn) + s;
      Neighbours(mem, used, k);
      var room := mem[chunk].data.head;
      var n := if |data| < room then |data| else room;
      AheadStart(all, s);
      AheadStep(all, |data|, n, s, total);
      ghost var block := StoreBefore(chunk, data, turn, n, k, s);
      FillFrontRest(chunk, data, turn, |data| - n, k, block + s, total);
      FilledFront(Data(mem, used), chunkSize, total);
    }

    // ------------------------------------------------------------------------
    // The whole deque
    // ------------------------------------------------------------------------

    /** reserve: recycled chunks for so many items in all, or no change. */
    method Reserve(capacity: nat) returns (ok: bool)
      requires Valid()
      modifies `unused, `chunks, `idle, `mem, `spare, `refused
      ensures refused == old(refused) + (if ok then 0 else 1)
      ensures Valid() && Contents() == old(Contents())
      ensures ok <==> chunks * chunkSize >= capacity
      ensures ok ==> var had := old(chunks) * chunkSize; chunks == old(chunks) + (if had >= capacity then 0 else CountFor(capacity - had, chunkSize))
      ensures ok ==> idle - old(idle) == chunks - old(chunks)
      ensures !ok ==> unchanged(`unused, `chunks, `idle, `mem, `spare)
    {
      var cap := chunks * chunkSize;
      if cap >= capacity { return true; }
      var n := ChunksCount(capacity - cap, chunkSize);
      var first;
      ghost var l;
      first, l := AllocChunkList(n);
      if first == NULL { return false; }
      TakeNew(old(mem), mem, used, spare, l);
      StockUp(first, l);
      chunks := chunks + n;
      idle := idle + n;
      Enough(old(chunks), n, chunkSize, capacity);
      ok := true;
    }

    /** New chunks go in front of the recycled ones. */
    method StockUp(first: Ptr, ghost l: seq<Ptr>)
      requires Held(mem, used, spare, l, chunkSize) && unused == First(spare)
      requires l != [] && first == l[0] && Segment(mem, l, Last(l), NULL) && AllIdle(Data(mem, l), chunkSize)
      modifies `unused, `mem, `spare
      ensures Held(mem, used, spare, [], chunkSize) && unused == First(spare) && spare == l + old(spare)
      ensures Data(mem, used) == old(Data(mem, used))
    {
      Stock(mem, used, spare, l, chunkSize, Last(l));
      SegmentEnds(mem, l, Last(l), NULL);
      if spare != [] { SegmentEnds(mem, spare, NULL, NULL); }
      RelinksKeepData(mem, Stocked(mem, spare, l), used);
      HeldApart(mem, used, spare, l);
      var last := mem[first].prev;
      if unused != NULL { mem := SetPrev(mem, unused, last); }
      mem := SetPrev(SetNext(mem, last, unused), first, NULL);
      unused := first;
      spare := l + spare;
    }

    /** After clear(): all chunks are on the unused list, with whatever windows they had. */
    ghost predicate Stale()
      reads this
    {
      used == [] && items == 0 && Loose([]) && idle == |spare| && WindowsFit(Data(mem, spare), chunkSize)
    }

    /** clear: the deque is empty, but it is in order only if it was empty before. */
    method Clear()
      requires Valid()
      modifies `head, `tail, `unused, `items, `idle, `mem, `used, `spare
      ensures Stale() && Working() && Contents() == []
      ensures Valid() <==> old(Contents()) == []
      ensures Data(mem, spare) == old(Data(mem, used) + Data(mem, spare))
    {
      ghost var cs, ds := Data(mem, used), Data(mem, spare);
      DenseFits(cs, ds, chunkSize);
      NoItems(cs, chunkSize);
      ClearLists();
      items := 0;
      NoChunks(Data(mem, used), chunkSize);
      ClearedIdle(cs, ds, chunkSize);
    }

    /** The lists of clear: all chunks become unused. */
    method ClearLists()
      requires Holding([]) && idle == |spare|
      modifies `head, `tail, `unused, `idle, `mem, `used, `spare
      ensures Loose([]) && used == [] && idle == |spare|
      ensures Data(mem, spare) == old(Data(mem, used) + Data(mem, spare))
    {
      StaleList(mem, used, spare);
      if tail != NULL {
        if unused != NULL {
          mem := SetNext(mem, tail, unused);
          mem := SetPrev(mem, unused, tail);
        }
        unused := head;
        idle := chunks;
        spare := used + spare;
      }
      head, tail, used := NULL, NULL, [];
    }

    /** truncate: gives the unused chunks back; this also mends what clear() left. */
    method Truncate()
      requires Valid() || Working()
      modifies `unused, `chunks, `idle, `mem, `spare
      ensures Valid() && Contents() == old(Contents())
      ensures chunks == |used| && idle == 0 && mem.Keys == Members(used)
    {
      ghost var m0, gone := mem, spare;
      HeldApart(mem, used, spare, []);
      FreeChunkList(unused, spare, NULL);
      unused := NULL;
      chunks := chunks - idle;
      idle := 0;
      spare := [];
      Freed(m0, used, gone, chunkSize);
    }

    method FreeBoth()
      requires Loose([])
      modifies `mem
      ensures mem == map[]
    {
      HeldApart(mem, used, spare, []);
      KeepsSegment(mem, mem - Members(used), Members(used), spare, NULL, NULL);
      FreeChunkList(head, used, NULL);
      FreeChunkList(unused, spare, NULL);
    }

    /** flush: gives all chunks back. */
    method Flush()
      requires Valid() || Working()
      modifies `head, `tail, `unused, `items, `chunks, `idle, `mem, `used, `spare
      ensures Valid() && Contents() == [] && chunks == 0 && mem == map[]
    {
      FreeBoth();
      NothingLeft(mem, chunkSize);
      head, tail, unused := NULL, NULL, NULL;
      items, chunks, idle := 0, 0, 0;
      used, spare := [], [];
    }
  }

  lemma Enough(chunks: nat, n: nat, size: nat, capacity: nat)
    requires n * size >= capacity - chunks * size
    ensures (chunks + n) * size >= capacity
  {
    assert (chunks + n) * size == chunks * size + n * size;
  }

  /** What ends up in the deque, from front to back. */
  function Turned(data: seq<Item>, turn: bool): (all: seq<Item>)
    ensures |all| == |data|
  {
    if turn then Reversed(data) else data
  }

  lemma AttachListFront(m: Chunks, used: seq<Ptr>, spare: seq<Ptr>, l: seq<Ptr>, size: nat)
    requires Held(m, used, spare, l, size) && Segment(m, l, Last(l), NULL) && l != [] && AllIdle(Data(m, l), size)
    ensures l[0] in m && l[0] != NULL && m[l[0]].prev == Last(l) && Last(l) in m
    ensures used != [] ==> used[0] in m && used[0] != NULL
    ensures var m' := AttachedFront(m, used, l);
      && Held(m', l + used, spare, [], size) && First(l + used) == First(l) && Last(l + used) == (if used == [] then Last(l) else Last(used))
      && Data(m', l + used) == Data(m, l) + Data(m, used) && Data(m', l) == Data(m, l)
  {
    AttachFront(m, used, spare, l, Last(l));
    SegmentEnds(m, l, Last(l), NULL);
    if used != [] { SegmentEnds(m, used, NULL, NULL); }
    var m' := AttachedFront(m, used, l);
    DataConcat(m, l, used);
    RelinksKeepData(m, m', l + used);
    RelinksKeepData(m, m', l);
  }

  lemma FillingMore(cs: seq<Chunk>, more: seq<Chunk>, size: nat, s: seq<Item>)
    requires Dense(cs, size) && Items(cs) == s && AllIdle(more, size)
    ensures Filling(cs + more, |cs|, size, s)
  {
    assert (cs + more)[..|cs|] == cs && (cs + more)[|cs|..] == more;
  }

  /** Everything is stored, in all chunks or in all but one. */
  lemma AllStored(cs: seq<Chunk>, k: nat, size: nat, s: seq<Item>, extra: nat)
    requires Filling(cs, k, size, s) && |cs| == k + extra && extra <= 1
    ensures Items(cs) == s && (Dense(cs, size) <==> extra == 0) && (extra == 1 ==> Idle(LastOf(cs), size))
  {
    if extra == 1 { OneTooMany(cs, size, s); } else { FilledUp(cs, size, s); }
  }

  /** Number of chunks that are in use after a bulk push_back of count items, which starts
      with chunk c, the i-th one; `empty` if it is the first of a deque without items. */
  ghost function ChunksFor(c: Chunk, i: nat, size: nat, count: nat, empty: bool): nat
    requires size > 0 && c.tail <= size
  {
    (if empty && count == 0 then 0 else i + 1) + CountFor(count - Takes(c, size, count), size)
  }

  /** The chunks that preallocate_back asks for in an empty deque are those. */
  lemma FirstBlocks(c: Chunk, size: nat, count: nat)
    requires size > 0 && c.tail == 0
    ensures CountFor(count, size) == ChunksFor(c, 0, size, count, true)
  {
    if count > 0 {
      CountNext(count, size);
      assert count - Takes(c, size, count) == if count < size then 0 else count - size;
    }
  }

  /** And in one with items. */
  lemma BlocksLeft(c: Chunk, k: nat, size: nat, count: nat)
    requires size > 0 && c.tail <= size
    ensures k + 1 + (if c.tail + count <= size then 0 else CountFor(c.tail + count - size, size)) == ChunksFor(c, k, size, count, false)
  {
    if c.tail + count <= size {
      assert count - Takes(c, size, count) == 0;
    } else {
      assert count - Takes(c, size, count) == c.tail + count - size;
    }
  }

  lemma FirstIdle(cs: seq<Chunk>, size: nat, s: seq<Item>)
    requires Filling(cs, 0, size, s) && cs != []
    ensures cs[0].tail == 0
  {
    assert cs[0..][0] == cs[0];
  }

  lemma AttachListBack(m: Chunks, used: seq<Ptr>, spare: seq<Ptr>, l: seq<Ptr>, size: nat)
    requires Held(m, used, spare, l, size) && Segment(m, l, Last(l), NULL) && l != [] && AllIdle(Data(m, l), size)
    ensures l[0] in m && l[0] != NULL && m[l[0]].prev == Last(l) && (used != [] ==> Last(used) in m && Last(used) != NULL)
    ensures var m' := AttachedBack(m, used, l);
      && Held(m', used + l, spare, [], size) && Last(used + l) == Last(l)
      && Data(m', used + l) == Data(m, used) + Data(m, l) && Data(m', l) == Data(m, l)
  {
    AttachBack(m, used, spare, l, Last(l));
    SegmentEnds(m, l, Last(l), NULL);
    if used != [] { SegmentEnds(m, used, NULL, NULL); }
    var m' := AttachedBack(m, used, l);
    DataConcat(m, used, l);
    RelinksKeepData(m, m', used + l);
    RelinksKeepData(m, m', l);
  }

  // --------------------------------------------------------------------------
  // New chunks
  // --------------------------------------------------------------------------

  /** A list of chunks that were not there before. */
  ghost predicate Fresh(m0: Chunks, m: Chunks, l: seq<Ptr>, size: nat) {
    && l != [] && Segment(m, l, NULL, NULL) && AllIdle(Data(m, l), size)
    && Keeps(m0, m, {}) && m.Keys == m0.Keys + Members(l) && (forall p :: p in l ==> p !in m0)
  }

  lemma FreshFreed(m0: Chunks, m: Chunks, l: seq<Ptr>, size: nat)
    requires Fresh(m0, m, l, size)
    ensures m - Members(l) == m0
  {
    assert forall p :: p in m0 ==> p in m && m[p] == m0[p];
  }

  lemma FreshOneMore(m0: Chunks, m1: Chunks, m: Chunks, l: seq<Ptr>, p: Ptr, size: nat)
    requires Fresh(m0, m1, l, size) && p !in m1 && p != NULL && m.Keys == m1.Keys + {p} && Keeps(m1, m, {})
    requires m[p].next == NULL && m[p].prev == NULL && Idle(m[p].data, size)
    ensures Last(l) in m && p != Last(l)
    ensures Fresh(m0, SetNext(SetPrev(m, p, Last(l)), Last(l), p), l + [p], size)
  {
    SegmentEnds(m1, l, NULL, NULL);
    FreshLinks(m1, m, l, p);
    FreshSame(m0, m1, m, l, p, SetNext(SetPrev(m, p, Last(l)), Last(l), p), size);
    assert forall q :: q in l + [p] <==> q in l || q == p;
  }

  lemma FreshLinks(m1: Chunks, m: Chunks, l: seq<Ptr>, p: Ptr)
    requires l != [] && Segment(m1, l, NULL, NULL) && p !in m1 && p != NULL && p in m && Keeps(m1, m, {})
    requires m[p].next == NULL && m[p].prev == NULL
    ensures Last(l) in m && p != Last(l) && p !in l
    ensures Segment(SetNext(SetPrev(m, p, Last(l)), Last(l), p), l + [p], NULL, NULL)
  {
    SegmentEnds(m1, l, NULL, NULL);
    KeepsSegment(m1, m, {}, l, NULL, NULL);
    forall q | q in l ensures q in m1 { SegmentIn(m1, l, NULL, NULL, q); }
    SetAfter(m, l, NULL, NULL, p);
    var m' := SetNext(SetPrev(m, p, Last(l)), Last(l), p);
    KeepsSegment(SetNext(m, Last(l), p), m', {p}, l, NULL, p);
    SegmentOne(m', p);
    SegmentJoin(m', l, [p], NULL, NULL);
  }

  lemma FreshSame(m0: Chunks, m1: Chunks, m: Chunks, l: seq<Ptr>, p: Ptr, m': Chunks, size: nat)
    requires Fresh(m0, m1, l, size) && p !in m1 && m.Keys == m1.Keys + {p} && Keeps(m1, m, {})
    requires Relinks(m, m') && Keeps(m, m', {p, Last(l)}) && Idle(m[p].data, size)
    ensures Keeps(m0, m', {}) && AllIdle(Data(m', l + [p]), size)
  {
    forall q | q in m0 ensures q in m' && m'[q] == m0[q] {
      assert Last(l) in l;
      assert q in m1 && q in m;
    }
    DataConcat(m', l, [p]);
    DataKept(m1, m', l);
  }

  lemma FreshClosed(m0: Chunks, m: Chunks, l: seq<Ptr>, size: nat)
    requires Fresh(m0, m, l, size)
    ensures l[0] in m
    ensures var m' := SetPrev(m, l[0], Last(l));
      && Segment(m', l, Last(l), NULL) && AllIdle(Data(m', l), size)
      && Keeps(m0, m', {}) && m'.Keys == m0.Keys + Members(l)
  {
    assert l[0] in l;
    SetBefore(m, l, NULL, NULL, Last(l));
    RelinksKeepData(m, SetPrev(m, l[0], Last(l)), l);
  }

  /** New chunks in hand. */
  lemma TakeNew(m: Chunks, m': Chunks, used: seq<Ptr>, spare: seq<Ptr>, l: seq<Ptr>)
    requires Listed(m, used, spare, []) && Keeps(m, m', {}) && m'.Keys == m.Keys + Members(l) && forall p :: p in l ==> p !in m
    ensures Listed(m', used, spare, l) && Data(m', used) == Data(m, used) && Data(m', spare) == Data(m, spare)
  {
    HeldApart(m, used, spare, []);
    KeepsSegment(m, m', {}, used, NULL, NULL);
    KeepsSegment(m, m', {}, spare, NULL, NULL);
    assert forall p :: p in used || p in spare ==> p in m.Keys;
    forall p ensures OwnedOnce(m', used, spare, l, p) { assert p in m <==> p in m.Keys; assert p in m' <==> p in m'.Keys; }
    DataKept(m, m', used);
    DataKept(m, m', spare);
  }

  lemma AttachBackOne(m: Chunks, used: seq<Ptr>, spare: seq<Ptr>, p: Ptr)
    requires Listed(m, used, spare, [p]) && Segment(m, [p], NULL, NULL)
    ensures p in m && p != NULL && (used != [] ==> Last(used) in m && Last(used) != NULL && Last(used) != p)
    ensures var m' := if used == [] then m else SetNext(SetPrev(m, p, Last(used)), Last(used), p);
      && Listed(m', used + [p], spare, []) && Data(m', used + [p]) == Data(m, used) + [DataOf(m, p)]
      && Data(m', spare) == Data(m, spare)
  {
    HeldApart(m, used, spare, [p]);
    AttachBack(m, used, spare, [p], NULL);
    SegmentEnds(m, [p], NULL, NULL);
    if used != [] { SegmentEnds(m, used, NULL, NULL); }
    assert p == [p][0];
    if used != [] {
      assert Last(used) in used;
      assert AttachedBack(m, used, [p]) == SetNext(SetPrev(m, p, Last(used)), Last(used), p);
    } else {
      assert AttachedBack(m, used, [p]) == m;
    }
    DataConcat(m, used, [p]);
    RelinksKeepData(m, AttachedBack(m, used, [p]), used + [p]);
    assert Data(m, [p]) == [DataOf(m, p)];
  }

  /** The last chunk in use, as the memory has it. */
  lemma TailEnds(m: Chunks, used: seq<Ptr>)
    requires Segment(m, used, NULL, NULL)
    ensures Last(used) == NULL <==> used == []
    ensures used != [] ==> Last(used) in m && m[Last(used)].data == LastOf(Data(m, used))
  {
    if used != [] { Neighbours(m, used, |used| - 1); }
  }

  /** The chunks at both ends, as the memory has them. */
  lemma TailIs(m: Chunks, used: seq<Ptr>, size: nat)
    requires Segment(m, used, NULL, NULL) && Dense(Data(m, used), size)
    ensures Last(used) == NULL <==> used == []
    ensures First(used) == NULL <==> used == []
    ensures used != [] ==> Last(used) in m && m[Last(used)].data == LastOf(Data(m, used))
    ensures used != [] ==> used[0] in m && m[used[0]].data == Data(m, used)[0]
    ensures used != [] ==> var c := LastOf(Data(m, used)); c.head < c.tail <= size == |c.items|
    ensures used != [] ==> var c := Data(m, used)[0]; c.head < c.tail <= size == |c.items|
  {
    if used != [] {
      Neighbours(m, used, |used| - 1);
      Neighbours(m, used, 0);
      EndsFit(Data(m, used), size);
    }
  }

  lemma AttachFrontOne(m: Chunks, used: seq<Ptr>, spare: seq<Ptr>, p: Ptr)
    requires Listed(m, used, spare, [p]) && Segment(m, [p], NULL, NULL)
    ensures p in m && p != NULL && (used != [] ==> used[0] in m && used[0] != NULL && used[0] != p)
    ensures var m' := if used == [] then m else SetPrev(SetNext(m, p, used[0]), used[0], p);
      Listed(m', [p] + used, spare, []) && Data(m', [p] + used) == [DataOf(m, p)] + Data(m, used) && Data(m', spare) == Data(m, spare)
  {
    HeldApart(m, used, spare, [p]);
    AttachFront(m, used, spare, [p], NULL);
    SegmentEnds(m, [p], NULL, NULL);
    if used != [] {
      SegmentEnds(m, used, NULL, NULL);
      assert AttachedFront(m, used, [p]) == SetPrev(SetNext(m, p, used[0]), used[0], p);
    } else {
      assert AttachedFront(m, used, [p]) == m;
    }
    DataConcat(m, [p], used);
    RelinksKeepData(m, AttachedFront(m, used, [p]), [p] + used);
    assert Data(m, [p]) == [DataOf(m, p)];
  }

  lemma SpareIs(m: Chunks, spare: seq<Ptr>)
    requires Segment(m, spare, NULL, NULL)
    ensures First(spare) == NULL <==> spare == []
  {
    if spare != [] { SegmentEnds(m, spare, NULL, NULL); }
  }

  /** The used list followed by the unused one. */
  function Stacked(m: Chunks, used: seq<Ptr>, spare: seq<Ptr>): Chunks
    requires used != [] ==> Last(used) in m
    requires spare != [] ==> spare[0] in m
  {
    if used == [] || spare == [] then m else SetPrev(SetNext(m, Last(used), spare[0]), spare[0], Last(used))
  }

  /** Joining the used list and the unused one. */
  lemma StaleList(m: Chunks, used: seq<Ptr>, spare: seq<Ptr>)
    requires Listed(m, used, spare, [])
    ensures (First(used) == NULL <==> used == []) && (Last(used) == NULL <==> used == []) && (First(spare) == NULL <==> spare == [])
    ensures (used != [] ==> Last(used) in m) && (spare != [] ==> spare[0] in m)
    ensures var m' := Stacked(m, used, spare);
      Listed(m', [], used + spare, []) && Data(m', used + spare) == Data(m, used) + Data(m, spare)
  {
    HeldApart(m, used, spare, []);
    if used != [] { SegmentEnds(m, used, NULL, NULL); }
    if spare != [] { SegmentEnds(m, spare, NULL, NULL); }
    var m' := Stacked(m, used, spare);
    StackedLinks(m, used, spare);
    assert forall p :: p in used + spare <==> p in used || p in spare;
    ListedAgain(m, m', [], used + spare, []);
    DataConcat(m, used, spare);
  }

  lemma StackedLinks(m: Chunks, used: seq<Ptr>, spare: seq<Ptr>)
    requires Segment(m, used, NULL, NULL) && Segment(m, spare, NULL, NULL) && Disjoint(used, spare)
    requires (used != [] ==> Last(used) in m) && (spare != [] ==> spare[0] in m)
    ensures Segment(Stacked(m, used, spare), used + spare, NULL, NULL) && Relinks(m, Stacked(m, used, spare))
  {
    if used == [] {
      assert used + spare == spare;
    } else if spare == [] {
      assert used + spare == used;
    } else {
      SetAfter(m, used, NULL, NULL, spare[0]);
      var m1 := SetNext(m, Last(used), spare[0]);
      assert Last(used) in used && spare[0] in spare;
      KeepsSegment(m, m1, {Last(used)}, spare, NULL, NULL);
      SetBefore(m1, spare, NULL, NULL, Last(used));
      var m2 := SetPrev(m1, spare[0], Last(used));
      KeepsSegment(m1, m2, {spare[0]}, used, NULL, spare[0]);
      SegmentJoin(m2, used, spare, NULL, NULL);
    }
  }

  lemma NoItems(cs: seq<Chunk>, size: nat)
    requires Dense(cs, size)
    ensures Items(cs) == [] <==> cs == []
  {
    if cs != [] {
      DropFirst(cs, size);
    } else {
      assert Windows([]) == [];
    }
  }

  /** The chunks of a cleared deque have empty windows only if none was in use. */
  lemma ClearedIdle(cs: seq<Chunk>, ds: seq<Chunk>, size: nat)
    requires Dense(cs, size) && AllIdle(ds, size)
    ensures AllIdle(cs + ds, size) <==> cs == []
    ensures Items([]) == [] && Dense([], size)
  {
    assert Windows([]) == [];
    if cs != [] {
      EndsFit(cs, size);
      assert (cs + ds)[0] == cs[0];
    }
  }

  /** The unused chunks given back. */
  lemma Freed(m: Chunks, used: seq<Ptr>, spare: seq<Ptr>, size: nat)
    requires Listed(m, used, spare, [])
    ensures var m' := m - Members(spare); Held(m', used, [], [], size) && Data(m', used) == Data(m, used) && m'.Keys == Members(used)
  {
    HeldApart(m, used, spare, []);
    var m' := m - Members(spare);
    KeepsSegment(m, m', Members(spare), used, NULL, NULL);
    forall p ensures OwnedOnce(m', used, [], [], p) { assert p in m <==> p in m.Keys; }
    forall p | p in used ensures DataOf(m', p) == DataOf(m, p) { assert p in m.Keys && p !in spare; }
    DataKept(m, m', used);
  }

  lemma NoChunks(cs: seq<Chunk>, size: nat)
    requires cs == []
    ensures Dense(cs, size) && Items(cs) == []
  {
    assert Windows(cs) == [];
  }

  lemma NothingLeft(m: Chunks, size: nat)
    requires m == map[]
    ensures Held(m, [], [], [], size) && Items(Data(m, [])) == [] && Dense(Data(m, []), size)
  {
    assert Data(m, []) == [] && Windows([]) == [];
  }
}
