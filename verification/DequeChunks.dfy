/** The chunks of the deque (src/main/ddeque.cpp) as values: fixed-size blocks of items
    with a window [head, tail) in use.

    The lemmas are about the items of a sequence of chunks: what a block written behind the
    last window or before the first one adds, what moving a bound takes away, and how many
    items so many chunks hold. They know nothing of links. */
module DequeChunks {
  import opened Bits
  import opened Buckets
  import opened LinkedMemory

  /** An element; the deque only copies them. */
  type Item = int

  datatype Chunk = Chunk(head: nat, tail: nat, items: seq<Item>)

  type Chunks = Memory<Chunk>

  /** A block of items copied over others. */
  function Paste(items: seq<Item>, at: nat, block: seq<Item>): seq<Item>
    requires at + |block| <= |items|
  {
    items[..at] + block + items[at + |block|..]
  }

  function Window(c: Chunk): seq<Item> {
    if c.head <= c.tail <= |c.items| then c.items[c.head..c.tail] else []
  }

  function Windows(cs: seq<Chunk>): seq<seq<Item>> {
    seq(|cs|, i requires 0 <= i < |cs| => Window(cs[i]))
  }

  /** The items of a sequence of chunks. */
  function Items(cs: seq<Chunk>): seq<Item> {
    Flat(Windows(cs))
  }

  ghost predicate FitsAt(cs: seq<Chunk>, size: nat, i: int)
    requires 0 <= i < |cs|
  {
    && |cs[i].items| == size && cs[i].head < cs[i].tail <= size
    && (i > 0 ==> cs[i].head == 0)
    && (i + 1 < |cs| ==> cs[i].tail == size)
  }

  /** Non-empty windows that touch both ends of their chunks, but for the front of the
      first chunk and the back of the last one. */
  ghost predicate Dense(cs: seq<Chunk>, size: nat) {
    forall i {:trigger FitsAt(cs, size, i)} :: 0 <= i < |cs| ==> FitsAt(cs, size, i)
  }

  predicate Idle(c: Chunk, size: nat) {
    c.head == 0 && c.tail == 0 && |c.items| == size
  }

  ghost predicate AllIdle(cs: seq<Chunk>, size: nat) {
    forall i :: 0 <= i < |cs| ==> Idle(cs[i], size)
  }

  lemma ItemsConcat(a: seq<Chunk>, b: seq<Chunk>)
    ensures Items(a + b) == Items(a) + Items(b)
  {
    assert Windows(a + b) == Windows(a) + Windows(b);
    FlatConcat(Windows(a), Windows(b));
  }

  lemma ItemsOne(c: Chunk)
    ensures Items([c]) == Window(c)
  {
    assert Windows([c]) == [Window(c)];
    assert Flat([Window(c)]) == Window(c) + Flat([Window(c)][1..]);
  }

  lemma ItemsSnoc(cs: seq<Chunk>, c: Chunk)
    ensures Items(cs + [c]) == Items(cs) + Window(c)
  {
    ItemsConcat(cs, [c]);
    ItemsOne(c);
  }

  lemma ItemsCons(c: Chunk, cs: seq<Chunk>)
    ensures Items([c] + cs) == Window(c) + Items(cs)
  {
    ItemsConcat([c], cs);
    ItemsOne(c);
  }

  lemma DenseSnoc(cs: seq<Chunk>, c: Chunk, size: nat)
    ensures Dense(cs + [c], size) <==>
      && Dense(cs, size) && (cs != [] ==> cs[|cs| - 1].tail == size)
      && |c.items| == size && c.head < c.tail <= size && (cs != [] ==> c.head == 0)
  {
    var all := cs + [c];
    if Dense(all, size) {
      assert FitsAt(all, size, |cs|);
      forall i | 0 <= i < |cs| ensures FitsAt(cs, size, i) && cs[i].tail == size { assert FitsAt(all, size, i); }
    }
    if Dense(cs, size) && (cs != [] ==> cs[|cs| - 1].tail == size)
      && |c.items| == size && c.head < c.tail <= size && (cs != [] ==> c.head == 0) {
      forall i | 0 <= i < |all| ensures FitsAt(all, size, i) {
        if i < |cs| { assert FitsAt(cs, size, i); }
      }
    }
  }

  lemma DenseCons(c: Chunk, cs: seq<Chunk>, size: nat)
    ensures Dense([c] + cs, size) <==>
      && Dense(cs, size) && (cs != [] ==> cs[0].head == 0)
      && |c.items| == size && c.head < c.tail <= size && (cs != [] ==> c.tail == size)
  {
    var all := [c] + cs;
    if Dense(all, size) {
      assert FitsAt(all, size, 0);
      forall i | 0 <= i < |cs| ensures FitsAt(cs, size, i) && cs[i].head == 0 { assert FitsAt(all, size, i + 1); }
    }
    if Dense(cs, size) && (cs != [] ==> cs[0].head == 0)
      && |c.items| == size && c.head < c.tail <= size && (cs != [] ==> c.tail == size) {
      forall i | 0 <= i < |all| ensures FitsAt(all, size, i) {
        if i > 0 { assert FitsAt(cs, size, i - 1); }
      }
    }
  }

  // --------------------------------------------------------------------------
  // The back
  // --------------------------------------------------------------------------

  function Init(cs: seq<Chunk>): seq<Chunk>
    requires cs != []
  {
    cs[..|cs| - 1]
  }

  function LastOf(cs: seq<Chunk>): Chunk
    requires cs != []
  {
    cs[|cs| - 1]
  }

  /** A chunk with a block of items behind its window. */
  function Extended(c: Chunk, block: seq<Item>): Chunk
    requires c.tail + |block| <= |c.items|
  {
    c.(tail := c.tail + |block|, items := Paste(c.items, c.tail, block))
  }

  lemma ExtendLast(cs: seq<Chunk>, size: nat, block: seq<Item>)
    requires cs != [] && Dense(cs, size) && LastOf(cs).tail + |block| <= size
    ensures |LastOf(cs).items| == size
    ensures Dense(cs[|cs| - 1 := Extended(LastOf(cs), block)], size)
    ensures Items(cs[|cs| - 1 := Extended(LastOf(cs), block)]) == Items(cs) + block
  {
    EndsFit(cs, size);
    var init, c := Init(cs), LastOf(cs);
    var d := Extended(c, block);
    ReplaceLast(init, c, d, size);
    assert cs[|cs| - 1 := d] == init + [d];
    assert Window(d) == Window(c) + block;
  }

  /** A full back chunk followed by one more. */
  lemma ExtendNew(cs: seq<Chunk>, size: nat, c: Chunk, block: seq<Item>)
    requires Dense(cs, size) && (cs != [] ==> LastOf(cs).tail == size) && Idle(c, size) && 0 < |block| <= size
    ensures Dense(cs + [Extended(c, block)], size)
    ensures Items(cs + [Extended(c, block)]) == Items(cs) + block
  {
    var d := Extended(c, block);
    DenseSnoc(cs, d, size);
    ItemsSnoc(cs, d);
    assert Window(d) == block;
  }

  /** A window falls into two at any place. */
  lemma CutWindow(c: Chunk, n: nat)
    requires c.head <= c.tail <= |c.items| && n <= c.tail - c.head
    ensures Window(c) == c.items[c.head..c.head + n] + c.items[c.head + n..c.tail]
  {
  }

  lemma ReplaceLast(init: seq<Chunk>, c: Chunk, d: Chunk, size: nat)
    requires Dense(init + [c], size) && |d.items| == size && d.head < d.tail <= size && (init != [] ==> d.head == 0)
    ensures Dense(init + [d], size)
    ensures Items(init + [c]) == Items(init) + Window(c) && Items(init + [d]) == Items(init) + Window(d)
  {
    DenseSnoc(init, c, size);
    DenseSnoc(init, d, size);
    ItemsSnoc(init, c);
    ItemsSnoc(init, d);
  }

  lemma ReplaceFirst(c: Chunk, d: Chunk, rest: seq<Chunk>, size: nat)
    requires Dense([c] + rest, size) && |d.items| == size && d.head < d.tail <= size && (rest != [] ==> d.tail == size)
    ensures Dense([d] + rest, size)
    ensures Items([c] + rest) == Window(c) + Items(rest) && Items([d] + rest) == Window(d) + Items(rest)
  {
    DenseCons(c, rest, size);
    DenseCons(d, rest, size);
    ItemsCons(c, rest);
    ItemsCons(d, rest);
  }

  lemma EndsFit(cs: seq<Chunk>, size: nat)
    requires cs != [] && Dense(cs, size)
    ensures |cs[0].items| == size && cs[0].head < cs[0].tail <= size && (|cs| > 1 ==> cs[0].tail == size)
    ensures |LastOf(cs).items| == size && LastOf(cs).head < LastOf(cs).tail <= size && (|cs| > 1 ==> LastOf(cs).head == 0)
    ensures cs == Init(cs) + [LastOf(cs)] == [cs[0]] + cs[1..]
  {
    assert FitsAt(cs, size, 0) && FitsAt(cs, size, |cs| - 1);
  }

  /** Taking n items off the last chunk, but not all of them. */
  lemma TrimLast(cs: seq<Chunk>, size: nat, n: nat)
    requires cs != [] && Dense(cs, size) && n < LastOf(cs).tail - LastOf(cs).head
    ensures LastOf(cs).tail <= |LastOf(cs).items|
    ensures Dense(cs[|cs| - 1 := LastOf(cs).(tail := LastOf(cs).tail - n)], size)
    ensures Items(cs) == Items(cs[|cs| - 1 := LastOf(cs).(tail := LastOf(cs).tail - n)])
      + LastOf(cs).items[LastOf(cs).tail - n..LastOf(cs).tail]
  {
    EndsFit(cs, size);
    var init, c := Init(cs), LastOf(cs);
    var d := c.(tail := c.tail - n);
    ReplaceLast(init, c, d, size);
    assert cs[|cs| - 1 := d] == init + [d];
    CutWindow(c, c.tail - n - c.head);
    Assoc(Items(init), Window(d), c.items[c.tail - n..c.tail]);
  }

  lemma DropLast(cs: seq<Chunk>, size: nat)
    requires cs != [] && Dense(cs, size)
    ensures Dense(Init(cs), size) && Items(cs) == Items(Init(cs)) + Window(LastOf(cs))
    ensures |LastOf(cs).items| == size && LastOf(cs).head < LastOf(cs).tail <= size
    ensures |Window(LastOf(cs))| == LastOf(cs).tail - LastOf(cs).head
  {
    EndsFit(cs, size);
    DenseSnoc(Init(cs), LastOf(cs), size);
    ItemsSnoc(Init(cs), LastOf(cs));
  }

  // --------------------------------------------------------------------------
  // The front
  // --------------------------------------------------------------------------

  /** A chunk with a block of items in front of its window. */
  function Preceded(c: Chunk, block: seq<Item>): Chunk
    requires |block| <= c.head <= |c.items|
  {
    c.(head := c.head - |block|, items := Paste(c.items, c.head - |block|, block))
  }

  lemma PrecededWindow(c: Chunk, block: seq<Item>)
    requires |block| <= c.head <= c.tail <= |c.items|
    ensures Window(Preceded(c, block)) == block + Window(c)
  {
    var w, v := Window(Preceded(c, block)), block + Window(c);
    forall i | 0 <= i < |v| ensures w[i] == v[i] { assert w[i] == Preceded(c, block).items[c.head - |block| + i]; }
  }

  lemma ExtendFirst(cs: seq<Chunk>, size: nat, block: seq<Item>)
    requires cs != [] && Dense(cs, size) && |block| <= cs[0].head
    ensures |cs[0].items| == size && cs[0].head < size
    ensures Dense(cs[0 := Preceded(cs[0], block)], size)
    ensures Items(cs[0 := Preceded(cs[0], block)]) == block + Items(cs)
  {
    EndsFit(cs, size);
    var c, rest := cs[0], cs[1..];
    var d := Preceded(c, block);
    ReplaceFirst(c, d, rest, size);
    assert cs[0 := d] == [d] + rest;
    PrecededWindow(c, block);
  }

  /** An empty window at the back end of a chunk. */
  function AtEnd(c: Chunk, size: nat): Chunk {
    c.(head := size, tail := size)
  }

  /** A front chunk without room preceded by one more. */
  lemma ExtendFrontNew(cs: seq<Chunk>, size: nat, c: Chunk, block: seq<Item>)
    requires Dense(cs, size) && (cs != [] ==> cs[0].head == 0) && |c.items| == size && 0 < |block| <= size
    ensures Dense([Preceded(AtEnd(c, size), block)] + cs, size)
    ensures Items([Preceded(AtEnd(c, size), block)] + cs) == block + Items(cs)
  {
    var d := Preceded(AtEnd(c, size), block);
    DenseCons(d, cs, size);
    ItemsCons(d, cs);
    assert Window(d) == block;
  }

  /** Taking n items off the first chunk, but not all of them. */
  lemma TrimFirst(cs: seq<Chunk>, size: nat, n: nat)
    requires cs != [] && Dense(cs, size) && n < cs[0].tail - cs[0].head
    ensures cs[0].tail <= |cs[0].items|
    ensures Dense(cs[0 := cs[0].(head := cs[0].head + n)], size)
    ensures Items(cs) == cs[0].items[cs[0].head..cs[0].head + n] + Items(cs[0 := cs[0].(head := cs[0].head + n)])
  {
    EndsFit(cs, size);
    var c, rest := cs[0], cs[1..];
    var d := c.(head := c.head + n);
    ReplaceFirst(c, d, rest, size);
    assert cs[0 := d] == [d] + rest;
    CutWindow(c, n);
    Assoc(c.items[c.head..c.head + n], Window(d), Items(rest));
  }

  lemma DropFirst(cs: seq<Chunk>, size: nat)
    requires cs != [] && Dense(cs, size)
    ensures Dense(cs[1..], size) && Items(cs) == Window(cs[0]) + Items(cs[1..])
    ensures |cs[0].items| == size && cs[0].head < cs[0].tail <= size
    ensures |Window(cs[0])| == cs[0].tail - cs[0].head
  {
    EndsFit(cs, size);
    DenseCons(cs[0], cs[1..], size);
    ItemsCons(cs[0], cs[1..]);
  }

  /** The chunks after taking n items off the last one, which goes when it is empty. */
  function Shrunk(cs: seq<Chunk>, n: nat): seq<Chunk>
    requires cs != [] && n <= LastOf(cs).tail
  {
    var c := LastOf(cs);
    if c.tail - n <= c.head then Init(cs) else cs[|cs| - 1 := c.(tail := c.tail - n)]
  }

  lemma ShrinkBack(cs: seq<Chunk>, size: nat, n: nat)
    requires cs != [] && Dense(cs, size) && 0 < n <= LastOf(cs).tail - LastOf(cs).head
    ensures LastOf(cs).tail <= |LastOf(cs).items| == size && Dense(Shrunk(cs, n), size)
    ensures Items(cs) == Items(Shrunk(cs, n)) + LastOf(cs).items[LastOf(cs).tail - n..LastOf(cs).tail]
  {
    DropLast(cs, size);
    if LastOf(cs).tail - n > LastOf(cs).head { TrimLast(cs, size, n); }
  }

  /** The chunks after taking n items off the first one. */
  function ShrunkFront(cs: seq<Chunk>, n: nat): seq<Chunk>
    requires cs != []
  {
    var c := cs[0];
    if c.head + n >= c.tail then cs[1..] else cs[0 := c.(head := c.head + n)]
  }

  lemma ShrinkFront(cs: seq<Chunk>, size: nat, n: nat)
    requires cs != [] && Dense(cs, size) && 0 < n <= cs[0].tail - cs[0].head
    ensures cs[0].tail <= |cs[0].items| == size && Dense(ShrunkFront(cs, n), size)
    ensures Items(cs) == cs[0].items[cs[0].head..cs[0].head + n] + Items(ShrunkFront(cs, n))
  {
    DropFirst(cs, size);
    if cs[0].head + n < cs[0].tail { TrimFirst(cs, size, n); } else { WholeWindow(cs[0], n); }
  }

  lemma WholeWindow(c: Chunk, n: nat)
    requires c.head + n == c.tail <= |c.items|
    ensures Window(c) == c.items[c.head..c.head + n]
  {
  }

  // --------------------------------------------------------------------------
  // How much fits
  // --------------------------------------------------------------------------

  /** All chunks but the first are full when the last one is. */
  lemma {:induction false} MiddleFull(cs: seq<Chunk>, size: nat)
    requires cs != [] && Dense(cs, size) && LastOf(cs).tail == size
    ensures |Items(cs)| >= (|cs| - 1) * size + 1
  {
    DropLast(cs, size);
    if |cs| > 1 {
      var init := Init(cs);
      assert cs == init + [LastOf(cs)];
      DenseSnoc(init, LastOf(cs), size);
      MiddleFull(init, size);
      assert (|cs| - 1) * size == (|init| - 1) * size + size;
    }
  }

  lemma {:induction false} AtMost(cs: seq<Chunk>, size: nat)
    requires Dense(cs, size)
    ensures |Items(cs)| <= |cs| * size
  {
    if cs != [] {
      DropLast(cs, size);
      AtMost(Init(cs), size);
      OneMore(|cs| - 1, size);
    }
  }

  lemma OneMore(k: nat, size: nat)
    ensures (k + 1) * size == k * size + size
  {
  }

  /** k chunks in use hold at most k * size items, and k >= 2 at least (k - 2) * size + 2. */
  lemma HowMany(cs: seq<Chunk>, size: nat)
    requires Dense(cs, size)
    ensures |Items(cs)| <= |cs| * size
    ensures |cs| >= 2 ==> |Items(cs)| >= (|cs| - 2) * size + 2
    ensures |Items(cs)| == 0 <==> cs == []
  {
    AtMost(cs, size);
    if cs != [] {
      DropLast(cs, size);
      if |cs| >= 2 {
        assert cs == Init(cs) + [LastOf(cs)];
        DenseSnoc(Init(cs), LastOf(cs), size);
        MiddleFull(Init(cs), size);
      }
    }
  }

  /** How many chunks n items need. */
  ghost function CountFor(n: nat, size: nat): nat
    requires size > 0
  {
    if n == 0 then 0 else if n <= size then 1 else 1 + CountFor(n - size, size)
  }

  /** A full chunk, or the rest, is one chunk less. */
  lemma CountNext(n: nat, size: nat)
    requires size > 0 && n > 0
    ensures CountFor(n, size) == 1 + CountFor(if n < size then 0 else n - size, size)
  {
  }

  lemma {:induction false} CountDivides(n: nat, size: nat)
    requires size > 0
    ensures (n + size - 1) / size == CountFor(n, size)
  {
    if n == 0 {
      ModUnique(size - 1, size, 0, size - 1);
    } else if n <= size {
      ModUnique(n + size - 1, size, 1, n - 1);
    } else {
      CountDivides(n - size, size);
      var x := n - 1;
      assert size * (x / size) + x % size == x;
      ModUnique(x + size, size, x / size + 1, x % size);
    }
  }

  lemma {:induction false} CountIsLeast(n: nat, size: nat)
    requires size > 0
    ensures CountFor(n, size) * size >= n && (n > 0 ==> (CountFor(n, size) - 1) * size < n)
  {
    if n > size {
      CountIsLeast(n - size, size);
      OneMore(CountFor(n - size, size), size);
    }
  }

  /** How many of n chunks are new when there are recycled ones. */
  function More(n: nat, idle: nat): nat {
    if n > idle then n - idle else 0
  }

  /** The chunks that a bulk push at the back asks for. */
  ghost function BackAsk(cs: seq<Chunk>, size: nat, count: nat): nat
    requires size > 0
  {
    if cs == [] then CountFor(count, size)
    else if LastOf(cs).tail + count <= size then 0 else CountFor(LastOf(cs).tail + count - size, size)
  }

  /** The chunks that a bulk push at the front asks for. */
  ghost function FrontAsk(cs: seq<Chunk>, size: nat, count: nat): nat
    requires size > 0
  {
    if cs == [] then CountFor(count, size)
    else if cs[0].head >= count then 0 else CountFor(count - cs[0].head, size)
  }

  /** So many chunks are enough exactly if they have room for the items. */
  lemma {:induction false} CountFits(n: nat, size: nat, k: nat)
    requires size > 0
    ensures CountFor(n, size) <= k <==> n <= k * size
  {
    CountIsLeast(n, size);
    var c := CountFor(n, size);
    if c <= k { MulBound(size, k - c); assert k * size == c * size + (k - c) * size; }
    if k < c {
      assert c >= 1;
      MulBound(size, c - 1 - k);
      assert (c - 1) * size == k * size + (c - 1 - k) * size;
    }
  }

  /** No new chunks for what fits into the last chunk and the recycled ones. */
  lemma BackFits(cs: seq<Chunk>, size: nat, count: nat, idle: nat)
    requires size > 0 && (cs != [] ==> LastOf(cs).tail <= size)
    ensures BackAsk(cs, size, count) <= idle <==> count <= (if cs == [] then 0 else size - LastOf(cs).tail) + idle * size
  {
    MulBound(size, idle);
    if cs == [] {
      CountFits(count, size, idle);
    } else if LastOf(cs).tail + count > size {
      CountFits(LastOf(cs).tail + count - size, size, idle);
    }
  }

  /** The chunks that push_back opens for one item. */
  function Opens(cs: seq<Chunk>, ds: seq<Chunk>, size: nat): nat {
    if cs == [] then (if ds != [] && ds[0].tail >= size then 2 else 1) else if LastOf(cs).tail >= size then 1 else 0
  }

  /** chunks_count: the least number of chunks with room for n items. */
  method ChunksCount(n: nat, size: nat) returns (k: nat)
    requires size > 0
    ensures k == CountFor(n, size) && k * size >= n && (n > 0 ==> (k - 1) * size < n)
  {
    CountDivides(n, size);
    CountIsLeast(n, size);
    k := (n + size - 1) / size;
  }

  // --------------------------------------------------------------------------
  // Filling several chunks
  // --------------------------------------------------------------------------

  /** The first k chunks hold s, the others are empty. */
  ghost predicate Filling(cs: seq<Chunk>, k: nat, size: nat, s: seq<Item>) {
    k <= |cs| && Dense(cs[..k], size) && Items(cs[..k]) == s && AllIdle(cs[k..], size)
  }

  lemma FilledUp(cs: seq<Chunk>, size: nat, s: seq<Item>)
    ensures Filling(cs, |cs|, size, s) <==> Dense(cs, size) && Items(cs) == s
  {
    assert cs[..|cs|] == cs && cs[|cs|..] == [];
  }

  lemma FillLast(cs: seq<Chunk>, k: nat, size: nat, s: seq<Item>, block: seq<Item>)
    requires Filling(cs, k, size, s) && k > 0 && cs[k - 1].tail + |block| <= size
    ensures |cs[k - 1].items| == size
    ensures Filling(cs[k - 1 := Extended(cs[k - 1], block)], k, size, s + block)
  {
    ExtendLast(cs[..k], size, block);
    var d := Extended(cs[k - 1], block);
    assert cs[k - 1 := d][..k] == cs[..k][k - 1 := d];
    assert cs[k - 1 := d][k..] == cs[k..];
  }

  lemma FillNext(cs: seq<Chunk>, k: nat, size: nat, s: seq<Item>, block: seq<Item>)
    requires Filling(cs, k, size, s) && k < |cs| && (k > 0 ==> cs[k - 1].tail == size) && 0 < |block| <= size
    ensures Idle(cs[k], size)
    ensures Filling(cs[k := Extended(cs[k], block)], k + 1, size, s + block)
  {
    assert cs[k..][0] == cs[k];
    ExtendNew(cs[..k], size, cs[k], block);
    var d := Extended(cs[k], block);
    assert cs[k := d][..k + 1] == cs[..k] + [d];
    var rest := cs[k := d][k + 1..];
    forall i | 0 <= i < |rest| ensures Idle(rest[i], size) { assert rest[i] == cs[k..][i + 1]; }
  }

  lemma NoBlock(c: Chunk)
    requires c.tail <= |c.items|
    ensures Extended(c, []) == c
  {
  }

  /** How many of count items a chunk takes behind its window. */
  function Takes(c: Chunk, size: nat, count: nat): nat
    requires c.tail <= size
  {
    if count < size - c.tail then count else size - c.tail
  }

  /** The first block of a bulk push goes into a empty chunk, or behind the last one. */
  lemma FirstFilled(cs: seq<Chunk>, empty: bool, i: nat, size: nat, s: seq<Item>, block: seq<Item>)
    requires size > 0 && i < |cs| && Filling(cs, if empty then i else i + 1, size, s) && (empty ==> i == 0)
    requires cs[i].tail + |block| <= size
    ensures |cs[i].items| == size
    ensures Filling(cs[i := Extended(cs[i], block)], if empty && block == [] then 0 else i + 1, size, s + block)
  {
    if !empty {
      FillLast(cs, i + 1, size, s, block);
    } else {
      assert cs[0..][0] == cs[0];
      NoBlock(cs[0]);
      if block != [] { FillNext(cs, 0, size, s, block); } else { assert s + [] == s && cs[0 := cs[0]] == cs; }
    }
  }

  /** Everything is filled, but for one chunk too many. */
  lemma OneTooMany(cs: seq<Chunk>, size: nat, s: seq<Item>)
    requires cs != [] && Filling(cs, |cs| - 1, size, s)
    ensures Idle(LastOf(cs), size) && Items(cs) == s && !Dense(cs, size)
  {
    var k := |cs| - 1;
    assert cs == cs[..k] + [cs[k]] && cs[k..][0] == cs[k];
    ItemsSnoc(cs[..k], cs[k]);
    assert Dense(cs, size) ==> FitsAt(cs, size, k);
  }

  /** Chunks that hold s, with room in the last one, which may be the only empty one. */
  ghost predicate RoomBack(cs: seq<Chunk>, k: nat, size: nat, s: seq<Item>) {
    && Filling(cs, k, size, s) && cs != [] && LastOf(cs).tail < size
    && (k == |cs| || (k == |cs| - 1 && (k > 0 ==> cs[k - 1].tail == size)))
  }

  lemma OneToFill(cs: seq<Chunk>, c: Chunk, size: nat)
    requires Dense(cs, size) && Idle(c, size) && size > 0 && (cs != [] ==> LastOf(cs).tail == size)
    ensures RoomBack(cs + [c], |cs|, size, Items(cs))
  {
    assert (cs + [c])[..|cs|] == cs && (cs + [c])[|cs|..] == [c];
  }

  lemma PlaceLast(cs: seq<Chunk>, k: nat, size: nat, s: seq<Item>, x: Item)
    requires RoomBack(cs, k, size, s)
    ensures |LastOf(cs).items| == size
    ensures Dense(cs[|cs| - 1 := Extended(LastOf(cs), [x])], size)
    ensures Items(cs[|cs| - 1 := Extended(LastOf(cs), [x])]) == s + [x]
  {
    if k == |cs| { FillLast(cs, k, size, s, [x]); } else { FillNext(cs, k, size, s, [x]); }
    FilledUp(cs[|cs| - 1 := Extended(LastOf(cs), [x])], size, s + [x]);
  }

  // --------------------------------------------------------------------------
  // The chunks of push_back
  // --------------------------------------------------------------------------

  /** The next chunk to use: the first unused one as it is, or a new one. */
  ghost predicate NextChunk(ds: seq<Chunk>, c: Chunk, rest: seq<Chunk>, size: nat) {
    if ds == [] then rest == [] && Idle(c, size) else c == ds[0] && rest == ds[1..]
  }

  /** One more chunk in use: us and ss from cs and ds. */
  ghost predicate OneOpened(cs: seq<Chunk>, ds: seq<Chunk>, us: seq<Chunk>, ss: seq<Chunk>, size: nat) {
    us != [] && Init(us) == cs && NextChunk(ds, LastOf(us), ss, size)
  }

  /** The chunks in use and the unused ones when push_back writes: us and ss after it has
      taken a chunk if there was none in use, vs and ts after it has taken one if the last
      one was full. */
  ghost predicate Opened(cs: seq<Chunk>, ds: seq<Chunk>, us: seq<Chunk>, ss: seq<Chunk>, vs: seq<Chunk>, ts: seq<Chunk>, size: nat) {
    && us != []
    && (if cs != [] then us == cs && ss == ds else OneOpened(cs, ds, us, ss, size))
    && (if LastOf(us).tail < size then vs == us && ts == ss else OneOpened(us, ss, vs, ts, size))
  }

  /** One more item at the back needs a chunk. */
  predicate NeedsChunk(cs: seq<Chunk>, size: nat) {
    cs == [] || LastOf(cs).tail >= size
  }

  /** One more item at the front needs a chunk. */
  predicate FrontFull(cs: seq<Chunk>) {
    cs == [] || cs[0].head == 0
  }

  /** The same when there is no memory for a chunk that is needed. */
  ghost predicate Refused(cs: seq<Chunk>, ds: seq<Chunk>, us: seq<Chunk>, ss: seq<Chunk>, size: nat) {
    && ss == []
    && (if us == [] then cs == [] && ds == []
        else LastOf(us).tail >= size && if cs != [] then us == cs && ss == ds else OneOpened(cs, ds, us, ss, size))
  }

  function WrittenBack(cs: seq<Chunk>, x: Item): seq<Chunk>
    requires cs != [] && LastOf(cs).tail < |LastOf(cs).items|
  {
    cs[|cs| - 1 := Extended(LastOf(cs), [x])]
  }

  lemma OpenedValid(cs: seq<Chunk>, ds: seq<Chunk>, us: seq<Chunk>, ss: seq<Chunk>, vs: seq<Chunk>, ts: seq<Chunk>, size: nat, x: Item)
    requires Dense(cs, size) && AllIdle(ds, size) && size > 0 && Opened(cs, ds, us, ss, vs, ts, size)
    ensures vs != [] && LastOf(vs).tail < size == |LastOf(vs).items| && AllIdle(ts, size)
    ensures Dense(WrittenBack(vs, x), size) && Items(WrittenBack(vs, x)) == Items(cs) + [x]
  {
    FilledUp(cs, size, Items(cs));
    if vs != cs {
      assert vs == cs + [LastOf(vs)];
      if cs != [] { EndsFit(cs, size); }
      OneToFill(cs, LastOf(vs), size);
      PlaceLast(vs, |cs|, size, Items(cs), x);
    } else {
      PlaceLast(vs, |cs|, size, Items(cs), x);
    }
  }

  lemma RefusedValid(cs: seq<Chunk>, ds: seq<Chunk>, us: seq<Chunk>, ss: seq<Chunk>, size: nat)
    requires AllIdle(ds, size) && size > 0 && Refused(cs, ds, us, ss, size)
    ensures us == cs && AllIdle(ss, size) && ds == [] && NeedsChunk(cs, size)
  {
  }

  // --------------------------------------------------------------------------
  // Chunks that clear left
  // --------------------------------------------------------------------------

  /** Windows inside their chunks. */
  ghost predicate WindowsFit(ds: seq<Chunk>, size: nat) {
    forall i :: 0 <= i < |ds| ==> ds[i].head <= ds[i].tail <= size == |ds[i].items|
  }

  lemma FitsNext(ds: seq<Chunk>, c: Chunk, rest: seq<Chunk>, size: nat)
    requires NextChunk(ds, c, rest, size) && WindowsFit(ds, size)
    ensures |c.items| == size && FewerSpare(ds, rest)
  {
  }

  /** All the unused chunks but some of the first ones. */
  ghost predicate FewerSpare(ds: seq<Chunk>, rest: seq<Chunk>) {
    |rest| <= |ds| && rest == ds[|ds| - |rest|..]
  }

  lemma FewerFit(ds: seq<Chunk>, rest: seq<Chunk>, size: nat)
    requires FewerSpare(ds, rest)
    ensures WindowsFit(ds, size) ==> WindowsFit(rest, size)
    ensures AllIdle(ds, size) ==> AllIdle(rest, size)
  {
  }

  lemma IdleFits(ds: seq<Chunk>, size: nat)
    requires AllIdle(ds, size)
    ensures WindowsFit(ds, size)
  {
    DenseFits([], ds, size);
    assert [] + ds == ds;
  }

  lemma DenseFits(cs: seq<Chunk>, ds: seq<Chunk>, size: nat)
    requires Dense(cs, size) && AllIdle(ds, size)
    ensures WindowsFit(cs + ds, size)
  {
    var all := cs + ds;
    forall i | 0 <= i < |all| ensures all[i].head <= all[i].tail <= size == |all[i].items| {
      if i < |cs| { assert FitsAt(cs, size, i); }
    }
  }

  predicate TwoFull(ds: seq<Chunk>, size: nat) {
    |ds| > 1 && ds[0].tail >= size && ds[1].tail >= size
  }

  /** A new chunk is needed. */
  predicate NoneToOpen(ds: seq<Chunk>, size: nat) {
    ds == [] || (|ds| == 1 && ds[0].tail >= size)
  }

  /** The items that come back with the chunks that push_back takes. */
  function Returned(ds: seq<Chunk>, size: nat): seq<Item> {
    if ds == [] then []
    else if ds[0].tail < size || |ds| == 1 then Window(ds[0])
    else Window(ds[0]) + Window(ds[1])
  }

  lemma ItemsTwo(c: Chunk, d: Chunk)
    ensures Items([c, d]) == Window(c) + Window(d)
  {
    assert [c, d] == [c] + [d];
    ItemsSnoc([c], d);
    ItemsOne(c);
  }

  lemma OpenedStale(ds: seq<Chunk>, us: seq<Chunk>, ss: seq<Chunk>, vs: seq<Chunk>, ts: seq<Chunk>, size: nat, x: Item)
    requires WindowsFit(ds, size) && size > 0 && Opened([], ds, us, ss, vs, ts, size)
    ensures vs != [] && |LastOf(vs).items| == size && (LastOf(vs).tail >= size <==> TwoFull(ds, size))
    ensures Items(vs) == Returned(ds, size)
    ensures LastOf(vs).tail < size ==> Items(WrittenBack(vs, x)) == Returned(ds, size) + [x]
  {
    var c := LastOf(us);
    assert us == [c];
    ItemsOne(c);
    if c.tail >= size {
      assert vs == [c, LastOf(vs)];
      ItemsTwo(c, LastOf(vs));
    }
    if LastOf(vs).tail < size { WriteAdds(vs, x); }
  }

  lemma WriteAdds(vs: seq<Chunk>, x: Item)
    requires vs != [] && LastOf(vs).head <= LastOf(vs).tail < |LastOf(vs).items|
    ensures Items(WrittenBack(vs, x)) == Items(vs) + [x]
  {
    var init, c := Init(vs), LastOf(vs);
    var d := Extended(c, [x]);
    assert vs == init + [c] && WrittenBack(vs, x) == init + [d];
    ItemsSnoc(init, c);
    ItemsSnoc(init, d);
    assert Window(d) == Window(c) + [x];
  }

  lemma RefusedStale(ds: seq<Chunk>, us: seq<Chunk>, ss: seq<Chunk>, size: nat)
    requires WindowsFit(ds, size) && size > 0 && Refused([], ds, us, ss, size)
    ensures NoneToOpen(ds, size) && Items(us) == Returned(ds, size) && !TwoFull(ds, size)
  {
    if us != [] {
      assert us == [LastOf(us)];
      ItemsOne(LastOf(us));
    } else {
      assert Windows([]) == [];
    }
  }

  /** The chunks from k on hold s, the first k are empty. */
  ghost predicate FillingFront(cs: seq<Chunk>, k: nat, size: nat, s: seq<Item>) {
    k <= |cs| && Dense(cs[k..], size) && Items(cs[k..]) == s && AllIdle(cs[..k], size)
  }

  lemma FillFirst(cs: seq<Chunk>, k: nat, size: nat, s: seq<Item>, block: seq<Item>)
    requires FillingFront(cs, k, size, s) && k < |cs| && |block| <= cs[k].head
    ensures |cs[k].items| == size && cs[k].head < size
    ensures FillingFront(cs[k := Preceded(cs[k], block)], k, size, block + s)
  {
    assert cs[k..][0] == cs[k];
    ExtendFirst(cs[k..], size, block);
    var d := Preceded(cs[k], block);
    assert cs[k := d][k..] == cs[k..][0 := d];
    assert cs[k := d][..k] == cs[..k];
  }

  lemma FillBefore(cs: seq<Chunk>, k: nat, size: nat, s: seq<Item>, block: seq<Item>)
    requires FillingFront(cs, k, size, s) && 0 < k && (k < |cs| ==> cs[k].head == 0) && 0 < |block| <= size
    ensures |cs[k - 1].items| == size
    ensures FillingFront(cs[k - 1 := Preceded(AtEnd(cs[k - 1], size), block)], k - 1, size, block + s)
  {
    assert Idle(cs[..k][k - 1], size) && cs[..k][k - 1] == cs[k - 1];
    assert k < |cs| ==> cs[k..][0] == cs[k];
    ExtendFrontNew(cs[k..], size, cs[k - 1], block);
    var d := Preceded(AtEnd(cs[k - 1], size), block);
    assert cs[k - 1 := d][k - 1..] == [d] + cs[k..];
    var rest := cs[k - 1 := d][..k - 1];
    forall i | 0 <= i < |rest| ensures Idle(rest[i], size) { assert rest[i] == cs[..k][i]; }
  }

  lemma FillingFrontMore(more: seq<Chunk>, cs: seq<Chunk>, size: nat, s: seq<Item>)
    requires Dense(cs, size) && Items(cs) == s && AllIdle(more, size)
    ensures FillingFront(more + cs, |more|, size, s)
  {
    assert (more + cs)[|more|..] == cs && (more + cs)[..|more|] == more;
  }

  lemma FilledFront(cs: seq<Chunk>, size: nat, s: seq<Item>)
    ensures FillingFront(cs, 0, size, s) <==> Dense(cs, size) && Items(cs) == s
  {
    assert cs[0..] == cs && cs[..0] == [];
  }

  /** A single chunk filled from its end. */
  lemma OnlyChunk(c: Chunk, size: nat, block: seq<Item>)
    requires |c.items| == size && |block| <= size
    ensures var cs := [Preceded(AtEnd(c, size), block)]; Items(cs) == block && (Dense(cs, size) <==> block != [])
  {
    var d := Preceded(AtEnd(c, size), block);
    ItemsOne(d);
    assert Window(d) == block;
    assert Dense([d], size) ==> FitsAt([d], size, 0);
  }

  /** Chunks that hold s, with room in front of the first one, which may be empty. */
  ghost predicate RoomFront(cs: seq<Chunk>, size: nat, s: seq<Item>) {
    && cs != [] && 0 < cs[0].head && |cs[0].items| == size
    && if cs[0].head < size
       then Dense(cs, size) && Items(cs) == s
       else cs[0] == AtEnd(cs[0], size) && Dense(cs[1..], size) && Items(cs[1..]) == s && (|cs| > 1 ==> cs[1].head == 0)
  }

  lemma PlaceFirst(cs: seq<Chunk>, size: nat, s: seq<Item>, x: Item)
    requires RoomFront(cs, size, s)
    ensures cs[0].head <= size
    ensures Dense(cs[0 := Preceded(cs[0], [x])], size)
    ensures Items(cs[0 := Preceded(cs[0], [x])]) == [x] + s
  {
    if cs[0].head < size {
      ExtendFirst(cs, size, [x]);
    } else {
      assert |cs| > 1 ==> cs[1..][0] == cs[1];
      ExtendFrontNew(cs[1..], size, cs[0], [x]);
      assert cs[0 := Preceded(cs[0], [x])] == [Preceded(cs[0], [x])] + cs[1..];
    }
  }

  lemma Assoc(a: seq<Item>, b: seq<Item>, c: seq<Item>)
    ensures (a + b) + c == a + (b + c)
  {
  }

  /** What a bulk push from the back to the front has to do: the first `rest` of the items
      `all` still go before those that are done, and that makes up the total. */
  ghost predicate Ahead(all: seq<Item>, rest: nat, done: seq<Item>, total: seq<Item>) {
    rest <= |all| && all[..rest] + done == total
  }

  lemma AheadStep(all: seq<Item>, rest: nat, n: nat, done: seq<Item>, total: seq<Item>)
    requires Ahead(all, rest, done, total) && n <= rest
    ensures Ahead(all, rest - n, all[rest - n..rest] + done, total)
  {
    assert all[..rest] == all[..rest - n] + all[rest - n..rest];
  }

  lemma AheadStart(all: seq<Item>, s: seq<Item>)
    ensures Ahead(all, |all|, s, all + s)
  {
    assert all[..|all|] == all;
  }

  lemma AheadEnd(all: seq<Item>, done: seq<Item>, total: seq<Item>)
    requires Ahead(all, 0, done, total)
    ensures done == total
  {
    assert all[..0] == [];
  }

  /** And of one from the front to the back: the items from `offset` on go behind those
      that are done. */
  ghost predicate Behind(all: seq<Item>, offset: nat, done: seq<Item>, total: seq<Item>) {
    offset <= |all| && done + all[offset..] == total
  }

  lemma BehindStep(all: seq<Item>, offset: nat, n: nat, done: seq<Item>, total: seq<Item>)
    requires Behind(all, offset, done, total) && offset + n <= |all|
    ensures Behind(all, offset + n, done + all[offset..offset + n], total)
  {
    assert all[offset..] == all[offset..offset + n] + all[offset + n..];
  }

  lemma BehindStart(all: seq<Item>, s: seq<Item>)
    ensures Behind(all, 0, s, s + all)
  {
    assert all[0..] == all;
  }

  lemma BehindEnd(all: seq<Item>, done: seq<Item>, total: seq<Item>)
    requires Behind(all, |all|, done, total)
    ensures done == total
  {
    assert all[|all|..] == [];
  }

  function Reversed(s: seq<Item>): seq<Item> {
    seq(|s|, i requires 0 <= i < |s| => s[|s| - 1 - i])
  }

  lemma ReversedConcat(a: seq<Item>, b: seq<Item>)
    ensures Reversed(a + b) == Reversed(b) + Reversed(a)
  {
  }

  lemma ReversedTwice(s: seq<Item>)
    ensures Reversed(Reversed(s)) == s
  {
  }

  lemma ReversedPiece(s: seq<Item>, left: nat, n: nat)
    requires n <= left <= |s|
    ensures Reversed(s)[left - n..left] == Reversed(s[|s| - left..|s| - left + n])
  {
    var a, b := Reversed(s)[left - n..left], Reversed(s[|s| - left..|s| - left + n]);
    forall i | 0 <= i < n ensures a[i] == b[i] { assert a[i] == Reversed(s)[left - n + i]; }
  }

  /** reverse_copy: the source backwards. */
  method ReverseCopy(src: seq<Item>) returns (dst: seq<Item>)
    ensures dst == Reversed(src)
  {
    dst := [];
    for i := 0 to |src|
      invariant dst == Reversed(src[..i])
    {
      assert src[..i + 1] == src[..i] + [src[i]];
      ReversedConcat(src[..i], [src[i]]);
      dst := [src[i]] + dst;
    }
    assert src[..|src|] == src;
  }
}
