/** Bins of the hash index (src/main/hash_index.cpp): doubly linked lists of nodes
    with eight slots each, filled densely from the head.

    Everything here is about the memory as a value: what a write, a link or a cut does to
    the entries of a bin, to the free list of a growth and to the other bins. The class of
    module HashIndex calls these lemmas at its assignments. */
module HashNodes {
  import opened Basics
  import opened Bits
  import opened HashTable
  import opened LinkedMemory
  import opened SplitTables

  const NODE_SIZE: nat := 8

  /** A node carries the arrays hash[8] and v[8] of the source, slot by slot. */
  type Slots = seq<Entry>

  type Nodes = Memory<Slots>

  datatype Bin = Bin(size: nat, head: Ptr, tail: Ptr)

  ghost predicate EightSlots(m: Nodes, ns: seq<Ptr>)
    requires Live(m, ns)
  {
    forall i {:trigger m[ns[i]].data} :: 0 <= i < |ns| ==> |m[ns[i]].data| == NODE_SIZE
  }

  /** A list of nodes, and a free list of nodes. */
  ghost predicate NodeList(m: Nodes, ns: seq<Ptr>) {
    Linked(m, ns) && EightSlots(m, ns)
  }

  ghost predicate FreeList(m: Nodes, ns: seq<Ptr>) {
    Chain(m, ns) && EightSlots(m, ns)
  }

  function NodesFor(size: nat): nat {
    (size + NODE_SIZE - 1) / NODE_SIZE
  }

  /** The dense shape: just enough nodes, all but the last one full. */
  ghost predicate IsBin(m: Nodes, bin: Bin, ns: seq<Ptr>) {
    && NodeList(m, ns)
    && bin.head == First(ns) && bin.tail == Last(ns)
    && |ns| == NodesFor(bin.size)
  }

  ghost function Slot(m: Nodes, ns: seq<Ptr>, j: nat): Entry
    requires Live(m, ns) && EightSlots(m, ns) && j < NODE_SIZE * |ns|
  {
    m[ns[j / NODE_SIZE]].data[j % NODE_SIZE]
  }

  /** The first k slots of a list of nodes. */
  ghost function Read(m: Nodes, ns: seq<Ptr>, k: nat): (es: seq<Entry>)
    requires Live(m, ns) && EightSlots(m, ns) && k <= NODE_SIZE * |ns|
    ensures |es| == k && forall j :: 0 <= j < k ==> es[j] == Slot(m, ns, j)
  {
    seq(k, j requires 0 <= j < k => Slot(m, ns, j))
  }

  ghost function Entries(m: Nodes, bin: Bin, ns: seq<Ptr>): (es: seq<Entry>)
    requires IsBin(m, bin, ns)
  {
    Read(m, ns, bin.size)
  }

  /** The node that holds slot j; NULL behind the last node. */
  ghost function NodeAt(ns: seq<Ptr>, j: nat): Ptr {
    if j / NODE_SIZE < |ns| then ns[j / NODE_SIZE] else NULL
  }

  /** The i-th node; NULL behind the last one. */
  ghost function NodeFrom(ns: seq<Ptr>, i: nat): Ptr {
    if i < |ns| then ns[i] else NULL
  }

  /** The i-th node of a bin holds the entries from 8i on. */
  lemma NodeSlots(m: Nodes, bin: Bin, ns: seq<Ptr>, i: nat, count: nat)
    requires IsBin(m, bin, ns) && i < |ns|
    requires count == if bin.size - NODE_SIZE * i < NODE_SIZE then bin.size - NODE_SIZE * i else NODE_SIZE
    ensures ns[i] in m && Holds(Entries(m, bin, ns), NODE_SIZE * i, m[ns[i]].data, count)
    ensures i + 1 == |ns| ==> NODE_SIZE * i + count == bin.size
    ensures i + 1 < |ns| ==> count == NODE_SIZE
    ensures ns[i] != NULL && m[ns[i]].next == NodeFrom(ns, i + 1)
    ensures forall k :: 0 <= k < count ==> At(Cursor(ns[i], k), ns, NODE_SIZE * i + k)
  {
    forall k | 0 <= k < count
      ensures Entries(m, bin, ns)[NODE_SIZE * i + k] == m[ns[i]].data[k]
      ensures At(Cursor(ns[i], k), ns, NODE_SIZE * i + k)
    {
      assert (NODE_SIZE * i + k) / NODE_SIZE == i && (NODE_SIZE * i + k) % NODE_SIZE == k;
    }
  }

  /** A cursor stands at entry j of bin b. */
  ghost predicate Stands(m: Nodes, bins: seq<Bin>, lists: seq<seq<Ptr>>, pos: Cursor, b: nat, j: nat)
    requires AllBins(m, bins, lists)
  {
    && b < |bins| && j < bins[b].size && At(pos, lists[b], j)
    && pos.node in m && pos.index < |m[pos.node].data|
    && m[pos.node].data[pos.index] == EntriesAt(m, bins, lists, b)[j]
  }

  // --------------------------------------------------------------------------
  // What a change of the memory leaves alone
  // --------------------------------------------------------------------------

  lemma KeepsBin(m: Nodes, m': Nodes, changed: set<Ptr>, bin: Bin, ns: seq<Ptr>)
    requires Keeps(m, m', changed) && (forall p :: p in ns ==> p !in changed) && IsBin(m, bin, ns)
    ensures IsBin(m', bin, ns) && Entries(m', bin, ns) == Entries(m, bin, ns)
  {
    KeepsLists(m, m', changed, ns);
    forall i {:trigger ns[i]} | 0 <= i < |ns| ensures m'[ns[i]] == m[ns[i]] { assert ns[i] in ns; }
    assert EightSlots(m', ns);
  }

  lemma KeepsFree(m: Nodes, m': Nodes, changed: set<Ptr>, ns: seq<Ptr>)
    requires Keeps(m, m', changed) && (forall p :: p in ns ==> p !in changed) && FreeList(m, ns)
    ensures FreeList(m', ns)
  {
    KeepsLists(m, m', changed, ns);
    forall i {:trigger ns[i]} | 0 <= i < |ns| ensures m'[ns[i]] == m[ns[i]] { assert ns[i] in ns; }
  }

  lemma FreeTail(m: Nodes, ns: seq<Ptr>)
    requires FreeList(m, ns) && ns != []
    ensures ns[0] in m && m[ns[0]].next == First(ns[1..]) && FreeList(m, ns[1..])
    ensures ns[0] !in ns[1..] && ns == [ns[0]] + ns[1..]
  {
    assert ns == [ns[0]] + ns[1..];
    NoRepeatsConcat([ns[0]], ns[1..]);
    assert ns[0] in [ns[0]];
    var rest := ns[1..];
    forall i {:trigger m[rest[i]]} | 0 <= i < |rest|
      ensures rest[i] in m && |m[rest[i]].data| == NODE_SIZE
      ensures m[rest[i]].next == if i + 1 < |rest| then rest[i + 1] else NULL
    {
      assert rest[i] == ns[i + 1] && m[ns[i + 1]].next == if i + 2 < |ns| then ns[i + 2] else NULL;
    }
  }

  // --------------------------------------------------------------------------
  // Steps of the operations
  // --------------------------------------------------------------------------

  /** One more node behind the last one keeps the slots in front of it. */
  lemma AppendNode(m: Nodes, ns: seq<Ptr>, p: Ptr)
    requires NodeList(m, ns) && p != NULL && p in m && p !in ns && |m[p].data| == NODE_SIZE
    ensures Last(ns) != NULL ==> Last(ns) in m
    ensures var m' := Appended(m, Last(ns), p);
      && NodeList(m', ns + [p])
      && Keeps(m, m', {p} + Just(Last(ns))) && m'.Keys == m.Keys
      && forall k :: 0 <= k <= NODE_SIZE * |ns| ==> Read(m', ns + [p], k) == Read(m, ns, k)
  {
    AppendLinked(m, ns, p);
    var m' := Appended(m, Last(ns), p);
    var ns' := ns + [p];
    forall i {:trigger m'[ns'[i]]} | 0 <= i < |ns'|
      ensures m'[ns'[i]].data == m[ns'[i]].data && |m'[ns'[i]].data| == NODE_SIZE
    {
      if i < |ns| { assert ns'[i] == ns[i]; }
    }
    forall j | 0 <= j < NODE_SIZE * |ns| ensures Slot(m', ns', j) == Slot(m, ns, j) {
      assert ns'[j / NODE_SIZE] == ns[j / NODE_SIZE];
    }
  }

  /** Writing one slot changes that slot alone. */
  lemma WriteSlot(m: Nodes, ns: seq<Ptr>, d: nat, e: Entry)
    requires NodeList(m, ns) && d < NODE_SIZE * |ns|
    ensures var p := ns[d / NODE_SIZE]; var m' := SetData(m, p, m[p].data[d % NODE_SIZE := e]);
      && NodeList(m', ns)
      && Keeps(m, m', {p}) && m'.Keys == m.Keys
      && Slot(m', ns, d) == e
      && forall k :: 0 <= k < NODE_SIZE * |ns| && k != d ==> Slot(m', ns, k) == Slot(m, ns, k)
  {
    var p := ns[d / NODE_SIZE];
    var m' := SetData(m, p, m[p].data[d % NODE_SIZE := e]);
    forall k | 0 <= k < NODE_SIZE * |ns| && k != d ensures Slot(m', ns, k) == Slot(m, ns, k) {
      if k / NODE_SIZE == d / NODE_SIZE {
        assert k % NODE_SIZE != d % NODE_SIZE;
      } else {
        assert Differ(ns, k / NODE_SIZE, d / NODE_SIZE);
      }
    }
  }

  /** Writing the slot behind the entries of a list with room for one more. */
  lemma StoreLast(m: Nodes, ns: seq<Ptr>, size: nat, e: Entry)
    requires NodeList(m, ns) && |ns| == NodesFor(size + 1)
    ensures ns != [] && Last(ns) == ns[size / NODE_SIZE]
    ensures var m' := SetData(m, Last(ns), m[Last(ns)].data[size % NODE_SIZE := e]);
      && NodeList(m', ns)
      && Keeps(m, m', {Last(ns)}) && m'.Keys == m.Keys
      && Read(m', ns, size + 1) == Read(m, ns, size) + [e]
  {
    WriteSlot(m, ns, size, e);
  }

  lemma NodesCover(size: nat, k: nat)
    ensures k <= size ==> NodesFor(k) <= NodesFor(size)
    ensures NodesFor(k) == k / NODE_SIZE + (if k % NODE_SIZE > 0 then 1 else 0)
  {
  }

  /** The memory after cutting a list before its k-th node and hanging the rest in
      front of a free list. */
  function Cut(m: Nodes, ns: seq<Ptr>, k: nat, free: Ptr): Nodes
    requires k < |ns| && Last(ns) in m && (k > 0 ==> ns[k - 1] in m)
  {
    var m1 := SetNext(m, Last(ns), free);
    if k > 0 then SetNext(m1, ns[k - 1], NULL) else m1
  }

  lemma CutKeeps(m: Nodes, ns: seq<Ptr>, k: nat, free: Ptr)
    requires NodeList(m, ns) && k < |ns|
    ensures Last(ns) in m && (k > 0 ==> ns[k - 1] in m)
    ensures Cut(m, ns, k, free).Keys == m.Keys
    ensures Keeps(m, Cut(m, ns, k, free), (set p | p in ns))
  {
    assert Last(ns) in ns && (k > 0 ==> ns[k - 1] in ns);
  }

  lemma CutAt(m: Nodes, ns: seq<Ptr>, k: nat, free: Ptr, i: nat)
    requires NodeList(m, ns) && k < |ns| && i < |ns|
    ensures Last(ns) in m && (k > 0 ==> ns[k - 1] in m)
    ensures var c := Cut(m, ns, k, free);
      && ns[i] in c && c[ns[i]].data == m[ns[i]].data && c[ns[i]].prev == m[ns[i]].prev
      && c[ns[i]].next == if i == k - 1 then NULL else if i == |ns| - 1 then free else m[ns[i]].next
  {
    assert i != |ns| - 1 ==> Differ(ns, i, |ns| - 1);
    assert 0 < k && i != k - 1 ==> Differ(ns, i, k - 1);
    assert 0 < k ==> Differ(ns, k - 1, |ns| - 1);
  }

  lemma CutFront(m: Nodes, ns: seq<Ptr>, k: nat, free: Ptr)
    requires NodeList(m, ns) && k < |ns|
    ensures Last(ns) in m && (k > 0 ==> ns[k - 1] in m)
    ensures NodeList(Cut(m, ns, k, free), ns[..k])
    ensures forall i :: 0 <= i <= NODE_SIZE * k ==> Read(Cut(m, ns, k, free), ns[..k], i) == Read(m, ns, i)
  {
    CutKeeps(m, ns, k, free);
    NoRepeatsTake(ns, k);
    var c := Cut(m, ns, k, free);
    var front := ns[..k];
    forall i {:trigger c[front[i]]} | 0 <= i < |front|
      ensures front[i] in c && c[front[i]].next == (if i + 1 < |front| then front[i + 1] else NULL)
      ensures c[front[i]].prev == (if i > 0 then front[i - 1] else NULL) && c[front[i]].data == m[ns[i]].data
    {
      CutAt(m, ns, k, free, i);
    }
    assert NodeList(c, front);
    forall j | 0 <= j < NODE_SIZE * k ensures Slot(c, front, j) == Slot(m, ns, j) {
      assert front[j / NODE_SIZE] == ns[j / NODE_SIZE];
    }
  }

  lemma CutRest(m: Nodes, ns: seq<Ptr>, k: nat, free: Ptr)
    requires NodeList(m, ns) && k < |ns|
    ensures Last(ns) in m && (k > 0 ==> ns[k - 1] in m)
    ensures var c := Cut(m, ns, k, free); Live(c, ns[k..]) && Nexts(c, ns[k..], free) && EightSlots(c, ns[k..])
  {
    CutKeeps(m, ns, k, free);
    NoRepeatsDrop(ns, k);
    var c := Cut(m, ns, k, free);
    var rest := ns[k..];
    forall i {:trigger c[rest[i]]} | 0 <= i < |rest|
      ensures rest[i] in c && c[rest[i]].next == (if i + 1 < |rest| then rest[i + 1] else free)
      ensures |c[rest[i]].data| == NODE_SIZE
    {
      CutAt(m, ns, k, free, k + i);
    }
  }

  lemma CutMembers(ns: seq<Ptr>, k: nat, spare: seq<Ptr>)
    requires k <= |ns| && NoRepeats(ns) && Disjoint(ns, spare)
    ensures Disjoint(ns[..k], ns[k..]) && Disjoint(ns[..k], ns[k..] + spare) && Disjoint(ns[k..], spare)
    ensures forall p :: p in ns[..k] || p in ns[k..] + spare <==> p in ns || p in spare
    ensures forall p :: p in ns[..k] ==> p in ns
    ensures NoRepeats(ns[..k]) && NoRepeats(ns[k..])
  {
    assert ns == ns[..k] + ns[k..];
    NoRepeatsConcat(ns[..k], ns[k..]);
    assert forall p :: p in ns[k..] ==> p in ns;
    forall p | p in ns[..k] ensures p in ns && p !in ns[k..] && p !in spare { assert p in ns; }
  }

  /** The nodes behind the cut, in front of the free list. */
  lemma CutToFree(m: Nodes, ns: seq<Ptr>, k: nat, spare: seq<Ptr>)
    requires NodeList(m, ns) && FreeList(m, spare) && Disjoint(ns, spare) && k < |ns|
    ensures Last(ns) in m && (k > 0 ==> ns[k - 1] in m)
    ensures FreeList(Cut(m, ns, k, First(spare)), ns[k..] + spare)
  {
    var c := Cut(m, ns, k, First(spare));
    CutKeeps(m, ns, k, First(spare));
    CutRest(m, ns, k, First(spare));
    CutMembers(ns, k, spare);
    assert forall p :: p in spare ==> p !in (set q | q in ns);
    KeepsFree(m, c, (set p | p in ns), spare);
    JoinChains(c, ns[k..], spare);
    EightSlotsConcat(c, ns[k..], spare);
  }

  lemma EightSlotsConcat(m: Nodes, a: seq<Ptr>, b: seq<Ptr>)
    requires Live(m, a) && Live(m, b) && Live(m, a + b) && EightSlots(m, a) && EightSlots(m, b)
    ensures EightSlots(m, a + b)
  {
    var all := a + b;
    forall i {:trigger m[all[i]]} | 0 <= i < |all| ensures |m[all[i]].data| == NODE_SIZE {
      assert all[i] == if i < |a| then a[i] else b[i - |a|];
    }
  }

  // --------------------------------------------------------------------------
  // Splitting a bin in place
  // --------------------------------------------------------------------------

  /** A cursor of the split: a node and an index inside it. */
  datatype Cursor = Cursor(node: Ptr, index: nat)

  /** The cursor stands at slot j; behind the last node it holds NULL. */
  ghost predicate At(p: Cursor, ns: seq<Ptr>, j: nat) {
    p.node == NodeAt(ns, j) && p.index == j % NODE_SIZE
  }

  /** To the next slot, and to the next node behind the last slot. */
  function Advance(m: Nodes, p: Cursor): Cursor
    requires p.node in m
  {
    if p.index + 1 >= NODE_SIZE then Cursor(m[p.node].next, 0) else p.(index := p.index + 1)
  }

  lemma AdvanceAt(m: Nodes, ns: seq<Ptr>, p: Cursor, j: nat)
    requires Chain(m, ns) && At(p, ns, j) && j < NODE_SIZE * |ns|
    ensures p.node in m && p.node in ns && At(Advance(m, p), ns, j + 1)
  {
    assert m[ns[j / NODE_SIZE]].next == if j / NODE_SIZE + 1 < |ns| then ns[j / NODE_SIZE + 1] else NULL;
  }

  /** Halfway through a split: the first slots hold the entries kept so far, and the
      slots behind them have not been touched. */
  ghost predicate Splitting(m: Nodes, ns: seq<Ptr>, es: seq<Entry>, kept: seq<Entry>, j: nat) {
    && NodeList(m, ns) && |ns| == NodesFor(|es|) && |kept| <= j <= |es|
    && (forall k :: 0 <= k < |kept| ==> Slot(m, ns, k) == kept[k])
    && (forall k :: |kept| <= k < |es| ==> Slot(m, ns, k) == es[k])
  }

  lemma KeepsSplitting(m: Nodes, m': Nodes, changed: set<Ptr>, ns: seq<Ptr>, es: seq<Entry>, kept: seq<Entry>, j: nat)
    requires Keeps(m, m', changed) && (forall p :: p in ns ==> p !in changed) && Splitting(m, ns, es, kept, j)
    ensures Splitting(m', ns, es, kept, j)
  {
    KeepsLists(m, m', changed, ns);
    forall i {:trigger m'[ns[i]]} | 0 <= i < |ns| ensures m'[ns[i]] == m[ns[i]] { assert ns[i] in ns; }
    assert EightSlots(m', ns);
  }

  /** The memory after copying the entry under src to dst, when they differ. */
  function Copied(m: Nodes, src: Cursor, dst: Cursor): Nodes
    requires src.node in m && dst.node in m && src.index < |m[src.node].data| && dst.index < |m[dst.node].data|
  {
    if src.index != dst.index || src.node != dst.node
    then SetData(m, dst.node, m[dst.node].data[dst.index := m[src.node].data[src.index]])
    else m
  }

  /** The read cursor sees the next entry. */
  lemma EntryUnder(m: Nodes, ns: seq<Ptr>, es: seq<Entry>, kept: seq<Entry>, j: nat, src: Cursor)
    requires Splitting(m, ns, es, kept, j) && j < |es| && At(src, ns, j)
    ensures src.node in ns && src.node in m && src.index < |m[src.node].data| && m[src.node].data[src.index] == es[j]
  {
    AdvanceAt(m, ns, src, j);
    assert m[src.node].data[src.index] == Slot(m, ns, j);
  }

  /** A kept entry goes to the write cursor, which is never ahead of the read cursor. */
  lemma KeepStep(m: Nodes, ns: seq<Ptr>, es: seq<Entry>, kept: seq<Entry>, j: nat, src: Cursor, dst: Cursor)
    requires Splitting(m, ns, es, kept, j) && j < |es| && At(src, ns, j) && At(dst, ns, |kept|)
    ensures src.node in ns && dst.node in ns && src.node in m && dst.node in m
    ensures src.index < |m[src.node].data| && dst.index < |m[dst.node].data|
    ensures m[src.node].data[src.index] == es[j]
    ensures Splitting(Copied(m, src, dst), ns, es, kept + [es[j]], j + 1)
    ensures Keeps(m, Copied(m, src, dst), {dst.node}) && Copied(m, src, dst).Keys == m.Keys
  {
    AdvanceAt(m, ns, src, j);
    AdvanceAt(m, ns, dst, |kept|);
    assert m[src.node].data[src.index] == Slot(m, ns, j);
    WriteSlot(m, ns, |kept|, es[j]);
  }

  lemma SplitNext(es: seq<Entry>, j: nat, c: nat)
    requires j < |es| && c > 0
    ensures Kept(es[..j + 1], c) == Kept(es[..j], c) + (if SplitBit(es[j].hash, c) then [] else [es[j]])
    ensures Moved(es[..j + 1], c) == Moved(es[..j], c) + (if SplitBit(es[j].hash, c) then [es[j]] else [])
  {
    assert es[..j + 1][..j] == es[..j];
  }

  /** The state of a split after j entries: the source nodes, the bin that receives the
      moved entries, and the free list. */
  ghost predicate SplitState(m: Nodes, ns: seq<Ptr>, y: Bin, ys: seq<Ptr>, spare: seq<Ptr>, es: seq<Entry>, c: nat, j: nat)
    requires c > 0 && j <= |es|
  {
    && Splitting(m, ns, es, Kept(es[..j], c), j)
    && IsBin(m, y, ys) && Entries(m, y, ys) == Moved(es[..j], c)
    && FreeList(m, spare)
    && Disjoint(ns, ys) && Disjoint(ns, spare) && Disjoint(ys, spare)
  }

  // How long the free list is follows from the entries alone.

  /** What is left of a free list that nodes are taken from. */
  function Left(free: int, taken: nat): int {
    if taken <= free then free - taken else 0
  }

  /** The length of the free list after a bin with the entries es was split. */
  function FreeAfter(free: int, es: seq<Entry>, c: nat): int
    requires c > 0
  {
    Left(free, NodesFor(|Moved(es, c)|)) + NodesFor(|es|) - NodesFor(|Kept(es, c)|)
  }

  /** Entry j of a bin goes to the new bin and needs a node there. */
  predicate NeedsNode(es: seq<Entry>, c: nat, j: nat)
    requires c > 0 && j < |es|
  {
    SplitBit(es[j].hash, c) && |Moved(es[..j], c)| % NODE_SIZE == 0
  }

  /** The split of a bin calls malloc for entry j: the free list is used up by then. */
  predicate CallsMalloc(es: seq<Entry>, c: nat, free: int, j: nat)
    requires c > 0 && j < |es|
  {
    NeedsNode(es, c, j) && free <= NodesFor(|Moved(es[..j], c)|)
  }

  /** The length of the free list after i bins of a table were split. */
  function FreeAt(t: Table, i: nat): int
    requires i <= |t|
  {
    if i == 0 then 0 else FreeAfter(FreeAt(t, i - 1), t[i - 1], |t|)
  }

  lemma FreeNext(t: Table, i: nat)
    requires i < |t|
    ensures FreeAt(t, i + 1) == FreeAfter(FreeAt(t, i), t[i], |t|)
  {
  }

  /** A growth of t calls malloc for entry j of bin i. */
  predicate MallocAt(t: Table, i: nat, j: nat)
    requires i < |t| && j < |t[i]|
  {
    CallsMalloc(t[i], |t|, FreeAt(t, i), j)
  }

  /** A bin whose split was interrupted at entry j: the kept entries in front, and what
      they did not overwrite behind them. */
  ghost function TornBin(es: seq<Entry>, c: nat, j: nat): seq<Entry>
    requires c > 0 && j <= |es|
  {
    SplitCounts(es[..j], c);
    Kept(es[..j], c) + es[|Kept(es[..j], c)|..]
  }

  lemma TornIs(m: Nodes, x: Bin, ns: seq<Ptr>, es: seq<Entry>, c: nat, j: nat)
    requires c > 0 && j <= |es| && Splitting(m, ns, es, Kept(es[..j], c), j)
    requires x.size == |es| && x.head == First(ns) && x.tail == Last(ns)
    ensures IsBin(m, x, ns) && Entries(m, x, ns) == TornBin(es, c, j)
  {
  }

  /** A kept entry leaves the receiving bin and the free list alone. */
  lemma KeepOthers(m: Nodes, m': Nodes, p: Ptr, y: Bin, ys: seq<Ptr>, spare: seq<Ptr>)
    requires Keeps(m, m', {p}) && p !in ys && p !in spare && IsBin(m, y, ys) && FreeList(m, spare)
    ensures IsBin(m', y, ys) && Entries(m', y, ys) == Entries(m, y, ys) && FreeList(m', spare)
  {
    KeepsBin(m, m', {p}, y, ys);
    KeepsFree(m, m', {p}, spare);
  }

  lemma KeepState(m: Nodes, ns: seq<Ptr>, y: Bin, ys: seq<Ptr>, spare: seq<Ptr>, es: seq<Entry>, c: nat, j: nat,
                  src: Cursor, dst: Cursor)
    requires c > 0 && j < |es| && SplitState(m, ns, y, ys, spare, es, c, j)
    requires At(src, ns, j) && At(dst, ns, |Kept(es[..j], c)|) && !SplitBit(es[j].hash, c)
    ensures src.node in m && dst.node in m && src.index < |m[src.node].data| && dst.index < |m[dst.node].data|
    ensures dst.node in ns && dst.node in Copied(m, src, dst)
    ensures SplitState(Copied(m, src, dst), ns, y, ys, spare, es, c, j + 1)
  {
    KeepStep(m, ns, es, Kept(es[..j], c), j, src, dst);
    SplitNext(es, j, c);
    KeepOthers(m, Copied(m, src, dst), dst.node, y, ys, spare);
  }

  // --------------------------------------------------------------------------
  // All the bins of a container
  // --------------------------------------------------------------------------

  ghost predicate BinAt(m: Nodes, bins: seq<Bin>, lists: seq<seq<Ptr>>, b: int)
    requires |bins| == |lists| && 0 <= b < |bins|
  {
    IsBin(m, bins[b], lists[b])
  }

  ghost predicate AllBins(m: Nodes, bins: seq<Bin>, lists: seq<seq<Ptr>>) {
    |bins| == |lists| && forall b {:trigger BinAt(m, bins, lists, b)} :: 0 <= b < |bins| ==> BinAt(m, bins, lists, b)
  }

  ghost function EntriesAt(m: Nodes, bins: seq<Bin>, lists: seq<seq<Ptr>>, b: int): seq<Entry>
    requires AllBins(m, bins, lists) && 0 <= b < |bins|
  {
    assert BinAt(m, bins, lists, b);
    Entries(m, bins[b], lists[b])
  }

  ghost function TableOf(m: Nodes, bins: seq<Bin>, lists: seq<seq<Ptr>>): (t: Table)
    requires AllBins(m, bins, lists)
    ensures |t| == |bins| && forall b :: 0 <= b < |bins| ==> t[b] == EntriesAt(m, bins, lists, b)
  {
    seq(|bins|, b requires 0 <= b < |bins| => EntriesAt(m, bins, lists, b))
  }

  /** Nodes that malloc handed out and no list holds any more. */
  ghost function Leaked(m: Nodes, lists: seq<seq<Ptr>>, spare: seq<Ptr>): set<Ptr> {
    set p | p in m && !Owned(lists, p) && p !in spare
  }

  lemma KeepsBinAt(m: Nodes, m': Nodes, changed: set<Ptr>, bins: seq<Bin>, lists: seq<seq<Ptr>>, b: nat)
    requires AllBins(m, bins, lists) && b < |bins|
    requires Keeps(m, m', changed) && (forall p :: p in lists[b] ==> p !in changed)
    ensures IsBin(m', bins[b], lists[b]) && Entries(m', bins[b], lists[b]) == EntriesAt(m, bins, lists, b)
  {
    assert BinAt(m, bins, lists, b);
    KeepsBin(m, m', changed, bins[b], lists[b]);
  }

  lemma TableIs(m: Nodes, bins: seq<Bin>, lists: seq<seq<Ptr>>, t: Table)
    requires AllBins(m, bins, lists) && |t| == |bins|
    requires forall b :: 0 <= b < |bins| ==> t[b] == EntriesAt(m, bins, lists, b)
    ensures TableOf(m, bins, lists) == t
  {
  }

  /** Empty bins added behind the others own nothing. */
  lemma MoreBins(m: Nodes, bins: seq<Bin>, lists: seq<seq<Ptr>>, n: nat, spare: seq<Ptr>)
    requires AllBins(m, bins, lists) && Apart(lists, spare)
    ensures var bins' := bins + seq(n, _ => Bin(0, NULL, NULL)); var lists' := lists + seq(n, _ => []);
      && AllBins(m, bins', lists') && Apart(lists', spare)
      && Leaked(m, lists', spare) == Leaked(m, lists, spare)
      && TableOf(m, bins', lists') == TableOf(m, bins, lists) + seq(n, _ => [])
  {
    var bins', lists' := bins + seq(n, _ => Bin(0, NULL, NULL)), lists + seq(n, _ => []);
    forall b | 0 <= b < |bins'| ensures BinAt(m, bins', lists', b) {
      if b < |bins| { assert BinAt(m, bins, lists, b); }
    }
    forall b, c | 0 <= b < |lists'| && 0 <= c < |lists'| && b != c ensures ApartAt(lists', b, c) {
      if b < |lists| && c < |lists| { assert ApartAt(lists, b, c); }
    }
    forall b | 0 <= b < |lists'| ensures SpareAt(lists', spare, b) {
      if b < |lists| { assert SpareAt(lists, spare, b); }
    }
    forall p ensures Owned(lists', p) <==> Owned(lists, p) {
      if Owned(lists, p) {
        var b :| 0 <= b < |lists| && p in lists[b];
        assert p in lists'[b];
      }
    }
  }

  // The next lemmas are one round of the loop over the bins: bin i becomes (x, ns), bin
  // y gets (z, ys), the free list becomes spare2.

  ghost predicate Round(m1: Nodes, m2: Nodes, lists: seq<seq<Ptr>>, spare1: seq<Ptr>, i: nat, y: nat,
                        ns: seq<Ptr>, ys: seq<Ptr>, spare2: seq<Ptr>) {
    && i < |lists| && y < |lists| && i != y && lists[y] == []
    && Apart(lists, spare1)
    && (forall b :: 0 <= b < |lists| ==> forall p :: p in lists[b] ==> p in m1)
    && Transferred(m1, m2, lists[i], spare1, ns, ys, spare2)
    && Disjoint(ns, ys) && Disjoint(ns, spare2) && Disjoint(ys, spare2)
  }

  /** What a split does with the nodes: those of the bin and of the free list end up in
      the two bins or in the free list, and only the new bin gets fresh ones. */
  ghost predicate Transferred(m0: Nodes, m: Nodes, ns: seq<Ptr>, spare: seq<Ptr>, ns': seq<Ptr>, ys: seq<Ptr>, spare': seq<Ptr>) {
    && (forall p :: p in ns || p in spare ==> p in ns' || p in ys || p in spare')
    && (forall p :: p in ns' || p in ys || p in spare' ==> p in ns || p in spare || p !in m0)
    && Keeps(m0, m, Members(ns) + Members(spare))
    && m.Keys == m0.Keys + Members(ys)
  }

  lemma RoundOther(m1: Nodes, m2: Nodes, lists: seq<seq<Ptr>>, spare1: seq<Ptr>, i: nat, y: nat,
                   ns: seq<Ptr>, ys: seq<Ptr>, spare2: seq<Ptr>, b: nat)
    requires Round(m1, m2, lists, spare1, i, y, ns, ys, spare2)
    requires b < |lists| && b != i && b != y
    ensures Disjoint(lists[b], ns) && Disjoint(lists[b], ys) && Disjoint(lists[b], spare2)
    ensures Disjoint(ns, lists[b]) && Disjoint(ys, lists[b])
    ensures forall p :: p in lists[b] ==> p !in Members(lists[i]) + Members(spare1)
  {
    assert ApartAt(lists, b, i) && SpareAt(lists, spare1, b);
  }

  lemma RoundApart(m1: Nodes, m2: Nodes, lists: seq<seq<Ptr>>, spare1: seq<Ptr>, i: nat, y: nat,
                   ns: seq<Ptr>, ys: seq<Ptr>, spare2: seq<Ptr>)
    requires Round(m1, m2, lists, spare1, i, y, ns, ys, spare2)
    ensures Apart(lists[i := ns][y := ys], spare2)
  {
    var l2 := lists[i := ns][y := ys];
    assert l2[i] == ns && l2[y] == ys;
    forall b, c | 0 <= b < |l2| && 0 <= c < |l2| && b != c ensures ApartAt(l2, b, c) {
      if b != i && b != y { RoundOther(m1, m2, lists, spare1, i, y, ns, ys, spare2, b); }
      if c != i && c != y { RoundOther(m1, m2, lists, spare1, i, y, ns, ys, spare2, c); }
      if b != i && b != y && c != i && c != y { assert ApartAt(lists, b, c); }
    }
    forall b | 0 <= b < |l2| ensures SpareAt(l2, spare2, b) {
      if b != i && b != y { RoundOther(m1, m2, lists, spare1, i, y, ns, ys, spare2, b); }
    }
  }

  lemma RoundLeaked(m1: Nodes, m2: Nodes, lists: seq<seq<Ptr>>, spare1: seq<Ptr>, i: nat, y: nat,
                    ns: seq<Ptr>, ys: seq<Ptr>, spare2: seq<Ptr>)
    requires Round(m1, m2, lists, spare1, i, y, ns, ys, spare2)
    ensures Leaked(m2, lists[i := ns][y := ys], spare2) == Leaked(m1, lists, spare1)
  {
    var l2 := lists[i := ns][y := ys];
    assert l2[i] == ns && l2[y] == ys;
    forall p ensures p in Leaked(m2, l2, spare2) <==> p in Leaked(m1, lists, spare1) {
      if Owned(l2, p) {
        var b :| 0 <= b < |l2| && p in l2[b];
        assert b == i || b == y || p in lists[b];
      }
      if Owned(lists, p) {
        var b :| 0 <= b < |lists| && p in lists[b];
        assert b != i && b != y ==> p in l2[b];
        assert b == i ==> p in l2[i] || p in l2[y] || p in spare2;
        if b != i && b != y { RoundOther(m1, m2, lists, spare1, i, y, ns, ys, spare2, b); }
      }
    }
  }

  lemma RoundBins(m1: Nodes, m2: Nodes, bins: seq<Bin>, lists: seq<seq<Ptr>>, spare1: seq<Ptr>, i: nat, y: nat,
                  x: Bin, z: Bin, ns: seq<Ptr>, ys: seq<Ptr>, spare2: seq<Ptr>)
    requires Round(m1, m2, lists, spare1, i, y, ns, ys, spare2)
    requires AllBins(m1, bins, lists) && IsBin(m2, x, ns) && IsBin(m2, z, ys)
    ensures AllBins(m2, bins[i := x][y := z], lists[i := ns][y := ys])
    ensures TableOf(m2, bins[i := x][y := z], lists[i := ns][y := ys])
         == TableOf(m1, bins, lists)[i := Entries(m2, x, ns)][y := Entries(m2, z, ys)]
  {
    var bins', lists' := bins[i := x][y := z], lists[i := ns][y := ys];
    forall b | 0 <= b < |bins| && b != i && b != y
      ensures IsBin(m2, bins[b], lists[b]) && Entries(m2, bins[b], lists[b]) == EntriesAt(m1, bins, lists, b)
    {
      RoundOther(m1, m2, lists, spare1, i, y, ns, ys, spare2, b);
      KeepsBinAt(m1, m2, Members(lists[i]) + Members(spare1), bins, lists, b);
    }
    forall b | 0 <= b < |bins'| ensures BinAt(m2, bins', lists', b) { }
    TableIs(m2, bins', lists', TableOf(m1, bins, lists)[i := Entries(m2, x, ns)][y := Entries(m2, z, ys)]);
  }

  /** Giving the free list back to the system. */
  lemma FreeRestOfList(m: Nodes, bins: seq<Bin>, lists: seq<seq<Ptr>>, spare: seq<Ptr>)
    requires AllBins(m, bins, lists) && Apart(lists, spare)
    ensures var m' := m - Members(spare);
      AllBins(m', bins, lists) && TableOf(m', bins, lists) == TableOf(m, bins, lists)
      && Leaked(m', lists, []) == Leaked(m, lists, spare)
  {
    var m' := m - Members(spare);
    forall b | 0 <= b < |bins|
      ensures BinAt(m', bins, lists, b) && Entries(m', bins[b], lists[b]) == EntriesAt(m, bins, lists, b)
    {
      assert SpareAt(lists, spare, b);
      KeepsBinAt(m, m', Members(spare), bins, lists, b);
    }
    TableIs(m', bins, lists, TableOf(m, bins, lists));
  }

  /** The state of a growth after i bins of t were split. */
  ghost predicate SplitLoop(m: Nodes, bins: seq<Bin>, lists: seq<seq<Ptr>>, spare: seq<Ptr>, t: Table, i: nat, lost: set<Ptr>) {
    && 0 < |t| && i <= |t| && |bins| == 2 * |t|
    && AllBins(m, bins, lists) && TableOf(m, bins, lists) == SplitUpTo(t, i, false)
    && Apart(lists, spare) && FreeList(m, spare) && Leaked(m, lists, spare) == lost
    && EmptyFrom(bins, lists, |t| + i)
  }

  ghost predicate EmptyAt(bins: seq<Bin>, lists: seq<seq<Ptr>>, y: int)
    requires 0 <= y < |bins| == |lists|
  {
    bins[y] == Bin(0, NULL, NULL) && lists[y] == []
  }

  ghost predicate EmptyFrom(bins: seq<Bin>, lists: seq<seq<Ptr>>, from: nat) {
    |bins| == |lists| && forall y {:trigger EmptyAt(bins, lists, y)} :: from <= y < |bins| ==> EmptyAt(bins, lists, y)
  }

  lemma StillEmpty(bins: seq<Bin>, lists: seq<seq<Ptr>>, i: nat, from: nat, x: Bin, z: Bin, ns: seq<Ptr>, ys: seq<Ptr>)
    requires i < from < |bins| && EmptyFrom(bins, lists, from)
    ensures lists[from] == [] && EmptyFrom(bins[i := x][from := z], lists[i := ns][from := ys], from + 1)
  {
    assert EmptyAt(bins, lists, from);
    var bins', lists' := bins[i := x][from := z], lists[i := ns][from := ys];
    forall y | from + 1 <= y < |bins'| ensures EmptyAt(bins', lists', y) { assert EmptyAt(bins, lists, y); }
  }

  lemma SplitBegins(m: Nodes, bins: seq<Bin>, lists: seq<seq<Ptr>>, t: Table)
    requires AllBins(m, bins, lists) && Apart(lists, []) && t == TableOf(m, bins, lists) && |t| > 0
    ensures SplitLoop(m, bins + seq(|t|, _ => Bin(0, NULL, NULL)), lists + seq(|t|, _ => []), [], t, 0, Leaked(m, lists, []))
  {
    MoreBins(m, bins, lists, |t|, []);
    NothingSplit(t, false);
    var bins', lists' := bins + seq(|t|, _ => Bin(0, NULL, NULL)), lists + seq(|t|, _ => []);
    forall y | |t| <= y < |bins'| ensures EmptyAt(bins', lists', y) { }
  }

  lemma SplitBinIs(m: Nodes, bins: seq<Bin>, lists: seq<seq<Ptr>>, spare: seq<Ptr>, t: Table, i: nat, lost: set<Ptr>)
    requires SplitLoop(m, bins, lists, spare, t, i, lost) && i < |t|
    ensures IsBin(m, bins[i], lists[i]) && Entries(m, bins[i], lists[i]) == t[i]
    ensures bins[|t| + i] == Bin(0, NULL, NULL) && lists[|t| + i] == [] && Disjoint(lists[i], spare)
  {
    assert BinAt(m, bins, lists, i) && SpareAt(lists, spare, i) && EmptyAt(bins, lists, |t| + i);
    assert TableOf(m, bins, lists)[i] == HalfOf(t, i, i, false);
  }

  lemma SplitRound(m1: Nodes, m2: Nodes, bins: seq<Bin>, lists: seq<seq<Ptr>>, spare1: seq<Ptr>, t: Table, i: nat, lost: set<Ptr>,
                   x: Bin, z: Bin, ns: seq<Ptr>, ys: seq<Ptr>, spare2: seq<Ptr>)
    requires SplitLoop(m1, bins, lists, spare1, t, i, lost) && i < |t|
    requires IsBin(m2, x, ns) && Entries(m2, x, ns) == Kept(t[i], |t|)
    requires IsBin(m2, z, ys) && Entries(m2, z, ys) == Moved(t[i], |t|)
    requires Transferred(m1, m2, lists[i], spare1, ns, ys, spare2) && FreeList(m2, spare2)
    requires Disjoint(ns, ys) && Disjoint(ns, spare2) && Disjoint(ys, spare2)
    ensures SplitLoop(m2, bins[i := x][|t| + i := z], lists[i := ns][|t| + i := ys], spare2, t, i + 1, lost)
  {
    var bins', lists' := bins[i := x][|t| + i := z], lists[i := ns][|t| + i := ys];
    StillEmpty(bins, lists, i, |t| + i, x, z, ns, ys);
    RoundTable(m1, m2, bins, lists, spare1, i, |t| + i, x, z, ns, ys, spare2);
    SplitTables.RoundTable(TableOf(m1, bins, lists), TableOf(m2, bins', lists'), t, i, false, Entries(m2, x, ns), Entries(m2, z, ys));
  }

  lemma RoundTable(m1: Nodes, m2: Nodes, bins: seq<Bin>, lists: seq<seq<Ptr>>, spare1: seq<Ptr>, i: nat, y: nat,
                   x: Bin, z: Bin, ns: seq<Ptr>, ys: seq<Ptr>, spare2: seq<Ptr>)
    requires AllBins(m1, bins, lists) && Apart(lists, spare1) && i < |lists| && y < |lists| && i != y && lists[y] == []
    requires IsBin(m2, x, ns) && IsBin(m2, z, ys) && Transferred(m1, m2, lists[i], spare1, ns, ys, spare2)
    requires Disjoint(ns, ys) && Disjoint(ns, spare2) && Disjoint(ys, spare2)
    ensures AllBins(m2, bins[i := x][y := z], lists[i := ns][y := ys])
    ensures Apart(lists[i := ns][y := ys], spare2)
    ensures Leaked(m2, lists[i := ns][y := ys], spare2) == Leaked(m1, lists, spare1)
    ensures TableOf(m2, bins[i := x][y := z], lists[i := ns][y := ys])
         == TableOf(m1, bins, lists)[i := Entries(m2, x, ns)][y := Entries(m2, z, ys)]
  {
    AllLive(m1, bins, lists);
    RoundApart(m1, m2, lists, spare1, i, y, ns, ys, spare2);
    RoundLeaked(m1, m2, lists, spare1, i, y, ns, ys, spare2);
    RoundBins(m1, m2, bins, lists, spare1, i, y, x, z, ns, ys, spare2);
  }

  /** What an interrupted growth leaves: i bins split, the next one torn at entry j. */
  ghost function TornTable(t: Table, i: nat, j: nat): Table
    requires i < |t| && j < |t[i]|
  {
    SplitUpTo(t, i, false)[i := TornBin(t[i], |t|, j)][|t| + i := Moved(t[i][..j], |t|)]
  }

  ghost predicate TornLoop(m: Nodes, bins: seq<Bin>, lists: seq<seq<Ptr>>, spare: seq<Ptr>, t: Table, i: nat, j: nat, lost: set<Ptr>) {
    && i < |t| && j < |t[i]| && |bins| == 2 * |t| && MallocAt(t, i, j)
    && AllBins(m, bins, lists) && TableOf(m, bins, lists) == TornTable(t, i, j)
    && Apart(lists, spare) && Leaked(m, lists, spare) == lost
  }

  lemma TornRound(m1: Nodes, m2: Nodes, bins: seq<Bin>, lists: seq<seq<Ptr>>, spare1: seq<Ptr>, t: Table, i: nat, j: nat, lost: set<Ptr>,
                  x: Bin, z: Bin, ns: seq<Ptr>, ys: seq<Ptr>, spare2: seq<Ptr>)
    requires SplitLoop(m1, bins, lists, spare1, t, i, lost) && i < |t| && j < |t[i]| && MallocAt(t, i, j)
    requires IsBin(m2, x, ns) && Entries(m2, x, ns) == TornBin(t[i], |t|, j)
    requires IsBin(m2, z, ys) && Entries(m2, z, ys) == Moved(t[i][..j], |t|)
    requires Transferred(m1, m2, lists[i], spare1, ns, ys, spare2)
    requires Disjoint(ns, ys) && Disjoint(ns, spare2) && Disjoint(ys, spare2)
    ensures TornLoop(m2, bins[i := x][|t| + i := z], lists[i := ns][|t| + i := ys], spare2, t, i, j, lost)
  {
    StillEmpty(bins, lists, i, |t| + i, x, z, ns, ys);
    RoundTable(m1, m2, bins, lists, spare1, i, |t| + i, x, z, ns, ys, spare2);
  }

  /** A round of the growth, whether it was interrupted or not. */
  lemma RoundEnds(ok: bool, m1: Nodes, m2: Nodes, bins: seq<Bin>, lists: seq<seq<Ptr>>, bins': seq<Bin>, lists': seq<seq<Ptr>>,
                  spare1: seq<Ptr>, t: Table, i: nat, j: nat, lost: set<Ptr>, x: Bin, z: Bin, ns: seq<Ptr>, ys: seq<Ptr>, spare2: seq<Ptr>)
    requires SplitLoop(m1, bins, lists, spare1, t, i, lost) && i < |t| && IsBin(m2, x, ns) && IsBin(m2, z, ys)
    requires ok ==> Entries(m2, x, ns) == Kept(t[i], |t|) && Entries(m2, z, ys) == Moved(t[i], |t|)
    requires !ok ==> j < |t[i]| && MallocAt(t, i, j)
    requires !ok ==> Entries(m2, x, ns) == TornBin(t[i], |t|, j) && Entries(m2, z, ys) == Moved(t[i][..j], |t|)
    requires Transferred(m1, m2, lists[i], spare1, ns, ys, spare2) && FreeList(m2, spare2)
    requires Disjoint(ns, ys) && Disjoint(ns, spare2) && Disjoint(ys, spare2)
    requires bins' == bins[i := x][|t| + i := z] && lists' == lists[i := ns][|t| + i := ys]
    ensures ok ==> SplitLoop(m2, bins', lists', spare2, t, i + 1, lost)
    ensures !ok ==> TornLoop(m2, bins', lists', spare2, t, i, j, lost)
  {
    if ok {
      SplitRound(m1, m2, bins, lists, spare1, t, i, lost, x, z, ns, ys, spare2);
    } else {
      TornRound(m1, m2, bins, lists, spare1, t, i, j, lost, x, z, ns, ys, spare2);
    }
  }

  lemma TornFreed(m: Nodes, bins: seq<Bin>, lists: seq<seq<Ptr>>, spare: seq<Ptr>, t: Table, i: nat, j: nat, lost: set<Ptr>)
    requires TornLoop(m, bins, lists, spare, t, i, j, lost)
    ensures TornLoop(m - Members(spare), bins, lists, [], t, i, j, lost)
  {
    FreeRestOfList(m, bins, lists, spare);
    forall b, c | 0 <= b < |lists| && 0 <= c < |lists| && b != c ensures ApartAt(lists, b, c) { }
    forall b | 0 <= b < |lists| ensures SpareAt(lists, [], b) { }
  }

  lemma AllLive(m: Nodes, bins: seq<Bin>, lists: seq<seq<Ptr>>)
    requires AllBins(m, bins, lists)
    ensures forall b :: 0 <= b < |lists| ==> forall p :: p in lists[b] ==> p in m
  {
    forall b | 0 <= b < |lists| ensures forall p :: p in lists[b] ==> p in m { assert BinAt(m, bins, lists, b); }
  }

  // --------------------------------------------------------------------------
  // Changing one bin
  // --------------------------------------------------------------------------

  /** The nodes ns of a bin became ns': of these only fresh ones are new, and nothing
      outside the bin changed. */
  ghost predicate Rewritten(m1: Nodes, m2: Nodes, ns: seq<Ptr>, ns': seq<Ptr>) {
    && (forall p :: p in ns' ==> p in ns || p !in m1)
    && Keeps(m1, m2, Members(ns))
    && m2.Keys == m1.Keys + Members(ns')
  }

  lemma OneBinLeaked(m1: Nodes, m2: Nodes, lists: seq<seq<Ptr>>, b: nat, ns': seq<Ptr>)
    requires Apart(lists, []) && b < |lists| && Rewritten(m1, m2, lists[b], ns')
    requires forall c :: 0 <= c < |lists| ==> forall p :: p in lists[c] ==> p in m1
    ensures Leaked(m2, lists[b := ns'], []) == Leaked(m1, lists, []) + (Members(lists[b]) - Members(ns'))
  {
    var l2 := lists[b := ns'];
    assert l2[b] == ns';
    forall p ensures p in Leaked(m2, l2, []) <==> p in Leaked(m1, lists, []) + (Members(lists[b]) - Members(ns')) {
      if Owned(l2, p) {
        var c :| 0 <= c < |l2| && p in l2[c];
        if c != b { assert p in lists[c] && ApartAt(lists, c, b); }
      }
      if Owned(lists, p) {
        var c :| 0 <= c < |lists| && p in lists[c];
        assert c == b || p in l2[c];
      }
    }
  }

  /** A bin that was rewritten leaves the other bins alone. */
  lemma OneBin(m1: Nodes, m2: Nodes, bins: seq<Bin>, lists: seq<seq<Ptr>>, b: nat, x: Bin, ns': seq<Ptr>)
    requires AllBins(m1, bins, lists) && Apart(lists, []) && b < |bins|
    requires IsBin(m2, x, ns') && Rewritten(m1, m2, lists[b], ns')
    ensures AllBins(m2, bins[b := x], lists[b := ns']) && Apart(lists[b := ns'], [])
    ensures TableOf(m2, bins[b := x], lists[b := ns']) == TableOf(m1, bins, lists)[b := Entries(m2, x, ns')]
    ensures Leaked(m2, lists[b := ns'], []) == Leaked(m1, lists, []) + (Members(lists[b]) - Members(ns'))
  {
    AllLive(m1, bins, lists);
    OneBinApart(m1, lists, b, ns');
    OneBinLeaked(m1, m2, lists, b, ns');
    var bins', lists' := bins[b := x], lists[b := ns'];
    forall c | 0 <= c < |bins| && c != b
      ensures IsBin(m2, bins[c], lists[c]) && Entries(m2, bins[c], lists[c]) == EntriesAt(m1, bins, lists, c)
    {
      assert ApartAt(lists, c, b);
      KeepsBinAt(m1, m2, Members(lists[b]), bins, lists, c);
    }
    forall c | 0 <= c < |bins'| ensures BinAt(m2, bins', lists', c) { }
    TableIs(m2, bins', lists', TableOf(m1, bins, lists)[b := Entries(m2, x, ns')]);
  }

  /** The effect of an appended entry, and where it is. */
  lemma OneBinAppended(m1: Nodes, m2: Nodes, bins: seq<Bin>, lists: seq<seq<Ptr>>, b: nat, x: Bin, ns': seq<Ptr>, e: Entry)
    requires AllBins(m1, bins, lists) && Apart(lists, []) && b < |bins|
    requires IsBin(m2, x, ns') && Rewritten(m1, m2, lists[b], ns') && Members(lists[b]) <= Members(ns')
    requires Entries(m2, x, ns') == EntriesAt(m1, bins, lists, b) + [e]
    ensures var bins' := bins[b := x]; var lists' := lists[b := ns'];
      && AllBins(m2, bins', lists') && Apart(lists', [])
      && TableOf(m2, bins', lists') == Added(TableOf(m1, bins, lists), b, e)
      && Leaked(m2, lists', []) == Leaked(m1, lists, [])
      && Stands(m2, bins', lists', Cursor(x.tail, (x.size - 1) % NODE_SIZE), b, x.size - 1)
  {
    OneBin(m1, m2, bins, lists, b, x, ns');
    assert x.size == |Entries(m2, x, ns')|;
    assert (x.size - 1) / NODE_SIZE == |ns'| - 1;
  }

  // --------------------------------------------------------------------------
  // Filling the hole of a removed entry
  // --------------------------------------------------------------------------

  /** The loop of remove: the memory, and the slot to fill. */
  datatype Hole = Hole(m: Nodes, node: Ptr, index: nat)

  ghost predicate Fillable(h: Hole, src: Ptr, last: nat) {
    && h.node in h.m && src in h.m && h.index < |h.m[h.node].data| && last < |h.m[src].data| == NODE_SIZE
  }

  function SourceIndex(m: Nodes, src: Ptr, last: nat): nat
    requires src in m
  {
    if m[src].next != NULL then NODE_SIZE - 1 else last
  }

  /** The body of the loop. It does not change src. */
  function Pull(h: Hole, src: Ptr, last: nat): Hole
    requires Fillable(h, src, last)
  {
    var i := SourceIndex(h.m, src, last);
    Hole(SetData(h.m, h.node, h.m[h.node].data[h.index := h.m[src].data[i]]), src, i)
  }

  /** n rounds of the body, whether or not the loop would go on. */
  ghost function Pulls(h: Hole, src: Ptr, last: nat, n: nat): (r: Hole)
    requires Fillable(h, src, last) && h.node != src
    ensures Fillable(r, src, last)
  {
    if n == 0 then h else Pull(Pulls(h, src, last, n - 1), src, last)
  }

  /** When the node behind the found one is not the last of its bin, the loop condition
      holds after every round: the loop never ends. */
  lemma {:induction false} PullsForever(h: Hole, src: Ptr, last: nat, n: nat)
    requires Fillable(h, src, last) && h.node != src && h.m[src].next != NULL && n > 0
    ensures var r := Pulls(h, src, last, n); r.node in r.m && r.m[r.node].next != NULL
    ensures Pulls(h, src, last, n) == Pull(h, src, last)
  {
    var r := Pull(h, src, last);
    assert r == Hole(r.m, src, NODE_SIZE - 1) && r.m[src] == h.m[src];
    if n > 1 {
      PullsForever(h, src, last, n - 1);
      var slots := r.m[src].data;
      assert slots[NODE_SIZE - 1 := slots[NODE_SIZE - 1]] == slots;
      assert Pull(r, src, last).m == r.m;
    } else {
      assert Pulls(h, src, last, 0) == h;
    }
  }

  /** The loop condition holds after n rounds. */
  ghost predicate GoesOn(h: Hole, src: Ptr, last: nat, n: nat)
    requires Fillable(h, src, last) && h.node != src
  {
    var r := Pulls(h, src, last, n);
    r.node in r.m && r.m[r.node].next != NULL
  }

  /** The loop that fills the hole under a position runs for ever: its condition holds
      after any number of rounds. */
  ghost predicate NeverEnds(m: Nodes, pos: Cursor, last: nat) {
    && pos.node in m
    && var h := Hole(m, pos.node, pos.index); var src := m[pos.node].next;
      && Fillable(h, src, last) && h.node != src
      && forall n: nat {:trigger GoesOn(h, src, last, n)} :: n > 0 ==> GoesOn(h, src, last, n)
  }

  lemma RunsForEver(m: Nodes, pos: Cursor, last: nat)
    requires pos.node in m && m[pos.node].next != pos.node && m[pos.node].next in m && m[m[pos.node].next].next != NULL
    requires Fillable(Hole(m, pos.node, pos.index), m[pos.node].next, last)
    ensures NeverEnds(m, pos, last)
  {
    var h, src := Hole(m, pos.node, pos.index), m[pos.node].next;
    forall n: nat | n > 0 ensures GoesOn(h, src, last, n) { PullsForever(h, src, last, n); }
  }

  /** The node behind the one of slot j, and whether it is the last one. */
  lemma NextOf(m: Nodes, ns: seq<Ptr>, j: nat)
    requires NodeList(m, ns) && j < NODE_SIZE * |ns|
    ensures var p := ns[j / NODE_SIZE]; var q := m[p].next;
      && p in ns && p in m
      && (q == NULL <==> j / NODE_SIZE == |ns| - 1)
      && (q != NULL ==> q == ns[j / NODE_SIZE + 1] && q in m && q != p && (m[q].next == NULL <==> j / NODE_SIZE == |ns| - 2))
  {
    var k := j / NODE_SIZE;
    assert m[ns[k]].next == if k + 1 < |ns| then ns[k + 1] else NULL;
    if k + 1 < |ns| {
      assert Differ(ns, k, k + 1);
      assert m[ns[k + 1]].next == if k + 2 < |ns| then ns[k + 2] else NULL;
    }
  }

  /** The last entry sits in the tail node. */
  lemma LastEntry(m: Nodes, bin: Bin, ns: seq<Ptr>)
    requires IsBin(m, bin, ns) && bin.size > 0
    ensures (bin.size - 1) / NODE_SIZE == |ns| - 1 && bin.tail == ns[|ns| - 1] && bin.tail in m
    ensures m[bin.tail].data[(bin.size - 1) % NODE_SIZE] == Entries(m, bin, ns)[bin.size - 1]
  {
  }

  /** Filling slot j with the last entry. */
  lemma FillSlot(m: Nodes, bin: Bin, ns: seq<Ptr>, j: nat)
    requires IsBin(m, bin, ns) && j < bin.size
    ensures var es := Entries(m, bin, ns); var p := ns[j / NODE_SIZE];
      var m' := SetData(m, p, m[p].data[j % NODE_SIZE := es[bin.size - 1]]);
      && IsBin(m', bin, ns) && Entries(m', bin, ns) == es[j := es[bin.size - 1]]
      && Keeps(m, m', Members(ns)) && m'.Keys == m.Keys
  {
    WriteSlot(m, ns, j, Entries(m, bin, ns)[bin.size - 1]);
    assert ns[j / NODE_SIZE] in ns;
  }

  /** Dropping the tail node. */
  lemma CutTail(m: Nodes, ns: seq<Ptr>)
    requires NodeList(m, ns) && ns != []
    ensures var k := |ns| - 1; var m' := if k > 0 then SetNext(m, ns[k - 1], NULL) else m;
      && NodeList(m', ns[..k]) && Keeps(m, m', Members(ns)) && m'.Keys == m.Keys
      && (forall i :: 0 <= i <= NODE_SIZE * k ==> Read(m', ns[..k], i) == Read(m, ns, i))
      && m[ns[k]].prev == Last(ns[..k])
  {
    var k := |ns| - 1;
    assert SetNext(m, ns[k], NULL) == m;
    assert Cut(m, ns, k, NULL) == if k > 0 then SetNext(m, ns[k - 1], NULL) else m;
    CutKeeps(m, ns, k, NULL);
    CutFront(m, ns, k, NULL);
  }

  /** The tail node, when it holds a single entry. */
  function Emptied(bin: Bin): set<Ptr> {
    if bin.size % NODE_SIZE == 1 then {bin.tail} else {}
  }

  lemma TailDropped(m: Nodes, bin: Bin, ns: seq<Ptr>, ns': seq<Ptr>)
    requires IsBin(m, bin, ns) && ns != [] && ns' == if bin.size % NODE_SIZE == 1 then ns[..|ns| - 1] else ns
    ensures Members(ns) - Members(ns') == Emptied(bin)
    ensures forall p :: p in ns' ==> p in ns
    ensures m.Keys == m.Keys + Members(ns')
  {
    var k := |ns| - 1;
    CutMembers(ns, k, []);
    assert ns == ns[..k] + [ns[k]] && ns[k] in ns[k..];
  }

  /** Freeing all the nodes of a bin leaves the other bins alone and loses nothing. */
  lemma FreedBin(m: Nodes, bins: seq<Bin>, lists: seq<seq<Ptr>>, b: nat)
    requires AllBins(m, bins, lists) && Apart(lists, []) && b < |bins|
    ensures var m' := m - Members(lists[b]); var bins' := bins[b := Bin(0, NULL, NULL)]; var lists' := lists[b := []];
      && AllBins(m', bins', lists') && Apart(lists', [])
      && TableOf(m', bins', lists') == TableOf(m, bins, lists)[b := []]
      && Leaked(m', lists', []) == Leaked(m, lists, [])
  {
    var m' := m - Members(lists[b]);
    var bins', lists' := bins[b := Bin(0, NULL, NULL)], lists[b := []];
    AllLive(m, bins, lists);
    OneBinApart(m, lists, b, []);
    forall c | 0 <= c < |bins| && c != b
      ensures IsBin(m', bins[c], lists[c]) && Entries(m', bins[c], lists[c]) == EntriesAt(m, bins, lists, c)
    {
      assert ApartAt(lists, c, b);
      KeepsBinAt(m, m', Members(lists[b]), bins, lists, c);
    }
    forall c | 0 <= c < |bins'| ensures BinAt(m', bins', lists', c) { }
    TableIs(m', bins', lists', TableOf(m, bins, lists)[b := []]);
    forall p ensures p in Leaked(m', lists', []) <==> p in Leaked(m, lists, []) {
      if Owned(lists, p) {
        var c :| 0 <= c < |lists| && p in lists[c];
        assert c == b || p in lists'[c];
      }
      if Owned(lists', p) {
        var c :| 0 <= c < |lists'| && p in lists'[c];
        assert p in lists[c] && c != b && ApartAt(lists, c, b);
      }
    }
  }
}
