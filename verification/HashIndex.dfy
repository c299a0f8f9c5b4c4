/** The hash index (src/main/hash_index.cpp). */
module HashIndex {
  /* A hash map from pointers to pointers whose bins are unrolled linked lists.  Nodes live
     in an explicit memory. */

  import opened Basics
  import opened Bits
  import opened Buckets
  import opened LinkedMemory
  import opened SplitTables
  import opened HashTable
  import opened HashNodes

  class HashIndex {
    var size: nat
    var cap: nat
    var bins: seq<Bin>
    const spec: Spec
    var mem: Nodes                      // the nodes malloc has handed out and free has not taken back
    ghost var lists: seq<seq<Ptr>>      // the nodes of every bin
    ghost var refused: nat              // requests for memory that were refused

    /** malloc of a node: NULL, or an address that was not in use. */
    method Malloc() returns (node: Ptr)
      modifies `mem, `refused
      ensures refused == old(refused) + (if node == NULL then 1 else 0)
      ensures node == NULL ==> mem == old(mem)
      ensures node != NULL ==> node !in old(mem) && mem.Keys == old(mem.Keys) + {node}
      ensures node != NULL ==> Keeps(old(mem), mem, {}) && |mem[node].data| == NODE_SIZE
    {
      var granted := *;
      if !granted {
        refused := refused + 1;
        return NULL;
      }
      ghost var unused := FreshAddress(mem.Keys);
      assert unused !in mem.Keys;
      node :| node != NULL && node !in mem.Keys;
      mem := mem[node := Node(NULL, NULL, seq(NODE_SIZE, _ => Entry(0, NULL, NULL)))];
    }

    /** A node from the free list, or a new one. */
    method TakeNode(free: Ptr, ghost spare: seq<Ptr>)
      returns (node: Ptr, free': Ptr, ghost spare': seq<Ptr>)
      requires FreeList(mem, spare) && free == First(spare)
      modifies `mem, `refused
      ensures refused == old(refused) + (if node == NULL then 1 else 0)
      ensures FreeList(mem, spare') && free' == First(spare') && Keeps(old(mem), mem, {})
      ensures node == NULL ==> mem == old(mem) && spare' == spare == []
      ensures node != NULL ==> node in mem && |mem[node].data| == NODE_SIZE && mem.Keys == old(mem.Keys) + {node}
      ensures node != NULL ==> node !in spare' && Members(spare') <= Members(spare)
      ensures node != NULL ==> spare == [node] + spare' || (spare == spare' == [] && node !in old(mem))
    {
      node, free', spare' := free, free, spare;
      if node == NULL {
        node := Malloc();
      } else {
        free' := mem[node].next;
        spare' := spare[1..];
        FreeTail(mem, spare);
      }
    }

    /** Links a node behind the last one of a bin. */
    method LinkNode(bin: Bin, ghost ns: seq<Ptr>, node: Ptr, ghost spare: seq<Ptr>) returns (bin': Bin)
      requires node != NULL && node in mem && |mem[node].data| == NODE_SIZE
      requires IsBin(mem, bin, ns) && node !in ns
      requires FreeList(mem, spare) && Disjoint(ns, spare) && node !in spare
      modifies `mem
      ensures bin' == Bin(bin.size, First(ns + [node]), node)
      ensures NodeList(mem, ns + [node])
      ensures Read(mem, ns + [node], bin.size) == old(Entries(mem, bin, ns))
      ensures FreeList(mem, spare) && Disjoint(ns + [node], spare)
      ensures Keeps(old(mem), mem, {node} + Just(bin.tail)) && mem.Keys == old(mem.Keys)
    {
      bin' := bin;
      assert bin.tail != NULL ==> bin.tail in ns;
      var curr := bin.tail;
      AppendNode(mem, ns, node);
      mem := mem[node := mem[node].(next := NULL, prev := curr)];
      if curr == NULL {
        bin' := bin'.(head := node);
      } else {
        mem := SetNext(mem, curr, node);
      }
      bin' := bin'.(tail := node);
      KeepsFree(old(mem), mem, {node} + Just(bin.tail), spare);
    }

    /** Writes the slot behind the last entry of a bin. */
    method StoreEntry(bin: Bin, ghost ns: seq<Ptr>, e: Entry, ghost spare: seq<Ptr>) returns (bin': Bin)
      requires FreeList(mem, spare) && Disjoint(ns, spare)
      requires NodeList(mem, ns) && |ns| == NodesFor(bin.size + 1) && bin.head == First(ns) && bin.tail == Last(ns)
      modifies `mem
      ensures IsBin(mem, bin', ns) && bin'.size == bin.size + 1
      ensures Entries(mem, bin', ns) == old(Read(mem, ns, bin.size)) + [e]
      ensures FreeList(mem, spare)
      ensures Keeps(old(mem), mem, {bin.tail}) && mem.Keys == old(mem.Keys)
    {
      StoreLast(mem, ns, bin.size, e);
      mem := SetData(mem, bin.tail, mem[bin.tail].data[bin.size % NODE_SIZE := e]);
      bin' := bin.(size := bin.size + 1);
      assert bin.tail in ns;
      KeepsFree(old(mem), mem, {bin.tail}, spare);
    }

    /** One more node for a bin, from the free list or from malloc. */
    method AddNode(bin: Bin, ghost ns: seq<Ptr>, free: Ptr, ghost spare: seq<Ptr>)
      returns (ok: bool, bin': Bin, free': Ptr, ghost spare': seq<Ptr>, ghost added: seq<Ptr>)
      requires IsBin(mem, bin, ns)
      requires FreeList(mem, spare) && free == First(spare) && Disjoint(ns, spare)
      modifies `mem, `refused
      ensures refused == old(refused) + (if ok then 0 else 1)
      ensures !ok ==> mem == old(mem) && bin' == bin && added == [] && spare' == spare
      ensures ok && mem.Keys == old(mem.Keys) <==> spare != []
      ensures ok ==> |added| == 1 && bin' == Bin(bin.size, First(ns + added), Last(ns + added))
      ensures NodeList(mem, ns + added)
      ensures Read(mem, ns + added, bin.size) == old(Entries(mem, bin, ns))
      ensures FreeList(mem, spare') && free' == First(spare') && Disjoint(ns + added, spare')
      ensures spare == added + spare' || (spare == spare' == [] && forall p :: p in added ==> p !in old(mem))
      ensures Keeps(old(mem), mem, Members(added) + Just(bin.tail))
      ensures mem.Keys == old(mem.Keys) + Members(added)
    {
      var node;
      node, free', spare' := TakeNode(free, spare);
      if node == NULL {
        assert ns + [] == ns;
        return false, bin, free, spare, [];
      }
      assert node !in ns && node !in spare' && Disjoint(ns, spare');
      KeepsBin(old(mem), mem, {}, bin, ns);
      ok, added := true, [node];
      bin' := LinkNode(bin, ns, node, spare');
    }

    /** add_to_bin: one entry at the end of a bin, in a node of the free list or a new
        one when the last node is full. False means there was no memory for a node; malloc
        is called exactly if a node is needed and the free list is empty. */
    method AddToBin(bin: Bin, ghost ns: seq<Ptr>, free: Ptr, ghost spare: seq<Ptr>, e: Entry)
      returns (ok: bool, bin': Bin, free': Ptr, ghost spare': seq<Ptr>, ghost added: seq<Ptr>)
      requires IsBin(mem, bin, ns)
      requires FreeList(mem, spare) && free == First(spare) && Disjoint(ns, spare)
      modifies `mem, `refused
      ensures refused == old(refused) + (if ok then 0 else 1)
      ensures !ok ==> mem == old(mem) && bin' == bin && added == [] && spare' == spare
      ensures ok && mem.Keys == old(mem.Keys) <==> !(spare == [] && bin.size % NODE_SIZE == 0)
      ensures IsBin(mem, bin', ns + added)
      ensures Entries(mem, bin', ns + added) == old(Entries(mem, bin, ns)) + (if ok then [e] else [])
      ensures FreeList(mem, spare') && free' == First(spare') && Disjoint(ns + added, spare')
      ensures spare == added + spare' || (spare == spare' == [] && forall p :: p in added ==> p !in old(mem))
      ensures Keeps(old(mem), mem, Members(ns) + Members(added))
      ensures mem.Keys == old(mem.Keys) + Members(added)
    {
      ok, bin', free', spare', added := true, bin, free, spare, [];
      assert ns + [] == ns;
      assert bin.tail != NULL ==> bin.tail in ns;
      if bin.tail == NULL || bin.size % NODE_SIZE == 0 {
        ok, bin', free', spare', added := AddNode(bin, ns, free, spare);
        if !ok { return; }
      }
      assert bin'.tail in ns + added;
      bin' := StoreEntry(bin', ns + added, e, spare');
    }

    /** free_nodes: cuts a bin before its k-th node and puts the cut part in front of
        the free list. The size of the bin is left to the caller. */
    method FreeNodes(bin: Bin, ghost ns: seq<Ptr>, free: Ptr, ghost spare: seq<Ptr>, node: Ptr, ghost k: nat)
      returns (bin': Bin, free': Ptr)
      requires NodeList(mem, ns) && bin.head == First(ns) && bin.tail == Last(ns)
      requires FreeList(mem, spare) && free == First(spare) && Disjoint(ns, spare)
      requires k < |ns| && node == ns[k]
      modifies `mem
      ensures bin' == Bin(bin.size, First(ns[..k]), Last(ns[..k])) && NodeList(mem, ns[..k])
      ensures forall i :: 0 <= i <= NODE_SIZE * k ==> Read(mem, ns[..k], i) == old(Read(mem, ns, i))
      ensures FreeList(mem, ns[k..] + spare) && free' == First(ns[k..] + spare)
      ensures Keeps(old(mem), mem, Members(ns)) && mem.Keys == old(mem.Keys)
    {
      CutKeeps(mem, ns, k, free);
      CutFront(mem, ns, k, free);
      CutToFree(mem, ns, k, spare);
      assert k > 0 ==> Differ(ns, 0, k);
      bin' := bin;
      mem := SetNext(mem, bin.tail, free);
      free' := node;
      if bin.head == node {
        bin' := bin'.(head := NULL, tail := NULL);
      } else {
        assert k > 0;
        var prev := mem[node].prev;
        assert prev == ns[k - 1];
        mem := SetNext(mem, prev, NULL);
        bin' := bin'.(tail := prev);
      }
      assert mem == Cut(old(mem), ns, k, free);
    }

    /** An entry with the split bit leaves for the bin y. */
    method MoveEntry(c: nat, src: Cursor, y: Bin, free: Ptr,
                     ghost ns: seq<Ptr>, ghost ys: seq<Ptr>, ghost spare: seq<Ptr>, ghost es: seq<Entry>, ghost j: nat)
      returns (ok: bool, y': Bin, free': Ptr, ghost spare': seq<Ptr>, ghost added: seq<Ptr>)
      requires c > 0 && j < |es| && SplitState(mem, ns, y, ys, spare, es, c, j) && free == First(spare)
      requires src.node in mem && src.index < |mem[src.node].data| && mem[src.node].data[src.index] == es[j]
      requires SplitBit(es[j].hash, c)
      modifies `mem, `refused
      ensures refused == old(refused) + (if ok then 0 else 1)
      ensures ok ==> SplitState(mem, ns, y', ys + added, spare', es, c, j + 1)
      ensures !ok ==> mem == old(mem) && y' == y && added == [] && spare' == spare && SplitBit(es[j].hash, c)
      ensures ok && mem.Keys == old(mem.Keys) <==> !(spare == [] && NeedsNode(es, c, j))
      ensures free' == First(spare')
      ensures spare == added + spare' || (spare == spare' == [] && forall p :: p in added ==> p !in old(mem))
      ensures Keeps(old(mem), mem, Members(ys) + Members(added))
      ensures mem.Keys == old(mem.Keys) + Members(added)
    {
      SplitNext(es, j, c);
      ok, y', free', spare', added := AddToBin(y, ys, free, spare, mem[src.node].data[src.index]);
      assert forall p :: p in ns ==> p in old(mem) && p !in ys && p !in added;
      KeepsSplitting(old(mem), mem, Members(ys) + Members(added), ns, es, Kept(es[..j], c), j);
    }

    /** One round of the pass over the entries of a bin: an entry with the split bit
        leaves for the bin y, another one moves to the write cursor. */
    method SplitEntry(c: nat, src: Cursor, dst: Cursor, y: Bin, free: Ptr,
                      ghost ns: seq<Ptr>, ghost ys: seq<Ptr>, ghost spare: seq<Ptr>, ghost es: seq<Entry>, ghost j: nat)
      returns (ok: bool, dst': Cursor, y': Bin, free': Ptr, ghost spare': seq<Ptr>, ghost added: seq<Ptr>)
      requires c > 0 && j < |es| && SplitState(mem, ns, y, ys, spare, es, c, j) && free == First(spare)
      requires At(src, ns, j) && At(dst, ns, |Kept(es[..j], c)|)
      modifies `mem, `refused
      ensures refused == old(refused) + (if ok then 0 else 1)
      ensures ok ==> SplitState(mem, ns, y', ys + added, spare', es, c, j + 1) && At(dst', ns, |Kept(es[..j + 1], c)|)
      ensures !ok ==> mem == old(mem) && y' == y && added == [] && spare' == spare && SplitBit(es[j].hash, c)
      ensures ok && mem.Keys == old(mem.Keys) <==> !(spare == [] && NeedsNode(es, c, j))
      ensures free' == First(spare')
      ensures spare == added + spare' || (spare == spare' == [] && forall p :: p in added ==> p !in old(mem))
      ensures Keeps(old(mem), mem, Members(ns) + Members(ys) + Members(added))
      ensures mem.Keys == old(mem.Keys) + Members(added)
    {
      ReadNext(mem, ns, y, ys, spare, es, c, j, src, dst);
      if And(mem[src.node].data[src.index].hash, Xor(2 * c - 1, c - 1)) != 0 {
        dst' := dst;
        ok, y', free', spare', added := MoveEntry(c, src, y, free, ns, ys, spare, es, j);
      } else {
        dst' := KeepEntry(c, src, dst, y, ns, ys, spare, es, j);
        ok, y', free', spare', added := true, y, free, spare, [];
      }
    }

    /** An entry without the split bit moves to the write cursor. */
    method KeepEntry(c: nat, src: Cursor, dst: Cursor, ghost y: Bin,
                     ghost ns: seq<Ptr>, ghost ys: seq<Ptr>, ghost spare: seq<Ptr>, ghost es: seq<Entry>, ghost j: nat)
      returns (dst': Cursor)
      requires c > 0 && j < |es| && SplitState(mem, ns, y, ys, spare, es, c, j) && !SplitBit(es[j].hash, c)
      requires At(src, ns, j) && At(dst, ns, |Kept(es[..j], c)|)
      modifies `mem
      ensures SplitState(mem, ns, y, ys, spare, es, c, j + 1) && At(dst', ns, |Kept(es[..j + 1], c)|)
      ensures Keeps(old(mem), mem, Members(ns)) && mem.Keys == old(mem.Keys)
    {
      KeepStep(mem, ns, es, Kept(es[..j], c), j, src, dst);
      SplitNext(es, j, c);
      KeepState(mem, ns, y, ys, spare, es, c, j, src, dst);
      mem := Copied(mem, src, dst);
      AdvanceAt(mem, ns, dst, |Kept(es[..j], c)|);
      dst' := Advance(mem, dst);
    }

    /** The same with the account of the nodes since the memory m0, and the read cursor. */
    method SplitStep(c: nat, src: Cursor, dst: Cursor, y: Bin, free: Ptr, ghost m0: Nodes,
                     ghost ns: seq<Ptr>, ghost spare0: seq<Ptr>, ghost ys: seq<Ptr>, ghost spare: seq<Ptr>, ghost es: seq<Entry>, ghost j: nat)
      returns (ok: bool, src': Cursor, dst': Cursor, y': Bin, free': Ptr, ghost ys': seq<Ptr>, ghost spare': seq<Ptr>)
      requires c > 0 && j < |es| && SplitState(mem, ns, y, ys, spare, es, c, j) && free == First(spare)
      requires At(src, ns, j) && At(dst, ns, |Kept(es[..j], c)|) && Accounted(m0, mem, ns, spare0, ys, spare)
      modifies `mem, `refused
      ensures refused == old(refused) + (if ok then 0 else 1)
      ensures ok ==> SplitState(mem, ns, y', ys', spare', es, c, j + 1)
      ensures ok ==> At(src', ns, j + 1) && At(dst', ns, |Kept(es[..j + 1], c)|)
      ensures !ok ==> SplitState(mem, ns, y', ys', spare', es, c, j) && CallsMalloc(es, c, |spare0|, j)
      ensures free' == First(spare') && Accounted(m0, mem, ns, spare0, ys', spare')
    {
      ghost var added;
      src' := src;
      ok, dst', y', free', spare', added := SplitEntry(c, src, dst, y, free, ns, ys, spare, es, j);
      ys' := ys;
      if !ok { return; }
      AccountStep(m0, old(mem), mem, ns, spare0, ys, spare, added, spare');
      ys' := ys + added;
      AdvanceAt(mem, ns, src, j);
      src' := Advance(mem, src);
    }

    /** The pass over the entries of a bin: the kept ones move up behind the write
        cursor, the others go to the empty bin y. */
    method SplitEntries(x: Bin, y: Bin, c: nat, free: Ptr, ghost ns: seq<Ptr>, ghost spare: seq<Ptr>, ghost es: seq<Entry>)
      returns (ok: bool, dst: Cursor, y': Bin, free': Ptr, ghost ys: seq<Ptr>, ghost spare': seq<Ptr>, ghost torn: nat)
      requires c > 0 && SplitState(mem, ns, y, [], spare, es, c, 0) && free == First(spare)
      requires x.size == |es| && x.head == First(ns)
      modifies `mem, `refused
      ensures refused == old(refused) + (if ok then 0 else 1)
      ensures ok ==> SplitState(mem, ns, y', ys, spare', es, c, |es|) && At(dst, ns, |Kept(es, c)|)
      ensures !ok ==> torn < |es| && SplitState(mem, ns, y', ys, spare', es, c, torn) && CallsMalloc(es, c, |spare|, torn)
      ensures free' == First(spare') && FreeList(mem, spare')
      ensures ok ==> |spare'| == Left(|spare|, NodesFor(|Moved(es, c)|))
      ensures Accounted(old(mem), mem, ns, spare, ys, spare')
    {
      ok, y', free', ys, spare', torn := true, y, free, [], spare, 0;
      var src := Cursor(x.head, 0);
      dst := src;
      var count := x.size;
      for j := 0 to count
        invariant SplitState(mem, ns, y', ys, spare', es, c, j) && free' == First(spare')
        invariant At(src, ns, j) && At(dst, ns, |Kept(es[..j], c)|)
        invariant Accounted(old(mem), mem, ns, spare, ys, spare') && refused == old(refused)
      {
        torn := j;
        ok, src, dst, y', free', ys, spare' := SplitStep(c, src, dst, y', free', old(mem), ns, spare, ys, spare', es, j);
        if !ok { return; }
      }
      assert es[..count] == es;
      ok := true;
    }

    /** The nodes of a bin behind the write cursor become free. */
    method FreeRest(x: Bin, dst: Cursor, free: Ptr, ghost ns: seq<Ptr>, ghost spare: seq<Ptr>, ghost es: seq<Entry>, ghost kept: seq<Entry>)
      returns (x': Bin, free': Ptr, ghost ns': seq<Ptr>, ghost spare': seq<Ptr>)
      requires Splitting(mem, ns, es, kept, |es|) && At(dst, ns, |kept|)
      requires x.size == |es| && x.head == First(ns) && x.tail == Last(ns)
      requires FreeList(mem, spare) && free == First(spare) && Disjoint(ns, spare)
      modifies `mem
      ensures IsBin(mem, x'.(size := |kept|), ns') && Entries(mem, x'.(size := |kept|), ns') == kept && x'.size == x.size
      ensures FreeList(mem, spare') && free' == First(spare') && Disjoint(ns', spare')
      ensures forall p :: p in ns' || p in spare' <==> p in ns || p in spare
      ensures forall p :: p in ns' ==> p in ns
      ensures |ns'| + |spare'| == |ns| + |spare|
      ensures Keeps(old(mem), mem, Members(ns)) && mem.Keys == old(mem.Keys)
    {
      var node := dst.node;
      x', free', ns', spare' := x, free, ns, spare;
      ghost var k := NodesFor(|kept|);
      NodesCover(|es|, |kept|);
      assert Read(mem, ns, |kept|) == kept;
      if dst.index > 0 {
        AdvanceAt(mem, ns, dst, |kept|);
        node := mem[node].next;
        assert node == if k < |ns| then ns[k] else NULL;
      }
      if node != NULL {
        CutMembers(ns, k, spare);
        x', free' := FreeNodes(x, ns, free, spare, node, k);
        ns', spare' := ns[..k], ns[k..] + spare;
      } else {
        assert k == |ns|;
      }
    }

    /** The end of a split: the nodes that the kept entries do not need become free. */
    method FinishSplit(x: Bin, y: Bin, c: nat, dst: Cursor, free: Ptr,
                       ghost ns: seq<Ptr>, ghost ys: seq<Ptr>, ghost spare: seq<Ptr>, ghost es: seq<Entry>)
      returns (x': Bin, free': Ptr, ghost ns': seq<Ptr>, ghost spare': seq<Ptr>)
      requires c > 0 && SplitState(mem, ns, y, ys, spare, es, c, |es|) && At(dst, ns, |Kept(es, c)|)
      requires x.size == |es| && x.head == First(ns) && x.tail == Last(ns) && free == First(spare)
      modifies `mem
      ensures IsBin(mem, x', ns') && Entries(mem, x', ns') == Kept(es, c)
      ensures IsBin(mem, y, ys) && Entries(mem, y, ys) == Moved(es, c)
      ensures Disjoint(ns', ys) && Disjoint(ns', spare') && Disjoint(ys, spare')
      ensures FreeList(mem, spare') && free' == First(spare')
      ensures forall p :: p in ns' || p in spare' <==> p in ns || p in spare
      ensures |spare'| == |spare| + NodesFor(|es|) - NodesFor(|Kept(es, c)|)
      ensures Keeps(old(mem), mem, Members(ns)) && mem.Keys == old(mem.Keys)
    {
      SplitCounts(es, c);
      SplitEnd(mem, ns, y, ys, spare, es, c);
      x', free', ns', spare' := FreeRest(x, dst, free, ns, spare, es, Kept(es, c));
      KeepsBin(old(mem), mem, Members(ns), y, ys);
      x' := x'.(size := x'.size - y.size);
    }

    /** Splits a bin: x keeps its half in place, the empty bin y gets the other one. */
    method SplitBin(x: Bin, y: Bin, c: nat, free: Ptr, ghost ns: seq<Ptr>, ghost spare: seq<Ptr>, ghost es: seq<Entry>)
      returns (ok: bool, x': Bin, y': Bin, free': Ptr, ghost ns': seq<Ptr>, ghost ys: seq<Ptr>, ghost spare': seq<Ptr>, ghost torn: nat)
      requires c > 0 && IsBin(mem, x, ns) && Entries(mem, x, ns) == es && y == Bin(0, NULL, NULL)
      requires FreeList(mem, spare) && free == First(spare) && Disjoint(ns, spare)
      modifies `mem, `refused
      ensures refused == old(refused) + (if ok then 0 else 1)
      ensures IsBin(mem, x', ns') && IsBin(mem, y', ys)
      ensures ok ==> Entries(mem, x', ns') == Kept(es, c)
      ensures ok ==> Entries(mem, y', ys) == Moved(es, c)
      ensures !ok ==> torn < |es| && CallsMalloc(es, c, |spare|, torn)
      ensures !ok ==> Entries(mem, x', ns') == TornBin(es, c, torn)
      ensures !ok ==> Entries(mem, y', ys) == Moved(es[..torn], c)
      ensures Disjoint(ns', ys) && Disjoint(ns', spare') && Disjoint(ys, spare')
      ensures ok ==> |spare'| == FreeAfter(|spare|, es, c)
      ensures FreeList(mem, spare') && free' == First(spare')
      ensures Transferred(old(mem), mem, ns, spare, ns', ys, spare')
    {
      x', y', free', ns', ys, spare', torn := x, y, free, ns, [], spare, 0;
      if x.size <= 0 { return true, x', y', free', ns', ys, spare', torn; }
      SplitStart(mem, x, ns, y, spare, c);
      var dst;
      ok, dst, y', free', ys, spare', torn := SplitEntries(x, y, c, free, ns, spare, es);
      if !ok {
        TornIs(mem, x, ns, es, c, torn);
        TransferBoth(old(mem), mem, mem, ns, spare, ys, spare', ns, spare');
        return;
      }
      ghost var m1, spare1 := mem, spare';
      x', free', ns', spare' := FinishSplit(x, y', c, dst, free', ns, ys, spare', es);
      TransferBoth(old(mem), m1, mem, ns, spare, ys, spare1, ns', spare');
    }

    // ------------------------------------------------------------------------
    // The container
    // ------------------------------------------------------------------------

    ghost predicate Shape()
      reads `cap, `bins, `mem, `lists
    {
      && |bins| == cap && (cap == 0 || (cap >= 0x10 && PowerOfTwo(cap)))
      && AllBins(mem, bins, lists) && Apart(lists, [])
    }

    /** The entries of every bin. */
    ghost function Contents(): Table
      requires Shape()
      reads `cap, `bins, `mem, `lists
    {
      TableOf(mem, bins, lists)
    }

    ghost predicate Valid()
      reads this
    {
      Shape() && WellFormed(spec, Contents()) && size == Size(Contents())
    }

    /** Nodes that no bin holds and that were never freed. */
    ghost function Lost(): set<Ptr>
      reads `mem, `lists
    {
      Leaked(mem, lists, [])
    }

    constructor (spec: Spec)
      ensures Valid() && size == 0 && cap == 0 && this.spec == spec && Lost() == {} && refused == 0
    {
      size, cap, bins, lists, mem, refused := 0, 0, [], [], map[], 0;
      this.spec := spec;
    }

    /** Frees every node of the free list. */
    method FreeAll(free: Ptr, ghost spare: seq<Ptr>)
      requires FreeList(mem, spare) && free == First(spare)
      modifies `mem
      ensures mem == old(mem) - Members(spare)
    {
      var curr := free;
      ghost var rest := spare;
      ghost var freed: set<Ptr> := {};
      while curr != NULL
        invariant FreeList(mem, rest) && curr == First(rest)
        invariant Members(spare) == freed + Members(rest) && mem == old(mem) - freed
        decreases |rest|
      {
        var next := mem[curr].next;
        FreeTail(mem, rest);
        assert forall p :: p in rest <==> p == curr || p in rest[1..];
        KeepsFree(mem, mem - {curr}, {curr}, rest[1..]);
        mem := mem - {curr};
        freed := freed + {curr};
        rest := rest[1..];
        curr := next;
      }
    }

    /** What an interrupted growth of the table t leaves. */
    ghost predicate Torn(t: Table, lost: set<Ptr>)
      reads `bins, `mem, `lists
    {
      exists i: nat, j: nat :: TornLoop(mem, bins, lists, [], t, i, j, lost)
    }

    /** grow: the first sixteen bins, or twice as many bins with the entries split. */
    method Grow() returns (r: GrowResult)
      requires Valid() && spec.Lawful()
      modifies `cap, `bins, `mem, `lists, `refused
      ensures refused == old(refused) + (if r.Grown? then 0 else 1)
      ensures r.NoBins? ==> cap == old(cap) && bins == old(bins) && mem == old(mem) && lists == old(lists)
      ensures r.Grown? ==> Valid() && Lost() == old(Lost())
      ensures r.Grown? ==> cap == if old(cap) == 0 then 0x10 else 2 * old(cap)
      ensures r.Grown? ==> Contents() == GrownFrom(old(Contents()), false)
      ensures r.Grown? ==> SameMap(spec, old(Contents()), Contents())
      ensures r.Interrupted? ==> cap == old(cap) && Torn(old(Contents()), old(Lost()))
    {
      ghost var t: Table := Contents();
      var granted := *;
      if !granted {
        refused := refused + 1;
        return NoBins;
      }
      if cap == 0 {
        cap := 0x10;
        bins := seq(0x10, _ => Bin(0, NULL, NULL));
        lists := seq(0x10, _ => []);
        EmptyMap(spec, t);
        EmptyMap(spec, Contents());
        assert Contents() == GrownFrom(t, false);
        return Grown;
      }
      r := SplitAll();
      FullSplit(t, false);
      SplitKeepsMap(spec, t, SplitUpTo(t, |t|, false));
    }

    /** One round of the loop over the old bins. */
    method SplitNextBin(i: nat, free: Ptr, ghost spare: seq<Ptr>, ghost t: Table, ghost lost: set<Ptr>)
      returns (ok: bool, free': Ptr, ghost spare': seq<Ptr>, ghost torn: nat)
      requires SplitLoop(mem, bins, lists, spare, t, i, lost) && free == First(spare) && i < cap == |t| && |spare| == FreeAt(t, i)
      modifies `bins, `mem, `lists, `refused
      ensures refused == old(refused) + (if ok then 0 else 1)
      ensures free' == First(spare') && FreeList(mem, spare')
      ensures ok ==> SplitLoop(mem, bins, lists, spare', t, i + 1, lost) && |spare'| == FreeAt(t, i + 1)
      ensures !ok ==> TornLoop(mem, bins, lists, spare', t, i, torn, lost)
    {
      SplitBinIs(mem, bins, lists, spare, t, i, lost);
      var x, y;
      ghost var ns, ys;
      ok, x, y, free', ns, ys, spare', torn := SplitBin(bins[i], bins[cap + i], cap, free, lists[i], spare, t[i]);
      FreeNext(t, i);
      bins := bins[i := x][cap + i := y];
      lists := lists[i := ns][cap + i := ys];
      RoundEnds(ok, old(mem), mem, old(bins), old(lists), bins, lists, spare, t, i, torn, lost, x, y, ns, ys, spare');
    }

    /** As many empty bins behind the old ones. */
    method BeginGrowth()
      requires Shape() && cap > 0
      modifies `bins, `lists
      ensures SplitLoop(mem, bins, lists, [], old(Contents()), 0, old(Lost()))
    {
      SplitBegins(mem, bins, lists, Contents());
      bins := bins + seq(cap, _ => Bin(0, NULL, NULL));
      lists := lists + seq(cap, _ => []);
    }

    /** The end of an interrupted growth: the free list is given back. */
    method GiveUp(free: Ptr, ghost spare: seq<Ptr>, ghost t: Table, ghost i: nat, ghost j: nat, ghost lost: set<Ptr>)
      requires TornLoop(mem, bins, lists, spare, t, i, j, lost) && FreeList(mem, spare) && free == First(spare)
      modifies `mem
      ensures Torn(t, lost)
    {
      TornFreed(mem, bins, lists, spare, t, i, j, lost);
      FreeAll(free, spare);
      assert TornLoop(mem, bins, lists, [], t, i, j, lost);
    }

    /** The end of a growth that was not: more bins, and the free list is given back. */
    method FinishGrowth(free: Ptr, ghost spare: seq<Ptr>, ghost t: Table, ghost lost: set<Ptr>)
      requires SplitLoop(mem, bins, lists, spare, t, |t|, lost) && free == First(spare)
      requires spec.Lawful() && WellFormed(spec, t) && size == Size(t) && cap == |t| && (cap >= 0x10)
      modifies `cap, `mem
      ensures Valid() && Lost() == lost && cap == 2 * |t| && Contents() == SplitUpTo(t, |t|, false)
    {
      SplitDone(spec, mem, bins, lists, spare, t, lost);
      cap := 2 * cap;
      FreeAll(free, spare);
    }

    /** The loop over the old bins. */
    method SplitBins(ghost t: Table, ghost lost: set<Ptr>) returns (ok: bool, free: Ptr, ghost spare: seq<Ptr>, ghost i: nat, ghost torn: nat)
      requires SplitLoop(mem, bins, lists, [], t, 0, lost) && cap == |t|
      modifies `bins, `mem, `lists, `refused
      ensures refused == old(refused) + (if ok then 0 else 1) && free == First(spare) && FreeList(mem, spare)
      ensures if ok then SplitLoop(mem, bins, lists, spare, t, |t|, lost) else TornLoop(mem, bins, lists, spare, t, i, torn, lost)
    {
      ok, free, spare, i, torn := true, NULL, [], 0, 0;
      for k := 0 to cap
        invariant SplitLoop(mem, bins, lists, spare, t, k, lost) && free == First(spare) && |spare| == FreeAt(t, k)
        invariant refused == old(refused)
      {
        i := k;
        ok, free, spare, torn := SplitNextBin(k, free, spare, t, lost);
        if !ok { return; }
      }
      ok := true;
    }

    method SplitAll() returns (r: GrowResult)
      requires Valid() && spec.Lawful() && cap > 0
      modifies `cap, `bins, `mem, `lists, `refused
      ensures refused == old(refused) + (if r.Grown? then 0 else 1)
      ensures r.Grown? || r.Interrupted?
      ensures r.Grown? ==> Valid() && Lost() == old(Lost())
      ensures r.Grown? ==> cap == 2 * old(cap) && Contents() == SplitUpTo(old(Contents()), old(cap), false)
      ensures r.Interrupted? ==> cap == old(cap) && Torn(old(Contents()), old(Lost()))
    {
      ghost var t, lost := Contents(), Lost();
      BeginGrowth();
      var ok, free;
      ghost var spare, i, torn;
      ok, free, spare, i, torn := SplitBins(t, lost);
      if !ok {
        GiveUp(free, spare, t, i, torn, lost);
        return GrowResult.Interrupted;
      }
      FinishGrowth(free, spare, t, lost);
      return Grown;
    }

    // ------------------------------------------------------------------------
    // Searching
    // ------------------------------------------------------------------------

    /** The cursor stands at entry j of bin b. */
    ghost predicate PointsAt(pos: Cursor, b: nat, j: nat)
      requires Shape()
      reads `cap, `bins, `mem, `lists
    {
      Stands(mem, bins, lists, pos, b, j)
    }

    /** The slots of one node, in order. */
    static method ScanNode(spec: Spec, key: Ptr, h: nat, slots: Slots, count: nat) returns (i: nat)
      requires count <= |slots| && h == spec.HashOf(key)
      ensures i <= count && NoHit(spec, key, slots, i)
      ensures i < count ==> spec.Hits(key, h, slots[i])
    {
      i := 0;
      while i < count
        invariant i <= count && NoHit(spec, key, slots, i)
      {
        if spec.Hits(key, h, slots[i]) { return; }
        i := i + 1;
      }
    }

    /** The nodes of one bin, in order: the first slot that hits. */
    static method ScanBin(spec: Spec, mem: Nodes, key: Ptr, h: nat, bin: Bin, ghost ns: seq<Ptr>) returns (pos: Cursor)
      requires IsBin(mem, bin, ns) && h == spec.HashOf(key)
      ensures var j := Seek(spec, Entries(mem, bin, ns), key);
        if j < bin.size then At(pos, ns, j) && pos.node != NULL else pos.node == NULL
    {
      ghost var es := Entries(mem, bin, ns);
      var size := bin.size;
      var curr := bin.head;
      ghost var i := 0;
      while curr != NULL
        invariant Scanned(spec, mem, key, bin, ns, i, curr) && (curr != NULL ==> size == bin.size - NODE_SIZE * i)
        decreases |ns| - i
      {
        var count := if size < NODE_SIZE then size else NODE_SIZE;
        ScanRound(spec, mem, key, bin, ns, i, curr, count);
        var k := ScanNode(spec, key, h, mem[curr].data, count);
        ScanStep(spec, mem, key, bin, ns, i, count, k);
        if k < count { return Cursor(curr, k); }
        size := size - count;
        curr := mem[curr].next;
        i := i + 1;
      }
      SeekIs(spec, es, key, |es|);
      pos := Cursor(NULL, 0);
    }

    /** What find_node relies on; a growth that was interrupted leaves this much. */
    ghost predicate Searchable()
      reads `cap, `bins, `mem, `lists
    {
      AllBins(mem, bins, lists) && cap <= |bins| && (cap > 0 ==> PowerOfTwo(cap))
    }

    /** The loops of find_node: the first entry that hits in the bin of the hash. */
    method ScanTable(key: Ptr, h: nat) returns (pos: Cursor, ghost b: nat, ghost j: nat)
      requires Searchable() && h == spec.HashOf(key)
      ensures cap == 0 ==> pos.node == NULL
      ensures cap > 0 ==> b == BinOf(h, cap) < cap && j == Seek(spec, TableOf(mem, bins, lists)[b], key)
      ensures cap > 0 ==> if j < |TableOf(mem, bins, lists)[b]| then pos.node != NULL && Stands(mem, bins, lists, pos, b, j) else pos.node == NULL
    {
      if cap == 0 { return Cursor(NULL, 0), 0, 0; }
      BinAfterDoubling(h, cap);
      b := And(h, cap - 1);
      j := Seek(spec, TableOf(mem, bins, lists)[b], key);
      assert BinAt(mem, bins, lists, b);
      pos := ScanBin(spec, mem, key, h, bins[And(h, cap - 1)], lists[b]);
    }

    /** find_node: where the entry of a key is, NULL exactly when the key is not bound. */
    method FindNode(key: Ptr, h: nat) returns (pos: Cursor, ghost b: nat, ghost j: nat)
      requires Valid() && spec.Lawful() && h == spec.HashOf(key)
      ensures pos.node == NULL <==> Lookup(spec, Contents(), key) == None
      ensures cap > 0 ==> b == BinOf(h, cap) && b < cap
      ensures pos.node != NULL ==> cap > 0 && PointsAt(pos, b, j) && j == Seek(spec, Contents()[b], key)
      ensures pos.node != NULL ==> Lookup(spec, Contents(), key) == Some(Contents()[b][j].value)
    {
      if cap > 0 { SeekIsLookup(spec, Contents(), key); }
      pos, b, j := ScanTable(key, h);
    }

    /** get: the bound value, NULL without one. The default value is never returned, so
        the caller gets what get() is meant to return exactly if the key is bound or
        the default is NULL anyway. */
    method Get(key: Ptr, dfl: Ptr) returns (r: Ptr)
      requires Valid() && spec.Lawful()
      ensures r == ValueOr(Lookup(spec, Contents(), key), NULL)
      ensures r == ValueOr(Lookup(spec, Contents(), key), dfl) <==> Lookup(spec, Contents(), key).Some? || dfl == NULL
    {
      var pos;
      ghost var b, j;
      pos, b, j := FindNode(key, spec.HashOf(key));
      r := if pos.node != NULL then mem[pos.node].data[pos.index].value else NULL;
    }

    /** key: the stored key that equals the given one, NULL without one. */
    method Key(key: Ptr, dfl: Ptr) returns (r: Ptr)
      requires Valid() && spec.Lawful()
      ensures Lookup(spec, Contents(), key) == None ==> r == NULL
      ensures forall v :: Lookup(spec, Contents(), key) == Some(v) ==>
        spec.Same(key, r) && Stores(Contents(), Entry(spec.HashOf(r), r, v))
    {
      var pos;
      ghost var b, j;
      pos, b, j := FindNode(key, spec.HashOf(key));
      r := if pos.node != NULL then mem[pos.node].data[pos.index].key else NULL;
      if pos.node != NULL { HitIsStored(spec, Contents(), key, b, j); }
    }

    // ------------------------------------------------------------------------
    // Inserting and replacing
    // ------------------------------------------------------------------------

    /** Writes the value of the entry under a cursor. */
    method SetValue(pos: Cursor, v: Ptr, ghost b: nat, ghost j: nat)
      requires Shape() && PointsAt(pos, b, j)
      modifies `mem
      ensures Shape() && Contents() == Updated(old(Contents()), b, j, v) && Lost() == old(Lost())
      ensures PointsAt(pos, b, j)
    {
      ghost var ns := lists[b];
      ghost var t: Table := Contents();
      ghost var e: Entry := t[b][j].(value := v);
      assert BinAt(mem, bins, lists, b);
      WriteSlot(mem, ns, j, e);
      mem := SetData(mem, pos.node, mem[pos.node].data[pos.index := mem[pos.node].data[pos.index].(value := v)]);
      assert pos.node in ns;
      OneBin(old(mem), mem, bins, lists, b, bins[b], ns);
      assert bins[b := bins[b]] == bins && lists[b := ns] == lists;
      assert Entries(mem, bins[b], ns) == t[b][j := e];
    }

    /** create_item: grows first when there are four entries a bin, then appends an
        entry without a value to the bin of its hash. */
    method CreateItem(key: Ptr, h: nat) returns (o: Outcome, pos: Cursor, ghost t: Table, ghost b: nat, ghost junk: Ptr)
      requires Valid() && spec.Lawful() && h == spec.HashOf(key) && Lookup(spec, Contents(), key) == None
      modifies `cap, `bins, `mem, `lists, `refused
      ensures refused == old(refused) + (if o.Created? then 0 else 1)
      ensures o.NoMemory? ==> RanOut(old(Contents()), t, h)
      ensures o.Interrupted? ==> old(size) >= old(cap) * 4
      ensures o.Created? || o.NoMemory? || o.Interrupted?
      ensures o.Created? || o.NoMemory? ==> Shape() && WellFormed(spec, t) && SameMap(spec, old(Contents()), t)
      ensures o.Created? || o.NoMemory? ==> Size(t) == size && Lost() == old(Lost())
      ensures o.NoMemory? ==> Contents() == t
      ensures o.Created? ==> b < |t| && b == BinOf(h, |t|) && Contents() == Added(t, b, Entry(h, key, junk))
      ensures o.Created? ==> PointsAt(pos, b, |t[b]|) && t == MadeRoom(old(Contents()), false)
      ensures o.Created? || o.NoMemory? ==> cap == old(cap) || (old(size) >= old(cap) * 4 && cap == if old(cap) == 0 then 0x10 else 2 * old(cap))
      ensures o.Created? ==> (cap == old(cap) <==> old(size) < old(cap) * 4)
      ensures o.Interrupted? ==> cap == old(cap) && Torn(old(Contents()), old(Lost()))
    {
      o := GrowIfFull();
      t, b, junk, pos := old(Contents()), 0, NULL, Cursor(NULL, 0);
      if o.Created? { o, pos, t, b, junk := AppendItem(h, key); }
    }

    /** Makes sure there are fewer than four entries a bin; Created means go on. */
    method GrowIfFull() returns (o: Outcome)
      requires Valid() && spec.Lawful()
      modifies `cap, `bins, `mem, `lists, `refused
      ensures refused == old(refused) + (if o.Created? then 0 else 1)
      ensures o.Created? || o.NoMemory? || o.Interrupted?
      ensures o.Created? ==> Valid() && SameMap(spec, old(Contents()), Contents()) && Lost() == old(Lost()) && cap > 0
      ensures o.Created? ==> cap == if old(size) >= old(cap) * 4 then (if old(cap) == 0 then 0x10 else 2 * old(cap)) else old(cap)
      ensures o.Created? ==> Contents() == MadeRoom(old(Contents()), false)
      ensures o.NoMemory? ==> Valid() && cap == old(cap) && Contents() == old(Contents()) && Lost() == old(Lost())
      ensures o.Interrupted? ==> cap == old(cap) && Torn(old(Contents()), old(Lost()))
      ensures !o.Created? ==> old(size) >= old(cap) * 4
    {
      if size < cap * 4 { return Created; }
      var g := Grow();
      o := if g.Grown? then Created else if g.NoBins? then NoMemory else Outcome.Interrupted;
    }

    /** Adds an entry to a bin without a free list. */
    method AddFresh(bin: Bin, ghost ns: seq<Ptr>, e: Entry) returns (ok: bool, bin': Bin, ghost ns': seq<Ptr>)
      requires IsBin(mem, bin, ns)
      modifies `mem, `refused
      ensures refused == old(refused) + (if ok then 0 else 1)
      ensures !ok ==> mem == old(mem) && bin.size % NODE_SIZE == 0
      ensures ok ==> IsBin(mem, bin', ns') && Entries(mem, bin', ns') == old(Entries(mem, bin, ns)) + [e]
      ensures ok ==> Rewritten(old(mem), mem, ns, ns') && Members(ns) <= Members(ns')
    {
      var free;
      ghost var spare, added;
      ok, bin', free, spare, added := AddToBin(bin, ns, NULL, [], e);
      ns' := ns + added;
      assert forall p :: p in ns' <==> p in ns || p in added;
    }

    /** Appends an entry to the bin of its hash; its value is whatever the slot held. */
    method AppendItem(h: nat, key: Ptr) returns (o: Outcome, pos: Cursor, ghost t: Table, ghost b: nat, ghost junk: Ptr)
      requires Shape() && cap > 0
      modifies `bins, `mem, `lists, `refused
      ensures refused == old(refused) + (if o.Created? then 0 else 1)
      ensures Shape() && Lost() == old(Lost()) && (o.Created? || o.NoMemory?) && t == old(Contents())
      ensures b < |t| && b == BinOf(h, |t|) && (o.NoMemory? ==> |t[b]| % NODE_SIZE == 0)
      ensures Contents() == if o.Created? then Added(t, b, Entry(h, key, junk)) else t
      ensures o.Created? ==> PointsAt(pos, b, |t[b]|)
    {
      var held := *;
      t, junk := Contents(), held;
      BinAfterDoubling(h, cap);
      var i := And(h, cap - 1);
      b := i;
      assert BinAt(mem, bins, lists, b);
      var ok, bin;
      ghost var ns;
      ok, bin, ns := AddFresh(bins[i], lists[i], Entry(h, key, held));
      if !ok { return NoMemory, Cursor(NULL, 0), t, b, junk; }
      OneBinAppended(old(mem), mem, bins, lists, b, bin, ns, Entry(h, key, held));
      bins := bins[i := bin];
      lists := lists[i := ns];
      pos := Cursor(bin.tail, (bin.size - 1) % NODE_SIZE);
      o := Created;
    }

    /** The second half of create and put: the value of the new entry, and the count. */
    method FinishItem(key: Ptr, value: Ptr, pos: Cursor, ghost t0: Table, ghost t: Table, ghost b: nat, ghost junk: Ptr)
      requires Shape() && spec.Lawful() && WellFormed(spec, t) && SameMap(spec, t0, t) && Lookup(spec, t0, key) == None
      requires Size(t) == size && b < |t| && b == BinOf(spec.HashOf(key), |t|)
      requires Contents() == Added(t, b, Entry(spec.HashOf(key), key, junk)) && PointsAt(pos, b, |t[b]|)
      modifies `mem, `size
      ensures Valid() && Binds(spec, t0, Contents(), key, value) && size == old(size) + 1
      ensures PointsAt(pos, b, |t[b]|) && Contents() == Added(t, b, Entry(spec.HashOf(key), key, value))
      ensures Lost() == old(Lost())
    {
      SetValue(pos, value, b, |t[b]|);
      AddedThenUpdated(t, b, Entry(spec.HashOf(key), key, junk), value);
      AddedBinds(spec, t0, t, b, Entry(spec.HashOf(key), key, value));
      size := size + 1;
    }

    /** The common end of create and put, for a key that is not bound. */
    method CreateNew(key: Ptr, value: Ptr, h: nat) returns (o: Outcome, pos: Cursor)
      requires Valid() && spec.Lawful() && h == spec.HashOf(key) && Lookup(spec, Contents(), key) == None
      modifies `size, `cap, `bins, `mem, `lists, `refused
      ensures refused == old(refused) + (if o.NoMemory? || o.Interrupted? then 1 else 0)
      ensures o.Interrupted? ==> old(size) >= old(cap) * 4
      ensures (o.Created? || o.NoMemory? || o.Interrupted?) && (!o.Interrupted? ==> Valid() && Lost() == old(Lost()))
      ensures o.Created? ==> Binds(spec, old(Contents()), Contents(), key, value) && size == old(size) + 1
      ensures o.Created? ==> Contents() == Inserted(old(Contents()), Entry(h, key, value))
      ensures o.Created? ==> pos.node in mem && pos.index < |mem[pos.node].data|
      ensures o.Created? ==> mem[pos.node].data[pos.index] == Entry(h, key, value)
      ensures o.NoMemory? ==> SameMap(spec, old(Contents()), Contents()) && size == old(size)
      ensures o.Interrupted? ==> cap == old(cap) && size == old(size) && Torn(old(Contents()), old(Lost()))
      ensures o.NoMemory? ==> RanOut(old(Contents()), Contents(), h)
    {
      ghost var t0, t, b, junk := Contents(), Contents(), 0, NULL;
      o, pos, t, b, junk := CreateItem(key, h);
      if o.Created? { FinishItem(key, value, pos, t0, t, b, junk); }
    }

    /** create: binds an unbound key. */
    method Create(key: Ptr, value: Ptr) returns (o: Outcome, pos: Cursor)
      requires Valid() && spec.Lawful()
      modifies `size, `cap, `bins, `mem, `lists, `refused
      ensures refused == old(refused) + (if o.NoMemory? || o.Interrupted? then 1 else 0)
      ensures o.Interrupted? ==> old(size) >= old(cap) * 4
      ensures !o.Interrupted? ==> Valid() && Lost() == old(Lost())
      ensures o.Found? <==> Lookup(spec, old(Contents()), key).Some?
      ensures o.Found? ==> size == old(size) && cap == old(cap) && bins == old(bins) && mem == old(mem) && lists == old(lists)
      ensures o.Created? ==> Binds(spec, old(Contents()), Contents(), key, value) && size == old(size) + 1
      ensures o.Created? ==> Contents() == Inserted(old(Contents()), Entry(spec.HashOf(key), key, value))
      ensures o.Created? ==> pos.node in mem && pos.index < |mem[pos.node].data|
      ensures o.Created? ==> mem[pos.node].data[pos.index] == Entry(spec.HashOf(key), key, value)
      ensures o.NoMemory? ==> SameMap(spec, old(Contents()), Contents()) && size == old(size)
      ensures o.Interrupted? ==> cap == old(cap) && size == old(size) && Torn(old(Contents()), old(Lost()))
      ensures o.NoMemory? ==> RanOut(old(Contents()), Contents(), spec.HashOf(key))
    {
      var h := spec.HashOf(key);
      ghost var b, j;
      pos, b, j := FindNode(key, h);
      if pos.node != NULL { return Found, pos; }
      o, pos := CreateNew(key, value, h);
    }

    /** replace: rebinds a bound key and gives the old value back. */
    method Replace(key: Ptr, value: Ptr) returns (ok: bool, ov: Ptr)
      requires Valid() && spec.Lawful()
      modifies `mem
      ensures Valid() && Lost() == old(Lost())
      ensures ok <==> Lookup(spec, old(Contents()), key).Some?
      ensures !ok ==> mem == old(mem)
      ensures ok ==> Binds(spec, old(Contents()), Contents(), key, value)
      ensures ok ==> Contents() == WithValue(spec, old(Contents()), key, value)
      ensures ok ==> Lookup(spec, old(Contents()), key) == Some(ov)
    {
      var pos;
      ghost var b, j;
      pos, b, j := FindNode(key, spec.HashOf(key));
      if pos.node == NULL { return false, NULL; }
      ov := Rebind(pos, key, value, b, j);
      ok := true;
    }

    method Rebind(pos: Cursor, key: Ptr, value: Ptr, ghost b: nat, ghost j: nat) returns (ov: Ptr)
      requires Valid() && spec.Lawful() && PointsAt(pos, b, j)
      requires spec.Hits(key, spec.HashOf(key), Contents()[b][j])
      modifies `mem
      ensures Valid() && Lost() == old(Lost()) && ov == old(Contents())[b][j].value
      ensures Binds(spec, old(Contents()), Contents(), key, value) && Contents() == Updated(old(Contents()), b, j, value)
    {
      ghost var t: Table := Contents();
      HitIsStored(spec, t, key, b, j);
      ov := mem[pos.node].data[pos.index].value;
      SetValue(pos, value, b, j);
      UpdatedBinds(spec, t, b, j, value, key);
    }

    /** put: binds the key, whatever it was bound to. */
    method Put(key: Ptr, value: Ptr) returns (o: Outcome, ov: Ptr)
      requires Valid() && spec.Lawful()
      modifies `size, `cap, `bins, `mem, `lists, `refused
      ensures refused == old(refused) + (if o.NoMemory? || o.Interrupted? then 1 else 0)
      ensures o.Interrupted? ==> old(size) >= old(cap) * 4
      ensures !o.Interrupted? ==> Valid() && Lost() == old(Lost())
      ensures o.Found? <==> Lookup(spec, old(Contents()), key).Some?
      ensures o.Found? || o.Created? ==> Binds(spec, old(Contents()), Contents(), key, value)
      ensures o.Found? ==> Contents() == WithValue(spec, old(Contents()), key, value)
      ensures o.Created? ==> Contents() == Inserted(old(Contents()), Entry(spec.HashOf(key), key, value))
      ensures o.Found? || o.Created? ==> ov == ValueOr(Lookup(spec, old(Contents()), key), NULL)
      ensures o.Found? || o.Created? ==> size == old(size) + (if o.Created? then 1 else 0)
      ensures o.Found? ==> cap == old(cap)
      ensures o.NoMemory? ==> SameMap(spec, old(Contents()), Contents()) && size == old(size)
      ensures o.Interrupted? ==> cap == old(cap) && size == old(size) && Torn(old(Contents()), old(Lost()))
      ensures o.NoMemory? ==> RanOut(old(Contents()), Contents(), spec.HashOf(key))
    {
      var h := spec.HashOf(key);
      var pos;
      ghost var b, j;
      pos, b, j := FindNode(key, h);
      if pos.node != NULL {
        ov := Rebind(pos, key, value, b, j);
        return Found, ov;
      }
      o, pos := CreateNew(key, value, h);
      ov := NULL;
    }

    // ------------------------------------------------------------------------
    // Removing
    // ------------------------------------------------------------------------

    /** Moves the last entry of a bin into slot j; false when the loop that does so
        never ends, which happens unless j is in one of the last two nodes. */
    method FillHole(bin: Bin, ghost ns: seq<Ptr>, pos: Cursor, ghost j: nat) returns (ends: bool)
      requires IsBin(mem, bin, ns) && j < bin.size && At(pos, ns, j)
      modifies `mem
      ensures ends <==> j / NODE_SIZE + 2 >= |ns|
      ensures !ends ==> NeverEnds(old(mem), pos, (bin.size - 1) % NODE_SIZE)
      ensures ends ==> IsBin(mem, bin, ns) && Entries(mem, bin, ns) == old(Entries(mem, bin, ns))[j := old(Entries(mem, bin, ns))[bin.size - 1]]
      ensures ends ==> Keeps(old(mem), mem, Members(ns)) && mem.Keys == old(mem.Keys)
    {
      ghost var es := Entries(mem, bin, ns);
      NextOf(mem, ns, j);
      LastEntry(mem, bin, ns);
      FillSlot(mem, bin, ns, j);
      var last := (bin.size - 1) % NODE_SIZE;
      var src := mem[pos.node].next;
      if src != NULL {
        var hole := Pull(Hole(mem, pos.node, pos.index), src, last);
        if hole.m[hole.node].next != NULL {
          RunsForEver(mem, pos, last);
          return false;
        }
        mem := hole.m;
      } else if pos.index < last {
        mem := SetData(mem, pos.node, mem[pos.node].data[pos.index := mem[pos.node].data[last]]);
      } else {
        assert j == bin.size - 1 && es[j := es[j]] == es;
      }
      ends := true;
    }

    /** One entry less at the end; a tail node left without entries is unlinked, but not freed. */
    method DropLast(bin: Bin, ghost ns: seq<Ptr>) returns (bin': Bin, ghost ns': seq<Ptr>)
      requires IsBin(mem, bin, ns) && bin.size > 0
      modifies `mem
      ensures bin'.size == bin.size - 1 && IsBin(mem, bin', ns')
      ensures Entries(mem, bin', ns') == old(Entries(mem, bin, ns))[..bin.size - 1]
      ensures Keeps(old(mem), mem, Members(ns)) && mem.Keys == old(mem.Keys)
      ensures ns' == if bin.size % NODE_SIZE == 1 then ns[..|ns| - 1] else ns
    {
      bin', ns' := bin, ns;
      CutTail(mem, ns);
      if (bin.size - 1) % NODE_SIZE == 0 {
        ghost var k := |ns| - 1;
        ns' := ns[..k];
        var node := bin'.tail;
        assert k > 0 ==> Differ(ns, 0, k);
        bin' := bin'.(tail := mem[node].prev);
        if bin'.head == node { bin' := bin'.(head := NULL); }
        if bin'.tail != NULL { mem := SetNext(mem, bin'.tail, NULL); }
      }
      bin' := bin'.(size := bin'.size - 1);
    }

    /** Takes one entry out of a bin. */
    method RemoveFromBin(bin: Bin, ghost ns: seq<Ptr>, pos: Cursor, ghost j: nat)
      returns (ends: bool, bin': Bin, ghost ns': seq<Ptr>)
      requires IsBin(mem, bin, ns) && j < bin.size && At(pos, ns, j)
      modifies `mem
      ensures ends <==> j / NODE_SIZE + 2 >= |ns|
      ensures !ends ==> NeverEnds(old(mem), pos, (bin.size - 1) % NODE_SIZE)
      ensures ends ==> IsBin(mem, bin', ns') && Entries(mem, bin', ns') == SwapRemoved(old(Entries(mem, bin, ns)), j)
      ensures ends ==> Rewritten(old(mem), mem, ns, ns')
      ensures ends ==> Members(ns) - Members(ns') == Emptied(bin)
    {
      ends := FillHole(bin, ns, pos, j);
      bin', ns' := bin, ns;
      if !ends { return; }
      bin', ns' := DropLast(bin, ns);
      TailDropped(old(mem), bin, ns, ns');
    }

    /** The entry to remove, with its bin and its rank in it. */
    method FindItem(key: Ptr) returns (pos: Cursor, ghost b: nat, ghost j: nat)
      requires Valid() && spec.Lawful()
      ensures pos.node == NULL <==> Lookup(spec, Contents(), key) == None
      ensures pos.node != NULL ==> cap > 0 && b == KeyBin(spec, Contents(), key) == And(spec.HashOf(key), cap - 1)
      ensures pos.node != NULL ==> j == RankIn(spec, Contents(), key)
      ensures pos.node != NULL ==> PointsAt(pos, b, j) && spec.Same(key, Contents()[b][j].key)
      ensures pos.node != NULL ==> Lookup(spec, Contents(), key) == Some(mem[pos.node].data[pos.index].value)
    {
      pos, b, j := FindNode(key, spec.HashOf(key));
      if pos.node != NULL { HitIsStored(spec, Contents(), key, b, j); }
    }

    /** remove: unbinds a key, or runs for ever. It ends exactly when the entry of the key
        sits in one of the last two nodes of its bin; whenever the tail node of the bin
        becomes empty, that node is lost. */
    method Remove(key: Ptr) returns (o: Removal, ov: Ptr)
      requires Valid() && spec.Lawful()
      modifies `size, `bins, `mem, `lists
      ensures !o.Hangs? ==> Valid()
      ensures o.Absent? <==> Lookup(spec, old(Contents()), key) == None
      ensures o.Absent? ==> size == old(size) && bins == old(bins) && mem == old(mem) && lists == old(lists)
      ensures !o.Absent? ==> |old(Contents())| > 0 && KeyBin(spec, old(Contents()), key) < |old(Contents())|
      ensures o.Hangs? <==> !o.Absent? && HangsAt(old(Contents()), KeyBin(spec, old(Contents()), key), RankIn(spec, old(Contents()), key))
      ensures o.Hangs? ==> Unending(old(mem), old(bins), old(lists), old(Contents()),
        KeyBin(spec, old(Contents()), key), RankIn(spec, old(Contents()), key))
      ensures o.Removed? ==> Unbinds(spec, old(Contents()), Contents(), key) && size + 1 == old(size)
      ensures o.Removed? ==> Lookup(spec, old(Contents()), key) == Some(ov)
      ensures o.Removed? ==>
        Contents() == RemovedAt(old(Contents()), KeyBin(spec, old(Contents()), key), RankIn(spec, old(Contents()), key))
      ensures o.Removed? ==> Lost() == old(Lost()) + EmptiedAt(old(bins), KeyBin(spec, old(Contents()), key))
    {
      var pos;
      ghost var b, j;
      pos, b, j := FindItem(key);
      if pos.node == NULL { return Absent, NULL; }
      var ends;
      ends, ov := RemoveFound(key, And(spec.HashOf(key), cap - 1), pos, j);
      o := if ends then Removed else Hangs;
    }

    method RemoveFound(key: Ptr, b: nat, pos: Cursor, ghost j: nat) returns (ends: bool, ov: Ptr)
      requires Valid() && spec.Lawful() && PointsAt(pos, b, j) && spec.Same(key, Contents()[b][j].key)
      modifies `size, `bins, `mem, `lists
      ensures !ends <==> HangsAt(old(Contents()), b, j)
      ensures !ends ==> Unending(old(mem), old(bins), old(lists), old(Contents()), b, j)
      ensures ends ==> Valid() && Unbinds(spec, old(Contents()), Contents(), key) && size + 1 == old(size)
      ensures ends ==> Contents() == RemovedAt(old(Contents()), b, j)
      ensures ends ==> Lost() == old(Lost()) + EmptiedAt(old(bins), b)
      ensures ov == old(mem[pos.node].data[pos.index].value)
    {
      ghost var t: Table := Contents();
      ov := mem[pos.node].data[pos.index].value;
      ends := RemoveAt(b, pos, j);
      if !ends { return; }
      RemovedFrom(spec, t, b, j, key);
      size := size - 1;
    }

    method RemoveAt(b: nat, pos: Cursor, ghost j: nat) returns (ends: bool)
      requires Shape() && PointsAt(pos, b, j)
      modifies `bins, `mem, `lists
      ensures !ends <==> HangsAt(old(Contents()), b, j)
      ensures !ends ==> Unending(old(mem), old(bins), old(lists), old(Contents()), b, j)
      ensures ends ==> Shape() && Contents() == old(Contents())[b := SwapRemoved(old(Contents())[b], j)]
      ensures ends ==> Lost() == old(Lost()) + EmptiedAt(old(bins), b)
    {
      assert BinAt(mem, bins, lists, b);
      var bin;
      ghost var ns;
      ends, bin, ns := RemoveFromBin(bins[b], lists[b], pos, j);
      if !ends { return; }
      OneBin(old(mem), mem, bins, lists, b, bin, ns);
      bins := bins[b := bin];
      lists := lists[b := ns];
    }

    // ------------------------------------------------------------------------
    // Emptying
    // ------------------------------------------------------------------------

    /** The loop of clear and flush: frees the nodes of every bin. */
    method DestroyBins()
      requires Shape()
      modifies `bins, `mem, `lists
      ensures Shape() && Lost() == old(Lost()) && forall c :: 0 <= c < cap ==> Contents()[c] == []
      ensures mem.Keys == old(Lost())
    {
      for i := 0 to cap
        invariant Shape() && Lost() == old(Lost())
        invariant forall c :: 0 <= c < i ==> Contents()[c] == [] && lists[c] == []
      {
        assert BinAt(mem, bins, lists, i);
        FreedBin(mem, bins, lists, i);
        FreeAll(bins[i].head, lists[i]);
        bins := bins[i := Bin(0, NULL, NULL)];
        lists := lists[i := []];
      }
    }

    /** clear: no entries, the same bins; every node that a bin held is freed. */
    method Clear()
      requires Valid()
      modifies `size, `bins, `mem, `lists
      ensures Valid() && size == 0 && mem.Keys == Lost() == old(Lost())
      ensures forall key :: Lookup(spec, Contents(), key) == None
    {
      DestroyBins();
      size := 0;
      EmptyMap(spec, Contents());
    }

    /** flush: no entries and no bins. */
    method Flush()
      requires Valid()
      modifies `size, `cap, `bins, `mem, `lists
      ensures Valid() && size == 0 && cap == 0 && mem.Keys == Lost() == old(Lost())
      ensures forall key :: Lookup(spec, Contents(), key) == None
    {
      DestroyBins();
      bins, lists, size, cap := [], [], 0, 0;
      EmptyMap(spec, Contents());
    }
  }

  /** How a growth ends: done, no memory for the bins and nothing changed, or no memory
      for a node in the middle of splitting the bins. */
  datatype GrowResult = Grown | NoBins | Interrupted

  /** How an insertion ends: the key was there, or the entry is new, or there was no
      memory and the map is as before, or a growth was interrupted. */
  datatype Outcome = Found | Created | NoMemory | Interrupted

  datatype Removal = Absent | Removed | Hangs

  function ValueOr(o: Option<Ptr>, dfl: Ptr): Ptr {
    if o.Some? then o.value else dfl
  }

  /** Where an insertion into t is refused memory, and the table u it leaves: before the bins
      of a full table were doubled, or at a node for the entry, when the last one of its bin
      is full. */
  predicate RanOut(t: Table, u: Table, h: nat) {
    || (u == t && Size(t) >= 4 * |t|)
    || (u == MadeRoom(t, false) && |u| > 0 && BinOf(h, |u|) < |u| && |u[BinOf(h, |u|)]| % NODE_SIZE == 0)
  }

  /** The table after create_item: grown if it was full, and the entry behind the others of
      its bin. */
  function Inserted(t: Table, e: Entry): Table {
    var u := MadeRoom(t, false);
    if BinOf(e.hash, |u|) < |u| then Added(u, BinOf(e.hash, |u|), e) else u
  }

  /** Where the search for a key ends in its bin. */
  ghost function RankIn(spec: Spec, t: Table, key: Ptr): nat {
    if |t| > 0 && KeyBin(spec, t, key) < |t| then Seek(spec, t[KeyBin(spec, t, key)], key) else 0
  }

  /** The table without entry j of bin b: the last entry of the bin is in its place. */
  ghost function RemovedAt(t: Table, b: nat, j: nat): Table {
    if b < |t| && j < |t[b]| then t[b := SwapRemoved(t[b], j)] else t
  }

  /** Entry j of bin b is in none of the last two nodes. */
  ghost predicate HangsAt(t: Table, b: nat, j: nat) {
    b < |t| && j / NODE_SIZE + 2 < NodesFor(|t[b]|)
  }

  /** The loop that fills the hole at entry j of bin b runs for ever. */
  ghost predicate Unending(m: Nodes, bins: seq<Bin>, lists: seq<seq<Ptr>>, t: Table, b: nat, j: nat) {
    b < |t| && AllBins(m, bins, lists) && exists pos :: Stands(m, bins, lists, pos, b, j) && NeverEnds(m, pos, (|t[b]| - 1) % NODE_SIZE)
  }

  /** The tail node of bin b, if it holds one entry. */
  ghost function EmptiedAt(bins: seq<Bin>, b: nat): set<Ptr> {
    if b < |bins| then Emptied(bins[b]) else {}
  }

  /** The search of a bin has passed i nodes without a hit. */
  ghost predicate Scanned(spec: Spec, m: Nodes, key: Ptr, bin: Bin, ns: seq<Ptr>, i: nat, curr: Ptr) {
    && IsBin(m, bin, ns) && i <= |ns| && curr == NodeFrom(ns, i) && (curr == NULL <==> i == |ns|)
    && NoHit(spec, key, Entries(m, bin, ns), if i < |ns| then NODE_SIZE * i else bin.size)
  }

  lemma ScanRound(spec: Spec, m: Nodes, key: Ptr, bin: Bin, ns: seq<Ptr>, i: nat, curr: Ptr, count: int)
    requires Scanned(spec, m, key, bin, ns, i, curr) && curr != NULL
    requires count == if bin.size - NODE_SIZE * i < NODE_SIZE then bin.size - NODE_SIZE * i else NODE_SIZE
    ensures curr in m && 0 < count <= |m[curr].data|
  {
    NodeSlots(m, bin, ns, i, count);
  }

  lemma ScanStep(spec: Spec, m: Nodes, key: Ptr, bin: Bin, ns: seq<Ptr>, i: nat, count: nat, k: nat)
    requires i < |ns| && Scanned(spec, m, key, bin, ns, i, ns[i])
    requires count == if bin.size - NODE_SIZE * i < NODE_SIZE then bin.size - NODE_SIZE * i else NODE_SIZE
    requires ns[i] in m && k <= count <= |m[ns[i]].data| && NoHit(spec, key, m[ns[i]].data, k)
    requires k < count ==> spec.Hits(key, spec.HashOf(key), m[ns[i]].data[k])
    ensures k == count ==> Scanned(spec, m, key, bin, ns, i + 1, m[ns[i]].next)
    ensures k == count && i + 1 < |ns| ==> count == NODE_SIZE
    ensures k < count ==> var j := Seek(spec, Entries(m, bin, ns), key); j < bin.size && At(Cursor(ns[i], k), ns, j)
  {
    NodeSlots(m, bin, ns, i, count);
    SearchOn(spec, key, Entries(m, bin, ns), NODE_SIZE * i, m[ns[i]].data, count, k);
  }

  lemma HitIsStored(spec: Spec, t: Table, key: Ptr, b: nat, j: nat)
    requires spec.Lawful() && WellFormed(spec, t) && b < |t| && j < |t[b]| && spec.Hits(key, spec.HashOf(key), t[b][j])
    ensures spec.Same(key, t[b][j].key) && Stores(t, t[b][j]) && t[b][j].hash == spec.HashOf(t[b][j].key)
  {
    assert t[b][j] in t[b] && PlacedIn(spec, |t|, b, t[b][j]);
    HitsIsSame(spec, key, t[b][j]);
  }

  /** The entry under the read cursor; one with the split bit leaves the write cursor alone. */
  lemma ReadNext(m: Nodes, ns: seq<Ptr>, y: Bin, ys: seq<Ptr>, spare: seq<Ptr>, es: seq<Entry>, c: nat, j: nat, src: Cursor, dst: Cursor)
    requires c > 0 && j < |es| && SplitState(m, ns, y, ys, spare, es, c, j) && At(src, ns, j) && At(dst, ns, |Kept(es[..j], c)|)
    ensures src.node in m && src.index < |m[src.node].data| && m[src.node].data[src.index] == es[j]
    ensures SplitBit(es[j].hash, c) ==> At(dst, ns, |Kept(es[..j + 1], c)|)
    ensures ys + [] == ys
  {
    EntryUnder(m, ns, es, Kept(es[..j], c), j, src);
    SplitNext(es, j, c);
  }

  /** After the last bin: give the free list back, and the table is split. */
  lemma SplitDone(spec: Spec, m: Nodes, bins: seq<Bin>, lists: seq<seq<Ptr>>, spare: seq<Ptr>, t: Table, lost: set<Ptr>)
    requires SplitLoop(m, bins, lists, spare, t, |t|, lost) && spec.Lawful() && WellFormed(spec, t)
    ensures var m' := m - Members(spare);
      && AllBins(m', bins, lists) && TableOf(m', bins, lists) == SplitUpTo(t, |t|, false)
      && Apart(lists, []) && Leaked(m', lists, []) == lost
    ensures IsSplit(t, SplitUpTo(t, |t|, false)) && WellFormed(spec, SplitUpTo(t, |t|, false)) && Size(SplitUpTo(t, |t|, false)) == Size(t)
    ensures PowerOfTwo(2 * |t|)
  {
    FreeRestOfList(m, bins, lists, spare);
    FullSplit(t, false);
    SplitWellFormed(spec, t, SplitUpTo(t, |t|, false));
    SplitSize(t, SplitUpTo(t, |t|, false));
    BinAfterDoubling(0, |t|);
  }

  lemma SplitStart(m: Nodes, x: Bin, ns: seq<Ptr>, y: Bin, spare: seq<Ptr>, c: nat)
    requires c > 0 && IsBin(m, x, ns) && y == Bin(0, NULL, NULL) && FreeList(m, spare) && Disjoint(ns, spare)
    ensures SplitState(m, ns, y, [], spare, Entries(m, x, ns), c, 0)
  {
  }

  lemma SplitEnd(m: Nodes, ns: seq<Ptr>, y: Bin, ys: seq<Ptr>, spare: seq<Ptr>, es: seq<Entry>, c: nat)
    requires c > 0 && SplitState(m, ns, y, ys, spare, es, c, |es|)
    ensures Splitting(m, ns, es, Kept(es, c), |es|)
    ensures IsBin(m, y, ys) && Entries(m, y, ys) == Moved(es, c) && FreeList(m, spare)
    ensures Disjoint(ns, ys) && Disjoint(ns, spare) && Disjoint(ys, spare)
  {
    assert es[..|es|] == es;
  }

  lemma TransferBoth(m0: Nodes, m1: Nodes, m2: Nodes, ns: seq<Ptr>, spare: seq<Ptr>, ys: seq<Ptr>, spare1: seq<Ptr>,
                     ns': seq<Ptr>, spare2: seq<Ptr>)
    requires Accounted(m0, m1, ns, spare, ys, spare1)
    requires forall p :: p in ns' || p in spare2 <==> p in ns || p in spare1
    requires Keeps(m1, m2, Members(ns)) && m2.Keys == m1.Keys
    ensures Transferred(m0, m2, ns, spare, ns', ys, spare2)
  {
  }

  /** While a bin is split, the free list only loses nodes to the new bin, the new bin
      gets its nodes from there or from malloc, and nothing else is touched. */
  ghost predicate Accounted(m0: Nodes, m: Nodes, ns: seq<Ptr>, spare0: seq<Ptr>, ys: seq<Ptr>, spare: seq<Ptr>) {
    && (forall p :: p in spare0 ==> p in ys || p in spare)
    && (forall p :: p in ys || p in spare ==> p in spare0 || p !in m0)
    && Keeps(m0, m, Members(ns) + Members(spare0))
    && m.Keys == m0.Keys + Members(ys) && |spare| == Left(|spare0|, |ys|)
  }

  lemma AccountStep(m0: Nodes, m1: Nodes, m2: Nodes, ns: seq<Ptr>, spare0: seq<Ptr>,
                    ys: seq<Ptr>, spare1: seq<Ptr>, added: seq<Ptr>, spare2: seq<Ptr>)
    requires Accounted(m0, m1, ns, spare0, ys, spare1)
    requires spare1 == added + spare2 || (spare1 == spare2 == [] && forall p :: p in added ==> p !in m1)
    requires Keeps(m1, m2, Members(ns) + Members(ys) + Members(added)) && m2.Keys == m1.Keys + Members(added)
    ensures Accounted(m0, m2, ns, spare0, ys + added, spare2)
  {
    assert forall p :: p in ys + added <==> p in ys || p in added;
    if spare1 == added + spare2 {
      assert forall p :: p in spare1 <==> p in added || p in spare2;
    }
  }
}
