/** The hash of pointers (src/main/pphash.cpp). */
module PpHash {
  /* A map whose bins are linked lists, with keys that are copied on insertion. */

  import opened Basics
  import opened Bits
  import opened Buckets
  import opened HashTable
  import opened LinkedMemory
  import opened PpTuples
  import opened SplitTables

  datatype Outcome = Found | Created | NoMemory

  class PpHash {
    const spec: Spec
    var size: nat
    var cap: nat
    var bins: seq<Bin>
    var mem: Tuples                     // the tuples malloc has handed out and free has not taken back
    ghost var lists: seq<seq<Ptr>>      // the tuples of every bin
    ghost var refused: nat              // requests for memory that were refused
    ghost var peak: nat                 // the greatest size since construction or flush

    ghost predicate Shape()
      reads `cap, `bins, `mem, `lists
    {
      |bins| == cap && Sound(mem, bins, lists)
    }

    ghost predicate Valid()
      reads this
    {
      && Shape() && WellFormed(spec, Contents()) && size == Size(Contents())
      && size <= peak && CapacityFor(peak, cap)
    }

    /** The entries of every bin. */
    ghost function Contents(): Table
      reads `mem, `lists
    {
      TableOf(mem, lists)
    }

    constructor (spec: Spec)
      ensures Valid() && size == 0 && cap == 0 && this.spec == spec && peak == 0 && refused == 0
    {
      this.spec := spec;
      size, cap, bins, mem := 0, 0, [], map[];
      lists, peak, refused := [], 0, 0;
    }

    // ------------------------------------------------------------------------
    // Growing
    // ------------------------------------------------------------------------

    /** Moves the tuples with the split bit from a bin to the front of a new one. */
    method SplitBin(x: Bin, c: nat, ghost ns: seq<Ptr>) returns (x': Bin, y: Bin, ghost ks: seq<Ptr>, ghost ys: seq<Ptr>)
      requires c > 0 && IsBin(mem, x, ns)
      modifies `mem
      ensures IsBin(mem, x', ks) && IsBin(mem, y, ys) && Disjoint(ks, ys) && Disjoint(ys, ks)
      ensures EntriesOf(mem, ks) == Kept(old(EntriesOf(mem, ns)), c)
      ensures EntriesOf(mem, ys) == Backwards(Moved(old(EntriesOf(mem, ns)), c))
      ensures (forall p :: p in ns <==> p in ks || p in ys) && mem.Keys == old(mem.Keys) && Keeps(old(mem), mem, Members(ns))
    {
      ghost var m0 := mem;
      x', y, ks, ys := x, Bin(0, NULL), [], [];
      var prev := NULL;                 // the tuple whose next is looked at, NULL for the head of the bin
      ghost var j := 0;
      SplitStart(mem, x, ns, c);
      var curr := x'.data;
      assert ns[0..] == ns;
      NextToSplit(m0, mem, ns, c, 0, x', y, ks, ys);
      while curr != NULL
        invariant SplitState(m0, mem, ns, c, j, x', y, ks, ys) && curr == First(ns[j..]) && prev == Last(ks)
        invariant curr == NULL <==> j == |ns|
        decreases |ns| - j
      {
        NextToSplit(m0, mem, ns, c, j, x', y, ks, ys);
        var next := mem[curr].next;
        if And(mem[curr].data.hash, Xor(2 * c - 1, c - 1)) != 0 {
          MoveStep(m0, mem, ns, c, j, x', y, ks, ys);
          if prev == NULL { x' := x'.(data := next); } else { mem := SetNext(mem, prev, next); }
          mem := SetNext(mem, curr, y.data);
          x', y := x'.(size := x'.size - 1), Bin(y.size + 1, curr);
          ys := [curr] + ys;
        } else {
          KeepStep(m0, mem, ns, c, j, x', y, ks, ys);
          prev := curr;
          ks := ks + [curr];
        }
        curr, j := next, j + 1;
        NextToSplit(m0, mem, ns, c, j, x', y, ks, ys);
      }
      SplitEnd(m0, mem, ns, c, x', y, ks, ys);
    }

    /** One round of the loop over the old bins. */
    method SplitNextBin(i: nat, ghost t: Table)
      requires SplitLoop(mem, bins, lists, t, i) && i < cap == |t|
      modifies `bins, `mem, `lists
      ensures SplitLoop(mem, bins, lists, t, i + 1)
    {
      SplitBinIs(mem, bins, lists, t, i);
      var x, y;
      ghost var ks, ys;
      x, y, ks, ys := SplitBin(bins[i], cap, lists[i]);
      SplitRound(old(mem), mem, bins, lists, t, i, x, y, ks, ys);
      bins := bins[i := x][cap + i := y];
      lists := lists[i := ks][cap + i := ys];
    }

    /** grow: the first sixteen bins, or twice as many; false without memory for the bins,
        and then nothing has changed. */
    method Grow() returns (ok: bool)
      requires Shape() && WellFormed(spec, Contents()) && spec.Lawful()
      modifies `cap, `bins, `mem, `lists, `refused
      ensures refused == old(refused) + (if ok then 0 else 1)
      ensures !ok ==> cap == old(cap) && bins == old(bins) && mem == old(mem) && lists == old(lists)
      ensures ok ==> cap == if old(cap) == 0 then 0x10 else 2 * old(cap)
      ensures ok ==> Shape() && WellFormed(spec, Contents()) && SameMap(spec, old(Contents()), Contents())
      ensures ok ==> Size(Contents()) == Size(old(Contents()))
      ensures ok ==> Contents() == GrownFrom(old(Contents()), true)
    {
      ghost var t: Table := Contents();
      var granted := *;
      if !granted {
        refused := refused + 1;
        return false;
      }
      if cap == 0 {
        cap := 0x10;
        MoreBins(mem, bins, lists, 0x10);
        bins := bins + seq(0x10, _ => Bin(0, NULL));
        lists := lists + seq(0x10, _ => []);
        EmptyMap(spec, t);
        EmptyMap(spec, Contents());
        assert Contents() == GrownFrom(t, true);
        return true;
      }
      MoreBins(mem, bins, lists, cap);
      NothingSplit(t, true);
      bins := bins + seq(cap, _ => Bin(0, NULL));
      lists := lists + seq(cap, _ => []);
      for i := 0 to cap
        invariant cap == old(cap) && refused == old(refused) && SplitLoop(mem, bins, lists, t, i)
      {
        SplitNextBin(i, t);
      }
      cap := 2 * cap;
      FullSplit(t, true);
      SplitWellFormed(spec, t, SplitUpTo(t, |t|, true));
      SplitKeepsMap(spec, t, SplitUpTo(t, |t|, true));
      SplitSize(t, SplitUpTo(t, |t|, true));
      ok := true;
    }

    // ------------------------------------------------------------------------
    // Searching
    // ------------------------------------------------------------------------

    /** The loop over one bin: the first tuple that hits. */
    static method FindIn(spec: Spec, m: Tuples, key: Ptr, h: nat, bin: Bin, ghost ns: seq<Ptr>) returns (p: Ptr)
      requires IsBin(m, bin, ns) && h == spec.HashOf(key)
      ensures var j := Seek(spec, EntriesOf(m, ns), key); p == if j < |ns| then ns[j] else NULL
    {
      ghost var es, i := EntriesOf(m, ns), 0;
      p := bin.data;
      if ns != [] { ThreadEnds(m, ns, NULL); }
      while p != NULL
        invariant i <= |ns| && p == (if i < |ns| then ns[i] else NULL) && (p == NULL <==> i == |ns|)
        invariant NoHit(spec, key, es, i)
        decreases |ns| - i
      {
        assert NextAt(m, ns, NULL, i) && es[i] == m[p].data;
        assert i + 1 < |ns| ==> NextAt(m, ns, NULL, i + 1);
        if spec.Hits(key, h, m[p].data) {
          SeekIs(spec, es, key, i);
          return;
        }
        p := m[p].next;
        i := i + 1;
      }
      SeekIs(spec, es, key, |es|);
    }

    /** find_tuple: the tuple of a key, NULL exactly when the key is not bound. */
    method FindTuple(key: Ptr, h: nat) returns (p: Ptr, ghost b: nat, ghost j: nat)
      requires Valid() && spec.Lawful() && h == spec.HashOf(key)
      ensures p == NULL <==> Lookup(spec, Contents(), key) == None
      ensures cap > 0 ==> b == BinOf(h, cap) && b < cap
      ensures p != NULL ==> Stands(mem, lists, p, b, j) && Lookup(spec, Contents(), key) == Some(mem[p].data.value)
      ensures p != NULL ==> b < |Contents()| && j < |Contents()[b]| && Contents()[b][j] == mem[p].data
      ensures p != NULL ==> b == KeyBin(spec, Contents(), key) && j == Seek(spec, Contents()[b], key)
      ensures p != NULL ==> spec.Same(key, mem[p].data.key) && Stores(Contents(), mem[p].data)
    {
      if cap == 0 { return NULL, 0, 0; }
      Located(spec, mem, bins, lists, key);
      b := And(h, cap - 1);
      j := Seek(spec, Contents()[b], key);
      assert BinAt(mem, bins, lists, b);
      p := FindIn(spec, mem, key, h, bins[And(h, cap - 1)], lists[b]);
    }

    /** get: the bound value, or the default. */
    method Get(key: Ptr, dfl: Ptr) returns (r: Ptr)
      requires Valid() && spec.Lawful()
      ensures r == match Lookup(spec, Contents(), key) case Some(v) => v case None => dfl
    {
      var p;
      ghost var b, j;
      p, b, j := FindTuple(key, spec.HashOf(key));
      r := if p != NULL then mem[p].data.value else dfl;
    }

    /** key: the stored copy of the key, or the default. */
    method Key(key: Ptr, dfl: Ptr) returns (r: Ptr)
      requires Valid() && spec.Lawful()
      ensures Lookup(spec, Contents(), key) == None ==> r == dfl
      ensures forall v :: Lookup(spec, Contents(), key) == Some(v) ==>
        spec.Same(key, r) && exists e :: Stores(Contents(), e) && e.key == r && e.value == v
    {
      var p;
      ghost var b, j;
      p, b, j := FindTuple(key, spec.HashOf(key));
      r := if p != NULL then mem[p].data.key else dfl;
    }

    // ------------------------------------------------------------------------
    // Inserting and replacing
    // ------------------------------------------------------------------------

    method SetValue(p: Ptr, v: Ptr, ghost key: Ptr, ghost b: nat, ghost j: nat)
      requires Valid() && spec.Lawful() && Stands(mem, lists, p, b, j)
      requires Contents()[b][j] == mem[p].data && spec.Same(key, mem[p].data.key)
      modifies `mem
      ensures Valid() && Binds(spec, old(Contents()), Contents(), key, v) && Contents() == Updated(old(Contents()), b, j, v)
    {
      ValueWritten(mem, bins, lists, p, b, j, v);
      UpdatedBinds(spec, Contents(), b, j, v, key);
      mem := SetData(mem, p, mem[p].data.(value := v));
    }

    /** The allocator of the keys: NULL, or a key equal to the given one. */
    method Clone(key: Ptr) returns (copy: Ptr)
      requires spec.Lawful() && key != NULL
      modifies `refused
      ensures refused == old(refused) + (if copy == NULL then 1 else 0) && (copy == NULL || spec.Same(key, copy))
    {
      var granted := *;
      if !granted {
        refused := refused + 1;
        return NULL;
      }
      assert spec.Reflexive(key) && spec.Same(key, key);
      copy :| copy != NULL && spec.Same(key, copy);
    }

    /** create_tuple, and the value its callers store. (That malloc has memory for the tuple
        is settled first; the tuple joins the memory when it is linked.) */
    method CreateTuple(key: Ptr, h: nat, value: Ptr) returns (ok: bool, copy: Ptr)
      requires Valid() && spec.Lawful() && h == spec.HashOf(key) && Lookup(spec, Contents(), key) == None
      modifies `size, `cap, `bins, `mem, `lists, `peak, `refused
      ensures refused == old(refused) + (if ok then 0 else 1)
      ensures !ok ==> bins == old(bins) && mem == old(mem) && lists == old(lists)
      ensures Valid() && (!ok ==> size == old(size) && cap == old(cap) && Contents() == old(Contents()) && peak == old(peak))
      ensures ok ==> Binds(spec, old(Contents()), Contents(), key, value) && size == old(size) + 1
      ensures ok ==> peak == if old(size) + 1 > old(peak) then old(size) + 1 else old(peak)
      ensures ok ==> spec.Same(key, copy) && Contents() == Pushed(old(Contents()), Entry(h, copy, value))
    {
      copy := NULL;
      var granted := *;
      if !granted {
        refused := refused + 1;
        return false, copy;
      }
      if key != NULL {
        copy := Clone(key);
        if copy == NULL { return false, copy; }
      }
      ok := GrowIfFull();
      if ok { LinkTuple(old(Contents()), key, copy, h, value); }
    }

    method GrowIfFull() returns (ok: bool)
      requires Valid() && spec.Lawful()
      modifies `cap, `bins, `mem, `lists, `refused
      ensures refused == old(refused) + (if ok then 0 else 1)
      ensures !ok ==> cap == old(cap) && bins == old(bins) && mem == old(mem) && lists == old(lists)
      ensures ok ==> Shape() && WellFormed(spec, Contents()) && SameMap(spec, old(Contents()), Contents())
      ensures ok ==> Size(Contents()) == size && cap > 0 && Contents() == MadeRoom(old(Contents()), true)
      ensures ok ==> CapacityFor(if size + 1 > peak then size + 1 else peak, cap)
    {
      CapacityStep(peak, size, cap);
      ok := true;
      if size >= cap * 4 { ok := Grow(); }
    }

    /** The rest of create_tuple, in a table that has room. */
    method LinkTuple(ghost t0: Table, key: Ptr, copy: Ptr, h: nat, value: Ptr)
      requires Shape() && WellFormed(spec, Contents()) && spec.Lawful() && SameMap(spec, t0, Contents()) && cap > 0
      requires Size(Contents()) == size <= peak && CapacityFor(if size + 1 > peak then size + 1 else peak, cap)
      requires spec.Same(key, copy) && h == spec.HashOf(key) && Lookup(spec, t0, key) == None
      modifies `size, `bins, `mem, `lists, `peak
      ensures Valid() && Binds(spec, t0, Contents(), key, value) && size == old(size) + 1
      ensures Contents() == InFront(old(Contents()), Entry(h, copy, value))
      ensures peak == if old(size) + 1 > old(peak) then old(size) + 1 else old(peak)
    {
      CopyBound(spec, t0, Contents(), key, copy, value);
      BinAfterDoubling(h, cap);
      PushTuple(And(h, cap - 1), Entry(h, copy, value));
      size := size + 1;
      peak := if size > peak then size else peak;
    }

    /** A new tuple in front of a bin. */
    method PushTuple(b: nat, e: Entry)
      requires Shape() && b < cap
      modifies `bins, `mem, `lists
      ensures Shape() && Contents() == old(Contents())[b := [e] + old(Contents())[b]]
    {
      ghost var free := FreshAddress(mem.Keys);
      assert free !in mem.Keys;
      var p: Ptr :| p != NULL && p !in mem.Keys;
      assert BinAt(mem, bins, lists, b);
      mem := mem[p := Node(bins[b].data, NULL, e)];
      PushFront(old(mem), mem, lists[b], p);
      var bin := Bin(bins[b].size + 1, p);
      OneBin(old(mem), mem, bins, lists, b, bin, [p] + lists[b]);
      bins := bins[b := bin];
      lists := lists[b := [p] + lists[b]];
    }

    /** put: binds the key, whatever it was bound to. */
    method Put(key: Ptr, value: Ptr) returns (o: Outcome, ov: Ptr)
      requires Valid() && spec.Lawful()
      modifies `size, `cap, `bins, `mem, `lists, `peak, `refused
      ensures refused == old(refused) + (if o.NoMemory? then 1 else 0)
      ensures o.NoMemory? ==> bins == old(bins) && mem == old(mem) && lists == old(lists)
      ensures Valid() && (o.Found? <==> Lookup(spec, old(Contents()), key).Some?)
      ensures !o.NoMemory? ==> Binds(spec, old(Contents()), Contents(), key, value)
      ensures o.Found? ==> Contents() == WithValue(spec, old(Contents()), key, value)
      ensures o.Found? ==> Lookup(spec, old(Contents()), key) == Some(ov) && size == old(size)
      ensures o.Created? ==> ov == NULL && size == old(size) + 1
      ensures o.Created? ==> exists copy :: spec.Same(key, copy) && Contents() == Pushed(old(Contents()), Entry(spec.HashOf(key), copy, value))
      ensures o.NoMemory? ==> Contents() == old(Contents()) && size == old(size) && cap == old(cap)
    {
      var h := spec.HashOf(key);
      var p;
      ghost var b, j;
      p, b, j := FindTuple(key, h);
      if p != NULL {
        ov := mem[p].data.value;
        SetValue(p, value, key, b, j);
        return Found, ov;
      }
      var ok, copy := CreateTuple(key, h, value);
      o, ov := if ok then Created else NoMemory, NULL;
    }

    /** create: binds an unbound key; the tuple holds a copy of the key. */
    method Create(key: Ptr, value: Ptr) returns (o: Outcome, ghost copy: Ptr)
      requires Valid() && spec.Lawful()
      modifies `size, `cap, `bins, `mem, `lists, `peak, `refused
      ensures refused == old(refused) + (if o.NoMemory? then 1 else 0)
      ensures o.NoMemory? ==> bins == old(bins) && mem == old(mem) && lists == old(lists)
      ensures Valid() && (o.Found? <==> Lookup(spec, old(Contents()), key).Some?)
      ensures o.Created? ==> Binds(spec, old(Contents()), Contents(), key, value) && size == old(size) + 1
      ensures o.Created? ==> spec.Same(key, copy) && Contents() == Pushed(old(Contents()), Entry(spec.HashOf(key), copy, value))
      ensures !o.Created? ==> Contents() == old(Contents()) && size == old(size) && cap == old(cap)
    {
      var h := spec.HashOf(key);
      var p;
      ghost var b, j;
      p, b, j := FindTuple(key, h);
      if p != NULL { return Found, NULL; }
      var ok;
      ok, copy := CreateTuple(key, h, value);
      o := if ok then Created else NoMemory;
    }

    /** replace: rebinds a bound key and gives the old value back. */
    method Replace(key: Ptr, value: Ptr) returns (ok: bool, ov: Ptr)
      requires Valid() && spec.Lawful()
      modifies `mem
      ensures Valid() && (ok <==> Lookup(spec, old(Contents()), key).Some?)
      ensures ok ==> Binds(spec, old(Contents()), Contents(), key, value) && Lookup(spec, old(Contents()), key) == Some(ov)
      ensures if ok then Contents() == WithValue(spec, old(Contents()), key, value) else Contents() == old(Contents())
    {
      var p;
      ghost var b, j;
      p, b, j := FindTuple(key, spec.HashOf(key));
      if p == NULL { return false, NULL; }
      ov := mem[p].data.value;
      SetValue(p, value, key, b, j);
      ok := true;
    }

    // ------------------------------------------------------------------------
    // Removing
    // ------------------------------------------------------------------------

    /** The loop of remove_tuple: the tuple that hits, and the one whose next leads to it. */
    static method FindLink(spec: Spec, m: Tuples, key: Ptr, h: nat, bin: Bin, ghost ns: seq<Ptr>) returns (prev: Ptr, p: Ptr)
      requires IsBin(m, bin, ns) && h == spec.HashOf(key)
      ensures var j := Seek(spec, EntriesOf(m, ns), key);
        p == (if j < |ns| then ns[j] else NULL) && (j < |ns| ==> p != NULL && IsLink(ns, prev, j))
    {
      ghost var es, i := EntriesOf(m, ns), 0;
      prev, p := NULL, bin.data;
      if ns != [] { ThreadEnds(m, ns, NULL); }
      while p != NULL
        invariant i <= |ns| && p == (if i < |ns| then ns[i] else NULL) && (p == NULL <==> i == |ns|)
        invariant IsLink(ns, prev, i)
        invariant NoHit(spec, key, es, i)
        decreases |ns| - i
      {
        assert NextAt(m, ns, NULL, i) && es[i] == m[p].data && p in ns;
        assert i + 1 < |ns| ==> NextAt(m, ns, NULL, i + 1);
        if spec.Hits(key, h, m[p].data) {
          SeekIs(spec, es, key, i);
          return;
        }
        prev, p := p, m[p].next;
        i := i + 1;
      }
      SeekIs(spec, es, key, |es|);
    }

    /** Unlinks a tuple from its bin and frees it. */
    method Unlink(b: nat, prev: Ptr, p: Ptr, ghost j: nat)
      requires Shape() && b < cap && j < |lists[b]| && p == lists[b][j]
      requires IsLink(lists[b], prev, j)
      modifies `bins, `mem, `lists
      ensures Shape() && Contents() == old(Contents())[b := old(Contents())[b][..j] + old(Contents())[b][j + 1..]]
      ensures mem.Keys == old(mem.Keys) - {p}
    {
      assert BinAt(mem, bins, lists, b);
      ghost var ns := lists[b];
      ghost var rest := ns[..j] + ns[j + 1..];
      CutOut(mem, ns, j);
      var bin := bins[b];
      if prev == NULL { bin := bin.(data := mem[p].next); } else { mem := SetNext(mem, prev, mem[p].next); }
      bin := bin.(size := bin.size - 1);
      mem := mem - {p};
      OneBin(old(mem), mem, bins, lists, b, bin, rest);
      bins := bins[b := bin];
      lists := lists[b := rest];
    }

    /** remove: unbinds the key and gives its value back; the tuple is freed. */
    method Remove(key: Ptr) returns (ok: bool, ov: Ptr)
      requires Valid() && spec.Lawful()
      modifies `size, `bins, `mem, `lists
      ensures Valid() && (ok <==> Lookup(spec, old(Contents()), key).Some?)
      ensures ok ==> Unbinds(spec, old(Contents()), Contents(), key) && Lookup(spec, old(Contents()), key) == Some(ov)
      ensures ok ==> size + 1 == old(size) && Contents() == WithoutKey(spec, old(Contents()), key)
      ensures !ok ==> Contents() == old(Contents()) && size == old(size) && mem == old(mem)
    {
      var h := spec.HashOf(key);
      var prev, p;
      ghost var b, j;
      prev, p, b, j := FindToRemove(key, h);
      if p == NULL { return false, NULL; }
      ov := RemoveAt(And(h, cap - 1), prev, p, j, key);
      ok := true;
    }

    method FindToRemove(key: Ptr, h: nat) returns (prev: Ptr, p: Ptr, ghost b: nat, ghost j: nat)
      requires Valid() && spec.Lawful() && h == spec.HashOf(key)
      ensures p == NULL <==> Lookup(spec, Contents(), key) == None
      ensures p != NULL ==> cap > 0 && b == And(h, cap - 1) && Stands(mem, lists, p, b, j) && IsLink(lists[b], prev, j)
      ensures p != NULL ==> b < |Contents()| && j == Seek(spec, Contents()[b], key)
      ensures p != NULL ==> Lookup(spec, Contents(), key) == Some(mem[p].data.value)
      ensures p != NULL ==> Contents()[b][j] == mem[p].data && spec.Same(key, mem[p].data.key)
    {
      if cap == 0 { return NULL, NULL, 0, 0; }
      Located(spec, mem, bins, lists, key);
      b := And(h, cap - 1);
      j := Seek(spec, Contents()[b], key);
      assert BinAt(mem, bins, lists, b);
      prev, p := FindLink(spec, mem, key, h, bins[And(h, cap - 1)], lists[b]);
    }

    method RemoveAt(b: nat, prev: Ptr, p: Ptr, ghost j: nat, ghost key: Ptr) returns (ov: Ptr)
      requires Valid() && spec.Lawful() && Stands(mem, lists, p, b, j)
      requires Contents()[b][j] == mem[p].data && spec.Same(key, mem[p].data.key)
      requires IsLink(lists[b], prev, j)
      modifies `size, `bins, `mem, `lists
      ensures Valid() && Unbinds(spec, old(Contents()), Contents(), key) && size + 1 == old(size)
      ensures Contents() == RemovedAt(old(Contents()), b, j)
      ensures ov == old(Contents())[b][j].value
    {
      ov := mem[p].data.value;
      CutFrom(spec, Contents(), b, j, key);
      Unlink(b, prev, p, j);
      size := size - 1;
    }

    // ------------------------------------------------------------------------
    // Emptying
    // ------------------------------------------------------------------------

    method FreeThread(first: Ptr, ghost ns: seq<Ptr>)
      requires Thread(mem, ns, NULL) && first == First(ns)
      modifies `mem
      ensures mem == old(mem) - Members(ns)
    {
      var curr := first;
      ghost var rest := ns;
      if ns != [] { ThreadEnds(mem, ns, NULL); }
      while curr != NULL
        invariant Thread(mem, rest, NULL) && curr == First(rest) && (curr == NULL <==> rest == [])
        invariant Members(rest) <= Members(ns) && mem == old(mem) - (Members(ns) - Members(rest))
        decreases |rest|
      {
        ghost var p, more := rest[0], rest[1..];
        assert rest == [p] + more;
        ThreadEnds(mem, rest, NULL);
        ThreadCut(mem, [p], more, NULL);
        if more != [] { ThreadEnds(mem, more, NULL); }
        var next := mem[curr].next;
        KeepsThread(mem, mem - {curr}, {curr}, more, NULL);
        assert forall q :: q in rest <==> q == p || q in more;
        mem := mem - {curr};
        curr, rest := next, more;
      }
    }

    /** destroy_bin: frees the tuples of a bin. */
    method DestroyBin(b: nat)
      requires Shape() && b < cap
      modifies `bins, `mem, `lists
      ensures Shape() && lists == old(lists)[b := []]
    {
      assert BinAt(mem, bins, lists, b);
      FreeThread(bins[b].data, lists[b]);
      OneBin(old(mem), mem, bins, lists, b, Bin(0, NULL), []);
      bins := bins[b := Bin(0, NULL)];
      lists := lists[b := []];
    }

    method DestroyBins()
      requires Shape()
      modifies `bins, `mem, `lists
      ensures Shape() && mem == map[] && forall b :: 0 <= b < cap ==> lists[b] == []
    {
      for i := 0 to cap
        invariant Shape() && forall b :: 0 <= b < i ==> lists[b] == []
      {
        DestroyBin(i);
      }
      forall p ensures p !in mem { assert OwnedIn(mem, lists, p); }
    }

    /** clear: no entries, but the bins, and so the capacity, stay. */
    method Clear()
      requires Valid()
      modifies `size, `bins, `mem, `lists
      ensures Valid() && size == 0 && mem == map[] && cap == old(cap)
      ensures forall key :: Lookup(spec, Contents(), key) == None
    {
      DestroyBins();
      size := 0;
      assert cap > 0 ==> PowerOfTwo(cap);
      EmptyMap(spec, Contents());
    }

    /** flush: no entries and no bins. */
    method Flush()
      requires Valid()
      modifies `size, `cap, `bins, `mem, `lists, `peak
      ensures Valid() && size == 0 && cap == 0 && peak == 0 && mem == map[]
      ensures forall key :: Lookup(spec, Contents(), key) == None
    {
      DestroyBins();
      bins, lists, size, cap, peak := [], [], 0, 0, 0;
      EmptyMap(spec, Contents());
    }
  }

  /** An entry under a copy of the key binds the key. */
  lemma CopyBound(spec: Spec, t0: Table, t: Table, key: Ptr, copy: Ptr, value: Ptr)
    requires spec.Lawful() && WellFormed(spec, t) && SameMap(spec, t0, t) && PowerOfTwo(|t|)
    requires spec.Same(key, copy) && Lookup(spec, t0, key) == None
    ensures KeyBin(spec, t, key) < |t|
    ensures var h := spec.HashOf(key); var b := BinOf(h, |t|); var u := t[b := [Entry(h, copy, value)] + t[b]];
      WellFormed(spec, u) && Binds(spec, t0, u, key, value) && Size(u) == Size(t) + 1
  {
    var h := spec.HashOf(key);
    var b := BinOf(h, |t|);
    KeyBinRange(spec, t, key);
    SameSymmetric(spec, key, copy);
    BindsAlike(spec, t0, t, key, copy, value);
    PushedBinds(spec, t0, t, b, Entry(h, copy, value));
    BindsAlike(spec, t0, t[b := [Entry(h, copy, value)] + t[b]], key, copy, value);
  }

  /** The capacity after the size has reached `peak` at most: none before the first insertion,
      then the least 16 * 2^k bins with at most four entries a bin. */
  ghost predicate CapacityFor(peak: nat, cap: nat) {
    if peak == 0 then cap == 0
    else PowerOfTwo(cap) && cap >= 0x10 && peak <= 4 * cap && (cap > 0x10 ==> 2 * cap < peak)
  }

  /** The table without tuple j of bin b; the others of the bin keep their order. */
  function RemovedAt(t: Table, b: nat, j: nat): Table {
    if b < |t| && j < |t[b]| then t[b := t[b][..j] + t[b][j + 1..]] else t
  }

  /** The table without the tuple of a key. */
  function WithoutKey(spec: Spec, t: Table, key: Ptr): Table {
    if |t| > 0 && KeyBin(spec, t, key) < |t|
    then RemovedAt(t, KeyBin(spec, t, key), Seek(spec, t[KeyBin(spec, t, key)], key))
    else t
  }

  /** A tuple in front of the bin of its hash. */
  function InFront(t: Table, e: Entry): Table {
    if |t| > 0 && BinOf(e.hash, |t|) < |t| then t[BinOf(e.hash, |t|) := [e] + t[BinOf(e.hash, |t|)]] else t
  }

  /** The table after create_tuple: grown if it was full, and the tuple in front of its bin. */
  function Pushed(t: Table, e: Entry): Table {
    InFront(MadeRoom(t, true), e)
  }

  lemma CapacityStep(peak: nat, size: nat, cap: nat)
    requires CapacityFor(peak, cap) && size <= peak
    ensures var next := if size + 1 > peak then size + 1 else peak;
      CapacityFor(next, if size >= cap * 4 then (if cap == 0 then 0x10 else 2 * cap) else cap)
  {
    assert PowerOfTwo(0x10);
    if cap > 0 { BinAfterDoubling(0, cap); }
  }

  lemma {:induction false} PowersApart(a: nat, b: nat)
    requires PowerOfTwo(a) && PowerOfTwo(b) && a < b
    ensures 2 * a <= b
  {
    if a > 1 { PowersApart(a / 2, b / 2); }
  }

  /** The capacity is the least one of those that are allowed. */
  lemma LeastCapacity(peak: nat, cap: nat, c: nat)
    requires peak > 0 && CapacityFor(peak, cap) && PowerOfTwo(c) && c >= 0x10 && peak <= 4 * c
    ensures cap <= c
  {
    if c < cap { PowersApart(c, cap); }
  }

  /** Over every run: no bins before the first insertion since construction or flush, and
      afterwards the least 16 * 2^k bins with at most four tuples a bin at the peak size. */
  lemma CapacityIsLeast(h: PpHash, c: nat)
    requires h.Valid()
    ensures h.size <= h.peak && (h.peak == 0 <==> h.cap == 0)
    ensures h.peak > 0 ==> PowerOfTwo(h.cap) && h.cap >= 0x10 && h.peak <= 4 * h.cap
    ensures h.peak > 0 && PowerOfTwo(c) && c >= 0x10 && h.peak <= 4 * c ==> h.cap <= c
  {
    if h.peak > 0 && PowerOfTwo(c) && c >= 0x10 && h.peak <= 4 * c { LeastCapacity(h.peak, h.cap, c); }
  }
}
