/** Iterators and snapshots of src/main/pphash.cpp. */
module PpHashIter {
  /* While a move skips whole bins the iterator has no item: it stands behind the last
     tuple of its bin. Forwards that bin is done with; backwards its last tuple comes next. */

  import opened Basics
  import opened Buckets
  import opened HashTable
  import opened Iterators
  import opened LinkedMemory
  import opened PpHash
  import opened PpTuples

  datatype Iterator = Invalid | Iterator(item: Ptr, index: int, offset: nat, reverse: bool)

  /** The iterator stands at tuple j of its bin, or without an item behind the last one. */
  ghost predicate At(it: Iterator, m: Tuples, lists: seq<seq<Ptr>>, j: nat) {
    && it.Iterator? && it.offset < |lists|
    && if it.item == NULL then j == |lists[it.offset]| else Stands(m, lists, it.item, it.offset, j)
  }

  ghost predicate Tabled(m: Tuples, bins: seq<Bin>, lists: seq<seq<Ptr>>, t: Table) {
    AllBins(m, bins, lists) && t == TableOf(m, lists)
  }

  lemma BinFacts(m: Tuples, bins: seq<Bin>, lists: seq<seq<Ptr>>, t: Table, b: nat)
    requires Tabled(m, bins, lists, t) && b < |bins|
    ensures IsBin(m, bins[b], lists[b]) && |t| == |lists| && |t[b]| == |lists[b]| == bins[b].size
  {
    assert BinAt(m, bins, lists, b);
  }

  lemma Follow(m: Tuples, bins: seq<Bin>, lists: seq<seq<Ptr>>, b: nat, j: nat)
    requires AllBins(m, bins, lists) && b < |lists| && j < |lists[b]|
    ensures Stands(m, lists, lists[b][j], b, j)
    ensures m[lists[b][j]].next == if j + 1 < |lists[b]| then lists[b][j + 1] else NULL
    ensures j == 0 ==> bins[b].data == lists[b][0]
  {
    assert BinAt(m, bins, lists, b);
    assert NextAt(m, lists[b], NULL, j);
  }

  /** The tuple under an iterator. */
  lemma EntryAt(m: Tuples, lists: seq<seq<Ptr>>, it: Iterator, j: nat)
    requires At(it, m, lists, j) && it.item != NULL
    ensures it.item in m && it.offset < |TableOf(m, lists)| && j < |TableOf(m, lists)[it.offset]|
    ensures TableOf(m, lists)[it.offset][j] == m[it.item].data
  {
    assert TableOf(m, lists)[it.offset] == EntriesOf(m, lists[it.offset]);
  }

  lemma TupleAt(m: Tuples, lists: seq<seq<Ptr>>, it: Iterator, j: nat)
    requires At(it, m, lists, j) && it.item != NULL
    ensures it.offset < |TableOf(m, lists)| && it.item in m
    ensures var t := TableOf(m, lists); var r := Before(t, it.offset) + j; r < |Flat(t)| == Size(t) && Flat(t)[r] == m[it.item].data
  {
    EntryAt(m, lists, it, j);
    FlatAt(TableOf(m, lists), it.offset, j);
  }

  // --------------------------------------------------------------------------
  // Forwards
  // --------------------------------------------------------------------------

  /** A forward move has passed the rank r. */
  ghost predicate Passed(it: Iterator, m: Tuples, lists: seq<seq<Ptr>>, t: Table, j: nat, r: int) {
    && At(it, m, lists, j) && |t| == |lists|
    && r == Before(t, it.offset) + j - (if it.item == NULL then 1 else 0)
  }

  /** One round of the forward loop. */
  method StepForward(m: Tuples, bins: seq<Bin>, cap: nat, it: Iterator, n: nat, ghost lists: seq<seq<Ptr>>, ghost t: Table, ghost j: nat, ghost r: int)
    returns (it': Iterator, n': nat, ghost j': nat)
    requires Tabled(m, bins, lists, t) && Passed(it, m, lists, t, j, r) && n > 0 && cap == |t|
    ensures it'.Invalid? ==> r + n >= Size(t)
    ensures it'.Iterator? ==> Passed(it', m, lists, t, j', r + n - n') && (n' == 0 ==> it'.item != NULL)
    ensures it'.Iterator? ==> it'.index + n' == it.index + n && (it'.offset > it.offset || (it'.offset == it.offset && n' < n)) && it'.reverse == it.reverse
  {
    BinFacts(m, bins, lists, t, it.offset);
    Ranks(t, it.offset);
    if it.item != NULL { Follow(m, bins, lists, it.offset, j); }
    var next := if it.item != NULL then m[it.item].next else NULL;
    if next != NULL {
      assert j + 1 < |lists[it.offset]|;
      Follow(m, bins, lists, it.offset, j + 1);
      return it.(item := next, index := it.index + 1), n - 1, j + 1;
    }
    NoneAfter(m, bins, lists, it, j);
    if it.offset + 1 >= cap { return Invalid, n, j; }
    it' := it.(item := NULL, offset := it.offset + 1);
    BinFacts(m, bins, lists, t, it'.offset);
    var bin := bins[it'.offset];
    if bin.size < n {
      return it'.(index := it'.index + bin.size), n - bin.size, bin.size;
    }
    Follow(m, bins, lists, it'.offset, 0);
    it', n', j' := it'.(item := bin.data, index := it'.index + 1), n - 1, 0;
  }

  lemma NoneAfter(m: Tuples, bins: seq<Bin>, lists: seq<seq<Ptr>>, it: Iterator, j: nat)
    requires AllBins(m, bins, lists) && At(it, m, lists, j) && (it.item != NULL ==> it.item in m && m[it.item].next == NULL)
    ensures j + (if it.item == NULL then 0 else 1) == |lists[it.offset]|
  {
    if it.item != NULL {
      Follow(m, bins, lists, it.offset, j);
      if j + 1 < |lists[it.offset]| { Follow(m, bins, lists, it.offset, j + 1); }
    }
  }

  /** The forward loop: that many ranks further, or nowhere exactly if there are not so
      many; the index moves along. */
  method Forward(m: Tuples, bins: seq<Bin>, cap: nat, it: Iterator, n: nat, ghost lists: seq<seq<Ptr>>, ghost t: Table, ghost j: nat)
    returns (it': Iterator, ghost j': nat)
    requires Tabled(m, bins, lists, t) && At(it, m, lists, j) && it.item != NULL && |t| == |lists| == cap
    ensures it'.Invalid? <==> Before(t, it.offset) + j + n >= Size(t)
    ensures it'.Iterator? ==> At(it', m, lists, j') && it'.item != NULL && it'.index == it.index + n && it'.reverse == it.reverse
    ensures it'.Iterator? ==> Before(t, it'.offset) + j' == Before(t, it.offset) + j + n
  {
    it', j' := it, j;
    var n': nat := n;
    ghost var rank, index := Before(t, it.offset) + j + n, it.index + n;
    while n' > 0
      invariant it'.Iterator? && Passed(it', m, lists, t, j', rank - n') && it'.index + n' == index && (n' == 0 ==> it'.item != NULL) && it'.reverse == it.reverse
      decreases |lists| - it'.offset, n'
    {
      it', n', j' := StepForward(m, bins, cap, it', n', lists, t, j', rank - n');
      if it'.Invalid? { return; }
    }
    FlatAt(t, it'.offset, j');
  }

  // --------------------------------------------------------------------------
  // Backwards
  // --------------------------------------------------------------------------

  /** Size of the nearest bin before bin b that is not empty. */
  function Prior(t: Table, b: nat): nat
    requires b <= |t|
  {
    if b == 0 then 0 else if t[b - 1] != [] then |t[b - 1]| else Prior(t, b - 1)
  }

  /** The moves that end where they should: all but those that go back over a whole bin. */
  predicate Near(t: Table, b: nat, j: nat, n: int)
    requires b < |t|
  {
    n >= 0 || -n <= j + Prior(t, b)
  }

  /** How many ranks too early a move to place k ends, counted from the start of bin b: the
      sizes of the bins that it leaves behind as a whole, because it enters them again. */
  function Lag(t: Table, b: nat, k: int): nat
    requires b <= |t|
  {
    if k >= 0 || b == 0 || |t[b - 1]| >= -k then 0 else |t[b - 1]| + Lag(t, b - 1, 2 * |t[b - 1]| + k)
  }

  /** The near moves are those without a lag. */
  lemma {:induction false} LagIsFar(t: Table, b: nat, k: int)
    requires b <= |t| && Before(t, b) + k >= 0
    ensures Lag(t, b, k) == 0 <==> -k <= Prior(t, b)
  {
    if b > 0 && t[b - 1] == [] { LagIsFar(t, b - 1, k); }
  }

  /** In the middle of a backward move with n steps to go, that will end at a rank. */
  ghost predicate Lagging(it: Iterator, m: Tuples, lists: seq<seq<Ptr>>, t: Table, j: nat, n: nat, rank: int) {
    && At(it, m, lists, j) && |t| == |lists| && (it.item == NULL ==> n > 0)
    && it.index >= n && Before(t, it.offset) + j >= it.index
    && Before(t, it.offset) + j - n + Lag(t, it.offset, j - n) == rank
  }

  /** prev_tuple: the tuple before the given one, or the last one if none is given. */
  method PrevTuple(m: Tuples, bin: Bin, tuple: Ptr, ghost ns: seq<Ptr>, ghost j: nat) returns (prev: Ptr)
    requires IsBin(m, bin, ns) && j <= |ns| && tuple == AddressAt(ns, j)
    ensures if j > 0 then prev == ns[j - 1] && prev != NULL else prev == NULL
  {
    prev := NULL;
    var t := bin.data;
    ghost var i := 0;
    ThreadLive(m, ns, NULL);
    Reached(m, ns, 0, j);
    while t != tuple
      invariant i <= j && t == AddressAt(ns, i) && (t == tuple <==> i == j)
      invariant if i > 0 then prev == ns[i - 1] && prev != NULL else prev == NULL
      decreases |ns| - i
    {
      assert NextAt(m, ns, NULL, i);
      prev, t, i := t, m[t].next, i + 1;
      Reached(m, ns, i, j);
    }
  }

  function AddressAt(ns: seq<Ptr>, i: nat): Ptr {
    if i < |ns| then ns[i] else NULL
  }

  lemma Reached(m: Tuples, ns: seq<Ptr>, i: nat, j: nat)
    requires Thread(m, ns, NULL) && i <= j <= |ns|
    ensures AddressAt(ns, i) == AddressAt(ns, j) <==> i == j
  {
    if i < j {
      assert NextAt(m, ns, NULL, i);
      if j < |ns| { assert Differ(ns, i, j); }
    }
  }

  method PrevAt(m: Tuples, bins: seq<Bin>, it: Iterator, ghost lists: seq<seq<Ptr>>, ghost t: Table, ghost j: nat) returns (prev: Ptr)
    requires Tabled(m, bins, lists, t) && At(it, m, lists, j)
    ensures j <= |lists[it.offset]| && if j > 0 then prev == lists[it.offset][j - 1] && prev != NULL else prev == NULL
  {
    BinFacts(m, bins, lists, t, it.offset);
    prev := PrevTuple(m, bins[it.offset], it.item, lists[it.offset], j);
  }

  /** One round of the backward loop. (The test for the end of the bins never succeeds: the
      position is not before the index.) */
  method StepBackward(m: Tuples, bins: seq<Bin>, it: Iterator, n: nat, ghost lists: seq<seq<Ptr>>, ghost t: Table, ghost j: nat, ghost rank: int)
    returns (it': Iterator, n': nat, ghost j': nat)
    requires Tabled(m, bins, lists, t) && Lagging(it, m, lists, t, j, n, rank) && n > 0
    ensures Lagging(it', m, lists, t, j', n', rank) && it'.index - n' == it.index - n && it'.reverse == it.reverse
    ensures it'.offset < it.offset || (it'.offset == it.offset && n' < n)
  {
    var prev := PrevAt(m, bins, it, lists, t, j);
    if prev != NULL {
      LagWithin(it, m, bins, lists, t, j, n, rank);
      return it.(item := prev, index := it.index - 1), n - 1, j - 1;
    }
    it', n', j' := EnterBehind(m, bins, it, n, lists, t, rank);
  }

  /** To the bin before; counted already when the remaining steps go beyond it. */
  method EnterBehind(m: Tuples, bins: seq<Bin>, it: Iterator, n: nat, ghost lists: seq<seq<Ptr>>, ghost t: Table, ghost rank: int)
    returns (it': Iterator, n': nat, ghost j': nat)
    requires Tabled(m, bins, lists, t) && Lagging(it, m, lists, t, 0, n, rank) && n > 0
    ensures Lagging(it', m, lists, t, j', n', rank) && it'.index - n' == it.index - n && it'.offset < it.offset && it'.reverse == it.reverse
  {
    LagBehind(it, m, bins, lists, t, n, rank);
    it', n' := it.(item := NULL, offset := it.offset - 1), n;
    var bin := bins[it'.offset];
    j' := bin.size;
    if bin.size < n {
      it', n' := it'.(index := it'.index - bin.size), n - bin.size;
    }
  }

  lemma LagWithin(it: Iterator, m: Tuples, bins: seq<Bin>, lists: seq<seq<Ptr>>, t: Table, j: nat, n: nat, rank: int)
    requires Tabled(m, bins, lists, t) && Lagging(it, m, lists, t, j, n, rank) && n > 0 && j > 0
    ensures j <= |lists[it.offset]|
    ensures Lagging(it.(item := lists[it.offset][j - 1], index := it.index - 1), m, lists, t, j - 1, n - 1, rank)
  {
    Follow(m, bins, lists, it.offset, j - 1);
  }

  lemma LagBehind(it: Iterator, m: Tuples, bins: seq<Bin>, lists: seq<seq<Ptr>>, t: Table, n: nat, rank: int)
    requires Tabled(m, bins, lists, t) && Lagging(it, m, lists, t, 0, n, rank) && n > 0
    ensures 0 < it.offset < |bins| == |lists|
    ensures var size, it' := bins[it.offset - 1].size, it.(item := NULL, offset := it.offset - 1);
      if size < n
      then Lagging(it'.(index := it.index - size), m, lists, t, size, n - size, rank)
      else Lagging(it', m, lists, t, size, n, rank)
  {
    BinFacts(m, bins, lists, t, it.offset - 1);
    assert Before(t, it.offset) == Before(t, it.offset - 1) + |t[it.offset - 1]|;
  }

  /** The backward loop: the index ends where it should, the position as much too early as
      the move lags. */
  method Backward(m: Tuples, bins: seq<Bin>, it: Iterator, n: nat, ghost lists: seq<seq<Ptr>>, ghost t: Table, ghost j: nat)
    returns (it': Iterator, ghost j': nat)
    requires Tabled(m, bins, lists, t) && At(it, m, lists, j) && it.item != NULL && |t| == |lists|
    requires n <= it.index <= Before(t, it.offset) + j
    ensures At(it', m, lists, j') && it'.item != NULL && it'.index == it.index - n && it'.reverse == it.reverse
    ensures Before(t, it'.offset) + j' == Before(t, it.offset) + j - n + Lag(t, it.offset, j - n)
  {
    it', j' := it, j;
    var n': nat := n;
    ghost var rank := Before(t, it.offset) + j - n + Lag(t, it.offset, j - n);
    while n' > 0
      invariant Lagging(it', m, lists, t, j', n', rank) && it'.index - n' == it.index - n && it'.reverse == it.reverse
      decreases it'.offset, n'
    {
      it', n', j' := StepBackward(m, bins, it', n', lists, t, j', rank);
    }
  }

  // --------------------------------------------------------------------------
  // The interface
  // --------------------------------------------------------------------------

  /** iter_move by any signed number of steps. The index of an iterator is its rank or, after
      a move that was not near, less, and stays so. The move ends nowhere exactly if the
      index or the rank would leave the container. Else the index is the one asked for, and
      the tuple as much too early as the move lags; so from a right index, the tuple is the
      one of that rank exactly for near moves. */
  method IterMove(self: PpHash, it: Iterator, n: int, ghost j: nat) returns (it': Iterator, ghost j': nat)
    requires self.Valid() && At(it, self.mem, self.lists, j) && it.item != NULL
    requires it.index <= Before(self.Contents(), it.offset) + j
    ensures it'.Iterator? <==>
      0 <= it.index + n < |Flat(self.Contents())| && Before(self.Contents(), it.offset) + j + n < |Flat(self.Contents())|
    ensures it'.Iterator? ==> At(it', self.mem, self.lists, j') && it'.item != NULL && it'.reverse == it.reverse
    ensures it'.Iterator? ==> it'.index == it.index + n <= Before(self.Contents(), it'.offset) + j'
    ensures it'.Iterator? ==> var r := Before(self.Contents(), it'.offset) + j';
      && r == Before(self.Contents(), it.offset) + j + n + Lag(self.Contents(), it.offset, j + n)
      && r < |Flat(self.Contents())| && self.mem[it'.item].data == Flat(self.Contents())[r]
    ensures it'.Iterator? && it.index == Before(self.Contents(), it.offset) + j ==>
      (Before(self.Contents(), it'.offset) + j' == it'.index <==> Near(self.Contents(), it.offset, j, n))
  {
    it', j' := Move(self.mem, self.bins, self.cap, self.size, it, n, self.lists, self.Contents(), j);
  }

  method Move(m: Tuples, bins: seq<Bin>, cap: nat, size: nat, it: Iterator, n: int, ghost lists: seq<seq<Ptr>>, ghost t: Table, ghost j: nat)
    returns (it': Iterator, ghost j': nat)
    requires Tabled(m, bins, lists, t) && At(it, m, lists, j) && it.item != NULL && |t| == |lists| == cap && size == Size(t)
    requires it.index <= Before(t, it.offset) + j
    ensures it'.Iterator? <==> 0 <= it.index + n < |Flat(t)| && Before(t, it.offset) + j + n < |Flat(t)|
    ensures it'.Iterator? ==> At(it', m, lists, j') && it'.item != NULL && it'.index == it.index + n <= Before(t, it'.offset) + j' && it'.reverse == it.reverse
    ensures it'.Iterator? ==> var r := Before(t, it'.offset) + j';
      && r == Before(t, it.offset) + j + n + Lag(t, it.offset, j + n)
      && r < |Flat(t)| && m[it'.item].data == Flat(t)[r]
    ensures it'.Iterator? && it.index == Before(t, it.offset) + j ==> (Before(t, it'.offset) + j' == it'.index <==> Near(t, it.offset, j, n))
  {
    it', j' := it, j;
    if it.index + n < 0 || it.index + n >= size { return Invalid, 0; }
    it', j' := Walk(m, bins, cap, it, n, lists, t, j);
    LagIsFar(t, it.offset, j + n);
  }

  /** The two loops of iter_move. */
  method Walk(m: Tuples, bins: seq<Bin>, cap: nat, it: Iterator, n: int, ghost lists: seq<seq<Ptr>>, ghost t: Table, ghost j: nat)
    returns (it': Iterator, ghost j': nat)
    requires Tabled(m, bins, lists, t) && At(it, m, lists, j) && it.item != NULL && |t| == |lists| == cap
    requires it.index <= Before(t, it.offset) + j && it.index + n >= 0
    ensures it'.Iterator? <==> Before(t, it.offset) + j + n < |Flat(t)|
    ensures it'.Iterator? ==> At(it', m, lists, j') && it'.item != NULL && it'.index == it.index + n <= Before(t, it'.offset) + j' && it'.reverse == it.reverse
    ensures it'.Iterator? ==> var r := Before(t, it'.offset) + j';
      && r == Before(t, it.offset) + j + n + Lag(t, it.offset, j + n)
      && r < |Flat(t)| && m[it'.item].data == Flat(t)[r]
  {
    TupleAt(m, lists, it, j);
    if n >= 0 {
      it', j' := Forward(m, bins, cap, it, n, lists, t, j);
    } else {
      it', j' := Backward(m, bins, it, -n, lists, t, j);
    }
    if it'.Iterator? { TupleAt(m, lists, it', j'); }
  }

  /** A step to the neighbour is always near, so an iteration that takes one step at a time
      visits every rank. */
  lemma SingleSteps(t: Table, b: nat, j: nat, n: int)
    requires b < |t| && -1 <= n <= 1 && Before(t, b) + j + n >= 0
    ensures Near(t, b, j, n)
  {
    PriorCovers(t, b);
  }

  lemma {:induction false} PriorCovers(t: Table, b: nat)
    requires b <= |t|
    ensures Prior(t, b) <= Before(t, b) && (Before(t, b) > 0 ==> Prior(t, b) > 0)
  {
    if b > 0 { PriorCovers(t, b - 1); }
  }

  /** iter: the tuple of rank 0. */
  method First(self: PpHash) returns (it: Iterator)
    requires self.Valid()
    ensures it.Invalid? <==> self.size == 0
    ensures it.Iterator? ==> At(it, self.mem, self.lists, 0) && it.item != NULL
    ensures it.Iterator? ==> it.index == Before(self.Contents(), it.offset) == 0 && !it.reverse
  {
    if self.size <= 0 { return Invalid; }
    ghost var t: Table := self.Contents();
    var i := 0;
    while true
      invariant i < |t| && Before(t, i) == 0
      decreases |t| - i
    {
      Ranks(t, i);
      BinFacts(self.mem, self.bins, self.lists, t, i);
      if t[i] != [] { Follow(self.mem, self.bins, self.lists, i, 0); }
      var bin := self.bins[i];
      if bin.data != NULL { return Iterator(bin.data, 0, i, false); }
      i := i + 1;
    }
  }

  /** The last tuple of a bin. */
  method LastOf(m: Tuples, bin: Bin, ghost ns: seq<Ptr>) returns (tuple: Ptr)
    requires IsBin(m, bin, ns) && ns != []
    ensures tuple == ns[|ns| - 1]
  {
    tuple := bin.data;
    ghost var i := 0;
    assert NextAt(m, ns, NULL, 0);
    while m[tuple].next != NULL
      invariant i < |ns| && tuple == ns[i] && NextAt(m, ns, NULL, i)
      decreases |ns| - i
    {
      assert i + 1 < |ns| ==> NextAt(m, ns, NULL, i + 1);
      tuple, i := m[tuple].next, i + 1;
    }
    assert i + 1 < |ns| ==> NextAt(m, ns, NULL, i + 1);
  }

  /** riter: the tuple of the highest rank. */
  method Last(self: PpHash) returns (it: Iterator)
    requires self.Valid()
    ensures it.Invalid? <==> self.size == 0
    ensures it.Iterator? ==> it.offset < |self.Contents()| && self.Contents()[it.offset] != [] && it.item != NULL
    ensures it.Iterator? ==> At(it, self.mem, self.lists, |self.Contents()[it.offset]| - 1)
    ensures it.Iterator? ==> it.index == Before(self.Contents(), it.offset) + |self.Contents()[it.offset]| - 1 == self.size - 1 && it.reverse
  {
    if self.size <= 0 { return Invalid; }
    ghost var t: Table := self.Contents();
    var i := self.cap;
    if |t| > 0 { Ranks(t, 0); }
    while true
      invariant 0 < i <= |t| && Before(t, i) == Size(t)
      decreases i
    {
      i := i - 1;
      BinFacts(self.mem, self.bins, self.lists, t, i);
      if t[i] != [] { Follow(self.mem, self.bins, self.lists, i, 0); }
      var bin := self.bins[i];
      if bin.data != NULL {
        Follow(self.mem, self.bins, self.lists, i, |t[i]| - 1);
        var tuple := LastOf(self.mem, bin, self.lists[i]);
        return Iterator(tuple, self.size - 1, i, true);
      }
    }
  }

  // --------------------------------------------------------------------------
  // Snapshots
  // --------------------------------------------------------------------------

  /** The tuples of one bin. */
  method CopyBin(m: Tuples, bin: Bin, ghost ns: seq<Ptr>, ks: seq<Ptr>, vs: seq<Ptr>) returns (ks': seq<Ptr>, vs': seq<Ptr>)
    requires IsBin(m, bin, ns)
    ensures ks' == ks + Keys(EntriesOf(m, ns)) && vs' == vs + Values(EntriesOf(m, ns))
  {
    ks', vs' := ks, vs;
    ghost var es, i := EntriesOf(m, ns), 0;
    var t := bin.data;
    assert ns != [] ==> NextAt(m, ns, NULL, 0);
    while t != NULL
      invariant i <= |ns| && t == (if i < |ns| then ns[i] else NULL) && (t == NULL <==> i == |ns|)
      invariant ks' == ks + Keys(es[..i]) && vs' == vs + Values(es[..i])
      decreases |ns| - i
    {
      assert NextAt(m, ns, NULL, i) && es[i] == m[t].data;
      assert i + 1 < |ns| ==> NextAt(m, ns, NULL, i + 1);
      assert es[..i + 1] == es[..i] + [es[i]];
      ks', vs' := ks' + [m[t].data.key], vs' + [m[t].data.value];
      t, i := m[t].next, i + 1;
    }
    assert es[..|ns|] == es;
  }

  /** items: the keys and the values, in the order in which the iterators visit them;
      false when there is no memory for the snapshot. */
  method Items(self: PpHash, keyMemory: bool, valueMemory: bool) returns (ok: bool, ks: seq<Ptr>, vs: seq<Ptr>)
    requires self.Valid()
    ensures ok <==> keyMemory && valueMemory
    ensures ok ==> ks == Keys(Flat(self.Contents())) && vs == Values(Flat(self.Contents()))
  {
    ghost var t: Table := self.Contents();
    ks, vs := [], [];
    if !keyMemory { return false, ks, vs; }
    if !valueMemory { return false, ks, vs; }
    for i := 0 to self.cap
      invariant ks == Keys(Flat(t[..i])) && vs == Values(Flat(t[..i]))
    {
      BinFacts(self.mem, self.bins, self.lists, t, i);
      ks, vs := CopyBin(self.mem, self.bins[i], self.lists[i], ks, vs);
      SnapshotNext(t, i);
    }
    assert t[..|t|] == t;
    ok := true;
  }

  // --------------------------------------------------------------------------
  // Whole iterations
  // --------------------------------------------------------------------------

  /** advance: n steps in the direction of the iterator. */
  method Advance(self: PpHash, it: Iterator, n: int, ghost j: nat) returns (it': Iterator, ghost j': nat)
    requires self.Valid() && At(it, self.mem, self.lists, j) && it.item != NULL
    requires it.index <= Before(self.Contents(), it.offset) + j
    ensures var m := Directed(it.reverse, n); var r := Before(self.Contents(), it.offset) + j;
      it'.Iterator? <==> 0 <= it.index + m < |Flat(self.Contents())| && r + m < |Flat(self.Contents())|
    ensures it'.Iterator? ==> At(it', self.mem, self.lists, j') && it'.item != NULL && it'.reverse == it.reverse
    ensures it'.Iterator? ==> it'.index == it.index + Directed(it.reverse, n) <= Before(self.Contents(), it'.offset) + j'
    ensures it'.Iterator? ==> var k := j + Directed(it.reverse, n);
      Before(self.Contents(), it'.offset) + j' == Before(self.Contents(), it.offset) + k + Lag(self.Contents(), it.offset, k)
  {
    it', j' := IterMove(self, it, if it.reverse then -n else n, j);
  }

  /** The iterator stands where k tuples in its direction have been visited, with its rank as
      its index. */
  ghost predicate StandsAfter(m: Tuples, lists: seq<seq<Ptr>>, t: Table, it: Iterator, j: nat, reverse: bool, k: int) {
    if k < Size(t)
    then it.Iterator? && it.offset < |t| && At(it, m, lists, j) && it.item != NULL && it.reverse == reverse
      && it.index == Before(t, it.offset) + j == Place(reverse, k, Size(t))
    else it.Invalid?
  }

  /** The key of one tuple (iter_get_key), and ++. */
  method Step(self: PpHash, it: Iterator, ghost j: nat, ghost k: nat) returns (key: Ptr, it': Iterator, ghost j': nat)
    requires self.Valid() && it.Iterator? && StandsAfter(self.mem, self.lists, self.Contents(), it, j, it.reverse, k)
    ensures k < |Flat(self.Contents())| && it.index == Place(it.reverse, k, |Flat(self.Contents())|)
    ensures 0 <= it.index < |Flat(self.Contents())| && key == Flat(self.Contents())[it.index].key
    ensures StandsAfter(self.mem, self.lists, self.Contents(), it', j', it.reverse, k + 1)
  {
    StepFacts(self.mem, self.lists, self.Contents(), it, j, k);
    key := self.mem[it.item].data.key;
    it', j' := Advance(self, it, 1, j);
  }

  lemma StepFacts(m: Tuples, lists: seq<seq<Ptr>>, t: Table, it: Iterator, j: nat, k: nat)
    requires t == TableOf(m, lists) && it.Iterator? && StandsAfter(m, lists, t, it, j, it.reverse, k)
    ensures k < Size(t) && At(it, m, lists, j) && it.item != NULL && it.offset < |t|
    ensures it.index == Before(t, it.offset) + j == Place(it.reverse, k, Size(t))
    ensures it.item in m && m[it.item].data == Flat(t)[it.index]
    ensures 0 <= it.index + Directed(it.reverse, 1) ==> Lag(t, it.offset, j + Directed(it.reverse, 1)) == 0
  {
    TupleAt(m, lists, it, j);
    var n := Directed(it.reverse, 1);
    if 0 <= it.index + n {
      SingleSteps(t, it.offset, j, n);
      LagIsFar(t, it.offset, j + n);
    }
  }

  /** All keys from one end in the direction of the iterator, and the index of every tuple. */
  method VisitFrom(self: PpHash, it: Iterator, ghost j: nat, ghost reverse: bool) returns (ks: seq<Ptr>, at: seq<int>)
    requires self.Valid() && StandsAfter(self.mem, self.lists, self.Contents(), it, j, reverse, 0)
    ensures ks == Along(Keys(Flat(self.Contents())), reverse) && at == Along(Numbers(|ks|), reverse)
  {
    ghost var keys, ranks, i := Keys(Flat(self.Contents())), Numbers(|Flat(self.Contents())|), j;
    var here := it;
    ks, at := [], [];
    while here.Iterator?
      invariant Visited(keys, reverse, ks) && Visited(ranks, reverse, at) && |at| == |ks|
      invariant StandsAfter(self.mem, self.lists, self.Contents(), here, i, reverse, |ks|)
      decreases |keys| - |ks|
    {
      var index, key := here.index, NULL;
      key, here, i := Step(self, here, i, |ks|);
      VisitOne(keys, reverse, ks, key);
      VisitOne(ranks, reverse, at, index);
      ks, at := ks + [key], at + [index];
    }
    VisitedAll(keys, reverse, ks);
    VisitedAll(ranks, reverse, at);
  }

  /** From iter() on with ++: every key in the order of the snapshots, every index being the
      rank. */
  method Visit(self: PpHash) returns (ks: seq<Ptr>, at: seq<int>)
    requires self.Valid()
    ensures ks == Keys(Flat(self.Contents())) && at == Numbers(|ks|)
  {
    var it := First(self);
    ks, at := VisitFrom(self, it, 0, false);
    AlongForwards(Keys(Flat(self.Contents())));
    AlongForwards(Numbers(|ks|));
  }

  /** From riter() on with ++: the same the other way round. */
  method VisitBack(self: PpHash) returns (ks: seq<Ptr>, at: seq<int>)
    requires self.Valid()
    ensures ks == Along(Keys(Flat(self.Contents())), true) && at == Along(Numbers(|ks|), true)
  {
    var it := Last(self);
    ks, at := VisitFrom(self, it, if it.Iterator? then |self.Contents()[it.offset]| - 1 else 0, true);
  }
}
