/** Iterators and snapshots of src/main/hash_index.cpp. */
module HashIndexIter {
  /* An iterator is a position (bin, node, slot) together with an index that is meant to
     be the rank of that position in the order of the snapshots. */

  import opened Basics
  import opened Buckets
  import opened HashIndex
  import opened HashNodes
  import opened HashTable
  import opened Iterators

  datatype Iterator = Invalid | Iterator(item: Ptr, index: int, offset: nat, part: nat, reverse: bool)

  ghost predicate Tabled(m: Nodes, bins: seq<Bin>, lists: seq<seq<Ptr>>, t: Table) {
    AllBins(m, bins, lists) && t == TableOf(m, bins, lists)
  }

  /** The iterator stands at entry j of bin b, whatever its index says. */
  ghost predicate StandsAt(it: Iterator, lists: seq<seq<Ptr>>, t: Table, b: nat, j: nat) {
    && it.Iterator? && it.offset == b && b < |t| == |lists| && j < |t[b]|
    && At(Cursor(it.item, it.part), lists[b], j)
  }

  // --------------------------------------------------------------------------
  // One node
  // --------------------------------------------------------------------------

  lemma BinFacts(m: Nodes, bins: seq<Bin>, lists: seq<seq<Ptr>>, t: Table, b: nat)
    requires Tabled(m, bins, lists, t) && b < |bins|
    ensures IsBin(m, bins[b], lists[b]) && Entries(m, bins[b], lists[b]) == t[b] && |t[b]| == bins[b].size
  {
    assert BinAt(m, bins, lists, b);
  }

  /** Index of the last slot in use of a node. */
  function LastSlot(m: Nodes, bin: Bin, node: Ptr): nat
    requires node in m && bin.size > 0
  {
    if m[node].next != NULL then NODE_SIZE - 1 else (bin.size - 1) % NODE_SIZE
  }

  /** Moving inside a node. */
  lemma InNode(ns: seq<Ptr>, pos: Cursor, j: nat, k: int)
    requires At(pos, ns, j) && 0 <= pos.index + k < NODE_SIZE
    ensures j + k >= 0 && At(Cursor(pos.node, pos.index + k), ns, j + k)
  {
    assert (j + k) / NODE_SIZE == j / NODE_SIZE;
  }

  /** The rest of the node under a position, and the node behind it. */
  lemma NodeAhead(m: Nodes, bin: Bin, ns: seq<Ptr>, pos: Cursor, j: nat)
    requires IsBin(m, bin, ns) && j < bin.size && At(pos, ns, j)
    ensures pos.node in m && pos.index <= LastSlot(m, bin, pos.node)
    ensures var next := m[pos.node].next; var rest := LastSlot(m, bin, pos.node) - pos.index;
      && j + rest < bin.size
      && (next == NULL ==> j + rest + 1 == bin.size)
      && (next != NULL ==> j + rest + 1 < bin.size && At(Cursor(next, 0), ns, j + rest + 1))
  {
    var i := j / NODE_SIZE;
    assert m[ns[i]].next == if i + 1 < |ns| then ns[i + 1] else NULL;
  }

  /** The slots before a position in its node, and the node before it. */
  lemma NodeBehind(m: Nodes, bin: Bin, ns: seq<Ptr>, pos: Cursor, j: nat)
    requires IsBin(m, bin, ns) && j < bin.size && At(pos, ns, j)
    ensures pos.node in m
    ensures var prev := m[pos.node].prev;
      && (prev == NULL ==> pos.index == j)
      && (prev != NULL ==> pos.index < j && At(Cursor(prev, NODE_SIZE - 1), ns, j - pos.index - 1))
  {
    var i := j / NODE_SIZE;
    assert m[ns[i]].prev == if i > 0 then ns[i - 1] else NULL;
  }

  // --------------------------------------------------------------------------
  // Moving
  // --------------------------------------------------------------------------

  /** What n steps that go on from the start of bin b add to the index beyond their number:
      for every bin they leave behind, the steps left before it instead of its entries. */
  function Ahead(t: Table, b: nat, n: nat): nat
    decreases |t| - b
  {
    if b >= |t| || n < |t[b]| then 0 else n - |t[b]| + Ahead(t, b + 1, n - |t[b]|)
  }

  /** The same for steps that go on backwards from the start of bin b. */
  function Behind(t: Table, b: nat, n: nat): nat
    requires b <= |t|
  {
    if b == 0 || n < |t[b - 1]| then 0 else n - |t[b - 1]| + Behind(t, b - 1, n - |t[b - 1]|)
  }

  /** How far the index is off after a move to place k, counted from the start of bin b. */
  function Drift(t: Table, b: nat, k: int): int
    requires b < |t|
  {
    if k < 0 then 0 - Behind(t, b, -k - 1) else if k < |t[b]| then 0 else Ahead(t, b + 1, k - |t[b]|)
  }

  /** The moves that keep the index right: those that stay in the bin, and those that
      reach no further than the end of the neighbour bin. */
  predicate Straight(t: Table, b: nat, j: nat, n: int)
    requires b < |t| && j < |t[b]|
  {
    if n >= 0
    then n < |t[b]| - j || (b + 1 < |t| && n - (|t[b]| - j) <= |t[b + 1]|)
    else -n <= j || (b > 0 && -n - (j + 1) <= |t[b - 1]|)
  }

  lemma {:induction false} NoStepsAhead(t: Table, b: nat)
    ensures Ahead(t, b, 0) == 0
    decreases |t| - b
  {
    if b < |t| && t[b] == [] { NoStepsAhead(t, b + 1); }
  }

  lemma {:induction false} NoStepsBehind(t: Table, b: nat)
    requires b <= |t|
    ensures Behind(t, b, 0) == 0
  {
    if b > 0 && t[b - 1] == [] { NoStepsBehind(t, b - 1); }
  }

  /** The index is right exactly after the straight moves. */
  lemma DriftIsCrooked(t: Table, b: nat, j: nat, n: int)
    requires b < |t| && j < |t[b]| && 0 <= Before(t, b) + j + n < Size(t)
    ensures Drift(t, b, j + n) == 0 <==> Straight(t, b, j, n)
  {
    Ranks(t, b);
    NoStepsAhead(t, b + 2);
    if b > 0 { NoStepsBehind(t, b - 1); }
  }

  /** Skips the bins that the remaining n steps leave behind. */
  method SkipForward(bins: seq<Bin>, cap: nat, it: Iterator, n: nat, ghost t: Table) returns (it': Iterator, n': nat)
    requires it.Iterator? && |t| == |bins| == cap && forall b :: 0 <= b < |t| ==> |t[b]| == bins[b].size
    requires it.offset < |t|
    ensures it'.Invalid? <==> Before(t, it.offset + 1) + n >= Size(t)
    ensures it'.Iterator? ==> it.offset < it'.offset < |t| && n' < |t[it'.offset]|
    ensures it'.Iterator? ==> it'.item == bins[it'.offset].head && it'.part == 0
    ensures it'.Iterator? ==> Before(t, it'.offset) + n' == Before(t, it.offset + 1) + n
    ensures it'.Iterator? ==> it'.index + n' == it.index + n + Ahead(t, it.offset + 1, n) && it'.reverse == it.reverse
  {
    it', n' := it, n;
    while true
      invariant it'.Iterator? && it.offset <= it'.offset < |t|
      invariant Before(t, it'.offset + 1) + n' == Before(t, it.offset + 1) + n
      invariant it'.index + n' + Ahead(t, it'.offset + 1, n') == it.index + n + Ahead(t, it.offset + 1, n) && it'.reverse == it.reverse
      decreases |t| - it'.offset
    {
      Ranks(t, it'.offset);
      it' := it'.(offset := it'.offset + 1);
      if it'.offset >= cap { return Invalid, n'; }
      Ranks(t, it'.offset);
      var bin := bins[it'.offset];
      if n' < bin.size {
        it' := it'.(item := bin.head, part := 0);
        return;
      }
      it' := it'.(index := it'.index + n');
      n' := n' - bin.size;
    }
  }

  /** One round of the forward loop in a bin: to the target in this node, to the next node,
      or off the end of the bin. */
  method NodeForward(m: Nodes, bin: Bin, it: Iterator, n: nat, ghost ns: seq<Ptr>, ghost j: nat)
    returns (left: bool, it': Iterator, n': nat, ghost j': nat)
    requires IsBin(m, bin, ns) && j < bin.size && it.Iterator? && At(Cursor(it.item, it.part), ns, j) && n > 0
    ensures it'.Iterator? && it'.offset == it.offset && n' < n && it'.reverse == it.reverse
    ensures j' + n' == j + n && it'.index + n' == it.index + n
    ensures if left then j' == bin.size else j' < bin.size && At(Cursor(it'.item, it'.part), ns, j')
  {
    ghost var pos := Cursor(it.item, it.part);
    NodeAhead(m, bin, ns, pos, j);
    var avail := LastSlot(m, bin, it.item) - it.part + 1;
    if n < avail {
      InNode(ns, pos, j, n);
      return false, it.(index := it.index + n, part := it.part + n), 0, j + n;
    }
    it' := it.(index := it.index + avail);
    n', j' := n - avail, j + avail;
    var node := m[it.item].next;
    left := node == NULL;
    if node != NULL { it' := it'.(item := node, part := 0); }
  }

  method BinForward(m: Nodes, bins: seq<Bin>, it: Iterator, n: nat, ghost lists: seq<seq<Ptr>>, ghost t: Table, ghost j: nat)
    returns (left: bool, it': Iterator, n': nat, ghost j': nat)
    requires Tabled(m, bins, lists, t) && it.Iterator? && StandsAt(it, lists, t, it.offset, j) && n > 0
    ensures it'.Iterator? && it'.offset == it.offset && n' < n && it'.reverse == it.reverse
    ensures j' + n' == j + n && it'.index + n' == it.index + n
    ensures if left then j' == |t[it.offset]| else StandsAt(it', lists, t, it'.offset, j')
  {
    BinFacts(m, bins, lists, t, it.offset);
    left, it', n', j' := NodeForward(m, bins[it.offset], it, n, lists[it.offset], j);
  }

  /** One round of the forward loop, into the next bin from the last node of a bin. */
  method RoundForward(m: Nodes, bins: seq<Bin>, cap: nat, it: Iterator, n: nat, ghost lists: seq<seq<Ptr>>, ghost t: Table, ghost j: nat)
    returns (it': Iterator, n': nat, ghost j': nat)
    requires Tabled(m, bins, lists, t) && it.Iterator? && StandsAt(it, lists, t, it.offset, j) && n > 0 && cap == |t|
    ensures it'.Invalid? ==> Before(t, it.offset) + j + n >= Size(t)
    ensures it'.Iterator? ==> it.offset <= it'.offset && StandsAt(it', lists, t, it'.offset, j')
    ensures it'.Iterator? ==> Before(t, it'.offset) + j' + n' == Before(t, it.offset) + j + n
    ensures it'.Iterator? ==> it'.offset > it.offset || n' < n
    ensures it'.Iterator? ==> it'.index + n' + Drift(t, it'.offset, j' + n') == it.index + n + Drift(t, it.offset, j + n) && it'.reverse == it.reverse
  {
    var left;
    left, it', n', j' := BinForward(m, bins, it, n, lists, t, j);
    if !left { return; }
    it', n' := EnterForward(m, bins, cap, it', n', lists, t);
    j' := 0;
  }

  /** Into the first entry of the next bin that the remaining n steps do not leave behind. */
  method EnterForward(m: Nodes, bins: seq<Bin>, cap: nat, it: Iterator, n: nat, ghost lists: seq<seq<Ptr>>, ghost t: Table)
    returns (it': Iterator, n': nat)
    requires Tabled(m, bins, lists, t) && it.Iterator? && it.offset < |t| == cap
    ensures it'.Invalid? ==> Before(t, it.offset) + |t[it.offset]| + n >= Size(t)
    ensures it'.Iterator? ==> it.offset < it'.offset && StandsAt(it', lists, t, it'.offset, 0)
    ensures it'.Iterator? ==> Before(t, it'.offset) + n' == Before(t, it.offset) + |t[it.offset]| + n && it'.reverse == it.reverse
    ensures it'.Iterator? ==> it'.index + n' + Drift(t, it'.offset, n') == it.index + n + Drift(t, it.offset, |t[it.offset]| + n)
  {
    forall c | 0 <= c < |t| ensures |t[c]| == bins[c].size { BinFacts(m, bins, lists, t, c); }
    it', n' := SkipForward(bins, cap, it, n, t);
    if it'.Iterator? { BinFacts(m, bins, lists, t, it'.offset); }
  }

  /** The forward loop: n ranks further, or nowhere exactly if there are not so many. */
  method Forward(m: Nodes, bins: seq<Bin>, cap: nat, it: Iterator, n: nat, ghost lists: seq<seq<Ptr>>, ghost t: Table, ghost b: nat, ghost j: nat)
    returns (it': Iterator, ghost b': nat, ghost j': nat)
    requires Tabled(m, bins, lists, t) && StandsAt(it, lists, t, b, j) && cap == |t|
    ensures it'.Invalid? <==> Before(t, b) + j + n >= Size(t)
    ensures it'.Iterator? ==> StandsAt(it', lists, t, b', j') && Before(t, b') + j' == Before(t, b) + j + n
    ensures it'.Iterator? ==> it'.index == it.index + n + Drift(t, b, j + n) && it'.reverse == it.reverse
  {
    it', b', j' := it, b, j;
    var n': nat := n;
    ghost var rank, index := Before(t, b) + j + n, it.index + n + Drift(t, b, j + n);
    while n' > 0
      invariant it'.Iterator? && StandsAt(it', lists, t, b', j') && Before(t, b') + j' + n' == rank
      invariant it'.index + n' + Drift(t, b', j' + n') == index && it'.reverse == it.reverse
      decreases |t| - b', n'
    {
      it', n', j' := RoundForward(m, bins, cap, it', n', lists, t, j');
      if it'.Invalid? { return; }
      b' := it'.offset;
    }
    FlatAt(t, b', j');
  }

  /** The same loop backwards, towards the first bin. */
  method SkipBackward(bins: seq<Bin>, it: Iterator, n: nat, ghost t: Table) returns (it': Iterator, n': nat)
    requires it.Iterator? && |t| == |bins| && forall b :: 0 <= b < |t| ==> |t[b]| == bins[b].size
    requires it.offset < |t|
    ensures it'.Invalid? <==> n >= Before(t, it.offset)
    ensures it'.Iterator? ==> it'.offset < it.offset && n' < |t[it'.offset]|
    ensures it'.Iterator? ==> it'.item == bins[it'.offset].tail && it'.part == (bins[it'.offset].size - 1) % NODE_SIZE
    ensures it'.Iterator? ==> Before(t, it'.offset + 1) - n' == Before(t, it.offset) - n
    ensures it'.Iterator? ==> it'.index - n' == it.index - n - Behind(t, it.offset, n) && it'.reverse == it.reverse
  {
    it', n' := it, n;
    while true
      invariant it'.Iterator? && it'.offset <= it.offset
      invariant Before(t, it'.offset) - n' == Before(t, it.offset) - n
      invariant it'.index - n' - Behind(t, it'.offset, n') == it.index - n - Behind(t, it.offset, n) && it'.reverse == it.reverse
      decreases it'.offset
    {
      if it'.offset <= 0 { return Invalid, n'; }
      it' := it'.(offset := it'.offset - 1);
      var bin := bins[it'.offset];
      if n' < bin.size {
        it' := it'.(item := bin.tail, part := (bin.size - 1) % NODE_SIZE);
        return;
      }
      it' := it'.(index := it'.index - n');
      n' := n' - bin.size;
    }
  }

  /** One round of the backward loop in a bin. Off the end, j' is -1. */
  method NodeBackward(m: Nodes, bin: Bin, it: Iterator, n: nat, ghost ns: seq<Ptr>, ghost j: nat)
    returns (left: bool, it': Iterator, n': nat, ghost j': int)
    requires IsBin(m, bin, ns) && j < bin.size && it.Iterator? && At(Cursor(it.item, it.part), ns, j) && n > 0
    ensures it'.Iterator? && it'.offset == it.offset && n' < n && it'.reverse == it.reverse
    ensures j' - n' == j - n && it'.index - n' == it.index - n
    ensures if left then j' == -1 else 0 <= j' <= j && At(Cursor(it'.item, it'.part), ns, j')
  {
    ghost var pos := Cursor(it.item, it.part);
    NodeBehind(m, bin, ns, pos, j);
    var avail := it.part + 1;
    if n < avail {
      InNode(ns, pos, j, -(n as int));
      return false, it.(index := it.index - n, part := it.part - n), 0, j - n;
    }
    it' := it.(index := it.index - avail);
    n', j' := n - avail, j - avail;
    var node := m[it.item].prev;
    left := node == NULL;
    if node != NULL { it' := it'.(item := node, part := NODE_SIZE - 1); }
  }

  /** Into the last entry of the next bin that the remaining n steps do not leave behind. */
  method EnterBackward(m: Nodes, bins: seq<Bin>, it: Iterator, n: nat, ghost lists: seq<seq<Ptr>>, ghost t: Table) returns (it': Iterator, n': nat)
    requires Tabled(m, bins, lists, t) && it.Iterator? && it.offset < |t|
    ensures it'.Invalid? ==> n >= Before(t, it.offset)
    ensures it'.Iterator? ==> it'.offset < it.offset && n' < |t[it'.offset]|
    ensures it'.Iterator? ==> StandsAt(it', lists, t, it'.offset, |t[it'.offset]| - 1)
    ensures it'.Iterator? ==> Before(t, it'.offset) + |t[it'.offset]| - n' == Before(t, it.offset) - n
    ensures it'.Iterator? ==> it'.index - n' == it.index - n - Behind(t, it.offset, n) && it'.reverse == it.reverse
  {
    forall c | 0 <= c < |t| ensures |t[c]| == bins[c].size { BinFacts(m, bins, lists, t, c); }
    it', n' := SkipBackward(bins, it, n, t);
    if it'.Invalid? { return; }
    BinFacts(m, bins, lists, t, it'.offset);
    LastEntry(m, bins[it'.offset], lists[it'.offset]);
  }

  /** One round of the backward loop, into the next bin from the first node of a bin. */
  method RoundBackward(m: Nodes, bins: seq<Bin>, it: Iterator, n: nat, ghost lists: seq<seq<Ptr>>, ghost t: Table, ghost j: nat)
    returns (it': Iterator, n': nat, ghost j': int)
    requires Tabled(m, bins, lists, t) && it.Iterator? && StandsAt(it, lists, t, it.offset, j) && n > 0
    ensures it'.Invalid? ==> Before(t, it.offset) + j < n
    ensures it'.Iterator? ==> it'.offset <= it.offset && j' >= 0 && StandsAt(it', lists, t, it'.offset, j')
    ensures it'.Iterator? ==> Before(t, it'.offset) + j' - n' == Before(t, it.offset) + j - n
    ensures it'.Iterator? ==> it'.offset < it.offset || n' < n
    ensures it'.Iterator? ==> it'.index - n' + Drift(t, it'.offset, j' - n') == it.index - n + Drift(t, it.offset, j - n) && it'.reverse == it.reverse
  {
    BinFacts(m, bins, lists, t, it.offset);
    var left;
    left, it', n', j' := NodeBackward(m, bins[it.offset], it, n, lists[it.offset], j);
    if left {
      it', n' := EnterBackward(m, bins, it', n', lists, t);
      if it'.Iterator? { j' := |t[it'.offset]| - 1; }
    }
  }

  /** The backward loop: n ranks back, or nowhere exactly if there are not so many. */
  method Backward(m: Nodes, bins: seq<Bin>, it: Iterator, n: nat, ghost lists: seq<seq<Ptr>>, ghost t: Table, ghost b: nat, ghost j: nat)
    returns (it': Iterator, ghost b': nat, ghost j': int)
    requires Tabled(m, bins, lists, t) && StandsAt(it, lists, t, b, j)
    ensures it'.Invalid? <==> Before(t, b) + j < n
    ensures it'.Iterator? ==> j' >= 0 && StandsAt(it', lists, t, b', j') && Before(t, b') + j' == Before(t, b) + j - n
    ensures it'.Iterator? ==> it'.index == it.index - n + Drift(t, b, j - n) && it'.reverse == it.reverse
  {
    it', b', j' := it, b, j;
    var n': nat := n;
    ghost var rank, index := Before(t, b) + j - n, it.index - n + Drift(t, b, j - n);
    while n' > 0
      invariant it'.Iterator? && j' >= 0 && StandsAt(it', lists, t, b', j') && Before(t, b') + j' - n' == rank
      invariant it'.index - n' + Drift(t, b', j' - n') == index && it'.reverse == it.reverse
      decreases b', n'
    {
      it', n', j' := RoundBackward(m, bins, it', n', lists, t, j');
      if it'.Invalid? { return; }
      b' := it'.offset;
    }
  }

  // --------------------------------------------------------------------------
  // The interface
  // --------------------------------------------------------------------------

  /** iter_move by any signed number of steps, from any entry and with any index: it ends at
      the entry that many ranks away, or nowhere exactly if the index would leave the
      container or there is no such entry; and the index is off by the drift. So a right
      index stays right exactly for straight moves. */
  method IterMove(self: HashIndex, it: Iterator, n: int, ghost b: nat, ghost j: nat)
    returns (it': Iterator, ghost b': nat, ghost j': int)
    requires self.Valid() && StandsAt(it, self.lists, self.Contents(), b, j)
    ensures it'.Iterator? <==>
      0 <= it.index + n < |Flat(self.Contents())| && 0 <= Before(self.Contents(), b) + j + n < |Flat(self.Contents())|
    ensures it'.Iterator? ==> j' >= 0 && StandsAt(it', self.lists, self.Contents(), b', j')
    ensures it'.Iterator? ==> Before(self.Contents(), b') + j' == Before(self.Contents(), b) + j + n
    ensures it'.Iterator? ==> self.Contents()[b'][j'] == Flat(self.Contents())[Before(self.Contents(), b) + j + n]
    ensures it'.Iterator? ==> it'.index == it.index + n + Drift(self.Contents(), b, j + n) && it'.reverse == it.reverse
    ensures it'.Iterator? && it.index == Before(self.Contents(), b) + j ==>
      (it'.index == Before(self.Contents(), b') + j' <==> Straight(self.Contents(), b, j, n))
  {
    it', b', j' := Move(self.mem, self.bins, self.cap, self.size, it, n, self.lists, self.Contents(), b, j);
  }

  method Move(m: Nodes, bins: seq<Bin>, cap: nat, size: nat, it: Iterator, n: int,
              ghost lists: seq<seq<Ptr>>, ghost t: Table, ghost b: nat, ghost j: nat)
    returns (it': Iterator, ghost b': nat, ghost j': int)
    requires Tabled(m, bins, lists, t) && StandsAt(it, lists, t, b, j) && size == Size(t) && cap == |t|
    ensures it'.Iterator? <==> 0 <= it.index + n < |Flat(t)| && 0 <= Before(t, b) + j + n < |Flat(t)|
    ensures it'.Iterator? ==> j' >= 0 && StandsAt(it', lists, t, b', j') && Before(t, b') + j' == Before(t, b) + j + n
    ensures it'.Iterator? ==> t[b'][j'] == Flat(t)[Before(t, b) + j + n]
    ensures it'.Iterator? ==> it'.index == it.index + n + Drift(t, b, j + n) && it'.reverse == it.reverse
    ensures it'.Iterator? && it.index == Before(t, b) + j ==> (it'.index == Before(t, b') + j' <==> Straight(t, b, j, n))
  {
    FlatAt(t, b, j);
    it', b', j' := it, b, j;
    if it.index + n < 0 || it.index + n >= size { return Invalid, b, j; }
    it', b', j' := Walk(m, bins, cap, it, n, lists, t, b, j);
    if it'.Iterator? {
      FlatAt(t, b', j');
      DriftIsCrooked(t, b, j, n);
    }
  }

  method Walk(m: Nodes, bins: seq<Bin>, cap: nat, it: Iterator, n: int, ghost lists: seq<seq<Ptr>>, ghost t: Table, ghost b: nat, ghost j: nat)
    returns (it': Iterator, ghost b': nat, ghost j': int)
    requires Tabled(m, bins, lists, t) && StandsAt(it, lists, t, b, j) && cap == |t|
    ensures it'.Iterator? <==> 0 <= Before(t, b) + j + n < Size(t)
    ensures it'.Iterator? ==> j' >= 0 && StandsAt(it', lists, t, b', j') && Before(t, b') + j' == Before(t, b) + j + n
    ensures it'.Iterator? ==> it'.index == it.index + n + Drift(t, b, j + n) && it'.reverse == it.reverse
  {
    FlatAt(t, b, j);
    it', b', j' := it, b, j;
    if n > 0 {
      it', b', j' := Forward(m, bins, cap, it, n, lists, t, b, j);
    } else if n < 0 {
      it', b', j' := Backward(m, bins, it, -n, lists, t, b, j);
    }
  }

  /** Single steps are always straight, so an iteration that takes one step at a time
      visits every rank with the right index. */
  lemma SingleSteps(t: Table, b: nat, j: nat, n: int)
    requires b < |t| && j < |t[b]| && -1 <= n <= 1 && 0 <= Before(t, b) + j + n < Size(t)
    ensures Straight(t, b, j, n)
  {
    BeforeIsPrefix(t, |t|);
    assert t[..|t|] == t;
  }

  // --------------------------------------------------------------------------
  // Both ends
  // --------------------------------------------------------------------------

  method FirstUsed(bins: seq<Bin>) returns (i: nat)
    ensures i <= |bins| && forall c :: 0 <= c < i ==> bins[c].head == NULL
    ensures i < |bins| ==> bins[i].head != NULL
  {
    i := 0;
    while i < |bins|
      invariant i <= |bins| && forall c :: 0 <= c < i ==> bins[c].head == NULL
    {
      if bins[i].head != NULL { return; }
      i := i + 1;
    }
  }

  method LastUsed(bins: seq<Bin>) returns (i: int)
    ensures -1 <= i < |bins| && forall c :: i < c < |bins| ==> bins[c].tail == NULL
    ensures i >= 0 ==> bins[i].tail != NULL
  {
    i := |bins| - 1;
    while i >= 0
      invariant -1 <= i < |bins| && forall c :: i < c < |bins| ==> bins[c].tail == NULL
    {
      if bins[i].tail != NULL { return; }
      i := i - 1;
    }
  }

  lemma UsedBins(m: Nodes, bins: seq<Bin>, lists: seq<seq<Ptr>>, t: Table)
    requires Tabled(m, bins, lists, t)
    ensures forall c :: 0 <= c < |bins| ==> (bins[c].head == NULL <==> t[c] == []) && (bins[c].tail == NULL <==> t[c] == [])
  {
    forall c | 0 <= c < |bins| ensures (bins[c].head == NULL <==> t[c] == []) && (bins[c].tail == NULL <==> t[c] == []) {
      BinFacts(m, bins, lists, t, c);
    }
  }

  /** iter: the entry of rank 0. */
  method First(self: HashIndex) returns (it: Iterator, ghost b: nat)
    requires self.Valid()
    ensures it.Invalid? <==> self.size == 0
    ensures it.Iterator? ==> StandsAt(it, self.lists, self.Contents(), b, 0)
    ensures it.Iterator? ==> it.index == Before(self.Contents(), b) == 0 && !it.reverse
  {
    b := 0;
    if self.size <= 0 { return Invalid, b; }
    ghost var t: Table := self.Contents();
    var i := FirstUsed(self.bins);
    b := i;
    UsedBins(self.mem, self.bins, self.lists, t);
    NoneBefore(t, i);
    BinFacts(self.mem, self.bins, self.lists, t, i);
    it := Iterator(self.bins[i].head, 0, i, 0, false);
  }

  /** riter: the entry of the highest rank. */
  method Last(self: HashIndex) returns (it: Iterator, ghost b: nat)
    requires self.Valid()
    ensures it.Invalid? <==> self.size == 0
    ensures it.Iterator? ==> b < |self.Contents()| && self.Contents()[b] != []
    ensures it.Iterator? ==> StandsAt(it, self.lists, self.Contents(), b, |self.Contents()[b]| - 1)
    ensures it.Iterator? ==> it.index == Before(self.Contents(), b) + |self.Contents()[b]| - 1 == self.size - 1 && it.reverse
  {
    b := 0;
    if self.size <= 0 { return Invalid, b; }
    ghost var t: Table := self.Contents();
    var i := LastUsed(self.bins);
    UsedBins(self.mem, self.bins, self.lists, t);
    NoneBehind(t, i + 1);
    b := i;
    BinFacts(self.mem, self.bins, self.lists, t, i);
    LastEntry(self.mem, self.bins[i], self.lists[i]);
    it := Iterator(self.bins[i].tail, self.size - 1, i, (self.bins[i].size - 1) % NODE_SIZE, true);
  }

  lemma {:induction false} NoneBefore<T>(t: seq<seq<T>>, i: nat)
    requires i <= |t| && forall c :: 0 <= c < i ==> t[c] == []
    ensures Before(t, i) == 0 && (Size(t) > 0 ==> i < |t|)
  {
    if i > 0 { NoneBefore(t, i - 1); }
    BeforeIsPrefix(t, i);
  }

  lemma NoneBehind<T>(t: seq<seq<T>>, i: nat)
    requires i <= |t| && forall c :: i <= c < |t| ==> t[c] == []
    ensures Before(t, i) == Size(t) && (Size(t) > 0 ==> i > 0)
  {
    BeforeIsPrefix(t, i);
    AllEmpty(t[i..]);
  }

  // --------------------------------------------------------------------------
  // Snapshots
  // --------------------------------------------------------------------------

  /** The slots of one node. */
  method CopyNode(slots: Slots, count: nat, ks: seq<Ptr>, vs: seq<Ptr>) returns (ks': seq<Ptr>, vs': seq<Ptr>)
    requires count <= |slots|
    ensures ks' == ks + Keys(slots[..count]) && vs' == vs + Values(slots[..count])
  {
    ks', vs' := ks, vs;
    for i := 0 to count
      invariant ks' == ks + Keys(slots[..i]) && vs' == vs + Values(slots[..i])
    {
      ks' := ks' + [slots[i].key];
      vs' := vs' + [slots[i].value];
    }
  }

  /** The snapshot so far: that of the bins before, and the first entries of es. */
  ghost predicate CopiedTo(ks0: seq<Ptr>, vs0: seq<Ptr>, es: seq<Entry>, seen: nat, ks: seq<Ptr>, vs: seq<Ptr>) {
    seen <= |es| && ks == ks0 + Keys(es[..seen]) && vs == vs0 + Values(es[..seen])
  }

  lemma CopyStep(ks0: seq<Ptr>, vs0: seq<Ptr>, es: seq<Entry>, seen: nat, ks: seq<Ptr>, vs: seq<Ptr>, slots: Slots, count: nat)
    requires CopiedTo(ks0, vs0, es, seen, ks, vs) && Holds(es, seen, slots, count)
    ensures CopiedTo(ks0, vs0, es, seen + count, ks + Keys(slots[..count]), vs + Values(slots[..count]))
  {
    assert es[..seen + count] == es[..seen] + slots[..count];
    assert Keys(es[..seen + count]) == Keys(es[..seen]) + Keys(slots[..count]);
    assert Values(es[..seen + count]) == Values(es[..seen]) + Values(slots[..count]);
  }

  /** The nodes of one bin. */
  method CopyBin(m: Nodes, bin: Bin, ghost ns: seq<Ptr>, ks: seq<Ptr>, vs: seq<Ptr>) returns (ks': seq<Ptr>, vs': seq<Ptr>)
    requires IsBin(m, bin, ns)
    ensures CopiedTo(ks, vs, Entries(m, bin, ns), bin.size, ks', vs')
  {
    ks', vs' := ks, vs;
    ghost var es := Entries(m, bin, ns);
    var size := bin.size;
    var node := bin.head;
    ghost var i, seen := 0, 0;
    while node != NULL
      invariant i <= |ns| && node == NodeFrom(ns, i) && (node == NULL <==> i == |ns|) && size == bin.size - seen
      invariant seen == (if i < |ns| then NODE_SIZE * i else bin.size)
      invariant CopiedTo(ks, vs, es, seen, ks', vs')
      decreases |ns| - i
    {
      var count := if size < NODE_SIZE then size else NODE_SIZE;
      NodeSlots(m, bin, ns, i, count);
      CopyStep(ks, vs, es, seen, ks', vs', m[node].data, count);
      ks', vs' := CopyNode(m[node].data, count, ks', vs');
      size := size - count;
      node := m[node].next;
      i, seen := i + 1, seen + count;
    }
  }

  /** items: the keys and the values, in the order in which the iterators visit them;
      false when there is no memory for the snapshot. */
  method Items(self: HashIndex, keyMemory: bool, valueMemory: bool) returns (ok: bool, ks: seq<Ptr>, vs: seq<Ptr>)
    requires self.Valid()
    ensures ok <==> keyMemory && valueMemory
    ensures ok ==> ks == Keys(Flat(self.Contents())) && vs == Values(Flat(self.Contents()))
  {
    ghost var t: Table := self.Contents();
    ks, vs := [], [];
    if !keyMemory { return false, ks, vs; }
    if !valueMemory { return false, ks, vs; }
    for i := 0 to self.cap
      invariant ks == Keys(Flat(t[..i])) && vs == Values(Flat(t[..i]))
    {
      BinFacts(self.mem, self.bins, self.lists, t, i);
      assert t[i][..|t[i]|] == t[i];
      ks, vs := CopyBin(self.mem, self.bins[i], self.lists[i], ks, vs);
      SnapshotNext(t, i);
    }
    assert t[..|t|] == t;
    ok := true;
  }

  // --------------------------------------------------------------------------
  // Whole iterations
  // --------------------------------------------------------------------------

  /** The entry under an iterator. */
  lemma EntryAt(m: Nodes, bins: seq<Bin>, lists: seq<seq<Ptr>>, t: Table, it: Iterator, b: nat, j: nat)
    requires Tabled(m, bins, lists, t) && StandsAt(it, lists, t, b, j)
    ensures it.item in m && it.part < |m[it.item].data| && m[it.item].data[it.part] == t[b][j]
  {
    BinFacts(m, bins, lists, t, b);
  }

  /** advance: n steps in the direction of the iterator. */
  method Advance(self: HashIndex, it: Iterator, n: int, ghost b: nat, ghost j: nat)
    returns (it': Iterator, ghost b': nat, ghost j': int)
    requires self.Valid() && StandsAt(it, self.lists, self.Contents(), b, j)
    ensures var m := Directed(it.reverse, n); var r := Before(self.Contents(), b) + j;
      it'.Iterator? <==> 0 <= it.index + m < |Flat(self.Contents())| && 0 <= r + m < |Flat(self.Contents())|
    ensures it'.Iterator? ==> j' >= 0 && StandsAt(it', self.lists, self.Contents(), b', j') && it'.reverse == it.reverse
    ensures it'.Iterator? ==> Before(self.Contents(), b') + j' == Before(self.Contents(), b) + j + Directed(it.reverse, n)
    ensures it'.Iterator? ==>
      it'.index == it.index + Directed(it.reverse, n) + Drift(self.Contents(), b, j + Directed(it.reverse, n))
  {
    it', b', j' := IterMove(self, it, if it.reverse then -n else n, b, j);
  }

  /** The iterator stands where k entries in its direction have been visited, with its rank
      as its index. */
  ghost predicate StandsAfter(lists: seq<seq<Ptr>>, t: Table, it: Iterator, b: nat, j: int, reverse: bool, k: int) {
    if k < Size(t)
    then j >= 0 && StandsAt(it, lists, t, b, j) && it.index == Before(t, b) + j == Place(reverse, k, Size(t)) && it.reverse == reverse
    else it.Invalid?
  }

  /** The key of one entry (iter_get_key), and ++. */
  method Step(self: HashIndex, it: Iterator, ghost b: nat, ghost j: int, ghost k: nat)
    returns (key: Ptr, it': Iterator, ghost b': nat, ghost j': int)
    requires self.Valid() && it.Iterator? && StandsAfter(self.lists, self.Contents(), it, b, j, it.reverse, k)
    ensures k < |Flat(self.Contents())| && it.index == Place(it.reverse, k, |Flat(self.Contents())|)
    ensures 0 <= it.index < |Flat(self.Contents())| && key == Flat(self.Contents())[it.index].key
    ensures StandsAfter(self.lists, self.Contents(), it', b', j', it.reverse, k + 1)
  {
    StepFacts(self.mem, self.bins, self.lists, self.Contents(), it, b, j, k);
    key := self.mem[it.item].data[it.part].key;
    it', b', j' := Advance(self, it, 1, b, j);
  }

  lemma StepFacts(m: Nodes, bins: seq<Bin>, lists: seq<seq<Ptr>>, t: Table, it: Iterator, b: nat, j: int, k: nat)
    requires Tabled(m, bins, lists, t) && it.Iterator? && StandsAfter(lists, t, it, b, j, it.reverse, k)
    ensures k < Size(t) && j >= 0 && StandsAt(it, lists, t, b, j) && it.index == Before(t, b) + j == Place(it.reverse, k, Size(t))
    ensures it.item in m && it.part < |m[it.item].data| && m[it.item].data[it.part] == Flat(t)[it.index]
    ensures 0 <= it.index + Directed(it.reverse, 1) < Size(t) ==> Drift(t, b, j + Directed(it.reverse, 1)) == 0
  {
    EntryAt(m, bins, lists, t, it, b, j);
    FlatAt(t, b, j);
    var n := Directed(it.reverse, 1);
    if 0 <= it.index + n < Size(t) {
      SingleSteps(t, b, j, n);
      DriftIsCrooked(t, b, j, n);
    }
  }

  /** All keys from one end in the direction of the iterator, and the index of every entry. */
  method VisitFrom(self: HashIndex, it: Iterator, ghost b: nat, ghost j: int, ghost reverse: bool) returns (ks: seq<Ptr>, at: seq<int>)
    requires self.Valid() && StandsAfter(self.lists, self.Contents(), it, b, j, reverse, 0)
    ensures ks == Along(Keys(Flat(self.Contents())), reverse) && at == Along(Numbers(|ks|), reverse)
  {
    ghost var keys, ranks := Keys(Flat(self.Contents())), Numbers(|Flat(self.Contents())|);
    var here := it;
    ghost var c, i := b, j;
    ks, at := [], [];
    while here.Iterator?
      invariant Visited(keys, reverse, ks) && Visited(ranks, reverse, at) && |at| == |ks|
      invariant StandsAfter(self.lists, self.Contents(), here, c, i, reverse, |ks|)
      decreases |keys| - |ks|
    {
      var index, key := here.index, NULL;
      key, here, c, i := Step(self, here, c, i, |ks|);
      VisitOne(keys, reverse, ks, key);
      VisitOne(ranks, reverse, at, index);
      ks, at := ks + [key], at + [index];
    }
    VisitedAll(keys, reverse, ks);
    VisitedAll(ranks, reverse, at);
  }

  /** From iter() on with ++: every key in the order of the snapshots, every index being the
      rank. */
  method Visit(self: HashIndex) returns (ks: seq<Ptr>, at: seq<int>)
    requires self.Valid()
    ensures ks == Keys(Flat(self.Contents())) && at == Numbers(|ks|)
  {
    var it;
    ghost var b;
    it, b := First(self);
    ks, at := VisitFrom(self, it, b, 0, false);
    AlongForwards(Keys(Flat(self.Contents())));
    AlongForwards(Numbers(|ks|));
  }

  /** From riter() on with ++: the same the other way round. */
  method VisitBack(self: HashIndex) returns (ks: seq<Ptr>, at: seq<int>)
    requires self.Valid()
    ensures ks == Along(Keys(Flat(self.Contents())), true) && at == Along(Numbers(|ks|), true)
  {
    var it;
    ghost var b;
    it, b := Last(self);
    ks, at := VisitFrom(self, it, b, if it.Iterator? then |self.Contents()[b]| - 1 else 0, true);
  }
}
