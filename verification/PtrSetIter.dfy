/** Iterators and snapshots of the pointer set (src/main/ptrset.cpp). A pointer to a bin is
    modelled by the number of the bin. */
module PtrSetIter {
  import opened Basics
  import opened Buckets
  import opened Iterators
  import opened PtrBins
  import opened PtrSet

  datatype Iterator = Invalid | Iterator(item: nat, index: nat, offset: nat, reverse: bool)

  /** The iterator stands at an element, and its index is the rank of that element. */
  ghost predicate Stands(t: Table, it: Iterator) {
    && it.Iterator? && it.item < |t| && it.offset < |t[it.item]|
    && it.index == Before(t, it.item) + it.offset
  }

  /** The counts of the bins are those of the table. */
  ghost predicate Counts(bins: seq<Bin>, t: Table) {
    |bins| == |t| && forall b :: 0 <= b < |bins| ==> bins[b].size == |t[b]|
  }

  lemma SetCounts(s: PtrSet)
    requires s.Valid()
    ensures Counts(s.bins, TableOf(s.bins)) && s.size == |Flat(TableOf(s.bins))|
  {
    forall b | 0 <= b < |s.bins| ensures s.bins[b].size == |TableOf(s.bins)[b]| { assert PtrBins.BinAt(s.bins, b); }
  }

  /** next_bin: the next bin with elements; the number of bins without one. */
  method NextBin(bins: seq<Bin>, b: nat, ghost t: Table) returns (c: nat)
    requires Counts(bins, t) && b < |t|
    ensures b < c <= |t| && (c < |t| ==> t[c] != []) && Before(t, c) == Before(t, b + 1)
  {
    c := b + 1;
    while c < |bins| && bins[c].size == 0
      invariant b < c <= |t| && Before(t, c) == Before(t, b + 1)
    {
      c := c + 1;
    }
  }

  /** prev_bin: the previous bin with elements; -1 without one. */
  method PrevBin(bins: seq<Bin>, b: nat, ghost t: Table) returns (c: int)
    requires Counts(bins, t) && b < |t|
    ensures -1 <= c < b && (c >= 0 ==> t[c] != []) && Before(t, c + 1) == Before(t, b)
  {
    c := b - 1;
    while c >= 0 && bins[c].size == 0
      invariant -1 <= c < b && Before(t, c + 1) == Before(t, b)
    {
      c := c - 1;
    }
  }

  /** The forward loop of iter_move. (The next bin always exists: the target is in range.) */
  method Forward(bins: seq<Bin>, it: Iterator, n: nat, ghost t: Table) returns (it': Iterator)
    requires Counts(bins, t) && Stands(t, it) && it.index + n < Size(t)
    ensures Stands(t, it') && it'.index == it.index + n && it'.reverse == it.reverse
  {
    it' := it;
    var rest: nat := n;
    while rest > 0
      invariant Stands(t, it') && it'.index + rest == it.index + n && it'.reverse == it.reverse
      decreases |t| - it'.item, rest
    {
      var bin := bins[it'.item];
      if it'.offset + rest < bin.size {
        return it'.(index := it'.index + rest, offset := it'.offset + rest);
      }
      var advance := bin.size - it'.offset;
      Ranks(t, it'.item);
      var next := NextBin(bins, it'.item, t);
      rest := rest - advance;
      it' := it'.(item := next, index := it'.index + advance, offset := 0);
    }
  }

  /** The backward loop; n steps towards the first element. */
  method Backward(bins: seq<Bin>, it: Iterator, n: nat, ghost t: Table) returns (it': Iterator)
    requires Counts(bins, t) && Stands(t, it) && n <= it.index
    ensures Stands(t, it') && it'.index == it.index - n && it'.reverse == it.reverse
  {
    it' := it;
    var rest: nat := n;
    while rest > 0
      invariant Stands(t, it') && it'.index - rest == it.index - n && it'.reverse == it.reverse
      decreases it'.item, rest
    {
      if it'.offset >= rest {
        return it'.(index := it'.index - rest, offset := it'.offset - rest);
      }
      var advance := it'.offset + 1;
      var prev := PrevBin(bins, it'.item, t);
      assert prev >= 0;
      rest := rest - advance;
      it' := it'.(item := prev, index := it'.index - advance, offset := bins[prev].size - 1);
    }
  }

  /** iter_move by any signed number of steps: to the element so many ranks away, or
      nowhere exactly if there is none. */
  method IterMove(s: PtrSet, it: Iterator, n: int) returns (it': Iterator)
    requires s.Valid() && Stands(TableOf(s.bins), it)
    ensures it'.Invalid? <==> it.index + n < 0 || it.index + n >= |Flat(TableOf(s.bins))|
    ensures it'.Iterator? ==> Stands(TableOf(s.bins), it') && it'.index == it.index + n && it'.reverse == it.reverse
    ensures it'.Iterator? ==> TableOf(s.bins)[it'.item][it'.offset] == Flat(TableOf(s.bins))[it.index + n]
  {
    SetCounts(s);
    it' := Move(s.bins, s.size, it, n, TableOf(s.bins));
  }

  method Move(bins: seq<Bin>, size: nat, it: Iterator, n: int, ghost t: Table) returns (it': Iterator)
    requires Counts(bins, t) && Stands(t, it) && size == Size(t)
    ensures it'.Invalid? <==> it.index + n < 0 || it.index + n >= |Flat(t)|
    ensures it'.Iterator? ==> it'.reverse == it.reverse
    ensures it'.Iterator? ==> Stands(t, it') && it'.index == it.index + n && t[it'.item][it'.offset] == Flat(t)[it.index + n]
  {
    if it.index + n < 0 || it.index + n >= size { return Invalid; }
    if n >= 0 { it' := Forward(bins, it, n, t); } else { it' := Backward(bins, it, -n, t); }
    FlatAt(t, it'.item, it'.offset);
  }

  /** A rank has one position, so a move by n ends where n single steps end. */
  lemma OnePositionPerRank(t: Table, a: Iterator, b: Iterator)
    requires Stands(t, a) && Stands(t, b) && a.index == b.index
    ensures a.item == b.item && a.offset == b.offset
  {
    Ranks(t, a.item);
    Ranks(t, b.item);
    if a.item < b.item { BeforeGrows(t, a.item + 1, b.item); }
    if b.item < a.item { BeforeGrows(t, b.item + 1, a.item); }
  }

  /** iter and riter. */
  method Iter(s: PtrSet) returns (it: Iterator)
    requires s.Valid()
    ensures it.Invalid? <==> s.Contents() == {}
    ensures it.Iterator? ==> Stands(TableOf(s.bins), it) && it.index == 0 && !it.reverse
  {
    SetCounts(s);
    EmptyIffNoElements(TableOf(s.bins));
    if s.size <= 0 { return Invalid; }
    it := FirstElement(s.bins, TableOf(s.bins));
  }

  method FirstElement(bins: seq<Bin>, ghost t: Table) returns (it: Iterator)
    requires Counts(bins, t) && Size(t) > 0
    ensures it.Iterator? && Stands(t, it) && it.index == 0 && !it.reverse
  {
    var i := 0;
    Ranks0(t);
    while bins[i].size == 0
      invariant i < |t| && Before(t, i) == 0
      decreases |t| - i
    {
      Ranks(t, i);
      i := i + 1;
    }
    it := Iterator(i, 0, 0, false);
  }

  method RIter(s: PtrSet) returns (it: Iterator)
    requires s.Valid()
    ensures it.Invalid? <==> s.Contents() == {}
    ensures it.Iterator? ==> Stands(TableOf(s.bins), it) && it.index == |Flat(TableOf(s.bins))| - 1 && it.reverse
  {
    SetCounts(s);
    EmptyIffNoElements(TableOf(s.bins));
    if s.size <= 0 { return Invalid; }
    it := LastElement(s.bins, s.size, s.cap, TableOf(s.bins));
  }

  method LastElement(bins: seq<Bin>, size: nat, cap: nat, ghost t: Table) returns (it: Iterator)
    requires Counts(bins, t) && size == Size(t) > 0 && cap == |t|
    ensures it.Iterator? && Stands(t, it) && it.index == |Flat(t)| - 1 && it.reverse
  {
    Ranks0(t);
    var i := cap - 1;
    while bins[i].size == 0
      invariant 0 <= i < |t| && Before(t, i + 1) == Size(t)
      decreases i
    {
      i := i - 1;
    }
    it := Iterator(i, size - 1, bins[i].size - 1, true);
  }

  lemma Ranks0(t: Table)
    requires Size(t) > 0
    ensures |t| > 0 && Before(t, |t|) == Size(t)
  {
    Ranks(t, 0);
  }

  lemma EmptyIffNoElements(t: Table)
    ensures Stored(t) == {} <==> Size(t) == 0
  {
    if Size(t) > 0 { assert Flat(t)[0] in Stored(t); }
  }

  // --------------------------------------------------------------------------
  // Whole iterations
  // --------------------------------------------------------------------------

  /** advance: n steps in the direction of the iterator. */
  method Advance(s: PtrSet, it: Iterator, n: int) returns (it': Iterator)
    requires s.Valid() && Stands(TableOf(s.bins), it)
    ensures it'.Invalid? <==>
      it.index + Directed(it.reverse, n) < 0 || it.index + Directed(it.reverse, n) >= |Flat(TableOf(s.bins))|
    ensures it'.Iterator? ==> Stands(TableOf(s.bins), it') && it'.index == it.index + Directed(it.reverse, n) && it'.reverse == it.reverse
  {
    it' := IterMove(s, it, if it.reverse then -n else n);
  }

  /** max_advance() and remaining(): advance() by n leads to an element exactly if n is at most
      k, and in the direction of the iterator, its own element is the first of those left. */
  method StepsLeft(s: PtrSet, it: Iterator) returns (k: nat, left: nat)
    requires s.Valid() && Stands(TableOf(s.bins), it)
    ensures forall n: nat {:trigger Directed(it.reverse, n)} ::
      n <= k <==> 0 <= it.index + Directed(it.reverse, n) < |Flat(TableOf(s.bins))|
    ensures left <= |Flat(TableOf(s.bins))| && it.index == Place(it.reverse, |Flat(TableOf(s.bins))| - left, |Flat(TableOf(s.bins))|)
  {
    SetCounts(s);
    Inside(TableOf(s.bins), it);
    k, left := MaxAdvance(it.reverse, it.index, s.size), Remaining(it.reverse, it.index, s.size);
  }

  lemma Inside(t: Table, it: Iterator)
    requires Stands(t, it)
    ensures it.index < |Flat(t)| && Flat(t)[it.index] == t[it.item][it.offset]
  {
    FlatAt(t, it.item, it.offset);
  }

  /** The iterator stands where k elements in its direction have been visited. */
  ghost predicate StandsAfter(t: Table, it: Iterator, reverse: bool, k: int) {
    if k < |Flat(t)| then Stands(t, it) && it.index == Place(reverse, k, |Flat(t)|) && it.reverse == reverse else it.Invalid?
  }

  /** One element, and ++. */
  method Step(s: PtrSet, it: Iterator, ghost k: nat) returns (v: Ptr, it': Iterator)
    requires s.Valid() && it.Iterator? && StandsAfter(TableOf(s.bins), it, it.reverse, k)
    ensures k < |Flat(TableOf(s.bins))| && v == Flat(TableOf(s.bins))[Place(it.reverse, k, |Flat(TableOf(s.bins))|)]
    ensures StandsAfter(TableOf(s.bins), it', it.reverse, k + 1)
  {
    SetCounts(s);
    Inside(TableOf(s.bins), it);
    assert PtrBins.BinAt(s.bins, it.item);
    v := s.bins[it.item].data[it.offset];
    it' := Advance(s, it, 1);
  }

  /** All elements from one end in the direction of the iterator. */
  method VisitFrom(s: PtrSet, it: Iterator, ghost reverse: bool) returns (vs: seq<Ptr>)
    requires s.Valid() && StandsAfter(TableOf(s.bins), it, reverse, 0)
    ensures vs == Along(Flat(TableOf(s.bins)), reverse)
  {
    ghost var all := Flat(TableOf(s.bins));
    var here := it;
    vs := [];
    while here.Iterator?
      invariant Visited(all, reverse, vs) && StandsAfter(TableOf(s.bins), here, reverse, |vs|)
      decreases |all| - |vs|
    {
      var v;
      v, here := Step(s, here, |vs|);
      VisitOne(all, reverse, vs, v);
      vs := vs + [v];
    }
    VisitedAll(all, reverse, vs);
  }

  /** From iter() on with ++: the elements in the order of the snapshot. */
  method Visit(s: PtrSet) returns (vs: seq<Ptr>)
    requires s.Valid()
    ensures vs == Flat(TableOf(s.bins))
  {
    var it := Iter(s);
    EmptyIffNoElements(TableOf(s.bins));
    vs := VisitFrom(s, it, false);
    AlongForwards(Flat(TableOf(s.bins)));
  }

  /** From riter() on with ++: the other way round. */
  method VisitBack(s: PtrSet) returns (vs: seq<Ptr>)
    requires s.Valid()
    ensures vs == Along(Flat(TableOf(s.bins)), true)
  {
    var it := RIter(s);
    EmptyIffNoElements(TableOf(s.bins));
    vs := VisitFrom(s, it, true);
  }

  /** values: the elements in the order in which the iterators visit them; false exactly
      without memory for the snapshot. */
  method Values(s: PtrSet, memory: bool) returns (ok: bool, vs: seq<Ptr>)
    requires s.Valid()
    ensures ok <==> memory
    ensures ok ==> vs == Flat(TableOf(s.bins))
    ensures ok ==> forall v :: v in vs <==> v in s.Contents()
  {
    ghost var t := TableOf(s.bins);
    vs := [];
    if !memory { return false, []; }
    for i := 0 to s.cap
      invariant vs == Flat(t[..i])
    {
      assert PtrBins.BinAt(s.bins, i);
      if s.bins[i].size > 0 { vs := vs + s.bins[i].data[..s.bins[i].size]; }
      FlatNext(t, i);
    }
    assert t[..|t|] == t;
    ok := true;
  }
}
