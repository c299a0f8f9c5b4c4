/** The set of pointers (src/main/ptrset.cpp): hash bins that hold sorted arrays. */
module PtrSet {
  import opened Basics
  import opened Bits
  import opened Buckets
  import opened PtrBins

  /** How put and toggle end; false of the source is Present or NoMemory. */
  datatype Outcome = Added | Removed | Present | NoMemory

  /** Distributes the elements of a bin over two new ones. False without memory. */
  method SplitBin(hash: Hash, bin: Bin, c: nat) returns (ok: bool, x: Bin, y: Bin)
    requires IsBin(bin) && c > 0
    ensures ok ==> IsBin(x) && Elems(x) == Half(hash, Elems(bin), c, false)
    ensures ok ==> IsBin(y) && Elems(y) == Half(hash, Elems(bin), c, true)
    ensures !ok ==> bin.size > 0
  {
    x, y, ok := Bin(0, 0, []), Bin(0, 0, []), true;
    ghost var s := Elems(bin);
    for i := 0 to bin.size
      invariant IsBin(x) && Elems(x) == Half(hash, s[..i], c, false)
      invariant IsBin(y) && Elems(y) == Half(hash, s[..i], c, true)
    {
      HalfNext(hash, s, i, c, false);
      HalfNext(hash, s, i, c, true);
      var value := bin.data[i];
      if And(HashOf(hash, value), Xor(2 * c - 1, c - 1)) != 0 {
        ok, y := Append(y, value);
      } else {
        ok, x := Append(x, value);
      }
      if !ok { return; }
    }
    assert s[..bin.size] == s;
  }

  method SplitNext(hash: Hash, bin: Bin, grown: seq<Bin>, ghost t: Table, i: nat) returns (ok: bool, grown': seq<Bin>)
    requires IsBin(bin) && SplitSoFar(hash, t, grown, i) && i < |t| && t[i] == Elems(bin)
    ensures ok ==> SplitSoFar(hash, t, grown', i + 1)
    ensures !ok ==> t[i] != []
  {
    var c := |grown| / 2;
    var x, y;
    ok, x, y := SplitBin(hash, bin, c);
    grown' := grown;
    if !ok { return; }
    SplitOneMore(hash, t, grown, i, x, y);
    grown' := grown[i := x][c + i := y];
  }

  /** Builds the doubled table aside. False without memory. */
  method Redistribute(hash: Hash, bins: seq<Bin>) returns (ok: bool, grown: seq<Bin>)
    requires AllBins(bins) && |bins| > 0
    ensures ok ==> AllBins(grown) && IsSplit(hash, TableOf(bins), TableOf(grown))
    ensures !ok ==> exists b :: 0 <= b < |bins| && Elems(bins[b]) != []
  {
    var c := |bins|;
    ghost var t := TableOf(bins);
    ok, grown := true, seq(2 * c, _ => Bin(0, 0, []));
    SplitNone(hash, t, grown);
    for i := 0 to c
      invariant SplitSoFar(hash, t, grown, i)
    {
      assert BinAt(bins, i);
      ok, grown := SplitNext(hash, bins[i], grown, t, i);
      if !ok { return; }
    }
    SplitAll(hash, t, grown);
    ok := true;
  }

  class PtrSet {
    const hash: Hash
    var size: nat
    var cap: nat
    var bins: seq<Bin>
    ghost var refused: nat              // requests for memory that were refused

    ghost predicate Valid()
      reads this
    {
      && |bins| == cap && (cap == 0 || cap >= 0x10) && AllBins(bins)
      && WellFormed(hash, TableOf(bins)) && size == Size(TableOf(bins))
    }

    /** The set. */
    ghost function Contents(): set<Ptr>
      reads `bins
    {
      Stored(TableOf(bins))
    }

    constructor (hash: Hash)
      ensures Valid() && Contents() == {} && this.hash == hash && cap == 0 && refused == 0
    {
      this.hash := hash;
      size, cap, bins, refused := 0, 0, [], 0;
    }

    /** The bin of a value has no room for another one, or there are no bins. */
    predicate Crowded(value: Ptr)
      reads this
    {
      cap == 0 || SizeAt(bins, BinOf(HashOf(hash, value), cap)) >= 2 * TUPLE_ITEMS
    }

    /** The buffer of the bin of a value is used up. */
    predicate BufferFull(value: Ptr)
      reads this
    {
      cap > 0 && UsedUp(bins, BinOf(HashOf(hash, value), cap))
    }

    method FirstBins()
      requires Valid() && cap == 0
      modifies `cap, `bins
      ensures Valid() && Contents() == old(Contents()) && cap == 0x10
    {
      NoElements(hash, TableOf(bins));
      cap := 0x10;
      bins := seq(0x10, _ => Bin(0, 0, []));
      forall b | 0 <= b < |bins| ensures BinAt(bins, b) { }
      NoElements(hash, TableOf(bins));
    }

    /** grow: the first bins, or twice as many. The new bins are built aside, so without
        memory nothing has changed. */
    method Grow() returns (ok: bool)
      requires Valid()
      modifies `cap, `bins, `refused
      ensures refused == old(refused) + (if ok then 0 else 1)
      ensures Valid() && Contents() == old(Contents())
      ensures !ok ==> cap == old(cap) && bins == old(bins)
      ensures ok ==> cap == Twice(old(cap))
      ensures ok && old(cap) > 0 ==> IsSplit(hash, old(TableOf(bins)), TableOf(bins))
    {
      var granted := *;
      if !granted {
        refused := refused + 1;
        return false;
      }
      ok := true;
      if cap == 0 {
        FirstBins();
        return;
      }
      var grown;
      ok, grown := Redistribute(hash, bins);
      if !ok {
        refused := refused + 1;
        return;
      }
      SplitKeeps(hash, TableOf(bins), TableOf(grown));
      bins := grown;
      cap := 2 * cap;
    }

    // ------------------------------------------------------------------------
    // Elements
    // ------------------------------------------------------------------------

    /** contains. */
    method Contains(value: Ptr) returns (found: bool)
      requires Valid()
      ensures found <==> value in Contents()
    {
      if cap == 0 {
        NoElements(hash, TableOf(bins));
        return false;
      }
      InBin(hash, TableOf(bins), value);
      var b := And(HashOf(hash, value), cap - 1);
      assert SortedAt(TableOf(bins), b) && BinAt(bins, b);
      var i := IndexOf(Elems(bins[b]), value);
      found := i >= 0;
    }

    /** get: the pointer if it is stored, the default otherwise. */
    method Get(value: Ptr, dfl: Ptr) returns (r: Ptr)
      requires Valid()
      ensures r == if value in Contents() then value else dfl
    {
      var found := Contains(value);
      r := if found then value else dfl;
    }

    /** Puts a value into its slot of a bin. */
    method InsertInto(b: nat, value: Ptr, i: nat) returns (ok: bool)
      requires Valid() && b < cap && b == BinOf(HashOf(hash, value), cap) && SlotFor(Elems(bins[b]), value, i)
      modifies `size, `bins, `refused
      ensures Valid() && (!ok ==> size == old(size) && bins == old(bins))
      ensures refused == old(refused) + (if ok then 0 else 1) && (!ok ==> UsedUp(old(bins), b))
      ensures ok ==> size == old(size) + 1 && SizeAt(bins, b) == SizeAt(old(bins), b) + 1
      ensures ok ==> old(value !in Contents()) && Contents() == old(Contents()) + {value}
    {
      PutIn(hash, TableOf(bins), b, value, i);
      assert BinAt(bins, b);
      var bin;
      ok, bin := Insert(bins[b], value, i);
      if !ok {
        refused := refused + 1;
        return;
      }
      TableUpdate(bins, b, bin);
      bins := bins[b := bin];
      size := size + 1;
    }

    /** Takes the element at a position of a bin out. */
    method RemoveFrom(b: nat, i: nat)
      requires Valid() && b < cap && i < |Elems(bins[b])|
      modifies `size, `bins
      ensures Valid() && size + 1 == old(size)
      ensures Contents() == old(Contents()) - {old(Elems(bins[b])[i])}
    {
      assert BinAt(bins, b);
      TakeOut(hash, TableOf(bins), b, i);
      var bin := RemoveAt(bins[b], i);
      TableUpdate(bins, b, bin);
      bins := bins[b := bin];
      size := size - 1;
    }

    /** The first part of put: grows when the bin of the value is crowded. */
    method MakeRoom(value: Ptr) returns (ok: bool)
      requires Valid()
      modifies `cap, `bins, `refused
      ensures Valid() && Contents() == old(Contents()) && refused == old(refused) + (if ok then 0 else 1)
      ensures !ok ==> old(Crowded(value)) && cap == old(cap)
      ensures ok ==> cap > 0 && cap == if old(Crowded(value)) then Twice(old(cap)) else old(cap)
      ensures ok && !old(Crowded(value)) ==> bins == old(bins)
    {
      if cap > 0 { InBin(hash, TableOf(bins), value); }
      ok := true;
      if cap == 0 || bins[And(HashOf(hash, value), cap - 1)].size >= 2 * TUPLE_ITEMS { ok := Grow(); }
    }

    /** The second part of put: the value goes into its bin. */
    method PutInBin(value: Ptr) returns (o: Outcome)
      requires Valid() && cap > 0
      modifies `size, `bins, `refused
      ensures Valid() && !o.Removed? && refused == old(refused) + (if o.NoMemory? then 1 else 0)
      ensures o.Added? ==> value !in old(Contents()) && Contents() == old(Contents()) + {value}
      ensures !o.Added? ==> Contents() == old(Contents())
      ensures o.Present? ==> value in old(Contents())
      ensures o.NoMemory? ==> old(BufferFull(value))
    {
      InBin(hash, TableOf(bins), value);
      var b := And(HashOf(hash, value), cap - 1);
      assert SortedAt(TableOf(bins), b) && BinAt(bins, b);
      var i := InsertIndexOf(Elems(bins[b]), value);
      if i < 0 { return Present; }
      var ok := InsertInto(b, value, i);
      o := if ok then Added else NoMemory;
    }

    /** put. Whatever makes it return false, the set is as before. It fails only when it asks
        for memory and is refused, and grows exactly when the bin of the value is crowded. */
    method Put(value: Ptr) returns (o: Outcome)
      requires Valid()
      modifies `size, `cap, `bins, `refused
      ensures refused == old(refused) + (if o.NoMemory? then 1 else 0)
      ensures o.NoMemory? ==> old(Crowded(value)) || old(BufferFull(value))
      ensures if o.NoMemory? then cap == old(cap) || (old(Crowded(value)) && cap == Twice(old(cap)))
              else cap == if old(Crowded(value)) then Twice(old(cap)) else old(cap)
      ensures Valid() && !o.Removed?
      ensures o.Added? ==> value !in old(Contents()) && Contents() == old(Contents()) + {value}
      ensures !o.Added? ==> Contents() == old(Contents())
      ensures o.Present? ==> value in old(Contents())
    {
      var ok := MakeRoom(value);
      if !ok { return NoMemory; }
      o := PutInBin(value);
    }

    /** remove. */
    method Remove(value: Ptr) returns (ok: bool)
      requires Valid()
      modifies `size, `bins
      ensures Valid() && (ok <==> value in old(Contents())) && Contents() == old(Contents()) - {value}
    {
      if cap == 0 {
        NoElements(hash, TableOf(bins));
        return false;
      }
      InBin(hash, TableOf(bins), value);
      var b := And(HashOf(hash, value), cap - 1);
      assert SortedAt(TableOf(bins), b) && BinAt(bins, b);
      var i := IndexOf(Elems(bins[b]), value);
      if i < 0 { return false; }
      RemoveFrom(b, i);
      ok := true;
    }

    /** toggle: out if it is in, in if it is out; false only for want of memory, where there are
        no bins or the buffer is full. When an addition fills the bin the set grows, if there is
        memory. */
    method Toggle(value: Ptr) returns (o: Outcome)
      requires Valid()
      modifies `size, `cap, `bins, `refused
      ensures o.NoMemory? ==> refused == old(refused) + 1 && (old(cap) == 0 || old(BufferFull(value)))
      ensures o.Removed? ==> refused == old(refused) && cap == old(cap)
      ensures o.Added? && old(cap) == 0 ==> refused == old(refused) && cap == 0x10
      ensures o.Added? && old(cap) > 0 ==>
        var full := old(SizeAt(bins, BinOf(HashOf(hash, value), cap))) + 1 >= 2 * TUPLE_ITEMS;
        && cap == (if full && refused == old(refused) then 2 * old(cap) else old(cap))
        && refused <= old(refused) + (if full then 1 else 0) && refused >= old(refused)
      ensures o.NoMemory? && old(cap) > 0 ==> cap == old(cap)
      ensures Valid() && !o.Present?
      ensures o.Added? ==> value !in old(Contents()) && Contents() == Toggled(old(Contents()), value)
      ensures o.Removed? ==> value in old(Contents()) && Contents() == Toggled(old(Contents()), value)
      ensures o.NoMemory? ==> value !in old(Contents()) && Contents() == old(Contents())
    {
      if cap == 0 {
        NoElements(hash, TableOf(bins));
        o := Put(value);
        return;
      }
      InBin(hash, TableOf(bins), value);
      var b := And(HashOf(hash, value), cap - 1);
      assert SortedAt(TableOf(bins), b) && BinAt(bins, b);
      if bins[b].size <= 0 {
        var done := InsertInto(b, value, 0);
        return if done then Added else NoMemory;
      }
      o := ToggleBetween(b, value);
      if o.Added? && bins[b].size >= 2 * TUPLE_ITEMS {
        var more := Grow();
      }
    }

    /** toggle in a bin with elements, up to the growth. */
    method ToggleBetween(b: nat, value: Ptr) returns (o: Outcome)
      requires Valid() && b < cap && b == BinOf(HashOf(hash, value), cap) && Elems(bins[b]) != []
      modifies `size, `bins, `refused
      ensures Valid() && !o.Present? && refused == old(refused) + (if o.NoMemory? then 1 else 0)
      ensures o.Added? ==> SizeAt(bins, b) == SizeAt(old(bins), b) + 1
      ensures o.NoMemory? ==> UsedUp(old(bins), b)
      ensures o.Added? ==> value !in old(Contents()) && Contents() == Toggled(old(Contents()), value)
      ensures o.Removed? ==> value in old(Contents()) && Contents() == Toggled(old(Contents()), value)
      ensures o.NoMemory? ==> value !in old(Contents()) && Contents() == old(Contents())
    {
      InBin(hash, TableOf(bins), value);
      assert SortedAt(TableOf(bins), b) && BinAt(bins, b);
      var i := ToggleIndexOf(Elems(bins[b]), value);
      var mp := bins[b].data[i];
      if value == mp {
        RemoveFrom(b, i);
        return Removed;
      } else if value > mp {
        i := i + 1;
      }
      var ok := InsertInto(b, value, i);
      o := if ok then Added else NoMemory;
    }
  }

  function Twice(cap: nat): nat {
    if cap == 0 then 0x10 else 2 * cap
  }

  function SizeAt(bins: seq<Bin>, b: nat): nat {
    if b < |bins| then bins[b].size else 0
  }

  predicate UsedUp(bins: seq<Bin>, b: nat) {
    b < |bins| && bins[b].size >= bins[b].cap
  }

  /** Membership of one value turned around. */
  ghost function Toggled(s: set<Ptr>, v: Ptr): set<Ptr> {
    if v in s then s - {v} else s + {v}
  }

  /** Twice is the identity, so two successful toggles of a value leave the set as it was. */
  lemma ToggledTwice(s: set<Ptr>, v: Ptr)
    ensures Toggled(Toggled(s, v), v) == s
  {
    if v in s { assert (s - {v}) + {v} == s; } else { assert (s + {v}) - {v} == s; }
  }

  /** Two successful calls of toggle restore the set; one adds the value, the other one takes
      it out again. */
  method ToggleTwice(s: PtrSet, value: Ptr) returns (a: Outcome, b: Outcome)
    requires s.Valid()
    modifies s
    ensures s.Valid()
    ensures !a.NoMemory? && !b.NoMemory? ==> s.Contents() == old(s.Contents()) && (a.Added? <==> b.Removed?)
    ensures a.NoMemory? ==> s.Contents() == old(s.Contents())
    ensures s.refused == old(s.refused) ==> !a.NoMemory? && !b.NoMemory?
  {
    a := s.Toggle(value);
    b := NoMemory;
    if a.NoMemory? { return; }
    ToggledTwice(old(s.Contents()), value);
    b := s.Toggle(value);
  }

  lemma NoElements(hash: Hash, t: Table)
    requires (|t| == 0 || PowerOfTwo(|t|)) && forall b :: 0 <= b < |t| ==> t[b] == []
    ensures WellFormed(hash, t) && Size(t) == 0 && Stored(t) == {}
  {
    AllEmpty(t);
    assert Flat(t) == [];
    forall b: nat | b < |t| ensures SortedAt(t, b) { }
  }
}
