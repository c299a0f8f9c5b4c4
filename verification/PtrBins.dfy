/** Bins of the pointer set (src/main/ptrset.cpp): sorted arrays of pointers, searched by
    halving, and the tables made of them. */
module PtrBins {
  import opened Basics
  import opened Bits
  import opened Buckets

  const TUPLE_ITEMS: nat := 16

  /** A bin: the first `size` slots of a buffer of `cap` slots. */
  datatype Bin = Bin(size: nat, cap: nat, data: seq<Ptr>)

  type Hash = Ptr -> nat

  function HashOf(hash: Hash, v: Ptr): nat {
    if v != NULL then hash(v) else 0
  }

  predicate IsBin(bin: Bin) {
    bin.size <= bin.cap == |bin.data|
  }

  function Elems(bin: Bin): seq<Ptr> {
    if bin.size <= |bin.data| then bin.data[..bin.size] else []
  }

  ghost predicate Before2(s: seq<Ptr>, i: int, j: int)
    requires 0 <= i < |s| && 0 <= j < |s|
  {
    s[i] < s[j]
  }

  /** Strictly increasing; so no pointer occurs twice. */
  ghost predicate Sorted(s: seq<Ptr>) {
    forall i, j {:trigger Before2(s, i, j)} :: 0 <= i < j < |s| ==> Before2(s, i, j)
  }

  // --------------------------------------------------------------------------
  // Searching
  // --------------------------------------------------------------------------

  /** Position i separates the smaller elements from the others that are not v. */
  ghost predicate SlotFor(s: seq<Ptr>, v: Ptr, i: int) {
    && 0 <= i <= |s|
    && (forall k :: 0 <= k < i ==> s[k] < v)
    && (forall k :: i <= k < |s| ==> v < s[k])
  }

  lemma OnlySlot(s: seq<Ptr>, v: Ptr, i: int, j: int)
    requires SlotFor(s, v, i) && SlotFor(s, v, j)
    ensures i == j && v !in s
  {
    var atI := if i < |s| then s[i] else v;
    var atJ := if j < |s| then s[j] else v;
    forall k | 0 <= k < |s| ensures s[k] != v { assert k < i || i <= k; }
  }

  /** The common part of the three searches: what is known when the bounds meet, or where
      the value was hit on the way. */
  method Narrow(s: seq<Ptr>, v: Ptr) returns (hit: bool, first: int)
    requires Sorted(s) && |s| > 0
    ensures 0 <= first < |s| && (hit ==> s[first] == v)
    ensures !hit ==> (forall k :: 0 <= k < first ==> s[k] < v) && (forall k :: first < k < |s| ==> v < s[k])
  {
    first := 0;
    var last := |s| - 1;
    while first < last
      invariant 0 <= first < |s| && first - 1 <= last < |s|
      invariant forall k :: 0 <= k < first ==> s[k] < v
      invariant forall k :: last < k < |s| ==> v < s[k]
    {
      var mid := (first + last) / 2;
      var mp := s[mid];
      forall k | 0 <= k < mid ensures s[k] < mp { assert Before2(s, k, mid); }
      forall k | mid < k < |s| ensures mp < s[k] { assert Before2(s, mid, k); }
      if v < mp {
        last := mid - 1;
      } else if v > mp {
        first := mid + 1;
      } else {
        return true, mid;
      }
    }
    hit := false;
  }

  /** index_of: where the value is, -1 exactly if it is absent. */
  method IndexOf(s: seq<Ptr>, v: Ptr) returns (i: int)
    requires Sorted(s)
    ensures i == -1 <==> v !in s
    ensures i != -1 ==> 0 <= i < |s| && s[i] == v
  {
    if |s| <= 0 { return -1; }
    var hit, first := Narrow(s, v);
    if hit { return first; }
    forall k | 0 <= k < |s| && k != first ensures s[k] != v { assert k < first || first < k; }
    i := if v == s[first] then first else -1;
  }

  /** insert_index_of: the one position that keeps the order, -1 exactly if the value is
      there already. */
  method InsertIndexOf(s: seq<Ptr>, v: Ptr) returns (i: int)
    requires Sorted(s)
    ensures i == -1 <==> v in s
    ensures i != -1 ==> SlotFor(s, v, i)
  {
    if |s| <= 0 { return 0; }
    var hit, first := Narrow(s, v);
    if hit { return -1; }
    if v == s[first] { return -1; }
    forall k | 0 <= k < |s| && k != first ensures s[k] != v { assert k < first || first < k; }
    i := if v < s[first] then first else first + 1;
  }

  /** toggle_index_of, for a bin with elements: the position of the value if it is there,
      otherwise the position it goes before or behind. */
  method ToggleIndexOf(s: seq<Ptr>, v: Ptr) returns (i: nat)
    requires Sorted(s) && |s| > 0
    ensures i < |s| && (s[i] == v <==> v in s)
    ensures v !in s ==> SlotFor(s, v, if v > s[i] then i + 1 else i)
  {
    var hit, first := Narrow(s, v);
    forall k | 0 <= k < |s| && k != first ensures !hit ==> s[k] != v { assert k < first || first < k; }
    i := first;
  }

  // --------------------------------------------------------------------------
  // Changing a bin
  // --------------------------------------------------------------------------

  lemma InsertSorted(s: seq<Ptr>, v: Ptr, i: nat)
    requires Sorted(s) && SlotFor(s, v, i)
    ensures Sorted(s[..i] + [v] + s[i..])
  {
    var u := s[..i] + [v] + s[i..];
    forall a, b | 0 <= a < b < |u| ensures Before2(u, a, b) {
      var p := if a < i then a else a - 1;
      var q := if b < i then b else b - 1;
      assert a != i && b != i ==> Before2(s, p, q);
    }
  }

  lemma RemoveSorted(s: seq<Ptr>, i: nat)
    requires Sorted(s) && i < |s|
    ensures Sorted(s[..i] + s[i + 1..])
    ensures forall v :: v in s[..i] + s[i + 1..] <==> v in s && v != s[i]
  {
    var u := s[..i] + s[i + 1..];
    forall a, b | 0 <= a < b < |u| ensures Before2(u, a, b) {
      assert Before2(s, if a < i then a else a + 1, if b < i then b else b + 1);
    }
    forall v ensures v in u <==> v in s && v != s[i] {
      if v in s && v != s[i] {
        var k :| 0 <= k < |s| && s[k] == v;
        assert k < i ==> u[k] == v;
        assert k > i ==> u[k - 1] == v;
      }
      if v in u {
        var k :| 0 <= k < |u| && u[k] == v;
        assert k < i ==> Before2(s, k, i);
        assert k >= i ==> Before2(s, i, k + 1);
      }
    }
  }

  /** The size of the buffer when one more element comes. */
  function RoomFor(bin: Bin): nat {
    var more, half := bin.cap + bin.cap / 2, TUPLE_ITEMS / 2;
    if bin.size < bin.cap then bin.cap else if more > half then more else half
  }

  /** Room for one more element. False only when the buffer is full and realloc has no memory,
      and then nothing changes. */
  method Room(bin: Bin) returns (ok: bool, bin': Bin)
    requires IsBin(bin)
    ensures IsBin(bin') && Elems(bin') == Elems(bin) && bin'.size == bin.size
    ensures if ok then bin'.size < bin'.cap == RoomFor(bin) else bin' == bin && bin.size >= bin.cap
  {
    ok, bin' := true, bin;
    if bin.size >= bin.cap {
      var half := TUPLE_ITEMS / 2;
      var newCap := if bin.cap + bin.cap / 2 > half then bin.cap + bin.cap / 2 else half;
      var granted := *;
      if !granted { return false, bin; }
      var data := Junk(newCap);
      bin' := Bin(bin.size, newCap, bin.data[..bin.size] + data[bin.size..]);
    }
  }

  /** What realloc hands out: anything. */
  method Junk(n: nat) returns (s: seq<Ptr>)
    ensures |s| == n
  {
    s := [];
    while |s| < n
      invariant |s| <= n
    {
      var x := *;
      s := s + [x];
    }
  }

  /** insert: the elements from index on move up. */
  method Insert(bin: Bin, v: Ptr, index: nat) returns (ok: bool, bin': Bin)
    requires IsBin(bin) && index <= bin.size
    ensures IsBin(bin') && (!ok ==> bin' == bin && bin.size >= bin.cap)
    ensures ok ==> Elems(bin') == Inserted(Elems(bin), v, index) && bin'.cap == RoomFor(bin)
  {
    ok, bin' := Room(bin);
    if !ok { return; }
    var data := bin'.data;
    if index < bin'.size {
      data := data[..index + 1] + data[index..bin'.size] + data[bin'.size + 1..];
    }
    data := data[index := v];
    bin' := bin'.(data := data, size := bin'.size + 1);
  }

  /** append. */
  method Append(bin: Bin, v: Ptr) returns (ok: bool, bin': Bin)
    requires IsBin(bin)
    ensures IsBin(bin') && (!ok ==> bin' == bin && bin.size >= bin.cap)
    ensures ok ==> Elems(bin') == Elems(bin) + [v] && bin'.cap == RoomFor(bin)
  {
    ok, bin' := Room(bin);
    if !ok { return; }
    bin' := bin'.(data := bin'.data[bin'.size := v], size := bin'.size + 1);
  }

  /** remove: the elements behind index move down. */
  method RemoveAt(bin: Bin, index: nat) returns (bin': Bin)
    requires IsBin(bin)
    ensures IsBin(bin')
    ensures Elems(bin') == (if index < bin.size then Without(Elems(bin), index) else Elems(bin)) && bin'.cap == bin.cap
  {
    bin' := bin;
    if index >= bin.size { return; }
    var newSize := bin.size - 1;
    var data := bin.data;
    if index < newSize {
      data := data[..index] + data[index + 1..bin.size] + data[newSize..];
    }
    bin' := bin.(data := data, size := newSize);
  }

  // --------------------------------------------------------------------------
  // Tables
  // --------------------------------------------------------------------------

  type Table = seq<seq<Ptr>>

  ghost predicate BinAt(bins: seq<Bin>, b: int)
    requires 0 <= b < |bins|
  {
    IsBin(bins[b])
  }

  ghost predicate AllBins(bins: seq<Bin>) {
    forall b {:trigger BinAt(bins, b)} :: 0 <= b < |bins| ==> BinAt(bins, b)
  }

  function TableOf(bins: seq<Bin>): (t: Table)
    ensures |t| == |bins| && forall b :: 0 <= b < |bins| ==> t[b] == Elems(bins[b])
  {
    seq(|bins|, b requires 0 <= b < |bins| => Elems(bins[b]))
  }

  ghost predicate PlacedAt(hash: Hash, t: Table, b: nat, v: Ptr) {
    |t| > 0 ==> BinOf(HashOf(hash, v), |t|) == b
  }

  ghost predicate SortedAt(t: Table, b: nat)
    requires b < |t|
  {
    Sorted(t[b])
  }

  /** Sorted bins, and every pointer in the bin of its hash. */
  ghost predicate WellFormed(hash: Hash, t: Table) {
    && (|t| == 0 || PowerOfTwo(|t|))
    && (forall b: nat {:trigger SortedAt(t, b)} :: b < |t| ==> SortedAt(t, b))
    && (forall b: nat, v {:trigger PlacedAt(hash, t, b, v)} :: b < |t| && v in t[b] ==> PlacedAt(hash, t, b, v))
  }

  /** The set a table stands for. */
  ghost function Stored(t: Table): set<Ptr> {
    set v | v in Flat(t)
  }

  lemma {:induction false} InFlat(t: Table, v: Ptr)
    ensures v in Flat(t) <==> exists b: nat :: b < |t| && v in t[b]
  {
    if t != [] {
      InFlat(t[1..], v);
      if v in Flat(t[1..]) {
        var b: nat :| b < |t[1..]| && v in t[1..][b];
        assert v in t[b + 1];
      }
      if exists b: nat :: b < |t| && v in t[b] {
        var b: nat :| b < |t| && v in t[b];
        if b > 0 { assert v in t[1..][b - 1]; }
      }
      assert v in t[0] ==> v in Flat(t);
    }
  }

  function BinFor(hash: Hash, t: Table, v: Ptr): nat
    requires |t| > 0
  {
    BinOf(HashOf(hash, v), |t|)
  }

  /** Looking into the bin of the hash is enough. */
  lemma InBin(hash: Hash, t: Table, v: Ptr)
    requires WellFormed(hash, t) && |t| > 0
    ensures BinFor(hash, t, v) < |t|
    ensures v in Stored(t) <==> v in t[BinFor(hash, t, v)]
  {
    BinAfterDoubling(HashOf(hash, v), |t|);
    InFlat(t, v);
    if v in Flat(t) {
      var b: nat :| b < |t| && v in t[b];
      assert PlacedAt(hash, t, b, v);
    }
  }

  /** A bin of a well-formed table gets another content. */
  lemma OneBin(hash: Hash, t: Table, b: nat, s: seq<Ptr>)
    requires WellFormed(hash, t) && b < |t| && Sorted(s)
    requires forall v :: v in s && v !in t[b] ==> BinFor(hash, t, v) == b
    ensures WellFormed(hash, t[b := s]) && Size(t[b := s]) == Size(t) - |t[b]| + |s|
    ensures forall v :: v in Stored(t[b := s]) <==> v in s || (v in Stored(t) && v !in t[b])
  {
    var u := t[b := s];
    SizeOfUpdate(t, b, s);
    forall c: nat | c < |u| ensures SortedAt(u, c) { assert SortedAt(t, c); }
    forall c: nat, v | c < |u| && v in u[c] ensures PlacedAt(hash, u, c, v) {
      assert v in t[c] ==> PlacedAt(hash, t, c, v);
    }
    forall v ensures v in Stored(u) <==> v in s || (v in Stored(t) && v !in t[b]) {
      InBin(hash, t, v);
      InBin(hash, u, v);
      assert v in t[b] ==> PlacedAt(hash, t, b, v);
    }
  }

  function Inserted(s: seq<Ptr>, v: Ptr, i: nat): seq<Ptr>
    requires i <= |s|
  {
    s[..i] + [v] + s[i..]
  }

  function Without(s: seq<Ptr>, i: nat): seq<Ptr>
    requires i < |s|
  {
    s[..i] + s[i + 1..]
  }

  lemma InsertedHolds(s: seq<Ptr>, v: Ptr, i: nat)
    requires i <= |s|
    ensures forall w :: w in Inserted(s, v, i) <==> w in s || w == v
  {
    assert s == s[..i] + s[i..];
  }

  /** An absent pointer, put into its slot, joins the set. */
  lemma PutIn(hash: Hash, t: Table, b: nat, v: Ptr, i: nat)
    requires WellFormed(hash, t) && b < |t| && b == BinFor(hash, t, v) && SlotFor(t[b], v, i)
    ensures var u := t[b := Inserted(t[b], v, i)];
      WellFormed(hash, u) && Size(u) == Size(t) + 1 && v !in Stored(t) && Stored(u) == Stored(t) + {v}
  {
    assert SortedAt(t, b);
    OnlySlot(t[b], v, i, i);
    InsertSorted(t[b], v, i);
    InsertedHolds(t[b], v, i);
    OneBin(hash, t, b, Inserted(t[b], v, i));
    InBin(hash, t, v);
    forall w | w in t[b] ensures w in Stored(t) { InFlat(t, w); }
  }

  /** The element at a position leaves the set. */
  lemma TakeOut(hash: Hash, t: Table, b: nat, i: nat)
    requires WellFormed(hash, t) && b < |t| && i < |t[b]|
    ensures var u := t[b := Without(t[b], i)];
      WellFormed(hash, u) && Size(u) + 1 == Size(t) && Stored(u) == Stored(t) - {t[b][i]}
  {
    assert SortedAt(t, b);
    RemoveSorted(t[b], i);
    OneBin(hash, t, b, Without(t[b], i));
    forall w | w in t[b] ensures w in Stored(t) { InFlat(t, w); }
    assert t[b][i] in t[b];
  }

  lemma TableUpdate(bins: seq<Bin>, b: nat, bin: Bin)
    requires b < |bins|
    ensures TableOf(bins[b := bin]) == TableOf(bins)[b := Elems(bin)]
    ensures AllBins(bins) && IsBin(bin) ==> AllBins(bins[b := bin])
  {
    var more := bins[b := bin];
    if AllBins(bins) && IsBin(bin) {
      forall c | 0 <= c < |more| ensures BinAt(more, c) { assert BinAt(bins, c); }
    }
  }

  // --------------------------------------------------------------------------
  // Doubling
  // --------------------------------------------------------------------------

  /** The elements of a bin with (or without) the split bit, in order. */
  function Half(hash: Hash, s: seq<Ptr>, c: nat, moved: bool): seq<Ptr>
    requires c > 0
  {
    if s == [] then []
    else
      var h := Half(hash, s[..|s| - 1], c, moved);
      if SplitBit(HashOf(hash, s[|s| - 1]), c) == moved then h + [s[|s| - 1]] else h
  }

  lemma HalfNext(hash: Hash, s: seq<Ptr>, j: nat, c: nat, moved: bool)
    requires j < |s| && c > 0
    ensures Half(hash, s[..j + 1], c, moved)
         == Half(hash, s[..j], c, moved) + (if SplitBit(HashOf(hash, s[j]), c) == moved then [s[j]] else [])
  {
    assert s[..j + 1][..j] == s[..j];
  }

  lemma {:induction false} HalfHolds(hash: Hash, s: seq<Ptr>, c: nat, moved: bool)
    requires c > 0
    ensures forall v :: v in Half(hash, s, c, moved) <==> v in s && SplitBit(HashOf(hash, v), c) == moved
    ensures |Half(hash, s, c, moved)| + |Half(hash, s, c, !moved)| == |s|
  {
    if s != [] {
      var init := s[..|s| - 1];
      HalfHolds(hash, init, c, moved);
      assert s == init + [s[|s| - 1]];
    }
  }

  lemma SortedInit(s: seq<Ptr>, last: Ptr)
    ensures Sorted(s + [last]) <==> Sorted(s) && forall v :: v in s ==> v < last
  {
    var u := s + [last];
    if Sorted(u) {
      forall i, j | 0 <= i < j < |s| ensures Before2(s, i, j) { assert Before2(u, i, j); }
      forall v | v in s ensures v < last {
        var i :| 0 <= i < |s| && s[i] == v;
        assert Before2(u, i, |s|);
      }
    }
    if Sorted(s) && forall v :: v in s ==> v < last {
      forall i, j | 0 <= i < j < |u| ensures Before2(u, i, j) {
        if j < |s| { assert Before2(s, i, j); } else { assert u[i] in s; }
      }
    }
  }

  lemma {:induction false} HalfSorted(hash: Hash, s: seq<Ptr>, c: nat, moved: bool)
    requires c > 0 && Sorted(s)
    ensures Sorted(Half(hash, s, c, moved))
  {
    if s != [] {
      var init, last := s[..|s| - 1], s[|s| - 1];
      assert s == init + [last];
      SortedInit(init, last);
      HalfSorted(hash, init, c, moved);
      HalfHolds(hash, init, c, moved);
      SortedInit(Half(hash, init, c, moved), last);
    }
  }

  ghost predicate SplitAt(hash: Hash, t: Table, u: Table, b: int)
    requires 0 <= b < |t| && |u| == 2 * |t|
  {
    u[b] == Half(hash, t[b], |t|, false) && u[|t| + b] == Half(hash, t[b], |t|, true)
  }

  /** A table whose bins were each split into two. */
  ghost predicate IsSplit(hash: Hash, t: Table, u: Table) {
    |t| > 0 && |u| == 2 * |t| && forall b {:trigger SplitAt(hash, t, u, b)} :: 0 <= b < |t| ==> SplitAt(hash, t, u, b)
  }

  lemma SplitHolds(hash: Hash, t: Table, u: Table, b: nat, v: Ptr)
    requires IsSplit(hash, t, u) && b < |t|
    ensures v in u[b] <==> v in t[b] && !SplitBit(HashOf(hash, v), |t|)
    ensures v in u[|t| + b] <==> v in t[b] && SplitBit(HashOf(hash, v), |t|)
    ensures |u[b]| + |u[|t| + b]| == |t[b]|
  {
    assert SplitAt(hash, t, u, b);
    HalfHolds(hash, t[b], |t|, false);
    HalfHolds(hash, t[b], |t|, true);
  }

  /** Splitting keeps the order of the bins, their placement, the set and its size. */
  lemma SplitKeeps(hash: Hash, t: Table, u: Table)
    requires WellFormed(hash, t) && IsSplit(hash, t, u)
    ensures WellFormed(hash, u) && Stored(u) == Stored(t) && Size(u) == Size(t)
  {
    var c := |t|;
    BinAfterDoubling(0, c);
    forall b: nat | b < |u| ensures SortedAt(u, b) {
      var o := if b < c then b else b - c;
      assert SortedAt(t, o) && SplitAt(hash, t, u, o);
      HalfSorted(hash, t[o], c, b >= c);
    }
    forall b: nat, v | b < |u| && v in u[b] ensures PlacedAt(hash, u, b, v) { SplitPlaced(hash, t, u, b, v); }
    forall v ensures v in Stored(u) <==> v in Stored(t) {
      SplitStores(hash, t, u, v);
    }
    forall b | 0 <= b < c ensures |t[b]| == |u[b]| + |u[c + b]| { SplitHolds(hash, t, u, b, NULL); }
    SizeOfHalves(t, u);
  }

  lemma SplitPlaced(hash: Hash, t: Table, u: Table, b: nat, v: Ptr)
    requires WellFormed(hash, t) && IsSplit(hash, t, u) && b < |u| && v in u[b]
    ensures PlacedAt(hash, u, b, v)
  {
    var o := if b < |t| then b else b - |t|;
    SplitHolds(hash, t, u, o, v);
    assert PlacedAt(hash, t, o, v);
    BinAfterDoubling(HashOf(hash, v), |t|);
  }

  lemma SplitStores(hash: Hash, t: Table, u: Table, v: Ptr)
    requires IsSplit(hash, t, u)
    ensures v in Stored(u) <==> v in Stored(t)
  {
    InFlat(t, v);
    InFlat(u, v);
    if v in Flat(t) {
      var b: nat :| b < |t| && v in t[b];
      SplitHolds(hash, t, u, b, v);
      assert v in u[b] || v in u[|t| + b];
    }
    if v in Flat(u) {
      var b: nat :| b < |u| && v in u[b];
      SplitHolds(hash, t, u, if b < |t| then b else b - |t|, v);
    }
  }

  /** What i rounds of a doubling have done. */
  ghost predicate SplitSoFar(hash: Hash, t: Table, grown: seq<Bin>, i: nat) {
    && 0 < |t| && i <= |t| && |grown| == 2 * |t| && AllBins(grown)
    && forall b {:trigger SplitAt(hash, t, TableOf(grown), b)} :: 0 <= b < i ==> SplitAt(hash, t, TableOf(grown), b)
  }

  lemma SplitNone(hash: Hash, t: Table, grown: seq<Bin>)
    requires |t| > 0 && grown == seq(2 * |t|, _ => Bin(0, 0, []))
    ensures SplitSoFar(hash, t, grown, 0)
  {
    forall b | 0 <= b < |grown| ensures BinAt(grown, b) { }
  }

  lemma SplitAll(hash: Hash, t: Table, grown: seq<Bin>)
    requires SplitSoFar(hash, t, grown, |t|)
    ensures AllBins(grown) && IsSplit(hash, t, TableOf(grown))
  {
    forall b | 0 <= b < |t| ensures SplitAt(hash, t, TableOf(grown), b) { }
  }

  lemma SplitOneMore(hash: Hash, t: Table, grown: seq<Bin>, i: nat, x: Bin, y: Bin)
    requires SplitSoFar(hash, t, grown, i) && i < |t| && IsBin(x) && IsBin(y)
    requires Elems(x) == Half(hash, t[i], |t|, false) && Elems(y) == Half(hash, t[i], |t|, true)
    ensures SplitSoFar(hash, t, grown[i := x][|t| + i := y], i + 1)
  {
    var u, more := TableOf(grown), grown[i := x][|t| + i := y];
    var v := TableOf(more);
    forall b | 0 <= b < |more| ensures BinAt(more, b) { assert BinAt(grown, b); }
    forall b | 0 <= b < i + 1 ensures SplitAt(hash, t, v, b) {
      if b < i { assert SplitAt(hash, t, u, b); }
    }
  }
}
