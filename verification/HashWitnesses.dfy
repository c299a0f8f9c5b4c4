/** Inputs that meet the faults of the hash index. */
module HashWitnesses {
  /* Runs of src/main/hash_index.cpp from a new container: into the endless loop of remove(),
     into a growth that puts keys out of reach, and to an iterator with a wrong index. */

  import opened Basics
  import opened Bits
  import opened Buckets
  import opened HashIndex
  import opened HashIndexIter
  import opened HashInterrupted
  import opened HashNodes
  import opened HashTable
  import opened SplitTables

  // --------------------------------------------------------------------------
  // Creating some keys
  // --------------------------------------------------------------------------

  /** The table after the keys were created in order. */
  ghost function After(spec: Spec, keys: seq<Ptr>): Table {
    if keys == [] then []
    else
      var init, key := keys[..|keys| - 1], keys[|keys| - 1];
      Inserted(After(spec, init), Entry(spec.HashOf(key), key, NULL))
  }

  /** Creates different keys; granted exactly if no request for memory was refused. */
  method CreateAll(spec: Spec, keys: seq<Ptr>) returns (d: HashIndex, granted: bool)
    requires spec.Lawful() && forall i, j :: 0 <= i < j < |keys| ==> !spec.Same(keys[j], keys[i])
    ensures fresh(d) && d.spec == spec && (granted <==> d.refused == 0)
    ensures granted ==> d.Valid() && d.size == |keys| && d.Contents() == After(spec, keys)
  {
    d := new HashIndex(spec);
    granted := true;
    EmptyMap(d.spec, d.Contents());
    for i := 0 to |keys|
      invariant fresh(d) && d.spec == spec && d.Valid() && d.size == i && d.refused == 0
      invariant d.Contents() == After(spec, keys[..i]) && Unbound(spec, d.Contents(), keys, i)
    {
      ghost var t: Table := d.Contents();
      var o, pos := d.Create(keys[i], NULL);
      if !o.Created? { return d, false; }
      AfterNext(spec, keys, i);
      OthersUnbound(spec, t, d.Contents(), keys, i);
    }
    assert keys[..|keys|] == keys;
  }

  ghost predicate Unbound(spec: Spec, t: Table, keys: seq<Ptr>, i: nat) {
    forall j {:trigger keys[j]} :: i <= j < |keys| ==> Lookup(spec, t, keys[j]) == None
  }

  lemma OthersUnbound(spec: Spec, t: Table, u: Table, keys: seq<Ptr>, i: nat)
    requires i < |keys| && forall j, k :: 0 <= j < k < |keys| ==> !spec.Same(keys[k], keys[j])
    requires Unbound(spec, t, keys, i) && Binds(spec, t, u, keys[i], NULL)
    ensures Unbound(spec, u, keys, i + 1)
  {
  }

  lemma AfterNext(spec: Spec, keys: seq<Ptr>, i: nat)
    requires i < |keys|
    ensures After(spec, keys[..i + 1]) == Inserted(After(spec, keys[..i]), Entry(spec.HashOf(keys[i]), keys[i], NULL))
  {
    assert keys[..i + 1][..i] == keys[..i];
  }

  /** The same without growth: sixteen bins, every entry in the bin of its hash. */
  ghost function Filled(spec: Spec, keys: seq<Ptr>): (t: Table)
    ensures |t| == 0x10
  {
    if keys == [] then seq(0x10, _ => [])
    else
      var init, key := keys[..|keys| - 1], keys[|keys| - 1];
      Added(Filled(spec, init), spec.HashOf(key) % 0x10, Entry(spec.HashOf(key), key, NULL))
  }

  lemma FilledNext(spec: Spec, keys: seq<Ptr>, i: nat)
    requires i < |keys|
    ensures Filled(spec, keys[..i + 1])
      == Added(Filled(spec, keys[..i]), spec.HashOf(keys[i]) % 0x10, Entry(spec.HashOf(keys[i]), keys[i], NULL))
  {
    assert keys[..i + 1][..i] == keys[..i];
  }

  lemma {:induction false} NoGrowth(spec: Spec, keys: seq<Ptr>)
    requires |keys| <= 64
    ensures Size(Filled(spec, keys)) == |keys| && (keys != [] ==> After(spec, keys) == Filled(spec, keys))
  {
    if keys == [] {
      AllEmpty(Filled(spec, keys));
    } else {
      var init, key := keys[..|keys| - 1], keys[|keys| - 1];
      var t, h := Filled(spec, init), spec.HashOf(key);
      NoGrowth(spec, init);
      SixteenBins(h);
      SizeOfUpdate(t, h % 0x10, t[h % 0x10] + [Entry(h, key, NULL)]);
      if init == [] { assert MadeRoom([], false) == t; }
    }
  }

  lemma SixteenBins(h: nat)
    ensures PowerOfTwo(16) && BinOf(h, 16) == h % 16 && (SplitBit(h, 16) <==> h % 32 >= 16)
  {
    assert PowerOfTwo(1) && PowerOfTwo(2) && PowerOfTwo(4) && PowerOfTwo(8);
    AndMask(h, 16);
    BinAfterDoubling(h, 16);
    AndMask(h, 32);
  }

  function UpTo(n: nat): seq<Ptr> {
    seq(n, i => i + 1)
  }

  // --------------------------------------------------------------------------
  // The endless remove
  // --------------------------------------------------------------------------

  function OneHash(): Spec {
    Plain(_ => 0)
  }

  /** With one hash all entries are in the first bin. */
  lemma AllInFirstBin(t: Table)
    requires WellFormed(OneHash(), t) && Size(t) > 0
    ensures |t| > 0 && |t[0]| == Size(t) && Before(t, 1) == Size(t)
    ensures forall b :: 0 < b < |t| ==> t[b] == []
  {
    AndMask(0, |t|);
    forall b: nat | 0 < b < |t| ensures t[b] == [] {
      if t[b] != [] {
        assert t[b][0] in t[b] && PlacedIn(OneHash(), |t|, b, t[b][0]);
        BinAfterDoubling(0, |t|);
      }
    }
    forall b | 0 <= b < |t[1..]| ensures t[1..][b] == [] { assert t[1..][b] == t[b + 1]; }
    AllEmpty(t[1..]);
    BeforeIsPrefix(t, 1);
  }

  /** The first entry of a bin of 17: the search for its key ends there, two nodes before
      the last one. */
  lemma FirstOfSeventeen(t: Table)
    requires WellFormed(OneHash(), t) && Size(t) == 17
    ensures |t| > 0 && |t[0]| == 17
    ensures KeyBin(OneHash(), t, t[0][0].key) == 0 && RankIn(OneHash(), t, t[0][0].key) == 0
    ensures Lookup(OneHash(), t, t[0][0].key).Some? && HangsAt(t, 0, 0)
  {
    PlainLawful(OneHash().hash);
    AllInFirstBin(t);
    AndMask(0, |t|);
    var spec, e := OneHash(), t[0][0];
    assert e in t[0] && PlacedIn(spec, |t|, 0, e);
    assert Stores(t, e);
    HitsIsSame(spec, e.key, e);
    LookupIs(spec, t, e.key, e);
    assert NodesFor(17) == 3;
  }

  /** Seventeen creations, and then remove() of the first key that iter() gives: if no request
      for memory was refused, the call never returns. */
  method RunIntoLoop() returns (d: HashIndex, o: Removal)
    ensures fresh(d) && (d.refused == 0 ==> o.Hangs?)
  {
    PlainLawful(OneHash().hash);
    var granted;
    d, granted := CreateAll(OneHash(), UpTo(17));
    o := Absent;
    if !granted { return; }
    FirstOfSeventeen(d.Contents());
    var it;
    ghost var b;
    it, b := HashIndexIter.First(d);
    AllInFirstBin(d.Contents());
    assert b == 0;
    EntryAt(d.mem, d.bins, d.lists, d.Contents(), it, b, 0);
    var ov;
    o, ov := d.Remove(d.mem[it.item].data[it.part].key);
  }

  // --------------------------------------------------------------------------
  // The wrong index
  // --------------------------------------------------------------------------

  function Identity(): Spec {
    Plain(k => k)
  }

  lemma ThreeAdded(u: Table, e: Entry, f: Entry, g: Entry)
    requires |u| == 16 && forall b :: 0 <= b < 16 ==> u[b] == []
    ensures var t := Added(Added(Added(u, 0, e), 2, f), 2, g); t[0] == [e] && t[1] == [] && t[2] == [f, g]
  {
  }

  /** Keys 16, 2 and 18 with their numbers as hashes: one entry, an empty bin, two entries. */
  lemma OneNoneTwo(keys: seq<Ptr>, t: Table)
    requires |keys| == 3 && keys[0] == 16 && keys[1] == 2 && keys[2] == 18 && t == After(Identity(), keys)
    ensures |t| == 16 && t[0] == [Entry(16, 16, NULL)] && t[1] == [] && t[2] == [Entry(2, 2, NULL), Entry(18, 18, NULL)]
  {
    var spec := Identity();
    NoGrowth(spec, keys);
    FilledNext(spec, keys, 0);
    FilledNext(spec, keys, 1);
    FilledNext(spec, keys, 2);
    assert keys[..0] == [] && keys[..2 + 1] == keys;
    ThreeAdded(Filled(spec, []), Entry(16, 16, NULL), Entry(2, 2, NULL), Entry(18, 18, NULL));
  }

  /** Three creations, iter(), and a move by two: the iterator stands at the last entry, of
      rank 2, with index 3. */
  method MoveOverEmptyBin() returns (d: HashIndex, key: Ptr, it: Iterator)
    ensures fresh(d) && (d.refused == 0 ==> it.Iterator? && key == 18 && it.index == 3)
  {
    PlainLawful(Identity().hash);
    var granted;
    var keys := [16, 2, 18];
    d, granted := CreateAll(Identity(), keys);
    key, it := NULL, Invalid;
    if !granted { return; }
    ghost var t: Table := d.Contents();
    OneNoneTwo(keys, t);
    ghost var b, j;
    it, b := HashIndexIter.First(d);
    StartOf(t, b);
    it, b, j := HashIndexIter.IterMove(d, it, 2, b, 0);
    EndOf(t, b, j);
    EntryAt(d.mem, d.bins, d.lists, t, it, b, j);
    key := d.mem[it.item].data[it.part].key;
  }

  lemma StartOf(t: Table, b: nat)
    requires |t| > 2 && |t[0]| == 1 && t[1] == [] && |t[2]| == 2 && b < |t| && Before(t, b) == 0
    ensures b == 0 && Before(t, 2) == 1 && Before(t, 3) == 3 && Size(t) >= 3 && Drift(t, 0, 2) == 1
  {
    if b > 0 { BeforeGrows(t, 1, b); }
    Ranks(t, 2);
    assert Ahead(t, 2, 1) == 0;
  }

  lemma EndOf(t: Table, b: nat, j: nat)
    requires |t| > 2 && Before(t, 2) == 1 && Before(t, 3) == 3 && b < |t| && j < |t[b]| && Before(t, b) + j == 2
    ensures b == 2 && j == 1
  {
    if b > 2 { BeforeGrows(t, 3, b); }
    if b < 2 { BeforeGrows(t, b + 1, 2); }
  }

  // --------------------------------------------------------------------------
  // The interrupted growth
  // --------------------------------------------------------------------------

  /** The hash of a key is the number before it. */
  function Shifted(): Spec {
    Plain(k => if k > 0 then k - 1 else 0)
  }

  /** The keys b + 1, b + 17, b + 33, ... up to k. */
  function Column(b: nat, k: nat): seq<Entry>
    requires b < 16
  {
    seq((k + 15 - b) / 16, i requires 0 <= i => Entry(16 * i + b, 16 * i + b + 1, NULL))
  }

  lemma {:induction false} Columns(k: nat, b: nat)
    requires k <= 64 && b < 16
    ensures Filled(Shifted(), UpTo(k))[b] == Column(b, k)
  {
    if k > 0 {
      Columns(k - 1, b);
      assert UpTo(k)[..k - 1] == UpTo(k - 1) && UpTo(k)[..k - 1 + 1] == UpTo(k);
      FilledNext(Shifted(), UpTo(k), k - 1);
      ColumnNext(b, k);
    }
  }

  lemma ColumnNext(b: nat, k: nat)
    requires k > 0 && b < 16
    ensures Column(b, k) == Column(b, k - 1) + (if (k - 1) % 16 == b then [Entry(k - 1, k, NULL)] else [])
  {
    var n := (k + 14 - b) / 16;
    assert (k + 15 - b) / 16 == if (k - 1) % 16 == b then n + 1 else n;
  }

  /** Every one of the sixteen bins holds four entries; the second and the fourth have to
      move. */
  lemma SixtyFour(t: Table, b: nat)
    requires t == After(Shifted(), UpTo(64)) && b < 16
    ensures |t| == 16 && t[b] == Column(b, 64) && |t[b]| == 4 && Size(t) == 64
    ensures forall j :: 0 <= j < 4 ==> t[b][j] == Entry(16 * j + b, 16 * j + b + 1, NULL) && (SplitBit(t[b][j].hash, 16) <==> j % 2 == 1)
  {
    NoGrowth(Shifted(), UpTo(64));
    Columns(64, b);
    FourInColumn(b);
  }

  lemma FourInColumn(b: nat)
    requires b < 16
    ensures var es := Column(b, 64); |es| == 4 && forall j :: 0 <= j < 4 ==>
      es[j] == Entry(16 * j + b, 16 * j + b + 1, NULL) && (SplitBit(es[j].hash, 16) <==> j % 2 == 1)
  {
    assert (64 + 15 - b) / 16 == 4;
    forall j: nat | j < 4 ensures SplitBit(16 * j + b, 16) <==> j % 2 == 1 { BitOfRow(b, j); }
  }

  lemma BitOfRow(b: nat, j: nat)
    requires b < 16 && j < 4
    ensures SplitBit(16 * j + b, 16) <==> j % 2 == 1
  {
    SixteenBins(16 * j + b);
    ModUnique(16 * j + b, 32, j / 2, 16 * (j % 2) + b);
  }

  lemma TwoMove(es: seq<Entry>)
    requires |es| == 4 && forall j :: 0 <= j < 4 ==> (SplitBit(es[j].hash, 16) <==> j % 2 == 1)
    ensures |Moved(es, 16)| == 2 && |Kept(es, 16)| == 2 && Kept(es[..1], 16) == [es[0]]
    ensures |Moved(es[..1], 16)| == 0 && |Moved(es[..3], 16)| == 1
  {
    assert es[..0] == [];
    SplitNext(es, 0, 16);
    SplitNext(es, 1, 16);
    SplitNext(es, 2, 16);
    SplitNext(es, 3, 16);
    assert es[..3 + 1] == es;
  }

  lemma NeedsOne(es: seq<Entry>, j: nat)
    requires |es| == 4 && j < 4 && forall j :: 0 <= j < 4 ==> (SplitBit(es[j].hash, 16) <==> j % 2 == 1)
    ensures NeedsNode(es, 16, j) <==> j == 1
  {
    TwoMove(es);
  }

  /** Splitting a bin needs one node and frees none. */
  lemma {:induction false} NothingFree(t: Table, i: nat)
    requires t == After(Shifted(), UpTo(64)) && i <= |t|
    ensures FreeAt(t, i) == 0
  {
    SixtyFour(t, 0);
    if i > 0 {
      NothingFree(t, i - 1);
      SixtyFour(t, i - 1);
      TwoMove(t[i - 1]);
    }
  }

  /** The growth of this table calls malloc once a bin, for its second entry. */
  lemma OneNodeABin(t: Table, i: nat, j: nat)
    requires t == After(Shifted(), UpTo(64)) && i < 16 && j < 4
    ensures |t| == 16 && |t[i]| == 4 && (MallocAt(t, i, j) <==> j == 1)
  {
    SixtyFour(t, i);
    NothingFree(t, i);
    NeedsOne(t[i], j);
  }

  /** Interrupted there, the keys with the new bit in the bins split before are out of reach. */
  lemma BinsBefore(t: Table, i: nat, k: Ptr)
    requires t == After(Shifted(), UpTo(64)) && i < 16 && 1 <= k <= 64
    ensures |t| == 16 && |t[i]| == 4
    ensures (exists e :: Stores(t, e) && k == e.key && !OutOfReach(t, i, 1, e)) <==> !((k - 1) % 32 >= 16 && (k - 1) % 16 < i)
  {
    SixtyFour(t, i);
    var e := Entry(k - 1, k, NULL);
    OneEntry(t, k);
    InBinsBefore(t, i, k);
    if !OutOfReach(t, i, 1, e) { assert Stores(t, e) && k == e.key; }
    forall f | Stores(t, f) && f.key == k ensures f == e { OnlyEntry(t, k, f); }
  }

  lemma OneEntry(t: Table, k: Ptr)
    requires t == After(Shifted(), UpTo(64)) && 1 <= k <= 64
    ensures var b, j := (k - 1) % 16, (k - 1) / 16; |t| == 16 && |t[b]| == 4 && t[b][j] == Entry(k - 1, k, NULL)
    ensures Stores(t, Entry(k - 1, k, NULL))
  {
    var b, j := (k - 1) % 16, (k - 1) / 16;
    SixtyFour(t, b);
    assert t[b][j] == Entry(k - 1, k, NULL);
    assert t[b][j] in t[b];
  }

  lemma OnlyEntry(t: Table, k: Ptr, e: Entry)
    requires t == After(Shifted(), UpTo(64)) && Stores(t, e) && e.key == k > 0
    ensures e == Entry(k - 1, k, NULL)
  {
    SixtyFour(t, 0);
    var b: nat :| b < |t| && e in t[b];
    SixtyFour(t, b);
  }

  lemma InBinsBefore(t: Table, i: nat, k: Ptr)
    requires t == After(Shifted(), UpTo(64)) && i < 16 && 1 <= k <= 64
    ensures |t| == 16 && |t[i]| == 4
    ensures OutOfReach(t, i, 1, Entry(k - 1, k, NULL)) <==> (k - 1) % 32 >= 16 && (k - 1) % 16 < i
  {
    SixteenBins(k - 1);
    AtTheSecond(t, i, Entry(k - 1, k, NULL));
    if (k - 1) % 16 == i && (k - 1) % 32 >= 16 { NotTheFirst(t, k); }
  }

  lemma NotTheFirst(t: Table, k: Ptr)
    requires t == After(Shifted(), UpTo(64)) && 1 <= k <= 64 && (k - 1) % 32 >= 16
    ensures var b := (k - 1) % 16; |t| == 16 && |t[b]| == 4 && Entry(k - 1, k, NULL) in t[b][1..]
  {
    OneEntry(t, k);
    BehindTheFirst(t[(k - 1) % 16], (k - 1) / 16);
  }

  lemma AtTheSecond(t: Table, i: nat, e: Entry)
    requires t == After(Shifted(), UpTo(64)) && i < 16
    ensures |t| == 16 && |t[i]| == 4
    ensures OutOfReach(t, i, 1, e) <==> SplitBit(e.hash, 16) && (BinOf(e.hash, 16) < i || (BinOf(e.hash, 16) == i && e !in t[i][1..]))
  {
    SixtyFour(t, i);
    TwoMove(t[i]);
  }

  lemma BehindTheFirst(es: seq<Entry>, j: nat)
    requires 0 < j < |es|
    ensures es[j] in es[1..]
  {
    assert es[1..][j - 1] == es[j];
  }

  lemma NextUnbound(t: Table)
    requires t == After(Shifted(), UpTo(64))
    ensures Lookup(Shifted(), t, 65) == None
  {
    forall e | Stores(t, e) ensures !Shifted().Same(65, e.key) {
      SixtyFour(t, 0);
      var b: nat :| b < |t| && e in t[b];
      SixtyFour(t, b);
    }
  }

  /** Keys 1 to 64 are created, and then one more, and the growth is interrupted. How many
      bins it had split then is up to malloc; a key is found by find_node afterwards unless
      it has the new bit and was in one of these bins. So key 17, for one, is lost unless the
      growth stops in the first bin. */
  method LoseKeys(k: Ptr) returns (d: HashIndex, granted: bool, o: Outcome, pos: Cursor, ghost i: nat)
    requires 1 <= k <= 64
    ensures fresh(d) && (d.refused == 0 ==> granted && o.Created?) && (!granted ==> d.refused > 0)
    ensures granted ==> !o.Found? && d.refused == if o.Created? then 0 else 1
    ensures granted && o.Interrupted? ==> i < 16 && (pos.node == NULL <==> (k - 1) % 32 >= 16 && (k - 1) % 16 < i)
  {
    PlainLawful(Shifted().hash);
    d, granted := CreateAll(Shifted(), UpTo(64));
    o, pos, i := Found, Cursor(NULL, 0), 0;
    if !granted { return; }
    ghost var t, lost := d.Contents(), d.Lost();
    SixtyFour(t, 0);
    NextUnbound(t);
    o, pos := d.Create(65, NULL);
    if o.Interrupted? {
      ghost var j: nat;
      i, j :| TornLoop(d.mem, d.bins, d.lists, [], t, i, j, lost);
      SixtyFour(t, i);
      OneNodeABin(t, i, j);
      BinsBefore(t, i, k);
      pos := FindTorn(d, k, t, i, j, lost);
    }
  }
}
