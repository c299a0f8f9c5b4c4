/** Hash tables as values. */
module HashTable {
  /* A table is a sequence of bins, each a sequence of entries.  Both the unrolled hash
     index (src/main/hash_index.cpp) and the chained hash (src/main/pphash.cpp) are proved
     against the functions of this module. */

  import opened Basics
  import opened Bits
  import opened Buckets

  datatype Entry = Entry(hash: nat, key: Ptr, value: Ptr)

  type Table = seq<seq<Entry>>

  /** The hash and compare interfaces the caller supplies. `equal` tells whether
      compare() returns zero; it is only called with a non-NULL first argument. */
  datatype Spec = Spec(hash: Ptr -> nat, equal: (Ptr, Ptr) -> bool)
  {
    function HashOf(key: Ptr): nat {
      if key != NULL then hash(key) else 0
    }

    predicate Same(a: Ptr, b: Ptr) {
      if a == NULL || b == NULL then a == b else equal(a, b)
    }

    ghost predicate Reflexive(a: Ptr) {
      a != NULL ==> equal(a, a) && !equal(a, NULL)
    }

    ghost predicate Symmetric(a: Ptr, b: Ptr) {
      a != NULL && b != NULL && equal(a, b) ==> equal(b, a) && hash(a) == hash(b)
    }

    ghost predicate Transitive(a: Ptr, b: Ptr, c: Ptr) {
      a != NULL && b != NULL && c != NULL && equal(a, b) && equal(b, c) ==> equal(a, c)
    }

    /** What the interfaces promise: compare is an equivalence that separates NULL
        from objects, and equal keys hash equally. */
    ghost predicate Lawful() {
      && (forall a {:trigger Reflexive(a)} :: Reflexive(a))
      && (forall a, b {:trigger Symmetric(a, b)} :: Symmetric(a, b))
      && (forall a, b, c {:trigger Transitive(a, b, c)} :: Transitive(a, b, c))
    }

    /** The test the search loops make on an entry. */
    predicate Hits(key: Ptr, h: nat, e: Entry) {
      if key != NULL then e.hash == h && equal(key, e.key) else e.key == NULL
    }
  }

  /** Keys that are compared as numbers. */
  function Plain(hash: Ptr -> nat): Spec {
    Spec(hash, (a, b) => a == b)
  }

  lemma PlainLawful(hash: Ptr -> nat)
    ensures Plain(hash).Lawful()
  {
    var spec := Plain(hash);
    forall a ensures spec.Reflexive(a) { }
    forall a, b ensures spec.Symmetric(a, b) { }
    forall a, b, c ensures spec.Transitive(a, b, c) { }
  }

  /** The keys of entries, as the snapshots give them. */
  function Keys(es: seq<Entry>): seq<Ptr> {
    seq(|es|, i requires 0 <= i < |es| => es[i].key)
  }

  function Values(es: seq<Entry>): seq<Ptr> {
    seq(|es|, i requires 0 <= i < |es| => es[i].value)
  }

  /** The snapshot of the bins up to and with bin i. */
  lemma SnapshotNext(t: Table, i: nat)
    requires i < |t|
    ensures Keys(Flat(t[..i + 1])) == Keys(Flat(t[..i])) + Keys(t[i])
    ensures Values(Flat(t[..i + 1])) == Values(Flat(t[..i])) + Values(t[i])
  {
    FlatNext(t, i);
    SnapshotConcat(Flat(t[..i]), t[i]);
  }

  lemma SnapshotConcat(a: seq<Entry>, b: seq<Entry>)
    ensures Keys(a + b) == Keys(a) + Keys(b) && Values(a + b) == Values(a) + Values(b)
  {
  }

  /** The keys of the first k entries, and those of the last ones. */
  // --------------------------------------------------------------------------
  // Well-formed tables and what they mean
  // --------------------------------------------------------------------------

  // These predicates name their instances, so that a proof unfolds only those it asks for.

  ghost predicate PlacedIn(spec: Spec, c: nat, b: nat, e: Entry)
    requires c > 0
  {
    e.hash == spec.HashOf(e.key) && BinOf(e.hash, c) == b
  }

  ghost predicate Placed(spec: Spec, t: Table) {
    forall b: nat, e {:trigger PlacedIn(spec, |t|, b, e)} :: b < |t| && e in t[b] ==> PlacedIn(spec, |t|, b, e)
  }

  ghost predicate OneKey(spec: Spec, bag: multiset<Entry>, e: Entry, f: Entry) {
    (e == f ==> bag[e] == 1) && (e != f ==> !spec.Same(e.key, f.key))
  }

  /** No entry occurs twice, and different entries have different keys. */
  ghost predicate Distinct(spec: Spec, bag: multiset<Entry>) {
    forall e, f {:trigger OneKey(spec, bag, e, f)} :: e in bag && f in bag ==> OneKey(spec, bag, e, f)
  }

  ghost predicate DistinctBin(spec: Spec, t: Table, b: nat)
    requires b < |t|
  {
    Distinct(spec, multiset(t[b]))
  }

  /** Entries sit in the bin of their hash, and no key occurs twice. */
  ghost predicate WellFormed(spec: Spec, t: Table) {
    && (|t| == 0 || PowerOfTwo(|t|))
    && Placed(spec, t)
    && forall b: nat {:trigger DistinctBin(spec, t, b)} :: b < |t| ==> DistinctBin(spec, t, b)
  }

  lemma SubBagDistinct(spec: Spec, part: multiset<Entry>, bag: multiset<Entry>)
    requires Distinct(spec, bag) && part <= bag
    ensures Distinct(spec, part)
  {
    forall e, f | e in part && f in part ensures OneKey(spec, part, e, f) {
      assert OneKey(spec, bag, e, f);
    }
  }

  ghost predicate Stores(t: Table, e: Entry) {
    exists b :: 0 <= b < |t| && e in t[b]
  }

  /** The finite map a table stands for: the value stored under a key, anywhere. */
  ghost function Lookup(spec: Spec, t: Table, key: Ptr): Option<Ptr> {
    if exists e :: Stores(t, e) && spec.Same(key, e.key)
    then var e :| Stores(t, e) && spec.Same(key, e.key); Some(e.value)
    else None
  }

  lemma SameSymmetric(spec: Spec, a: Ptr, b: Ptr)
    requires spec.Lawful()
    ensures spec.Same(a, b) == spec.Same(b, a) && (spec.Same(a, b) ==> spec.HashOf(a) == spec.HashOf(b))
  {
    assert spec.Symmetric(a, b) && spec.Symmetric(b, a);
  }

  lemma SameTransitive(spec: Spec, a: Ptr, b: Ptr, c: Ptr)
    requires spec.Lawful() && spec.Same(a, b) && spec.Same(b, c)
    ensures spec.Same(a, c)
  {
    assert spec.Transitive(a, b, c);
  }

  /** Keys are unique in the whole table, not just in a bin. */
  lemma OneEntryPerKey(spec: Spec, t: Table, e: Entry, f: Entry)
    requires spec.Lawful() && WellFormed(spec, t)
    requires Stores(t, e) && Stores(t, f) && spec.Same(e.key, f.key)
    ensures e == f
  {
    var b: nat :| b < |t| && e in t[b];
    var c: nat :| c < |t| && f in t[c];
    assert PlacedIn(spec, |t|, b, e) && PlacedIn(spec, |t|, c, f);
    SameSymmetric(spec, e.key, f.key);
    assert DistinctBin(spec, t, b) && e in multiset(t[b]) && f in multiset(t[b]);
    assert OneKey(spec, multiset(t[b]), e, f);
  }

  /** A stored entry hits exactly if its key is the same. */
  lemma HitsIsSame(spec: Spec, key: Ptr, e: Entry)
    requires spec.Lawful() && e.hash == spec.HashOf(e.key)
    ensures spec.Hits(key, spec.HashOf(key), e) <==> spec.Same(key, e.key)
  {
    assert spec.Reflexive(key);
    SameSymmetric(spec, key, e.key);
  }

  lemma LookupIs(spec: Spec, t: Table, key: Ptr, e: Entry)
    requires spec.Lawful() && WellFormed(spec, t) && Stores(t, e) && spec.Same(key, e.key)
    ensures Lookup(spec, t, key) == Some(e.value)
  {
    var f :| Stores(t, f) && spec.Same(key, f.key) && Lookup(spec, t, key) == Some(f.value);
    SameSymmetric(spec, key, e.key);
    SameTransitive(spec, e.key, key, f.key);
    OneEntryPerKey(spec, t, e, f);
  }

  // --------------------------------------------------------------------------
  // Search
  // --------------------------------------------------------------------------

  /** Position of the first entry of a bin that the search loop accepts; the length
      when there is none. */
  function Seek(spec: Spec, es: seq<Entry>, key: Ptr): (i: nat)
    ensures i <= |es|
    ensures i < |es| ==> spec.Hits(key, spec.HashOf(key), es[i])
    ensures forall j :: 0 <= j < i ==> !spec.Hits(key, spec.HashOf(key), es[j])
  {
    if es == [] then 0
    else if spec.Hits(key, spec.HashOf(key), es[0]) then 0
    else 1 + Seek(spec, es[1..], key)
  }

  function KeyBin(spec: Spec, t: Table, key: Ptr): nat
    requires |t| > 0
  {
    BinOf(spec.HashOf(key), |t|)
  }

  lemma KeyBinRange(spec: Spec, t: Table, key: Ptr)
    requires PowerOfTwo(|t|)
    ensures KeyBin(spec, t, key) < |t|
  {
    BinAfterDoubling(spec.HashOf(key), |t|);
  }

  /** Searching only the bin of the hash finds the entry of the key exactly when the
      whole table has one. */
  lemma SeekIsLookup(spec: Spec, t: Table, key: Ptr)
    requires spec.Lawful() && WellFormed(spec, t) && |t| > 0
    ensures KeyBin(spec, t, key) < |t|
    ensures var es := t[KeyBin(spec, t, key)]; var i := Seek(spec, es, key);
      Lookup(spec, t, key) == if i < |es| then Some(es[i].value) else None
  {
    KeyBinRange(spec, t, key);
    var b := KeyBin(spec, t, key);
    forall e | Stores(t, e) && spec.Same(key, e.key)
      ensures e in t[b] && spec.Hits(key, spec.HashOf(key), e)
    {
      var c: nat :| c < |t| && e in t[c];
      assert PlacedIn(spec, |t|, c, e);
      HitsIsSame(spec, key, e);
      SameSymmetric(spec, key, e.key);
    }
    var i := Seek(spec, t[b], key);
    if i < |t[b]| {
      assert Stores(t, t[b][i]) && PlacedIn(spec, |t|, b, t[b][i]);
      HitsIsSame(spec, key, t[b][i]);
      LookupIs(spec, t, key, t[b][i]);
    }
  }

  // --------------------------------------------------------------------------
  // Doubling
  // --------------------------------------------------------------------------

  /** The entries of a bin that stay when c bins become 2c. */
  function Kept(es: seq<Entry>, c: nat): seq<Entry>
    requires c > 0
  {
    if es == [] then []
    else
      var k := Kept(es[..|es| - 1], c);
      if SplitBit(es[|es| - 1].hash, c) then k else k + [es[|es| - 1]]
  }

  /** The entries that go to the new bin, in the same order. */
  function Moved(es: seq<Entry>, c: nat): seq<Entry>
    requires c > 0
  {
    if es == [] then []
    else
      var m := Moved(es[..|es| - 1], c);
      if SplitBit(es[|es| - 1].hash, c) then m + [es[|es| - 1]] else m
  }

  lemma {:induction false} SplitCounts(es: seq<Entry>, c: nat)
    requires c > 0
    ensures |Kept(es, c)| + |Moved(es, c)| == |es|
    ensures multiset(Kept(es, c)) + multiset(Moved(es, c)) == multiset(es)
    ensures forall e :: e in Kept(es, c) <==> e in es && !SplitBit(e.hash, c)
    ensures forall e :: e in Moved(es, c) <==> e in es && SplitBit(e.hash, c)
  {
    if es != [] {
      var init, last := es[..|es| - 1], es[|es| - 1];
      SplitCounts(init, c);
      assert es == init + [last];
      if SplitBit(last.hash, c) {
        assert Moved(es, c) == Moved(init, c) + [last] && Kept(es, c) == Kept(init, c);
      } else {
        assert Kept(es, c) == Kept(init, c) + [last] && Moved(es, c) == Moved(init, c);
      }
    }
  }

  ghost predicate SplitAt(t: Table, u: Table, b: int)
    requires 0 <= b < |t| && |u| == 2 * |t|
  {
    u[b] == Kept(t[b], |t|) && multiset(u[|t| + b]) == multiset(Moved(t[b], |t|))
  }

  /** A doubled table: each old bin keeps one half, the bin cap places further gets
      the other half. */
  ghost predicate IsSplit(t: Table, u: Table) {
    |t| > 0 && |u| == 2 * |t| && forall b {:trigger SplitAt(t, u, b)} :: 0 <= b < |t| ==> SplitAt(t, u, b)
  }

  lemma SplitPlaced(spec: Spec, t: Table, u: Table)
    requires WellFormed(spec, t) && IsSplit(t, u)
    ensures Placed(spec, u)
  {
    forall b: nat, e | b < |u| && e in u[b] ensures PlacedIn(spec, |u|, b, e) {
      var o := if b < |t| then b else b - |t|;
      InSplit(t, u, o, e);
      assert PlacedIn(spec, |t|, o, e);
      BinAfterDoubling(e.hash, |t|);
    }
  }

  /** Which of the two new bins an entry of an old one is in. */
  lemma InSplit(t: Table, u: Table, b: nat, e: Entry)
    requires IsSplit(t, u) && b < |t|
    ensures e in u[b] <==> e in t[b] && !SplitBit(e.hash, |t|)
    ensures e in u[|t| + b] <==> e in t[b] && SplitBit(e.hash, |t|)
  {
    assert SplitAt(t, u, b);
    SplitCounts(t[b], |t|);
    var m := Moved(t[b], |t|);
    assert e in u[|t| + b] <==> e in multiset(u[|t| + b]);
    assert e in m <==> e in multiset(m);
  }

  /** Doubling keeps the number of entries. */
  lemma SplitSize(t: Table, u: Table)
    requires IsSplit(t, u)
    ensures Size(u) == Size(t)
  {
    forall b | 0 <= b < |t| ensures |t[b]| == |u[b]| + |u[|t| + b]| { SplitSizes(t, u, b); }
    SizeOfHalves(t, u);
  }

  lemma SplitSizes(t: Table, u: Table, b: nat)
    requires IsSplit(t, u) && b < |t|
    ensures |t[b]| == |u[b]| + |u[|t| + b]|
  {
    assert SplitAt(t, u, b);
    SplitCounts(t[b], |t|);
    assert |u[|t| + b]| == |multiset(u[|t| + b])| == |multiset(Moved(t[b], |t|))|;
  }

  lemma SplitDistinct(spec: Spec, t: Table, u: Table, b: nat)
    requires WellFormed(spec, t) && IsSplit(t, u) && b < |t|
    ensures DistinctBin(spec, u, b) && DistinctBin(spec, u, |t| + b)
  {
    assert SplitAt(t, u, b) && DistinctBin(spec, t, b);
    SplitCounts(t[b], |t|);
    SubBagDistinct(spec, multiset(u[b]), multiset(t[b]));
    SubBagDistinct(spec, multiset(u[|t| + b]), multiset(t[b]));
  }

  /** Doubling keeps a table well-formed. */
  lemma SplitWellFormed(spec: Spec, t: Table, u: Table)
    requires WellFormed(spec, t) && IsSplit(t, u)
    ensures WellFormed(spec, u)
  {
    SplitPlaced(spec, t, u);
    BinAfterDoubling(0, |t|);
    forall b: nat | b < |u| ensures DistinctBin(spec, u, b) {
      SplitDistinct(spec, t, u, if b < |t| then b else b - |t|);
    }
  }

  /** Doubling stores exactly the same entries, so it stands for the same map. */
  lemma SplitKeepsMap(spec: Spec, t: Table, u: Table)
    requires spec.Lawful() && WellFormed(spec, t) && IsSplit(t, u)
    ensures forall e :: Stores(u, e) <==> Stores(t, e)
    ensures forall key :: Lookup(spec, u, key) == Lookup(spec, t, key)
  {
    forall e ensures Stores(u, e) <==> Stores(t, e) {
      if Stores(t, e) {
        var b :| 0 <= b < |t| && e in t[b];
        InSplit(t, u, b, e);
        assert e in u[b] || e in u[|t| + b];
      }
      if Stores(u, e) {
        var b :| 0 <= b < |u| && e in u[b];
        InSplit(t, u, if b < |t| then b else b - |t|, e);
      }
    }
    SplitWellFormed(spec, t, u);
    SameEntriesSameMap(spec, t, u);
  }

  lemma SameEntriesSameMap(spec: Spec, t: Table, u: Table)
    requires spec.Lawful() && WellFormed(spec, t) && WellFormed(spec, u)
    requires forall e :: Stores(u, e) <==> Stores(t, e)
    ensures forall key :: Lookup(spec, u, key) == Lookup(spec, t, key)
  {
    forall key ensures Lookup(spec, u, key) == Lookup(spec, t, key) {
      if exists e :: Stores(t, e) && spec.Same(key, e.key) {
        var e :| Stores(t, e) && spec.Same(key, e.key);
        LookupIs(spec, t, key, e);
        LookupIs(spec, u, key, e);
      }
    }
  }

  // --------------------------------------------------------------------------
  // One entry more, one entry less, one value changed
  // --------------------------------------------------------------------------

  /** u is t with the entry e added to bin b, at any position. */
  ghost predicate IsInsert(t: Table, u: Table, b: nat, e: Entry) {
    && b < |t| && |u| == |t|
    && multiset(u[b]) == multiset(t[b]) + multiset{e}
    && forall i :: 0 <= i < |t| && i != b ==> u[i] == t[i]
  }

  lemma InsertWellFormed(spec: Spec, t: Table, u: Table, b: nat, e: Entry)
    requires spec.Lawful() && WellFormed(spec, t) && IsInsert(t, u, b, e)
    requires e.hash == spec.HashOf(e.key) && BinOf(e.hash, |t|) == b
    requires Lookup(spec, t, e.key) == None
    ensures WellFormed(spec, u)
  {
    var bag := multiset(u[b]);
    forall f, g | f in bag && g in bag ensures OneKey(spec, bag, f, g) {
      assert f != e ==> f in t[b] && Stores(t, f);
      assert g != e ==> g in t[b] && Stores(t, g);
      SameSymmetric(spec, f.key, g.key);
      assert DistinctBin(spec, t, b);
      assert e in t[b] ==> Stores(t, e) && spec.Reflexive(e.key);
      assert f != e && g != e ==> OneKey(spec, multiset(t[b]), f, g);
    }
    forall c: nat | c < |u| ensures DistinctBin(spec, u, c) { assert DistinctBin(spec, t, c); }
    forall c: nat, f | c < |u| && f in u[c] ensures PlacedIn(spec, |u|, c, f) {
      assert f in multiset(u[c]);
      assert c != b || f != e ==> f in t[c] && PlacedIn(spec, |t|, c, f);
    }
  }

  lemma InsertStores(t: Table, u: Table, b: nat, e: Entry, f: Entry)
    requires IsInsert(t, u, b, e)
    ensures Stores(u, f) <==> Stores(t, f) || f == e
  {
    assert f in u[b] <==> f in multiset(u[b]);
    assert f in t[b] <==> f in multiset(t[b]);
    if Stores(t, f) || f == e {
      var i :| 0 <= i < |t| && (f in t[i] || (i == b && f == e));
      assert f in u[i];
    }
    if Stores(u, f) {
      var i :| 0 <= i < |u| && f in u[i];
      assert i != b ==> f in t[i];
    }
  }

  /** Inserting an absent key adds exactly that binding to the map. */
  lemma InsertMap(spec: Spec, t: Table, u: Table, b: nat, e: Entry, key: Ptr)
    requires spec.Lawful() && WellFormed(spec, t) && IsInsert(t, u, b, e)
    requires e.hash == spec.HashOf(e.key) && BinOf(e.hash, |t|) == b
    requires Lookup(spec, t, e.key) == None
    ensures WellFormed(spec, u)
    ensures Lookup(spec, u, key) == if spec.Same(key, e.key) then Some(e.value) else Lookup(spec, t, key)
  {
    InsertWellFormed(spec, t, u, b, e);
    InsertStores(t, u, b, e, e);
    if spec.Same(key, e.key) {
      LookupIs(spec, u, key, e);
    } else {
      forall f: Entry | spec.Same(key, f.key) ensures Stores(u, f) <==> Stores(t, f) {
        InsertStores(t, u, b, e, f);
      }
      OtherKeys(spec, t, u, key);
    }
  }

  /** Tables that store the same entries with the given key agree on it. */
  lemma OtherKeys(spec: Spec, t: Table, u: Table, key: Ptr)
    requires spec.Lawful() && WellFormed(spec, t) && WellFormed(spec, u)
    requires forall f: Entry :: spec.Same(key, f.key) ==> (Stores(u, f) <==> Stores(t, f))
    ensures Lookup(spec, u, key) == Lookup(spec, t, key)
  {
    if exists f :: Stores(t, f) && spec.Same(key, f.key) {
      var f :| Stores(t, f) && spec.Same(key, f.key);
      LookupIs(spec, t, key, f);
      LookupIs(spec, u, key, f);
    }
  }

  /** u is t with one occurrence of e taken out of bin b, in any order of the rest. */
  ghost predicate IsRemove(t: Table, u: Table, b: nat, e: Entry) {
    && IsInsert(u, t, b, e)
  }

  /** Removing an entry removes exactly its binding from the map. */
  lemma RemoveMap(spec: Spec, t: Table, u: Table, b: nat, e: Entry, key: Ptr)
    requires spec.Lawful() && WellFormed(spec, t) && IsRemove(t, u, b, e)
    ensures WellFormed(spec, u)
    ensures Lookup(spec, u, key) == if spec.Same(key, e.key) then None else Lookup(spec, t, key)
  {
    RemoveWellFormed(spec, t, u, b, e);
    forall f ensures Stores(t, f) <==> Stores(u, f) || f == e { InsertStores(u, t, b, e, f); }
    if spec.Same(key, e.key) {
      forall f | Stores(u, f) ensures !spec.Same(key, f.key) {
        RemovedKeyGone(spec, t, u, b, e, f);
        SameSymmetric(spec, key, f.key);
        SameSymmetric(spec, key, e.key);
        if spec.Same(key, f.key) { SameTransitive(spec, e.key, key, f.key); }
      }
    } else {
      OtherKeys(spec, t, u, key);
    }
  }

  lemma RemoveWellFormed(spec: Spec, t: Table, u: Table, b: nat, e: Entry)
    requires spec.Lawful() && WellFormed(spec, t) && IsRemove(t, u, b, e)
    ensures WellFormed(spec, u)
  {
    forall c: nat | c < |u| ensures DistinctBin(spec, u, c) {
      assert DistinctBin(spec, t, c);
      SubBagDistinct(spec, multiset(u[c]), multiset(t[c]));
    }
    forall c: nat, f | c < |u| && f in u[c] ensures PlacedIn(spec, |u|, c, f) {
      assert f in multiset(u[c]) && f in multiset(t[c]);
      assert f in t[c] && PlacedIn(spec, |t|, c, f);
    }
  }

  lemma RemovedKeyGone(spec: Spec, t: Table, u: Table, b: nat, e: Entry, f: Entry)
    requires spec.Lawful() && WellFormed(spec, t) && IsRemove(t, u, b, e) && Stores(u, f)
    ensures !spec.Same(e.key, f.key)
  {
    RemovedGone(spec, t, u, b, e);
    InsertStores(u, t, b, e, f);
    InsertStores(u, t, b, e, e);
    assert f != e;
    if spec.Same(e.key, f.key) { OneEntryPerKey(spec, t, e, f); }
  }

  lemma RemovedGone(spec: Spec, t: Table, u: Table, b: nat, e: Entry)
    requires WellFormed(spec, t) && IsRemove(t, u, b, e)
    ensures !Stores(u, e)
  {
    assert e in multiset(t[b]) && e in t[b];
    assert PlacedIn(spec, |t|, b, e) && DistinctBin(spec, t, b) && OneKey(spec, multiset(t[b]), e, e);
    forall c: nat | c < |u| ensures e !in u[c] {
      assert e in t[c] ==> PlacedIn(spec, |t|, c, e);
      assert e !in multiset(u[b]);
    }
  }

  /** u is t with the value of entry i of bin b replaced by v. */
  function Updated(t: Table, b: nat, i: nat, v: Ptr): Table
    requires b < |t| && i < |t[b]|
  {
    t[b := t[b][i := t[b][i].(value := v)]]
  }

  /** The table with the value of the entry that a key is found at replaced. */
  ghost function WithValue(spec: Spec, t: Table, key: Ptr, v: Ptr): Table {
    if |t| > 0 && KeyBin(spec, t, key) < |t| && Seek(spec, t[KeyBin(spec, t, key)], key) < |t[KeyBin(spec, t, key)]|
    then Updated(t, KeyBin(spec, t, key), Seek(spec, t[KeyBin(spec, t, key)], key), v)
    else t
  }

  /** Changing the value of an entry changes the binding of its key and no other. */
  lemma UpdateMap(spec: Spec, t: Table, b: nat, i: nat, v: Ptr, key: Ptr)
    requires spec.Lawful() && WellFormed(spec, t) && b < |t| && i < |t[b]|
    ensures WellFormed(spec, Updated(t, b, i, v))
    ensures Lookup(spec, Updated(t, b, i, v), key)
         == if spec.Same(key, t[b][i].key) then Some(v) else Lookup(spec, t, key)
  {
    var e := t[b][i];
    var r := t[b := t[b][..i] + t[b][i + 1..]];
    TakeAndPut(t[b], i, e.(value := v));
    assert spec.Reflexive(e.key) && Stores(t, e);
    RemoveMap(spec, t, r, b, e, e.key);
    RemoveMap(spec, t, r, b, e, key);
    assert PlacedIn(spec, |t|, b, e);
    InsertMap(spec, r, Updated(t, b, i, v), b, e.(value := v), key);
  }

  lemma TakeAndPut(es: seq<Entry>, i: nat, e: Entry)
    requires i < |es|
    ensures multiset(es) == multiset(es[..i] + es[i + 1..]) + multiset{es[i]}
    ensures multiset(es[i := e]) == multiset(es[..i] + es[i + 1..]) + multiset{e}
  {
    assert es == es[..i] + [es[i]] + es[i + 1..];
    assert es[i := e] == es[..i] + [e] + es[i + 1..];
  }

  // --------------------------------------------------------------------------
  // What the operations of a container do to the map
  // --------------------------------------------------------------------------

  ghost predicate SameMap(spec: Spec, t: Table, u: Table) {
    forall k :: Lookup(spec, u, k) == Lookup(spec, t, k)
  }

  /** The key is bound to v, every other key keeps its binding. */
  ghost predicate Binds(spec: Spec, t: Table, u: Table, key: Ptr, v: Ptr) {
    forall k :: Lookup(spec, u, k) == if spec.Same(k, key) then Some(v) else Lookup(spec, t, k)
  }

  /** The key is not bound any more, every other key keeps its binding. */
  ghost predicate Unbinds(spec: Spec, t: Table, u: Table, key: Ptr) {
    forall k :: Lookup(spec, u, k) == if spec.Same(k, key) then None else Lookup(spec, t, k)
  }

  function Added(t: Table, b: nat, e: Entry): Table
    requires b < |t|
  {
    t[b := t[b] + [e]]
  }

  lemma AddedThenUpdated(t: Table, b: nat, e: Entry, v: Ptr)
    requires b < |t|
    ensures Updated(Added(t, b, e), b, |t[b]|, v) == Added(t, b, e.(value := v))
  {
    assert (t[b] + [e])[|t[b]| := e.(value := v)] == t[b] + [e.(value := v)];
  }

  /** Adding an entry behind those of its bin binds an absent key. */
  lemma AddedBinds(spec: Spec, t0: Table, t: Table, b: nat, e: Entry)
    requires spec.Lawful() && WellFormed(spec, t) && SameMap(spec, t0, t) && b < |t|
    requires e.hash == spec.HashOf(e.key) && BinOf(e.hash, |t|) == b && Lookup(spec, t0, e.key) == None
    ensures WellFormed(spec, Added(t, b, e)) && Binds(spec, t0, Added(t, b, e), e.key, e.value)
    ensures Size(Added(t, b, e)) == Size(t) + 1
  {
    forall k ensures Lookup(spec, Added(t, b, e), k) == if spec.Same(k, e.key) then Some(e.value) else Lookup(spec, t0, k) {
      InsertMap(spec, t, Added(t, b, e), b, e, k);
    }
    InsertMap(spec, t, Added(t, b, e), b, e, NULL);
    SizeOfUpdate(t, b, t[b] + [e]);
  }

  /** Storing a value under the entry a key is found at binds that key to it. */
  lemma UpdatedBinds(spec: Spec, t: Table, b: nat, i: nat, v: Ptr, key: Ptr)
    requires spec.Lawful() && WellFormed(spec, t) && b < |t| && i < |t[b]| && spec.Same(key, t[b][i].key)
    ensures WellFormed(spec, Updated(t, b, i, v)) && Binds(spec, t, Updated(t, b, i, v), key, v)
    ensures Size(Updated(t, b, i, v)) == Size(t)
  {
    forall k ensures Lookup(spec, Updated(t, b, i, v), k) == if spec.Same(k, key) then Some(v) else Lookup(spec, t, k) {
      UpdateMap(spec, t, b, i, v, k);
      SameAlike(spec, k, key, t[b][i].key);
    }
    UpdateMap(spec, t, b, i, v, NULL);
    SizeOfUpdate(t, b, t[b][i := t[b][i].(value := v)]);
  }

  /** Removing the entry a key is found at unbinds that key. */
  lemma RemovedUnbinds(spec: Spec, t: Table, u: Table, b: nat, e: Entry, key: Ptr)
    requires spec.Lawful() && WellFormed(spec, t) && IsRemove(t, u, b, e) && spec.Same(key, e.key)
    ensures WellFormed(spec, u) && Unbinds(spec, t, u, key) && Size(u) + 1 == Size(t)
  {
    forall k ensures Lookup(spec, u, k) == if spec.Same(k, key) then None else Lookup(spec, t, k) {
      RemoveMap(spec, t, u, b, e, k);
      SameAlike(spec, k, key, e.key);
    }
    RemoveMap(spec, t, u, b, e, NULL);
    SizeOfUpdate(t, b, u[b]);
    assert t[b := u[b]] == u;
    assert |multiset(t[b])| == |t[b]| && |multiset(u[b])| == |u[b]|;
  }

  lemma SameAlike(spec: Spec, k: Ptr, a: Ptr, b: Ptr)
    requires spec.Lawful() && spec.Same(a, b)
    ensures spec.Same(k, a) == spec.Same(k, b)
  {
    SameSymmetric(spec, a, b);
    if spec.Same(k, a) { SameTransitive(spec, k, a, b); }
    if spec.Same(k, b) { SameTransitive(spec, k, b, a); }
  }

  /** The last entry takes the place of a removed one. */
  function SwapRemoved(es: seq<Entry>, j: nat): seq<Entry>
    requires j < |es|
  {
    es[j := es[|es| - 1]][..|es| - 1]
  }

  lemma SwapRemoves(t: Table, b: nat, j: nat)
    requires b < |t| && j < |t[b]|
    ensures IsRemove(t, t[b := SwapRemoved(t[b], j)], b, t[b][j])
  {
    OneTaken(t[b], j);
  }

  lemma OneTaken(es: seq<Entry>, j: nat)
    requires j < |es|
    ensures multiset(es) == multiset(SwapRemoved(es, j)) + multiset{es[j]}
  {
    var n := |es| - 1;
    var moved := es[j := es[n]];
    assert moved == moved[..n] + [es[n]];
    assert multiset(moved) == multiset(es) - multiset{es[j]} + multiset{es[n]};
  }

  lemma RemovedFrom(spec: Spec, t: Table, b: nat, j: nat, key: Ptr)
    requires spec.Lawful() && WellFormed(spec, t) && b < |t| && j < |t[b]| && spec.Same(key, t[b][j].key)
    ensures var u := t[b := SwapRemoved(t[b], j)]; WellFormed(spec, u) && Unbinds(spec, t, u, key) && Size(u) + 1 == Size(t)
  {
    SwapRemoves(t, b, j);
    RemovedUnbinds(spec, t, t[b := SwapRemoved(t[b], j)], b, t[b][j], key);
  }

  /** Taking out the entry a key is found at, closing the gap. */
  lemma CutFrom(spec: Spec, t: Table, b: nat, j: nat, key: Ptr)
    requires spec.Lawful() && WellFormed(spec, t) && b < |t| && j < |t[b]| && spec.Same(key, t[b][j].key)
    ensures var u := t[b := t[b][..j] + t[b][j + 1..]]; WellFormed(spec, u) && Unbinds(spec, t, u, key) && Size(u) + 1 == Size(t)
  {
    TakeAndPut(t[b], j, t[b][j]);
    RemovedUnbinds(spec, t, t[b := t[b][..j] + t[b][j + 1..]], b, t[b][j], key);
  }

  /** Adding an entry in front of those of its bin binds an absent key. */
  lemma PushedBinds(spec: Spec, t0: Table, t: Table, b: nat, e: Entry)
    requires spec.Lawful() && WellFormed(spec, t) && SameMap(spec, t0, t) && b < |t|
    requires e.hash == spec.HashOf(e.key) && BinOf(e.hash, |t|) == b && Lookup(spec, t0, e.key) == None
    ensures var u := t[b := [e] + t[b]]; WellFormed(spec, u) && Binds(spec, t0, u, e.key, e.value) && Size(u) == Size(t) + 1
  {
    var u := t[b := [e] + t[b]];
    forall k ensures Lookup(spec, u, k) == if spec.Same(k, e.key) then Some(e.value) else Lookup(spec, t0, k) {
      InsertMap(spec, t, u, b, e, k);
    }
    InsertMap(spec, t, u, b, e, NULL);
    SizeOfUpdate(t, b, [e] + t[b]);
  }

  /** A binding of a key is a binding of every equal key. */
  lemma BindsAlike(spec: Spec, t: Table, u: Table, key: Ptr, copy: Ptr, v: Ptr)
    requires spec.Lawful() && spec.Same(key, copy)
    ensures Lookup(spec, t, key) == None ==> Lookup(spec, t, copy) == None
    ensures Binds(spec, t, u, copy, v) ==> Binds(spec, t, u, key, v)
  {
    forall k ensures spec.Same(k, key) == spec.Same(k, copy) { SameAlike(spec, k, key, copy); }
    forall e: Entry | spec.Same(copy, e.key) ensures spec.Same(key, e.key) {
      SameTransitive(spec, key, copy, e.key);
    }
  }

  /** Removing a key that was just created gives the old map back. */
  lemma CreatedThenRemoved(spec: Spec, t: Table, u: Table, w: Table, key: Ptr, v: Ptr)
    requires spec.Lawful() && Lookup(spec, t, key) == None && Binds(spec, t, u, key, v) && Unbinds(spec, u, w, key)
    ensures SameMap(spec, t, w)
  {
    forall k ensures Lookup(spec, w, k) == Lookup(spec, t, k) {
      if spec.Same(k, key) {
        SameSymmetric(spec, k, key);
        BindsAlike(spec, t, u, key, k, v);
      }
    }
  }

  /** A search that stops at an entry that hits, after none did, is Seek. */
  lemma SeekIs(spec: Spec, es: seq<Entry>, key: Ptr, j: nat)
    requires j <= |es| && forall i :: 0 <= i < j ==> !spec.Hits(key, spec.HashOf(key), es[i])
    requires j < |es| ==> spec.Hits(key, spec.HashOf(key), es[j])
    ensures Seek(spec, es, key) == j
  {
  }

  ghost predicate NoHit(spec: Spec, key: Ptr, es: seq<Entry>, k: nat) {
    k <= |es| && forall i :: 0 <= i < k ==> !spec.Hits(key, spec.HashOf(key), es[i])
  }

  /** Some slots hold the entries from `seen` on. */
  ghost predicate Holds(es: seq<Entry>, seen: nat, slots: seq<Entry>, count: nat) {
    count <= |slots| && seen + count <= |es| && forall i :: 0 <= i < count ==> es[seen + i] == slots[i]
  }

  lemma SearchOn(spec: Spec, key: Ptr, es: seq<Entry>, seen: nat, slots: seq<Entry>, count: nat, k: nat)
    requires NoHit(spec, key, es, seen) && Holds(es, seen, slots, count) && k <= count && NoHit(spec, key, slots, k)
    ensures NoHit(spec, key, es, seen + k)
    ensures k < count && spec.Hits(key, spec.HashOf(key), slots[k]) ==> Seek(spec, es, key) == seen + k
  {
    forall i | seen <= i < seen + k ensures !spec.Hits(key, spec.HashOf(key), es[i]) {
      assert es[seen + (i - seen)] == slots[i - seen];
    }
    if k < count && spec.Hits(key, spec.HashOf(key), slots[k]) {
      assert es[seen + k] == slots[k];
      SeekIs(spec, es, key, seen + k);
    }
  }

  lemma EmptyMap(spec: Spec, t: Table)
    requires forall b :: 0 <= b < |t| ==> t[b] == []
    requires |t| == 0 || PowerOfTwo(|t|)
    ensures WellFormed(spec, t) && Size(t) == 0 && forall k :: Lookup(spec, t, k) == None
  {
    AllEmpty(t);
  }
}
