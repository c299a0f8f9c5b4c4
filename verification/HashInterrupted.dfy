/** A hash index after an interrupted growth. */
module HashInterrupted {
  /* What it can still find after malloc failed in the middle of a growth
     (src/main/hash_index.cpp, the return at line 183): the capacity stays as it was, so
     the new bins are out of reach, but some entries have already moved there. */

  import opened Basics
  import opened Bits
  import opened HashIndex
  import opened HashNodes
  import opened HashTable
  import opened SplitTables

  /** Number of entries of the torn bin that were kept before the failure. */
  ghost function KeptSoFar(t: Table, i: nat, j: nat): nat
    requires i < |t| && j < |t[i]|
  {
    |Kept(t[i][..j], |t|)|
  }

  /** The entries that the interrupted growth put out of reach: those with the split bit in
      the bins split so far, and in the torn bin those that kept entries overwrote. */
  ghost predicate OutOfReach(t: Table, i: nat, j: nat, e: Entry)
    requires i < |t| && j < |t[i]|
  {
    SplitCounts(t[i][..j], |t|);
    var b := BinOf(e.hash, |t|);
    SplitBit(e.hash, |t|) && (b < i || (b == i && e !in t[i][KeptSoFar(t, i, j)..]))
  }

  lemma TornBinHolds(es: seq<Entry>, c: nat, j: nat, e: Entry)
    requires c > 0 && j <= |es|
    ensures |Kept(es[..j], c)| <= |es|
    ensures e in TornBin(es, c, j) <==> e in es && (!SplitBit(e.hash, c) || e in es[|Kept(es[..j], c)|..])
  {
    SplitCounts(es[..j], c);
    var k := |Kept(es[..j], c)|;
    assert es == es[..k] + es[k..] && es[..j] == es[..k] + es[k..j];
    assert forall f :: f in es[..k] ==> f in es[..j] && f in es;
    assert forall f :: f in es[..j] ==> f in es;
  }

  /** A bin within the old capacity holds exactly the entries that are not out of reach. */
  lemma TornHolds(spec: Spec, t: Table, i: nat, j: nat, b: nat, e: Entry)
    requires WellFormed(spec, t) && i < |t| && j < |t[i]| && b < |t|
    ensures e in TornTable(t, i, j)[b] <==> e in t[b] && !OutOfReach(t, i, j, e)
  {
    if e in t[b] { assert PlacedIn(spec, |t|, b, e); }
    if b == i {
      TornBinHolds(t[i], |t|, j, e);
    } else {
      SplitCounts(t[b], |t|);
      assert TornTable(t, i, j)[b] == HalfOf(t, i, b, false);
    }
  }

  /** Searching after an interrupted growth: what is found is right, and a key is found
      exactly if its entry is not out of reach. */
  lemma SearchAfterwards(spec: Spec, t: Table, i: nat, j: nat, key: Ptr)
    requires spec.Lawful() && WellFormed(spec, t) && i < |t| && j < |t[i]|
    ensures KeyBin(spec, t, key) < |t|
    ensures var es := TornTable(t, i, j)[KeyBin(spec, t, key)]; var s := Seek(spec, es, key);
      && (s < |es| ==> Lookup(spec, t, key) == Some(es[s].value))
      && (s < |es| <==> exists e :: Stores(t, e) && spec.Same(key, e.key) && !OutOfReach(t, i, j, e))
  {
    KeyBinRange(spec, t, key);
    var b := KeyBin(spec, t, key);
    var es := TornTable(t, i, j)[b];
    var s := Seek(spec, es, key);
    if s < |es| {
      TornHolds(spec, t, i, j, b, es[s]);
      assert Stores(t, es[s]) && PlacedIn(spec, |t|, b, es[s]);
      HitsIsSame(spec, key, es[s]);
      LookupIs(spec, t, key, es[s]);
    }
    forall e | Stores(t, e) && spec.Same(key, e.key) && !OutOfReach(t, i, j, e) ensures s < |es| {
      var c: nat :| c < |t| && e in t[c];
      assert PlacedIn(spec, |t|, c, e);
      SameSymmetric(spec, key, e.key);
      HitsIsSame(spec, key, e);
      TornHolds(spec, t, i, j, b, e);
    }
  }

  /** The state that a growth leaves when malloc failed at entry j of bin i. */
  ghost predicate LeftTorn(self: HashIndex, t: Table, i: nat, j: nat, lost: set<Ptr>)
    reads self
  {
    self.cap == |t| && TornLoop(self.mem, self.bins, self.lists, [], t, i, j, lost)
  }

  /** find_node after an interrupted growth: it finds a key exactly if its entry is not out
      of reach, and then the slot of an entry with the value bound to the key before. */
  method FindTorn(self: HashIndex, key: Ptr, ghost t: Table, ghost i: nat, ghost j: nat, ghost lost: set<Ptr>) returns (pos: Cursor)
    requires LeftTorn(self, t, i, j, lost) && self.spec.Lawful() && WellFormed(self.spec, t)
    ensures pos.node != NULL <==> exists e :: Stores(t, e) && self.spec.Same(key, e.key) && !OutOfReach(t, i, j, e)
    ensures pos.node != NULL ==> pos.node in self.mem && pos.index < |self.mem[pos.node].data|
    ensures pos.node != NULL ==> Lookup(self.spec, t, key) == Some(self.mem[pos.node].data[pos.index].value)
  {
    SearchAfterwards(self.spec, t, i, j, key);
    ghost var b, s;
    pos, b, s := self.ScanTable(key, self.spec.HashOf(key));
  }

  /** grow, and find_node when grow was interrupted, which happens at a call of malloc. */
  method GrowAndFind(self: HashIndex, key: Ptr) returns (r: GrowResult, pos: Cursor, ghost i: nat, ghost j: nat)
    requires self.Valid() && self.spec.Lawful()
    modifies self
    ensures r.Interrupted? ==> i < |old(self.Contents())| && j < |old(self.Contents())[i]| && MallocAt(old(self.Contents()), i, j)
    ensures r.Interrupted? && pos.node != NULL ==> pos.node in self.mem && pos.index < |self.mem[pos.node].data|
    ensures r.Interrupted? && pos.node != NULL ==>
      Lookup(self.spec, old(self.Contents()), key) == Some(self.mem[pos.node].data[pos.index].value)
    ensures r.Interrupted? ==> (pos.node != NULL <==> exists e ::
      Stores(old(self.Contents()), e) && self.spec.Same(key, e.key) && !OutOfReach(old(self.Contents()), i, j, e))
  {
    ghost var t, lost := self.Contents(), self.Lost();
    i, j := 0, 0;
    pos := Cursor(NULL, 0);
    r := self.Grow();
    if r.Interrupted? {
      i, j :| TornLoop(self.mem, self.bins, self.lists, [], t, i, j, lost);
      pos := FindTorn(self, key, t, i, j, lost);
    }
  }

  // Where malloc is called.

  ghost predicate Moves(t: Table, i: nat, j: nat) {
    i < |t| && j < |t[i]| && SplitBit(t[i][j].hash, |t|)
  }

  ghost predicate Calls(t: Table, i: nat, j: nat) {
    i < |t| && j < |t[i]| && MallocAt(t, i, j)
  }

  lemma {:induction false} NoneMoved(es: seq<Entry>, c: nat)
    requires c > 0 && forall j :: 0 <= j < |es| ==> !SplitBit(es[j].hash, c)
    ensures Moved(es, c) == [] && Kept(es, c) == es
  {
    if es != [] { NoneMoved(es[..|es| - 1], c); }
  }

  /** As long as nothing moves no node becomes free. */
  lemma {:induction false} NoneFreed(t: Table, i: nat)
    requires i <= |t| && forall b: nat, j: nat :: b < i ==> !Moves(t, b, j)
    ensures FreeAt(t, i) == 0
  {
    if i > 0 {
      NoneFreed(t, i - 1);
      var es := t[i - 1];
      forall j: nat | j < |es| ensures !SplitBit(es[j].hash, |t|) { assert !Moves(t, i - 1, j); }
      NoneMoved(es, |t|);
    }
  }

  /** At or before an entry that moves there is one that malloc is called for. */
  lemma {:induction false} CallsBefore(t: Table, i: nat, j: nat)
    requires Moves(t, i, j)
    ensures exists b, k :: Calls(t, b, k)
    decreases i, j
  {
    if k: nat :| k < j && Moves(t, i, k) {
      CallsBefore(t, i, k);
    } else if b: nat, k: nat :| b < i && Moves(t, b, k) {
      CallsBefore(t, b, k);
    } else {
      NoneFreed(t, i);
      var es := t[i][..j];
      forall k: nat | k < j ensures !SplitBit(es[k].hash, |t|) { assert !Moves(t, i, k); }
      NoneMoved(es, |t|);
      assert Calls(t, i, j);
    }
  }

  /** A growth calls malloc for a node, and so can be interrupted, exactly if an entry has
      to move. */
  lemma AtRisk(t: Table)
    ensures (exists i, j :: Calls(t, i, j)) <==> (exists i, j :: Moves(t, i, j))
  {
    if i: nat, j: nat :| Calls(t, i, j) { assert Moves(t, i, j); }
    if i: nat, j: nat :| Moves(t, i, j) { CallsBefore(t, i, j); }
  }

  /** Nothing is out of reach exactly if no entry had moved out of an earlier bin, and none
      of the first entries of the torn bin, as many as were kept, has the split bit. */
  lemma NothingOutOfReach(spec: Spec, t: Table, i: nat, j: nat)
    requires WellFormed(spec, t) && i < |t| && j < |t[i]|
    ensures KeptSoFar(t, i, j) <= |t[i]|
    ensures (forall e :: Stores(t, e) ==> !OutOfReach(t, i, j, e)) <==>
      && (forall b, e :: 0 <= b < i && e in t[b] ==> !SplitBit(e.hash, |t|))
      && (forall k :: 0 <= k < KeptSoFar(t, i, j) ==> !SplitBit(t[i][k].hash, |t|))
  {
    SplitCounts(t[i][..j], |t|);
    var n := KeptSoFar(t, i, j);
    var none := forall e :: Stores(t, e) ==> !OutOfReach(t, i, j, e);
    forall b: nat, e | b < |t| && e in t[b] ensures Stores(t, e) && BinOf(e.hash, |t|) == b {
      assert PlacedIn(spec, |t|, b, e);
    }
    forall k | 0 <= k < n ensures t[i][k] !in t[i][n..] { EntryOnce(spec, t, i, k, n); }
    if none {
      forall b, e | 0 <= b < i && e in t[b] ensures !SplitBit(e.hash, |t|) {
        assert !OutOfReach(t, i, j, e);
      }
      forall k | 0 <= k < n ensures !SplitBit(t[i][k].hash, |t|) {
        assert !OutOfReach(t, i, j, t[i][k]);
      }
    }
  }

  lemma EntryOnce(spec: Spec, t: Table, b: nat, k: nat, n: nat)
    requires WellFormed(spec, t) && b < |t| && k < n <= |t[b]|
    ensures t[b][k] !in t[b][n..]
  {
    var e := t[b][k];
    assert DistinctBin(spec, t, b) && e in multiset(t[b]);
    assert OneKey(spec, multiset(t[b]), e, e);
    assert t[b] == t[b][..n] + t[b][n..] && e in t[b][..n];
  }
}
