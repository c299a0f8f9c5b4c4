/** Calls of the hash index that undo each other. */
module HashRoundTrips {
  /* create and remove of src/main/hash_index.cpp. */

  import opened Basics
  import opened Bits
  import opened HashIndex
  import opened HashInterrupted
  import opened HashTable
  import opened SplitTables

  /** The key that was created last is found at the end of its bin, so its removal ends. */
  lemma NewestIsLast(spec: Spec, t: Table, e: Entry)
    requires spec.Lawful() && WellFormed(spec, Inserted(t, e)) && e.hash == spec.HashOf(e.key)
    requires PowerOfTwo(|MadeRoom(t, false)|)
    ensures var w := Inserted(t, e); |w| > 0 && !HangsAt(w, KeyBin(spec, w, e.key), RankIn(spec, w, e.key))
  {
    var u, w := MadeRoom(t, false), Inserted(t, e);
    BinAfterDoubling(e.hash, |u|);
    var b := BinOf(e.hash, |u|);
    var n := |u[b]|;
    assert w[b] == u[b] + [e] && w[b][n] == e;
    forall i | 0 <= i < n ensures !spec.Hits(e.key, e.hash, w[b][i]) { OlderMisses(spec, w, b, i, n, e); }
    assert e in w[b] && PlacedIn(spec, |w|, b, e);
    HitsIsSame(spec, e.key, e);
    assert spec.Reflexive(e.key);
    SeekIs(spec, w[b], e.key, n);
  }

  lemma OlderMisses(spec: Spec, t: Table, b: nat, i: nat, n: nat, e: Entry)
    requires spec.Lawful() && WellFormed(spec, t) && b < |t| && i < n < |t[b]| && t[b][n] == e && e.hash == spec.HashOf(e.key)
    ensures !spec.Hits(e.key, e.hash, t[b][i])
  {
    var f := t[b][i];
    assert f in t[b] && e in t[b] && PlacedIn(spec, |t|, b, f);
    HitsIsSame(spec, e.key, f);
    if spec.Same(e.key, f.key) {
      OneEntryPerKey(spec, t, e, f);
      EntryOnce(spec, t, b, i, i + 1);
    }
  }

  /** create, and remove of the same key: if the key could be created, the removal ends, gives
      the value back, and the map is the old one. */
  method CreateThenRemove(d: HashIndex, key: Ptr, value: Ptr) returns (o: Outcome, r: Removal, ov: Ptr)
    requires d.Valid() && d.spec.Lawful()
    modifies d
    ensures o.Created? ==> r.Removed? && ov == value
    ensures o.Created? ==> d.Valid() && d.size == old(d.size) && SameMap(d.spec, old(d.Contents()), d.Contents())
  {
    ghost var t: Table := d.Contents();
    var pos;
    o, pos := d.Create(key, value);
    r, ov := Absent, NULL;
    if !o.Created? { return; }
    ghost var u: Table := d.Contents();
    NewestIsLast(d.spec, t, Entry(d.spec.HashOf(key), key, value));
    assert d.spec.Reflexive(key);
    r, ov := d.Remove(key);
    CreatedThenRemoved(d.spec, t, u, d.Contents(), key, value);
  }
}
