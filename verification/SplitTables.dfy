/** Doubling a hash table bin by bin.

    The hash index moves the entries with the new bit to the new bin in their order, the
    pointer hash turns them around; `turned` tells which of the two. */
module SplitTables {
  import opened Buckets
  import opened HashTable

  function Backwards(es: seq<Entry>): seq<Entry> {
    seq(|es|, i requires 0 <= i < |es| => es[|es| - 1 - i])
  }

  lemma BackwardsBag(es: seq<Entry>)
    ensures multiset(Backwards(es)) == multiset(es)
  {
    if es != [] {
      var init, last := es[..|es| - 1], es[|es| - 1];
      BackwardsBag(init);
      assert es == init + [last];
      assert Backwards(es) == [last] + Backwards(init);
    }
  }

  /** The new bin made from an old one. */
  function NewBin(t: Table, b: nat, turned: bool): seq<Entry>
    requires b < |t|
  {
    if turned then Backwards(Moved(t[b], |t|)) else Moved(t[b], |t|)
  }

  function HalfOf(t: Table, i: nat, b: nat, turned: bool): seq<Entry>
    requires b < 2 * |t|
  {
    if b < |t| then (if b < i then Kept(t[b], |t|) else t[b])
    else if b - |t| < i then NewBin(t, b - |t|, turned) else []
  }

  /** What a doubling has done to the first i bins. */
  function SplitUpTo(t: Table, i: nat, turned: bool): Table
    requires |t| > 0
  {
    seq(2 * |t|, b requires 0 <= b < 2 * |t| => HalfOf(t, i, b, turned))
  }

  lemma NothingSplit(t: Table, turned: bool)
    requires |t| > 0
    ensures SplitUpTo(t, 0, turned) == t + seq(|t|, _ => [])
  {
    var u, v := SplitUpTo(t, 0, turned), t + seq(|t|, _ => []);
    forall b | 0 <= b < |u| ensures u[b] == v[b] { assert u[b] == HalfOf(t, 0, b, turned); }
  }

  lemma HalfNext(t: Table, i: nat, b: nat, turned: bool)
    requires i < |t| && b < 2 * |t|
    ensures HalfOf(t, i + 1, b, turned)
      == if b == i then Kept(t[i], |t|) else if b == |t| + i then NewBin(t, i, turned) else HalfOf(t, i, b, turned)
  {
    if b < |t| {
      assert b < i + 1 <==> b < i || b == i;
    } else {
      assert b - |t| < i + 1 <==> b - |t| < i || b == |t| + i;
    }
  }

  lemma SplitOneMore(t: Table, i: nat, turned: bool)
    requires i < |t|
    ensures SplitUpTo(t, i + 1, turned) == SplitUpTo(t, i, turned)[i := Kept(t[i], |t|)][|t| + i := NewBin(t, i, turned)]
  {
    var s, es, fs := SplitUpTo(t, i, turned), Kept(t[i], |t|), NewBin(t, i, turned);
    var u, v := SplitUpTo(t, i + 1, turned), s[i := es][|t| + i := fs];
    forall b | 0 <= b < |u| ensures u[b] == v[b] {
      HalfNext(t, i, b, turned);
      assert s[b] == HalfOf(t, i, b, turned);
    }
  }

  /** The next bin of u split. */
  lemma RoundTable(u: Table, v: Table, t: Table, i: nat, turned: bool, es: seq<Entry>, fs: seq<Entry>)
    requires i < |t| && u == SplitUpTo(t, i, turned) && es == Kept(t[i], |t|) && fs == NewBin(t, i, turned)
    requires v == u[i := es][|t| + i := fs]
    ensures v == SplitUpTo(t, i + 1, turned)
  {
    SplitOneMore(t, i, turned);
  }

  /** The table after grow. */
  function GrownFrom(t: Table, turned: bool): Table {
    if |t| == 0 then seq(0x10, _ => []) else SplitUpTo(t, |t|, turned)
  }

  /** An insertion grows the table first when there are four entries a bin. */
  function MadeRoom(t: Table, turned: bool): Table {
    if Size(t) >= 4 * |t| then GrownFrom(t, turned) else t
  }

  lemma FullSplit(t: Table, turned: bool)
    requires |t| > 0
    ensures IsSplit(t, SplitUpTo(t, |t|, turned))
  {
    forall b | 0 <= b < |t| ensures SplitAt(t, SplitUpTo(t, |t|, turned), b) { FullSplitAt(t, b, turned); }
  }

  lemma FullSplitAt(t: Table, b: nat, turned: bool)
    requires b < |t|
    ensures SplitAt(t, SplitUpTo(t, |t|, turned), b)
  {
    BackwardsBag(Moved(t[b], |t|));
    var u := SplitUpTo(t, |t|, turned);
    assert u[b] == HalfOf(t, |t|, b, turned);
    assert u[|t| + b] == HalfOf(t, |t|, |t| + b, turned) == NewBin(t, b, turned);
  }
}
