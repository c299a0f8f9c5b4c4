/** Bins of the pointer hash (src/main/pphash.cpp): lists of tuples linked through next.

    Everything here is about the memory as a value: what relinking a tuple from one bin to
    another, a tuple in front, and a tuple cut out do to the entries of the bins, and that
    the bins share no tuple and lose none. The class of module PpHash calls these lemmas. */
module PpTuples {
  import opened Basics
  import opened Bits
  import opened HashTable
  import opened LinkedMemory
  import opened SplitTables

  type Tuples = Memory<Entry>

  datatype Bin = Bin(size: nat, data: Ptr)

  function EntryOf(m: Tuples, p: Ptr): Entry {
    if p in m then m[p].data else Entry(0, NULL, NULL)
  }

  function EntriesOf(m: Tuples, ns: seq<Ptr>): seq<Entry> {
    seq(|ns|, i requires 0 <= i < |ns| => EntryOf(m, ns[i]))
  }

  ghost predicate IsBin(m: Tuples, bin: Bin, ns: seq<Ptr>) {
    Thread(m, ns, NULL) && bin.data == First(ns) && bin.size == |ns|
  }

  lemma EntriesConcat(m: Tuples, a: seq<Ptr>, b: seq<Ptr>)
    ensures EntriesOf(m, a + b) == EntriesOf(m, a) + EntriesOf(m, b)
  {
  }

  lemma EntriesKept(m: Tuples, m': Tuples, ns: seq<Ptr>)
    requires forall p :: p in ns ==> EntryOf(m', p) == EntryOf(m, p)
    ensures EntriesOf(m', ns) == EntriesOf(m, ns)
  {
    forall i | 0 <= i < |ns| ensures EntryOf(m', ns[i]) == EntryOf(m, ns[i]) { assert ns[i] in ns; }
  }

  // --------------------------------------------------------------------------
  // All bins
  // --------------------------------------------------------------------------

  ghost predicate BinAt(m: Tuples, bins: seq<Bin>, lists: seq<seq<Ptr>>, b: int)
    requires |bins| == |lists| && 0 <= b < |bins|
  {
    IsBin(m, bins[b], lists[b])
  }

  ghost predicate AllBins(m: Tuples, bins: seq<Bin>, lists: seq<seq<Ptr>>) {
    |bins| == |lists| && forall b {:trigger BinAt(m, bins, lists, b)} :: 0 <= b < |bins| ==> BinAt(m, bins, lists, b)
  }

  function TableOf(m: Tuples, lists: seq<seq<Ptr>>): Table {
    seq(|lists|, b requires 0 <= b < |lists| => EntriesOf(m, lists[b]))
  }

  ghost predicate OwnedIn(m: Tuples, lists: seq<seq<Ptr>>, p: Ptr) {
    p in m ==> Owned(lists, p)
  }

  /** The bins are sound, share no tuple, and no tuple is lost. */
  ghost predicate Sound(m: Tuples, bins: seq<Bin>, lists: seq<seq<Ptr>>) {
    && AllBins(m, bins, lists) && Apart(lists, [])
    && forall p {:trigger OwnedIn(m, lists, p)} :: OwnedIn(m, lists, p)
  }

  lemma BinLive(m: Tuples, bins: seq<Bin>, lists: seq<seq<Ptr>>)
    requires AllBins(m, bins, lists)
    ensures forall b :: 0 <= b < |lists| ==> forall p :: p in lists[b] ==> p in m
  {
    forall b | 0 <= b < |lists| ensures forall p :: p in lists[b] ==> p in m {
      assert BinAt(m, bins, lists, b);
      ThreadLive(m, lists[b], NULL);
    }
  }

  /** What a change of the tuples of some bins leaves of another one. */
  lemma OtherBin(m1: Tuples, m2: Tuples, bins: seq<Bin>, lists: seq<seq<Ptr>>, b: nat, c: nat)
    requires Sound(m1, bins, lists) && b < |bins| && c < |bins| && c != b && Keeps(m1, m2, Members(lists[b]))
    ensures IsBin(m2, bins[c], lists[c]) && EntriesOf(m2, lists[c]) == EntriesOf(m1, lists[c])
    ensures Disjoint(lists[c], lists[b]) && Disjoint(lists[b], lists[c])
  {
    BinLive(m1, bins, lists);
    assert ApartAt(lists, c, b) && ApartAt(lists, b, c) && BinAt(m1, bins, lists, c);
    KeepsThread(m1, m2, Members(lists[b]), lists[c], NULL);
    forall p | p in lists[c] ensures EntryOf(m2, p) == EntryOf(m1, p) { assert p in m1 && p in m2; }
    EntriesKept(m1, m2, lists[c]);
  }

  /** Bin b has become (x, ns), which holds its old tuples but for those gone, and new ones;
      bin y, which was empty, has become (z, ys). With y == b only the first counts. */
  lemma Rebinned(m1: Tuples, m2: Tuples, bins: seq<Bin>, lists: seq<seq<Ptr>>, b: nat, y: nat,
                 x: Bin, ns: seq<Ptr>, z: Bin, ys: seq<Ptr>)
    requires Sound(m1, bins, lists) && b < |bins| && y < |bins| && (y != b ==> lists[y] == [])
    requires y == b ==> x == z && ns == ys
    requires IsBin(m2, x, ns) && IsBin(m2, z, ys) && (y != b ==> Disjoint(ns, ys) && Disjoint(ys, ns))
    requires Keeps(m1, m2, Members(lists[b]))
    requires forall p :: p in ns || p in ys ==> p in lists[b] || p !in m1
    requires forall p :: p in m2 ==> p in m1 || p in ns || p in ys
    requires forall p :: p in lists[b] && p in m2 ==> p in ns || p in ys
    ensures Sound(m2, bins[b := x][y := z], lists[b := ns][y := ys])
    ensures TableOf(m2, lists[b := ns][y := ys]) == TableOf(m1, lists)[b := EntriesOf(m2, ns)][y := EntriesOf(m2, ys)]
  {
    var bins', lists' := bins[b := x][y := z], lists[b := ns][y := ys];
    BinLive(m1, bins, lists);
    forall c: nat | c < |bins| && c != b
      ensures IsBin(m2, bins[c], lists[c]) && EntriesOf(m2, lists[c]) == EntriesOf(m1, lists[c])
      ensures Disjoint(lists[c], lists[b]) && Disjoint(lists[b], lists[c])
    {
      OtherBin(m1, m2, bins, lists, b, c);
    }
    forall c | 0 <= c < |bins'| ensures BinAt(m2, bins', lists', c) { }
    forall c, d | 0 <= c < |lists'| && 0 <= d < |lists'| && c != d ensures ApartAt(lists', c, d) {
      if c != b && c != y && d != b && d != y { assert ApartAt(lists, c, d); }
    }
    forall c | 0 <= c < |lists'| ensures SpareAt(lists', [], c) { }
    forall p ensures OwnedIn(m2, lists', p) {
      assert lists'[y] == ys && (y != b ==> lists'[b] == ns);
      if p in m2 && p !in ns && p !in ys {
        assert OwnedIn(m1, lists, p);
        var c :| 0 <= c < |lists| && p in lists[c];
        assert p in lists'[c];
      }
    }
    var t, u := TableOf(m2, lists'), TableOf(m1, lists)[b := EntriesOf(m2, ns)][y := EntriesOf(m2, ys)];
    forall c | 0 <= c < |t| ensures t[c] == u[c] { }
  }

  /** Only one bin has changed. */
  lemma OneBin(m1: Tuples, m2: Tuples, bins: seq<Bin>, lists: seq<seq<Ptr>>, b: nat, x: Bin, ns: seq<Ptr>)
    requires Sound(m1, bins, lists) && b < |bins| && IsBin(m2, x, ns) && Keeps(m1, m2, Members(lists[b]))
    requires forall p :: p in ns ==> p in lists[b] || p !in m1
    requires forall p :: p in m2 ==> p in m1 || p in ns
    requires forall p :: p in lists[b] && p in m2 ==> p in ns
    ensures Sound(m2, bins[b := x], lists[b := ns])
    ensures TableOf(m2, lists[b := ns]) == TableOf(m1, lists)[b := EntriesOf(m2, ns)]
  {
    Rebinned(m1, m2, bins, lists, b, b, x, ns, x, ns);
    assert bins[b := x][b := x] == bins[b := x] && lists[b := ns][b := ns] == lists[b := ns];
    var t, es := TableOf(m1, lists), EntriesOf(m2, ns);
    assert t[b := es][b := es] == t[b := es];
  }

  /** Empty bins added behind the others. */
  lemma MoreBins(m: Tuples, bins: seq<Bin>, lists: seq<seq<Ptr>>, n: nat)
    requires Sound(m, bins, lists)
    ensures Sound(m, bins + seq(n, _ => Bin(0, NULL)), lists + seq(n, _ => []))
    ensures TableOf(m, lists + seq(n, _ => [])) == TableOf(m, lists) + seq(n, _ => [])
  {
    var bins', lists' := bins + seq(n, _ => Bin(0, NULL)), lists + seq(n, _ => []);
    forall b | 0 <= b < |bins'| ensures BinAt(m, bins', lists', b) {
      if b < |bins| { assert BinAt(m, bins, lists, b); }
    }
    forall b, c | 0 <= b < |lists'| && 0 <= c < |lists'| && b != c ensures ApartAt(lists', b, c) {
      if b < |lists| && c < |lists| { assert ApartAt(lists, b, c); }
    }
    forall b | 0 <= b < |lists'| ensures SpareAt(lists', [], b) { }
    forall p ensures OwnedIn(m, lists', p) {
      assert OwnedIn(m, lists, p);
      if p in m {
        var b :| 0 <= b < |lists| && p in lists[b];
        assert p in lists'[b];
      }
    }
    var t, u := TableOf(m, lists'), TableOf(m, lists) + seq(n, _ => []);
    forall c | 0 <= c < |t| ensures t[c] == u[c] { }
  }

  // --------------------------------------------------------------------------
  // Splitting a bin
  // --------------------------------------------------------------------------

  /** In the middle of a split: the tuples kept so far run on to those not seen yet, the
      moved ones form the new bin, the last moved one first. */
  ghost predicate Splitting(m0: Tuples, m: Tuples, ns: seq<Ptr>, ks: seq<Ptr>, ys: seq<Ptr>, rest: seq<Ptr>) {
    && Thread(m, ks, First(rest)) && Thread(m, rest, NULL) && Thread(m, ys, NULL)
    && Disjoint(ks, rest) && Disjoint(ys, rest) && Disjoint(ks, ys)
    && (forall p :: p in ns <==> p in ks || p in ys || p in rest)
    && m.Keys == m0.Keys && Keeps(m0, m, Members(ns)) && (forall p :: p in m0 ==> EntryOf(m, p) == EntryOf(m0, p))
  }

  lemma SplitMove(m0: Tuples, m: Tuples, ns: seq<Ptr>, ks: seq<Ptr>, ys: seq<Ptr>, rest: seq<Ptr>)
    requires Splitting(m0, m, ns, ks, ys, rest) && rest != []
    ensures rest[0] in m && rest[0] != NULL && m[rest[0]].next == First(rest[1..]) && (ks != [] ==> Last(ks) in m && Last(ks) != rest[0])
    ensures var m1 := if ks == [] then m else SetNext(m, Last(ks), m[rest[0]].next);
      rest[0] in m1 && Splitting(m0, SetNext(m1, rest[0], First(ys)), ns, ks, [rest[0]] + ys, rest[1..])
  {
    var p, more := rest[0], rest[1..];
    assert rest == [p] + more;
    ThreadEnds(m, rest, NULL);
    ThreadCut(m, [p], more, NULL);
    assert forall q :: q in rest <==> q == p || q in more;
    var m1 := m;
    if ks != [] {
      ThreadSetAfter(m, ks, p, First(more));
      m1 := SetNext(m, Last(ks), First(more));
      KeepsThread(m, m1, {Last(ks)}, more, NULL);
      KeepsThread(m, m1, {Last(ks)}, ys, NULL);
    }
    var m2 := SetNext(m1, p, First(ys));
    KeepsThread(m1, m2, {p}, more, NULL);
    KeepsThread(m1, m2, {p}, ys, NULL);
    KeepsThread(m1, m2, {p}, ks, First(more));
    ThreadOne(m2, p);
    ThreadJoin(m2, [p], ys, NULL);
    assert forall q :: q in [p] + ys <==> q == p || q in ys;
    assert p in ns && (ks != [] ==> Last(ks) in ns);
  }

  lemma SplitKeep(m0: Tuples, m: Tuples, ns: seq<Ptr>, ks: seq<Ptr>, ys: seq<Ptr>, rest: seq<Ptr>)
    requires Splitting(m0, m, ns, ks, ys, rest) && rest != []
    ensures rest[0] in m && rest[0] != NULL && m[rest[0]].next == First(rest[1..])
    ensures Splitting(m0, m, ns, ks + [rest[0]], ys, rest[1..])
  {
    var p, more := rest[0], rest[1..];
    assert rest == [p] + more;
    ThreadEnds(m, rest, NULL);
    ThreadCut(m, [p], more, NULL);
    ThreadOne(m, p);
    ThreadJoin(m, ks, [p], First(more));
    assert forall q :: q in rest <==> q == p || q in more;
    assert forall q :: q in ks + [p] <==> q in ks || q == p;
  }

  /** The bins x and y after j entries of the list ns were looked at. */
  ghost predicate SplitState(m0: Tuples, m: Tuples, ns: seq<Ptr>, c: nat, j: nat, x: Bin, y: Bin, ks: seq<Ptr>, ys: seq<Ptr>)
    requires c > 0
  {
    && j <= |ns| && Splitting(m0, m, ns, ks, ys, ns[j..])
    && x.data == First(ks + ns[j..]) && x.size == |ks| + |ns| - j && y.data == First(ys) && y.size == |ys|
    && EntriesOf(m0, ks) == Kept(EntriesOf(m0, ns)[..j], c)
    && EntriesOf(m0, ys) == Backwards(Moved(EntriesOf(m0, ns)[..j], c))
  }

  lemma SplitEntries(es: seq<Entry>, c: nat, j: nat)
    requires c > 0 && j < |es|
    ensures Kept(es[..j + 1], c) == Kept(es[..j], c) + (if SplitBit(es[j].hash, c) then [] else [es[j]])
    ensures Backwards(Moved(es[..j + 1], c)) == (if SplitBit(es[j].hash, c) then [es[j]] else []) + Backwards(Moved(es[..j], c))
  {
    assert es[..j + 1][..j] == es[..j];
  }

  lemma SplitStart(m: Tuples, x: Bin, ns: seq<Ptr>, c: nat)
    requires c > 0 && IsBin(m, x, ns)
    ensures SplitState(m, m, ns, c, 0, x, Bin(0, NULL), [], [])
  {
    assert ns[0..] == ns && [] + ns == ns;
  }

  lemma MoveStep(m0: Tuples, m: Tuples, ns: seq<Ptr>, c: nat, j: nat, x: Bin, y: Bin, ks: seq<Ptr>, ys: seq<Ptr>)
    requires c > 0 && SplitState(m0, m, ns, c, j, x, y, ks, ys) && j < |ns| && SplitBit(EntryOf(m0, ns[j]).hash, c)
    ensures ns[j] in m && (ks != [] ==> Last(ks) in m && Last(ks) != ns[j])
    ensures var next := m[ns[j]].next; var m1 := if ks == [] then m else SetNext(m, Last(ks), next);
      && ns[j] in m1
      && SplitState(m0, SetNext(m1, ns[j], y.data), ns, c, j + 1,
           Bin(x.size - 1, if ks == [] then next else x.data), Bin(y.size + 1, ns[j]), ks, [ns[j]] + ys)
  {
    var rest := ns[j..];
    SplitMove(m0, m, ns, ks, ys, rest);
    SplitEntries(EntriesOf(m0, ns), c, j);
    assert rest[1..] == ns[j + 1..];
    EntriesConcat(m0, [ns[j]], ys);
    assert EntriesOf(m0, [ns[j]]) == [EntryOf(m0, ns[j])];
  }

  lemma KeepStep(m0: Tuples, m: Tuples, ns: seq<Ptr>, c: nat, j: nat, x: Bin, y: Bin, ks: seq<Ptr>, ys: seq<Ptr>)
    requires c > 0 && SplitState(m0, m, ns, c, j, x, y, ks, ys) && j < |ns| && !SplitBit(EntryOf(m0, ns[j]).hash, c)
    ensures SplitState(m0, m, ns, c, j + 1, x, y, ks + [ns[j]], ys)
  {
    var rest := ns[j..];
    SplitKeep(m0, m, ns, ks, ys, rest);
    SplitEntries(EntriesOf(m0, ns), c, j);
    assert rest[1..] == ns[j + 1..] && ks + rest == (ks + [ns[j]]) + ns[j + 1..];
    EntriesConcat(m0, ks, [ns[j]]);
    assert EntriesOf(m0, [ns[j]]) == [EntryOf(m0, ns[j])];
  }

  lemma NextToSplit(m0: Tuples, m: Tuples, ns: seq<Ptr>, c: nat, j: nat, x: Bin, y: Bin, ks: seq<Ptr>, ys: seq<Ptr>)
    requires c > 0 && SplitState(m0, m, ns, c, j, x, y, ks, ys)
    ensures First(ns[j..]) == NULL <==> j == |ns|
    ensures Last(ks) == NULL <==> ks == []
    ensures j < |ns| ==> ns[j] in m && m[ns[j]].data == EntryOf(m0, ns[j]) && m[ns[j]].next == First(ns[j + 1..])
  {
    if j < |ns| {
      ThreadEnds(m, ns[j..], NULL);
      assert ns[j..][1..] == ns[j + 1..] && EntryOf(m, ns[j]) == EntryOf(m0, ns[j]);
    }
    if ks != [] { ThreadEnds(m, ks, First(ns[j..])); }
  }

  lemma SplitEnd(m0: Tuples, m: Tuples, ns: seq<Ptr>, c: nat, x: Bin, y: Bin, ks: seq<Ptr>, ys: seq<Ptr>)
    requires c > 0 && SplitState(m0, m, ns, c, |ns|, x, y, ks, ys)
    ensures IsBin(m, x, ks) && IsBin(m, y, ys) && Disjoint(ks, ys) && Disjoint(ys, ks)
    ensures EntriesOf(m, ks) == Kept(EntriesOf(m0, ns), c) && EntriesOf(m, ys) == Backwards(Moved(EntriesOf(m0, ns), c))
    ensures (forall p :: p in ns <==> p in ks || p in ys) && m.Keys == m0.Keys && Keeps(m0, m, Members(ns))
  {
    assert ks + [] == ks && ns[|ns|..] == [] && EntriesOf(m0, ns)[..|ns|] == EntriesOf(m0, ns);
    ThreadLive(m, ks, NULL);
    ThreadLive(m, ys, NULL);
    EntriesKept(m0, m, ks);
    EntriesKept(m0, m, ys);
  }

  // --------------------------------------------------------------------------
  // Doubling the table
  // --------------------------------------------------------------------------

  /** The state of a doubling after i bins. */
  ghost predicate SplitLoop(m: Tuples, bins: seq<Bin>, lists: seq<seq<Ptr>>, t: Table, i: nat) {
    && 0 < |t| && i <= |t| && |bins| == 2 * |t| && Sound(m, bins, lists) && TableOf(m, lists) == SplitUpTo(t, i, true)
    && EmptyFrom(lists, |t| + i)
  }

  ghost predicate EmptyAt(lists: seq<seq<Ptr>>, y: int)
    requires 0 <= y < |lists|
  {
    lists[y] == []
  }

  ghost predicate EmptyFrom(lists: seq<seq<Ptr>>, from: nat) {
    forall y {:trigger EmptyAt(lists, y)} :: from <= y < |lists| ==> EmptyAt(lists, y)
  }

  lemma StillEmpty(lists: seq<seq<Ptr>>, i: nat, from: nat, ns: seq<Ptr>, ys: seq<Ptr>)
    requires i < from < |lists| && EmptyFrom(lists, from)
    ensures lists[from] == [] && EmptyFrom(lists[i := ns][from := ys], from + 1)
  {
    assert EmptyAt(lists, from);
    var lists' := lists[i := ns][from := ys];
    forall y | from + 1 <= y < |lists'| ensures EmptyAt(lists', y) { assert EmptyAt(lists, y); }
  }

  lemma SplitRound(m1: Tuples, m2: Tuples, bins: seq<Bin>, lists: seq<seq<Ptr>>, t: Table, i: nat,
                   x: Bin, z: Bin, ns: seq<Ptr>, ys: seq<Ptr>)
    requires SplitLoop(m1, bins, lists, t, i) && i < |t|
    requires IsBin(m2, x, ns) && IsBin(m2, z, ys) && Disjoint(ns, ys) && Disjoint(ys, ns)
    requires EntriesOf(m2, ns) == Kept(t[i], |t|) && EntriesOf(m2, ys) == NewBin(t, i, true)
    requires (forall p :: p in lists[i] <==> p in ns || p in ys) && m2.Keys == m1.Keys && Keeps(m1, m2, Members(lists[i]))
    ensures SplitLoop(m2, bins[i := x][|t| + i := z], lists[i := ns][|t| + i := ys], t, i + 1)
  {
    var y := |t| + i;
    var lists' := lists[i := ns][y := ys];
    StillEmpty(lists, i, y, ns, ys);
    Rebinned(m1, m2, bins, lists, i, y, x, ns, z, ys);
    RoundTable(TableOf(m1, lists), TableOf(m2, lists'), t, i, true, EntriesOf(m2, ns), EntriesOf(m2, ys));
    assert Sound(m2, bins[i := x][y := z], lists');
  }

  lemma SplitBinIs(m: Tuples, bins: seq<Bin>, lists: seq<seq<Ptr>>, t: Table, i: nat)
    requires SplitLoop(m, bins, lists, t, i) && i < |t|
    ensures IsBin(m, bins[i], lists[i]) && EntriesOf(m, lists[i]) == t[i]
  {
    assert BinAt(m, bins, lists, i);
    assert TableOf(m, lists)[i] == HalfOf(t, i, i, true);
  }

  // --------------------------------------------------------------------------
  // One tuple in, one tuple out
  // --------------------------------------------------------------------------

  /** A new tuple in front. */
  lemma PushFront(m: Tuples, m': Tuples, ns: seq<Ptr>, p: Ptr)
    requires Thread(m, ns, NULL) && p !in m && p != NULL && Keeps(m, m', {}) && p in m' && m'[p].next == First(ns)
    ensures Thread(m', [p] + ns, NULL) && EntriesOf(m', [p] + ns) == [m'[p].data] + EntriesOf(m, ns)
  {
    ThreadLive(m, ns, NULL);
    KeepsThread(m, m', {}, ns, NULL);
    ThreadOne(m', p);
    ThreadJoin(m', [p], ns, NULL);
    EntriesConcat(m', [p], ns);
    EntriesKept(m, m', ns);
    assert EntriesOf(m', [p]) == [m'[p].data];
  }

  /** The list without its j-th tuple. */
  lemma CutOut(m: Tuples, ns: seq<Ptr>, j: nat)
    requires Thread(m, ns, NULL) && j < |ns|
    ensures ns[j] in m && ns[j] != NULL && m[ns[j]].next == (if j + 1 < |ns| then ns[j + 1] else NULL)
    ensures j > 0 ==> ns[j - 1] in m
    ensures var rest := ns[..j] + ns[j + 1..];
      var m' := (if j > 0 then SetNext(m, ns[j - 1], m[ns[j]].next) else m) - {ns[j]};
      && Thread(m', rest, NULL) && EntriesOf(m', rest) == EntriesOf(m, ns)[..j] + EntriesOf(m, ns)[j + 1..]
      && (forall p :: p in rest <==> p in ns && p != ns[j])
      && First(rest) == (if j > 0 then ns[0] else m[ns[0]].next)
  {
    var a, p, b := ns[..j], ns[j], ns[j + 1..];
    assert ns == a + ([p] + b);
    assert NextAt(m, ns, NULL, j) && (j > 0 ==> NextAt(m, ns, NULL, j - 1));
    CutThread(m, a, p, b);
    var m1 := if j > 0 then SetNext(m, ns[j - 1], m[p].next) else m;
    ThreadLive(m1 - {p}, a + b, NULL);
    CutOutEntries(m, m1 - {p}, ns, j);
  }

  lemma CutThread(m: Tuples, a: seq<Ptr>, p: Ptr, b: seq<Ptr>)
    requires Thread(m, a + ([p] + b), NULL)
    ensures p in m && m[p].next == First(b) && (a != [] ==> Last(a) in m)
    ensures Thread((if a != [] then SetNext(m, Last(a), First(b)) else m) - {p}, a + b, NULL)
    ensures forall q :: q in a + b <==> q in a + ([p] + b) && q != p
  {
    ThreadCut(m, a, [p] + b, NULL);
    ThreadCut(m, [p], b, NULL);
    ThreadEnds(m, [p], First(b));
    assert p in [p] + b && forall q :: q in b ==> q in [p] + b;
    var m1 := m;
    if a != [] {
      ThreadEnds(m, a, p);
      ThreadSetAfter(m, a, p, First(b));
      m1 := SetNext(m, Last(a), First(b));
      KeepsThread(m, m1, {Last(a)}, b, NULL);
    }
    var m2 := m1 - {p};
    KeepsThread(m1, m2, {p}, a, First(b));
    KeepsThread(m1, m2, {p}, b, NULL);
    ThreadJoin(m2, a, b, NULL);
  }

  lemma CutOutEntries(m: Tuples, m': Tuples, ns: seq<Ptr>, j: nat)
    requires j < |ns| && forall p :: p in ns[..j] + ns[j + 1..] ==> EntryOf(m', p) == EntryOf(m, p)
    ensures EntriesOf(m', ns[..j] + ns[j + 1..]) == EntriesOf(m, ns)[..j] + EntriesOf(m, ns)[j + 1..]
  {
    EntriesKept(m, m', ns[..j] + ns[j + 1..]);
  }

  /** The pointer to the j-th tuple is the next of `prev`, or the head of the bin. */
  ghost predicate IsLink(ns: seq<Ptr>, prev: Ptr, j: nat)
    requires j <= |ns|
  {
    if j > 0 then prev == ns[j - 1] && prev in ns && prev != NULL else prev == NULL
  }

  /** The place of a tuple: the j-th of bin b. */
  ghost predicate Stands(m: Tuples, lists: seq<seq<Ptr>>, p: Ptr, b: nat, j: nat) {
    b < |lists| && j < |lists[b]| && p == lists[b][j] && p in m && p != NULL
  }

  lemma StandsAt(m: Tuples, bins: seq<Bin>, lists: seq<seq<Ptr>>, b: nat, j: nat)
    requires AllBins(m, bins, lists) && b < |lists| && j < |lists[b]|
    ensures Stands(m, lists, lists[b][j], b, j) && TableOf(m, lists)[b][j] == m[lists[b][j]].data
  {
    assert BinAt(m, bins, lists, b);
    assert NextAt(m, lists[b], NULL, j);
  }

  /** Writing the value of one tuple. */
  lemma ValueWritten(m: Tuples, bins: seq<Bin>, lists: seq<seq<Ptr>>, p: Ptr, b: nat, j: nat, v: Ptr)
    requires Sound(m, bins, lists) && Stands(m, lists, p, b, j)
    ensures var m' := SetData(m, p, m[p].data.(value := v));
      Sound(m', bins, lists) && TableOf(m', lists) == Updated(TableOf(m, lists), b, j, v)
  {
    var m', ns := SetData(m, p, m[p].data.(value := v)), lists[b];
    assert BinAt(m, bins, lists, b) && p in ns;
    forall i | 0 <= i < |ns| ensures NextAt(m', ns, NULL, i) { assert NextAt(m, ns, NULL, i); }
    BinLive(m, bins, lists);
    OneBin(m, m', bins, lists, b, bins[b], ns);
    assert bins[b := bins[b]] == bins && lists[b := ns] == lists;
    var es, fs := EntriesOf(m, ns), EntriesOf(m', ns);
    forall i | 0 <= i < |ns| ensures fs[i] == if i == j then es[j].(value := v) else es[i] {
      if i != j { assert Differ(ns, i, j); }
    }
    assert fs == es[j := es[j].(value := v)];
  }

  /** Where the search for a key ends, and what that means. */
  lemma Located(spec: Spec, m: Tuples, bins: seq<Bin>, lists: seq<seq<Ptr>>, key: Ptr)
    requires spec.Lawful() && AllBins(m, bins, lists) && WellFormed(spec, TableOf(m, lists)) && |lists| > 0
    ensures KeyBin(spec, TableOf(m, lists), key) < |lists|
    ensures var t := TableOf(m, lists); var b := KeyBin(spec, t, key); var j := Seek(spec, t[b], key);
      if j < |lists[b]|
      then Stands(m, lists, lists[b][j], b, j) && t[b][j] == m[lists[b][j]].data && spec.Same(key, t[b][j].key)
        && Stores(t, t[b][j]) && Lookup(spec, t, key) == Some(t[b][j].value)
      else Lookup(spec, t, key) == None
  {
    var t := TableOf(m, lists);
    SeekIsLookup(spec, t, key);
    var b := KeyBin(spec, t, key);
    var j := Seek(spec, t[b], key);
    if j < |lists[b]| {
      StandsAt(m, bins, lists, b, j);
      assert t[b][j] in t[b] && PlacedIn(spec, |t|, b, t[b][j]);
      HitsIsSame(spec, key, t[b][j]);
    }
  }
}
