/** The two chunk lists of the deque (src/main/ddeque.cpp), used and unused, and the
    surgery on them, as functions on the memory.

    A list that an operation holds between the two is a third one. Every lemma shows what
    one cut or join of lists leaves of the three: links, chunks and items. The class of
    module Deque calls these lemmas at its assignments. */
module DequeLists {
  import opened Basics
  import opened DequeChunks
  import opened LinkedMemory

  function DataOf(m: Chunks, p: Ptr): Chunk {
    if p in m then m[p].data else Chunk(0, 0, [])
  }

  function Data(m: Chunks, ns: seq<Ptr>): seq<Chunk> {
    seq(|ns|, i requires 0 <= i < |ns| => DataOf(m, ns[i]))
  }

  /** The chunks of the memory are those of the used list, of the unused list, and the ones
      an operation holds in its hands. */
  ghost predicate Listed(m: Chunks, used: seq<Ptr>, spare: seq<Ptr>, held: seq<Ptr>) {
    && Segment(m, used, NULL, NULL) && Segment(m, spare, NULL, NULL)
    && (forall p {:trigger OwnedOnce(m, used, spare, held, p)} :: OwnedOnce(m, used, spare, held, p))
  }

  /** The same, and unused chunks have empty windows. */
  ghost predicate Held(m: Chunks, used: seq<Ptr>, spare: seq<Ptr>, held: seq<Ptr>, size: nat) {
    Listed(m, used, spare, held) && AllIdle(Data(m, spare), size)
  }

  /** A live chunk has exactly one owner. */
  ghost predicate OwnedOnce(m: Chunks, used: seq<Ptr>, spare: seq<Ptr>, held: seq<Ptr>, p: Ptr) {
    && (p in m <==> p in used || p in spare || p in held)
    && (p in used ==> p !in spare && p !in held)
    && (p in spare ==> p !in held)
  }

  lemma HeldApart(m: Chunks, used: seq<Ptr>, spare: seq<Ptr>, held: seq<Ptr>)
    requires Listed(m, used, spare, held)
    ensures Disjoint(used, spare) && Disjoint(used, held) && Disjoint(spare, held)
    ensures m.Keys == Members(used) + Members(spare) + Members(held)
  {
    forall p ensures (p in m.Keys <==> p in used || p in spare || p in held) && (p in used ==> p !in spare && p !in held)
      && (p in spare ==> p !in held)
    {
      assert OwnedOnce(m, used, spare, held, p);
    }
  }

  /** The data of some chunks is the same in two memories. */
  ghost predicate SameData(m: Chunks, m': Chunks, ns: seq<Ptr>) {
    forall p :: p in ns ==> DataOf(m', p) == DataOf(m, p)
  }

  lemma DataKept(m: Chunks, m': Chunks, ns: seq<Ptr>)
    requires SameData(m, m', ns)
    ensures Data(m', ns) == Data(m, ns)
  {
    forall i | 0 <= i < |ns| ensures DataOf(m', ns[i]) == DataOf(m, ns[i]) { assert ns[i] in ns; }
  }

  lemma DataConcat(m: Chunks, a: seq<Ptr>, b: seq<Ptr>)
    ensures Data(m, a + b) == Data(m, a) + Data(m, b)
  {
  }

  /** Changing links only. */
  ghost predicate Relinks(m: Chunks, m': Chunks) {
    m'.Keys == m.Keys && forall p :: p in m ==> m'[p].data == m[p].data
  }

  lemma RelinksKeepData(m: Chunks, m': Chunks, ns: seq<Ptr>)
    requires Relinks(m, m')
    ensures Data(m', ns) == Data(m, ns)
  {
    DataKept(m, m', ns);
  }

  /** The assembly of what the surgery lemmas below show piece by piece. */
  lemma ListedAgain(m: Chunks, m': Chunks, used: seq<Ptr>, spare: seq<Ptr>, held: seq<Ptr>)
    requires Relinks(m, m')
    requires Segment(m', used, NULL, NULL) && Segment(m', spare, NULL, NULL)
    requires Disjoint(used, spare) && Disjoint(used, held) && Disjoint(spare, held)
    requires m.Keys == Members(used) + Members(spare) + Members(held)
    ensures Listed(m', used, spare, held) && Data(m', spare) == Data(m, spare)
  {
    RelinksKeepData(m, m', spare);
    forall p ensures OwnedOnce(m', used, spare, held, p) { assert p in m <==> p in m.Keys; }
  }

  /** Writing the data of a used chunk. */
  lemma WriteUsed(m: Chunks, used: seq<Ptr>, spare: seq<Ptr>, held: seq<Ptr>, i: nat, d: Chunk)
    requires Listed(m, used, spare, held) && i < |used|
    ensures used[i] in m
    ensures Listed(SetData(m, used[i], d), used, spare, held) && Data(SetData(m, used[i], d), spare) == Data(m, spare)
    ensures Data(SetData(m, used[i], d), used) == Data(m, used)[i := d]
  {
    HeldApart(m, used, spare, held);
    var m' := SetData(m, used[i], d);
    assert LinkAt(m, used, NULL, NULL, i);
    assert used[i] in used;
    SetDataKeeps(m, used[i], d, used, NULL, NULL);
    SetDataKeeps(m, used[i], d, spare, NULL, NULL);
    DataKept(m, m', spare);
    forall k | 0 <= k < |used| && k != i ensures used[k] != used[i] { assert Differ(used, k, i); }
  }

  /** Writing the data of a chunk in hand. */
  lemma WriteHeld(m: Chunks, used: seq<Ptr>, spare: seq<Ptr>, p: Ptr, d: Chunk)
    requires Listed(m, used, spare, [p]) && Segment(m, [p], NULL, NULL)
    ensures p in m && p != NULL
    ensures Listed(SetData(m, p, d), used, spare, [p]) && Segment(SetData(m, p, d), [p], NULL, NULL)
    ensures Data(SetData(m, p, d), used) == Data(m, used) && DataOf(SetData(m, p, d), p) == d
    ensures Data(SetData(m, p, d), spare) == Data(m, spare)
  {
    HeldApart(m, used, spare, [p]);
    SegmentEnds(m, [p], NULL, NULL);
    assert p == [p][0] && p !in used && p !in spare;
    var m' := SetData(m, p, d);
    SetDataKeeps(m, p, d, used, NULL, NULL);
    SetDataKeeps(m, p, d, spare, NULL, NULL);
    SetDataKeeps(m, p, d, [p], NULL, NULL);
    DataKept(m, m', used);
    DataKept(m, m', spare);
  }

  /** Where the links of the used list lead. */
  lemma Neighbours(m: Chunks, ns: seq<Ptr>, i: nat)
    requires Segment(m, ns, NULL, NULL) && i < |ns|
    ensures ns[i] != NULL && ns[i] in m && Data(m, ns)[i] == m[ns[i]].data
    ensures m[ns[i]].next == if i + 1 < |ns| then ns[i + 1] else NULL
    ensures m[ns[i]].prev == if i > 0 then ns[i - 1] else NULL
  {
    assert LinkAt(m, ns, NULL, NULL, i);
  }

  // --------------------------------------------------------------------------
  // Into the used list
  // --------------------------------------------------------------------------

  function AttachedBack(m: Chunks, used: seq<Ptr>, l: seq<Ptr>): Chunks
    requires l != [] && l[0] in m && (used != [] ==> Last(used) in m)
  {
    SetPrev(if used == [] then m else SetNext(m, Last(used), l[0]), l[0], Last(used))
  }

  lemma AttachBackLinks(m: Chunks, used: seq<Ptr>, spare: seq<Ptr>, l: seq<Ptr>, before: Ptr)
    requires Segment(m, used, NULL, NULL) && Segment(m, spare, NULL, NULL) && Segment(m, l, before, NULL) && l != []
    requires Disjoint(used, spare) && Disjoint(used, l) && Disjoint(spare, l)
    ensures l[0] in m && (used != [] ==> Last(used) in m)
    ensures var m' := AttachedBack(m, used, l);
      Segment(m', used + l, NULL, NULL) && Segment(m', spare, NULL, NULL) && Relinks(m, m')
  {
    var m1 := m;
    if used != [] {
      SetAfter(m, used, NULL, NULL, l[0]);
      m1 := SetNext(m, Last(used), l[0]);
      assert Last(used) in used;
      KeepsSegment(m, m1, {Last(used)}, l, before, NULL);
      KeepsSegment(m, m1, {Last(used)}, spare, NULL, NULL);
    }
    SetBefore(m1, l, before, NULL, Last(used));
    var m2 := SetPrev(m1, l[0], Last(used));
    KeepsSegment(m1, m2, {l[0]}, spare, NULL, NULL);
    KeepsSegment(m1, m2, {l[0]}, used, NULL, if used == [] then NULL else l[0]);
    SegmentJoin(m2, used, l, NULL, NULL);
  }

  /** A list of chunks goes behind the last used one. */
  lemma AttachBack(m: Chunks, used: seq<Ptr>, spare: seq<Ptr>, l: seq<Ptr>, before: Ptr)
    requires Listed(m, used, spare, l) && Segment(m, l, before, NULL) && l != []
    ensures l[0] in m && (used != [] ==> Last(used) in m)
    ensures Listed(AttachedBack(m, used, l), used + l, spare, []) && Relinks(m, AttachedBack(m, used, l))
    ensures Data(AttachedBack(m, used, l), spare) == Data(m, spare)
  {
    HeldApart(m, used, spare, l);
    AttachBackLinks(m, used, spare, l, before);
    assert forall p :: p in used + l <==> p in used || p in l;
    ListedAgain(m, AttachedBack(m, used, l), used + l, spare, []);
  }

  function AttachedFront(m: Chunks, used: seq<Ptr>, l: seq<Ptr>): Chunks
    requires l != [] && l[0] in m && Last(l) in m && (used != [] ==> used[0] in m)
  {
    SetPrev(if used == [] then m else SetPrev(SetNext(m, Last(l), used[0]), used[0], Last(l)), l[0], NULL)
  }

  lemma AttachFrontLinks(m: Chunks, used: seq<Ptr>, spare: seq<Ptr>, l: seq<Ptr>, before: Ptr)
    requires Segment(m, used, NULL, NULL) && Segment(m, spare, NULL, NULL) && Segment(m, l, before, NULL) && l != []
    requires Disjoint(used, spare) && Disjoint(used, l) && Disjoint(spare, l)
    ensures l[0] in m && Last(l) in m && (used != [] ==> used[0] in m)
    ensures var m' := AttachedFront(m, used, l);
      Segment(m', l + used, NULL, NULL) && Segment(m', spare, NULL, NULL) && Relinks(m, m')
  {
    SegmentEnds(m, l, before, NULL);
    var m2 := m;
    var after := if used == [] then NULL else used[0];
    var front := if used == [] then NULL else Last(l);
    if used != [] {
      SetAfter(m, l, before, NULL, used[0]);
      var m1 := SetNext(m, Last(l), used[0]);
      KeepsSegment(m, m1, {Last(l)}, used, NULL, NULL);
      KeepsSegment(m, m1, {Last(l)}, spare, NULL, NULL);
      SetBefore(m1, used, NULL, NULL, Last(l));
      m2 := SetPrev(m1, used[0], Last(l));
      assert used[0] in used;
      KeepsSegment(m1, m2, {used[0]}, l, before, used[0]);
      KeepsSegment(m1, m2, {used[0]}, spare, NULL, NULL);
    }
    SetBefore(m2, l, before, after, NULL);
    var m3 := SetPrev(m2, l[0], NULL);
    KeepsSegment(m2, m3, {l[0]}, spare, NULL, NULL);
    KeepsSegment(m2, m3, {l[0]}, used, front, NULL);
    assert forall p :: p in l ==> p !in used;
    SegmentJoin(m3, l, used, NULL, NULL);
  }

  /** A list of chunks goes in front of the first used one. */
  lemma AttachFront(m: Chunks, used: seq<Ptr>, spare: seq<Ptr>, l: seq<Ptr>, before: Ptr)
    requires Listed(m, used, spare, l) && Segment(m, l, before, NULL) && l != []
    ensures l[0] in m && Last(l) in m && (used != [] ==> used[0] in m)
    ensures Listed(AttachedFront(m, used, l), l + used, spare, []) && Relinks(m, AttachedFront(m, used, l))
    ensures Data(AttachedFront(m, used, l), spare) == Data(m, spare)
  {
    HeldApart(m, used, spare, l);
    AttachFrontLinks(m, used, spare, l, before);
    assert forall p :: p in l + used <==> p in used || p in l;
    ListedAgain(m, AttachedFront(m, used, l), l + used, spare, []);
  }

  // --------------------------------------------------------------------------
  // Out of the used list
  // --------------------------------------------------------------------------

  function DetachedBack(m: Chunks, used: seq<Ptr>): Chunks
    requires used != [] && (|used| > 1 ==> used[|used| - 2] in m)
  {
    if |used| > 1 then SetNext(m, used[|used| - 2], NULL) else m
  }

  lemma DetachBack(m: Chunks, used: seq<Ptr>, spare: seq<Ptr>, size: nat)
    requires Held(m, used, spare, [], size) && used != []
    ensures var k := |used| - 1; used[k] in m && m[used[k]].prev == Last(used[..k]) && (k > 0 ==> used[k - 1] in m)
    ensures Last(used) != NULL && (Last(used[..|used| - 1]) == NULL <==> |used| == 1)
    ensures var m' := DetachedBack(m, used);
      && Held(m', used[..|used| - 1], spare, [Last(used)], size)
      && Data(m', used[..|used| - 1]) == Init(Data(m, used)) && DataOf(m', Last(used)) == LastOf(Data(m, used))
  {
    HeldApart(m, used, spare, []);
    var init, p := used[..|used| - 1], Last(used);
    assert used == init + [p];
    SegmentCut(m, init, [p], NULL, NULL);
    SegmentEnds(m, used, NULL, NULL);
    var m' := DetachedBack(m, used);
    if init != [] {
      SetAfter(m, init, NULL, p, NULL);
      KeepsSegment(m, m', {Last(init)}, spare, NULL, NULL);
    }
    if init != [] { SegmentEnds(m, init, NULL, p); }
    RelinksKeepData(m, m', init);
    assert Data(m, init) == Init(Data(m, used));
    assert forall q :: q in used <==> q in init || q == p;
    ListedAgain(m, m', init, spare, [p]);
  }

  function DetachedFront(m: Chunks, used: seq<Ptr>): Chunks
    requires used != [] && (|used| > 1 ==> used[1] in m)
  {
    if |used| > 1 then SetPrev(m, used[1], NULL) else m
  }

  lemma DetachFront(m: Chunks, used: seq<Ptr>, spare: seq<Ptr>, size: nat)
    requires Held(m, used, spare, [], size) && used != []
    ensures used[0] in m && m[used[0]].next == First(used[1..]) && (|used| > 1 ==> used[1] in m)
    ensures used[0] != NULL && (First(used[1..]) == NULL <==> |used| == 1)
    ensures var m' := DetachedFront(m, used);
      && Held(m', used[1..], spare, [used[0]], size)
      && Data(m', used[1..]) == Data(m, used)[1..] && DataOf(m', used[0]) == Data(m, used)[0]
  {
    HeldApart(m, used, spare, []);
    var p, rest := used[0], used[1..];
    assert used == [p] + rest;
    SegmentCut(m, [p], rest, NULL, NULL);
    SegmentEnds(m, used, NULL, NULL);
    var m' := DetachedFront(m, used);
    if rest != [] {
      SetBefore(m, rest, p, NULL, NULL);
      KeepsSegment(m, m', {rest[0]}, spare, NULL, NULL);
    }
    if rest != [] { SegmentEnds(m, rest, p, NULL); }
    RelinksKeepData(m, m', rest);
    assert Data(m, rest) == Data(m, used)[1..];
    assert forall q :: q in used <==> q in rest || q == p;
    ListedAgain(m, m', rest, spare, [p]);
  }

  // --------------------------------------------------------------------------
  // The unused list
  // --------------------------------------------------------------------------

  /** The first k unused chunks cut off; the first of them points back to `before`. */
  function TakenSpare(m: Chunks, spare: seq<Ptr>, k: nat, before: Ptr): Chunks
    requires 0 < k <= |spare| && spare[0] in m && spare[k - 1] in m && (k < |spare| ==> spare[k] in m)
  {
    var m1 := SetNext(m, spare[k - 1], NULL);
    SetPrev(if k < |spare| then SetPrev(m1, spare[k], NULL) else m1, spare[0], before)
  }

  lemma TakeSpareLinks(m: Chunks, used: seq<Ptr>, l: seq<Ptr>, rest: seq<Ptr>, before: Ptr)
    requires Segment(m, used, NULL, NULL) && Segment(m, l + rest, NULL, NULL) && l != [] && Disjoint(used, l + rest)
    ensures l[0] in m && Last(l) in m && (rest != [] ==> rest[0] in m) && Disjoint(l, rest)
    ensures var m' := TakenSpare(m, l + rest, |l|, before);
      && Segment(m', used, NULL, NULL) && Segment(m', rest, NULL, NULL) && Segment(m', l, before, NULL)
      && Relinks(m, m')
  {
    SegmentCut(m, l, rest, NULL, NULL);
    assert forall p :: p in used ==> p !in l + rest;
    assert forall p :: p in l || p in rest ==> p in l + rest;
    SetAfter(m, l, NULL, FirstOr(rest, NULL), NULL);
    var m1 := SetNext(m, Last(l), NULL);
    KeepsSegment(m, m1, {Last(l)}, used, NULL, NULL);
    KeepsSegment(m, m1, {Last(l)}, rest, Last(l), NULL);
    var m2 := m1;
    if rest != [] {
      SetBefore(m1, rest, Last(l), NULL, NULL);
      m2 := SetPrev(m1, rest[0], NULL);
      KeepsSegment(m1, m2, {rest[0]}, used, NULL, NULL);
      KeepsSegment(m1, m2, {rest[0]}, l, NULL, NULL);
    }
    SetBefore(m2, l, NULL, NULL, before);
    var m3 := SetPrev(m2, l[0], before);
    KeepsSegment(m2, m3, {l[0]}, used, NULL, NULL);
    KeepsSegment(m2, m3, {l[0]}, rest, NULL, NULL);
    assert (l + rest)[|l| - 1] == Last(l) && (l + rest)[0] == l[0];
  }

  lemma TakeSpare(m: Chunks, used: seq<Ptr>, spare: seq<Ptr>, k: nat, size: nat, before: Ptr)
    requires Held(m, used, spare, [], size) && 0 < k <= |spare|
    ensures spare[0] in m && spare[k - 1] in m && (k < |spare| ==> spare[k] in m)
    ensures var m' := TakenSpare(m, spare, k, before);
      Held(m', used, spare[k..], spare[..k], size) && Segment(m', spare[..k], before, NULL) && Relinks(m, m')
    ensures AllIdle(Data(m, spare[..k]), size)
  {
    HeldApart(m, used, spare, []);
    var l, rest := spare[..k], spare[k..];
    assert spare == l + rest;
    TakeSpareLinks(m, used, l, rest, before);
    assert forall p :: p in spare <==> p in l || p in rest;
    assert Data(m, spare) == Data(m, l) + Data(m, rest) by { DataConcat(m, l, rest); }
    forall i | 0 <= i < |l| ensures Idle(Data(m, l)[i], size) { assert Data(m, spare)[i] == Data(m, l)[i]; }
    forall i | 0 <= i < |rest| ensures Idle(Data(m, rest)[i], size) { assert Data(m, spare)[k + i] == Data(m, rest)[i]; }
    ListedAgain(m, TakenSpare(m, spare, k, before), used, rest, l);
  }

  /** The first unused chunk, taken off. */
  function TakenOne(m: Chunks, spare: seq<Ptr>): Chunks
    requires spare != [] && spare[0] in m && (|spare| > 1 ==> spare[1] in m)
  {
    var m1 := if |spare| > 1 then SetPrev(m, spare[1], NULL) else m;
    SetPrev(SetNext(m1, spare[0], NULL), spare[0], NULL)
  }

  lemma TakeOne(m: Chunks, used: seq<Ptr>, spare: seq<Ptr>)
    requires Listed(m, used, spare, []) && spare != []
    ensures spare[0] != NULL && spare[0] in m && m[spare[0]].next == First(spare[1..])
    ensures |spare| > 1 ==> spare[1] in m && spare[1] != NULL
    ensures var m' := TakenOne(m, spare);
      && Listed(m', used, spare[1..], [spare[0]]) && Segment(m', [spare[0]], NULL, NULL) && Data(m', used) == Data(m, used)
      && DataOf(m', spare[0]) == Data(m, spare)[0] && Data(m', spare[1..]) == Data(m, spare)[1..]
  {
    var l, rest := spare[..1], spare[1..];
    assert spare == l + rest && l == [spare[0]];
    HeldApart(m, used, spare, []);
    TakeSpareLinks(m, used, l, rest, NULL);
    assert forall p :: p in spare <==> p in l || p in rest;
    Neighbours(m, spare, 0);
    if |spare| > 1 { Neighbours(m, spare, 1); }
    assert |spare| > 1 ==> Differ(spare, 0, 1);
    var m' := TakenSpare(m, spare, 1, NULL);
    assert TakenOne(m, spare) == m';
    ListedAgain(m, m', used, rest, l);
    RelinksKeepData(m, m', used);
    RelinksKeepData(m, m', l);
    DataConcat(m, l, rest);
  }

  /** A chunk in hand returns to the front of the unused list with an empty window. */
  function Released(m: Chunks, spare: seq<Ptr>, p: Ptr): Chunks
    requires p in m && (spare != [] ==> spare[0] in m)
  {
    var m1 := m[p := Node(First(spare), NULL, m[p].data.(head := 0, tail := 0))];
    if spare != [] && spare[0] in m1 then SetPrev(m1, spare[0], p) else m1
  }

  lemma Release(m: Chunks, used: seq<Ptr>, spare: seq<Ptr>, p: Ptr, size: nat)
    requires Held(m, used, spare, [p], size) && p != NULL && |DataOf(m, p).items| == size
    ensures p in m && (spare != [] ==> spare[0] in m && spare[0] != NULL && spare[0] != p)
    ensures Held(Released(m, spare, p), used, [p] + spare, [], size)
    ensures SameData(m, Released(m, spare, p), used) && Data(Released(m, spare, p), used) == Data(m, used)
  {
    HeldApart(m, used, spare, [p]);
    assert p in [p] && p in m.Keys;
    assert p !in used && p !in spare;
    var m1 := m[p := Node(First(spare), NULL, m[p].data.(head := 0, tail := 0))];
    KeepsSegment(m, m1, {p}, used, NULL, NULL);
    KeepsSegment(m, m1, {p}, spare, NULL, NULL);
    SegmentOne(m1, p);
    if spare != [] { SegmentEnds(m, spare, NULL, NULL); }
    var m' := Released(m, spare, p);
    if spare != [] {
      SetBefore(m1, spare, NULL, NULL, p);
      KeepsSegment(m1, m', {spare[0]}, used, NULL, NULL);
      KeepsSegment(m1, m', {spare[0]}, [p], NULL, First(spare));
    }
    SegmentJoin(m', [p], spare, NULL, NULL);
    DataKept(m, m', used);
    var all := [p] + spare;
    assert forall q :: q in all <==> q == p || q in spare;
    forall i | 0 <= i < |all| ensures Idle(Data(m', all)[i], size) {
      if i > 0 { assert Idle(Data(m, spare)[i - 1], size) && all[i] == spare[i - 1] && spare[i - 1] in spare; }
    }
  }

  /** Fresh chunks go in front of the unused list. */
  function Stocked(m: Chunks, spare: seq<Ptr>, l: seq<Ptr>): Chunks
    requires l != [] && l[0] in m && Last(l) in m && (spare != [] ==> spare[0] in m)
  {
    var m1 := if spare != [] then SetPrev(m, spare[0], Last(l)) else m;
    SetPrev(SetNext(m1, Last(l), First(spare)), l[0], NULL)
  }

  lemma StockLinks(m: Chunks, used: seq<Ptr>, spare: seq<Ptr>, l: seq<Ptr>, before: Ptr)
    requires Segment(m, used, NULL, NULL) && Segment(m, spare, NULL, NULL) && Segment(m, l, before, NULL) && l != []
    requires Disjoint(used, spare) && Disjoint(used, l) && Disjoint(spare, l)
    ensures l[0] in m && Last(l) in m && (spare != [] ==> spare[0] in m)
    ensures var m' := Stocked(m, spare, l);
      Segment(m', l + spare, NULL, NULL) && Segment(m', used, NULL, NULL) && Relinks(m, m')
  {
    SegmentEnds(m, l, before, NULL);
    var m1 := m;
    var back := if spare == [] then NULL else Last(l);
    if spare != [] {
      SetBefore(m, spare, NULL, NULL, Last(l));
      m1 := SetPrev(m, spare[0], Last(l));
      KeepsSegment(m, m1, {spare[0]}, used, NULL, NULL);
      assert spare[0] in spare;
      KeepsSegment(m, m1, {spare[0]}, l, before, NULL);
    }
    SetAfter(m1, l, before, NULL, First(spare));
    var m2 := SetNext(m1, Last(l), First(spare));
    KeepsSegment(m1, m2, {Last(l)}, used, NULL, NULL);
    KeepsSegment(m1, m2, {Last(l)}, spare, back, NULL);
    SetBefore(m2, l, before, First(spare), NULL);
    var m3 := SetPrev(m2, l[0], NULL);
    KeepsSegment(m2, m3, {l[0]}, used, NULL, NULL);
    KeepsSegment(m2, m3, {l[0]}, spare, back, NULL);
    assert forall p :: p in l ==> p !in spare;
    SegmentJoin(m3, l, spare, NULL, NULL);
  }

  lemma Stock(m: Chunks, used: seq<Ptr>, spare: seq<Ptr>, l: seq<Ptr>, size: nat, before: Ptr)
    requires Held(m, used, spare, l, size) && Segment(m, l, before, NULL) && l != [] && AllIdle(Data(m, l), size)
    ensures l[0] in m && Last(l) in m && (spare != [] ==> spare[0] in m)
    ensures Held(Stocked(m, spare, l), used, l + spare, [], size) && Relinks(m, Stocked(m, spare, l))
  {
    HeldApart(m, used, spare, l);
    StockLinks(m, used, spare, l, before);
    assert forall p :: p in l + spare <==> p in l || p in spare;
    DataConcat(m, l, spare);
    ListedAgain(m, Stocked(m, spare, l), used, l + spare, []);
  }

  /** All unused chunks, followed by fresh ones, as one list in hand. */
  function Combined(m: Chunks, spare: seq<Ptr>, l: seq<Ptr>): Chunks
    requires l != [] && spare != [] && l[0] in m && spare[0] in m && Last(spare) in m
  {
    SetPrev(SetPrev(SetNext(m, Last(spare), l[0]), spare[0], m[l[0]].prev), l[0], Last(spare))
  }

  lemma CombineLinks(m: Chunks, used: seq<Ptr>, spare: seq<Ptr>, l: seq<Ptr>)
    requires Segment(m, used, NULL, NULL) && Segment(m, spare, NULL, NULL) && Segment(m, l, Last(l), NULL)
    requires Disjoint(used, spare) && Disjoint(used, l) && Disjoint(spare, l) && l != [] && spare != []
    ensures l[0] in m && spare[0] in m && Last(spare) in m
    ensures var m' := Combined(m, spare, l);
      Segment(m', spare + l, Last(l), NULL) && Segment(m', used, NULL, NULL) && Relinks(m, m')
  {
    SegmentEnds(m, l, Last(l), NULL);
    SegmentEnds(m, spare, NULL, NULL);
    SetAfter(m, spare, NULL, NULL, l[0]);
    var m1 := SetNext(m, Last(spare), l[0]);
    KeepsSegment(m, m1, {Last(spare)}, used, NULL, NULL);
    assert Last(spare) in spare && spare[0] in spare;
    KeepsSegment(m, m1, {Last(spare)}, l, Last(l), NULL);
    assert m[l[0]].prev == Last(l);
    SetBefore(m1, spare, NULL, l[0], Last(l));
    var m2 := SetPrev(m1, spare[0], Last(l));
    KeepsSegment(m1, m2, {spare[0]}, used, NULL, NULL);
    KeepsSegment(m1, m2, {spare[0]}, l, Last(l), NULL);
    SetBefore(m2, l, Last(l), NULL, Last(spare));
    var m3 := SetPrev(m2, l[0], Last(spare));
    KeepsSegment(m2, m3, {l[0]}, used, NULL, NULL);
    KeepsSegment(m2, m3, {l[0]}, spare, Last(l), l[0]);
    SegmentJoin(m3, spare, l, Last(l), NULL);
  }

  lemma Combine(m: Chunks, used: seq<Ptr>, spare: seq<Ptr>, l: seq<Ptr>, size: nat)
    requires Held(m, used, spare, l, size) && Segment(m, l, Last(l), NULL) && l != [] && spare != [] && AllIdle(Data(m, l), size)
    ensures l[0] in m && spare[0] in m && Last(spare) in m
    ensures var m' := Combined(m, spare, l);
      && Held(m', used, [], spare + l, size) && Segment(m', spare + l, Last(l), NULL) && Relinks(m, m')
      && AllIdle(Data(m', spare + l), size)
  {
    HeldApart(m, used, spare, l);
    CombineLinks(m, used, spare, l);
    var m' := Combined(m, spare, l);
    assert forall p :: p in spare + l <==> p in l || p in spare;
    DataConcat(m, spare, l);
    RelinksKeepData(m, m', spare + l);
    ListedAgain(m, m', used, [], spare + l);
  }
}
