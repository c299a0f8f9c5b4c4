/** The memory the containers allocate their nodes in, and linked lists inside it.

    A pointer is a number and NULL is 0; the memory maps the address of every live
    node to its links and its data. malloc adds an address, free removes one, so a
    node that is freed or lost can be told from one that is still linked. */
module LinkedMemory {
  import opened Basics

  datatype Node<D> = Node(next: Ptr, prev: Ptr, data: D)

  type Memory<D> = map<Ptr, Node<D>>

  // --------------------------------------------------------------------------
  // Sequences of addresses
  // --------------------------------------------------------------------------

  ghost predicate Differ(s: seq<Ptr>, i: int, j: int)
    requires 0 <= i < |s| && 0 <= j < |s|
  {
    s[i] != s[j]
  }

  /** All different. (Naming the pairs keeps the verifier from comparing all of them
      whenever a sequence is indexed.) */
  ghost predicate NoRepeats(s: seq<Ptr>) {
    forall i, j :: 0 <= i < |s| && 0 <= j < |s| && i != j ==> Differ(s, i, j)
  }

  ghost predicate Disjoint(a: seq<Ptr>, b: seq<Ptr>) {
    forall p {:trigger p in a} :: p in a ==> p !in b
  }

  function First(ns: seq<Ptr>): Ptr {
    if ns == [] then NULL else ns[0]
  }

  function Last(ns: seq<Ptr>): Ptr {
    if ns == [] then NULL else ns[|ns| - 1]
  }

  function Members(ns: seq<Ptr>): set<Ptr> {
    set p | p in ns
  }

  lemma NoRepeatsConcat(a: seq<Ptr>, b: seq<Ptr>)
    ensures NoRepeats(a + b) <==> NoRepeats(a) && NoRepeats(b) && Disjoint(a, b)
  {
    var c := a + b;
    if NoRepeats(c) {
      forall i, j | 0 <= i < |b| && 0 <= j < |b| && i != j ensures Differ(b, i, j) {
        assert Differ(c, |a| + i, |a| + j);
      }
      forall i, j | 0 <= i < |a| && 0 <= j < |b| ensures a[i] != b[j] { assert Differ(c, i, |a| + j); }
      forall i, j | 0 <= i < |a| && 0 <= j < |a| && i != j ensures Differ(a, i, j) { assert Differ(c, i, j); }
    }
    if NoRepeats(a) && NoRepeats(b) && Disjoint(a, b) {
      forall i, j | 0 <= i < |c| && 0 <= j < |c| && i != j ensures Differ(c, i, j) {
        if i < |a| && j < |a| {
          assert Differ(a, i, j);
        } else if |a| <= i && |a| <= j {
          assert Differ(b, i - |a|, j - |a|);
        } else {
          assert c[i] in a || c[j] in a;
        }
      }
    }
  }

  lemma NoRepeatsTake(s: seq<Ptr>, k: nat)
    requires NoRepeats(s) && k <= |s|
    ensures NoRepeats(s[..k])
  {
    forall i, j | 0 <= i < k && 0 <= j < k && i != j ensures Differ(s[..k], i, j) { assert Differ(s, i, j); }
  }

  lemma NoRepeatsDrop(s: seq<Ptr>, k: nat)
    requires NoRepeats(s) && k <= |s|
    ensures NoRepeats(s[k..])
  {
    forall i, j | 0 <= i < |s| - k && 0 <= j < |s| - k && i != j ensures Differ(s[k..], i, j) {
      assert Differ(s, k + i, k + j);
    }
  }

  // --------------------------------------------------------------------------
  // Lists
  // --------------------------------------------------------------------------

  /** The addresses are live and different. */
  ghost predicate Live<D>(m: Memory<D>, ns: seq<Ptr>) {
    && NoRepeats(ns)
    && (forall i {:trigger ns[i]} :: 0 <= i < |ns| ==> ns[i] != NULL)
    && (forall i {:trigger ns[i] in m} {:trigger m[ns[i]]} :: 0 <= i < |ns| ==> ns[i] in m)
  }

  /** Following next from the first node visits the others in order and ends at `end`. */
  ghost predicate Nexts<D>(m: Memory<D>, ns: seq<Ptr>, end: Ptr)
    requires Live(m, ns)
  {
    forall i {:trigger m[ns[i]].next} :: 0 <= i < |ns| ==> m[ns[i]].next == if i + 1 < |ns| then ns[i + 1] else end
  }

  /** Following prev from the last node visits the others backwards and ends at `end`. */
  ghost predicate Prevs<D>(m: Memory<D>, ns: seq<Ptr>, end: Ptr)
    requires Live(m, ns)
  {
    forall i {:trigger m[ns[i]].prev} :: 0 <= i < |ns| ==> m[ns[i]].prev == if i > 0 then ns[i - 1] else end
  }

  /** A doubly linked list, closed by NULL on both sides. */
  ghost predicate Linked<D>(m: Memory<D>, ns: seq<Ptr>) {
    Live(m, ns) && Nexts(m, ns, NULL) && Prevs(m, ns, NULL)
  }

  /** A list through next alone. */
  ghost predicate Chain<D>(m: Memory<D>, ns: seq<Ptr>) {
    Live(m, ns) && Nexts(m, ns, NULL)
  }

  /** Nothing but the given addresses changes between two memories, and no other
      address disappears. */
  ghost predicate Keeps<D>(m: Memory<D>, m': Memory<D>, changed: set<Ptr>) {
    forall p {:trigger p in m'} {:trigger m'[p]} :: p in m && p !in changed ==> p in m' && m'[p] == m[p]
  }

  /** A node, or nothing. */
  function Just(p: Ptr): set<Ptr> {
    if p == NULL then {} else {p}
  }

  /** Lists away from the change stay lists. */
  lemma KeepsLists<D>(m: Memory<D>, m': Memory<D>, changed: set<Ptr>, ns: seq<Ptr>)
    requires Keeps(m, m', changed) && forall p :: p in ns ==> p !in changed
    ensures Live(m, ns) ==> Live(m', ns)
    ensures Linked(m, ns) ==> Linked(m', ns)
    ensures Chain(m, ns) ==> Chain(m', ns)
  {
  }

  // --------------------------------------------------------------------------
  // Surgery
  // --------------------------------------------------------------------------

  function SetNext<D>(m: Memory<D>, p: Ptr, q: Ptr): (m': Memory<D>)
    requires p in m
  {
    m[p := m[p].(next := q)]
  }

  function SetPrev<D>(m: Memory<D>, p: Ptr, q: Ptr): (m': Memory<D>)
    requires p in m
  {
    m[p := m[p].(prev := q)]
  }

  function SetData<D>(m: Memory<D>, p: Ptr, d: D): (m': Memory<D>)
    requires p in m
  {
    m[p := m[p].(data := d)]
  }

  /** Linking a node behind the last one. */
  function Appended<D>(m: Memory<D>, tail: Ptr, p: Ptr): Memory<D>
    requires p in m && (tail != NULL ==> tail in m)
  {
    var m1 := m[p := m[p].(next := NULL, prev := tail)];
    if tail == NULL then m1 else SetNext(m1, tail, p)
  }

  lemma AppendLinked<D>(m: Memory<D>, ns: seq<Ptr>, p: Ptr)
    requires Linked(m, ns) && p != NULL && p in m && p !in ns
    ensures Last(ns) != NULL ==> Last(ns) in m
    ensures Linked(Appended(m, Last(ns), p), ns + [p])
    ensures Keeps(m, Appended(m, Last(ns), p), {p} + Just(Last(ns)))
  {
    var m' := Appended(m, Last(ns), p);
    var ns' := ns + [p];
    forall i {:trigger m'[ns'[i]]} | 0 <= i < |ns'|
      ensures ns'[i] != NULL && ns'[i] in m'
      ensures m'[ns'[i]].next == if i + 1 < |ns'| then ns'[i + 1] else NULL
      ensures m'[ns'[i]].prev == if i > 0 then ns'[i - 1] else NULL
    {
      if i < |ns| { assert ns[i] != p; }
      if i < |ns| - 1 { assert Differ(ns, i, |ns| - 1); }
    }
    NoRepeatsConcat(ns, [p]);
  }

  /** The part behind the cut, joined with another chain. */
  lemma JoinChains<D>(m: Memory<D>, a: seq<Ptr>, b: seq<Ptr>)
    requires Live(m, a) && Nexts(m, a, First(b)) && Chain(m, b) && Disjoint(a, b)
    ensures Chain(m, a + b)
  {
    NoRepeatsConcat(a, b);
    forall i {:trigger m[(a + b)[i]]} | 0 <= i < |a + b|
      ensures (a + b)[i] != NULL && (a + b)[i] in m
      ensures m[(a + b)[i]].next == if i + 1 < |a + b| then (a + b)[i + 1] else NULL
    {
      assert (a + b)[i] == if i < |a| then a[i] else b[i - |a|];
    }
  }

  // --------------------------------------------------------------------------
  // Segments: pieces of doubly linked lists
  // --------------------------------------------------------------------------

  /** The i-th node of a segment is live and linked to its neighbours. (Named, so that a
      proof unfolds only the nodes it asks for.) */
  ghost predicate LinkAt<D>(m: Memory<D>, ns: seq<Ptr>, before: Ptr, after: Ptr, i: int)
    requires 0 <= i < |ns|
  {
    && ns[i] != NULL && ns[i] in m
    && m[ns[i]].next == (if i + 1 < |ns| then ns[i + 1] else after)
    && m[ns[i]].prev == (if i > 0 then ns[i - 1] else before)
  }

  /** A stretch of a doubly linked list whose first node points back to `before` and whose
      last one points on to `after`. */
  ghost predicate Segment<D>(m: Memory<D>, ns: seq<Ptr>, before: Ptr, after: Ptr) {
    && NoRepeats(ns)
    && forall i {:trigger LinkAt(m, ns, before, after, i)} :: 0 <= i < |ns| ==> LinkAt(m, ns, before, after, i)
  }

  function FirstOr(ns: seq<Ptr>, other: Ptr): Ptr {
    if ns == [] then other else ns[0]
  }

  function LastOr(ns: seq<Ptr>, other: Ptr): Ptr {
    if ns == [] then other else ns[|ns| - 1]
  }

  lemma SegmentIn<D>(m: Memory<D>, ns: seq<Ptr>, before: Ptr, after: Ptr, p: Ptr)
    requires Segment(m, ns, before, after) && p in ns
    ensures p in m && p != NULL
  {
    var i :| 0 <= i < |ns| && ns[i] == p;
    assert LinkAt(m, ns, before, after, i);
  }

  lemma SegmentEnds<D>(m: Memory<D>, ns: seq<Ptr>, before: Ptr, after: Ptr)
    requires Segment(m, ns, before, after) && ns != []
    ensures ns[0] in ns && ns[0] in m && ns[0] != NULL && m[ns[0]].prev == before
    ensures m[ns[0]].next == if |ns| > 1 then ns[1] else after
    ensures Last(ns) in ns && Last(ns) in m && Last(ns) != NULL && m[Last(ns)].next == after
    ensures m[Last(ns)].prev == if |ns| > 1 then ns[|ns| - 2] else before
  {
    assert LinkAt(m, ns, before, after, 0) && LinkAt(m, ns, before, after, |ns| - 1);
  }

  lemma KeepsSegment<D>(m: Memory<D>, m': Memory<D>, changed: set<Ptr>, ns: seq<Ptr>, before: Ptr, after: Ptr)
    requires Keeps(m, m', changed) && (forall p :: p in ns ==> p !in changed) && Segment(m, ns, before, after)
    ensures Segment(m', ns, before, after)
  {
    forall i | 0 <= i < |ns| ensures LinkAt(m', ns, before, after, i) {
      assert LinkAt(m, ns, before, after, i);
      assert ns[i] in ns && ns[i] in m && m'[ns[i]] == m[ns[i]];
    }
  }

  /** A list falls into two segments at any place. */
  lemma SegmentCut<D>(m: Memory<D>, a: seq<Ptr>, b: seq<Ptr>, before: Ptr, after: Ptr)
    requires Segment(m, a + b, before, after)
    ensures Segment(m, a, before, FirstOr(b, after)) && Segment(m, b, LastOr(a, before), after)
    ensures Disjoint(a, b) && Disjoint(b, a)
  {
    NoRepeatsConcat(a, b);
    forall i | 0 <= i < |a| ensures LinkAt(m, a, before, FirstOr(b, after), i) {
      assert LinkAt(m, a + b, before, after, i);
    }
    forall i | 0 <= i < |b| ensures LinkAt(m, b, LastOr(a, before), after, i) {
      assert LinkAt(m, a + b, before, after, |a| + i);
    }
  }

  /** And two segments that point at each other make one. */
  lemma SegmentJoin<D>(m: Memory<D>, a: seq<Ptr>, b: seq<Ptr>, before: Ptr, after: Ptr)
    requires Segment(m, a, before, FirstOr(b, after)) && Segment(m, b, LastOr(a, before), after) && Disjoint(a, b)
    ensures Segment(m, a + b, before, after)
  {
    NoRepeatsConcat(a, b);
    forall i | 0 <= i < |a + b| ensures LinkAt(m, a + b, before, after, i) {
      if i < |a| {
        assert LinkAt(m, a, before, FirstOr(b, after), i);
      } else {
        assert LinkAt(m, b, LastOr(a, before), after, i - |a|);
      }
    }
  }

  /** Redirecting the link behind a segment. */
  lemma SetAfter<D>(m: Memory<D>, ns: seq<Ptr>, before: Ptr, after: Ptr, q: Ptr)
    requires Segment(m, ns, before, after) && ns != []
    ensures Last(ns) in ns && Last(ns) in m && Segment(SetNext(m, Last(ns), q), ns, before, q)
  {
    SegmentEnds(m, ns, before, after);
    var m' := SetNext(m, Last(ns), q);
    forall i | 0 <= i < |ns| ensures LinkAt(m', ns, before, q, i) {
      assert LinkAt(m, ns, before, after, i);
      assert i < |ns| - 1 ==> Differ(ns, i, |ns| - 1);
    }
  }

  /** Redirecting the link in front of a segment. */
  lemma SetBefore<D>(m: Memory<D>, ns: seq<Ptr>, before: Ptr, after: Ptr, q: Ptr)
    requires Segment(m, ns, before, after) && ns != []
    ensures ns[0] in ns && ns[0] in m && Segment(SetPrev(m, ns[0], q), ns, q, after)
  {
    SegmentEnds(m, ns, before, after);
    var m' := SetPrev(m, ns[0], q);
    forall i | 0 <= i < |ns| ensures LinkAt(m', ns, q, after, i) {
      assert LinkAt(m, ns, before, after, i);
      assert i > 0 ==> Differ(ns, 0, i);
    }
  }

  /** Writing data moves no links. */
  lemma SetDataKeeps<D>(m: Memory<D>, p: Ptr, d: D, ns: seq<Ptr>, before: Ptr, after: Ptr)
    requires p in m && Segment(m, ns, before, after)
    ensures Segment(SetData(m, p, d), ns, before, after)
  {
    forall i | 0 <= i < |ns| ensures LinkAt(SetData(m, p, d), ns, before, after, i) {
      assert LinkAt(m, ns, before, after, i);
    }
  }

  lemma SegmentOne<D>(m: Memory<D>, p: Ptr)
    requires p != NULL && p in m
    ensures Segment(m, [p], m[p].prev, m[p].next)
  {
    assert LinkAt(m, [p], m[p].prev, m[p].next, 0);
  }

  /** There is always an unused address. */
  lemma {:induction false} FreshAddress(used: set<Ptr>) returns (p: Ptr)
    ensures p != NULL && forall q :: q in used ==> q < p
  {
    if used == {} {
      p := 1;
    } else {
      var q :| q in used;
      p := FreshAddress(used - {q});
      if p <= q { p := q + 1; }
      assert used == (used - {q}) + {q};
    }
  }

  // --------------------------------------------------------------------------
  // Several lists
  // --------------------------------------------------------------------------

  ghost predicate Owned(lists: seq<seq<Ptr>>, p: Ptr) {
    exists b :: 0 <= b < |lists| && p in lists[b]
  }

  ghost predicate ApartAt(lists: seq<seq<Ptr>>, b: int, c: int)
    requires 0 <= b < |lists| && 0 <= c < |lists|
  {
    Disjoint(lists[b], lists[c])
  }

  ghost predicate SpareAt(lists: seq<seq<Ptr>>, spare: seq<Ptr>, b: int)
    requires 0 <= b < |lists|
  {
    Disjoint(lists[b], spare)
  }

  /** The nodes of different bins and of a free list are different. (This and the next
      predicate name their instances, to be unfolded only where a proof asks for one.) */
  ghost predicate Apart(lists: seq<seq<Ptr>>, spare: seq<Ptr>) {
    && (forall b, c {:trigger ApartAt(lists, b, c)} :: 0 <= b < |lists| && 0 <= c < |lists| && b != c ==> ApartAt(lists, b, c))
    && (forall b {:trigger SpareAt(lists, spare, b)} :: 0 <= b < |lists| ==> SpareAt(lists, spare, b))
  }

  lemma OneBinApart<D>(m1: Memory<D>, lists: seq<seq<Ptr>>, b: nat, ns': seq<Ptr>)
    requires Apart(lists, []) && b < |lists| && (forall p :: p in ns' ==> p in lists[b] || p !in m1)
    requires forall c :: 0 <= c < |lists| ==> forall p :: p in lists[c] ==> p in m1
    ensures Apart(lists[b := ns'], [])
  {
    var l2 := lists[b := ns'];
    forall c | 0 <= c < |lists| && c != b ensures Disjoint(lists[c], ns') && Disjoint(ns', lists[c]) {
      assert ApartAt(lists, c, b);
    }
    forall c, d | 0 <= c < |l2| && 0 <= d < |l2| && c != d ensures ApartAt(l2, c, d) {
      if c != b && d != b { assert ApartAt(lists, c, d); }
    }
    forall c | 0 <= c < |l2| ensures SpareAt(l2, [], c) { }
  }

  // --------------------------------------------------------------------------
  // Threads: lists through next alone
  // --------------------------------------------------------------------------

  ghost predicate NextAt<D>(m: Memory<D>, ns: seq<Ptr>, after: Ptr, i: int)
    requires 0 <= i < |ns|
  {
    && ns[i] != NULL && ns[i] in m
    && m[ns[i]].next == (if i + 1 < |ns| then ns[i + 1] else after)
  }

  /** Following next from the first node visits the others in order and goes on to `after`. */
  ghost predicate Thread<D>(m: Memory<D>, ns: seq<Ptr>, after: Ptr) {
    NoRepeats(ns) && forall i {:trigger NextAt(m, ns, after, i)} :: 0 <= i < |ns| ==> NextAt(m, ns, after, i)
  }

  lemma ThreadEnds<D>(m: Memory<D>, ns: seq<Ptr>, after: Ptr)
    requires Thread(m, ns, after) && ns != []
    ensures ns[0] in ns && ns[0] in m && ns[0] != NULL && m[ns[0]].next == FirstOr(ns[1..], after)
    ensures Last(ns) in ns && Last(ns) in m && Last(ns) != NULL && m[Last(ns)].next == after
  {
    assert NextAt(m, ns, after, 0) && NextAt(m, ns, after, |ns| - 1);
  }

  lemma ThreadLive<D>(m: Memory<D>, ns: seq<Ptr>, after: Ptr)
    requires Thread(m, ns, after)
    ensures forall p :: p in ns ==> p != NULL && p in m
  {
    forall p | p in ns ensures p != NULL && p in m {
      var i :| 0 <= i < |ns| && ns[i] == p;
      assert NextAt(m, ns, after, i);
    }
  }

  lemma KeepsThread<D>(m: Memory<D>, m': Memory<D>, changed: set<Ptr>, ns: seq<Ptr>, after: Ptr)
    requires Keeps(m, m', changed) && (forall p :: p in ns ==> p !in changed) && Thread(m, ns, after)
    ensures Thread(m', ns, after)
  {
    forall i | 0 <= i < |ns| ensures NextAt(m', ns, after, i) {
      assert NextAt(m, ns, after, i);
      assert ns[i] in ns && m'[ns[i]] == m[ns[i]];
    }
  }

  lemma ThreadCut<D>(m: Memory<D>, a: seq<Ptr>, b: seq<Ptr>, after: Ptr)
    requires Thread(m, a + b, after)
    ensures Thread(m, a, FirstOr(b, after)) && Thread(m, b, after) && Disjoint(a, b) && Disjoint(b, a)
  {
    NoRepeatsConcat(a, b);
    forall i | 0 <= i < |a| ensures NextAt(m, a, FirstOr(b, after), i) { assert NextAt(m, a + b, after, i); }
    forall i | 0 <= i < |b| ensures NextAt(m, b, after, i) { assert NextAt(m, a + b, after, |a| + i); }
  }

  lemma ThreadJoin<D>(m: Memory<D>, a: seq<Ptr>, b: seq<Ptr>, after: Ptr)
    requires Thread(m, a, FirstOr(b, after)) && Thread(m, b, after) && Disjoint(a, b)
    ensures Thread(m, a + b, after)
  {
    NoRepeatsConcat(a, b);
    forall i | 0 <= i < |a + b| ensures NextAt(m, a + b, after, i) {
      if i < |a| { assert NextAt(m, a, FirstOr(b, after), i); } else { assert NextAt(m, b, after, i - |a|); }
    }
  }

  lemma ThreadSetAfter<D>(m: Memory<D>, ns: seq<Ptr>, after: Ptr, q: Ptr)
    requires Thread(m, ns, after) && ns != []
    ensures Last(ns) in ns && Last(ns) in m && Thread(SetNext(m, Last(ns), q), ns, q)
  {
    ThreadEnds(m, ns, after);
    forall i | 0 <= i < |ns| ensures NextAt(SetNext(m, Last(ns), q), ns, q, i) {
      assert NextAt(m, ns, after, i);
      assert i < |ns| - 1 ==> Differ(ns, i, |ns| - 1);
    }
  }

  lemma ThreadOne<D>(m: Memory<D>, p: Ptr)
    requires p != NULL && p in m
    ensures Thread(m, [p], m[p].next)
  {
    assert NextAt(m, [p], m[p].next, 0);
  }
}
