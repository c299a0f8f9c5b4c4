/** Why the cell of src/main/state.cpp needs its calling discipline: runs that break
    it and lose a pointer, or delete one that a reader still uses. */
module StateCellMisuse {
  import opened Basics
  import opened StateCell

  ghost predicate Reaches(c: Cell, run: seq<Action>, d: Cell) {
    PossibleRun(c, run) && Exec(c, run) == d
  }

  ghost predicate CanReach(c: Cell, d: Cell) {
    exists run :: Reaches(c, run, d)
  }

  lemma {:induction false} ReachesAppend(c: Cell, run: seq<Action>, d: Cell, more: seq<Action>, e: Cell)
    requires Reaches(c, run, d) && Reaches(d, more, e)
    ensures Reaches(c, run + more, e)
    decreases |run|
  {
    if run == [] {
      assert run + more == more;
    } else {
      assert (run + more)[1..] == run[1..] + more;
      ReachesAppend(Do(c, run[0]), run[1..], d, more, e);
    }
  }

  lemma Then(c: Cell, d: Cell, e: Cell)
    requires CanReach(c, d) && CanReach(d, e)
    ensures CanReach(c, e)
  {
    var r :| Reaches(c, r, d);
    var q :| Reaches(d, q, e);
    ReachesAppend(c, r, d, q, e);
  }

  lemma Step(c: Cell, a: Action)
    requires Possible(c, a)
    ensures CanReach(c, Do(c, a))
  {
    var run := [a];
    assert run[1..] == [];
    assert PossibleRun(Do(c, a), run[1..]);
    assert Reaches(c, run, Do(c, a));
  }

  /** One more step at the end of a run. */
  lemma Extend(c: Cell, d: Cell, a: Action)
    requires CanReach(c, d) && Possible(d, a)
    ensures CanReach(c, Do(d, a))
  {
    Step(d, a);
    Then(c, d, Do(d, a));
  }

  /** A single thread publishes p, from start to return, while GARBAGE and PENDING
      are empty. */
  lemma PushAlone(c: Cell, t: nat, p: Ptr)
    requires t < |c.threads| && c.threads[t].Idle? && p != NULL && p !in c.issued && p !in c.refused
    requires c.garbage == NULL && c.pending == NULL
    ensures CanReach(c, c.(pending := p, issued := c.issued + {p}, order := c.order + [p]))
  {
    var c1 := Do(c, Start(t, Push(p)));
    var c2 := Do(c1, Run(t));
    var c3 := Do(c2, Run(t));
    var c4 := Do(c3, Run(t));
    Step(c, Start(t, Push(p)));
    Extend(c, c1, Run(t));
    Extend(c, c2, Run(t));
    Extend(c, c3, Run(t));
    Extend(c, c4, Run(t));
    assert Do(c4, Run(t)).threads == c.threads;
  }

  /** The first get of all: there is no old state to put into GARBAGE. */
  lemma FirstGet(c: Cell, t: nat)
    requires t < |c.threads| && c.threads[t].Idle? && c.pending != NULL && c.state == NULL && c.garbage == NULL
    ensures CanReach(c, c.(pending := NULL, state := c.pending, results := c.results + [c.pending]))
  {
    var c1 := Do(c, Start(t, Get));
    var c2 := Do(c1, Run(t));
    var c3 := Do(c2, Run(t));
    assert c1.threads == c.threads[t := GetCheck];
    assert c2 == c.(threads := c.threads[t := GetTakePending]);
    assert c3 == c.(pending := NULL, threads := c.threads[t := GetSwapState(c.pending)]);
    Step(c, Start(t, Get));
    Extend(c, c1, Run(t));
    Extend(c, c2, Run(t));
    Extend(c, c3, Run(t));
    assert Do(c3, Run(t)).threads == c.threads;
  }

  /** A get past its check takes PENDING and leaves the old state in GARBAGE. */
  lemma GetGoesOn(c: Cell, t: nat)
    requires t < |c.threads| && c.threads[t].GetTakePending? && c.pending != NULL && c.state != NULL
    ensures CanReach(c, c.(pending := NULL, state := c.pending, garbage := c.state,
                           threads := c.threads[t := Idle], results := c.results + [c.pending]))
  {
    var c1 := Do(c, Run(t));
    var c2 := Do(c1, Run(t));
    Step(c, Run(t));
    Extend(c, c1, Run(t));
    Extend(c, c2, Run(t));
    assert Do(c2, Run(t)).threads == c.threads[t := Idle];
  }

  /** Some run ends with the published pointer x in no place at all. */
  ghost predicate CanLose(c: Cell, x: Ptr) {
    exists d :: CanReach(c, d) && Lost(d, x)
  }

  /** Two threads inside get lose a pointer in any cell that holds a state and a
      pending pointer and no garbage: threads t and u are both past the check, thread
      w publishes between their swaps, and the second put into GARBAGE overwrites the
      old state. */
  lemma TwoPutsLose(c: Cell, t: nat, u: nat, w: nat)
    requires c.state in c.issued && c.pending != c.state
    requires c.garbage == NULL && c.deleted[c.state] == c.refused[c.state] == 0
    requires forall v :: 0 <= v < |c.threads| ==> Local(c.threads[v], c.state) == 0
    requires t < |c.threads| && u < |c.threads| && w < |c.threads| && t != u && u != w && t != w
    requires c.threads[t].GetTakePending? && c.threads[u].GetTakePending? && c.threads[w].PushSwapPending?
    requires c.pending != NULL && c.state != NULL && c.threads[w].p != NULL
    ensures CanLose(c, c.state)
  {
    var c1 := c.(pending := NULL, state := c.pending, garbage := c.state,
                 threads := c.threads[u := Idle], results := c.results + [c.pending]);
    GetGoesOn(c, u);
    var c2 := Do(c1, Run(w));
    Extend(c, c1, Run(w));
    var c3 := c2.(pending := NULL, state := c2.pending, garbage := c2.state,
                  threads := c2.threads[t := Idle], results := c2.results + [c2.pending]);
    GetGoesOn(c2, t);
    Then(c, c2, c3);
    LocalsNone(c3.threads, c.state);
  }

  /** Threads 0 and 1 inside get past the check, thread 2 about to publish 3. */
  lemma ThreeInFlight(c: Cell)
    requires c.threads == [Idle, Idle, Idle] && c.garbage == NULL && 3 !in c.issued && 3 !in c.refused
    ensures CanReach(c, c.(threads := [GetTakePending, GetTakePending, PushSwapPending(3)], issued := c.issued + {3}))
  {
    var c1 := Do(c, Start(0, Get));
    var c2 := Do(c1, Run(0));
    var c3 := Do(c2, Start(1, Get));
    var c4 := Do(c3, Run(1));
    var c5 := Do(c4, Start(2, Push(3)));
    var c6 := Do(c5, Run(2));
    Step(c, Start(0, Get));
    Extend(c, c1, Run(0));
    Extend(c, c2, Start(1, Get));
    Extend(c, c3, Run(1));
    Extend(c, c4, Start(2, Push(3)));
    Extend(c, c5, Run(2));
    Extend(c, c6, Run(2));
    assert Do(c6, Run(2)).threads == [GetTakePending, GetTakePending, PushSwapPending(3)];
  }

  /** Pointer 1 in STATE, 2 in PENDING, two threads inside get and a third about to
      publish 3. */
  function TwoReaders(): Cell {
    Cell(2, 1, NULL, [GetTakePending, GetTakePending, PushSwapPending(3)],
         {1, 2, 3}, [1, 2], multiset{}, multiset{}, [1])
  }

  lemma TwoReadersReachable()
    ensures CanReach(Init(3), TwoReaders())
  {
    var c0 := Init(3);
    assert c0.threads == [Idle, Idle, Idle];
    PushAlone(c0, 0, 1);
    var c1 := c0.(pending := 1, issued := c0.issued + {1}, order := c0.order + [1]);
    FirstGet(c1, 0);
    var c2 := c1.(pending := NULL, state := c1.pending, results := c1.results + [c1.pending]);
    Then(c0, c1, c2);
    PushAlone(c2, 0, 2);
    var c3 := c2.(pending := 2, issued := c2.issued + {2}, order := c2.order + [2]);
    Then(c0, c2, c3);
    ThreeInFlight(c3);
    var c4 := c3.(threads := [GetTakePending, GetTakePending, PushSwapPending(3)], issued := c3.issued + {3});
    Then(c0, c3, c4);
    assert c4 == TwoReaders();
  }

  /** The discipline is needed: from a new cell, three threads reach a point where
      the published pointer 1 is in no place at all. */
  lemma TwoReadersLoseAPointer()
    ensures CanLose(Init(3), 1)
  {
    TwoReadersReachable();
    var c := TwoReaders();
    TwoPutsLose(c, 0, 1, 2);
    var d :| CanReach(c, d) && Lost(d, 1);
    Then(Init(3), c, d);
  }

  // --------------------------------------------------------------------------
  // A second thread that pulls
  // --------------------------------------------------------------------------

  /** Only thread t acts. */
  predicate Alone(run: seq<Action>, t: nat) {
    forall i :: 0 <= i < |run| ==> run[i] == Run(t) || (run[i].Start? && run[i].t == t)
  }

  /** Some run of thread t alone deletes x. */
  ghost predicate CanDelete(c: Cell, t: nat, x: Ptr) {
    exists run :: Alone(run, t) && PossibleRun(c, run) && Exec(c, run).deleted[x] == c.deleted[x] + 1
  }

  /** A pull in a cell with a state and a pending pointer deletes the state: the pointer
      that a reader of get may still use. */
  lemma PullDeletesState(c: Cell, t: nat)
    requires t < |c.threads| && c.threads[t].Idle? && c.pending != NULL && c.state != NULL && c.garbage == NULL
    ensures CanDelete(c, t, c.state)
  {
    var c1 := Do(c, Start(t, Pull));
    var c2 := Do(c1, Run(t));
    var c3 := Do(c2, Run(t));
    var c4 := Do(c3, Run(t));
    var c5 := Do(c4, Run(t));
    assert c5.threads[t] == FinalDrop(c.state, Some(c.pending));
    var c6 := Do(c5, Run(t));
    var r1 := [Run(t)];
    var r2 := [Run(t)] + r1;
    var r3 := [Run(t)] + r2;
    var r4 := [Run(t)] + r3;
    var r5 := [Run(t)] + r4;
    var r6 := [Start(t, Pull)] + r5;
    Prefixed(c5, Run(t), [], c6);
    Prefixed(c4, Run(t), r1, c6);
    Prefixed(c3, Run(t), r2, c6);
    Prefixed(c2, Run(t), r3, c6);
    Prefixed(c1, Run(t), r4, c6);
    Prefixed(c, Start(t, Pull), r5, c6);
    assert c6.deleted == Cleanup(c.deleted, c.state);
    assert Alone(r6, t);
  }

  lemma Prefixed(c: Cell, a: Action, run: seq<Action>, d: Cell)
    requires Possible(c, a) && Reaches(Do(c, a), run, d)
    ensures Reaches(c, [a] + run, d)
  {
    assert ([a] + run)[1..] == run;
  }

  /** Thread 0 has read pointer 1 with get and is idle, and pointer 2 is pending. */
  function OneLent(): Cell {
    Cell(2, 1, NULL, [Idle, Idle], {1, 2}, [1, 2], multiset{}, multiset{}, [1])
  }

  /** Two readers, this time one after the other: from a new cell, thread 0 reads pointer 1,
      and then a pull of thread 1 deletes it, while thread 0 has done nothing more. */
  lemma LentPointerDeleted()
    ensures CanReach(Init(2), OneLent()) && CanDelete(OneLent(), 1, 1)
  {
    var c0 := Init(2);
    assert c0.threads == [Idle, Idle];
    PushAlone(c0, 1, 1);
    var c1 := c0.(pending := 1, issued := c0.issued + {1}, order := c0.order + [1]);
    FirstGet(c1, 0);
    var c2 := c1.(pending := NULL, state := c1.pending, results := c1.results + [c1.pending]);
    Then(c0, c1, c2);
    PushAlone(c2, 1, 2);
    var c3 := c2.(pending := 2, issued := c2.issued + {2}, order := c2.order + [2]);
    Then(c0, c2, c3);
    assert c3 == OneLent();
    PullDeletesState(OneLent(), 1);
  }
}
