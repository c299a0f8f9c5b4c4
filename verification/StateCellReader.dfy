/** What the reader of the cell may rely on. */
module StateCellReader {
  /* The thread that reads the cell of src/main/state.cpp: the pointer it was given stays
     alive, it never goes back to an older one, it gets the latest one whenever GARBAGE is
     empty, and no call can be held up by other threads. */

  import opened Basics
  import opened StateCell

  // --------------------------------------------------------------------------
  // The pointer a reader was given is not deleted under it
  // --------------------------------------------------------------------------

  /** Inside the calls get or pull. */
  predicate Reading(pc: PC) {
    || pc.PullTakeGarbage? || pc.PullDrop? || pc.PullTakePending? || pc.PullSwapState?
    || pc.GetCheck? || pc.GetTakePending? || pc.GetSwapState? || pc.GetPutGarbage?
    || pc.LoadState? || (pc.FinalDrop? && pc.read.Some?)
  }

  predicate Clearing(pc: PC) {
    pc.ClearTake? || pc.ClearDrop?
  }

  /** Only thread k calls get and pull; clear is not called while threads run. */
  predicate OneReader(a: Action, k: nat) {
    a.Start? ==> !a.call.Clear? && (a.call.Get? || a.call.Pull? ==> a.t == k)
  }

  predicate OneReaderRun(run: seq<Action>, k: nat) {
    forall i :: 0 <= i < |run| ==> OneReader(run[i], k)
  }

  /** The reader has replaced STATE but not yet returned the new value. */
  predicate Replaced(pc: PC) {
    pc.GetPutGarbage? || (pc.FinalDrop? && pc.read.Some?)
  }

  function Replacement(pc: PC): Ptr
    requires Replaced(pc)
  {
    if pc.GetPutGarbage? then pc.lent else pc.read.value
  }

  function LastRead(c: Cell): Ptr {
    if c.results == [] then NULL else c.results[|c.results| - 1]
  }

  /** STATE is what the reader was given last, or is about to be given. */
  ghost predicate Held(c: Cell, k: nat) {
    && k < |c.threads|
    && (forall t :: 0 <= t < |c.threads| && t != k ==> !Reading(c.threads[t]))
    && (forall t :: 0 <= t < |c.threads| ==> !Clearing(c.threads[t]))
    && c.state == if Replaced(c.threads[k]) then Replacement(c.threads[k]) else LastRead(c)
  }

  /** A thread that is neither reading nor clearing does not touch STATE. */
  lemma OthersLeaveState(c: Cell, pc: PC)
    requires !Reading(pc) && !Clearing(pc)
    ensures var (c', pc') := StepOf(c, pc);
      c'.state == c.state && c'.results == c.results && !Reading(pc') && !Clearing(pc')
  {
  }

  lemma ReaderStep(c: Cell, pc: PC)
    requires Reading(pc)
    requires c.state == if Replaced(pc) then Replacement(pc) else LastRead(c)
    ensures var (c', pc') := StepOf(c, pc);
      && !Clearing(pc')
      && c'.state == if Replaced(pc') then Replacement(pc') else LastRead(c')
  {
  }

  lemma StepHeld(c: Cell, a: Action, k: nat)
    requires Possible(c, a) && OneReader(a, k) && Held(c, k)
    ensures Held(Do(c, a), k)
  {
    if a.Run? {
      if Reading(c.threads[a.r]) {
        ReaderStep(c, c.threads[a.r]);
      } else {
        OthersLeaveState(c, c.threads[a.r]);
      }
    }
  }

  lemma {:induction false} HeldAlong(c: Cell, run: seq<Action>, k: nat)
    requires PossibleRun(c, run) && OneReaderRun(run, k) && Held(c, k)
    ensures Held(Exec(c, run), k)
    decreases |run|
  {
    if run != [] {
      assert OneReader(run[0], k);
      assert OneReaderRun(run[1..], k);
      StepHeld(c, run[0], k);
      HeldAlong(Do(c, run[0]), run[1..], k);
    }
  }

  /** Read safety: with one reader, whatever other threads push, set and collect, the
      pointer the reader was given last sits in STATE and in no other place until the
      reader's own next call replaces it there; so nobody can delete it before. */
  lemma ReadStaysAlive(n: nat, run: seq<Action>, k: nat)
    requires PossibleRun(Init(n), run) && DisciplinedRun(Init(n), run) && OneReaderRun(run, k) && k < n
    ensures var c := Exec(Init(n), run);
      Held(c, k) && (LastRead(c) != NULL && !Replaced(c.threads[k]) ==>
        c.state == LastRead(c) && Shared(c, LastRead(c)) == 1 && c.deleted[LastRead(c)] == 0)
  {
    var c := Exec(Init(n), run);
    HeldAlong(Init(n), run, k);
    if LastRead(c) != NULL { EveryPointerInOnePlace(n, run, LastRead(c)); }
  }

  // --------------------------------------------------------------------------
  // Reads follow the order in which pointers were published
  // --------------------------------------------------------------------------

  /** Position of a pointer in the order of publication; -1 when it is not there. */
  function Rank(order: seq<Ptr>, p: Ptr): int {
    if order == [] then -1
    else if order[|order| - 1] == p then |order| - 1
    else Rank(order[..|order| - 1], p)
  }

  lemma {:induction false} RankRange(order: seq<Ptr>, p: Ptr)
    ensures -1 <= Rank(order, p) < |order|
    ensures Rank(order, p) == |order| - 1 <==> order == [] || order[|order| - 1] == p
    ensures Rank(order, p) == -1 <==> p !in order
  {
    if order != [] {
      RankRange(order[..|order| - 1], p);
      assert order == order[..|order| - 1] + [order[|order| - 1]];
    }
  }

  lemma RankAppend(order: seq<Ptr>, q: Ptr, p: Ptr)
    requires p != q
    ensures Rank(order + [q], p) == Rank(order, p)
  {
    assert (order + [q])[..|order|] == order;
  }

  /** The argument of a push or set that is not yet swapped into PENDING. */
  function Argued(pc: PC): Ptr {
    match pc
    case PushTakeGarbage(p) => p
    case PushDrop(p, _) => p
    case PushSwapPending(p) => p
    case SetCheck(p) => p
    case SetSwapPending(p) => p
    case _ => NULL
  }

  ghost predicate NewAt(c: Cell, t: nat)
    requires t < |c.threads|
  {
    var p := Argued(c.threads[t]);
    p != NULL ==> p in c.issued && p !in c.order && p !in c.refused
  }

  ghost predicate OtherThan(c: Cell, t: nat, u: nat)
    requires t < |c.threads| && u < |c.threads|
  {
    Argued(c.threads[t]) != NULL ==> Argued(c.threads[t]) != Argued(c.threads[u])
  }

  /** A refused pointer was never in PENDING, and is with one caller. */
  ghost predicate RefusedOnce(c: Cell, x: Ptr) {
    x in c.refused ==> x != NULL && c.refused[x] == 1 && x in c.issued && x !in c.order
  }

  /** Arguments on their way are new and different from each other. */
  ghost predicate ArgumentsNew(c: Cell) {
    && (forall x :: x in c.order ==> x != NULL && x in c.issued)
    && (forall t: nat {:trigger NewAt(c, t)} :: t < |c.threads| ==> NewAt(c, t))
    && (forall t: nat, u: nat {:trigger OtherThan(c, t, u)} :: t < |c.threads| && u < |c.threads| && t != u ==> OtherThan(c, t, u))
    && (forall x {:trigger RefusedOnce(c, x)} :: RefusedOnce(c, x))
  }

  lemma StepArgumentsNew(c: Cell, a: Action)
    requires Possible(c, a) && ArgumentsNew(c)
    ensures ArgumentsNew(Do(c, a))
  {
    match a {
      case Start(t, call) => StartArgumentsNew(c, t, call);
      case Run(t) => RunArgumentsNew(c, t);
    }
  }

  lemma StartArgumentsNew(c: Cell, t: nat, call: Call)
    requires Possible(c, Start(t, call)) && ArgumentsNew(c)
    ensures ArgumentsNew(Do(c, Start(t, call)))
  {
    var d := Do(c, Start(t, call));
    var p := Argued(Entry(call));
    assert RefusedOnce(c, p);
    forall u: nat | u < |d.threads| ensures NewAt(d, u) { assert NewAt(c, u); }
    forall u: nat, v: nat | u < |d.threads| && v < |d.threads| && u != v ensures OtherThan(d, u, v) {
      assert OtherThan(c, u, v) && NewAt(c, u) && NewAt(c, v);
    }
    forall x ensures RefusedOnce(d, x) { assert RefusedOnce(c, x); }
  }

  lemma RunArgumentsNew(c: Cell, t: nat)
    requires Possible(c, Run(t)) && ArgumentsNew(c)
    ensures ArgumentsNew(Do(c, Run(t)))
  {
    var d, pc := Do(c, Run(t)), c.threads[t];
    StepArgument(c, pc);
    assert NewAt(c, t);
    forall u: nat | u < |d.threads| ensures NewAt(d, u) { assert NewAt(c, u) && (u != t ==> OtherThan(c, t, u)); }
    forall u: nat, v: nat | u < |d.threads| && v < |d.threads| && u != v ensures OtherThan(d, u, v) {
      assert OtherThan(c, u, v) && OtherThan(c, v, u);
    }
    forall x ensures RefusedOnce(d, x) { assert RefusedOnce(c, x); }
  }

  lemma StepArgument(c: Cell, pc: PC)
    ensures var (c', pc') := StepOf(c, pc);
      && (Argued(pc') == NULL || (Argued(pc') == Argued(pc) && c'.order == c.order))
      && (c'.order == c.order || (Argued(pc) != NULL && c'.order == c.order + [Argued(pc)]))
      && (c'.order != c.order ==> Argued(pc') == NULL)
      && (c'.refused == c.refused || (Argued(pc') == NULL && c'.order == c.order && c'.refused == Cleanup(c.refused, Argued(pc))))
  {
  }

  /** What the reader has taken from PENDING and not yet put into STATE. */
  function InHand(pc: PC): Ptr {
    if HasHand(pc) then pc.n else NULL
  }

  predicate HasHand(pc: PC) {
    pc.PullSwapState? || pc.GetSwapState?
  }

  /** PENDING, the reader's hand and STATE hold pointers in falling order of
      publication, and the values read so far never fall in that order. */
  ghost predicate InOrder(order: seq<Ptr>, pending: Ptr, hand: Ptr, state: Ptr, results: seq<Ptr>) {
    && NULL !in order
    && (pending != NULL ==> order != [] && pending == order[|order| - 1] && pending != state && pending != hand)
    && (state != NULL ==> state in order)
    && (hand != NULL ==> hand in order && Rank(order, state) < Rank(order, hand))
    && (forall i :: 0 <= i < |results| ==> Rank(order, results[i]) <= Rank(order, state))
    && (forall i :: 0 <= i < |results| && results[i] != NULL ==> results[i] in order)
    && (forall i, j :: 0 <= i < j < |results| ==> Rank(order, results[i]) <= Rank(order, results[j]))
  }

  ghost predicate Ordered(c: Cell, k: nat)
    requires k < |c.threads|
  {
    && (HasHand(c.threads[k]) ==> InHand(c.threads[k]) != NULL)
    && InOrder(c.order, c.pending, InHand(c.threads[k]), c.state, c.results)
  }

  /** Publishing a new pointer keeps every earlier rank. */
  lemma Publish(order: seq<Ptr>, pending: Ptr, hand: Ptr, state: Ptr, results: seq<Ptr>, p: Ptr)
    requires InOrder(order, pending, hand, state, results) && p != NULL && p !in order
    ensures InOrder(order + [p], p, hand, state, results)
  {
    forall q | q != p ensures Rank(order + [p], q) == Rank(order, q) {
      RankAppend(order, p, q);
    }
  }

  /** The reader takes PENDING: it was published last, so after STATE. */
  lemma Take(order: seq<Ptr>, pending: Ptr, state: Ptr, results: seq<Ptr>)
    requires InOrder(order, pending, NULL, state, results) && pending != NULL
    ensures InOrder(order, NULL, pending, state, results)
  {
    RankRange(order, pending);
    RankRange(order, state);
  }

  lemma Return(order: seq<Ptr>, pending: Ptr, state: Ptr, results: seq<Ptr>)
    requires InOrder(order, pending, NULL, state, results)
    ensures InOrder(order, pending, NULL, state, results + [state])
  {
  }

  lemma StepOrdered(c: Cell, a: Action, k: nat)
    requires Possible(c, a) && OneReader(a, k) && Held(c, k) && ArgumentsNew(c) && Ordered(c, k)
    ensures Ordered(Do(c, a), k)
  {
    match a {
      case Start(t, call) =>
      case Run(t) =>
        var pc := c.threads[t];
        if Reading(pc) {
          ReaderOrdered(c, pc);
        } else {
          assert NewAt(c, t);
          OthersOrdered(c, pc, InHand(c.threads[k]));
        }
    }
  }

  /** A thread that does not read publishes its argument or leaves the order alone. */
  lemma OthersOrdered(c: Cell, pc: PC, hand: Ptr)
    requires !Reading(pc) && !Clearing(pc) && InOrder(c.order, c.pending, hand, c.state, c.results)
    requires Argued(pc) != NULL ==> Argued(pc) !in c.order
    ensures var (c', pc') := StepOf(c, pc);
      InOrder(c'.order, c'.pending, hand, c'.state, c'.results) && !HasHand(pc')
  {
    var (c', pc') := StepOf(c, pc);
    if (pc.PushSwapPending? || pc.SetSwapPending?) && pc.p != NULL {
      Publish(c.order, c.pending, hand, c.state, c.results, pc.p);
    } else {
      assert c'.order == c.order && c'.state == c.state && c'.results == c.results;
      assert c'.pending == c.pending || c'.pending == NULL;
    }
  }

  /** A step of the reader takes PENDING into its hand, puts its hand into STATE,
      returns STATE, or does both of the last two. */
  lemma ReaderOrdered(c: Cell, pc: PC)
    requires Reading(pc) && c.state == if Replaced(pc) then Replacement(pc) else LastRead(c)
    requires HasHand(pc) ==> InHand(pc) != NULL
    requires InOrder(c.order, c.pending, InHand(pc), c.state, c.results)
    ensures var (c', pc') := StepOf(c, pc);
      InOrder(c'.order, c'.pending, InHand(pc'), c'.state, c'.results) && (HasHand(pc') ==> InHand(pc') != NULL)
  {
    var (c', pc') := StepOf(c, pc);
    if (pc.PullTakePending? || pc.GetTakePending?) && c.pending != NULL {
      Take(c.order, c.pending, c.state, c.results);
    } else if HasHand(pc) {
      assert InOrder(c.order, c.pending, NULL, InHand(pc), c.results);
      Return(c.order, c.pending, InHand(pc), c.results);
      assert c'.results == c.results || c'.results == c.results + [InHand(pc)];
    } else {
      Return(c.order, c.pending, c.state, c.results);
      assert c'.results == c.results || c'.results == c.results + [c.state];
    }
  }

  lemma {:induction false} OrderedAlong(c: Cell, run: seq<Action>, k: nat)
    requires PossibleRun(c, run) && OneReaderRun(run, k) && Held(c, k) && ArgumentsNew(c) && Ordered(c, k)
    ensures var d := Exec(c, run); Held(d, k) && ArgumentsNew(d) && Ordered(d, k)
    decreases |run|
  {
    if run != [] {
      assert OneReader(run[0], k);
      assert OneReaderRun(run[1..], k);
      StepHeld(c, run[0], k);
      StepArgumentsNew(c, run[0]);
      StepOrdered(c, run[0], k);
      OrderedAlong(Do(c, run[0]), run[1..], k);
    }
  }

  /** Reads never go back: in every run with one reader, a later read returns a
      pointer published no earlier than the one an earlier read returned. */
  lemma ReadsNeverGoBack(n: nat, run: seq<Action>, k: nat, i: nat, j: nat)
    requires PossibleRun(Init(n), run) && OneReaderRun(run, k) && k < n
    requires i <= j < |Exec(Init(n), run).results|
    ensures var c := Exec(Init(n), run); Rank(c.order, c.results[i]) <= Rank(c.order, c.results[j])
  {
    OrderedAlong(Init(n), run, k);
  }

  // --------------------------------------------------------------------------
  // Every call ends after a few steps of its own
  // --------------------------------------------------------------------------

  /** An upper bound on the steps a thread still needs to return. */
  function StepsLeft(pc: PC): nat {
    match pc
    case Idle => 0
    case PushTakeGarbage(_) => 4
    case PushDrop(_, _) => 3
    case PushSwapPending(_) => 2
    case PullTakeGarbage => 5
    case PullDrop(_) => 4
    case PullTakePending => 3
    case PullSwapState(_) => 2
    case GetCheck => 4
    case GetTakePending => 3
    case GetSwapState(_) => 2
    case GetPutGarbage(_, _) => 1
    case SetCheck(_) => 3
    case SetSwapPending(_) => 2
    case SetPutGarbage(_) => 1
    case GcTake => 2
    case ClearTake(slot) => (match slot case Pending => 6 case State => 4 case Garbage => 2)
    case ClearDrop(slot, _) => (match slot case Pending => 5 case State => 3 case Garbage => 1)
    case LoadState => 1
    case FinalDrop(_, _) => 1
  }

  /** The steps thread t does in a run. */
  function OwnSteps(run: seq<Action>, t: nat): nat {
    if run == [] then 0 else (if run[0] == Run(t) then 1 else 0) + OwnSteps(run[1..], t)
  }

  /** The calls thread t starts in a run. */
  function OwnStarts(run: seq<Action>, t: nat): nat {
    if run == [] then 0 else (if run[0].Start? && run[0].t == t then 1 else 0) + OwnStarts(run[1..], t)
  }

  lemma StepsFall(c: Cell, pc: PC)
    requires !pc.Idle?
    ensures StepsLeft(StepOf(c, pc).1) < StepsLeft(pc)
  {
  }

  /** Wait-freedom: whatever the other threads do in between, a thread inside a call
      does at most StepsLeft more steps before that call has returned; a whole call
      takes at most six. */
  lemma {:induction false} CallsAreWaitFree(c: Cell, run: seq<Action>, t: nat)
    requires PossibleRun(c, run) && t < |c.threads|
    ensures OwnSteps(run, t) <= StepsLeft(c.threads[t]) + 6 * OwnStarts(run, t)
    decreases |run|
  {
    if run != [] {
      var d := Do(c, run[0]);
      CallsAreWaitFree(d, run[1..], t);
      match run[0]
      case Start(u, call) => { assert StepsLeft(Entry(call)) <= 6; }
      case Run(u) => { StepsFall(c, c.threads[u]); }
    }
  }

  // --------------------------------------------------------------------------
  // Freshness
  // --------------------------------------------------------------------------

  /** Callers publish real objects. */
  predicate PublishesObjects(a: Action) {
    a.Start? ==> (a.call.Push? ==> a.call.p != NULL) && (a.call.Set? ==> a.call.q != NULL)
  }

  predicate Publishing(pc: PC) {
    pc.PushTakeGarbage? || pc.PushDrop? || pc.PushSwapPending? || pc.SetCheck? || pc.SetSwapPending?
  }

  function Newest(c: Cell, pc: PC): Ptr {
    if c.pending != NULL then c.pending else if HasHand(pc) then InHand(pc) else c.state
  }

  /** The latest published pointer is in PENDING, or in the reader's hand, or in STATE. */
  ghost predicate LatestAtHand(c: Cell, k: nat)
    requires k < |c.threads|
  {
    && (forall t :: 0 <= t < |c.threads| && Publishing(c.threads[t]) ==> Argued(c.threads[t]) != NULL)
    && (HasHand(c.threads[k]) ==> InHand(c.threads[k]) != NULL)
    && (c.order != [] ==> c.order[|c.order| - 1] == Newest(c, c.threads[k]))
  }

  lemma StepLatestAtHand(c: Cell, a: Action, k: nat)
    requires Possible(c, a) && OneReader(a, k) && PublishesObjects(a) && Held(c, k) && LatestAtHand(c, k)
    ensures LatestAtHand(Do(c, a), k)
  {
    if a.Run? {
      var pc := c.threads[a.r];
      PublishingStep(c, pc);
      if Reading(pc) {
        ReaderKeepsLatest(c, pc);
      } else {
        OthersLeaveState(c, pc);
      }
    }
  }

  /** Only publishing threads change the order, and they leave their argument in
      PENDING; other threads that do not read leave PENDING alone. */
  lemma PublishingStep(c: Cell, pc: PC)
    requires Publishing(pc) ==> Argued(pc) != NULL
    ensures var (c', pc') := StepOf(c, pc);
      && (Publishing(pc') ==> Argued(pc') != NULL)
      && (!Reading(pc) && !Clearing(pc) ==>
           && !HasHand(pc')
           && (|| (c'.order == c.order && c'.pending == c.pending)
               || (c'.pending != NULL && c'.order == c.order + [c'.pending])))
  {
  }

  lemma ReaderKeepsLatest(c: Cell, pc: PC)
    requires Reading(pc) && (HasHand(pc) ==> InHand(pc) != NULL)
    ensures var (c', pc') := StepOf(c, pc);
      && c'.order == c.order
      && (HasHand(pc') ==> InHand(pc') != NULL)
      && Newest(c', pc') == Newest(c, pc)
  {
  }

  lemma {:induction false} LatestAlong(c: Cell, run: seq<Action>, k: nat)
    requires PossibleRun(c, run) && OneReaderRun(run, k) && Held(c, k) && LatestAtHand(c, k)
    requires forall i :: 0 <= i < |run| ==> PublishesObjects(run[i])
    ensures var d := Exec(c, run); Held(d, k) && LatestAtHand(d, k)
    decreases |run|
  {
    if run != [] {
      assert OneReader(run[0], k) && PublishesObjects(run[0]);
      assert OneReaderRun(run[1..], k);
      StepHeld(c, run[0], k);
      StepLatestAtHand(c, run[0], k);
      LatestAlong(Do(c, run[0]), run[1..], k);
    }
  }

  /** Thread t goes on alone until its call returns. */
  function Finish(c: Cell, t: nat): Cell
    requires t < |c.threads|
    decreases StepsLeft(c.threads[t])
  {
    if c.threads[t].Idle? then c
    else
      StepsFall(c, c.threads[t]);
      Finish(Do(c, Run(t)), t)
  }

  /** A whole call of thread t with no other thread in between. */
  function CallAlone(c: Cell, t: nat, call: Call): Cell
    requires Possible(c, Start(t, call))
  {
    Finish(Do(c, Start(t, call)), t)
  }

  lemma GetAlone(c: Cell, k: nat)
    requires Possible(c, Start(k, Get))
    ensures CallAlone(c, k, Get).results
      == c.results + [if c.garbage != NULL || c.pending == NULL then c.state else c.pending]
  {
    var c1 := Do(c, Start(k, Get));
    var c2 := Do(c1, Run(k));
    assert Finish(c1, k) == Finish(c2, k);
    if c.garbage == NULL {
      var c3 := Do(c2, Run(k));
      assert Finish(c2, k) == Finish(c3, k);
      if c.pending != NULL {
        var c4 := Do(c3, Run(k));
        assert Finish(c3, k) == Finish(c4, k);
        if c.state != NULL { assert Finish(c4, k) == Do(c4, Run(k)); }
      } else {
        assert Finish(c3, k) == Do(c3, Run(k));
      }
    } else {
      assert Finish(c2, k) == Do(c2, Run(k));
    }
  }

  lemma PullAlone(c: Cell, k: nat)
    requires Possible(c, Start(k, Pull))
    ensures CallAlone(c, k, Pull).results == c.results + [if c.pending == NULL then c.state else c.pending]
  {
    var c1 := Do(c, Start(k, Pull));
    var c2 := Do(c1, Run(k));
    var c3 := Do(c2, Run(k));
    var c4 := Do(c3, Run(k));
    assert Finish(c1, k) == Finish(c2, k) == Finish(c3, k) == Finish(c4, k);
    if c.pending != NULL {
      var c5 := Do(c4, Run(k));
      assert Finish(c4, k) == Finish(c5, k) == Do(c5, Run(k));
    } else {
      assert Finish(c4, k) == Do(c4, Run(k));
    }
  }

  /** Freshness of get: after any run with one reader that publishes objects, a get
      that is not interrupted returns the latest published pointer exactly when
      GARBAGE is empty or nothing is pending. */
  lemma GetReturnsLatest(n: nat, run: seq<Action>, k: nat)
    requires PossibleRun(Init(n), run) && OneReaderRun(run, k) && k < n
    requires forall i :: 0 <= i < |run| ==> PublishesObjects(run[i])
    requires Possible(Exec(Init(n), run), Start(k, Get)) && Exec(Init(n), run).order != []
    ensures var c := Exec(Init(n), run);
      LastRead(CallAlone(c, k, Get)) == c.order[|c.order| - 1] <==> c.garbage == NULL || c.pending == NULL
  {
    var c := Exec(Init(n), run);
    LatestAlong(Init(n), run, k);
    OrderedAlong(Init(n), run, k);
    GetAlone(c, k);
  }

  /** Freshness of pull: it always returns the latest published pointer. */
  lemma PullReturnsLatest(n: nat, run: seq<Action>, k: nat)
    requires PossibleRun(Init(n), run) && OneReaderRun(run, k) && k < n
    requires forall i :: 0 <= i < |run| ==> PublishesObjects(run[i])
    requires Possible(Exec(Init(n), run), Start(k, Pull)) && Exec(Init(n), run).order != []
    ensures var c := Exec(Init(n), run); LastRead(CallAlone(c, k, Pull)) == c.order[|c.order| - 1]
  {
    LatestAlong(Init(n), run, k);
    PullAlone(Exec(Init(n), run), k);
  }

  /** One slot of clear: its pointer goes to the deleter. */
  function SlotCleared(c: Cell, t: nat, slot: Slot): Cell
    requires t < |c.threads|
  {
    var (g, c') := Taken(c, slot);
    c'.(deleted := Cleanup(c.deleted, g), threads := c.threads[t := AfterSlot(slot)])
  }

  function AfterSlot(slot: Slot): PC {
    match slot case Pending => ClearTake(State) case State => ClearTake(Garbage) case Garbage => Idle
  }

  lemma ClearSlotAlone(c: Cell, t: nat, slot: Slot)
    requires t < |c.threads| && c.threads[t] == ClearTake(slot)
    ensures Finish(c, t) == Finish(SlotCleared(c, t, slot), t)
  {
    var (g, c') := Taken(c, slot);
    var c1 := Do(c, Run(t));
    assert c1 == c'.(threads := c.threads[t := ClearDrop(slot, g)]);
    assert Finish(c, t) == Finish(c1, t);
    var c2 := Do(c1, Run(t));
    assert c2.threads == c.threads[t := AfterSlot(slot)];
    assert Finish(c1, t) == Finish(c2, t);
  }

  /** clear hands the three slots to the deleter. */
  lemma ClearAlone(c: Cell, t: nat, x: Ptr)
    requires Possible(c, Start(t, Clear)) && x != NULL
    ensures var d := CallAlone(c, t, Clear);
      d.refused == c.refused && d.deleted[x] == c.deleted[x] + At(c.pending, x) + At(c.state, x) + At(c.garbage, x)
  {
    var c1 := Do(c, Start(t, Clear));
    ClearSlotAlone(c1, t, Pending);
    var c2 := SlotCleared(c1, t, Pending);
    ClearSlotAlone(c2, t, State);
    var c3 := SlotCleared(c2, t, State);
    ClearSlotAlone(c3, t, Garbage);
  }

  /** clear, called while no other thread runs, reclaims everything: every pointer
      ever published was deleted once, or is with the caller whose set was refused. */
  lemma ClearReclaimsAll(n: nat, run: seq<Action>, t: nat, x: Ptr)
    requires PossibleRun(Init(n), run) && DisciplinedRun(Init(n), run) && t < n && x != NULL
    requires forall u :: 0 <= u < |Exec(Init(n), run).threads| ==> Exec(Init(n), run).threads[u].Idle?
    requires Possible(Exec(Init(n), run), Start(t, Clear))
    ensures var c := Exec(Init(n), run); var d := CallAlone(c, t, Clear);
      d.deleted[x] + d.refused[x] == if x in c.issued then 1 else 0
  {
    var c := Exec(Init(n), run);
    EveryPointerInOnePlace(n, run, x);
    LocalsNone(c.threads, x);
    ClearAlone(c, t, x);
  }
}
