/** The cell of src/main/state.cpp as a transition system. */
module StateCell {
  /* The three slots PENDING, STATE and GARBAGE hand objects from one thread to another
     and are shared by any number of threads.  Every call is a short program over them,
     and one action of the system is one atomic swap or load of that program, one
     hand-over to the deleter, or the start of a call.  Steps of different threads
     interleave in any order. */

  import opened Basics

  datatype Call = Push(p: Ptr) | Set(q: Ptr) | Pull | Get | Gc | Clear

  /** Where a thread stands inside a call, with the pointers held in its locals.
      A pointer handed out by `get` while it also sits in STATE is a loan, not a
      holding, so it is not part of `Local` below. */
  datatype PC =
    | Idle
    | PushTakeGarbage(p: Ptr)
    | PushDrop(p: Ptr, g: Ptr)
    | PushSwapPending(p: Ptr)
    | PullTakeGarbage
    | PullDrop(g: Ptr)
    | PullTakePending
    | PullSwapState(n: Ptr)
    | GetCheck
    | GetTakePending
    | GetSwapState(n: Ptr)
    | GetPutGarbage(g: Ptr, lent: Ptr)
    | SetCheck(p: Ptr)
    | SetSwapPending(p: Ptr)
    | SetPutGarbage(g: Ptr)
    | GcTake
    | ClearTake(slot: Slot)
    | ClearDrop(slot: Slot, g: Ptr)
    | LoadState                                 // load STATE and return it to the reader
    | FinalDrop(g: Ptr, read: Option<Ptr>)      // last cleanup of a call, then return

  datatype Slot = Pending | State | Garbage

  /** The shared slots, every thread, and the history the properties speak about:
      `issued` are the pointers ever passed to push or set, `order` the pointers
      swapped into PENDING in the order of those swaps, `deleted` what cleanup
      received, `refused` what a failed set left with its caller until it is published again, and `results` the
      values returned by get and pull. */
  datatype Cell = Cell(
    pending: Ptr, state: Ptr, garbage: Ptr,
    threads: seq<PC>,
    issued: set<Ptr>, order: seq<Ptr>,
    deleted: multiset<Ptr>, refused: multiset<Ptr>, results: seq<Ptr>)

  datatype Action = Start(t: nat, call: Call) | Run(r: nat)

  // --------------------------------------------------------------------------
  // The program of every call, one atomic operation at a time
  // --------------------------------------------------------------------------

  function Entry(call: Call): PC {
    match call
    case Push(p) => PushTakeGarbage(p)
    case Set(q) => SetCheck(q)
    case Pull => PullTakeGarbage
    case Get => GetCheck
    case Gc => GcTake
    case Clear => ClearTake(Pending)
  }

  function Argument(call: Call): set<Ptr> {
    match call
    case Push(p) => if p == NULL then {} else {p}
    case Set(q) => if q == NULL then {} else {q}
    case _ => {}
  }

  /** What cleanup does: NULL is ignored, anything else goes to the deleter. */
  function Cleanup(deleted: multiset<Ptr>, g: Ptr): multiset<Ptr> {
    if g == NULL then deleted else deleted[g := deleted[g] + 1]
  }

  /** Take what a slot holds and leave NULL there. */
  function Taken(c: Cell, slot: Slot): (Ptr, Cell) {
    match slot
    case Pending => (c.pending, c.(pending := NULL))
    case State => (c.state, c.(state := NULL))
    case Garbage => (c.garbage, c.(garbage := NULL))
  }

  /** One step of a thread: the new shared part, and where the thread stands then. */
  function StepOf(c: Cell, pc: PC): (r: (Cell, PC)) {
    match pc
    case Idle => (c, Idle)
    case PushTakeGarbage(p) => (c.(garbage := NULL), PushDrop(p, c.garbage))
    case PushDrop(p, g) => (c.(deleted := Cleanup(c.deleted, g)), PushSwapPending(p))
    case PushSwapPending(p) => (Swapped(c, p), FinalDrop(c.pending, None))
    case PullTakeGarbage => (c.(garbage := NULL), PullDrop(c.garbage))
    case PullDrop(g) => (c.(deleted := Cleanup(c.deleted, g)), PullTakePending)
    case PullTakePending =>
      (c.(pending := NULL), if c.pending == NULL then LoadState else PullSwapState(c.pending))
    case PullSwapState(n) => (c.(state := n), FinalDrop(c.state, Some(n)))
    case GetCheck => (c, if c.garbage != NULL then LoadState else GetTakePending)
    case GetTakePending =>
      (c.(pending := NULL), if c.pending == NULL then LoadState else GetSwapState(c.pending))
    case GetSwapState(n) =>
      if c.state == NULL then (c.(state := n, results := c.results + [n]), Idle)
      else (c.(state := n), GetPutGarbage(c.state, n))
    case GetPutGarbage(g, n) => (c.(garbage := g, results := c.results + [n]), Idle)
    case SetCheck(p) =>
      if c.garbage != NULL then (c.(refused := Cleanup(c.refused, p)), Idle) else (c, SetSwapPending(p))
    case SetSwapPending(p) =>
      (Swapped(c, p), if c.pending == NULL then Idle else SetPutGarbage(c.pending))
    case SetPutGarbage(g) => (c.(garbage := g), Idle)
    case GcTake => (c.(garbage := NULL), FinalDrop(c.garbage, None))
    case ClearTake(slot) => var (g, c') := Taken(c, slot); (c', ClearDrop(slot, g))
    case ClearDrop(slot, g) =>
      (c.(deleted := Cleanup(c.deleted, g)),
       match slot case Pending => ClearTake(State) case State => ClearTake(Garbage) case Garbage => Idle)
    case LoadState => (c.(results := c.results + [c.state]), Idle)
    case FinalDrop(g, read) =>
      (c.(deleted := Cleanup(c.deleted, g), results := if read.Some? then c.results + [read.value] else c.results), Idle)
  }

  /** The swap that publishes a pointer. */
  function Swapped(c: Cell, p: Ptr): Cell {
    c.(pending := p, order := if p == NULL then c.order else c.order + [p])
  }

  /** A refused pointer that its caller publishes again is not with the caller any more. */
  function TakenBack(refused: multiset<Ptr>, call: Call): multiset<Ptr> {
    match call
    case Push(p) => if p in refused then refused[p := refused[p] - 1] else refused
    case Set(q) => if q in refused then refused[q := refused[q] - 1] else refused
    case _ => refused
  }

  function Do(c: Cell, a: Action): Cell
    requires Possible(c, a)
  {
    match a
    case Start(t, call) =>
      c.(threads := c.threads[t := Entry(call)], issued := c.issued + Argument(call),
         refused := TakenBack(c.refused, call))
    case Run(t) =>
      var (c', pc) := StepOf(c, c.threads[t]);
      c'.(threads := c.threads[t := pc])
  }

  /** A caller publishes a pointer that was never published before, or one that a set
      has refused and so left with its caller. */
  predicate Publishable(c: Cell, call: Call) {
    forall p :: p in Argument(call) ==> p !in c.issued || p in c.refused
  }

  /** What any caller can do: an idle thread starts a call; a busy thread does its next
      step. */
  predicate Possible(c: Cell, a: Action) {
    match a
    case Start(t, call) => t < |c.threads| && c.threads[t].Idle? && Publishable(c, call)
    case Run(t) => t < |c.threads| && !c.threads[t].Idle?
  }

  function Exec(c: Cell, run: seq<Action>): Cell
    requires PossibleRun(c, run)
    decreases |run|
  {
    if run == [] then c else Exec(Do(c, run[0]), run[1..])
  }

  predicate PossibleRun(c: Cell, run: seq<Action>)
    decreases |run|
  {
    run == [] || (Possible(c, run[0]) && PossibleRun(Do(c, run[0]), run[1..]))
  }

  function Init(n: nat): Cell {
    Cell(NULL, NULL, NULL, seq(n, _ => Idle), {}, [], multiset{}, multiset{}, [])
  }

  // --------------------------------------------------------------------------
  // The ledger: nothing is lost, nothing is deleted twice
  // --------------------------------------------------------------------------

  /** How often a pointer is in a slot or a local variable. */
  function At(slot: Ptr, p: Ptr): nat {
    if slot == p then 1 else 0
  }

  /** How often a thread owns a pointer in its locals. */
  function Local(pc: PC, x: Ptr): nat {
    match pc
    case PushTakeGarbage(p) => At(p, x)
    case PushDrop(p, g) => At(p, x) + At(g, x)
    case PushSwapPending(p) => At(p, x)
    case PullDrop(g) => At(g, x)
    case PullSwapState(n) => At(n, x)
    case GetSwapState(n) => At(n, x)
    case GetPutGarbage(g, _) => At(g, x)
    case SetCheck(p) => At(p, x)
    case SetSwapPending(p) => At(p, x)
    case SetPutGarbage(g) => At(g, x)
    case ClearDrop(_, g) => At(g, x)
    case FinalDrop(g, _) => At(g, x)
    case _ => 0
  }

  function Locals(threads: seq<PC>, x: Ptr): nat {
    if threads == [] then 0 else Local(threads[0], x) + Locals(threads[1..], x)
  }

  /** The places outside the threads: the three slots, the deleter's past input, and
      what failed sets left with their callers. */
  function Shared(c: Cell, x: Ptr): nat {
    At(c.pending, x) + At(c.state, x) + At(c.garbage, x) + c.deleted[x] + c.refused[x]
  }

  /** In how many places a pointer is. */
  function Places(c: Cell, x: Ptr): nat {
    Shared(c, x) + Locals(c.threads, x)
  }

  /** Each published pointer is in exactly one place, and no other pointer anywhere. */
  ghost predicate Balanced(c: Cell) {
    && NULL !in c.issued
    && forall x :: x != NULL ==> Places(c, x) == if x in c.issued then 1 else 0
  }

  /** Inside the calls get or set, which may only be run by one thread at a time. */
  predicate RealTime(pc: PC) {
    pc.GetCheck? || pc.SetCheck? || PastCheck(pc)
  }

  /** Inside get or set after it found GARBAGE empty, and before it fills it. */
  predicate PastCheck(pc: PC) {
    pc.GetTakePending? || pc.GetSwapState? || pc.GetPutGarbage? || pc.SetSwapPending? || pc.SetPutGarbage?
  }

  /** The discipline of include/lsp-plug.in/lltl/state.h: no two threads are inside
      get or set at the same time. */
  predicate Disciplined(c: Cell, a: Action) {
    a.Start? && (a.call.Get? || a.call.Set?) ==>
      forall u :: 0 <= u < |c.threads| ==> !RealTime(c.threads[u])
  }

  predicate DisciplinedRun(c: Cell, run: seq<Action>)
    requires PossibleRun(c, run)
    decreases |run|
  {
    run == [] || (Disciplined(c, run[0]) && DisciplinedRun(Do(c, run[0]), run[1..]))
  }

  ghost predicate OneRealTime(c: Cell) {
    && (forall t, u :: 0 <= t < u < |c.threads| ==> !(RealTime(c.threads[t]) && RealTime(c.threads[u])))
    && (forall t :: 0 <= t < |c.threads| && PastCheck(c.threads[t]) ==> c.garbage == NULL)
  }

  lemma {:induction false} LocalsUpdate(threads: seq<PC>, t: nat, pc: PC, x: Ptr)
    requires t < |threads|
    ensures Locals(threads[t := pc], x) == Locals(threads, x) - Local(threads[t], x) + Local(pc, x)
  {
    if t == 0 {
      assert threads[t := pc][1..] == threads[1..];
    } else {
      LocalsUpdate(threads[1..], t - 1, pc, x);
      assert threads[t := pc][1..] == threads[1..][t - 1 := pc];
    }
  }

  lemma {:induction false} LocalsNone(threads: seq<PC>, x: Ptr)
    requires forall t :: 0 <= t < |threads| ==> Local(threads[t], x) == 0
    ensures Locals(threads, x) == 0
  {
    if threads != [] { LocalsNone(threads[1..], x); }
  }

  /** The action is the swap into GARBAGE whose old value the code discards, and
      that value is a live pointer. */
  predicate Overwrites(c: Cell, a: Action)
    requires Possible(c, a)
  {
    a.Run? && (c.threads[a.r].GetPutGarbage? || c.threads[a.r].SetPutGarbage?) && c.garbage != NULL
  }

  /** The value a step discards: what the swaps into GARBAGE find there. */
  function Discards(c: Cell, pc: PC, x: Ptr): nat {
    if pc.GetPutGarbage? || pc.SetPutGarbage? then At(c.garbage, x) else 0
  }

  /** A step only moves pointers between the thread and the shared part, but for what
      it discards. */
  ghost predicate Moves(c: Cell, pc: PC, x: Ptr) {
    var (c', pc') := StepOf(c, pc);
    Shared(c', x) + Local(pc', x) + Discards(c, pc, x) == Shared(c, x) + Local(pc, x)
  }

  lemma PublishMoves(c: Cell, pc: PC, x: Ptr)
    requires x != NULL && (pc.PushTakeGarbage? || pc.PushDrop? || pc.PushSwapPending? || pc.SetCheck? || pc.SetSwapPending? || pc.SetPutGarbage?)
    ensures Moves(c, pc, x)
  {
  }

  lemma ReadMoves(c: Cell, pc: PC, x: Ptr)
    requires x != NULL
    requires pc.PullTakeGarbage? || pc.PullDrop? || pc.PullTakePending? || pc.PullSwapState?
      || pc.GetCheck? || pc.GetTakePending? || pc.GetSwapState? || pc.GetPutGarbage? || pc.LoadState?
    ensures Moves(c, pc, x)
  {
  }

  lemma CollectMoves(c: Cell, pc: PC, x: Ptr)
    requires x != NULL && (pc.Idle? || pc.GcTake? || pc.ClearTake? || pc.ClearDrop? || pc.FinalDrop?)
    ensures Moves(c, pc, x)
  {
  }

  lemma StepMoves(c: Cell, pc: PC, x: Ptr)
    requires x != NULL
    ensures Moves(c, pc, x)
  {
    if pc.PushTakeGarbage? || pc.PushDrop? || pc.PushSwapPending? || pc.SetCheck? || pc.SetSwapPending? || pc.SetPutGarbage? {
      PublishMoves(c, pc, x);
    } else if pc.Idle? || pc.GcTake? || pc.ClearTake? || pc.ClearDrop? || pc.FinalDrop? {
      CollectMoves(c, pc, x);
    } else {
      ReadMoves(c, pc, x);
    }
  }

  /** The start of a call brings a new pointer in, and moves a refused one back into the
      thread. */
  lemma StartPlaces(c: Cell, t: nat, call: Call, x: Ptr)
    requires Possible(c, Start(t, call)) && x != NULL
    ensures Places(Do(c, Start(t, call)), x) == Places(c, x) + (if x in Argument(call) && x !in c.refused then 1 else 0)
  {
    LocalsUpdate(c.threads, t, Entry(call), x);
  }

  lemma StepPlaces(c: Cell, a: Action, x: Ptr)
    requires Possible(c, a) && x != NULL
    ensures Places(Do(c, a), x) == Places(c, x)
      + (if a.Start? && x in Argument(a.call) && x !in c.refused then 1 else 0)
      - (if Overwrites(c, a) then At(c.garbage, x) else 0)
  {
    match a {
      case Start(t, call) =>
        StartPlaces(c, t, call, x);
      case Run(t) =>
        LocalsUpdate(c.threads, t, StepOf(c, c.threads[t]).1, x);
        StepMoves(c, c.threads[t], x);
    }
  }

  /** Conservation, step by step and without any discipline: a step keeps the
      ledger balanced exactly when it is not a discarding swap over a live pointer. */
  lemma StepLedger(c: Cell, a: Action)
    requires Possible(c, a) && Balanced(c)
    ensures Balanced(Do(c, a)) <==> !Overwrites(c, a)
    ensures Overwrites(c, a) ==> Lost(Do(c, a), c.garbage)
  {
    var d := Do(c, a);
    forall x | x != NULL
      ensures Places(d, x) == (if x in d.issued then 1 else 0) - (if Overwrites(c, a) then At(c.garbage, x) else 0)
    {
      StepPlaces(c, a, x);
    }
    if Overwrites(c, a) {
      assert Places(d, c.garbage) == (if c.garbage in d.issued then 1 else 0) - 1;
    }
  }

  /** A published pointer that is in no place at all. */
  ghost predicate Lost(c: Cell, x: Ptr) {
    x != NULL && x in c.issued && Places(c, x) == 0
  }

  /** What is lost stays lost. */
  lemma {:induction false} LostForGood(c: Cell, run: seq<Action>, x: Ptr)
    requires PossibleRun(c, run) && Lost(c, x)
    ensures Lost(Exec(c, run), x)
    decreases |run|
  {
    if run != [] {
      StepPlaces(c, run[0], x);
      LostForGood(Do(c, run[0]), run[1..], x);
    }
  }

  /** Some step of the run is a discarding swap over a live pointer. */
  predicate OverwritesAlong(c: Cell, run: seq<Action>)
    requires PossibleRun(c, run)
    decreases |run|
  {
    run != [] && (Overwrites(c, run[0]) || OverwritesAlong(Do(c, run[0]), run[1..]))
  }

  /** The ledger without any discipline, for every interleaving: it is balanced at the end
      of a run exactly if no step of the run was a discarding swap over a live pointer. */
  lemma {:induction false} LedgerExactly(c: Cell, run: seq<Action>)
    requires PossibleRun(c, run) && Balanced(c)
    ensures Balanced(Exec(c, run)) <==> !OverwritesAlong(c, run)
    decreases |run|
  {
    if run != [] {
      var d := Do(c, run[0]);
      StepLedger(c, run[0]);
      if Overwrites(c, run[0]) {
        LostForGood(d, run[1..], c.garbage);
      } else {
        LedgerExactly(d, run[1..]);
      }
    }
  }

  lemma StepOneRealTime(c: Cell, a: Action)
    requires Possible(c, a) && Disciplined(c, a) && OneRealTime(c)
    ensures OneRealTime(Do(c, a)) && !Overwrites(c, a)
  {
    match a {
      case Start(t, call) =>
      case Run(t) =>
        StepRealTime(c, c.threads[t]);
    }
  }

  /** A thread enters get or set only by starting the call, passes the check only
      over an empty GARBAGE, and only leaves a pointer in GARBAGE when it returns. */
  lemma StepRealTime(c: Cell, pc: PC)
    ensures var (c', pc') := StepOf(c, pc);
      && (RealTime(pc') ==> RealTime(pc))
      && (PastCheck(pc') ==> PastCheck(pc) || c.garbage == NULL)
      && (c'.garbage != NULL && c'.garbage != c.garbage ==> PastCheck(pc) && !RealTime(pc'))
  {
  }

  /** The discipline of get and set rules the discarding swaps out. */
  lemma {:induction false} NeverOverwrites(c: Cell, run: seq<Action>)
    requires PossibleRun(c, run) && DisciplinedRun(c, run) && OneRealTime(c)
    ensures !OverwritesAlong(c, run) && OneRealTime(Exec(c, run))
    decreases |run|
  {
    if run != [] {
      StepOneRealTime(c, run[0]);
      NeverOverwrites(Do(c, run[0]), run[1..]);
    }
  }

  /** The ledger, for every interleaving of any number of threads that keeps the
      discipline of get and set. */
  lemma LedgerAlong(c: Cell, run: seq<Action>)
    requires PossibleRun(c, run) && DisciplinedRun(c, run)
    requires Balanced(c) && OneRealTime(c)
    ensures Balanced(Exec(c, run)) && OneRealTime(Exec(c, run))
  {
    NeverOverwrites(c, run);
    LedgerExactly(c, run);
  }

  lemma InitBalanced(n: nat)
    ensures Balanced(Init(n)) && OneRealTime(Init(n))
  {
    forall x | x != NULL ensures Places(Init(n), x) == 0 {
      LocalsNone(Init(n).threads, x);
    }
  }

  /** Main result: after any disciplined run, every published pointer is in exactly
      one of PENDING, STATE, GARBAGE, one thread's locals, the deleter's past input
      or the refused ones; so none is lost and none is deleted twice. */
  lemma EveryPointerInOnePlace(n: nat, run: seq<Action>, x: Ptr)
    requires PossibleRun(Init(n), run) && DisciplinedRun(Init(n), run)
    requires x != NULL
    ensures var c := Exec(Init(n), run); Places(c, x) == if x in c.issued then 1 else 0
  {
    InitBalanced(n);
    LedgerAlong(Init(n), run);
  }
}
