/** The object of src/main/state.cpp with its own fields, for one thread at a time.

    Every method performs the swaps and loads of the source on the fields, and a
    ghost `cell` of the transition system takes one step at each of them.  The
    slots agree with the fields after every atomic operation, so the programs that
    the other modules interleave are the ones these bodies run. */
module RawState {
  import opened Basics
  import opened StateCell
  import opened StateCellReader

  class RawState {
    var pending: Ptr
    var state: Ptr
    var garbage: Ptr
    ghost var handed: multiset<Ptr>   // what the deleter was called with
    ghost var cell: Cell
    ghost var end: Cell               // where the call in progress will leave the cell

    /** Going on alone from c leads to e. (The thread number is quantified only to
        keep the verifier from unfolding the whole call at every step.) */
    static ghost predicate EndsIn(c: Cell, e: Cell) {
      forall t :: 0 <= t < |c.threads| ==> Finish(c, t) == e
    }

    /** The fields agree with the cell, whose only thread stands at pc. */
    ghost predicate At(pc: PC)
      reads this
    {
      && cell.threads == [pc]
      && cell.pending == pending && cell.state == state && cell.garbage == garbage
      && cell.deleted == handed
    }

    ghost predicate Valid()
      reads this
    {
      At(Idle)
    }

    constructor ()
      ensures Valid() && cell == Init(1)
    {
      pending, state, garbage := NULL, NULL, NULL;
      handed := multiset{};
      cell := Init(1);
    }

    /** The thread's step of the transition system, done at pc after the fields
        were changed the same way; it stands at next then. */
    ghost method Tick(pc: PC, next: PC)
      requires cell.threads == [pc] && !pc.Idle? && StepOf(cell, pc).1 == next && EndsIn(cell, end)
      requires var c := StepOf(cell, pc).0;
        c.pending == pending && c.state == state && c.garbage == garbage && c.deleted == handed
      modifies `cell
      ensures At(next) && EndsIn(cell, end) && (next.Idle? ==> cell == end)
      ensures cell.results == StepOf(old(cell), pc).0.results
    {
      assert Finish(cell, 0) == Finish(Do(cell, Run(0)), 0);
      cell := Do(cell, Run(0));
    }

    ghost method Begin(call: Call)
      requires Valid() && Publishable(cell, call)
      modifies `cell, `end
      ensures At(Entry(call)) && EndsIn(cell, end) && end == CallAlone(old(cell), 0, call)
      ensures cell.results == old(cell.results)
    {
      end := CallAlone(cell, 0, call);
      cell := Do(cell, Start(0, call));
    }

    method SwapPending(p: Ptr) returns (r: Ptr)
      modifies `pending
      ensures r == old(pending) && pending == p
    {
      r := pending;
      pending := p;
    }

    method SwapState(p: Ptr) returns (r: Ptr)
      modifies `state
      ensures r == old(state) && state == p
    {
      r := state;
      state := p;
    }

    method SwapGarbage(p: Ptr) returns (r: Ptr)
      modifies `garbage
      ensures r == old(garbage) && garbage == p
    {
      r := garbage;
      garbage := p;
    }

    method Drop(g: Ptr)
      modifies `handed
      ensures handed == Cleanup(old(handed), g)
    {
      if g == NULL { return; }
      handed := handed[g := handed[g] + 1];
    }

    /** The first two steps of push and pull: take GARBAGE and clean it up. */
    method CleanGarbage(ghost from: PC, ghost next: PC)
      requires At(from) && EndsIn(cell, end)
      requires (from.PushTakeGarbage? && next == PushSwapPending(from.p)) || (from.PullTakeGarbage? && next.PullTakePending?)
      modifies `garbage, `handed, `cell
      ensures At(next) && EndsIn(cell, end) && garbage == NULL && handed == Cleanup(old(handed), old(garbage))
      ensures cell.results == old(cell.results)
    {
      var g := SwapGarbage(NULL);
      ghost var mid := if from.PullTakeGarbage? then PullDrop(g) else PushDrop(from.p, g);
      Tick(from, mid);
      Drop(g);
      Tick(mid, next);
    }

    method GcNow()
      requires Valid()
      modifies this
      ensures Valid() && cell == CallAlone(old(cell), 0, Gc)
      ensures garbage == NULL && pending == old(pending) && state == old(state)
      ensures handed == Cleanup(old(handed), old(garbage))
    {
      Begin(Gc);
      var g := SwapGarbage(NULL);
      Tick(GcTake, FinalDrop(g, None));
      Drop(g);
      Tick(FinalDrop(g, None), Idle);
    }

    method PushObject(p: Ptr)
      requires Valid() && Publishable(cell, Push(p))
      modifies this
      ensures Valid() && cell == CallAlone(old(cell), 0, Push(p))
      ensures pending == p && garbage == NULL && state == old(state)
      ensures handed == Cleanup(Cleanup(old(handed), old(garbage)), old(pending))
    {
      Begin(Push(p));
      CleanGarbage(PushTakeGarbage(p), PushSwapPending(p));
      var g := SwapPending(p);
      Tick(PushSwapPending(p), FinalDrop(g, None));
      Drop(g);
      Tick(FinalDrop(g, None), Idle);
    }

    method PullObject() returns (r: Ptr)
      requires Valid()
      modifies this
      ensures Valid() && cell == CallAlone(old(cell), 0, Pull) && r == LastRead(cell)
      ensures r == (if old(pending) == NULL then old(state) else old(pending))
      ensures state == r && pending == NULL && garbage == NULL
      ensures handed == Cleanup(Cleanup(old(handed), old(garbage)), if old(pending) == NULL then NULL else old(state))
    {
      Begin(Pull);
      CleanGarbage(PullTakeGarbage, PullTakePending);
      r := PullPending();
    }

    /** The rest of pull, after it cleaned GARBAGE. */
    method PullPending() returns (r: Ptr)
      requires At(PullTakePending) && EndsIn(cell, end)
      modifies `pending, `state, `handed, `cell
      ensures Valid() && cell == end && r == LastRead(cell)
      ensures r == (if old(pending) == NULL then old(state) else old(pending))
      ensures state == r && pending == NULL
      ensures handed == Cleanup(old(handed), if old(pending) == NULL then NULL else old(state))
    {
      var n := SwapPending(NULL);
      Tick(PullTakePending, if n == NULL then LoadState else PullSwapState(n));
      if n == NULL {
        Tick(LoadState, Idle);
        return state;
      }
      var g := SwapState(n);
      Tick(PullSwapState(n), FinalDrop(g, Some(n)));
      Drop(g);
      Tick(FinalDrop(g, Some(n)), Idle);
      return n;
    }

    method GetObject() returns (r: Ptr)
      requires Valid()
      modifies this
      ensures Valid() && cell == CallAlone(old(cell), 0, Get) && r == LastRead(cell)
      ensures r == (if old(garbage) != NULL || old(pending) == NULL then old(state) else old(pending))
      ensures state == r && handed == old(handed)
      ensures pending == if old(garbage) != NULL then old(pending) else NULL
      ensures garbage == if old(garbage) != NULL || old(pending) == NULL then old(garbage) else old(state)
    {
      Begin(Get);
      Tick(GetCheck, if garbage != NULL then LoadState else GetTakePending);
      if garbage != NULL {
        Tick(LoadState, Idle);
        return state;
      }
      r := GetPending();
    }

    /** The rest of get, after it found GARBAGE empty. */
    method GetPending() returns (r: Ptr)
      requires At(GetTakePending) && EndsIn(cell, end) && garbage == NULL
      modifies `pending, `state, `garbage, `cell
      ensures Valid() && cell == end && r == LastRead(cell)
      ensures r == (if old(pending) == NULL then old(state) else old(pending))
      ensures state == r && pending == NULL
      ensures garbage == if old(pending) == NULL then NULL else old(state)
    {
      var n := SwapPending(NULL);
      Tick(GetTakePending, if n == NULL then LoadState else GetSwapState(n));
      if n == NULL {
        Tick(LoadState, Idle);
        return state;
      }
      var g := SwapState(n);
      Tick(GetSwapState(n), if g == NULL then Idle else GetPutGarbage(g, n));
      if g == NULL {
        return n;
      }
      var discarded := SwapGarbage(g);
      Tick(GetPutGarbage(g, n), Idle);
      return n;
    }

    method SetObject(p: Ptr) returns (ok: bool)
      requires Valid() && Publishable(cell, Set(p))
      modifies this
      ensures Valid() && cell == CallAlone(old(cell), 0, Set(p))
      ensures ok == (old(garbage) == NULL) && state == old(state) && handed == old(handed)
      ensures ok ==> pending == p && garbage == old(pending)
      ensures !ok ==> pending == old(pending) && garbage == old(garbage)
    {
      Begin(Set(p));
      Tick(SetCheck(p), if garbage != NULL then Idle else SetSwapPending(p));
      if garbage != NULL {
        return false;
      }
      var g := SwapPending(p);
      Tick(SetSwapPending(p), if g == NULL then Idle else SetPutGarbage(g));
      if g == NULL {
        return true;
      }
      var discarded := SwapGarbage(g);
      Tick(SetPutGarbage(g), Idle);
      return true;
    }

    method ClearSlot(slot: Slot, ghost next: PC)
      requires At(ClearTake(slot)) && EndsIn(cell, end)
      requires next == match slot
        case Pending => ClearTake(Slot.State) case State => ClearTake(Slot.Garbage) case Garbage => Idle
      modifies `pending, `state, `garbage, `handed, `cell
      ensures At(next) && EndsIn(cell, end) && (next.Idle? ==> cell == end)
      ensures pending == if slot.Pending? then NULL else old(pending)
      ensures state == if slot.State? then NULL else old(state)
      ensures garbage == if slot.Garbage? then NULL else old(garbage)
      ensures handed == Cleanup(old(handed),
        match slot case Pending => old(pending) case State => old(state) case Garbage => old(garbage))
    {
      var g;
      match slot {
        case Pending => g := SwapPending(NULL);
        case State => g := SwapState(NULL);
        case Garbage => g := SwapGarbage(NULL);
      }
      Tick(ClearTake(slot), ClearDrop(slot, g));
      Drop(g);
      Tick(ClearDrop(slot, g), next);
    }

    method ClearAll()
      requires Valid()
      modifies this
      ensures Valid() && cell == CallAlone(old(cell), 0, Clear)
      ensures pending == NULL && state == NULL && garbage == NULL
      ensures handed == Cleanup(Cleanup(Cleanup(old(handed), old(pending)), old(state)), old(garbage))
    {
      Begin(Clear);
      ClearSlot(Slot.Pending, ClearTake(Slot.State));
      ClearSlot(Slot.State, ClearTake(Slot.Garbage));
      ClearSlot(Slot.Garbage, Idle);
    }
  }
}
