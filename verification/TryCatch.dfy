/**
 Structured try/catch, and the proof that the handler-pointer machine of Programs.dfy is
 exactly that: no jump, no pointer and no stack appear in this semantics.
 */
module TryCatch {
  import opened Basics
  import opened Programs

  datatype Outcome = Returned(s: Status, mem: Memory) | Raised(mem: Memory) | Dead

  /**
   Big-step semantics with at most n nested evaluations; None when n is too small. An
   outcome, once found, does not depend on n (EvalStable).
   */
  function Eval(n: nat, p: Prog, mem: Memory): Option<Outcome>
    decreases n, 0
  {
    if n == 0 then None else
      match p
      case Return(s) => Some(Returned(s, mem))
      case Access(update, next) => Eval(n - 1, next(mem.data), mem.(data := update(mem.data)))
      case Report(severity, e, after) =>
        (match severity
         case Exception => Some(if e.status == 0 then Dead else Raised(mem.Throw(e)))
         case Fatal => Some(Dead)
         case _ => Eval(n - 1, after, mem))
      case Guard(a, h, k) =>
        match Try(n - 1, a, h, mem)
        case Some(Returned(s, after)) => Eval(n - 1, k(s), after)
        case other => other
  }

  /** One guarded call: the innermost guard receives whatever its action raises. */
  function Try(n: nat, a: Prog, h: Option<Exc -> Prog>, mem: Memory): Option<Outcome>
    decreases n, 2
  {
    match Eval(n, a, mem.(code := 0))
    case Some(Returned(s, after)) => Some(Returned(s, after.Finish(s)))
    case Some(Raised(after)) => Catch(n, h, after)
    case other => other
  }

  /**
   A guard receives the exception in mem. No handler: its status is the result. A handler
   that raises is run again on what it raised; one that returns EAGAIN raises again, to the
   enclosing guard, what the globals then hold.
   */
  function Catch(n: nat, h: Option<Exc -> Prog>, mem: Memory): Option<Outcome>
    decreases n, 1
  {
    if h.None? then Some(Returned(mem.code, mem.Finish(mem.code)))
    else if n == 0 then None
    else
      match Eval(n, h.value(mem.Current()), mem)
      case Some(Returned(s, after)) =>
        if s != EAGAIN then Some(Returned(s, after.Finish(s)))
        else if after.code == 0 then Some(Dead)
        else Some(Raised(after.Store(after.Current())))
      case Some(Raised(after)) => Catch(n - 1, h, after)
      case other => other
  }

  // ----- the fuel does not matter once it is enough

  lemma {:induction false} EvalStable(n: nat, m: nat, p: Prog, mem: Memory)
    requires n <= m && Eval(n, p, mem).Some?
    ensures Eval(m, p, mem) == Eval(n, p, mem)
    decreases n, 0
  {
    match p
    case Return(_) =>
    case Access(update, next) => EvalStable(n - 1, m - 1, next(mem.data), mem.(data := update(mem.data)));
    case Report(severity, e, after) =>
      if severity != Exception && severity != Fatal {
        EvalStable(n - 1, m - 1, after, mem);
      }
    case Guard(a, h, k) =>
      TryStable(n - 1, m - 1, a, h, mem);
      var t := Try(n - 1, a, h, mem);
      if t.value.Returned? {
        EvalStable(n - 1, m - 1, k(t.value.s), t.value.mem);
      }
  }

  lemma {:induction false} TryStable(n: nat, m: nat, a: Prog, h: Option<Exc -> Prog>, mem: Memory)
    requires n <= m && Try(n, a, h, mem).Some?
    ensures Try(m, a, h, mem) == Try(n, a, h, mem)
    decreases n, 2
  {
    EvalStable(n, m, a, mem.(code := 0));
    var r := Eval(n, a, mem.(code := 0)).value;
    if r.Raised? {
      CatchStable(n, m, h, r.mem);
    }
  }

  lemma {:induction false} CatchStable(n: nat, m: nat, h: Option<Exc -> Prog>, mem: Memory)
    requires n <= m && Catch(n, h, mem).Some?
    ensures Catch(m, h, mem) == Catch(n, h, mem)
    decreases n, 1
  {
    if h.Some? {
      EvalStable(n, m, h.value(mem.Current()), mem);
      var r := Eval(n, h.value(mem.Current()), mem).value;
      if r.Raised? {
        CatchStable(n - 1, m - 1, h, r.mem);
      }
    }
  }
  
  /** The exception a raise carries always has a non-zero status. */
  lemma {:induction false} RaisedNonZero(n: nat, p: Prog, mem: Memory)
    requires Eval(n, p, mem).Some? && Eval(n, p, mem).value.Raised?
    ensures Eval(n, p, mem).value.mem.code != 0
    decreases n, 0
  {
    match p
    case Return(_) =>
    case Access(update, next) => RaisedNonZero(n - 1, next(mem.data), mem.(data := update(mem.data)));
    case Report(severity, e, after) =>
      if severity != Exception && severity != Fatal {
        RaisedNonZero(n - 1, after, mem);
      }
    case Guard(a, h, k) =>
      var t := Try(n - 1, a, h, mem).value;
      if t.Returned? {
        RaisedNonZero(n - 1, k(t.s), t.mem);
      } else {
        CatchNonZero(n - 1, h, Eval(n - 1, a, mem.(code := 0)).value.mem);
      }
  }

  lemma {:induction false} CatchNonZero(n: nat, h: Option<Exc -> Prog>, mem: Memory)
    requires Catch(n, h, mem).Some? && Catch(n, h, mem).value.Raised?
    ensures Catch(n, h, mem).value.mem.code != 0
    decreases n, 1
  {
    var r := Eval(n, h.value(mem.Current()), mem).value;
    if r.Raised? {
      CatchNonZero(n - 1, h, r.mem);
    }
  }

  // ----- the machine does what the semantics says

  /** The machine at control c, over the live frames `stack`, with every pointer in place. */
  function At(c: Control, stack: seq<Frame>, mem: Memory): State {
    State(c, stack, Innermost(|stack|), mem)
  }

  /**
   Where the outcome of a body called over `stack` leaves the machine: back in the caller
   with the stack and the pointer it was called with, or landed in the innermost live guard,
   or aborted when there is none.
   */
  ghost predicate Arrives(st: State, o: Outcome, stack: seq<Frame>) {
    match o
    case Returned(s, mem) => st == At(Run(Return(s)), stack, mem)
    case Raised(mem) => if stack == [] then st.control == Aborted else st == At(Landing, stack, mem)
    case Dead => st.control == Aborted
  }

  /** The same for a guarded call, whose result goes to the code k that follows it. */
  ghost predicate ArrivesInto(st: State, o: Outcome, stack: seq<Frame>, k: Status -> Prog) {
    match o
    case Returned(s, mem) => st == At(Run(k(s)), stack, mem)
    case _ => Arrives(st, o, stack)
  }

  lemma LastStep(st: State, n: nat)
    ensures Steps(st, n + 1) == Step(Steps(st, n))
  {
    StepsAdd(st, n, 1);
    assert Steps(Steps(st, n), 1) == Step(Steps(st, n));
  }

  lemma LeaveFrame(f: Frame, stack: seq<Frame>, s: Status, mem: Memory)
    requires f.previous == Innermost(|stack|) && (f.phase == InHandler ==> s != EAGAIN)
    ensures Step(At(Run(Return(s)), stack + [f], mem)) == At(Run(f.rest(s)), stack, mem.Finish(s))
  {
    assert (stack + [f])[..|stack|] == stack;
  }

  /** A handler's EAGAIN: one step to restore the pointer, one to throw past this frame. */
  lemma RethrowFrame(f: Frame, stack: seq<Frame>, mem: Memory)
    requires f.previous == Innermost(|stack|) && f.phase == InHandler
    ensures var st := Step(Step(At(Run(Return(EAGAIN)), stack + [f], mem)));
            if mem.code == 0 || stack == [] then st.control == Aborted
            else st == At(Landing, stack, mem.Store(mem.Current()))
  {
    var st := Step(At(Run(Return(EAGAIN)), stack + [f], mem));
    assert st == State(Control.Rethrow, stack + [f], Innermost(|stack|), mem);
    assert (stack + [f])[..|stack|] == stack;
  }

  lemma {:induction false} MachineRuns(n: nat, p: Prog, stack: seq<Frame>, mem: Memory) returns (j: nat)
    requires Linked(stack) && Eval(n, p, mem).Some?
    ensures Arrives(Steps(At(Run(p), stack, mem), j), Eval(n, p, mem).value, stack)
    decreases n, 0
  {
    var st := At(Run(p), stack, mem);
    match p
    case Return(_) => j := 0;
    case Access(update, next) =>
      var i := MachineRuns(n - 1, next(mem.data), stack, mem.(data := update(mem.data)));
      j := i + 1;
    case Report(severity, e, after) =>
      if severity != Exception && severity != Fatal {
        var i := MachineRuns(n - 1, after, stack, mem);
        j := i + 1;
      } else {
        assert stack[..|stack|] == stack;
        assert Steps(Step(st), 0) == Step(st);
        j := 1;
      }
    case Guard(a, h, k) =>
      var i := MachineTries(n - 1, a, h, k, stack, mem);
      var t := Try(n - 1, a, h, mem).value;
      if t.Returned? {
        var m := MachineRuns(n - 1, k(t.s), stack, t.mem);
        StepsAdd(st, i, m);
        j := i + m;
      } else {
        j := i;
      }
  }

  lemma {:induction false} MachineTries(n: nat, a: Prog, h: Option<Exc -> Prog>, k: Status -> Prog,
                                        stack: seq<Frame>, mem: Memory) returns (j: nat)
    requires Linked(stack) && Try(n, a, h, mem).Some?
    ensures j > 0
    ensures ArrivesInto(Steps(At(Run(Guard(a, h, k)), stack, mem), j), Try(n, a, h, mem).value, stack, k)
    decreases n, 2
  {
    var f := Frame(h, k, Innermost(|stack|), InAction);
    var st := At(Run(Guard(a, h, k)), stack, mem);
    var i := MachineRuns(n, a, stack + [f], mem.(code := 0));
    var r := Eval(n, a, mem.(code := 0)).value;
    assert Step(st) == At(Run(a), stack + [f], mem.(code := 0));
    assert Steps(st, 1 + i) == Steps(Step(st), i);
    match r
    case Returned(s, after) =>
      LeaveFrame(f, stack, s, after);
      LastStep(st, 1 + i);
      j := 1 + i + 1;
    case Raised(after) =>
      RaisedNonZero(n, a, mem.(code := 0));
      var m := MachineCatches(n, h, f, stack, after);
      StepsAdd(st, 1 + i, m);
      j := 1 + i + m;
    case Dead => j := 1 + i;
  }

  lemma {:induction false} MachineCatches(n: nat, h: Option<Exc -> Prog>, f: Frame, stack: seq<Frame>, mem: Memory)
    returns (j: nat)
    requires Linked(stack) && Catch(n, h, mem).Some? && mem.code != 0
    requires f.handler == h && f.previous == Innermost(|stack|)
    ensures ArrivesInto(Steps(At(Landing, stack + [f], mem), j), Catch(n, h, mem).value, stack, f.rest)
    decreases n, 1
  {
    var st := At(Landing, stack + [f], mem);
    if h.None? {
      assert (stack + [f])[..|stack|] == stack;
      assert Steps(Step(st), 0) == Step(st);
      j := 1;
    } else {
      var g := f.(phase := InHandler);
      assert (stack + [f])[|stack| := g] == stack + [g];
      var i := MachineRuns(n, h.value(mem.Current()), stack + [g], mem);
      assert Steps(st, 1 + i) == Steps(Step(st), i);
      match Eval(n, h.value(mem.Current()), mem).value
      case Returned(s, after) =>
        LastStep(st, 1 + i);
        if s != EAGAIN {
          LeaveFrame(g, stack, s, after);
          j := 1 + i + 1;
        } else {
          RethrowFrame(g, stack, after);
          LastStep(st, 1 + i + 1);
          j := 1 + i + 1 + 1;
        }
      case Raised(after) =>
        RaisedNonZero(n, h.value(mem.Current()), mem);
        var m := MachineCatches(n - 1, h, g, stack, after);
        StepsAdd(st, 1 + i, m);
        j := 1 + i + m;
      case Dead => j := 1 + i;
    }
  }

  // ----- and the machine does nothing else

  /** A state met before a run ends is met before its last step. */
  lemma {:induction false} StillRunning(st: State, m: nat, i: nat)
    requires Terminal(Steps(st, m)) && !Terminal(Steps(st, i))
    ensures i < m && Terminal(Steps(Steps(st, i), m - i))
  {
    if i >= m {
      StepsAdd(st, m, i - m);
      TerminalStays(Steps(st, m), i - m);
    } else {
      StepsAdd(st, i, m - i);
    }
  }

  lemma {:induction false} EndedRunEvaluates(m: nat, p: Prog, stack: seq<Frame>, mem: Memory) returns (n: nat)
    requires Linked(stack) && Terminal(Steps(At(Run(p), stack, mem), m))
    ensures Eval(n, p, mem).Some?
    decreases m, 1
  {
    var st := At(Run(p), stack, mem);
    match p
    case Return(_) => n := 1;
    case Access(update, next) =>
      n := EndedRunEvaluates(m - 1, next(mem.data), stack, mem.(data := update(mem.data)));
      n := n + 1;
    case Report(severity, e, after) =>
      n := 0;
      if severity != Exception && severity != Fatal {
        n := EndedRunEvaluates(m - 1, after, stack, mem);
      }
      n := n + 1;
    case Guard(a, h, k) =>
      n := EndedRunTries(m, a, h, k, stack, mem);
      var t := Try(n, a, h, mem).value;
      if t.Returned? {
        var i := MachineTries(n, a, h, k, stack, mem);
        StillRunning(st, m, i);
        var n' := EndedRunEvaluates(m - i, k(t.s), stack, t.mem);
        var top := if n < n' then n' else n;
        TryStable(n, top, a, h, mem);
        EvalStable(n', top, k(t.s), t.mem);
        n := top;
      }
      n := n + 1;
  }

  lemma {:induction false} EndedRunTries(m: nat, a: Prog, h: Option<Exc -> Prog>, k: Status -> Prog,
                                         stack: seq<Frame>, mem: Memory) returns (n: nat)
    requires Linked(stack) && Terminal(Steps(At(Run(Guard(a, h, k)), stack, mem), m))
    ensures Try(n, a, h, mem).Some?
    decreases m, 0
  {
    var f := Frame(h, k, Innermost(|stack|), InAction);
    n := EndedRunEvaluates(m - 1, a, stack + [f], mem.(code := 0));
    var r := Eval(n, a, mem.(code := 0)).value;
    if r.Raised? {
      var i := MachineRuns(n, a, stack + [f], mem.(code := 0));
      StillRunning(At(Run(a), stack + [f], mem.(code := 0)), m - 1, i);
      RaisedNonZero(n, a, mem.(code := 0));
      var n' := EndedRunCatches(m - 1 - i, h, f, stack, r.mem);
      var top := if n < n' then n' else n;
      EvalStable(n, top, a, mem.(code := 0));
      CatchStable(n', top, h, r.mem);
      n := top;
    }
  }

  lemma {:induction false} EndedRunCatches(m: nat, h: Option<Exc -> Prog>, f: Frame, stack: seq<Frame>, mem: Memory)
    returns (n: nat)
    requires Linked(stack) && mem.code != 0 && f.handler == h && f.previous == Innermost(|stack|)
    requires Terminal(Steps(At(Landing, stack + [f], mem), m))
    ensures Catch(n, h, mem).Some?
    decreases m, 1
  {
    n := 0;
    if h.Some? {
      var g := f.(phase := InHandler);
      assert (stack + [f])[|stack| := g] == stack + [g];
      n := EndedRunEvaluates(m - 1, h.value(mem.Current()), stack + [g], mem);
      var r := Eval(n, h.value(mem.Current()), mem).value;
      if r.Raised? {
        var i := MachineRuns(n, h.value(mem.Current()), stack + [g], mem);
        StillRunning(At(Run(h.value(mem.Current())), stack + [g], mem), m - 1, i);
        RaisedNonZero(n, h.value(mem.Current()), mem);
        var n' := EndedRunCatches(m - 1 - i, h, g, stack, r.mem);
        var top := if n < n' then n' else n;
        EvalStable(n, top + 1, h.value(mem.Current()), mem);
        CatchStable(n', top, h, r.mem);
        n := top + 1;
      }
    }
  }

  // ----- main results

  /** The result of a whole program: its status, or None when it aborts. */
  ghost predicate EndsAs(st: State, o: Outcome) {
    match o
    case Returned(s, mem) => st == State(Control.Finished(s), [], None, mem)
    case _ => st.control == Aborted
  }

  /**
   A run of the machine ends if and only if the program has an outcome in the structured
   semantics, and then it ends with that outcome.
   */
  lemma MachineRefinesTryCatch(p: Prog, data: Data)
    ensures (exists m: nat :: Terminal(Steps(Start(p, data), m)))
       <==> (exists n: nat :: Eval(n, p, START_MEMORY.(data := data)).Some?)
    ensures forall m: nat, n: nat :: Terminal(Steps(Start(p, data), m)) && Eval(n, p, START_MEMORY.(data := data)).Some?
              ==> EndsAs(Steps(Start(p, data), m), Eval(n, p, START_MEMORY.(data := data)).value)
  {
    var mem := START_MEMORY.(data := data);
    if m: nat :| Terminal(Steps(Start(p, data), m)) {
      var n := EndedRunEvaluates(m, p, [], mem);
      assert exists n: nat :: Eval(n, p, mem).Some?;
    }
    if n: nat :| Eval(n, p, mem).Some? {
      var m := EvaluatedProgramEnds(n, p, data);
      assert exists m: nat :: Terminal(Steps(Start(p, data), m));
    }
    forall m: nat, n: nat | Terminal(Steps(Start(p, data), m)) && Eval(n, p, mem).Some?
      ensures EndsAs(Steps(Start(p, data), m), Eval(n, p, mem).value)
    {
      var m' := EvaluatedProgramEnds(n, p, data);
      EndsAreEqual(Start(p, data), m, m');
    }
  }

  lemma EvaluatedProgramEnds(n: nat, p: Prog, data: Data) returns (m: nat)
    requires Eval(n, p, START_MEMORY.(data := data)).Some?
    ensures Terminal(Steps(Start(p, data), m))
    ensures EndsAs(Steps(Start(p, data), m), Eval(n, p, START_MEMORY.(data := data)).value)
  {
    var j := MachineRuns(n, p, [], START_MEMORY.(data := data));
    StepsAdd(Start(p, data), j, 1);
    assert Steps(Steps(Start(p, data), j), 1) == Step(Steps(Start(p, data), j));
    m := j + 1;
  }

  /** A program that has an outcome is at its end after some number of steps and any larger one. */
  lemma OutcomeIsReached(n: nat, p: Prog, data: Data) returns (m: nat)
    requires Eval(n, p, START_MEMORY.(data := data)).Some?
    ensures forall limit: nat :: m <= limit ==> Terminal(Steps(Start(p, data), limit))
  {
    m := EvaluatedProgramEnds(n, p, data);
    forall limit: nat | m <= limit ensures Terminal(Steps(Start(p, data), limit)) {
      StaysEnded(Start(p, data), m, limit);
    }
  }

  lemma StaysEnded(st: State, m: nat, limit: nat)
    requires m <= limit && Terminal(Steps(st, m))
    ensures Steps(st, limit) == Steps(st, m)
  {
    StepsAdd(st, m, limit - m);
    TerminalStays(Steps(st, m), limit - m);
  }

  lemma EndsAreEqual(st: State, m: nat, n: nat)
    requires Terminal(Steps(st, m)) && Terminal(Steps(st, n))
    ensures Steps(st, m) == Steps(st, n)
  {
    if m <= n {
      StaysEnded(st, m, n);
    } else {
      StaysEnded(st, n, m);
    }
  }

  /**
   A guarded call made over any live frames that gives a result comes back to its caller
   with exactly those frames and the pointer it found, whatever was thrown meanwhile.
   */
  lemma GuardRestoresPointer(n: nat, a: Prog, h: Option<Exc -> Prog>, k: Status -> Prog, stack: seq<Frame>, mem: Memory)
    returns (j: nat)
    requires Linked(stack) && Try(n, a, h, mem).Some? && Try(n, a, h, mem).value.Returned?
    ensures var Returned(s, after) := Try(n, a, h, mem).value;
            var called := At(Run(Guard(a, h, k)), stack, mem);
            Steps(called, j) == called.(control := Run(k(s)), mem := after)
  {
    j := MachineTries(n, a, h, k, stack, mem);
  }

  // ----- handlers that throw

  /**
   Each call of h ends, and what it throws, if anything, has a lower rank than what it was
   given.
   */
  ghost predicate Settles(h: Exc -> Prog, rank: Status -> ORDINAL) {
    forall mem: Memory | mem.code != 0 :: exists n :: SettlesIn(n, h, mem, rank)
  }

  ghost predicate SettlesIn(n: nat, h: Exc -> Prog, mem: Memory, rank: Status -> ORDINAL) {
    && Eval(n, h(mem.Current()), mem).Some?
    && (var r := Eval(n, h(mem.Current()), mem).value; r.Raised? ==> rank(r.mem.code) < rank(mem.code))
  }

  /** A handler that returns at once settles under any rank. */
  lemma ReturningHandlerSettles(h: Exc -> Prog, rank: Status -> ORDINAL)
    requires forall e :: h(e).Return?
    ensures Settles(h, rank)
  {
    forall mem: Memory | mem.code != 0 ensures SettlesIn(1, h, mem, rank) {
    }
  }

  lemma {:induction false} CatchEnds(h: Exc -> Prog, mem: Memory, rank: Status -> ORDINAL) returns (n: nat)
    requires Settles(h, rank) && mem.code != 0
    ensures Catch(n, Some(h), mem).Some?
    decreases rank(mem.code)
  {
    n :| SettlesIn(n, h, mem, rank);
    var r := Eval(n, h(mem.Current()), mem).value;
    if r.Raised? {
      RaisedNonZero(n, h(mem.Current()), mem);
      var n' := CatchEnds(h, r.mem, rank);
      var top := if n < n' then n' else n;
      EvalStable(n, top + 1, h(mem.Current()), mem);
      CatchStable(n', top, Some(h), r.mem);
      n := top + 1;
    }
  }

  /**
   If the action ends and every throw from the handler lowers a well-founded rank, the
   machine finishes the guarded call: it returns, rethrows or aborts after finitely many steps.
   */
  lemma GuardedCallEnds(a: Prog, h: Exc -> Prog, k: Status -> Prog, rank: Status -> ORDINAL, fuel: nat,
                        stack: seq<Frame>, mem: Memory) returns (n: nat, j: nat)
    requires Linked(stack) && Settles(h, rank) && Eval(fuel, a, mem.(code := 0)).Some?
    ensures Try(n, a, Some(h), mem).Some?
    ensures ArrivesInto(Steps(At(Run(Guard(a, Some(h), k)), stack, mem), j), Try(n, a, Some(h), mem).value, stack, k)
  {
    n := fuel;
    var r := Eval(n, a, mem.(code := 0)).value;
    if r.Raised? {
      RaisedNonZero(n, a, mem.(code := 0));
      var n' := CatchEnds(h, r.mem, rank);
      var top := if n < n' then n' else n;
      EvalStable(n, top, a, mem.(code := 0));
      CatchStable(n', top, Some(h), r.mem);
      n := top;
    }
    j := MachineTries(n, a, Some(h), k, stack, mem);
  }
}
