/**
 What one guarded call does, rule by rule: what its action and its handler do is given, and what
 comes of the call is written out, for the structured semantics and for the machine.
 */
module Rules {
  import opened Basics
  import opened Programs
  import opened TryCatch

  /** The globals after a throw of e: its status and origin, and at most 255 characters of its message. */
  function Holding(mem: Memory, e: Exc): Memory {
    Memory(e.status, e.origin, if |e.message| <= 255 then e.message else e.message[..255], mem.data,
           mem.thrown + [e], mem.finished)
  }

  /** The memory in which a guarded call has returned s. */
  function Done(mem: Memory, s: Status): Memory {
    Memory(s, mem.origin, mem.details, mem.data, mem.thrown, mem.finished + [s])
  }

  // ----- one thing at a time, step by step on the machine

  lemma FiveSteps(st: State)
    ensures Steps(st, 1) == Step(st) && Steps(st, 2) == Step(Step(st)) && Steps(st, 3) == Step(Step(Step(st)))
    ensures Steps(st, 4) == Step(Step(Step(Step(st)))) && Steps(st, 5) == Step(Step(Step(Step(Step(st)))))
  {
    assert Steps(st, 1) == Steps(Step(st), 0);
    LastStep(st, 1);
    LastStep(st, 2);
    LastStep(st, 3);
    LastStep(st, 4);
  }

  /** Reading and updating the user's memory: what comes next depends on what was there before. */
  lemma AccessRule(update: Data -> Data, next: Data -> Prog, stack: seq<Frame>, mem: Memory)
    ensures Step(At(Run(Access(update, next)), stack, mem))
         == At(Run(next(mem.data)), stack, mem.(data := update(mem.data)))
  {
  }

  /** The outermost program returns: that is the end. */
  lemma OutermostReturn(s: Status, mem: Memory)
    ensures Step(At(Run(Return(s)), [], mem)) == State(Control.Finished(s), [], None, mem)
  {
  }

  /** A report that is not an exception leaves everything as it was; a fatal one aborts. */
  lemma ReportRule(severity: Severity, e: Exc, p: Prog, stack: seq<Frame>, mem: Memory)
    ensures severity == Fatal ==> Step(At(Run(Report(severity, e, p)), stack, mem)).control == Aborted
    ensures severity != Fatal && severity != Exception ==>
              Step(At(Run(Report(severity, e, p)), stack, mem)) == At(Run(p), stack, mem)
  {
  }

  /** An exception lands in the innermost guard with its globals filled in, or aborts. */
  lemma ThrowRule(e: Exc, p: Prog, stack: seq<Frame>, mem: Memory)
    requires Linked(stack)
    ensures var st := Step(At(Run(Report(Exception, e, p)), stack, mem));
            if e.status == 0 || stack == [] then st.control == Aborted else st == At(Landing, stack, Holding(mem, e))
  {
    assert stack[..|stack|] == stack;
  }

  /** An action that returns s: the call returns s, with the frames and the pointer it found. */
  lemma ReturnRule(s: Status, h: Option<Exc -> Prog>, k: Status -> Prog, stack: seq<Frame>, mem: Memory)
    requires Linked(stack)
    ensures Steps(At(Run(Guard(Return(s), h, k)), stack, mem), 2) == At(Run(k(s)), stack, Done(mem, s))
  {
    var st := At(Run(Guard(Return(s), h, k)), stack, mem);
    FiveSteps(st);
    LeaveFrame(Frame(h, k, Innermost(|stack|), InAction), stack, s, mem.(code := 0));
  }

  /** The action has thrown e and the guard's frame is the innermost one. */
  lemma Thrown(e: Exc, p: Prog, h: Option<Exc -> Prog>, k: Status -> Prog, stack: seq<Frame>, mem: Memory)
    requires Linked(stack) && e.status != 0
    ensures Step(Step(At(Run(Guard(Report(Exception, e, p), h, k)), stack, mem)))
         == At(Landing, stack + [Frame(h, k, Innermost(|stack|), InAction)], Holding(mem, e))
  {
    var frames := stack + [Frame(h, k, Innermost(|stack|), InAction)];
    assert Step(At(Run(Guard(Report(Exception, e, p), h, k)), stack, mem))
        == At(Run(Report(Exception, e, p)), frames, mem.(code := 0));
    ThrowRule(e, p, frames, mem.(code := 0));
  }

  /** A throw under a null handler: the call returns the thrown status. */
  lemma ThrowUnderNull(e: Exc, p: Prog, k: Status -> Prog, stack: seq<Frame>, mem: Memory)
    requires Linked(stack) && e.status != 0
    ensures Steps(At(Run(Guard(Report(Exception, e, p), None, k)), stack, mem), 3)
         == At(Run(k(e.status)), stack, Done(Holding(mem, e), e.status))
  {
    FiveSteps(At(Run(Guard(Report(Exception, e, p), None, k)), stack, mem));
    Thrown(e, p, None, k, stack, mem);
    assert (stack + [Frame(None, k, Innermost(|stack|), InAction)])[..|stack|] == stack;
  }

  /** A throw under a handler: it is called with origin, status and cut message. */
  lemma HandlerIsCalled(e: Exc, p: Prog, h: Exc -> Prog, k: Status -> Prog, stack: seq<Frame>, mem: Memory)
    requires Linked(stack) && e.status != 0
    ensures Steps(At(Run(Guard(Report(Exception, e, p), Some(h), k)), stack, mem), 3)
         == At(Run(h(Exc(e.origin, e.status, Holding(mem, e).details))),
               stack + [Frame(Some(h), k, Innermost(|stack|), InHandler)], Holding(mem, e))
  {
    FiveSteps(At(Run(Guard(Report(Exception, e, p), Some(h), k)), stack, mem));
    Thrown(e, p, Some(h), k, stack, mem);
    var f := Frame(Some(h), k, Innermost(|stack|), InAction);
    assert (stack + [f])[|stack| := f.(phase := InHandler)] == stack + [f.(phase := InHandler)];
  }

  /** The handler returns s: the call does, unless s is EAGAIN (11), which throws the same again outwards. */
  lemma HandlerReturnRule(s: Status, f: Frame, stack: seq<Frame>, mem: Memory)
    requires Linked(stack) && f.phase == InHandler && f.previous == Innermost(|stack|)
    ensures s != 11 ==> Step(At(Run(Return(s)), stack + [f], mem)) == At(Run(f.rest(s)), stack, Done(mem, s))
    ensures s == 11 ==>
              var st := Step(Step(At(Run(Return(s)), stack + [f], mem)));
              if mem.code == 0 || stack == [] then st.control == Aborted
              else st == At(Landing, stack, mem.(details := Cut(mem.details)))
  {
    if s != 11 {
      LeaveFrame(f, stack, s, mem);
    } else {
      RethrowFrame(f, stack, mem);
    }
  }

  /** The handler throws: the same guard, still the innermost one, is landed in again. */
  lemma HandlerThrowRule(e: Exc, p: Prog, f: Frame, stack: seq<Frame>, mem: Memory)
    requires Linked(stack) && f.previous == Innermost(|stack|) && e.status != 0
    ensures Step(At(Run(Report(Exception, e, p)), stack + [f], mem)) == At(Landing, stack + [f], Holding(mem, e))
  {
    ThrowRule(e, p, stack + [f], mem);
  }

  // ----- whole actions and handlers, by their outcomes

  /** An action that returns. */
  lemma ReturnedAction(n: nat, a: Prog, h: Option<Exc -> Prog>, k: Status -> Prog, stack: seq<Frame>, mem: Memory,
                       s: Status, after: Memory)
    returns (j: nat)
    requires Linked(stack) && Eval(n, a, mem.(code := 0)) == Some(Returned(s, after))
    ensures Try(n, a, h, mem) == Some(Returned(s, Done(after, s)))
    ensures Steps(At(Run(Guard(a, h, k)), stack, mem), j) == At(Run(k(s)), stack, Done(after, s))
  {
    j := MachineTries(n, a, h, k, stack, mem);
  }

  /** No handler: whatever the action throws, the call returns its status. */
  lemma NullHandlerReturnsStatus(n: nat, a: Prog, k: Status -> Prog, stack: seq<Frame>, mem: Memory, after: Memory)
    returns (j: nat)
    requires Linked(stack) && Eval(n, a, mem.(code := 0)) == Some(Raised(after))
    ensures Try(n, a, None, mem) == Some(Returned(after.code, Done(after, after.code)))
    ensures Steps(At(Run(Guard(a, None, k)), stack, mem), j) == At(Run(k(after.code)), stack, Done(after, after.code))
  {
    j := MachineTries(n, a, None, k, stack, mem);
  }

  /** A handler that returns s, not EAGAIN (11): so does the call. */
  lemma HandlerReturnsStatus(n: nat, a: Prog, h: Exc -> Prog, k: Status -> Prog, stack: seq<Frame>, mem: Memory,
                             after: Memory, s: Status, last: Memory)
    returns (j: nat)
    requires Linked(stack) && Eval(n, a, mem.(code := 0)) == Some(Raised(after)) && s != 11
    requires Eval(n, h(Exc(after.origin, after.code, after.details)), after) == Some(Returned(s, last))
    ensures Try(n, a, Some(h), mem) == Some(Returned(s, Done(last, s)))
    ensures Steps(At(Run(Guard(a, Some(h), k)), stack, mem), j) == At(Run(k(s)), stack, Done(last, s))
  {
    j := MachineTries(n, a, Some(h), k, stack, mem);
  }

  /** A handler that returns EAGAIN (11): what the globals then hold is thrown past this guard. */
  lemma EagainThrowsOutwards(n: nat, a: Prog, h: Exc -> Prog, k: Status -> Prog, stack: seq<Frame>, mem: Memory,
                             after: Memory, last: Memory)
    returns (j: nat)
    requires Linked(stack) && stack != [] && Eval(n, a, mem.(code := 0)) == Some(Raised(after)) && last.code != 0
    requires Eval(n, h(Exc(after.origin, after.code, after.details)), after) == Some(Returned(11, last))
    ensures Try(n, a, Some(h), mem) == Some(Raised(last.(details := Cut(last.details))))
    ensures Steps(At(Run(Guard(a, Some(h), k)), stack, mem), j)
         == At(Landing, stack, last.(details := Cut(last.details)))
  {
    j := MachineTries(n, a, Some(h), k, stack, mem);
  }

  /** A handler that throws is run again, by the same guard, as if the action had thrown that. */
  lemma HandlerThrowIsCaughtAgain(n: nat, a: Prog, b: Prog, h: Exc -> Prog, mem: Memory, after: Memory, last: Memory)
    requires Eval(n, a, mem.(code := 0)) == Some(Raised(after))
    requires Eval(n, h(Exc(after.origin, after.code, after.details)), after) == Some(Raised(last))
    requires Eval(n, b, mem.(code := 0)) == Some(Raised(last)) && Try(n, a, Some(h), mem).Some?
    ensures Try(n, b, Some(h), mem) == Try(n, a, Some(h), mem)
  {
    CatchStable(n - 1, n, Some(h), last);
  }

  /** A program that guards one throw without a handler ends with the thrown status. */
  lemma GuardedThrowIsStatus(e: Exc, p: Prog, mem: Memory)
    requires e.status != 0
    ensures Eval(3, Guard(Report(Exception, e, p), None, (s: Status) => Return(s)), mem)
         == Some(Returned(e.status, Done(Holding(mem, e), e.status)))
  {
    var k := (s: Status) => Return(s);
    assert Eval(2, Report(Exception, e, p), mem.(code := 0)) == Some(Raised(Holding(mem, e)));
    assert Try(2, Report(Exception, e, p), None, mem) == Some(Returned(e.status, Done(Holding(mem, e), e.status)));
    assert Eval(2, k(e.status), Done(Holding(mem, e), e.status))
        == Some(Returned(e.status, Done(Holding(mem, e), e.status)));
  }
}
