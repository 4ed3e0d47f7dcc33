/**
 status.c as code that changes its globals. A live activation of tn_with_exception is an object,
 and exception_handler and every previous_handler are references to such objects. Each method is
 one stretch of the C text between two points where control may pass to a program, and is proved
 to be a step of the machine in Programs.dfy, in which addresses are places on the stack.
 */
module Runtime {
  import opened Basics
  import opened Programs
  import opened TryCatch

  /** The arguments and locals of one call of tn_with_exception. The object stands for its sigjmp_buf. */
  class Activation {
    const handler: Option<Exc -> Prog>
    const rest: Status -> Prog
    const previousHandler: Activation?
    const depth: nat // the height of the C stack that sigsetjmp has saved

    constructor (h: Option<Exc -> Prog>, k: Status -> Prog, previous: Activation?, height: nat)
      ensures handler == h && rest == k && previousHandler == previous && depth == height
    {
      handler, rest, previousHandler, depth := h, k, previous, height;
    }
  }

  /** An activation on the C stack, and which call inside it has yet to return. */
  datatype Call = Call(who: Activation, phase: Phase)

  // ----- references as addresses

  /** Where a reference points on the stack; an activation that is gone lies beyond the top. */
  function Address(a: Activation?, calls: seq<Call>): Option<nat> {
    if a == null then None
    else if a.depth < |calls| && calls[a.depth].who == a then Some(a.depth)
    else Some(|calls|)
  }

  /** The reference to the innermost of the first n activations. */
  function TopOf(calls: seq<Call>, n: nat): Activation?
    requires n <= |calls|
  {
    if n == 0 then null else calls[n - 1].who
  }

  /** Each activation has saved its height and the reference to the one around it. */
  ghost predicate Chained(calls: seq<Call>) {
    forall i :: 0 <= i < |calls| ==> SavedRight(calls, i)
  }

  ghost predicate SavedRight(calls: seq<Call>, i: nat)
    requires i < |calls|
  {
    calls[i].who.depth == i && calls[i].who.previousHandler == TopOf(calls, i)
  }

  ghost function FrameOf(c: Call, calls: seq<Call>): Frame {
    Frame(c.who.handler, c.who.rest, Address(c.who.previousHandler, calls), c.phase)
  }

  ghost function FramesOf(calls: seq<Call>): (r: seq<Frame>)
    ensures |r| == |calls| && forall i :: 0 <= i < |r| ==> r[i] == FrameOf(calls[i], calls)
  {
    seq(|calls|, i requires 0 <= i < |calls| => FrameOf(calls[i], calls))
  }

  lemma TopIsInnermost(calls: seq<Call>, n: nat)
    requires Chained(calls) && n <= |calls|
    ensures Address(TopOf(calls, n), calls) == Innermost(n)
  {
    if n > 0 {
      assert SavedRight(calls, n - 1);
    }
  }

  lemma PointerOfGood(st: State)
    requires Good(st)
    ensures st.control.Run? || st.control.Landing? ==> st.pointer == Innermost(|st.stack|)
    ensures st.control.Landing? ==> st.stack != [] && st.mem.code != 0
    ensures st.control.Rethrow? ==> st.stack != [] && st.pointer == Innermost(|st.stack| - 1)
  {
  }

  lemma ReferenceIs(a: Activation?, calls: seq<Call>, n: nat)
    requires n <= |calls| && Address(a, calls) == Innermost(n)
    ensures a == TopOf(calls, n)
  {
  }

  lemma FrameAt(calls: seq<Call>, i: nat)
    requires Chained(calls) && i < |calls|
    ensures FrameOf(calls[i], calls) == Frame(calls[i].who.handler, calls[i].who.rest, Innermost(i), calls[i].phase)
  {
    assert SavedRight(calls, i);
    TopIsInnermost(calls, i);
  }

  /** Cutting the stack back moves none of the activations that stay. */
  lemma CutFrames(calls: seq<Call>, n: nat)
    requires Chained(calls) && n <= |calls|
    ensures Chained(calls[..n]) && FramesOf(calls[..n]) == FramesOf(calls)[..n]
    ensures TopOf(calls[..n], n) == TopOf(calls, n)
  {
    forall i | 0 <= i < n ensures SavedRight(calls[..n], i) {
      assert SavedRight(calls, i);
    }
    forall i | 0 <= i < n ensures FrameOf(calls[..n][i], calls[..n]) == FrameOf(calls[i], calls) {
      FrameAt(calls, i);
      FrameAt(calls[..n], i);
    }
  }

  /** The innermost activation, and the stack without it. */
  lemma PopFrame(calls: seq<Call>, n: nat)
    requires Chained(calls) && |calls| == n + 1
    ensures var f := calls[n];
            && FramesOf(calls)[n] == Frame(f.who.handler, f.who.rest, Innermost(n), f.phase)
            && Chained(calls[..n]) && FramesOf(calls[..n]) == FramesOf(calls)[..n]
            && Address(f.who.previousHandler, calls[..n]) == Innermost(n)
  {
    FrameAt(calls, n);
    assert SavedRight(calls, n);
    CutFrames(calls, n);
    TopIsInnermost(calls[..n], n);
  }

  /** The innermost of the first n activations has saved their number. */
  lemma TopIsSaved(calls: seq<Call>, n: nat)
    requires Chained(calls) && 0 < n <= |calls|
    ensures var top := TopOf(calls, n); top != null && top.depth + 1 == n && Address(top, calls[..n]) == Innermost(n)
  {
    assert SavedRight(calls, n - 1);
  }

  lemma PushFrame(calls: seq<Call>, a: Activation)
    requires Chained(calls) && a.depth == |calls| && a.previousHandler == TopOf(calls, |calls|)
    ensures var longer := calls + [Call(a, InAction)];
            && Chained(longer) && Address(a, longer) == Some(|calls|)
            && FramesOf(longer) == FramesOf(calls) + [Frame(a.handler, a.rest, Innermost(|calls|), InAction)]
  {
    var longer := calls + [Call(a, InAction)];
    forall i | 0 <= i < |longer| ensures SavedRight(longer, i) {
      assert i < |calls| ==> SavedRight(calls, i);
    }
    FrameAt(longer, |calls|);
    TopIsInnermost(longer, |longer|);
    CutFrames(longer, |calls|);
    assert longer[..|calls|] == calls;
  }

  lemma ChangePhase(calls: seq<Call>, i: nat, phase: Phase)
    requires Chained(calls) && i < |calls|
    ensures var changed := calls[i := calls[i].(phase := phase)];
            && Chained(changed) && TopOf(changed, |changed|) == TopOf(calls, |calls|)
            && FramesOf(changed) == FramesOf(calls)[i := FramesOf(calls)[i].(phase := phase)]
  {
    var changed := calls[i := calls[i].(phase := phase)];
    forall k | 0 <= k < |calls| ensures SavedRight(changed, k) {
      assert SavedRight(calls, k);
    }
    forall k | 0 <= k < |calls|
      ensures FrameOf(changed[k], changed).(phase := calls[k].phase) == FrameOf(calls[k], calls)
    {
      FrameAt(calls, k);
      FrameAt(changed, k);
    }
  }

  lemma RaiseTo(st: State, n: nat, e: Exc, mem: Memory)
    requires 0 < n <= |st.stack| && st.pointer == Innermost(n) && e.status != 0
    ensures Raise(st, e, mem) == State(Landing, st.stack[..n], Innermost(n), mem)
  {
  }

  lemma LeaveFrom(st: State, n: nat, s: Status)
    requires |st.stack| == n + 1
    ensures Leave(st, s) == State(Run(st.stack[n].rest(s)), st.stack[..n], st.stack[n].previous, st.mem.Finish(s))
  {
  }

  class Process {
    var exceptionHandler: Activation?
    var exceptionCode: Status
    var exceptionOrigin: string
    var exceptionDetails: string
    var calls: seq<Call> // the live calls of tn_with_exception, the innermost last
    var data: Data
    var control: Control
    ghost var thrown: seq<Exc>
    ghost var finished: seq<Status>

    ghost function Memory(): Memory
      reads this
    {
      Programs.Memory.Memory(exceptionCode, exceptionOrigin, exceptionDetails, data, thrown, finished)
    }

    /** The machine's state, in which every reference is an address. */
    ghost function View(): State
      reads this
    {
      State(control, FramesOf(calls), Address(exceptionHandler, calls), Memory())
    }

    ghost predicate Sound()
      reads this
    {
      Chained(calls) && Good(View())
    }

    /** exception_handler is null, when no call is live, or the innermost live call. */
    ghost predicate Installed()
      reads this
    {
      Chained(calls) && exceptionHandler == TopOf(calls, |calls|)
    }

    /** It is the call around that one when a rethrow has begun. */
    ghost predicate Ready()
      reads this
    {
      && Chained(calls)
      && (control.Run? || control.Landing? ==> Installed())
      && (control.Landing? ==> calls != [] && exceptionCode != 0)
      && (control.Rethrow? ==> calls != [] && exceptionHandler == TopOf(calls, |calls| - 1))
    }

    lemma HandlerIsLive()
      requires Sound()
      ensures Ready()
    {
      PointerOfGood(View());
      if control.Rethrow? {
        ReferenceIs(exceptionHandler, calls, |calls| - 1);
      } else if control.Run? || control.Landing? {
        ReferenceIs(exceptionHandler, calls, |calls|);
      }
    }

    constructor (p: Prog, d: Data)
      ensures Sound() && View() == Start(p, d)
    {
      exceptionHandler, exceptionCode, exceptionOrigin, exceptionDetails := null, 0, "", "";
      calls, data, control := [], d, Run(p);
      thrown, finished := [], [];
    }

    /** The TN_EXCEPTION case of tn_report_statusv: fill the globals in and jump, or abort. */
    method ThrowException(e: Exc)
      requires Installed()
      modifies this
      ensures Chained(calls) && View() == Raise(old(View()), e, old(Memory()).Throw(e))
    {
      JumpWith(e, |calls|);
      if control != Aborted {
        thrown := thrown + [e];
      }
    }

    /** The assignments of status.c:64-68; a rethrow comes here without being a new throw. */
    method JumpWith(e: Exc, ghost n: nat)
      requires Chained(calls) && n <= |calls| && exceptionHandler == TopOf(calls, n)
      modifies this
      ensures Chained(calls) && View() == Raise(old(View()), e, old(Memory()).Store(e))
      ensures control == Aborted || control == Landing
    {
      TopIsInnermost(calls, n);
      if e.status == 0 || exceptionHandler == null {
        control := Aborted;
        return;
      }
      RaiseTo(View(), n, e, Memory().Store(e));
      exceptionDetails := Cut(e.message);
      exceptionCode := e.status;
      exceptionOrigin := e.origin;
      LongJump(n);
    }

    /** siglongjmp to the sigjmp_buf that the global names; that must belong to a live call. */
    method LongJump(ghost n: nat)
      requires Chained(calls) && 0 < n <= |calls| && exceptionHandler == TopOf(calls, n)
      modifies this`calls, this`control
      ensures control == Landing && Chained(calls) && calls == old(calls)[..n]
      ensures FramesOf(calls) == FramesOf(old(calls))[..n] && Address(exceptionHandler, calls) == Innermost(n)
    {
      CutFrames(calls, n);
      TopIsSaved(calls, n);
      calls := calls[..exceptionHandler.depth + 1];
      control := Landing;
    }

    /** tn_report_statusv. The result says whether the caller goes on. */
    method ReportStatus(severity: Severity, e: Exc) returns (goesOn: bool)
      requires Installed()
      modifies this
      ensures Chained(calls) && goesOn == (severity != Exception && severity != Fatal)
      ensures View() == match severity
                        case Exception => Raise(old(View()), e, old(Memory()).Throw(e))
                        case Fatal => old(View()).(control := Aborted)
                        case _ => old(View())
    {
      goesOn := false;
      match severity {
        case Exception => ThrowException(e);
        case Fatal => control := Aborted;
        case _ => goesOn := true;
      }
    }

    /** tn_with_exception up to the call of its action. */
    method EnterGuard(a: Prog, h: Option<Exc -> Prog>, k: Status -> Prog)
      requires Installed()
      modifies this
      ensures Chained(calls) && View() == Enter(old(View()), a, h, k)
    {
      TopIsInnermost(calls, |calls|);
      var current := new Activation(h, k, exceptionHandler, |calls|);
      PushFrame(calls, current);
      calls := calls + [Call(current, InAction)];
      exceptionHandler := current;
      exceptionCode := 0;
      control := Run(a);
    }

    /** The last two lines of tn_with_exception, with s in exception_code. */
    method LeaveGuard(s: Status)
      requires Chained(calls) && calls != []
      modifies this
      ensures Chained(calls) && View() == Leave(old(View()), s)
    {
      PopFrame(calls, |calls| - 1);
      LeaveFrom(View(), |calls| - 1, s);
      var current := calls[|calls| - 1].who;
      exceptionCode := s;
      exceptionHandler := current.previousHandler;
      calls := calls[..|calls| - 1];
      control := Run(current.rest(s));
      finished := finished + [s];
    }

    /** An action or a handler has returned s into the activation that called it. */
    method FunctionReturned(s: Status)
      requires Chained(calls)
      modifies this
      ensures Chained(calls) && View() == ReturnFrom(old(View()), s)
    {
      if calls == [] {
        control := Control.Finished(s);
        return;
      }
      var current := calls[|calls| - 1];
      if current.phase == InHandler && s == EAGAIN {
        exceptionHandler := current.who.previousHandler;
        control := Control.Rethrow;
      } else {
        LeaveGuard(s);
      }
    }

    /** The branch of tn_with_exception taken when sigsetjmp returns for the second time. */
    method HandleException()
      requires Installed() && calls != [] && exceptionCode != 0
      modifies this
      ensures Chained(calls) && View() == Land(old(View()))
    {
      var top := |calls| - 1;
      match calls[top].who.handler {
        case None => LeaveGuard(exceptionCode);
        case Some(h) =>
          ChangePhase(calls, top, InHandler);
          TopIsInnermost(calls, |calls|);
          calls := calls[top := calls[top].(phase := InHandler)];
          control := Run(h(Exc(exceptionOrigin, exceptionCode, exceptionDetails)));
          TopIsInnermost(calls, |calls|);
      }
    }

    /** A call of tn_report_status and what its caller does after it. */
    method Reported(severity: Severity, e: Exc, after: Prog)
      requires Installed() && control == Run(Report(severity, e, after))
      modifies this
      ensures Chained(calls) && View() == Step(old(View()))
    {
      var goesOn := ReportStatus(severity, e);
      if goesOn {
        control := Run(after);
      }
    }

    method Accessed(update: Data -> Data, next: Data -> Prog)
      requires Chained(calls) && control == Run(Access(update, next))
      modifies this`control, this`data
      ensures Chained(calls) && View() == Step(old(View()))
    {
      control := Run(next(data));
      data := update(data);
    }

    method Proceed()
      requires Ready()
      modifies this
      ensures Chained(calls) && View() == Step(old(View()))
    {
      match control {
        case Run(Return(s)) => FunctionReturned(s);
        case Run(Access(update, next)) => Accessed(update, next);
        case Run(Report(severity, e, after)) => Reported(severity, e, after);
        case Run(Guard(a, h, k)) => EnterGuard(a, h, k);
        case Landing => HandleException();
        case Rethrow => JumpWith(Exc(exceptionOrigin, exceptionCode, exceptionDetails), |calls| - 1);
        case Finished(_) =>
        case Aborted =>
        case Faulted =>
      }
    }

    method Advance()
      requires Sound()
      modifies this
      ensures Sound() && View() == Step(old(View()))
    {
      StepKeepsGood(View());
      HandlerIsLive();
      Proceed();
    }

    /** Runs for `limit` steps or to the end, whichever comes first. */
    method RunFor(limit: nat)
      requires Sound()
      modifies this
      ensures Sound() && View() == Steps(old(View()), limit)
    {
      var n := 0;
      ghost var start := View();
      while n < limit && !(control.Finished? || control.Aborted? || control.Faulted?)
        invariant n <= limit && Sound() && View() == Steps(start, n)
      {
        LastStep(start, n);
        Advance();
        n := n + 1;
      }
      if n < limit {
        StaysEnded(start, n, limit);
      }
    }
  }

  /**
   A whole program on a fresh process: it ends in time exactly when the machine does, and then
   with what the structured semantics says. OutcomeIsReached gives a limit that is enough.
   */
  method Execute(p: Prog, d: Data, limit: nat) returns (ended: bool, status: Option<Status>)
    ensures ended <==> Terminal(Steps(Start(p, d), limit))
    ensures ended ==> exists n: nat :: Eval(n, p, START_MEMORY.(data := d)).Some?
    ensures ended ==>
              forall n: nat :: Eval(n, p, START_MEMORY.(data := d)).Some? ==>
                match Eval(n, p, START_MEMORY.(data := d)).value
                case Returned(s, _) => status == Some(s)
                case _ => status == None
  {
    var process := new Process(p, d);
    process.RunFor(limit);
    ended := process.control.Finished? || process.control.Aborted?;
    status := if process.control.Finished? then Some(process.control.s) else None;
    MachineRefinesTryCatch(p, d);
  }
}
