/**
 Which exception a handler is given. The globals of status.c are shared by every guard, so
 this is not automatic: a rethrow delivers what the globals hold when the handler returns.
 */
module Delivery {
  import opened Basics
  import opened Programs
  import opened TryCatch

  /** The exception as its receiver sees it. */
  function Received(e: Exc): Exc {
    Exc(e.origin, e.status, Cut(e.message))
  }

  lemma CutOnce(message: string)
    ensures Cut(Cut(message)) == Cut(message) && |Cut(message)| < DETAILS_SIZE
  {
  }

  /** What any evaluation from mem to after does to the globals and the histories. */
  predicate Follows(mem: Memory, after: Memory) {
    && |after.details| < DETAILS_SIZE
    && mem.thrown <= after.thrown
    && mem.finished <= after.finished
    && (if after.thrown == mem.thrown then after.origin == mem.origin && after.details == mem.details
        else after.origin == Last(after.thrown).origin && after.details == Cut(Last(after.thrown).message))
  }

  /** What an evaluation that returns a status does to the globals. */
  predicate Keeps(mem: Memory, after: Memory) {
    if |after.finished| == |mem.finished| then after == mem.(data := after.data)
    else |after.finished| > 0 && after.code == Last(after.finished)
  }

  predicate Explained(o: Outcome, mem: Memory) {
    match o
    case Returned(_, after) => Follows(mem, after) && Keeps(mem, after)
    case Raised(after) => Follows(mem, after)
    case Dead => true
  }

  lemma {:induction false} EvalExplained(n: nat, p: Prog, mem: Memory)
    requires Eval(n, p, mem).Some? && |mem.details| < DETAILS_SIZE
    ensures Explained(Eval(n, p, mem).value, mem)
    decreases n, 0
  {
    match p
    case Return(_) =>
    case Access(update, next) => EvalExplained(n - 1, next(mem.data), mem.(data := update(mem.data)));
    case Report(severity, e, after) =>
      if severity != Exception && severity != Fatal {
        EvalExplained(n - 1, after, mem);
      }
    case Guard(a, h, k) =>
      TryExplained(n - 1, a, h, mem);
      var t := Try(n - 1, a, h, mem).value;
      if t.Returned? {
        EvalExplained(n - 1, k(t.s), t.mem);
      }
  }

  lemma {:induction false} TryExplained(n: nat, a: Prog, h: Option<Exc -> Prog>, mem: Memory)
    requires Try(n, a, h, mem).Some? && |mem.details| < DETAILS_SIZE
    ensures var o := Try(n, a, h, mem).value;
            Explained(o, mem) && (o.Returned? ==> |o.mem.finished| > |mem.finished|)
    decreases n, 2
  {
    EvalExplained(n, a, mem.(code := 0));
    var r := Eval(n, a, mem.(code := 0)).value;
    if r.Raised? {
      CatchExplained(n, h, r.mem);
    }
  }

  lemma {:induction false} CatchExplained(n: nat, h: Option<Exc -> Prog>, mem: Memory)
    requires Catch(n, h, mem).Some? && |mem.details| < DETAILS_SIZE
    ensures var o := Catch(n, h, mem).value;
            Explained(o, mem) && (o.Returned? ==> |o.mem.finished| > |mem.finished|)
    decreases n, 1
  {
    if h.Some? {
      EvalExplained(n, h.value(mem.Current()), mem);
      var r := Eval(n, h.value(mem.Current()), mem).value;
      if r.Raised? {
        CatchExplained(n - 1, h, r.mem);
      }
    }
  }

  /**
   Exactly when a rethrow is faithful. A handler was given the exception in mem and returned
   EAGAIN: the enclosing guard receives that same exception if and only if the handler
   completed no guarded call, or the last one it completed returned the very status it was
   given and the last throw inside it, if any, had the same origin and message.
   */
  lemma RethrowFaithfulIff(n: nat, h: Exc -> Prog, mem: Memory, after: Memory)
    requires |mem.details| < DETAILS_SIZE
    requires Eval(n, h(mem.Current()), mem) == Some(Returned(EAGAIN, after))
    ensures after.Current() == mem.Current()
       <==> || |after.finished| == |mem.finished|
            || (&& after.finished != [] && Last(after.finished) == mem.code
                && (after.thrown != mem.thrown ==>
                      && after.thrown != []
                      && Last(after.thrown).origin == mem.origin
                      && Cut(Last(after.thrown).message) == mem.details))
    ensures after.code != 0 ==> Catch(n, Some(h), mem) == Some(Raised(after))
    ensures after.code == 0 ==> Catch(n, Some(h), mem) == Some(Dead)
  {
    EvalExplained(n, h(mem.Current()), mem);
  }

  /** A handler that makes sure something is done, guarded, before it passes the exception on. */
  function CleansUp(cleanup: Prog): Exc -> Prog {
    (e: Exc) => Guard(cleanup, None, (s: Status) => Return(EAGAIN))
  }

  /**
   The case in which it is not: a guarded call in the handler that succeeds leaves
   exception_code zero, and the rethrow aborts the program although a guard encloses it.
   */
  lemma GuardedCleanupLosesException(e: Exc, outer: Exc -> Prog, mem: Memory)
    requires e.status != 0
    ensures Try(3, Guard(Report(Exception, e, Return(0)), Some(CleansUp(Return(0))), (s: Status) => Return(s)),
                Some(outer), mem) == Some(Dead)
  {
    var first := Report(Exception, e, Return(0));
    var thrown := mem.(code := 0).Throw(e);
    assert Eval(2, first, mem.(code := 0)) == Some(Raised(thrown));
    var h := CleansUp(Return(0));
    var inner := thrown.(code := 0).Finish(0);
    assert Eval(1, Return(0), thrown.(code := 0)) == Some(Returned(0, thrown.(code := 0)));
    assert Try(1, Return(0), None, thrown) == Some(Returned(0, inner));
    assert Eval(2, h(thrown.Current()), thrown) == Some(Returned(EAGAIN, inner));
    assert Catch(2, Some(h), thrown) == Some(Dead);
  }

  // ----- programs whose handlers make no guarded call

  /** No guarded call within n steps of p; GuardFree(p) says none at all. */
  ghost predicate GuardFreeTo(n: nat, p: Prog) {
    n > 0 ==>
      match p
      case Return(_) => true
      case Access(_, next) => forall d :: GuardFreeTo(n - 1, next(d))
      case Report(_, _, after) => GuardFreeTo(n - 1, after)
      case Guard(_, _, _) => false
  }

  ghost predicate GuardFree(p: Prog) {
    forall n: nat :: GuardFreeTo(n, p)
  }

  /** Every handler within n steps of p is GuardFree. */
  ghost predicate PlainHandlersTo(n: nat, p: Prog) {
    n > 0 ==>
      match p
      case Return(_) => true
      case Access(_, next) => forall d :: PlainHandlersTo(n - 1, next(d))
      case Report(_, _, after) => PlainHandlersTo(n - 1, after)
      case Guard(a, h, k) =>
        && PlainHandlersTo(n - 1, a)
        && (h.Some? ==> forall e :: GuardFree(h.value(e)))
        && (forall s :: PlainHandlersTo(n - 1, k(s)))
  }

  ghost predicate PlainHandlers(p: Prog) {
    forall n: nat :: PlainHandlersTo(n, p)
  }

  lemma GuardFreeIff(p: Prog)
    ensures GuardFree(p) <==>
              match p
              case Return(_) => true
              case Access(_, next) => forall d :: GuardFree(next(d))
              case Report(_, _, after) => GuardFree(after)
              case Guard(_, _, _) => false
  {
    if GuardFree(p) {
      assert GuardFreeTo(1, p);
      if p.Access? {
        forall d, n: nat ensures GuardFreeTo(n, p.next(d)) {
          assert GuardFreeTo(n + 1, p);
        }
      }
      if p.Report? {
        forall n: nat ensures GuardFreeTo(n, p.after) {
          assert GuardFreeTo(n + 1, p);
        }
      }
    } else {
      var n: nat :| !GuardFreeTo(n, p);
      if p.Access? {
        var d :| !GuardFreeTo(n - 1, p.next(d));
        assert !GuardFree(p.next(d));
      }
      if p.Report? {
        assert !GuardFreeTo(n - 1, p.after);
      }
    }
  }

  lemma PlainHandlersIff(p: Prog)
    ensures PlainHandlers(p) <==>
              match p
              case Return(_) => true
              case Access(_, next) => forall d :: PlainHandlers(next(d))
              case Report(_, _, after) => PlainHandlers(after)
              case Guard(a, h, k) =>
                && PlainHandlers(a) && (forall s :: PlainHandlers(k(s)))
                && (h.Some? ==> forall e :: GuardFree(h.value(e)))
  {
    if PlainHandlers(p) {
      PlainHandlersParts(p);
    } else {
      var n: nat :| !PlainHandlersTo(n, p);
      if p.Access? {
        var d :| !PlainHandlersTo(n - 1, p.next(d));
        assert !PlainHandlers(p.next(d));
      }
      if p.Report? {
        assert !PlainHandlersTo(n - 1, p.after);
      }
      if p.Guard? && (exists s :: !PlainHandlersTo(n - 1, p.rest(s))) {
        var s :| !PlainHandlersTo(n - 1, p.rest(s));
        assert !PlainHandlers(p.rest(s));
      } else if p.Guard? {
        assert !PlainHandlersTo(n - 1, p.action) || (p.handler.Some? && exists e :: !GuardFree(p.handler.value(e)));
      }
    }
  }

  lemma PlainHandlersParts(p: Prog)
    requires PlainHandlers(p)
    ensures p.Access? ==> forall d :: PlainHandlers(p.next(d))
    ensures p.Report? ==> PlainHandlers(p.after)
    ensures p.Guard? ==> PlainHandlers(p.action) && forall s :: PlainHandlers(p.rest(s))
    ensures p.Guard? && p.handler.Some? ==> forall e :: GuardFree(p.handler.value(e))
  {
    assert PlainHandlersTo(1, p);
    if p.Access? {
      forall d, n: nat ensures PlainHandlersTo(n, p.next(d)) {
        assert PlainHandlersTo(n + 1, p);
      }
    }
    forall n: nat
      ensures p.Report? ==> PlainHandlersTo(n, p.after)
      ensures p.Guard? ==> PlainHandlersTo(n, p.action)
    {
      assert PlainHandlersTo(n + 1, p);
    }
    if p.Guard? {
      forall s, n: nat ensures PlainHandlersTo(n, p.rest(s)) {
        assert PlainHandlersTo(n + 1, p);
      }
    }
  }

  /** Without a guarded call, a return changes no global and a throw is the program's own. */
  lemma {:induction false} GuardFreeEval(n: nat, p: Prog, mem: Memory)
    requires GuardFree(p) && Eval(n, p, mem).Some?
    ensures match Eval(n, p, mem).value
            case Returned(_, after) => after == mem.(data := after.data)
            case Raised(after) => after.thrown != [] && after.Current() == Received(Last(after.thrown))
            case Dead => true
    decreases n
  {
    GuardFreeIff(p);
    match p
    case Return(_) =>
    case Access(update, next) => GuardFreeEval(n - 1, next(mem.data), mem.(data := update(mem.data)));
    case Report(severity, e, after) =>
      if severity != Exception && severity != Fatal {
        GuardFreeEval(n - 1, after, mem);
      }
  }

  /**
   Rethrow fidelity. When no handler makes a guarded call, every exception that reaches a
   guard, thrown directly or passed on by any number of EAGAIN rethrows, is the last one
   thrown: same status, same origin, and its message cut to 255 characters once.
   */
  lemma {:induction false} LastThrowIsDelivered(n: nat, p: Prog, mem: Memory)
    requires PlainHandlers(p) && Eval(n, p, mem).Some? && Eval(n, p, mem).value.Raised?
    ensures var after := Eval(n, p, mem).value.mem;
            after.thrown != [] && after.Current() == Received(Last(after.thrown))
    decreases n
  {
    PlainHandlersParts(p);
    match p
    case Return(_) =>
    case Access(update, next) => LastThrowIsDelivered(n - 1, next(mem.data), mem.(data := update(mem.data)));
    case Report(severity, e, after) =>
      if severity != Exception && severity != Fatal {
        LastThrowIsDelivered(n - 1, after, mem);
      }
    case Guard(a, h, k) =>
      var t := Try(n - 1, a, h, mem).value;
      if t.Returned? {
        LastThrowIsDelivered(n - 1, k(t.s), t.mem);
      } else {
        LastThrowIsDelivered(n - 1, a, mem.(code := 0));
        CatchDeliversLastThrow(n - 1, h, Eval(n - 1, a, mem.(code := 0)).value.mem);
      }
  }

  lemma {:induction false} CatchDeliversLastThrow(n: nat, h: Option<Exc -> Prog>, mem: Memory)
    requires h.Some? ==> forall e :: GuardFree(h.value(e))
    requires mem.thrown != [] && mem.Current() == Received(Last(mem.thrown))
    requires Catch(n, h, mem).Some? && Catch(n, h, mem).value.Raised?
    ensures var after := Catch(n, h, mem).value.mem;
            after.thrown != [] && after.Current() == Received(Last(after.thrown))
    decreases n
  {
    GuardFreeEval(n, h.value(mem.Current()), mem);
    var r := Eval(n, h.value(mem.Current()), mem).value;
    if r.Raised? {
      CatchDeliversLastThrow(n - 1, h, r.mem);
    } else {
      CutOnce(Last(mem.thrown).message);
    }
  }

  /** A handler that only passes the exception on. */
  const PASS_ON: Exc -> Prog := (e: Exc) => Return(EAGAIN)

  /** p inside `depth` guards whose handlers all return EAGAIN at once. */
  function Wrapped(depth: nat, p: Prog): Prog {
    if depth == 0 then p else Guard(Wrapped(depth - 1, p), Some(PASS_ON), (s: Status) => Return(s))
  }

  /** A guard whose handler returns EAGAIN (11) at once raises exactly what its action raised. */
  lemma RethrowOnce(n: nat, p: Prog, h: Exc -> Prog, k: Status -> Prog, mem: Memory, after: Memory)
    requires |after.details| < DETAILS_SIZE && after.code != 0
    requires Eval(n, p, mem.(code := 0)) == Some(Raised(after))
    requires h(Exc(after.origin, after.code, after.details)) == Return(11)
    ensures Eval(n + 1, Guard(p, Some(h), k), mem) == Some(Raised(after))
  {
    assert Eval(n, h(after.Current()), after) == Some(Returned(EAGAIN, after));
    assert Catch(n, Some(h), after) == Some(Raised(after));
    assert Try(n, p, Some(h), mem) == Some(Raised(after));
  }

  /** Any chain of rethrowing guards hands on exactly the memory the throw left. */
  lemma {:induction false} RethrowChain(depth: nat, n: nat, p: Prog, mem: Memory, after: Memory)
    requires |after.details| < DETAILS_SIZE && after.code != 0
    requires Eval(n, p, mem.(code := 0)) == Some(Raised(after))
    ensures Eval(n + depth, Wrapped(depth, p), mem.(code := 0)) == Some(Raised(after))
    decreases depth
  {
    if depth > 0 {
      RethrowChain(depth - 1, n, p, mem, after);
      RethrowOnce(n + depth - 1, Wrapped(depth - 1, p), PASS_ON, (s: Status) => Return(s), mem.(code := 0), after);
    }
  }

  /** So the first handler that does not rethrow is given the exception as thrown. */
  lemma ChainReachesHandler(depth: nat, n: nat, p: Prog, h: Option<Exc -> Prog>, mem: Memory, after: Memory)
    requires |after.details| < DETAILS_SIZE && after.code != 0
    requires Eval(n, p, mem.(code := 0)) == Some(Raised(after))
    ensures Try(n + depth, Wrapped(depth, p), h, mem) == Catch(n + depth, h, after)
  {
    RethrowChain(depth, n, p, mem, after);
  }
}
