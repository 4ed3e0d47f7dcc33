/**
 The programs that run under status.c, and the machine that runs them.

 A program is the body of one C function as far as status.c can tell: it reads and
 updates the memory behind the `void *data` argument, reports statuses, makes guarded
 calls, and finally returns a status.
 */
module Programs {
  import opened Basics

  // errcode_t; 0 always means success.
  type Status = int

  // What `void *data` points to. It is ordinary memory: a jump does not roll it back.
  type Data = seq<int>

  const EAGAIN: Status := 11
  const DETAILS_SIZE: nat := 256

  datatype Severity = Fatal | Exception | Error | Warning | Notice | Info | Trace

  datatype Exc = Exc(origin: string, status: Status, message: string)

  datatype Prog =
    | Return(status: Status)
    | Access(update: Data -> Data, next: Data -> Prog)
    | Report(severity: Severity, what: Exc, after: Prog)
    | Guard(action: Prog, handler: Option<Exc -> Prog>, rest: Status -> Prog)

  /** What vsnprintf leaves in exception_details: at most 255 characters. */
  function Cut(message: string): (r: string)
    ensures r <= message && |r| == if |message| <= 255 then |message| else 255
  {
    if |message| < DETAILS_SIZE then message else message[..DETAILS_SIZE - 1]
  }

  /**
   The globals exception_code, exception_origin and exception_details, the user's data, and
   two histories that no step reads: the exceptions thrown so far that some guard was there
   to receive, and the results of the guarded calls completed so far.
   */
  datatype Memory = Memory(
    code: Status,
    origin: string,
    details: string,
    data: Data,
    thrown: seq<Exc>,
    finished: seq<Status>)
  {
    /** The exception that the globals describe. */
    function Current(): Exc {
      Exc(origin, code, details)
    }

    /** status.c:64-67, the part of a throw that fills the globals in. */
    function Store(e: Exc): Memory {
      this.(origin := e.origin, code := e.status, details := Cut(e.message))
    }

    /** A throw that some guard will receive. */
    function Throw(e: Exc): Memory {
      Store(e).(thrown := thrown + [e])
    }

    /** A guarded call returns s. */
    function Finish(s: Status): Memory {
      this.(code := s, finished := finished + [s])
    }
  }

  datatype Phase = InAction | InHandler

  /**
   One live activation of tn_with_exception. Its address, the value the global pointer takes
   while it is the innermost one, is its index on the stack; `previous` is the C local
   previous_handler.
   */
  datatype Frame = Frame(
    handler: Option<Exc -> Prog>,
    rest: Status -> Prog,
    previous: Option<nat>,
    phase: Phase)

  datatype Control =
    | Run(p: Prog)
    | Landing             // sigsetjmp has just returned 1 in the top frame
    | Rethrow             // status.c:180, the pointer already names the enclosing frame
    | Finished(s: Status) // the outermost program has returned
    | Aborted             // abort(), or the assertion that a thrown status is not 0
    | Faulted             // a jump to a dead frame, or a landing with exception_code == 0

  datatype State = State(control: Control, stack: seq<Frame>, pointer: Option<nat>, mem: Memory)

  predicate Terminal(st: State) {
    st.control.Finished? || st.control.Aborted? || st.control.Faulted?
  }

  /**
   tn_report_statusv with TN_EXCEPTION (status.c:60-72). The jump cuts the stack back to the
   frame whose address the global holds; if no such frame is live the machine has faulted.
   */
  function Raise(st: State, e: Exc, mem: Memory): State {
    if e.status == 0 || st.pointer.None? then
      st.(control := Aborted)
    else if st.pointer.value < |st.stack| then
      State(Landing, st.stack[..st.pointer.value + 1], st.pointer, mem)
    else
      st.(control := Faulted)
  }

  /** status.c:160-166: a new frame becomes the innermost one. */
  function Enter(st: State, a: Prog, h: Option<Exc -> Prog>, k: Status -> Prog): State {
    State(Run(a), st.stack + [Frame(h, k, st.pointer, InAction)], Some(|st.stack|), st.mem.(code := 0))
  }

  /** status.c:187-189: the saved pointer is restored and the call returns s. */
  function Leave(st: State, s: Status): State
    requires st.stack != []
  {
    var f := st.stack[|st.stack| - 1];
    State(Run(f.rest(s)), st.stack[..|st.stack| - 1], f.previous, st.mem.Finish(s))
  }

  /** A C function body returns s to whoever called it. */
  function ReturnFrom(st: State, s: Status): State {
    if st.stack == [] then
      st.(control := Finished(s))
    else
      var f := st.stack[|st.stack| - 1];
      if f.phase == InHandler && s == EAGAIN then
        st.(control := Rethrow, pointer := f.previous)
      else
        Leave(st, s)
  }

  /** status.c:167-173, and status.c:187 when there is no handler. */
  function Land(st: State): State {
    if st.stack == [] || st.mem.code == 0 then
      st.(control := Faulted)
    else
      var top := |st.stack| - 1;
      var f := st.stack[top];
      if f.handler.None? then
        Leave(st, st.mem.code)
      else
        st.(control := Run(f.handler.value(st.mem.Current())), stack := st.stack[top := f.(phase := InHandler)])
  }

  /** One step of the machine; terminal states do not move. */
  function Step(st: State): State {
    match st.control
    case Run(Return(s)) => ReturnFrom(st, s)
    case Run(Access(update, next)) =>
      st.(control := Run(next(st.mem.data)), mem := st.mem.(data := update(st.mem.data)))
    case Run(Report(severity, e, after)) =>
      (match severity
       case Exception => Raise(st, e, st.mem.Throw(e))
       case Fatal => st.(control := Aborted)
       case _ => st.(control := Run(after)))
    case Run(Guard(a, h, k)) => Enter(st, a, h, k)
    case Landing => Land(st)
    case Rethrow => Raise(st, st.mem.Current(), st.mem.Store(st.mem.Current()))
    case Finished(_) => st
    case Aborted => st
    case Faulted => st
  }

  function Steps(st: State, n: nat): State
    decreases n
  {
    if n == 0 then st else Steps(Step(st), n - 1)
  }

  const START_MEMORY := Memory(0, "", "", [], [], [])

  function Start(p: Prog, data: Data): State {
    State(Run(p), [], None, START_MEMORY.(data := data))
  }

  // ----- every reachable state

  /** The address a stack of n live frames makes innermost. */
  function Innermost(n: nat): Option<nat> {
    if n == 0 then None else Some(n - 1)
  }

  /** Every frame has saved the address of the frame that encloses it. */
  predicate Linked(stack: seq<Frame>) {
    forall i :: 0 <= i < |stack| ==> stack[i].previous == Innermost(i)
  }

  /**
   The pointer is null or names the innermost live frame, the enclosing one once a rethrow
   has begun. A landing has a non-zero status to deliver, and nothing has faulted.
   */
  predicate Good(st: State) {
    && Linked(st.stack)
    && (match st.control
        case Faulted => false
        case Landing => st.stack != [] && st.mem.code != 0 && st.pointer == Innermost(|st.stack|)
        case Rethrow => st.stack != [] && st.pointer == Innermost(|st.stack| - 1)
        case Aborted => true
        case _ => st.pointer == Innermost(|st.stack|))
  }

  lemma StepKeepsGood(st: State)
    requires Good(st)
    ensures Good(Step(st))
  {
  }

  lemma {:induction false} StepsKeepGood(st: State, n: nat)
    requires Good(st)
    ensures Good(Steps(st, n))
    decreases n
  {
    if n > 0 {
      StepKeepsGood(st);
      StepsKeepGood(Step(st), n - 1);
    }
  }

  lemma EveryReachableStateIsGood(p: Prog, data: Data, n: nat)
    ensures Good(Steps(Start(p, data), n))
    ensures !Steps(Start(p, data), n).control.Faulted?
  {
    StepsKeepGood(Start(p, data), n);
  }

  lemma {:induction false} StepsAdd(st: State, m: nat, n: nat)
    ensures Steps(st, m + n) == Steps(Steps(st, m), n)
    decreases m
  {
    if m > 0 {
      StepsAdd(Step(st), m - 1, n);
    }
  }

  lemma {:induction false} TerminalStays(st: State, n: nat)
    requires Terminal(st)
    ensures Steps(st, n) == st
    decreases n
  {
    if n > 0 {
      TerminalStays(st, n - 1);
    }
  }
}
