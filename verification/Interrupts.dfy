/**
 The shared interrupt dispatcher (runtime/runtime_interrupt.c) as a function on the runtime
 state: what check_interrupt, END SUB and IRETURN do, and what that means for the events,
 the GOSUB stack and the error state over whole runs.
 */
module Interrupts {
  import opened Wrappers

  const MAXGOSUB := 50

  type Addr = nat

  /** Event sources, in the order in which the dispatcher looks at them. */
  datatype Source = Tcp | Mqtt | Udp | I2cReceive | I2cSend | I2c2Receive | I2c2Send | Audio

  function Rank(s: Source): nat {
    match s
    case Tcp => 0
    case Mqtt => 1
    case Udp => 2
    case I2cReceive => 3
    case I2cSend => 4
    case I2c2Receive => 5
    case I2c2Send => 6
    case Audio => 7
  }

  /** Where execution goes on: at a statement, or at the IRET trampoline. */
  datatype Pc = At(addr: Addr) | IretToken

  /** One level of the GOSUB stack with its line for error reports. */
  datatype Frame = Frame(ret: Pc, line: Addr)

  /** Program text, zero-terminated elements, and the addresses whose command is SUB. */
  datatype Program = Program(text: seq<nat>, subs: set<Addr>)

  datatype ErrorState = ErrorState(skip: int, message: string, errno: int)

  datatype Rt = Rt(
    used: bool,
    handlers: map<Source, Addr>,
    latches: set<Source>,
    ret: Option<Pc>,
    next: Pc,
    line: Addr,
    locals: int,
    gosub: seq<Frame>,
    err: ErrorState,
    saved: ErrorState)

  /** Levels the port's pending hooks report at the time of a call. */
  datatype Pending = Pending(tcp: bool, udp: bool)

  datatype Verdict = NoInterrupt | Dispatched | TooManySubs

  // ---------- the dispatcher ----------

  /** I2C slave events carry their target with them; the others need a registered handler. */
  predicate NeedsHandler(s: Source) {
    s.Tcp? || s.Mqtt? || s.Udp? || s.Audio?
  }

  predicate Armed(rt: Rt, p: Pending, s: Source) {
    && (NeedsHandler(s) ==> s in rt.handlers)
    && (s in rt.latches || (s.Tcp? && p.tcp) || (s.Udp? && p.udp))
  }

  function Pick(rt: Rt, p: Pending): Option<Source> {
    if Armed(rt, p, Tcp) then Some(Tcp)
    else if Armed(rt, p, Mqtt) then Some(Mqtt)
    else if Armed(rt, p, Udp) then Some(Udp)
    else if Armed(rt, p, I2cReceive) then Some(I2cReceive)
    else if Armed(rt, p, I2cSend) then Some(I2cSend)
    else if Armed(rt, p, I2c2Receive) then Some(I2c2Receive)
    else if Armed(rt, p, I2c2Send) then Some(I2c2Send)
    else if Armed(rt, p, Audio) then Some(Audio)
    else None
  }

  /** z is the first position from a on that is zero or behind the text. */
  predicate IsElementEnd(text: seq<nat>, a: Addr, z: Addr) {
    a <= z && (z >= |text| || text[z] == 0) && forall k :: a <= k < z ==> k < |text| && text[k] != 0
  }

  /** The first zero at or after address a. */
  function NextZero(text: seq<nat>, a: Addr): (z: Addr)
    ensures IsElementEnd(text, a, z)
    decreases |text| - a
  {
    if a >= |text| || text[a] == 0 then a else NextZero(text, a + 1)
  }

  /** The error state as kept for the time of the handler; messages are cut to the buffer. */
  function Saved(e: ErrorState, cap: nat): ErrorState
    requires cap > 0
  {
    ErrorState(if e.skip > 0 then e.skip else 0,
               if |e.message| < cap then e.message else e.message[..cap - 1],
               e.errno)
  }

  function Restored(s: ErrorState): ErrorState {
    s.(skip := if s.skip > 0 then s.skip + 1 else s.skip)
  }

  const Clean := ErrorState(0, "", 0)

  function Target(rt: Rt, s: Source): Addr {
    if s in rt.handlers then rt.handlers[s] else 0
  }

  /** check_interrupt after its service call; `cap` is the size of the message buffer. */
  function Check(rt: Rt, prog: Program, p: Pending, cap: nat): (Rt, Verdict)
    requires cap > 0
  {
    if !rt.used || rt.ret.Some? then (rt, NoInterrupt) else
    var pick := Pick(rt, p);
    if pick.None? then (rt, NoInterrupt) else
    var a := Target(rt, pick.value);
    var r := rt.(latches := rt.latches - {pick.value}, locals := rt.locals + 1,
                 saved := Saved(rt.err, cap), err := Clean, ret := Some(rt.next));
    if a in prog.subs then
      if |rt.gosub| >= MAXGOSUB then (r, TooManySubs)
      else (r.(gosub := r.gosub + [Frame(IretToken, r.line)], locals := r.locals + 1,
               next := At(NextZero(prog.text, a))), Dispatched)
    else (r.(next := At(a)), Dispatched)
  }

  /** IRETURN; outside an interrupt it is an error. */
  function Ireturn(rt: Rt): Option<Rt> {
    if rt.ret.None? then None
    else Some(rt.(next := rt.ret.value, ret := None,
                  locals := if rt.locals != 0 then rt.locals - 1 else 0,
                  err := Restored(rt.saved)))
  }

  /** END SUB and RETURN; with nothing to return to they are an error. */
  function Return(rt: Rt): Option<Rt> {
    if rt.gosub == [] then None
    else
      var f := rt.gosub[|rt.gosub| - 1];
      Some(rt.(gosub := rt.gosub[..|rt.gosub| - 1], locals := rt.locals - 1, next := f.ret, line := f.line))
  }

  /** The statement loop's countdown after every command. */
  function CountDown(e: ErrorState): ErrorState {
    if e.skip > 0 then e.(skip := e.skip - 1) else e
  }

  // ---------- one call ----------

  /** Pick chooses the armed source of least rank, and finds one whenever there is one. */
  lemma PickIsHighestPriority(rt: Rt, p: Pending)
    ensures match Pick(rt, p)
            case None => forall s :: !Armed(rt, p, s)
            case Some(s) => Armed(rt, p, s) && forall t :: Armed(rt, p, t) ==> Rank(s) <= Rank(t)
  {
    forall t
      ensures Armed(rt, p, t) ==> Pick(rt, p).Some? && Rank(Pick(rt, p).value) <= Rank(t)
    {
      match t
      case Tcp =>
      case Mqtt =>
      case Udp =>
      case I2cReceive =>
      case I2cSend =>
      case I2c2Receive =>
      case I2c2Send =>
      case Audio =>
    }
  }

  /** A call that returns 0 changes nothing; one that returns 1 takes exactly the picked event. */
  lemma CheckConservesEvents(rt: Rt, prog: Program, p: Pending, cap: nat)
    requires cap > 0
    ensures var (r, v) := Check(rt, prog, p, cap);
            && r.handlers == rt.handlers
            && (v.NoInterrupt? ==> r == rt)
            && (v.NoInterrupt? <==> !rt.used || rt.ret.Some? || forall s :: !Armed(rt, p, s))
            && (!v.NoInterrupt? ==>
                  exists s :: Armed(rt, p, s) && r.latches == rt.latches - {s}
                           && forall t :: Armed(rt, p, t) ==> Rank(s) <= Rank(t))
            && (v.TooManySubs? <==> !v.NoInterrupt? && Target(rt, Pick(rt, p).value) in prog.subs && |rt.gosub| >= MAXGOSUB)
  {
    PickIsHighestPriority(rt, p);
  }

  /** When each source is armed: a registered handler and its flag or level, or an I2C flag. */
  lemma ArmedSources(rt: Rt, p: Pending)
    ensures Armed(rt, p, Tcp) <==> Tcp in rt.handlers && (Tcp in rt.latches || p.tcp)
    ensures Armed(rt, p, Mqtt) <==> Mqtt in rt.handlers && Mqtt in rt.latches
    ensures Armed(rt, p, Udp) <==> Udp in rt.handlers && (Udp in rt.latches || p.udp)
    ensures Armed(rt, p, Audio) <==> Audio in rt.handlers && Audio in rt.latches
    ensures forall s :: s in {I2cReceive, I2cSend, I2c2Receive, I2c2Send} ==> (Armed(rt, p, s) <==> s in rt.latches)
  {
  }

  /**
   A dispatch goes on at the handler of the armed source of least rank: at its address, or, if that
   is a SUB, behind the SUB statement with a trampoline on the GOSUB stack. The interrupted
   statement is kept for IRETURN.
   */
  lemma DispatchStartsHandler(rt: Rt, prog: Program, p: Pending, cap: nat, s: Source)
    requires cap > 0 && rt.used && rt.ret.None?
    requires Armed(rt, p, s) && forall t :: Armed(rt, p, t) ==> Rank(s) <= Rank(t)
    ensures var a := if s in rt.handlers then rt.handlers[s] else 0;
            var (r, v) := Check(rt, prog, p, cap);
            && r.ret == Some(rt.next) && r.latches == rt.latches - {s} && r.line == rt.line
            && r.saved == Saved(rt.err, cap) && r.err == ErrorState(0, "", 0)
            && (v.TooManySubs? <==> a in prog.subs && |rt.gosub| >= MAXGOSUB)
            && (a !in prog.subs ==> v.Dispatched? && r.next == At(a) && r.gosub == rt.gosub && r.locals == rt.locals + 1)
            && (a in prog.subs && |rt.gosub| < MAXGOSUB ==>
                  && v.Dispatched? && r.next.At? && IsElementEnd(prog.text, a, r.next.addr)
                  && r.gosub == rt.gosub + [Frame(IretToken, rt.line)] && r.locals == rt.locals + 2)
  {
    hide NextZero;
    PickIsHighestPriority(rt, p);
    var t := Pick(rt, p).value;
    assert Rank(s) == Rank(t) ==> s == t;
  }

  /** With a full GOSUB stack the event of a SUB handler is taken although no handler starts. */
  lemma FullStackLosesEvent(rt: Rt, prog: Program, p: Pending, cap: nat)
    requires cap > 0 && rt.used && rt.ret.None? && |rt.gosub| >= MAXGOSUB
    requires Pick(rt, p).Some? && Target(rt, Pick(rt, p).value) in prog.subs
    ensures var (r, v) := Check(rt, prog, p, cap);
            v.TooManySubs? && Pick(rt, p).value !in r.latches && r.next == rt.next && r.ret.Some? && r.err.skip == 0
  {
  }

  /** What the program sees of the error state after IRETURN and the end of that statement. */
  lemma ErrorStateSurvives(e: ErrorState, cap: nat)
    requires cap > 0
    ensures Restored(Saved(e, cap)).errno == e.errno
    ensures Restored(Saved(e, cap)).message <= e.message
    ensures |Restored(Saved(e, cap)).message| == if |e.message| < cap then |e.message| else cap - 1
    ensures Restored(Saved(e, cap)).message == e.message <==> |e.message| < cap
    ensures Restored(Saved(e, cap)).skip == if e.skip > 0 then e.skip + 1 else 0
    ensures CountDown(Restored(Saved(e, cap))).skip == e.skip <==> e.skip >= 0
    ensures CountDown(Restored(Saved(e, cap))) == e <==> e.skip >= 0 && |e.message| < cap
  {
  }

  // ---------- runs ----------

  /** Registering or removing a handler forgets an event of its source that is still pending. */
  datatype Step =
    | Arrive(source: Source)
    | Register(handled: Source, handler: Addr)
    | Remove(dropped: Source)
    | Poll(pending: Pending)
    | Enter(target: Addr, returnTo: Addr)
    | Leave
    | Iret
    | Other(next: Addr, line: Addr, err: ErrorState)

  /** The interrupted program, as it was when the running handler was dispatched. */
  datatype Mode = Main | Handler(sub: bool, at: Rt)

  /** The runtime with a history of the dispatch in progress. */
  datatype Machine = Machine(rt: Rt, mode: Mode)

  function IretFrames(gosub: seq<Frame>): nat {
    if gosub == [] then 0
    else (if gosub[0].ret.IretToken? then 1 else 0) + IretFrames(gosub[1..])
  }

  /**
   What the program may do next. Handlers are balanced: they leave the GOSUB levels of the
   interrupted program alone, a SUB handler ends with END SUB, which runs into the
   trampoline, and another handler executes IRETURN at its own level.
   */
  predicate Legal(m: Machine, s: Step) {
    var rt := m.rt;
    match s
    case Arrive(_) => true
    case Register(_, _) => rt.next.At?
    case Remove(_) => rt.next.At?
    case Poll(_) => true
    case Enter(_, _) => rt.next.At? && |rt.gosub| < MAXGOSUB
    case Leave =>
      && rt.next.At? && rt.gosub != []
      && (m.mode.Handler? && !m.mode.sub ==> |rt.gosub| > |m.mode.at.gosub|)
    case Iret =>
      && m.mode.Handler?
      && (if m.mode.sub then rt.next.IretToken? else |rt.gosub| == |m.mode.at.gosub|)
    case Other(_, _, _) => rt.next.At?
  }

  /** A Poll that fails with a full GOSUB stack ends the run at the prompt; the machine then stops. */
  function Apply(m: Machine, s: Step, prog: Program, cap: nat): Option<Machine>
    requires cap > 0
  {
    var rt := m.rt;
    match s
    case Arrive(e) => Some(m.(rt := rt.(latches := rt.latches + {e})))
    case Register(e, a) =>
      Some(m.(rt := rt.(handlers := rt.handlers[e := a], used := true, latches := rt.latches - {e})))
    case Remove(e) => Some(m.(rt := rt.(handlers := rt.handlers - {e}, latches := rt.latches - {e})))
    case Poll(p) =>
      var (r, v) := Check(rt, prog, p, cap);
      (match v
       case NoInterrupt => Some(m)
       case Dispatched => Some(Machine(r, Handler(|r.gosub| > |rt.gosub|, rt)))
       case TooManySubs => None)
    case Enter(target, returnTo) =>
      Some(m.(rt := rt.(gosub := rt.gosub + [Frame(At(returnTo), rt.line)], locals := rt.locals + 1, next := At(target))))
    case Leave => (match Return(rt) case None => None case Some(r) => Some(m.(rt := r)))
    case Iret => (match Ireturn(rt) case None => None case Some(r) => Some(Machine(r, Main)))
    case Other(next, line, err) => Some(m.(rt := rt.(next := At(next), line := line, err := err)))
  }

  /** The state after a legal run; None when the run ends in the error of a full GOSUB stack. */
  function RunSteps(m: Machine, ss: seq<Step>, prog: Program, cap: nat): Option<Machine>
    requires cap > 0
    decreases |ss|
  {
    if ss == [] then Some(m) else
    var r := Apply(m, ss[0], prog, cap);
    if r.Some? then RunSteps(r.value, ss[1..], prog, cap) else None
  }

  ghost predicate LegalRun(m: Machine, ss: seq<Step>, prog: Program, cap: nat)
    requires cap > 0
    decreases |ss|
  {
    ss != [] ==>
      Legal(m, ss[0]) &&
      var r := Apply(m, ss[0], prog, cap);
      r.Some? ==> LegalRun(r.value, ss[1..], prog, cap)
  }

  predicate Plain(gosub: seq<Frame>) {
    forall k :: 0 <= k < |gosub| ==> gosub[k].ret.At?
  }

  /** Ties the runtime to the dispatch in progress. */
  ghost predicate Inv(m: Machine, cap: nat)
    requires cap > 0
  {
    var rt := m.rt;
    match m.mode
    case Main => rt.ret.None? && rt.next.At? && Plain(rt.gosub)
    case Handler(sub, at) =>
      var d := |at.gosub|;
      && at.ret.None? && at.next.At? && Plain(at.gosub)
      && rt.ret == Some(at.next)
      && rt.saved == Saved(at.err, cap)
      && |rt.gosub| >= d && rt.gosub[..d] == at.gosub
      && (if sub && rt.next.At? then
            && |rt.gosub| > d && rt.gosub[d] == Frame(IretToken, at.line) && Plain(rt.gosub[d + 1..])
            && rt.locals == at.locals + 1 + (|rt.gosub| - d)
          else if sub then
            |rt.gosub| == d && rt.locals == at.locals + 1 && rt.line == at.line
          else
            && rt.next.At? && Plain(rt.gosub)
            && rt.locals == at.locals + 1 + (|rt.gosub| - d))
  }

  lemma PollKeepsInv(m: Machine, p: Pending, prog: Program, cap: nat)
    requires cap > 0 && Inv(m, cap)
    ensures var r := Apply(m, Poll(p), prog, cap); r.Some? ==> Inv(r.value, cap)
  {
    if m.mode.Main? {
      var (r, v) := Check(m.rt, prog, p, cap);
      if v.Dispatched? {
        var d := |m.rt.gosub|;
        assert r.gosub[..d] == m.rt.gosub;
        assert |r.gosub| > d ==> r.gosub[d + 1..] == [];
      }
    }
  }

  lemma EnterKeepsInv(m: Machine, s: Step, prog: Program, cap: nat)
    requires cap > 0 && Inv(m, cap) && s.Enter? && Legal(m, s)
    ensures Inv(Apply(m, s, prog, cap).value, cap)
  {
    if m.mode.Handler? {
      var d := |m.mode.at.gosub|;
      var f := Frame(At(s.returnTo), m.rt.line);
      var g := m.rt.gosub + [f];
      assert g[..d] == m.rt.gosub[..d];
      assert m.mode.sub ==> g[d + 1..] == m.rt.gosub[d + 1..] + [f];
    }
  }

  lemma LeaveKeepsInv(m: Machine, prog: Program, cap: nat)
    requires cap > 0 && Inv(m, cap) && Legal(m, Leave)
    ensures Apply(m, Leave, prog, cap).Some? && Inv(Apply(m, Leave, prog, cap).value, cap)
  {
    var gosub := m.rt.gosub;
    var n := |gosub| - 1;
    if m.mode.Handler? {
      var d := |m.mode.at.gosub|;
      assert gosub[..n][..d] == gosub[..d];
      if m.mode.sub && n > d {
        assert gosub[..n][d + 1..] == gosub[d + 1..][..n - d - 1];
        assert gosub[n] == gosub[d + 1..][n - d - 1];
      }
    }
  }

  lemma StepKeepsInv(m: Machine, s: Step, prog: Program, cap: nat)
    requires cap > 0 && Inv(m, cap) && Legal(m, s)
    ensures var r := Apply(m, s, prog, cap); r.Some? ==> Inv(r.value, cap)
    ensures s.Iret? || s.Leave? ==> Apply(m, s, prog, cap).Some?
  {
    match s
    case Poll(p) => PollKeepsInv(m, p, prog, cap);
    case Enter(_, _) => EnterKeepsInv(m, s, prog, cap);
    case Leave => LeaveKeepsInv(m, prog, cap);
    case _ =>
  }

  lemma {:induction false} RunKeepsInv(m: Machine, ss: seq<Step>, prog: Program, cap: nat)
    requires cap > 0 && Inv(m, cap) && LegalRun(m, ss, prog, cap)
    ensures var r := RunSteps(m, ss, prog, cap); r.Some? ==> Inv(r.value, cap)
    decreases |ss|
  {
    if ss != [] {
      StepKeepsInv(m, ss[0], prog, cap);
      var r := Apply(m, ss[0], prog, cap);
      if r.Some? {
        RunKeepsInv(r.value, ss[1..], prog, cap);
      }
    }
  }

  lemma {:induction false} PlainHasNoIret(gosub: seq<Frame>)
    ensures Plain(gosub) <==> IretFrames(gosub) == 0
    decreases |gosub|
  {
    if gosub != [] {
      PlainHasNoIret(gosub[1..]);
      if Plain(gosub[1..]) && gosub[0].ret.At? {
        forall k | 0 <= k < |gosub|
          ensures gosub[k].ret.At?
        {
          if k > 0 { assert gosub[k] == gosub[1..][k - 1]; }
        }
      }
    }
  }

  lemma {:induction false} IretFramesAppend(a: seq<Frame>, b: seq<Frame>)
    ensures IretFrames(a + b) == IretFrames(a) + IretFrames(b)
    decreases |a|
  {
    if a == [] {
      assert a + b == b;
    } else {
      assert (a + b)[1..] == a[1..] + b;
      IretFramesAppend(a[1..], b);
    }
  }

  /**
   At every point of every legal run: handlers do not nest, and the GOSUB stack holds one IRET
   trampoline while a SUB handler is in its body and none at any other time.
   */
  lemma HandlersNeverNest(m: Machine, ss: seq<Step>, prog: Program, p: Pending, cap: nat)
    requires cap > 0 && Inv(m, cap) && LegalRun(m, ss, prog, cap) && RunSteps(m, ss, prog, cap).Some?
    ensures var r := RunSteps(m, ss, prog, cap).value;
            && (r.mode.Handler? ==> Check(r.rt, prog, p, cap) == (r.rt, NoInterrupt))
            && IretFrames(r.rt.gosub) == (if r.mode.Handler? && r.mode.sub && r.rt.next.At? then 1 else 0)
  {
    hide Apply, Legal, LegalRun, RunSteps;
    RunKeepsInv(m, ss, prog, cap);
    var r := RunSteps(m, ss, prog, cap).value;
    PlainHasNoIret(r.rt.gosub);
    if r.mode.Handler? && r.mode.sub {
      var d := |r.mode.at.gosub|;
      PlainHasNoIret(r.mode.at.gosub);
      if r.rt.next.At? {
        var f, rest := r.rt.gosub[d], r.rt.gosub[d + 1..];
        PlainHasNoIret(rest);
        assert r.rt.gosub == r.mode.at.gosub + ([f] + rest);
        IretFramesAppend(r.mode.at.gosub, [f] + rest);
        assert ([f] + rest)[1..] == rest;
      } else {
        assert r.rt.gosub == r.mode.at.gosub;
      }
    }
  }

  /** A runtime before its program runs: no handler, no event, nothing on the stacks. */
  function Start(a: Addr): Rt {
    Rt(false, map[], {}, None, At(a), 0, 0, [], Clean, Clean)
  }

  /** In every state a program can reach, whatever handlers it registers and whatever arrives. */
  lemma ReachableStatesAreSafe(a: Addr, ss: seq<Step>, prog: Program, p: Pending, cap: nat)
    requires cap > 0 && LegalRun(Machine(Start(a), Main), ss, prog, cap)
    requires RunSteps(Machine(Start(a), Main), ss, prog, cap).Some?
    ensures var r := RunSteps(Machine(Start(a), Main), ss, prog, cap).value;
            && Inv(r, cap)
            && (r.mode.Handler? ==> Check(r.rt, prog, p, cap) == (r.rt, NoInterrupt))
            && IretFrames(r.rt.gosub) == (if r.mode.Handler? && r.mode.sub && r.rt.next.At? then 1 else 0)
  {
    hide RunSteps, LegalRun;
    var m := Machine(Start(a), Main);
    RunKeepsInv(m, ss, prog, cap);
    HandlersNeverNest(m, ss, prog, p, cap);
  }

  /** A SUB or GOSUB entered and left again goes on where it was called from. */
  lemma LeaveUndoesEnter(m: Machine, target: Addr, returnTo: Addr, prog: Program, cap: nat)
    requires cap > 0 && Legal(m, Enter(target, returnTo))
    ensures var inside := Apply(m, Enter(target, returnTo), prog, cap);
            && inside.Some? && inside.value.rt.next == At(target)
            && |inside.value.rt.gosub| == |m.rt.gosub| + 1 && inside.value.rt.locals == m.rt.locals + 1
            && Apply(inside.value, Leave, prog, cap) == Some(m.(rt := m.rt.(next := At(returnTo))))
  {
    var rt := m.rt;
    assert (rt.gosub + [Frame(At(returnTo), rt.line)])[..|rt.gosub|] == rt.gosub;
  }

  /** From the start: a handler is registered, its event arrives, the next poll runs it, IRETURN goes back. */
  lemma RegisteredHandlerRuns(a: Addr, s: Source, h: Addr, prog: Program, cap: nat)
    requires cap > 0
    ensures var r := RunSteps(Machine(Start(a), Main), [Register(s, h), Arrive(s), Poll(Quiet)], prog, cap);
            && r.Some? && r.value.mode.Handler? && r.value.rt.latches == {}
            && (h !in prog.subs ==>
                  && r.value.rt.next == At(h)
                  && Apply(r.value, Iret, prog, cap).Some?
                  && Apply(r.value, Iret, prog, cap).value.rt.next == At(a))
            && (h in prog.subs ==>
                  && r.value.rt.next.At? && IsElementEnd(prog.text, h, r.value.rt.next.addr)
                  && Apply(r.value, Leave, prog, cap).Some?
                  && var t := Apply(r.value, Leave, prog, cap).value;
                     t.rt.next == IretToken && Apply(t, Iret, prog, cap).Some?
                     && Apply(t, Iret, prog, cap).value.rt.next == At(a))
  {
    hide NextZero;
    var m := Machine(Start(a), Main);
    var ss := [Register(s, h), Arrive(s), Poll(Quiet)];
    var m1 := Apply(m, ss[0], prog, cap).value;
    var m2 := Apply(m1, ss[1], prog, cap).value;
    assert m2.rt.handlers == map[s := h] && m2.rt.latches == {s};
    assert forall t :: Armed(m2.rt, Quiet, t) <==> t == s;
    DispatchStartsHandler(m2.rt, prog, Quiet, cap, s);
    assert ss[1..] == [Arrive(s), Poll(Quiet)] && ss[1..][1..] == [Poll(Quiet)] && ss[1..][1..][1..] == [];
    var m3 := Apply(m2, ss[2], prog, cap);
    assert RunSteps(m2, [Poll(Quiet)], prog, cap) == m3;
    assert RunSteps(m1, [Arrive(s), Poll(Quiet)], prog, cap) == m3;
    assert RunSteps(m, ss, prog, cap) == m3;
  }

  /** The interrupted program goes on in rt as it was left at `at`. */
  predicate GoesOn(rt: Rt, at: Rt, sub: bool, cap: nat)
    requires cap > 0
  {
    && rt.next == at.next && rt.ret.None? && rt.gosub == at.gosub
    && (at.locals >= 0 ==> rt.locals == at.locals)
    && rt.err == Restored(Saved(at.err, cap))
    && (sub ==> rt.line == at.line)
  }

  /**
   In every reachable state of a handler, IRETURN gives the interrupted program back its next
   statement, local depth, GOSUB stack and error state if and only if the handler has left all
   its GOSUB levels: a SUB handler by END SUB, another one by its RETURNs.
   */
  lemma IreturnRestoresIff(m: Machine, ss: seq<Step>, prog: Program, cap: nat)
    requires cap > 0 && Inv(m, cap) && LegalRun(m, ss, prog, cap) && RunSteps(m, ss, prog, cap).Some?
    requires RunSteps(m, ss, prog, cap).value.mode.Handler?
    ensures var r := RunSteps(m, ss, prog, cap).value;
            && Ireturn(r.rt).Some?
            && (GoesOn(Ireturn(r.rt).value, r.mode.at, r.mode.sub, cap)
                <==> if r.mode.sub then r.rt.next.IretToken? else |r.rt.gosub| == |r.mode.at.gosub|)
            && (!Plain(Ireturn(r.rt).value.gosub) <==> r.mode.sub && r.rt.next.At?)
  {
    RunKeepsInv(m, ss, prog, cap);
    var r := RunSteps(m, ss, prog, cap).value;
    hide RunSteps, LegalRun;
    var d := |r.mode.at.gosub|;
    if r.mode.sub && r.rt.next.At? {
      assert !r.rt.gosub[d].ret.At?;
    }
  }

  /**
   Every IRETURN of every legal run gives the interrupted program back its next statement,
   local depth, GOSUB stack, errno, message (if it fits the buffer) and skip count.
   */
  lemma IreturnRestoresProgram(m: Machine, ss: seq<Step>, prog: Program, cap: nat)
    requires cap > 0 && Inv(m, cap) && LegalRun(m, ss, prog, cap) && RunSteps(m, ss, prog, cap).Some?
    requires Legal(RunSteps(m, ss, prog, cap).value, Iret)
    ensures var r := RunSteps(m, ss, prog, cap).value;
            var at := r.mode.at;
            var back := Apply(r, Iret, prog, cap);
            && back.Some? && back.value.mode.Main?
            && var rt := back.value.rt;
            && rt.next == at.next && rt.ret.None? && rt.gosub == at.gosub
            && (at.locals >= 0 ==> rt.locals == at.locals)
            && rt.err.errno == at.err.errno
            && (rt.err.message == at.err.message <==> |at.err.message| < cap)
            && (CountDown(rt.err).skip == at.err.skip <==> at.err.skip >= 0)
            && (r.mode.sub ==> rt.line == at.line)
  {
    RunKeepsInv(m, ss, prog, cap);
    var r := RunSteps(m, ss, prog, cap).value;
    ErrorStateSurvives(r.mode.at.err, cap);
  }

  // ---------- events over runs ----------

  /** A latch stays set until a Poll picks its own source or its handler is registered anew or removed. */
  lemma LatchStaysUntilDispatched(m: Machine, s: Step, prog: Program, cap: nat, e: Source)
    requires cap > 0 && e in m.rt.latches && Apply(m, s, prog, cap).Some?
    ensures e !in Apply(m, s, prog, cap).value.rt.latches
       <==> || (s.Poll? && m.rt.used && m.rt.ret.None? && Pick(m.rt, s.pending) == Some(e))
            || s == Remove(e) || (s.Register? && s.handled == e)
  {
  }

  const Quiet := Pending(false, false)

  ghost function ArmedSet(rt: Rt): set<Source> {
    set s: Source | s in rt.latches && Armed(rt, Quiet, s)
  }

  /** A round: a Poll, a handler body in which nothing arrives, and the IRETURN that ends it. */
  ghost predicate IsRound(m: Machine, body: seq<Step>, prog: Program, cap: nat)
    requires cap > 0
  {
    && LegalRun(m, [Poll(Quiet)] + body + [Iret], prog, cap)
    && Undisturbed(body)
  }

  /** Nothing arrives, the handlers stay the same, and no IRETURN comes early. */
  predicate Undisturbed(body: seq<Step>) {
    forall k :: 0 <= k < |body| ==> !body[k].Arrive? && !body[k].Register? && !body[k].Remove? && !body[k].Iret?
  }

  /** An undisturbed handler body changes neither latches, handlers nor the dispatch in progress. */
  lemma {:induction false} BodyKeepsEvents(m: Machine, body: seq<Step>, prog: Program, cap: nat)
    requires cap > 0 && Inv(m, cap) && m.mode.Handler? && LegalRun(m, body + [Iret], prog, cap)
    requires Undisturbed(body)
    ensures var r := RunSteps(m, body + [Iret], prog, cap);
            && r.Some? && Inv(r.value, cap) && r.value.mode.Main?
            && r.value.rt.latches == m.rt.latches && r.value.rt.handlers == m.rt.handlers
            && r.value.rt.used == m.rt.used && r.value.rt.gosub == m.mode.at.gosub
    decreases |body|
  {
    var ss := body + [Iret];
    StepKeepsInv(m, ss[0], prog, cap);
    var r := Apply(m, ss[0], prog, cap);
    if body == [] {
      assert ss[1..] == [];
      assert RunSteps(r.value, ss[1..], prog, cap) == r;
    } else {
      assert ss[1..] == body[1..] + [Iret];
      BodyKeepsEvents(r.value, body[1..], prog, cap);
    }
  }

  /** One round takes exactly the armed event of highest priority. */
  lemma RoundTakesOneEvent(m: Machine, body: seq<Step>, prog: Program, cap: nat)
    requires cap > 0 && Inv(m, cap) && m.mode.Main? && m.rt.used && |m.rt.gosub| < MAXGOSUB
    requires ArmedSet(m.rt) != {} && IsRound(m, body, prog, cap)
    ensures var r := RunSteps(m, [Poll(Quiet)] + body + [Iret], prog, cap);
            && Pick(m.rt, Quiet).Some? && Pick(m.rt, Quiet).value in ArmedSet(m.rt)
            && r.Some? && Inv(r.value, cap) && r.value.mode.Main? && r.value.rt.used
            && r.value.rt.gosub == m.rt.gosub
            && ArmedSet(r.value.rt) == ArmedSet(m.rt) - {Pick(m.rt, Quiet).value}
  {
    var e :| e in ArmedSet(m.rt);
    PickIsHighestPriority(m.rt, Quiet);
    var ss := [Poll(Quiet)] + body + [Iret];
    assert ss[1..] == body + [Iret];
    StepKeepsInv(m, ss[0], prog, cap);
    var r := Apply(m, ss[0], prog, cap);
    BodyKeepsEvents(r.value, body, prog, cap);
    var z := RunSteps(r.value, body + [Iret], prog, cap).value.rt;
    assert z.latches == m.rt.latches - {Pick(m.rt, Quiet).value};
    forall s: Source
      ensures s in ArmedSet(z) <==> s in ArmedSet(m.rt) - {Pick(m.rt, Quiet).value}
    {
    }
  }

  /** Rounds one after the other. */
  ghost predicate AreRounds(m: Machine, bodies: seq<seq<Step>>, prog: Program, cap: nat)
    requires cap > 0
    decreases |bodies|
  {
    bodies != [] ==>
      IsRound(m, bodies[0], prog, cap) &&
      var r := RunSteps(m, [Poll(Quiet)] + bodies[0] + [Iret], prog, cap);
      r.Some? ==> AreRounds(r.value, bodies[1..], prog, cap)
  }

  function RunRounds(m: Machine, bodies: seq<seq<Step>>, prog: Program, cap: nat): Option<Machine>
    requires cap > 0
    decreases |bodies|
  {
    if bodies == [] then Some(m) else
    var r := RunSteps(m, [Poll(Quiet)] + bodies[0] + [Iret], prog, cap);
    if r.Some? then RunRounds(r.value, bodies[1..], prog, cap) else None
  }

  /**
   With room on the GOSUB stack and nothing arriving, n rounds take n of the armed events:
   after exactly as many rounds as events were armed, and no sooner, the next Poll finds none.
   */
  lemma {:induction false} EventsAreDrained(m: Machine, bodies: seq<seq<Step>>, prog: Program, cap: nat)
    requires cap > 0 && Inv(m, cap) && m.mode.Main? && m.rt.used && |m.rt.gosub| < MAXGOSUB
    requires |bodies| <= |ArmedSet(m.rt)| && AreRounds(m, bodies, prog, cap)
    ensures var r := RunRounds(m, bodies, prog, cap);
            && r.Some? && r.value.mode.Main? && Inv(r.value, cap) && r.value.rt.gosub == m.rt.gosub
            && |ArmedSet(r.value.rt)| == |ArmedSet(m.rt)| - |bodies|
            && (Check(r.value.rt, prog, Quiet, cap).1.NoInterrupt? <==> |bodies| == |ArmedSet(m.rt)|)
    decreases |bodies|
  {
    if bodies == [] {
      CheckConservesEvents(m.rt, prog, Quiet, cap);
      if ArmedSet(m.rt) == {} {
        forall s
          ensures !Armed(m.rt, Quiet, s)
        {
          assert s !in ArmedSet(m.rt);
        }
      } else {
        var s :| s in ArmedSet(m.rt);
        assert Armed(m.rt, Quiet, s);
      }
    } else {
      RoundTakesOneEvent(m, bodies[0], prog, cap);
      EventsAreDrained(RunSteps(m, [Poll(Quiet)] + bodies[0] + [Iret], prog, cap).value, bodies[1..], prog, cap);
    }
  }
}
