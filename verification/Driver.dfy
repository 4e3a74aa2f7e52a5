/**
  * The driver. `RunFrom` is a whole run as a function of the environment;
  * `RunSession` is the loop over the objects that performs it.
  */
module Driver {
  import opened Bytes
  import opened FrameCodec
  import opened StreamScan
  import opened StreamReceiver
  import opened SessionMachine
  import opened WireModel

  const RUN_BUFFER := 512

  datatype RunError =
    | Io
    | TimedOut(ms: nat)
    | Rejected(error: SessionError)
    | IndeterminateFlash(inner: RunError)

  datatype RunResult = Done | Stopped(error: RunError)

  function Wrap(p: Progress, e: RunError): RunError {
    if p.Indeterminate() then IndeterminateFlash(e) else e
  }

  // ------------------------------------------------------------ one run, spelled out

  datatype Sending = Through(link: Link, buf: seq<Byte>) | Broken(link: Link)

  /** Change the rate, if asked to, and start over with an empty receiver. */
  function Retuned(env: Env, to: Option<U32>, l: Link, buf: seq<Byte>): Sending {
    if to.None? then Through(l, buf)
    else if env.fails(l.tick) then Broken(Tune(env, l, to.value))
    else Through(Tune(env, l, to.value), [])
  }

  /** Drain, unless told not to, then change the rate. */
  function DrainedAndRetuned(env: Env, tcDrain: bool, to: Option<U32>, l: Link, buf: seq<Byte>): Sending {
    if to.Some? && tcDrain then
      if env.fails(l.tick) then Broken(DrainLink(env, l)) else Retuned(env, to, DrainLink(env, l), buf)
    else Retuned(env, to, l, buf)
  }

  /** Everything between taking a step and waiting for its reply. */
  function Transmit(env: Env, tcDrain: bool, step: Step, l: Link, buf: seq<Byte>): Sending {
    match Retuned(env, step.retuneBefore, l, buf)
    case Broken(m) => Broken(m)
    case Through(m, b) =>
      var m1 := Put(env, m, Encode(step.frame));
      if env.fails(m.tick) then Broken(m1)
      else if env.fails(m1.tick) then Broken(FlushLink(env, m1))
      else DrainedAndRetuned(env, tcDrain, step.retuneAfter, FlushLink(env, m1), b)
  }

  datatype Awaited = Arrived(frame: Frame, link: Link, buf: seq<Byte>) | Silent(link: Link) | Lost(link: Link)

  /** An operation count by which the clock has reached `deadline`. */
  ghost function Horizon(env: Env, deadline: nat): nat
    requires Patient(env)
  {
    assert Reached(env, deadline);
    var k: nat :| env.clock(k) >= deadline;
    k
  }

  /** How many operations the clock may still need to reach `deadline`. */
  ghost function Remaining(env: Env, tick: nat, deadline: nat): nat
    requires Patient(env)
  {
    if Horizon(env, deadline) >= tick then Horizon(env, deadline) - tick else 0
  }

  lemma RemainingDrops(env: Env, tick: nat, deadline: nat)
    requires Patient(env) && env.clock(tick) < deadline
    ensures Remaining(env, tick + 2, deadline) < Remaining(env, tick, deadline)
  {
    var k := Horizon(env, deadline);
    assert env.clock(k) >= deadline;
  }

  /** Read until a valid frame turns up or the deadline passes. */
  ghost function Await(env: Env, l: Link, buf: seq<Byte>, deadline: nat): Awaited
    requires Patient(env)
    decreases Remaining(env, l.tick, deadline)
  {
    match Seek(buf)
    case Found(f, rest) => Arrived(f, l, rest)
    case Dry(rest) =>
      if env.clock(l.tick) >= deadline then Silent(Idle(l))
      else
        var m := Idle(l);
        RemainingDrops(env, l.tick, deadline);
        if env.fails(m.tick) then Lost(Take(env, m, RUN_BUFFER))
        else Await(env, Take(env, m, RUN_BUFFER), rest + Chunk(env, m, RUN_BUFFER), deadline)
  }

  /** Waiting depends on the buffer only through what seeking finds in it. */
  lemma AwaitBySeek(env: Env, l: Link, b1: seq<Byte>, b2: seq<Byte>, deadline: nat)
    requires Patient(env) && Seek(b1) == Seek(b2)
    ensures Await(env, l, b1, deadline) == Await(env, l, b2, deadline)
  {
    hide Seek;
  }

  lemma AwaitFound(env: Env, l: Link, buf: seq<Byte>, deadline: nat)
    requires Patient(env) && Seek(buf).Found?
    ensures Await(env, l, buf, deadline) == Arrived(Seek(buf).frame, l, Seek(buf).rest)
  {
    hide Seek;
  }

  lemma AwaitDry(env: Env, l: Link, buf: seq<Byte>, deadline: nat)
    requires Patient(env) && Seek(buf).Dry?
    ensures var m := Idle(l);
            Await(env, l, buf, deadline) ==
            if env.clock(l.tick) >= deadline then Silent(m)
            else if env.fails(m.tick) then Lost(Take(env, m, RUN_BUFFER))
            else Await(env, Take(env, m, RUN_BUFFER), Seek(buf).rest + Chunk(env, m, RUN_BUFFER), deadline)
  {
    hide Seek;
  }

  /** How one step ends: on to the next, or with an error. */
  datatype StepEnd =
    | Onward(progress: Progress, link: Link, buf: seq<Byte>)
    | Halted(error: RunError, progress: Progress, link: Link)

  /** What becomes of a step whose frame is out and whose reply is awaited. */
  ghost function Hear(env: Env, steps: seq<Step>, q: Progress, l: Link, buf: seq<Byte>): (e: StepEnd)
    requires Patient(env) && Sound(steps, q) && q.awaiting
    ensures Sound(steps, e.progress)
    ensures e.Onward? ==> !e.progress.awaiting && e.progress.at == q.at + 1
  {
    var step := steps[q.at];
    match Await(env, Idle(l), buf, env.clock(l.tick) + step.timeoutMs)
    case Silent(n) => Halted(TimedOut(step.timeoutMs), q, n)
    case Lost(n) => Halted(Io, q, n)
    case Arrived(f, n, b) =>
      var n1 := Marked(n, Replied(f));
      if Objection(step, f).Some? then Halted(Rejected(Objection(step, f).value), q, n1)
      else Onward(MovedOn(steps, q), n1, b)
  }

  /** One step, from taking it to its reply. */
  ghost function StepFrom(env: Env, tcDrain: bool, steps: seq<Step>, p: Progress, l: Link, buf: seq<Byte>): (e: StepEnd)
    requires Patient(env) && Sound(steps, p) && !p.awaiting && p.at < |steps|
    ensures Sound(steps, e.progress)
    ensures e.Onward? ==> !e.progress.awaiting && e.progress.at == p.at + 1
  {
    var step, q := steps[p.at], Issue(steps, p);
    match Transmit(env, tcDrain, step, l, buf)
    case Broken(m) => Halted(Io, q, m)
    case Through(m, b) => if step.wants == Nothing then Onward(q, m, b) else Hear(env, steps, q, m, b)
  }

  datatype Outcome = Outcome(result: RunResult, link: Link, progress: Progress)

  ghost function RunFrom(env: Env, tcDrain: bool, steps: seq<Step>, p: Progress, l: Link, buf: seq<Byte>): (o: Outcome)
    requires Patient(env) && Sound(steps, p) && !p.awaiting
    ensures Sound(steps, o.progress)
    decreases |steps| - p.at
  {
    if p.at == |steps| then Outcome(Done, l, p)
    else match StepFrom(env, tcDrain, steps, p, l, buf)
      case Halted(e, q, m) => Outcome(Stopped(Wrap(q, e)), m, q)
      case Onward(q, m, b) => RunFrom(env, tcDrain, steps, q, m, b)
  }

  // ---------------------------------------------------------------- the loops

  /** The wrapping as the loop does it, by asking the session. */
  function WrapFor(session: Session, e: RunError): (w: RunError)
    requires session.Valid()
    reads session
    ensures w == Wrap(session.State(), e)
  {
    if session.FlashIsIndeterminate() then IndeterminateFlash(e) else e
  }

  /** Write one frame, with the rate changes that ride on it. */
  method SendStep(wire: Wire, step: Step, bytes: seq<Byte>, tcDrain: bool, rx0: Receiver)
      returns (ok: bool, rx: Receiver)
    requires rx0.Valid() && bytes == Encode(step.frame)
    modifies wire
    ensures rx.Valid() && (rx == rx0 || fresh(rx))
    ensures Transmit(wire.env, tcDrain, step, old(wire.State()), old(rx0.buf)) ==
            if ok then Through(wire.State(), rx.buf) else Broken(wire.State())
  {
    hide Encode, Reading, Discards;
    rx := rx0;
    if step.retuneBefore.Some? {
      ok := wire.Retune(step.retuneBefore.value);
      if !ok { return; }
      rx := new Receiver();
    }
    ok := wire.WriteAll(bytes);
    if !ok { return; }
    ok := wire.Flush();
    if !ok { return; }
    if step.retuneAfter.Some? {
      if tcDrain {
        ok := wire.Drain();
        if !ok { return; }
      }
      ok := wire.Retune(step.retuneAfter.value);
      if !ok { return; }
      rx := new Receiver();
    }
  }

  datatype Heard = Caught(frame: Frame) | Timeout | Failed

  /** Read until a valid frame turns up, passing over bad ones. */
  method AwaitFrame(wire: Wire, rx: Receiver, deadline: nat) returns (h: Heard)
    requires rx.Valid() && Patient(wire.env)
    modifies wire, rx
    ensures rx.Valid()
    ensures match Await(wire.env, old(wire.State()), old(rx.buf), deadline)
            case Arrived(f, l, b) => h == Caught(f) && wire.State() == l && rx.buf == b
            case Silent(l) => h == Timeout && wire.State() == l
            case Lost(l) => h == Failed && wire.State() == l
  {
    hide Seek, First, Scan, Reading, Discards, Open, AllDropped, Report, Await, Remaining, Horizon, Patient;
    ghost var whole := Await(wire.env, wire.State(), rx.buf, deadline);
    while true
      invariant rx.Valid()
      invariant Await(wire.env, wire.State(), rx.buf, deadline) == whole
      decreases Remaining(wire.env, wire.tick, deadline), |rx.buf|
    {
      ghost var l, b := wire.State(), rx.buf;
      var r := rx.NextFrame();
      if r.Some? {
        var d := rx.TakeDiscarded();
        if r.value.Ok? {
          AwaitFound(wire.env, l, b, deadline);
          return Caught(r.value.value);
        }
        AwaitBySeek(wire.env, l, b, rx.buf, deadline);
        continue;
      }
      AwaitDry(wire.env, l, b, deadline);
      var now := wire.Now();
      if now >= deadline { return Timeout; }
      RemainingDrops(wire.env, l.tick, deadline);
      var ok, bytes := wire.Read(RUN_BUFFER);
      if !ok { return Failed; }
      if |bytes| > 0 { rx.Feed(bytes); }
      assert rx.buf + [] == rx.buf;
    }
  }

  /** Wait for the reply to the step just sent, and hand it to the session. */
  method HearReply(wire: Wire, session: Session, rx: Receiver) returns (error: Option<RunError>)
    requires session.Valid() && session.awaiting && rx.Valid() && Patient(wire.env)
    modifies wire, session, rx
    ensures session.Valid() && rx.Valid()
    ensures Hear(wire.env, session.steps, old(session.State()), old(wire.State()), old(rx.buf)) ==
            match error
            case None => Onward(session.State(), wire.State(), rx.buf)
            case Some(e) => Halted(e, session.State(), wire.State())
  {
    hide Await, Encode, HasWrite, WritesEndBy, Seek, First, Scan, Reading, Discards, Patient, Objection;
    var step := session.steps[session.at];
    var now := wire.Now();
    var heard := AwaitFrame(wire, rx, now + step.timeoutMs);
    match heard {
      case Timeout => return Some(TimedOut(step.timeoutMs));
      case Failed => return Some(Io);
      case Caught(f) =>
        var d := rx.TakeDiscarded();
        wire.LogReply(f);
        var verdict := session.OnReply(f);
        return if verdict.Err? then Some(Rejected(verdict.error)) else None;
    }
  }

  /** Carry out the step just handed out by the session. */
  method PerformStep(wire: Wire, session: Session, tcDrain: bool, step: Step, bytes: seq<Byte>, expectReply: bool,
                     rx0: Receiver, ghost p: Progress)
      returns (error: Option<RunError>, rx: Receiver)
    requires session.Valid() && rx0.Valid() && Patient(wire.env)
    requires Sound(session.steps, p) && !p.awaiting && p.at < |session.steps|
    requires session.State() == Issue(session.steps, p)
    requires step == session.steps[p.at] && bytes == Encode(step.frame)
    requires expectReply <==> step.wants != Nothing
    modifies wire, session, rx0
    ensures session.Valid() && rx.Valid() && (rx == rx0 || fresh(rx))
    ensures StepFrom(wire.env, tcDrain, session.steps, p, old(wire.State()), old(rx0.buf)) ==
            match error
            case None => Onward(session.State(), wire.State(), rx.buf)
            case Some(e) => Halted(e, session.State(), wire.State())
  {
    hide Transmit, Hear, Encode, HasWrite, WritesEndBy, Reading, Discards, Patient;
    var ok: bool;
    ok, rx := SendStep(wire, step, bytes, tcDrain, rx0);
    if !ok { return Some(Io), rx; }
    if !expectReply { return None, rx; }
    error := HearReply(wire, session, rx);
  }

  /** `run` as written. */
  method RunSession(wire: Wire, session: Session, tcDrain: bool) returns (r: RunResult)
    requires session.Valid() && !session.awaiting && Patient(wire.env)
    modifies wire, session
    ensures session.Valid()
    ensures Outcome(r, wire.State(), session.State()) ==
            RunFrom(wire.env, tcDrain, session.steps, old(session.State()), old(wire.State()), [])
    ensures r == Done ==> session.IsFinished()
  {
    hide StepFrom, Encode, Reading, Discards, Patient, HasWrite, WritesEndBy, Scan;
    var rx := new Receiver();
    ghost var whole := RunFrom(wire.env, tcDrain, session.steps, session.State(), wire.State(), []);
    while true
      invariant session.Valid() && !session.awaiting && rx.Valid() && fresh(rx)
      invariant RunFrom(wire.env, tcDrain, session.steps, session.State(), wire.State(), rx.buf) == whole
      decreases |session.steps| - session.at
    {
      ghost var p := session.State();
      var action := session.NextAction();
      match action {
        case Finished => return Done;
        case AwaitingReply => assert false;
        case SetBaud(_) => assert false;
        case Send(index, step, bytes, expectReply) =>
          var error: Option<RunError>;
          error, rx := PerformStep(wire, session, tcDrain, step, bytes, expectReply, rx, p);
          if error.Some? { return Stopped(WrapFor(session, error.value)); }
      }
    }
  }
}
