/**
  * A session as a list of steps and four fields. `Issue`
  * and `Deliver` say what the two calls do to the fields; the lemmas speak of
  * any list of steps and any sequence of calls.
  */
module SessionMachine {
  import opened Bytes
  import opened FrameCodec

  datatype Phase =
    | Sync | Status | BaudProbe | BaudCommit | LinkTest | Erase | Write | Options | Run

  datatype Expect =
    | Nothing
    | Echo
    | Ack(cmd: Byte, payload: seq<Byte>)
    | AckLen(cmd: Byte, payloadLen: nat)
    | BlockAck(sum: Byte)

  datatype Step = Step(
    phase: Phase,
    frame: Frame,
    wants: Expect,
    timeoutMs: nat,
    retuneBefore: Option<U32>,
    retuneAfter: Option<U32>,
    writeAddr: Option<U32>)

  datatype Action =
    | Send(index: nat, step: Step, bytes: seq<Byte>, expectReply: bool)
    | SetBaud(baud: U32)
    | AwaitingReply
    | Finished

  datatype SessionError =
    | NotAwaiting
    | WrongCommand(wantCmd: Byte, gotCmd: Byte)
    | WrongDirection(gotDir: Dir)
    | NotAnEcho(got: Frame)
    | WrongPayload(wantPayload: seq<Byte>, gotPayload: seq<Byte>)
    | WrongPayloadLen(wantLen: nat, gotLen: nat)
    | BlockAckMismatch(addr: U32, wantSum: Byte, gotSum: Byte)

  const REPLY_ACK: Byte := 0x80

  // --------------------------------------------------------------- the fields

  datatype Progress = Progress(at: nat, awaiting: bool, writesStarted: bool, writesFinished: bool) {
    predicate Indeterminate() { writesStarted && !writesFinished }

    /** How many steps have been handed out by `next_action`. */
    function Handed(): nat { at + if awaiting then 1 else 0 }
  }

  const FRESH := Progress(0, false, false, false)

  predicate HasWrite(steps: seq<Step>, n: nat)
    requires n <= |steps|
  {
    exists i :: 0 <= i < n && steps[i].phase == Write
  }

  /** No write step at `n` or beyond. */
  predicate WritesEndBy(steps: seq<Step>, n: nat) {
    forall i :: n <= i < |steps| ==> steps[i].phase != Write
  }

  /** What the fields always satisfy. */
  predicate Sound(steps: seq<Step>, p: Progress) {
    && p.Handed() <= |steps|
    && (p.awaiting ==> steps[p.at].wants != Nothing)
    && (p.writesStarted <==> HasWrite(steps, p.Handed()))
    && (p.writesFinished <==> HasWrite(steps, p.at) && WritesEndBy(steps, p.at))
  }

  function MovedOn(steps: seq<Step>, p: Progress): Progress
    requires p.at < |steps|
  {
    p.(at := p.at + 1, awaiting := false,
       writesFinished := p.writesFinished || (steps[p.at].phase == Write && WritesEndBy(steps, p.at + 1)))
  }

  /** `next_action`, on the fields. */
  function Issue(steps: seq<Step>, p: Progress): Progress
    requires Sound(steps, p)
  {
    if p.awaiting || p.at == |steps| then p
    else
      var q := p.(writesStarted := p.writesStarted || steps[p.at].phase == Write);
      if steps[p.at].wants != Nothing then q.(awaiting := true) else MovedOn(steps, q)
  }

  function IssuedAction(steps: seq<Step>, p: Progress): Action
    requires Sound(steps, p)
  {
    if p.awaiting then AwaitingReply
    else if p.at == |steps| then Finished
    else
      var step := steps[p.at];
      Send(p.at, step, Encode(step.frame), step.wants != Nothing)
  }

  /** Why `reply` is turned down by `step`, or `None` if it is accepted. */
  function Objection(step: Step, reply: Frame): Option<SessionError> {
    if reply.dir != McuToHost then Some(WrongDirection(reply.dir))
    else match step.wants
      case Nothing => Some(NotAwaiting)
      case Echo => if IsEchoOf(reply, step.frame) then None else Some(NotAnEcho(reply))
      case Ack(cmd, payload) =>
        if reply.cmd != cmd then Some(WrongCommand(cmd, reply.cmd))
        else if reply.payload != payload then Some(WrongPayload(payload, reply.payload))
        else None
      case AckLen(cmd, len) =>
        if reply.cmd != cmd then Some(WrongCommand(cmd, reply.cmd))
        else if |reply.payload| != len then Some(WrongPayloadLen(len, |reply.payload|))
        else None
      case BlockAck(sum) =>
        if reply.cmd != REPLY_ACK then Some(WrongCommand(REPLY_ACK, reply.cmd))
        else if |reply.payload| != 1 then Some(WrongPayloadLen(1, |reply.payload|))
        else if reply.payload[0] != sum then
          Some(BlockAckMismatch(if step.writeAddr.Some? then step.writeAddr.value else 0, sum, reply.payload[0]))
        else None
  }

  /** The one reply, or family of replies, a step takes. */
  predicate Satisfies(step: Step, reply: Frame) {
    match step.wants
    case Nothing => false
    case Echo =>
      step.frame.dir == HostToMcu && reply == Frame(McuToHost, step.frame.cmd, step.frame.payload)
    case Ack(cmd, payload) => reply == Frame(McuToHost, cmd, payload)
    case AckLen(cmd, len) =>
      |reply.payload| == len && reply == Frame(McuToHost, cmd, reply.payload)
    case BlockAck(sum) => reply == Frame(McuToHost, 0x80, [sum])
  }

  lemma AcceptsExactly(step: Step, reply: Frame)
    ensures Objection(step, reply).None? <==> Satisfies(step, reply)
  {
    if step.wants.BlockAck? && |reply.payload| == 1 {
      assert reply.payload == [reply.payload[0]];
    }
  }

  /** `e` is the first thing `reply` gets wrong about the answer `step` wants. */
  predicate FirstFault(step: Step, reply: Frame, e: SessionError) {
    if reply.dir == HostToMcu then e == WrongDirection(HostToMcu)
    else
      match e
      case NotAwaiting => step.wants == Nothing
      case WrongDirection(_) => false
      case NotAnEcho(got) =>
        && step.wants == Echo && got == reply
        && !(step.frame.dir == HostToMcu && reply == Frame(McuToHost, step.frame.cmd, step.frame.payload))
      case WrongCommand(want, got) =>
        && got == reply.cmd && want != got
        && ((step.wants.Ack? && want == step.wants.cmd) || (step.wants.AckLen? && want == step.wants.cmd)
            || (step.wants.BlockAck? && want == 0x80))
      case WrongPayload(want, got) =>
        && step.wants.Ack? && reply.cmd == step.wants.cmd
        && want == step.wants.payload && got == reply.payload && want != got
      case WrongPayloadLen(want, got) =>
        && got == |reply.payload| && want != got
        && ((step.wants.AckLen? && reply.cmd == step.wants.cmd && want == step.wants.payloadLen)
            || (step.wants.BlockAck? && reply.cmd == 0x80 && want == 1))
      case BlockAckMismatch(addr, want, got) =>
        && step.wants.BlockAck? && reply.cmd == 0x80 && reply.payload == [got]
        && want == step.wants.sum && want != got
        && addr == if step.writeAddr.Some? then step.writeAddr.value else 0
  }

  /** A refused reply is refused for its first fault. */
  lemma ObjectsExactly(step: Step, reply: Frame, e: SessionError)
    ensures Objection(step, reply) == Some(e) <==> FirstFault(step, reply, e)
  {
    if step.wants.BlockAck? && |reply.payload| == 1 {
      assert reply.payload == [reply.payload[0]];
    }
  }

  /** `on_reply`, on the fields: a rejected reply changes nothing. */
  function Deliver(steps: seq<Step>, p: Progress, reply: Frame): Progress
    requires Sound(steps, p)
  {
    if p.awaiting && Objection(steps[p.at], reply).None? then MovedOn(steps, p) else p
  }

  function Verdict(steps: seq<Step>, p: Progress, reply: Frame): Option<SessionError>
    requires Sound(steps, p)
  {
    if p.awaiting then Objection(steps[p.at], reply) else Some(NotAwaiting)
  }

  lemma StaysSound(steps: seq<Step>, p: Progress, reply: Frame)
    requires Sound(steps, p)
    ensures Sound(steps, Issue(steps, p)) && Sound(steps, Deliver(steps, p, reply))
  {
  }

  /** What a call hands out, and that it answers the state it finds. */
  lemma ActsExactly(steps: seq<Step>, p: Progress)
    requires Sound(steps, p)
    ensures var a, q := IssuedAction(steps, p), Issue(steps, p);
            && (a == AwaitingReply <==> p.awaiting)
            && (a == Finished <==> !p.awaiting && p.at == |steps|)
            && !a.SetBaud?
            && (a.Send? ==>
                  && a.index == p.at && a.step == steps[p.at] && a.bytes == Encode(steps[p.at].frame)
                  && (a.expectReply <==> q.awaiting) && q.Handed() == p.Handed() + 1)
            && (!a.Send? ==> q == p)
  {
  }

  /** Outside a wait every reply is turned away and changes nothing. */
  lemma UnaskedReply(steps: seq<Step>, p: Progress, reply: Frame)
    requires Sound(steps, p) && !p.awaiting
    ensures Verdict(steps, p, reply) == Some(NotAwaiting) && Deliver(steps, p, reply) == p
  {
  }

  // ---------------------------------------------------------------- the object

  class Session {
    const steps: seq<Step>
    var at: nat
    var awaiting: bool
    var writesStarted: bool
    var writesFinished: bool

    function State(): Progress
      reads this
    {
      Progress(at, awaiting, writesStarted, writesFinished)
    }

    ghost predicate Valid()
      reads this
    {
      Sound(steps, State())
    }

    constructor (steps: seq<Step>)
      ensures Valid() && this.steps == steps && State() == FRESH
    {
      this.steps := steps;
      at, awaiting, writesStarted, writesFinished := 0, false, false, false;
    }

    method NextAction() returns (a: Action)
      requires Valid()
      modifies this
      ensures Valid()
      ensures State() == Issue(steps, old(State())) && a == IssuedAction(steps, old(State()))
    {
      if awaiting { return AwaitingReply; }
      if at >= |steps| { return Finished; }
      var step := steps[at];
      var expectReply := step.wants != Nothing;
      if step.phase == Write { writesStarted := true; }
      a := Send(at, step, Encode(step.frame), expectReply);
      if expectReply {
        awaiting := true;
      } else {
        Advance();
      }
    }

    method Advance()
      requires at < |steps|
      modifies this
      ensures State() == MovedOn(steps, old(State()))
    {
      var step := steps[at];
      if step.phase == Write {
        // the last write step, searched from the end
        var lastWrite := |steps| - 1;
        while steps[lastWrite].phase != Write
          invariant at <= lastWrite < |steps| && WritesEndBy(steps, lastWrite + 1)
          decreases lastWrite
        {
          lastWrite := lastWrite - 1;
        }
        if at == lastWrite { writesFinished := true; }
      }
      at := at + 1;
      awaiting := false;
    }

    method OnReply(reply: Frame) returns (r: Result<(), SessionError>)
      requires Valid()
      modifies this
      ensures Valid()
      ensures State() == Deliver(steps, old(State()), reply)
      ensures match Verdict(steps, old(State()), reply)
              case None => r == Ok(())
              case Some(e) => r == Err(e)
    {
      if !awaiting { return Err(NotAwaiting); }
      var step := steps[at];
      if reply.dir != McuToHost { return Err(WrongDirection(reply.dir)); }
      match step.wants {
        case Nothing =>
          assert false;
        case Echo =>
          if !IsEchoOf(reply, step.frame) { return Err(NotAnEcho(reply)); }
        case Ack(cmd, payload) =>
          if reply.cmd != cmd { return Err(WrongCommand(cmd, reply.cmd)); }
          if reply.payload != payload { return Err(WrongPayload(payload, reply.payload)); }
        case AckLen(cmd, len) =>
          if reply.cmd != cmd { return Err(WrongCommand(cmd, reply.cmd)); }
          if |reply.payload| != len { return Err(WrongPayloadLen(len, |reply.payload|)); }
        case BlockAck(sum) =>
          if reply.cmd != REPLY_ACK { return Err(WrongCommand(REPLY_ACK, reply.cmd)); }
          if |reply.payload| != 1 { return Err(WrongPayloadLen(1, |reply.payload|)); }
          if reply.payload[0] != sum {
            var addr: U32 := if step.writeAddr.Some? then step.writeAddr.value else 0;
            return Err(BlockAckMismatch(addr, sum, reply.payload[0]));
          }
      }
      Advance();
      return Ok(());
    }

    /** A write step has been handed out, and a write step is still ahead or unanswered. */
    predicate FlashIsIndeterminate()
      requires Valid()
      reads this
      ensures FlashIsIndeterminate() <==> HasWrite(steps, State().Handed()) && !WritesEndBy(steps, at)
    {
      writesStarted && !writesFinished
    }

    predicate IsFinished()
      requires Valid()
      reads this
      ensures IsFinished() <==> IssuedAction(steps, State()) == Finished
    {
      at >= |steps| && !awaiting
    }
  }

  // --------------------------------------------------- any sequence of calls

  datatype Call = Next | Reply(frame: Frame)

  /** What a sequence of calls has led to: the fields, the steps handed out, the replies accepted. */
  datatype Trace = Trace(now: Progress, sent: seq<nat>, accepted: seq<(nat, Frame)>)

  function TraceStep(steps: seq<Step>, t: Trace, call: Call): Trace
    requires Sound(steps, t.now)
  {
    match call
    case Next =>
      var a := IssuedAction(steps, t.now);
      Trace(Issue(steps, t.now), t.sent + if a.Send? then [a.index] else [], t.accepted)
    case Reply(f) =>
      Trace(Deliver(steps, t.now, f), t.sent,
            t.accepted + if Verdict(steps, t.now, f).None? then [(t.now.at, f)] else [])
  }

  function After(steps: seq<Step>, calls: seq<Call>): (t: Trace)
    ensures Sound(steps, t.now)
  {
    if calls == [] then Trace(FRESH, [], [])
    else
      var t, call := After(steps, calls[..|calls| - 1]), calls[|calls| - 1];
      StaysSound(steps, t.now, if call.Reply? then call.frame else Host(0, []));
      TraceStep(steps, t, call)
  }

  /** The steps that want an answer, among the first `n`. */
  function Answered(steps: seq<Step>, n: nat): seq<nat>
    requires n <= |steps|
  {
    if n == 0 then []
    else Answered(steps, n - 1) + if steps[n - 1].wants != Nothing then [n - 1] else []
  }

  function Indices(n: nat): seq<nat> { seq(n, i => i) }

  function Firsts(rs: seq<(nat, Frame)>): seq<nat> {
    seq(|rs|, i requires 0 <= i < |rs| => rs[i].0)
  }

  /**
    * The steps went out in order, none skipped and none twice, and each step
    * that wants an answer has been left behind with exactly one, which
    * satisfied it.
    */
  predicate FollowsPlan(steps: seq<Step>, t: Trace)
    requires t.now.Handed() <= |steps|
  {
    && t.sent == Indices(t.now.Handed())
    && Firsts(t.accepted) == Answered(steps, t.now.at)
    && forall i :: 0 <= i < |t.accepted| ==>
         t.accepted[i].0 < |steps| && Satisfies(steps[t.accepted[i].0], t.accepted[i].1)
  }

  lemma NextFollowsPlan(steps: seq<Step>, t: Trace)
    requires Sound(steps, t.now) && FollowsPlan(steps, t)
    ensures var u := TraceStep(steps, t, Next); u.now.Handed() <= |steps| && FollowsPlan(steps, u)
  {
  }

  lemma ReplyFollowsPlan(steps: seq<Step>, t: Trace, f: Frame)
    requires Sound(steps, t.now) && FollowsPlan(steps, t)
    ensures var u := TraceStep(steps, t, Reply(f)); u.now.Handed() <= |steps| && FollowsPlan(steps, u)
  {
    if t.now.awaiting {
      AcceptsExactly(steps[t.now.at], f);
      hide Objection, Satisfies;
      var u := TraceStep(steps, t, Reply(f));
      if u.now != t.now { assert Firsts(u.accepted) == Firsts(t.accepted) + [t.now.at]; }
    } else {
      assert t.accepted + [] == t.accepted;
    }
  }

  /** Whatever the caller does, in whatever order, the plan is followed. */
  lemma {:induction false} CallsFollowPlan(steps: seq<Step>, calls: seq<Call>)
    ensures FollowsPlan(steps, After(steps, calls))
  {
    hide FollowsPlan, TraceStep;
    if calls == [] {
      NothingFollowsPlan(steps);
    } else {
      var t := After(steps, calls[..|calls| - 1]);
      CallsFollowPlan(steps, calls[..|calls| - 1]);
      match calls[|calls| - 1]
      case Next => NextFollowsPlan(steps, t);
      case Reply(f) => ReplyFollowsPlan(steps, t, f);
    }
  }

  lemma NothingFollowsPlan(steps: seq<Step>)
    ensures FollowsPlan(steps, Trace(FRESH, [], []))
  {
  }

  /**
    * Exactly when the flash is reported indeterminate: some write step has been
    * handed out and some write step is still not left behind.
    */
  lemma IndeterminateExactly(steps: seq<Step>, calls: seq<Call>)
    ensures var t := After(steps, calls);
            t.now.Indeterminate() <==>
              && (exists i :: i in t.sent && i < |steps| && steps[i].phase == Write)
              && (exists w :: t.now.at <= w < |steps| && steps[w].phase == Write)
  {
    var t := After(steps, calls);
    CallsFollowPlan(steps, calls);
    if HasWrite(steps, t.now.Handed()) {
      var i :| 0 <= i < t.now.Handed() && steps[i].phase == Write;
      assert t.sent[i] == i;
    }
  }
}
