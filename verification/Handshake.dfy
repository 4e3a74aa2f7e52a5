/**
  * The handshake loop over the objects: it performs the handshake of
  * `HandshakeSpec`, turn by turn.
  */
module Handshake {
  import opened Bytes
  import opened FrameCodec
  import opened StreamScan
  import opened StreamTheorems
  import opened StreamReceiver
  import opened Stc89
  import opened WireModel
  import opened Driver
  import opened FaultTheorems
  import opened PulseTiming
  import opened HandshakeSpec

  lemma {:induction false} DroppedHoldNoFrames(es: seq<Event>)
    requires AllDropped(es)
    ensures FramesOf(es) == []
  {
    if es != [] { DroppedHoldNoFrames(es[1..]); }
  }

  /** One pull adds at most the frame it reports. */
  lemma PullFrames(es0: seq<Event>, es: seq<Event>, r: Option<Result<Frame, FrameError>>)
    requires es0 <= es
    requires match r
             case None => AllDropped(es[|es0|..])
             case Some(x) => |es0| < |es| && AllDropped(es[|es0|..|es| - 1]) && Report(es[|es| - 1]) == Some(x)
    ensures FramesOf(es) == FramesOf(es0) + if r.Some? && r.value.Ok? then [r.value.value] else []
  {
    SplitAt(es, es0);
    if r.None? {
      DroppedHoldNoFrames(es[|es0|..]);
      hide *;
      FramesConcat(es0, es[|es0|..]);
    } else {
      var last := es[|es| - 1];
      DroppedHoldNoFrames(es[|es0|..|es| - 1]);
      FramesOfOne(last);
      ReportedFrame(last, r.value);
      hide *;
      FramesSnoc(es0, es[|es0|..|es| - 1], last);
    }
  }

  lemma FramesSnoc(es: seq<Event>, mid: seq<Event>, last: Event)
    requires FramesOf(mid) == []
    ensures FramesOf(es + mid + [last]) == FramesOf(es) + FramesOf([last])
  {
    hide *;
    FramesConcat(es, mid);
    FramesConcat(es + mid, [last]);
    assert FramesOf(es) + [] == FramesOf(es);
  }

  lemma ReportedFrame(e: Event, x: Result<Frame, FrameError>)
    requires Report(e) == Some(x)
    ensures (if e.Emitted? then [e.frame] else []) == if x.Ok? then [x.value] else []
  {
  }

  lemma FramesOfOne(e: Event)
    ensures FramesOf([e]) == if e.Emitted? then [e.frame] else []
  {
    assert [e][1..] == [];
  }

  /** Take every frame the receiver has, up to the first status frame; count the discarded bytes. */
  method TakeFrames(rx: Receiver) returns (found: Option<Frame>, noise: nat)
    requires rx.Valid() && rx.discarded == [] && NoStatus(FramesOf(rx.events))
    modifies rx
    ensures rx.Valid() && rx.fed == old(rx.fed) && rx.discarded == []
    ensures |rx.taken| == |old(rx.taken)| + noise
    ensures match found
            case None => Scan(rx.fed) == Scanned(rx.events, rx.buf) && NoStatus(FramesOf(rx.events))
            case Some(f) => IsStatusFrame(f) && exists xs :: NoStatus(xs) && FramesOf(rx.events) == xs + [f]
  {
    hide First, Scan, Seek, Discards, Open, AllDropped, FramesOf, Report, Reading, IsStatusFrame;
    noise := 0;
    while true
      invariant rx.Valid() && rx.fed == old(rx.fed) && rx.discarded == []
      invariant |rx.taken| == |old(rx.taken)| + noise
      invariant NoStatus(FramesOf(rx.events))
      decreases |rx.buf|
    {
      ghost var es := rx.events;
      var r := rx.NextFrame();
      PullFrames(es, rx.events, r);
      var d := rx.TakeDiscarded();
      noise := noise + |d|;
      if r.None? { return None, noise; }
      if r.value.Ok? && IsStatusFrame(r.value.value) {
        return Some(r.value.value), noise;
      }
    }
  }

  lemma StatusFound(fed: seq<Byte>, events: seq<Event>, buf: seq<Byte>, f: Frame)
    requires Reading(fed, events, buf) && IsStatusFrame(f)
    requires exists xs :: NoStatus(xs) && FramesOf(events) == xs + [f]
    ensures StatusHeard(fed) == Some(f)
  {
    var xs :| NoStatus(xs) && FramesOf(events) == xs + [f];
    FramesConcat(events, Scan(buf).events);
    hide IsStatusFrame, Scan, FramesOf, Spelling;
    var more := FramesOf(Scan(buf).events);
    Regroup(xs, [f], more);
    FirstBehindNone(xs, f, more);
  }

  lemma {:induction false} FirstBehindNone(xs: seq<Frame>, f: Frame, more: seq<Frame>)
    requires NoStatus(xs) && IsStatusFrame(f)
    ensures FirstStatusIn(xs + [f] + more) == Some(f)
  {
    hide IsStatusFrame;
    if xs != [] {
      Behead(xs, [f], more);
      FirstBehindNone(xs[1..], f, more);
    }
  }

  lemma {:induction false} NoneIn(fs: seq<Frame>)
    requires NoStatus(fs)
    ensures FirstStatusIn(fs).None?
  {
    hide IsStatusFrame;
    if fs != [] { NoneIn(fs[1..]); }
  }

  /** Send one sync byte if it is time to, and hold while a frame is coming in. */
  method PulseIfDue(wire: Wire, pending: nat, lastByte: nat, lastPulse: int, ghost heard: seq<Byte>)
      returns (ok: bool, pulsed: int)
    requires pending == |Scan(heard).rest|
    modifies wire
    ensures PulsePart(wire.env, Ear(old(wire.State()), heard, lastPulse, lastByte)) ==
            Part(ok, Ear(wire.State(), heard, pulsed, lastByte))
  {
    hide Scan;
    ok, pulsed := true, lastPulse;
    if pending > 0 {
      var now := wire.Now();
      if now - lastByte < PARTIAL_STALL { return; }
    }
    var now := wire.Now();
    if now - lastPulse < PULSE_EVERY { return; }
    ok := wire.WriteAll([SYNC_BYTE]);
    if !ok { return; }
    ok := wire.Flush();
    if !ok { return; }
    pulsed := wire.Now();
  }

  /** Read once, if the line lets it. */
  method ReadOnce(wire: Wire, rx: Receiver, lastByte: nat, ghost lastPulse: int) returns (ok: bool, heardAt: nat)
    requires rx.Valid()
    modifies wire, rx
    ensures rx.Valid()
    ensures ReadPart(wire.env, Ear(old(wire.State()), old(rx.fed), lastPulse, lastByte)) ==
            Part(ok, Ear(wire.State(), rx.fed, lastPulse, heardAt))
    ensures rx.events == old(rx.events) && rx.taken == old(rx.taken) && rx.discarded == old(rx.discarded)
  {
    hide Reading, Discards;
    heardAt := lastByte;
    var bytes;
    ok, bytes := wire.Read(HANDSHAKE_BUFFER);
    if !ok { return; }
    if |bytes| > 0 {
      heardAt := wire.Now();
      rx.Feed(bytes);
    }
  }

  /** One turn of the loop: pulse if it is time to, then read. */
  method TakeTurn(wire: Wire, rx: Receiver, lastPulse: int, lastByte: nat)
      returns (ok: bool, pulsed: int, heardAt: nat)
    requires rx.Valid() && Scan(rx.fed).rest == rx.buf
    modifies wire, rx
    ensures rx.Valid()
    ensures Turn(wire.env, Ear(old(wire.State()), old(rx.fed), lastPulse, lastByte)) ==
            Part(ok, Ear(wire.State(), rx.fed, pulsed, heardAt))
    ensures rx.events == old(rx.events) && rx.taken == old(rx.taken) && rx.discarded == old(rx.discarded)
  {
    hide Reading, Discards, Scan, PulsePart, ReadPart;
    heardAt := lastByte;
    var pending := rx.Pending();
    ok, pulsed := PulseIfDue(wire, pending, lastByte, lastPulse, rx.fed);
    if !ok { return; }
    ok, heardAt := ReadOnce(wire, rx, lastByte, pulsed);
  }

  /** Pulse and read until a status frame turns up or the wait is over. */
  method Listen(wire: Wire, o: SessionOptions, waitMs: nat)
      returns (r: Result<TargetInfo, HandshakeError>, ghost heard: seq<Byte>)
    requires Patient(wire.env)
    modifies wire
    ensures Shaken(r, wire.State(), heard) ==
            ListenFrom(wire.env, FirstEar(wire.env, old(wire.State())), wire.env.clock(old(wire.tick)), waitMs,
                       o.handshakeBaud)
  {
    hide First, Scan, Discards, FramesOf, Reading, IsStatusFrame, StatusOf, Patient, Remaining, NoStatus, Turn,
         StatusHeard, ListenFrom, Verdict;
    var rx := new Receiver();
    EmptyReceiver();
    var started := wire.Now();
    var noise: nat := 0;
    var lastPulse: int := started - PULSE_EVERY;
    var lastByte: nat := started;
    ghost var first := Ear(wire.State(), [], lastPulse, lastByte);
    ghost var whole := ListenFrom(wire.env, first, started, waitMs, o.handshakeBaud);
    while true
      invariant rx.Valid() && fresh(rx) && rx.discarded == [] && |rx.taken| == noise
      invariant Scan(rx.fed) == Scanned(rx.events, rx.buf) && NoStatus(FramesOf(rx.events))
      invariant ListenFrom(wire.env, Ear(wire.State(), rx.fed, lastPulse, lastByte), started, waitMs, o.handshakeBaud)
                == whole
      decreases Remaining(wire.env, wire.tick, started + waitMs)
    {
      ghost var e := Ear(wire.State(), rx.fed, lastPulse, lastByte);
      ListenStep(wire.env, e, started, waitMs, o.handshakeBaud);
      var now := wire.Now();
      if now - started >= waitMs {
        TakenAll(rx.taken, rx.discarded);
        return Err(NoBootloader(waitMs, noise)), rx.fed;
      }
      var ok: bool;
      ok, lastPulse, lastByte := TakeTurn(wire, rx, lastPulse, lastByte);
      if !ok { return Err(WireFailed), rx.fed; }
      var found, d := TakeFrames(rx);
      noise := noise + d;
      if found.Some? {
        StatusFound(rx.fed, rx.events, rx.buf, found.value);
        heard := rx.fed;
        wire.LogReply(found.value);
        r := Judge(found.value, o);
        return;
      }
      NoneHeard(rx.fed);
    }
  }

  /** Read the status frame. */
  method Judge(f: Frame, o: SessionOptions) returns (r: Result<TargetInfo, HandshakeError>)
    ensures r == Verdict(f, o.handshakeBaud)
  {
    hide StatusOf;
    var info := ParseStatus(f, o.handshakeBaud);
    r := if info.Ok? then Ok(info.value) else Err(Protocol(info.error));
  }

  lemma NoneHeard(heard: seq<Byte>)
    requires NoStatus(FramesOf(Scan(heard).events))
    ensures StatusHeard(heard).None?
  {
    NoneIn(FramesOf(Scan(heard).events));
  }

  /** One turn of the specification. */
  lemma ListenStep(env: Env, e: Ear, started: nat, waitMs: nat, baud: U32)
    requires Patient(env)
    ensures var t := NextTurn(env, e);
            ListenFrom(env, e, started, waitMs, baud) ==
            if env.clock(e.link.tick) - started >= waitMs then
              Shaken(Err(NoBootloader(waitMs, |Discards(Scan(e.heard).events)|)), Idle(e.link), e.heard)
            else if !t.ok then Shaken(Err(WireFailed), t.ear.link, t.ear.heard)
            else if StatusHeard(t.ear.heard).Some? then
              Shaken(Verdict(StatusHeard(t.ear.heard).value, baud),
                     Marked(t.ear.link, Replied(StatusHeard(t.ear.heard).value)), t.ear.heard)
            else ListenFrom(env, t.ear, started, waitMs, baud)
    ensures env.clock(e.link.tick) - started < waitMs ==>
              Remaining(env, NextTurn(env, e).ear.link.tick, started + waitMs)
              < Remaining(env, e.link.tick, started + waitMs)
  {
    hide Turn, Patient, StatusHeard, Scan, Discards, Verdict, Remaining;
    TurnTicks(env, e.(link := Idle(e.link)));
    if env.clock(e.link.tick) - started < waitMs {
      RemainingLess(env, e.link.tick, NextTurn(env, e).ear.link.tick, started + waitMs);
    }
  }

  /** `handshake` as written. */
  method PerformHandshake(wire: Wire, o: SessionOptions, waitMs: nat) returns (r: Result<TargetInfo, HandshakeError>)
    requires Patient(wire.env)
    modifies wire
    ensures var s := Shake(wire.env, old(wire.State()), o, waitMs); r == s.result && wire.State() == s.link
    ensures old(wire.tape) <= wire.tape
    ensures var t := wire.tape[|old(wire.tape)|..];
            && Accounts(BytesGot(t), o.handshakeBaud, waitMs, r)
            && PulsesOnly(wire.env, t, o.handshakeBaud) && Cadence(wire.env, t)
    ensures r != Err(WireFailed) ==> wire.rate == o.handshakeBaud
    ensures r == Err(WireFailed) <==> wire.faults == old(wire.faults) + 1
    ensures r == Err(WireFailed) ==> wire.tick > old(wire.tick) && wire.env.fails(wire.tick - 1)
    ensures r != Err(WireFailed) ==> wire.faults == old(wire.faults)
    ensures r.Err? && r.error.NoBootloader? ==>
              wire.tick > 0 && wire.env.clock(wire.tick - 1) >= wire.env.clock(old(wire.tick) + 1) + waitMs
    ensures InWait(wire.env, old(wire.State()), wire.State(), wire.env.clock(old(wire.tick) + 1) + waitMs)
  {
    hide Accounts, Patient, BytesGot, PulsesOnly, Cadence, ListenFrom, InWait;
    ghost var l := wire.State();
    ShakeTells(wire.env, l, o, waitMs);
    var ok := wire.Retune(o.handshakeBaud);
    if !ok { return Err(WireFailed); }
    ghost var heard;
    r, heard := Listen(wire, o, waitMs);
  }

  lemma EmptyReceiver()
    ensures Scan([]) == Scanned([], []) && NoStatus(FramesOf([]))
  {
  }

  lemma TakenAll(taken: seq<Byte>, discarded: seq<Byte>)
    requires discarded == []
    ensures taken + discarded == taken
  {
  }
}
