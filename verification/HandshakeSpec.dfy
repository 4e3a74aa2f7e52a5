/**
  * The handshake as a function of the environment, turn by turn, and what its
  * outcome says: which frame decided it, where all the bytes read went, when
  * pulses were sent, whether the line is to blame, and when it must succeed.
  */
module HandshakeSpec {
  import opened Bytes
  import opened FrameCodec
  import opened StreamScan
  import opened StreamTheorems
  import opened Stc89
  import opened WireModel
  import opened Driver
  import opened FaultTheorems
  import opened PulseTiming

  const HANDSHAKE_BUFFER := 256

  datatype HandshakeError =
    | WireFailed
    | Protocol(error: ProtocolError)
    | NoBootloader(waitedMs: nat, noiseBytes: nat)

  /** Only sync pulses are written, all happens at one rate, and reads take what is there, up to 256 bytes. */
  predicate PulsesOnly(env: Env, t: seq<Mark>, rate: U32) {
    forall i :: 0 <= i < |t| ==> Pulsing(env, t[i], rate)
  }

  predicate Pulsing(env: Env, m: Mark, rate: U32) {
    && (m.Sent? ==> m.rate == rate && (m.bytes == [0x7F] || (env.fails(m.tick) && m.bytes == [])))
    && (m.Got? ==> m.rate == rate && TakesAll(env, m, 256))
  }

  predicate NoStatus(fs: seq<Frame>) { forall i :: 0 <= i < |fs| ==> !IsStatusFrame(fs[i]) }

  /** `f` is the first status frame among `fs`. */
  predicate FirstStatus(fs: seq<Frame>, f: Frame) {
    exists k :: 0 <= k < |fs| && fs[k] == f && IsStatusFrame(f) && NoStatus(fs[..k])
  }

  /** What the handshake's outcome says about all the bytes it read. */
  ghost predicate Accounts(heard: seq<Byte>, baud: U32, waitMs: nat, r: Result<TargetInfo, HandshakeError>) {
    var all := Scan(heard);
    var fs := FramesOf(all.events);
    match r
    case Ok(info) => exists f :: FirstStatus(fs, f) && StatusOf(f, baud) == Ok(info)
    case Err(Protocol(e)) => exists f :: FirstStatus(fs, f) && StatusOf(f, baud) == Err(e)
    case Err(WireFailed) => NoStatus(fs)
    case Err(NoBootloader(ms, noise)) =>
      && NoStatus(fs) && ms == waitMs
      && noise == |Discards(all.events)|
      && |heard| == noise + WireLens(fs) + |all.rest|
  }

  lemma NothingFound(rx: seq<Byte>, events: seq<Event>, buf: seq<Byte>, baud: U32, waitMs: nat)
    requires Scan(rx) == Scanned(events, buf) && NoStatus(FramesOf(events))
    ensures Accounts(rx, baud, waitMs, Err(WireFailed))
    ensures Accounts(rx, baud, waitMs, Err(NoBootloader(waitMs, |Discards(events)|)))
  {
    ScanConserves(rx);
    EventBytesSplit(events);
    hide Scan, Spelling, FramesOf, Discards, NoStatus, WireLens;
    assert |Spelling(events)| + |buf| == |rx|;
  }

  /** The one outcome a status frame leaves. */
  function Verdict(f: Frame, baud: U32): (r: Result<TargetInfo, HandshakeError>)
    ensures r.Err? ==> r.error.Protocol?
  {
    if StatusOf(f, baud).Ok? then Ok(StatusOf(f, baud).value) else Err(Protocol(StatusOf(f, baud).error))
  }

  /** The first status frame in the bytes heard decides, whatever else is in them. */
  lemma FirstStatusDecides(heard: seq<Byte>, f: Frame, baud: U32, waitMs: nat, r: Result<TargetInfo, HandshakeError>)
    requires FirstStatus(FramesOf(Scan(heard).events), f) && Accounts(heard, baud, waitMs, r)
    ensures r == Verdict(f, baud)
  {
    hide Scan, FramesOf, StatusOf, IsStatusFrame, Discards, WireLens;
    var fs := FramesOf(Scan(heard).events);
    var k :| 0 <= k < |fs| && fs[k] == f && IsStatusFrame(f) && NoStatus(fs[..k]);
    forall i | 0 <= i < k ensures !IsStatusFrame(fs[i]) { assert fs[..k][i] == fs[i]; }
    forall g | FirstStatus(fs, g) ensures g == f {
      var n :| 0 <= n < |fs| && fs[n] == g && IsStatusFrame(g) && NoStatus(fs[..n]);
      forall i | 0 <= i < n ensures !IsStatusFrame(fs[i]) { assert fs[..n][i] == fs[i]; }
    }
  }

  /** So a status packet behind noise that hides no frame is found and believed, whatever follows it. */
  lemma HandshakeThroughNoise(noise: seq<Byte>, f: Frame, tail: seq<Byte>, baud: U32, waitMs: nat,
                              r: Result<TargetInfo, HandshakeError>)
    requires |f.payload| <= 1018 && IsStatusFrame(f)
    requires NoFrameWithin(noise + Encode(f) + tail, |noise|)
    requires Accounts(noise + Encode(f) + tail, baud, waitMs, r)
    ensures r == Verdict(f, baud)
  {
    hide *;
    var heard := noise + Encode(f) + tail;
    SeekRecovers(noise, f, tail);
    SeekIsScan(heard);
    FirstIsFirst(FramesOf(Scan(heard).events), f);
    FirstStatusDecides(heard, f, baud, waitMs, r);
  }

  lemma FirstIsFirst(fs: seq<Frame>, f: Frame)
    requires IsStatusFrame(f) && [f] <= fs
    ensures FirstStatus(fs, f)
  {
    hide IsStatusFrame;
    assert fs[0] == f && NoStatus(fs[..0]);
  }

  /** A status frame of 21 bytes, heard alone: the handshake ends on it, and with an error. */
  lemma ShortStatusEndsHandshake(baud: U32, waitMs: nat, r: Result<TargetInfo, HandshakeError>)
    requires Accounts(Encode(Frame(McuToHost, 0x00, Repeat(0, 21))), baud, waitMs, r)
    ensures r == Err(Protocol(ShortStatus(21, 52)))
  {
    var f := Frame(McuToHost, 0x00, Repeat(0, 21));
    assert StatusOf(f, baud) == Err(ShortStatus(21, 52)) && IsStatusFrame(f);
    hide *;
    assert [] + Encode(f) + [] == Encode(f);
    NothingIn(Encode(f));
    HandshakeThroughNoise([], f, [], baud, waitMs, r);
    VerdictOf(f, baud);
  }

  lemma NothingIn(s: seq<Byte>)
    ensures NoFrameWithin(s, 0)
  {
  }

  lemma VerdictOf(f: Frame, baud: U32)
    ensures StatusOf(f, baud).Err? ==> Verdict(f, baud) == Err(Protocol(StatusOf(f, baud).error))
  {
  }

  // ------------------------------------------------------ the loop, spelled out

  /** What the loop carries: the line, all bytes read, and its two time stamps. */
  datatype Ear = Ear(link: Link, heard: seq<Byte>, lastPulse: int, lastByte: nat)

  /** A part of a turn; not ok if the line failed in it. */
  datatype Part = Part(ok: bool, ear: Ear)

  /** Pulse, unless a frame is coming in or no beat has passed. */
  function PulsePart(env: Env, e: Ear): Part {
    var mid := Scan(e.heard).rest != [];
    if mid && env.clock(e.link.tick) - e.lastByte < PARTIAL_STALL then Part(true, e.(link := Idle(e.link)))
    else
      var l := if mid then Idle(e.link) else e.link;
      if env.clock(l.tick) - e.lastPulse < PULSE_EVERY then Part(true, e.(link := Idle(l)))
      else
        var m := Put(env, Idle(l), [SYNC_BYTE]);
        if env.fails(l.tick + 1) then Part(false, e.(link := m))
        else
          var n := FlushLink(env, m);
          if env.fails(m.tick) then Part(false, e.(link := n))
          else Part(true, e.(link := Idle(n), lastPulse := env.clock(n.tick)))
  }

  /** Read once. */
  function ReadPart(env: Env, e: Ear): Part {
    var m, c := Take(env, e.link, HANDSHAKE_BUFFER), Chunk(env, e.link, HANDSHAKE_BUFFER);
    if env.fails(e.link.tick) then Part(false, e.(link := m))
    else if c == [] then Part(true, e.(link := m))
    else Part(true, Ear(Idle(m), e.heard + c, e.lastPulse, env.clock(m.tick)))
  }

  function Turn(env: Env, e: Ear): Part {
    var p := PulsePart(env, e);
    if p.ok then ReadPart(env, p.ear) else p
  }

  function NextTurn(env: Env, e: Ear): Part { Turn(env, e.(link := Idle(e.link))) }

  function FirstStatusIn(fs: seq<Frame>): Option<Frame> {
    if fs == [] then None else if IsStatusFrame(fs[0]) then Some(fs[0]) else FirstStatusIn(fs[1..])
  }

  function StatusHeard(heard: seq<Byte>): Option<Frame> { FirstStatusIn(FramesOf(Scan(heard).events)) }

  datatype Shaken = Shaken(result: Result<TargetInfo, HandshakeError>, link: Link, heard: seq<Byte>)

  lemma TurnTicks(env: Env, e: Ear)
    ensures var t := Turn(env, e); t.ear.link.tick > e.link.tick && e.heard <= t.ear.heard
  {
    hide Scan;
  }

  lemma RemainingLess(env: Env, tick: nat, later: nat, deadline: nat)
    requires Patient(env) && env.clock(tick) < deadline && later >= tick + 2
    ensures Remaining(env, later, deadline) < Remaining(env, tick, deadline)
  {
    RemainingDrops(env, tick, deadline);
  }

  /** Turn after turn, until a status frame is heard, the wait is over, or the line fails. */
  ghost function ListenFrom(env: Env, e: Ear, started: nat, waitMs: nat, baud: U32): Shaken
    requires Patient(env)
    decreases Remaining(env, e.link.tick, started + waitMs)
  {
    var looked := Idle(e.link);
    if env.clock(e.link.tick) - started >= waitMs then
      Shaken(Err(NoBootloader(waitMs, |Discards(Scan(e.heard).events)|)), looked, e.heard)
    else
      var t := Turn(env, e.(link := looked));
      if !t.ok then Shaken(Err(WireFailed), t.ear.link, t.ear.heard)
      else if StatusHeard(t.ear.heard).Some? then
        var f := StatusHeard(t.ear.heard).value;
        Shaken(Verdict(f, baud), Marked(t.ear.link, Replied(f)), t.ear.heard)
      else
        TurnTicks(env, e.(link := looked));
        RemainingLess(env, e.link.tick, t.ear.link.tick, started + waitMs);
        ListenFrom(env, t.ear, started, waitMs, baud)
  }

  /** Where the loop starts once the rate is set. */
  function FirstEar(env: Env, m: Link): Ear {
    Ear(Idle(m), [], env.clock(m.tick) - PULSE_EVERY, env.clock(m.tick))
  }

  /** The whole handshake. */
  ghost function Shake(env: Env, l: Link, o: SessionOptions, waitMs: nat): Shaken
    requires Patient(env)
  {
    var m := Tune(env, l, o.handshakeBaud);
    if env.fails(l.tick) then Shaken(Err(WireFailed), m, [])
    else ListenFrom(env, FirstEar(env, m), env.clock(m.tick), waitMs, o.handshakeBaud)
  }

  // ------------------------------------------------------- what it leaves behind

  /** What has happened on the wire since `l0`. */
  ghost predicate Told(env: Env, l0: Link, l: Link, rate: U32, heard: seq<Byte>) {
    && l0.tape <= l.tape
    && l.rate == rate
    && var t := l.tape[|l0.tape|..];
       BytesGot(t) == heard && PulsesOnly(env, t, rate) && Cadence(env, t)
  }

  /** The same, together with what the two time stamps mean. */
  ghost predicate Story(env: Env, l0: Link, e: Ear, rate: U32) {
    && Told(env, l0, e.link, rate, e.heard)
    && var t := e.link.tape[|l0.tape|..];
       && (if LastPulse(env, t).Some? then e.lastPulse == LastPulse(env, t).value
           else e.lastPulse + 30 <= env.clock(e.link.tick))
       && (LastHeard(env, t).Some? ==> e.lastByte == LastHeard(env, t).value)
  }

  /** A read is in order now. */
  ghost predicate Ready(env: Env, l0: Link, l: Link) {
    l0.tape <= l.tape && l.tick > 0 && MayRead(env, l.tape[|l0.tape|..], l.tick)
  }

  lemma ToldMark(env: Env, l0: Link, l: Link, rate: U32, heard: seq<Byte>, m: Link, mark: Mark)
    requires Told(env, l0, l, rate, heard) && m.tape == l.tape + [mark] && m.rate == rate
    requires Pulsing(env, mark, rate) && OnBeat(env, l.tape[|l0.tape|..], mark)
    ensures Told(env, l0, m, rate, heard + if mark.Got? then mark.bytes else [])
  {
    hide OnBeat, BytesGot, LastPulse, LastHeard, Cadence, Pulsing;
    var t := l.tape[|l0.tape|..];
    assert m.tape[|l0.tape|..] == t + [mark];
    LastSnoc(env, t, mark);
    CadenceSnoc(env, t, mark);
  }

  lemma ToldStays(env: Env, l0: Link, l: Link, rate: U32, heard: seq<Byte>, m: Link)
    requires Told(env, l0, l, rate, heard) && m.tape == l.tape && m.rate == l.rate
    ensures Told(env, l0, m, rate, heard)
  {
    hide BytesGot, PulsesOnly, Cadence;
  }

  lemma StoryIdle(env: Env, l0: Link, e: Ear, rate: U32, m: Link)
    requires Patient(env) && Story(env, l0, e, rate)
    requires m.tape == e.link.tape && m.rate == e.link.rate && m.tick >= e.link.tick
    ensures Story(env, l0, e.(link := m), rate)
  {
    ClockForward(env, e.link.tick, m.tick);
    hide BytesGot, PulsesOnly, Cadence, LastPulse, LastHeard, Patient;
  }

  /** Nothing has happened yet but the change of rate. */
  lemma StoryBegins(env: Env, l0: Link, m: Link, rate: U32)
    requires Patient(env) && m.tape == l0.tape + [Tuned(rate)] && m.rate == rate
    ensures Story(env, l0, FirstEar(env, m), rate)
  {
    ClockForward(env, m.tick, m.tick + 1);
    assert Idle(m).tape[|l0.tape|..] == [] + [Tuned(rate)];
    LastSnoc(env, [], Tuned(rate));
    hide Patient;
  }

  /** No beat has passed since the last pulse: reading is in order. */
  lemma NotYetDue(env: Env, l0: Link, e: Ear, rate: U32)
    requires Story(env, l0, e, rate) && env.clock(e.link.tick) - e.lastPulse < 30
    ensures Ready(env, l0, Idle(e.link))
  {
    hide BytesGot, PulsesOnly, Cadence, LastPulse, LastHeard, Held;
  }

  /** A frame is coming in: reading is in order. */
  lemma OnHold(env: Env, l0: Link, e: Ear, rate: U32)
    requires Story(env, l0, e, rate) && Scan(e.heard).rest != [] && env.clock(e.link.tick) - e.lastByte < 400
    ensures Ready(env, l0, Idle(e.link))
  {
    hide BytesGot, PulsesOnly, Cadence, LastPulse, LastHeard, Due, Scan;
    RestNeedsBytes(e.heard);
    HeardSomething(env, e.link.tape[|l0.tape|..]);
  }

  lemma RestNeedsBytes(heard: seq<Byte>)
    requires Scan(heard).rest != []
    ensures heard != []
  {
  }

  /** A pulse that is due and not held keeps the beat. */
  lemma StoryPulse(env: Env, l0: Link, e: Ear, rate: U32, m: Link, mark: Mark)
    requires Story(env, l0, e, rate) && env.clock(e.link.tick) - e.lastPulse >= 30
    requires Scan(e.heard).rest == [] || env.clock(e.link.tick) - e.lastByte >= 400
    requires mark.Sent? && Pulsing(env, mark, rate) && mark.tick == e.link.tick
    requires m.tape == e.link.tape + [mark] && m.rate == rate
    ensures Told(env, l0, m, rate, e.heard)
    ensures Story(env, l0, e.(link := m.(tick := mark.tick + 3), lastPulse := env.clock(mark.tick + 2)), rate)
    ensures Ready(env, l0, m.(tick := mark.tick + 3))
  {
    hide BytesGot, PulsesOnly, Cadence, LastPulse, LastHeard, Scan;
    var t := e.link.tape[|l0.tape|..];
    assert OnBeat(env, t, mark);
    ToldMark(env, l0, e.link, rate, e.heard, m, mark);
    assert e.heard + [] == e.heard;
    assert m.tape[|l0.tape|..] == t + [mark];
    LastSnoc(env, t, mark);
  }

  /** A read that is in order keeps the beat. */
  lemma StoryGot(env: Env, l0: Link, e: Ear, rate: U32, bytes: seq<Byte>)
    requires Patient(env) && Story(env, l0, e, rate) && Ready(env, l0, e.link)
    requires TakesAll(env, Got(rate, bytes, e.link.tick), 256)
    ensures var m := Marked(e.link, Got(rate, bytes, e.link.tick));
            Story(env, l0, Ear(m, e.heard + bytes, e.lastPulse, if bytes == [] then e.lastByte else env.clock(m.tick)),
                  rate)
  {
    ClockForward(env, e.link.tick, e.link.tick + 1);
    hide BytesGot, PulsesOnly, Cadence, LastPulse, LastHeard, Patient, MayRead, TakesAll;
    var t, mark := e.link.tape[|l0.tape|..], Got(rate, bytes, e.link.tick);
    var m := Marked(e.link, mark);
    assert OnBeat(env, t, mark);
    ToldMark(env, l0, e.link, rate, e.heard, m, mark);
    assert m.tape[|l0.tape|..] == t + [mark];
    LastSnoc(env, t, mark);
  }

  /** What one part of a turn leaves behind. */
  ghost predicate PartTells(env: Env, l0: Link, e: Ear, p: Part, rate: U32) {
    && Told(env, l0, p.ear.link, rate, p.ear.heard)
    && Blames(env, e.link, p.ear.link, !p.ok)
    && (p.ok ==> Story(env, l0, p.ear, rate))
  }

  lemma PulsePartTells(env: Env, l0: Link, e: Ear, rate: U32)
    requires Patient(env) && Story(env, l0, e, rate)
    ensures var p := PulsePart(env, e);
            PartTells(env, l0, e, p, rate) && p.ear.heard == e.heard && (p.ok ==> Ready(env, l0, p.ear.link))
  {
    hide BytesGot, PulsesOnly, Cadence, LastPulse, LastHeard, Scan, Patient, MayRead;
    var mid := Scan(e.heard).rest != [];
    StoryIdle(env, l0, e, rate, Idle(e.link));
    if mid && env.clock(e.link.tick) - e.lastByte < 400 {
      OnHold(env, l0, e, rate);
    } else {
      var l := if mid then Idle(e.link) else e.link;
      var e1, e2 := e.(link := l), e.(link := Idle(l));
      StoryIdle(env, l0, e, rate, l);
      StoryIdle(env, l0, e, rate, Idle(l));
      if env.clock(l.tick) - e.lastPulse < 30 {
        NotYetDue(env, l0, e1, rate);
      } else {
        ClockForward(env, e.link.tick, l.tick + 1);
        ClockForward(env, l.tick, l.tick + 1);
        var m := Put(env, Idle(l), [SYNC_BYTE]);
        StoryPulse(env, l0, e2, rate, m, m.tape[|l.tape|]);
        if env.fails(m.tick) {
          ToldStays(env, l0, m, rate, e.heard, FlushLink(env, m));
        } else {
          var e3 := e2.(link := m.(tick := l.tick + 4), lastPulse := env.clock(l.tick + 3));
          StoryFlushed(env, l0, e3, rate, Idle(FlushLink(env, m)));
        }
      }
    }
  }

  lemma StoryFlushed(env: Env, l0: Link, e: Ear, rate: U32, n: Link)
    requires Story(env, l0, e, rate) && Ready(env, l0, e.link)
    requires n.tape == e.link.tape + [Flushed] && n.rate == e.link.rate && n.tick == e.link.tick
    ensures Story(env, l0, e.(link := n), rate) && Ready(env, l0, n)
  {
    hide BytesGot, PulsesOnly, Cadence, LastPulse, LastHeard, Scan;
    var t := e.link.tape[|l0.tape|..];
    ToldMark(env, l0, e.link, rate, e.heard, n, Flushed);
    assert e.heard + [] == e.heard;
    assert n.tape[|l0.tape|..] == t + [Flushed];
    LastSnoc(env, t, Flushed);
    assert BytesGot(t) + [] == BytesGot(t);
  }

  lemma ReadPartTells(env: Env, l0: Link, e: Ear, rate: U32)
    requires Patient(env) && Story(env, l0, e, rate) && Ready(env, l0, e.link)
    ensures PartTells(env, l0, e, ReadPart(env, e), rate)
  {
    hide BytesGot, PulsesOnly, Cadence, LastPulse, LastHeard, Scan, Patient, MayRead;
    var m, c := Take(env, e.link, HANDSHAKE_BUFFER), Chunk(env, e.link, HANDSHAKE_BUFFER);
    if env.fails(e.link.tick) {
      ToldStays(env, l0, e.link, rate, e.heard, m);
    } else {
      StoryGot(env, l0, e, rate, c);
      assert e.heard + [] == e.heard;
      if c != [] { StoryIdle(env, l0, Ear(m, e.heard + c, e.lastPulse, env.clock(m.tick)), rate, Idle(m)); }
    }
  }

  lemma TurnTells(env: Env, l0: Link, e: Ear, rate: U32)
    requires Patient(env) && Story(env, l0, e, rate)
    ensures PartTells(env, l0, e, Turn(env, e), rate)
  {
    hide Told, Story, Ready, PulsePart, ReadPart, Blames, Patient;
    PulsePartTells(env, l0, e, rate);
    var p := PulsePart(env, e);
    if p.ok {
      ReadPartTells(env, l0, p.ear, rate);
      BlamesChain(env, e.link, p.ear.link, ReadPart(env, p.ear).ear.link, !ReadPart(env, p.ear).ok);
    }
  }

  lemma {:induction false} FirstStatusMeans(fs: seq<Frame>)
    ensures match FirstStatusIn(fs)
            case None => NoStatus(fs)
            case Some(f) => FirstStatus(fs, f)
  {
    hide IsStatusFrame;
    if fs != [] {
      if IsStatusFrame(fs[0]) {
        assert fs[..0] == [];
      } else {
        FirstStatusMeans(fs[1..]);
        if FirstStatusIn(fs[1..]).Some? { FirstStatusBehind(fs, FirstStatusIn(fs[1..]).value); }
      }
    }
  }

  lemma FirstStatusBehind(fs: seq<Frame>, f: Frame)
    requires fs != [] && !IsStatusFrame(fs[0]) && FirstStatus(fs[1..], f)
    ensures FirstStatus(fs, f)
  {
    hide IsStatusFrame;
    var k :| 0 <= k < |fs| - 1 && fs[1..][k] == f && IsStatusFrame(f) && NoStatus(fs[1..][..k]);
    var head := fs[..k + 1];
    forall i | 0 <= i < |head| ensures !IsStatusFrame(head[i]) {
      if i > 0 { assert fs[1..][..k][i - 1] == head[i]; }
    }
    assert fs[k + 1] == f;
  }

  /** What the two ends of a handshake without a status frame have to say, and what one with does. */
  lemma HeardAccounts(heard: seq<Byte>, baud: U32, waitMs: nat)
    ensures StatusHeard(heard).None? ==>
              && Accounts(heard, baud, waitMs, Err(WireFailed))
              && Accounts(heard, baud, waitMs, Err(NoBootloader(waitMs, |Discards(Scan(heard).events)|)))
    ensures StatusHeard(heard).Some? ==> Accounts(heard, baud, waitMs, Verdict(StatusHeard(heard).value, baud))
  {
    FirstStatusMeans(FramesOf(Scan(heard).events));
    hide FirstStatus, StatusOf, FirstStatusIn;
    if StatusHeard(heard).None? { NothingFound(heard, Scan(heard).events, Scan(heard).rest, baud, waitMs); }
  }

  /** A part that failed, as an ending. */
  lemma ReadStopped(env: Env, e: Ear)
    ensures !Turn(env, e).ok ==> Turn(env, e).ear.heard == e.heard
  {
    hide Scan;
  }

  ghost predicate ShakenWell(env: Env, l0: Link, l: Link, s: Shaken, started: nat, waitMs: nat, baud: U32) {
    && Told(env, l0, s.link, baud, s.heard)
    && Accounts(s.heard, baud, waitMs, s.result)
    && Blames(env, l, s.link, s.result == Err(WireFailed))
    && (s.result.Err? && s.result.error.NoBootloader? ==>
          s.link.tick > 0 && env.clock(s.link.tick - 1) >= started + waitMs)
  }

  lemma {:induction false} ListenTells(env: Env, l0: Link, e: Ear, started: nat, waitMs: nat, baud: U32)
    requires Patient(env) && Story(env, l0, e, baud) && StatusHeard(e.heard).None?
    ensures ShakenWell(env, l0, e.link, ListenFrom(env, e, started, waitMs, baud), started, waitMs, baud)
    decreases Remaining(env, e.link.tick, started + waitMs)
  {
    hide Told, Story, Accounts, Turn, Patient, StatusHeard, Remaining, Scan, Discards, Verdict;
    var looked := Idle(e.link);
    StoryIdle(env, l0, e, baud, looked);
    HeardAccounts(e.heard, baud, waitMs);
    var e1 := e.(link := looked);
    if env.clock(e.link.tick) - started >= waitMs {
      StoryTold(env, l0, e1, baud);
    } else {
      TurnTells(env, l0, e1, baud);
      TurnTicks(env, e1);
      ReadStopped(env, e1);
      var t := Turn(env, e1);
      HeardAccounts(t.ear.heard, baud, waitMs);
      if t.ok {
        if StatusHeard(t.ear.heard).Some? {
          ToldReply(env, l0, t.ear.link, baud, t.ear.heard, StatusHeard(t.ear.heard).value);
        } else {
          RemainingLess(env, e.link.tick, t.ear.link.tick, started + waitMs);
          ListenTells(env, l0, t.ear, started, waitMs, baud);
        }
      }
    }
  }

  lemma StoryTold(env: Env, l0: Link, e: Ear, rate: U32)
    requires Story(env, l0, e, rate)
    ensures Told(env, l0, e.link, rate, e.heard)
  {
    hide Told, LastPulse, LastHeard;
  }

  lemma ToldReply(env: Env, l0: Link, l: Link, rate: U32, heard: seq<Byte>, f: Frame)
    requires Told(env, l0, l, rate, heard)
    ensures Told(env, l0, Marked(l, Replied(f)), rate, heard)
  {
    ToldMark(env, l0, l, rate, heard, Marked(l, Replied(f)), Replied(f));
    assert heard + [] == heard;
  }

  lemma NothingHeardYet()
    ensures StatusHeard([]).None? && Scan([]) == Scanned([], [])
  {
  }

  /** Every write and read was made in a turn begun before `deadline`; no turn takes more than eight operations. */
  ghost predicate InWait(env: Env, l: Link, m: Link, deadline: nat) {
    && l.tape <= m.tape && l.tick <= m.tick
    && forall i :: |l.tape| <= i < |m.tape| ==> OfTurnBefore(env, m.tape[i], deadline)
  }

  predicate OfTurnBefore(env: Env, m: Mark, deadline: nat) {
    (m.Sent? || m.Got?) && m.tick >= 7 ==> env.clock(m.tick - 7) < deadline
  }

  lemma InWaitChain(env: Env, l: Link, m: Link, n: Link, deadline: nat)
    requires InWait(env, l, m, deadline) && InWait(env, m, n, deadline)
    ensures InWait(env, l, n, deadline)
  {
    hide OfTurnBefore;
    forall i | |l.tape| <= i < |n.tape| ensures OfTurnBefore(env, n.tape[i], deadline) {
      if i < |m.tape| { assert n.tape[i] == m.tape[i]; }
    }
  }

  /** One operation made at most six after a look at the clock that was still before `deadline`. */
  lemma InWaitOne(env: Env, from: nat, l: Link, m: Link, deadline: nat)
    requires Patient(env) && env.clock(from) < deadline && from < l.tick <= from + 7
    requires l.tick <= m.tick && l.tape <= m.tape && |m.tape| <= |l.tape| + 1
    requires |m.tape| > |l.tape| ==>
               var mark := m.tape[|l.tape|]; mark.Sent? || mark.Got? ==> mark.tick == l.tick
    ensures InWait(env, l, m, deadline)
  {
    if l.tick >= 7 { ClockForward(env, l.tick - 7, from); }
    hide Patient;
  }

  lemma TurnInWait(env: Env, e: Ear, deadline: nat)
    requires Patient(env) && env.clock(e.link.tick) < deadline
    ensures InWait(env, e.link, NextTurn(env, e).ear.link, deadline)
  {
    var from, l0 := e.link.tick, e.link;
    var e1 := e.(link := Idle(l0));
    var p := PulsePart(env, e1);
    PulseInWait(env, from, e1, deadline);
    if p.ok {
      InWaitOne(env, from, p.ear.link, Take(env, p.ear.link, HANDSHAKE_BUFFER), deadline);
      hide PulsePart, OfTurnBefore, Patient;
      var r := ReadPart(env, p.ear).ear.link;
      assert InWait(env, p.ear.link, r, deadline);
      InWaitChain(env, e1.link, p.ear.link, r, deadline);
    }
  }

  lemma PulseInWait(env: Env, from: nat, e: Ear, deadline: nat)
    requires Patient(env) && env.clock(from) < deadline && e.link.tick == from + 1
    ensures var p := PulsePart(env, e);
            InWait(env, e.link, p.ear.link, deadline) && p.ear.link.tick <= from + 6
  {
    hide Scan, OfTurnBefore, Patient;
    var p := PulsePart(env, e);
    var mid := Scan(e.heard).rest != [];
    var l := if mid then Idle(e.link) else e.link;
    var m := Put(env, Idle(l), [SYNC_BYTE]);
    InWaitOne(env, from, e.link, Idle(l), deadline);
    InWaitOne(env, from, Idle(l), m, deadline);
    InWaitChain(env, e.link, Idle(l), m, deadline);
    InWaitOne(env, from, m, FlushLink(env, m), deadline);
    InWaitChain(env, e.link, m, FlushLink(env, m), deadline);
    if p.ear.link.tape == e.link.tape { InWaitOne(env, from, e.link, p.ear.link, deadline); }
  }

  /** The handshake stops when its wait is over: no write and no read belongs to a later turn. */
  lemma {:induction false} ListenInWait(env: Env, e: Ear, started: nat, waitMs: nat, baud: U32)
    requires Patient(env)
    ensures InWait(env, e.link, ListenFrom(env, e, started, waitMs, baud).link, started + waitMs)
    decreases Remaining(env, e.link.tick, started + waitMs)
  {
    hide Turn, Patient, StatusHeard, Scan, Verdict, Remaining, Discards;
    var deadline := started + waitMs;
    if env.clock(e.link.tick) - started < waitMs {
      var t := NextTurn(env, e);
      TurnInWait(env, e, deadline);
      TurnTicks(env, e.(link := Idle(e.link)));
      if t.ok && StatusHeard(t.ear.heard).None? {
        RemainingLess(env, e.link.tick, t.ear.link.tick, deadline);
        ListenInWait(env, t.ear, started, waitMs, baud);
        InWaitChain(env, e.link, t.ear.link, ListenFrom(env, t.ear, started, waitMs, baud).link, deadline);
      }
    }
  }

  /**
    * Every handshake, in every environment: the first status frame in the bytes
    * read decides; only pulses are written, on the beat, and all at one rate;
    * the line is blamed exactly when an operation on it has failed; and it is
    * given up once the wait is over, and not before.
    */
  lemma ShakeTells(env: Env, l: Link, o: SessionOptions, waitMs: nat)
    requires Patient(env)
    ensures var s := Shake(env, l, o, waitMs);
            && l.tape <= s.link.tape
            && var t := s.link.tape[|l.tape|..];
               && BytesGot(t) == s.heard && Accounts(s.heard, o.handshakeBaud, waitMs, s.result)
               && PulsesOnly(env, t, o.handshakeBaud) && Cadence(env, t)
               && Blames(env, l, s.link, s.result == Err(WireFailed))
               && (s.result != Err(WireFailed) ==> s.link.rate == o.handshakeBaud)
               && (s.result.Err? && s.result.error.NoBootloader? ==>
                     s.link.tick > 0 && env.clock(s.link.tick - 1) >= env.clock(l.tick + 1) + waitMs)
               && InWait(env, l, s.link, env.clock(l.tick + 1) + waitMs)
  {
    var m, baud := Tune(env, l, o.handshakeBaud), o.handshakeBaud;
    if env.fails(l.tick) {
      NothingShaken(env, l, o, waitMs);
    } else {
      var e, started := FirstEar(env, m), env.clock(m.tick);
      var s := ListenFrom(env, e, started, waitMs, baud);
      assert s == Shake(env, l, o, waitMs) && m.tick == l.tick + 1;
      assert e.heard == [] && e.link.tape == m.tape == l.tape + [Tuned(baud)] && Blames(env, l, e.link, false);
      hide *;
      StoryBegins(env, l, m, baud);
      NothingHeardYet();
      ListenTells(env, l, e, started, waitMs, baud);
      ListenInWait(env, e, started, waitMs, baud);
      TuneInWait(env, l, e.link, started + waitMs);
      InWaitChain(env, l, e.link, s.link, started + waitMs);
      ShakenMeans(env, l, e.link, s, started, waitMs, baud);
      BlamesChain(env, l, e.link, s.link, s.result == Err(WireFailed));
    }
  }

  lemma TuneInWait(env: Env, l: Link, m: Link, deadline: nat)
    requires Blames(env, l, m, false) && l.tape <= m.tape && |m.tape| <= |l.tape| + 1
    requires |m.tape| > |l.tape| ==> m.tape[|l.tape|].Tuned?
    ensures InWait(env, l, m, deadline)
  {
  }

  lemma ShakenMeans(env: Env, l0: Link, l: Link, s: Shaken, started: nat, waitMs: nat, baud: U32)
    requires ShakenWell(env, l0, l, s, started, waitMs, baud)
    ensures l0.tape <= s.link.tape && s.link.rate == baud
    ensures var t := s.link.tape[|l0.tape|..];
            && BytesGot(t) == s.heard && Accounts(s.heard, baud, waitMs, s.result)
            && PulsesOnly(env, t, baud) && Cadence(env, t)
    ensures Blames(env, l, s.link, s.result == Err(WireFailed))
    ensures s.result.Err? && s.result.error.NoBootloader? ==>
              s.link.tick > 0 && env.clock(s.link.tick - 1) >= started + waitMs
  {
    hide Accounts, BytesGot, PulsesOnly, Cadence, Blames;
  }

  /** The rate could not even be set. */
  lemma NothingShaken(env: Env, l: Link, o: SessionOptions, waitMs: nat)
    requires Patient(env) && env.fails(l.tick)
    ensures var s := Shake(env, l, o, waitMs);
            && s.result == Err(WireFailed) && s.heard == []
            && l.tape == s.link.tape && l.tape[|l.tape|..] == []
            && Accounts([], o.handshakeBaud, waitMs, Err(WireFailed))
            && Blames(env, l, s.link, true) && InWait(env, l, s.link, env.clock(l.tick + 1) + waitMs)
  {
    NothingHeardYet();
    HeardAccounts([], o.handshakeBaud, waitMs);
    hide ListenFrom, Accounts, StatusHeard, Patient;
  }

  // ------------------------------------------------------ when it must succeed

  /** From `e` on, `n` turns are begun before the wait is over, and the line fails in none of them. */
  predicate Listening(env: Env, e: Ear, started: nat, waitMs: nat, n: nat)
    decreases n
  {
    n == 0 ||
    (env.clock(e.link.tick) - started < waitMs && NextTurn(env, e).ok
     && Listening(env, NextTurn(env, e).ear, started, waitMs, n - 1))
  }

  /** The bytes heard once those turns are over. */
  function HeardAfter(env: Env, e: Ear, n: nat): seq<Byte>
    decreases n
  {
    if n == 0 then e.heard else HeardAfter(env, NextTurn(env, e).ear, n - 1)
  }

  lemma {:induction false} HeardGrows(env: Env, e: Ear, n: nat)
    ensures e.heard <= HeardAfter(env, e, n)
    decreases n
  {
    hide Turn;
    if n > 0 {
      TurnTicks(env, e.(link := Idle(e.link)));
      HeardGrows(env, NextTurn(env, e).ear, n - 1);
    }
  }

  lemma {:induction false} FirstStatusKept(a: seq<Frame>, b: seq<Frame>)
    requires FirstStatusIn(a).Some?
    ensures FirstStatusIn(a + b) == FirstStatusIn(a)
  {
    hide IsStatusFrame;
    if !IsStatusFrame(a[0]) {
      assert (a + b)[1..] == a[1..] + b;
      FirstStatusKept(a[1..], b);
    }
  }

  /** A status frame once heard stays the first, whatever is heard later. */
  lemma StatusKept(heard: seq<Byte>, more: seq<Byte>)
    requires heard <= more && StatusHeard(heard).Some?
    ensures StatusHeard(more) == StatusHeard(heard)
  {
    var t := more[|heard|..];
    assert more == heard + t;
    ScanConcat(heard, t);
    hide Scan, FirstStatusIn, FramesOf;
    var later := Scan(Scan(heard).rest + t).events;
    FramesConcat(Scan(heard).events, later);
    FirstStatusKept(FramesOf(Scan(heard).events), FramesOf(later));
  }

  /** A status frame among the bytes of turns begun in time, on a line that holds: the handshake returns its verdict. */
  lemma {:induction false} ListenSucceeds(env: Env, e: Ear, started: nat, waitMs: nat, baud: U32, n: nat)
    requires Patient(env) && Listening(env, e, started, waitMs, n) && StatusHeard(e.heard).None?
    requires StatusHeard(HeardAfter(env, e, n)).Some?
    ensures ListenFrom(env, e, started, waitMs, baud).result ==
            Verdict(StatusHeard(HeardAfter(env, e, n)).value, baud)
    decreases n
  {
    hide Turn, Patient, StatusHeard, Scan, Verdict, Remaining;
    var t := NextTurn(env, e);
    HeardGrows(env, t.ear, n - 1);
    if StatusHeard(t.ear.heard).Some? {
      StatusKept(t.ear.heard, HeardAfter(env, e, n));
    } else {
      ListenSucceeds(env, t.ear, started, waitMs, baud, n - 1);
    }
  }

  /**
    * A status packet arrives within the wait: `n` turns are begun in time, the
    * line holds, and they hear the packet behind noise that hides no frame.
    */
  ghost predicate PacketArrives(env: Env, l: Link, o: SessionOptions, waitMs: nat, n: nat,
                                noise: seq<Byte>, status: Frame, tail: seq<Byte>) {
    var m := Tune(env, l, o.handshakeBaud);
    && |status.payload| <= 1018 && IsStatusFrame(status)
    && !env.fails(l.tick) && Listening(env, FirstEar(env, m), env.clock(m.tick), waitMs, n)
    && HeardAfter(env, FirstEar(env, m), n) == noise + Encode(status) + tail
    && NoFrameWithin(noise + Encode(status) + tail, |noise|)
  }

  /** Then the handshake returns what that packet says. */
  lemma HandshakeSucceeds(env: Env, l: Link, o: SessionOptions, waitMs: nat, n: nat,
                          noise: seq<Byte>, status: Frame, tail: seq<Byte>)
    requires Patient(env) && PacketArrives(env, l, o, waitMs, n, noise, status, tail)
    ensures Shake(env, l, o, waitMs).result == Verdict(status, o.handshakeBaud)
  {
    var m, heard := Tune(env, l, o.handshakeBaud), noise + Encode(status) + tail;
    SeekRecovers(noise, status, tail);
    SeekIsScan(heard);
    NothingHeardYet();
    hide Scan, FramesOf, Seek, Verdict, IsStatusFrame, Listening, HeardAfter, Encode, NoFrameWithin, ListenFrom;
    assert StatusHeard(heard) == Some(status);
    ListenSucceeds(env, FirstEar(env, m), env.clock(m.tick), waitMs, o.handshakeBaud, n);
  }

  /** On a line that never fails every turn goes through, so being in time is enough. */
  lemma HoldingLine(env: Env, e: Ear)
    requires forall t: nat :: !env.fails(t)
    ensures Turn(env, e).ok
  {
    hide Scan;
  }
}
