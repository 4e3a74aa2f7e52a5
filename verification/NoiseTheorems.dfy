/**
  * How a run hears: whatever noise precedes the replies, and however the line
  * cuts it up, a run whose replies arrive in time does what the noise-free run
  * does; and nothing buffered before a change of rate is taken for a reply
  * after it.
  */
module NoiseTheorems {
  import opened Bytes
  import opened FrameCodec
  import opened StreamScan
  import opened StreamTheorems
  import opened SessionMachine
  import opened WireModel
  import opened Driver
  import opened RunTheorems

  // ------------------------------------------------------------ a timely reply

  /** `n` reads from `l` on, each after a look at the clock. */
  function AfterReads(env: Env, l: Link, n: nat): Link
    decreases n
  {
    if n == 0 then l else AfterReads(env, Take(env, Idle(l), RUN_BUFFER), n - 1)
  }

  /** The bytes those reads return. */
  function HeardIn(env: Env, l: Link, n: nat): seq<Byte>
    decreases n
  {
    if n == 0 then []
    else Chunk(env, Idle(l), RUN_BUFFER) + HeardIn(env, Take(env, Idle(l), RUN_BUFFER), n - 1)
  }

  /** None of those reads fails, and all of them are made before the deadline. */
  predicate Timely(env: Env, l: Link, n: nat, deadline: nat)
    decreases n
  {
    n == 0 ||
    (env.clock(l.tick) < deadline && !env.fails(l.tick + 1)
     && Timely(env, Take(env, Idle(l), RUN_BUFFER), n - 1, deadline))
  }

  /** A reply, the noise before it, and the number of reads until its last byte is there. */
  datatype Answer = Answer(noise: seq<Byte>, reply: Frame, tries: nat) {
    function Size(): nat { |noise| + reply.WireLen() }
  }

  /** The environment gives this answer in time, behind noise in which no frame and no undecided run starts. */
  ghost predicate Delivers(env: Env, l: Link, buf: seq<Byte>, deadline: nat, a: Answer) {
    var all := buf + HeardIn(env, l, a.tries);
    && |a.reply.payload| <= 1018
    && Timely(env, l, a.tries, deadline)
    && a.Size() <= |all| && all[..a.Size()] == a.noise + Encode(a.reply)
    && NoFrameWithin(all, |a.noise|)
    && (a.tries > 0 ==> |buf + HeardIn(env, l, a.tries - 1)| < a.Size())
  }

  /** Noise without an adjacent magic pair always qualifies. */
  lemma MagicFreeQualifies(noise: seq<Byte>, f: Frame, tail: seq<Byte>)
    requires |f.payload| <= 1018 && NoMagic(noise)
    ensures NoFrameWithin(noise + Encode(f) + tail, |noise|)
  {
    MagicFreeNoise(noise, f, tail);
    RecoversIff(noise, f, tail);
  }

  /** A frame is not found before its last byte is there. */
  lemma NotBeforeItIsThere(p: seq<Byte>, t: seq<Byte>, f: Frame, tail: seq<Byte>)
    requires Seek(p + t) == Found(f, tail) && |t| > |tail|
    ensures Seek(p).Dry?
  {
    SeekStable(p, t);
  }

  /** Waiting finds the first frame of everything heard, as soon as it is complete. */
  lemma {:induction false} AwaitFinds(env: Env, l: Link, buf: seq<Byte>, deadline: nat, n: nat, f: Frame,
                                      tail: seq<Byte>)
    requires Patient(env) && Timely(env, l, n, deadline)
    requires Seek(buf + HeardIn(env, l, n)) == Found(f, tail)
    requires n > 0 ==> Seek(buf + HeardIn(env, l, n - 1)).Dry?
    ensures Await(env, l, buf, deadline) == Arrived(f, AfterReads(env, l, n), tail)
    decreases n
  {
    hide Seek, Await, Patient, Chunk, Take;
    if n == 0 {
      assert buf + [] == buf;
      AwaitFound(env, l, buf, deadline);
    } else {
      var c, m := Chunk(env, Idle(l), RUN_BUFFER), Take(env, Idle(l), RUN_BUFFER);
      SeekStable(buf, HeardIn(env, l, n - 1));
      assert Seek(buf).Dry?;
      var rest := Seek(buf).rest;
      AwaitDry(env, l, buf, deadline);
      SeekStable(buf, HeardIn(env, l, n));
      assert rest + HeardIn(env, l, n) == (rest + c) + HeardIn(env, m, n - 1);
      if n > 1 {
        assert rest + HeardIn(env, l, n - 1) == (rest + c) + HeardIn(env, m, n - 2);
      }
      AwaitFinds(env, m, rest + c, deadline, n - 1, f, tail);
    }
  }

  lemma AwaitDelivered(env: Env, l: Link, buf: seq<Byte>, deadline: nat, a: Answer)
    requires Patient(env) && Delivers(env, l, buf, deadline, a)
    ensures Await(env, l, buf, deadline) ==
            Arrived(a.reply, AfterReads(env, l, a.tries), (buf + HeardIn(env, l, a.tries))[a.Size()..])
  {
    hide Seek, Await, Patient, NoFrameWithin, Encode;
    var all := buf + HeardIn(env, l, a.tries);
    var tail := all[a.Size()..];
    assert all == a.noise + Encode(a.reply) + tail;
    SeekRecovers(a.noise, a.reply, tail);
    if a.tries > 0 {
      var p := buf + HeardIn(env, l, a.tries - 1);
      HeardOneMore(env, l, a.tries - 1);
      var t := HeardIn(env, l, a.tries)[|HeardIn(env, l, a.tries - 1)|..];
      assert p + t == all;
      NotBeforeItIsThere(p, t, a.reply, tail);
    }
    AwaitFinds(env, l, buf, deadline, a.tries, a.reply, tail);
  }

  lemma {:induction false} HeardOneMore(env: Env, l: Link, n: nat)
    ensures HeardIn(env, l, n) <= HeardIn(env, l, n + 1)
    decreases n
  {
    hide Chunk, Take;
    if n > 0 { HeardOneMore(env, Take(env, Idle(l), RUN_BUFFER), n - 1); }
  }

  // ------------------------------------------------------- a whole run in noise

  /**
    * From step `at` on, no write or rate change fails, and every step that
    * wants an answer gets the next one of `script`, in time and behind noise.
    */
  ghost predicate Plays(env: Env, tcDrain: bool, steps: seq<Step>, at: nat, l: Link, buf: seq<Byte>,
                        script: seq<Answer>)
    requires at <= |steps|
    decreases |steps| - at
  {
    at == |steps| ||
    var s := Transmit(env, tcDrain, steps[at], l, buf);
    s.Through? &&
    if steps[at].wants == Nothing then Plays(env, tcDrain, steps, at + 1, s.link, s.buf, script)
    else
      && script != []
      && Satisfies(steps[at], script[0].reply)
      && Delivers(env, Idle(s.link), s.buf, env.clock(s.link.tick) + steps[at].timeoutMs, script[0])
      && Plays(env, tcDrain, steps, at + 1,
               Marked(AfterReads(env, Idle(s.link), script[0].tries), Replied(script[0].reply)),
               (s.buf + HeardIn(env, Idle(s.link), script[0].tries))[script[0].Size()..],
               script[1..])
  }

  function ScriptAfter(step: Step, script: seq<Answer>): seq<Answer> {
    if step.wants == Nothing || script == [] then script else script[1..]
  }

  lemma StepDelivered(env: Env, tcDrain: bool, steps: seq<Step>, p: Progress, l: Link, buf: seq<Byte>,
                      script: seq<Answer>)
    requires Patient(env) && Sound(steps, p) && !p.awaiting && p.at < |steps|
    requires Plays(env, tcDrain, steps, p.at, l, buf, script)
    ensures var e := StepFrom(env, tcDrain, steps, p, l, buf);
            e.Onward? &&
            Plays(env, tcDrain, steps, p.at + 1, e.link, e.buf, ScriptAfter(steps[p.at], script))
  {
    hide Transmit, Await, Patient, Delivers, Encode, HeardIn, AfterReads, Objection, Satisfies, HasWrite, WritesEndBy;
    var s := Transmit(env, tcDrain, steps[p.at], l, buf);
    if steps[p.at].wants != Nothing {
      AwaitDelivered(env, Idle(s.link), s.buf, env.clock(s.link.tick) + steps[p.at].timeoutMs, script[0]);
      AcceptsExactly(steps[p.at], script[0].reply);
    }
  }

  lemma {:induction false} PlaysToTheEnd(env: Env, tcDrain: bool, steps: seq<Step>, p: Progress, l: Link,
                                         buf: seq<Byte>,
                                         script: seq<Answer>)
    requires Patient(env) && Sound(steps, p) && !p.awaiting
    requires Plays(env, tcDrain, steps, p.at, l, buf, script)
    ensures RunFrom(env, tcDrain, steps, p, l, buf).result == Done
    decreases |steps| - p.at
  {
    hide StepFrom, Patient, HasWrite, WritesEndBy, Plays;
    if p.at < |steps| {
      StepDelivered(env, tcDrain, steps, p, l, buf, script);
      var e := StepFrom(env, tcDrain, steps, p, l, buf);
      PlaysToTheEnd(env, tcDrain, steps, e.progress, e.link, e.buf,
                    ScriptAfter(steps[p.at], script));
    }
  }

  /** The writes of a plan, each at its own rate. */
  function PlannedSends(steps: seq<Step>, from: nat, rate: U32): seq<Outgoing>
    requires from <= |steps|
  {
    seq(|steps| - from, i requires 0 <= i < |steps| - from =>
      Outgoing(SendRate(steps[from + i], RateAt(steps, from, from + i, rate)), Encode(steps[from + i].frame)))
  }

  /** A run that ends well wrote exactly the plan. */
  lemma DoneSentPlan(env: Env, tcDrain: bool, steps: seq<Step>, p: Progress, l: Link, buf: seq<Byte>)
    requires Patient(env) && Sound(steps, p) && !p.awaiting
    requires RunFrom(env, tcDrain, steps, p, l, buf).result == Done
    ensures var o := RunFrom(env, tcDrain, steps, p, l, buf);
            l.tape <= o.link.tape && SentIn(News(l, o.link)) == PlannedSends(steps, p.at, l.rate)
            && Answers(steps, p.at, |steps|, RepliesIn(News(l, o.link)))
  {
    var o := RunFrom(env, tcDrain, steps, p, l, buf);
    RunSendsPlan(env, tcDrain, steps, p, l, buf);
    RunHearsAnswers(env, tcDrain, steps, p, l, buf);
    assert Completed(steps, o) == |steps|;
    hide RunFrom, SendsPlan, PlannedSends, Answers, Patient, SentIn, RepliesIn, News, RateAt, HasWrite, WritesEndBy;
    WholePlanSent(steps, p.at, l.rate, SentIn(News(l, o.link)));
  }

  lemma WholePlanSent(steps: seq<Step>, from: nat, rate: U32, sent: seq<Outgoing>)
    requires from <= |steps| && SendsPlan(steps, from, rate, |steps| - from, sent)
    ensures sent == PlannedSends(steps, from, rate)
  {
    hide SendRate, RateAt, Encode;
    assert forall i :: 0 <= i < |steps| - from ==> SentWhole(steps, from, rate, i, sent[i]);
  }

  /**
    * Noise tolerance: whatever the noise, its cutting into reads and its timing,
    * a run whose replies arrive in time ends well, having written exactly the
    * plan; that is, what the noise-free run writes.
    */
  lemma NoiseTolerantRun(env: Env, tcDrain: bool, steps: seq<Step>, l: Link, script: seq<Answer>)
    requires Patient(env) && Plays(env, tcDrain, steps, 0, l, [], script)
    ensures Sound(steps, FRESH)
    ensures var o := RunFrom(env, tcDrain, steps, FRESH, l, []);
            && o.result == Done && l.tape <= o.link.tape
            && SentIn(News(l, o.link)) == PlannedSends(steps, 0, l.rate)
  {
    PlaysToTheEnd(env, tcDrain, steps, FRESH, l, [], script);
    DoneSentPlan(env, tcDrain, steps, FRESH, l, []);
  }

  // -------------------------------------------------- nothing from before a retune

  /** Bytes read since the last change of rate. */
  function HeardSince(t: seq<Mark>): seq<Byte> {
    if t == [] then []
    else
      var last := t[|t| - 1];
      if last.Tuned? then []
      else HeardSince(t[..|t| - 1]) + if last.Got? then last.bytes else []
  }

  /** Replies taken since the last change of rate. */
  function RepliesSince(t: seq<Mark>): seq<Frame> {
    if t == [] then []
    else
      var last := t[|t| - 1];
      if last.Tuned? then []
      else RepliesSince(t[..|t| - 1]) + if last.Replied? then [last.frame] else []
  }

  /** The replies taken, and what the buffer still holds, are together what one scan of the bytes heard would find. */
  predicate Tracks(t: seq<Mark>, buf: seq<Byte>) {
    var heard := Scan(HeardSince(t));
    FramesOf(heard.events) == RepliesSince(t) + FramesOf(Scan(buf).events) && heard.rest == Scan(buf).rest
  }

  /** At every moment, the replies since the last change of rate are the first frames of the bytes read since then. */
  predicate HonestTape(t: seq<Mark>) {
    forall n :: 0 <= n <= |t| ==> RepliesSince(t[..n]) <= FramesOf(Scan(HeardSince(t[..n])).events)
  }

  lemma HonestSnoc(t: seq<Mark>, m: Mark, buf: seq<Byte>)
    requires HonestTape(t) && Tracks(t + [m], buf)
    ensures HonestTape(t + [m])
  {
    hide HeardSince, RepliesSince, Scan, FramesOf;
    var u := t + [m];
    forall n | 0 <= n <= |u| ensures RepliesSince(u[..n]) <= FramesOf(Scan(HeardSince(u[..n])).events) {
      if n <= |t| { assert u[..n] == t[..n]; } else { assert u[..n] == u; }
    }
  }

  lemma SinceSnoc(t: seq<Mark>, m: Mark)
    ensures HeardSince(t + [m]) == if m.Tuned? then [] else HeardSince(t) + if m.Got? then m.bytes else []
    ensures RepliesSince(t + [m]) == if m.Tuned? then [] else RepliesSince(t) + if m.Replied? then [m.frame] else []
  {
    assert (t + [m])[..|t|] == t;
  }

  lemma TracksMark(t: seq<Mark>, m: Mark, buf: seq<Byte>)
    requires Tracks(t, buf) && (m.Sent? || m.Flushed? || m.Drained? || m.Tuned?)
    ensures Tracks(t + [m], if m.Tuned? then [] else buf)
  {
    hide Scan, FramesOf, HeardSince, RepliesSince;
    SinceSnoc(t, m);
    assert HeardSince(t) + [] == HeardSince(t) && RepliesSince(t) + [] == RepliesSince(t);
    assert [] + FramesOf(Scan([]).events) == FramesOf(Scan([]).events);
  }

  lemma TracksGot(t: seq<Mark>, m: Mark, buf: seq<Byte>)
    requires Tracks(t, buf) && m.Got?
    ensures Tracks(t + [m], buf + m.bytes)
  {
    hide Scan, FramesOf, HeardSince, RepliesSince;
    SinceSnoc(t, m);
    var heard, b := HeardSince(t), m.bytes;
    ScanConcat(heard, b);
    ScanConcat(buf, b);
    var more := Scan(Scan(buf).rest + b);
    FramesConcat(Scan(heard).events, more.events);
    FramesConcat(Scan(buf).events, more.events);
    var r, x, y := RepliesSince(t), FramesOf(Scan(buf).events), FramesOf(more.events);
    assert r + [] == r;
    assert (r + x) + y == r + (x + y);
  }

  lemma TracksSeek(t: seq<Mark>, buf: seq<Byte>)
    requires Tracks(t, buf)
    ensures match Seek(buf)
            case Dry(rest) => Tracks(t, rest)
            case Found(f, rest) => Tracks(t + [Replied(f)], rest)
  {
    SeekIsScan(buf);
    SeekScanRest(buf);
    hide Scan, FramesOf, HeardSince, RepliesSince, Seek;
    if Seek(buf).Found? {
      var f, rest := Seek(buf).frame, Seek(buf).rest;
      SinceSnoc(t, Replied(f));
      assert HeardSince(t) + [] == HeardSince(t);
      Regroup(RepliesSince(t), [f], FramesOf(Scan(rest).events));
    }
  }

  lemma {:induction false} SeekScanRest(s: seq<Byte>)
    ensures Seek(s).Dry? ==> FramesOf(Scan(Seek(s).rest).events) == [] && Scan(Seek(s).rest).rest == Seek(s).rest
    decreases |s|
  {
    if First(s).Act? && !First(s).event.Emitted? { SeekScanRest(s[1..]); }
  }

  /** The tape since `l0` is honest and `buf` is what its bytes have left. */
  ghost predicate OnTape(l0: Link, l: Link, buf: seq<Byte>) {
    l0.tape <= l.tape && HonestTape(News(l0, l)) && Tracks(News(l0, l), buf)
  }

  lemma OnTapeMark(l0: Link, l: Link, buf: seq<Byte>, m: Link, mark: Mark, buf1: seq<Byte>)
    requires OnTape(l0, l, buf) && m.tape == l.tape + [mark]
    requires Tracks(News(l0, l) + [mark], buf1)
    ensures OnTape(l0, m, buf1)
  {
    hide Tracks, HonestTape;
    assert News(l0, m) == News(l0, l) + [mark];
    HonestSnoc(News(l0, l), mark, buf1);
  }

  lemma OnTapeIdle(l0: Link, l: Link, m: Link, buf: seq<Byte>)
    requires OnTape(l0, l, buf) && m.tape == l.tape
    ensures OnTape(l0, m, buf)
  {
    assert News(l0, m) == News(l0, l);
  }

  lemma {:induction false} AwaitOnTape(env: Env, l0: Link, l: Link, buf: seq<Byte>, deadline: nat)
    requires Patient(env) && OnTape(l0, l, buf)
    ensures var w := Await(env, l, buf, deadline);
            && l0.tape <= w.link.tape && HonestTape(News(l0, w.link))
            && (w.Arrived? ==> OnTape(l0, Marked(w.link, Replied(w.frame)), w.buf))
    decreases Remaining(env, l.tick, deadline)
  {
    hide Seek, Await, Patient, Remaining, Tracks, HonestTape, Chunk;
    TracksSeek(News(l0, l), buf);
    if Seek(buf).Found? {
      AwaitFound(env, l, buf, deadline);
      var f, rest := Seek(buf).frame, Seek(buf).rest;
      OnTapeMark(l0, l, buf, Marked(l, Replied(f)), Replied(f), rest);
    } else {
      AwaitDry(env, l, buf, deadline);
      var rest := Seek(buf).rest;
      assert OnTape(l0, l, rest);
      OnTapeIdle(l0, l, Idle(l), rest);
      if env.clock(l.tick) < deadline {
        var n := Take(env, Idle(l), RUN_BUFFER);
        if env.fails(l.tick + 1) {
          OnTapeIdle(l0, l, n, rest);
        } else {
          var mark := Got(l.rate, Chunk(env, Idle(l), RUN_BUFFER), l.tick + 1);
          TracksGot(News(l0, Idle(l)), mark, rest);
          OnTapeMark(l0, Idle(l), rest, n, mark, rest + mark.bytes);
          RemainingDrops(env, l.tick, deadline);
          TakeTicks(env, Idle(l));
          AwaitOnTape(env, l0, n, rest + mark.bytes, deadline);
        }
      }
    }
  }

  /** `s` continues an honest tape, and if it goes on its buffer is accounted for. */
  ghost predicate SendingOnTape(l0: Link, s: Driver.Sending) {
    && l0.tape <= s.link.tape && HonestTape(News(l0, s.link))
    && (s.Through? ==> OnTape(l0, s.link, s.buf))
  }

  lemma RetunedOnTape(env: Env, to: Option<U32>, l0: Link, l: Link, buf: seq<Byte>)
    requires OnTape(l0, l, buf)
    ensures SendingOnTape(l0, Retuned(env, to, l, buf))
  {
    hide Tracks, HonestTape;
    if to.Some? {
      var m := Tune(env, l, to.value);
      if env.fails(l.tick) {
        OnTapeIdle(l0, l, m, buf);
      } else {
        TracksMark(News(l0, l), Tuned(to.value), buf);
        OnTapeMark(l0, l, buf, m, Tuned(to.value), []);
      }
    }
  }

  lemma DrainedOnTape(env: Env, tcDrain: bool, to: Option<U32>, l0: Link, l: Link, buf: seq<Byte>)
    requires OnTape(l0, l, buf)
    ensures SendingOnTape(l0, DrainedAndRetuned(env, tcDrain, to, l, buf))
  {
    hide Tracks, HonestTape, Retuned;
    if to.Some? && tcDrain {
      var m := DrainLink(env, l);
      if env.fails(l.tick) {
        OnTapeIdle(l0, l, m, buf);
      } else {
        TracksMark(News(l0, l), Drained, buf);
        OnTapeMark(l0, l, buf, m, Drained, buf);
        RetunedOnTape(env, to, l0, m, buf);
      }
    } else {
      RetunedOnTape(env, to, l0, l, buf);
    }
  }

  lemma TransmitOnTape(env: Env, tcDrain: bool, step: Step, l0: Link, l: Link, buf: seq<Byte>)
    requires OnTape(l0, l, buf)
    ensures SendingOnTape(l0, Transmit(env, tcDrain, step, l, buf))
  {
    hide Tracks, HonestTape, Retuned, DrainedAndRetuned, Encode;
    RetunedOnTape(env, step.retuneBefore, l0, l, buf);
    var s := Retuned(env, step.retuneBefore, l, buf);
    if s.Through? {
      var m := s.link;
      var m1 := Put(env, m, Encode(step.frame));
      var mark := m1.tape[|m.tape|];
      TracksMark(News(l0, m), mark, s.buf);
      OnTapeMark(l0, m, s.buf, m1, mark, s.buf);
      var f := FlushLink(env, m1);
      if env.fails(m1.tick) {
        OnTapeIdle(l0, m1, f, s.buf);
      } else {
        TracksMark(News(l0, m1), Flushed, s.buf);
        OnTapeMark(l0, m1, s.buf, f, Flushed, s.buf);
        DrainedOnTape(env, tcDrain, step.retuneAfter, l0, f, s.buf);
      }
    }
  }

  lemma StepOnTape(env: Env, tcDrain: bool, steps: seq<Step>, p: Progress, l0: Link, l: Link, buf: seq<Byte>)
    requires Patient(env) && Sound(steps, p) && !p.awaiting && p.at < |steps| && OnTape(l0, l, buf)
    ensures var e := StepFrom(env, tcDrain, steps, p, l, buf);
            && l0.tape <= e.link.tape && HonestTape(News(l0, e.link))
            && (e.Onward? ==> OnTape(l0, e.link, e.buf))
  {
    hide Tracks, HonestTape, Transmit, Await, Patient, Objection, HasWrite, WritesEndBy;
    TransmitOnTape(env, tcDrain, steps[p.at], l0, l, buf);
    var s := Transmit(env, tcDrain, steps[p.at], l, buf);
    if s.Through? && steps[p.at].wants != Nothing {
      OnTapeIdle(l0, s.link, Idle(s.link), s.buf);
      AwaitOnTape(env, l0, Idle(s.link), s.buf, env.clock(s.link.tick) + steps[p.at].timeoutMs);
    }
  }

  lemma {:induction false} RunOnTape(env: Env, tcDrain: bool, steps: seq<Step>, p: Progress, l0: Link, l: Link,
                                     buf: seq<Byte>)
    requires Patient(env) && Sound(steps, p) && !p.awaiting && OnTape(l0, l, buf)
    ensures var o := RunFrom(env, tcDrain, steps, p, l, buf); l0.tape <= o.link.tape && HonestTape(News(l0, o.link))
    decreases |steps| - p.at
  {
    if p.at < |steps| {
      hide Tracks, HonestTape, StepFrom, Patient, HasWrite, WritesEndBy;
      StepOnTape(env, tcDrain, steps, p, l0, l, buf);
      var e := StepFrom(env, tcDrain, steps, p, l, buf);
      if e.Onward? { RunOnTape(env, tcDrain, steps, e.progress, l0, e.link, e.buf); }
    }
  }

  /**
    * At every moment of every run, the replies taken since the last change of
    * rate are, in order, the first frames one scan finds in the bytes read since
    * that change: nothing buffered before it is ever part of a reply after it.
    */
  lemma RunIsHonest(env: Env, tcDrain: bool, steps: seq<Step>, p: Progress, l: Link)
    requires Patient(env) && Sound(steps, p) && !p.awaiting
    ensures var o := RunFrom(env, tcDrain, steps, p, l, []); l.tape <= o.link.tape && HonestTape(News(l, o.link))
  {
    assert News(l, l) == [];
    assert [] + FramesOf(Scan([]).events) == FramesOf(Scan([]).events);
    assert OnTape(l, l, []);
    RunOnTape(env, tcDrain, steps, p, l, l, []);
  }
}
