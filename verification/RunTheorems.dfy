/**
  * What every run leaves on the tape, in every environment: which bytes went
  * out, at which rate, which replies were accepted, and what an error means.
  */
module RunTheorems {
  import opened Bytes
  import opened FrameCodec
  import opened StreamScan
  import opened SessionMachine
  import opened WireModel
  import opened Driver

  // ----------------------------------------------------------- reading a tape

  datatype Outgoing = Outgoing(rate: U32, bytes: seq<Byte>)

  function SentIn(t: seq<Mark>): seq<Outgoing> {
    if t == [] then []
    else (if t[0].Sent? then [Outgoing(t[0].rate, t[0].bytes)] else []) + SentIn(t[1..])
  }

  function RepliesIn(t: seq<Mark>): seq<Frame> {
    if t == [] then []
    else (if t[0].Replied? then [t[0].frame] else []) + RepliesIn(t[1..])
  }

  predicate HeardOnlyAt(t: seq<Mark>, rate: U32) {
    forall i :: 0 <= i < |t| && t[i].Got? ==> t[i].rate == rate
  }

  lemma {:induction false} SentConcat(a: seq<Mark>, b: seq<Mark>)
    ensures SentIn(a + b) == SentIn(a) + SentIn(b)
  {
    if a == [] {
      assert a + b == b;
    } else {
      assert (a + b)[1..] == a[1..] + b;
      SentConcat(a[1..], b);
      var x := if a[0].Sent? then [Outgoing(a[0].rate, a[0].bytes)] else [];
      assert x + (SentIn(a[1..]) + SentIn(b)) == (x + SentIn(a[1..])) + SentIn(b);
    }
  }

  lemma {:induction false} RepliesConcat(a: seq<Mark>, b: seq<Mark>)
    ensures RepliesIn(a + b) == RepliesIn(a) + RepliesIn(b)
  {
    if a == [] {
      assert a + b == b;
    } else {
      assert (a + b)[1..] == a[1..] + b;
      RepliesConcat(a[1..], b);
      var x := if a[0].Replied? then [a[0].frame] else [];
      assert x + (RepliesIn(a[1..]) + RepliesIn(b)) == (x + RepliesIn(a[1..])) + RepliesIn(b);
    }
  }

  lemma OneMark(m: Mark)
    ensures SentIn([m]) == if m.Sent? then [Outgoing(m.rate, m.bytes)] else []
    ensures RepliesIn([m]) == if m.Replied? then [m.frame] else []
  {
    assert [m][1..] == [];
  }

  /** The marks a link gained. */
  function News(l: Link, m: Link): seq<Mark>
    requires l.tape <= m.tape
  {
    m.tape[|l.tape|..]
  }

  lemma NewsChain(l: Link, m: Link, n: Link)
    requires l.tape <= m.tape <= n.tape
    ensures News(l, n) == News(l, m) + News(m, n)
    ensures SentIn(News(l, n)) == SentIn(News(l, m)) + SentIn(News(m, n))
    ensures RepliesIn(News(l, n)) == RepliesIn(News(l, m)) + RepliesIn(News(m, n))
  {
    assert News(l, n) == News(l, m) + News(m, n);
    SentConcat(News(l, m), News(m, n));
    RepliesConcat(News(l, m), News(m, n));
  }

  /** Something sent, then something heard at one rate. */
  lemma SentThenHeard(l: Link, m: Link, n: Link, rate: U32)
    requires l.tape <= m.tape <= n.tape
    requires RepliesIn(News(l, m)) == [] && forall i :: 0 <= i < |News(l, m)| ==> !News(l, m)[i].Got?
    requires SentIn(News(m, n)) == [] && HeardOnlyAt(News(m, n), rate)
    ensures SentIn(News(l, n)) == SentIn(News(l, m)) && RepliesIn(News(l, n)) == RepliesIn(News(m, n))
    ensures HeardOnlyAt(News(l, n), rate)
  {
    NewsChain(l, m, n);
    hide SentIn, RepliesIn, News;
    assert SentIn(News(l, m)) + [] == SentIn(News(l, m));
    assert [] + RepliesIn(News(m, n)) == RepliesIn(News(m, n));
  }

  // ------------------------------------------------------------- rate changes

  function SendRate(step: Step, rate: U32): U32 {
    if step.retuneBefore.Some? then step.retuneBefore.value else rate
  }

  function ReadRate(step: Step, rate: U32): U32 {
    if step.retuneAfter.Some? then step.retuneAfter.value else SendRate(step, rate)
  }

  /** The rate in force when step `n` is taken, if `rate` is when step `from` is. */
  function RateAt(steps: seq<Step>, from: nat, n: nat, rate: U32): U32
    requires from <= n <= |steps|
  {
    if n == from then rate else ReadRate(steps[n - 1], RateAt(steps, from, n - 1, rate))
  }

  // ------------------------------------------------------------------ one step

  /** Between taking a step and waiting, at most one frame goes out, at the step's rate; nothing is read. */
  predicate TransmitShape(step: Step, l: Link, s: Driver.Sending) {
    && l.tape <= s.link.tape
    && var d := News(l, s.link);
       && RepliesIn(d) == []
       && (forall i :: 0 <= i < |d| ==> !d[i].Got?)
       && |SentIn(d)| <= 1
       && (|SentIn(d)| == 1 ==>
             SentIn(d)[0].rate == SendRate(step, l.rate) && SentIn(d)[0].bytes <= Encode(step.frame))
       && (s.Through? ==>
             && SentIn(d) == [Outgoing(SendRate(step, l.rate), Encode(step.frame))]
             && s.link.rate == ReadRate(step, l.rate))
  }

  predicate Quiet(l: Link, m: Link) {
    && l.tape <= m.tape
    && SentIn(News(l, m)) == [] && RepliesIn(News(l, m)) == []
    && forall i :: 0 <= i < |News(l, m)| ==> !News(l, m)[i].Got?
  }

  lemma RetunedIsQuiet(env: Env, to: Option<U32>, l: Link, buf: seq<Byte>)
    ensures var s := Retuned(env, to, l, buf);
            Quiet(l, s.link) && (s.Through? && to.Some? ==> s.link.rate == to.value)
                             && (to.None? ==> s.link.rate == l.rate)
  {
    var s := Retuned(env, to, l, buf);
    if |s.link.tape| == |l.tape| {
      assert News(l, s.link) == [];
    } else {
      assert News(l, s.link) == [Tuned(to.value)];
      OneMark(Tuned(to.value));
    }
  }

  lemma DrainedIsQuiet(env: Env, tcDrain: bool, to: Option<U32>, l: Link, buf: seq<Byte>)
    ensures var s := DrainedAndRetuned(env, tcDrain, to, l, buf);
            Quiet(l, s.link) && (s.Through? && to.Some? ==> s.link.rate == to.value)
                             && (to.None? ==> s.link.rate == l.rate)
  {
    if to.Some? && tcDrain {
      var m := DrainLink(env, l);
      if env.fails(l.tick) {
        assert News(l, m) == [];
      } else {
        assert News(l, m) == [Drained];
        OneMark(Drained);
        RetunedIsQuiet(env, to, m, buf);
        hide Retuned, SentIn, RepliesIn;
        NewsChain(l, m, Retuned(env, to, m, buf).link);
      }
    } else {
      RetunedIsQuiet(env, to, l, buf);
    }
  }

  /** The write of one frame. */
  lemma PutShape(env: Env, m: Link, bytes: seq<Byte>)
    ensures var m1 := Put(env, m, bytes);
            && m.tape <= m1.tape && m1.rate == m.rate
            && |News(m, m1)| == 1 && !News(m, m1)[0].Got?
            && RepliesIn(News(m, m1)) == []
            && |SentIn(News(m, m1))| == 1
            && SentIn(News(m, m1))[0].rate == m.rate && SentIn(News(m, m1))[0].bytes <= bytes
            && (!env.fails(m.tick) ==> SentIn(News(m, m1)) == [Outgoing(m.rate, bytes)])
  {
    var m1 := Put(env, m, bytes);
    var mark := m1.tape[|m.tape|];
    assert News(m, m1) == [mark];
    OneMark(mark);
  }

  /** Quiet stretches around a write do not change what was written. */
  lemma QuietAround(l: Link, m: Link, m1: Link, m2: Link)
    requires Quiet(l, m) && m.tape <= m1.tape && Quiet(m1, m2)
    requires RepliesIn(News(m, m1)) == [] && forall i :: 0 <= i < |News(m, m1)| ==> !News(m, m1)[i].Got?
    ensures l.tape <= m2.tape && RepliesIn(News(l, m2)) == []
    ensures SentIn(News(l, m2)) == SentIn(News(m, m1))
    ensures forall i :: 0 <= i < |News(l, m2)| ==> !News(l, m2)[i].Got?
  {
    hide SentIn, RepliesIn;
    NewsChain(l, m, m1);
    NewsChain(l, m1, m2);
  }

  lemma QuietStays(l: Link, m: Link)
    requires m.tape == l.tape
    ensures Quiet(l, m)
  {
    assert News(l, m) == [];
  }

  lemma TransmitHasShape(env: Env, tcDrain: bool, step: Step, l: Link, buf: seq<Byte>)
    ensures TransmitShape(step, l, Transmit(env, tcDrain, step, l, buf))
  {
    hide Encode, Retuned, DrainedAndRetuned, SentIn, RepliesIn, News, Put;
    RetunedIsQuiet(env, step.retuneBefore, l, buf);
    var s0 := Retuned(env, step.retuneBefore, l, buf);
    if s0.Through? {
      var m := s0.link;
      var m1 := Put(env, m, Encode(step.frame));
      PutShape(env, m, Encode(step.frame));
      if env.fails(m.tick) {
        QuietStays(m1, m1);
        QuietAround(l, m, m1, m1);
      } else if env.fails(m1.tick) {
        QuietStays(m1, FlushLink(env, m1));
        QuietAround(l, m, m1, FlushLink(env, m1));
      } else {
        var f := FlushLink(env, m1);
        var s2 := DrainedAndRetuned(env, tcDrain, step.retuneAfter, f, s0.buf);
        FlushIsQuiet(env, m1);
        DrainedIsQuiet(env, tcDrain, step.retuneAfter, f, s0.buf);
        QuietChain(m1, f, s2.link);
        QuietAround(l, m, m1, s2.link);
      }
    }
  }

  lemma FlushIsQuiet(env: Env, m: Link)
    ensures Quiet(m, FlushLink(env, m))
  {
    var f := FlushLink(env, m);
    if f.tape == m.tape {
      assert News(m, f) == [];
    } else {
      assert News(m, f) == [Flushed];
      OneMark(Flushed);
    }
  }

  lemma QuietChain(l: Link, m: Link, n: Link)
    requires Quiet(l, m) && Quiet(m, n)
    ensures Quiet(l, n)
  {
    hide SentIn, RepliesIn;
    NewsChain(l, m, n);
  }

  /** Waiting only reads, and at the rate it found. */
  predicate AwaitShape(l: Link, m: Link) {
    && l.tape <= m.tape && m.rate == l.rate
    && SentIn(News(l, m)) == [] && RepliesIn(News(l, m)) == []
    && forall i :: 0 <= i < |News(l, m)| ==> News(l, m)[i].Got? && News(l, m)[i].rate == l.rate
  }

  lemma AwaitShapeStays(l: Link, m: Link)
    requires m.tape == l.tape && m.rate == l.rate
    ensures AwaitShape(l, m)
  {
    assert News(l, m) == [];
  }

  lemma AwaitShapeRead(env: Env, l: Link)
    ensures AwaitShape(l, Take(env, Idle(l), RUN_BUFFER))
  {
    var n := Take(env, Idle(l), RUN_BUFFER);
    if |n.tape| == |l.tape| {
      assert News(l, n) == [];
    } else {
      assert News(l, n) == [n.tape[|l.tape|]];
      OneMark(n.tape[|l.tape|]);
    }
  }

  lemma AwaitShapeChain(l: Link, m: Link, n: Link)
    requires AwaitShape(l, m) && AwaitShape(m, n)
    ensures AwaitShape(l, n)
  {
    hide SentIn, RepliesIn;
    NewsChain(l, m, n);
  }

  lemma {:induction false} AwaitHasShape(env: Env, l: Link, buf: seq<Byte>, deadline: nat)
    requires Patient(env)
    ensures AwaitShape(l, Await(env, l, buf, deadline).link)
    decreases Remaining(env, l.tick, deadline)
  {
    hide Seek, AwaitShape, Take, Chunk, Await, Remaining, Patient;
    var w := Await(env, l, buf, deadline);
    if Seek(buf).Found? {
      AwaitFound(env, l, buf, deadline);
      AwaitShapeStays(l, l);
    } else {
      AwaitDry(env, l, buf, deadline);
      if env.clock(l.tick) >= deadline {
        AwaitShapeStays(l, Idle(l));
      } else {
        var n := Take(env, Idle(l), RUN_BUFFER);
        AwaitShapeRead(env, l);
        if !env.fails(l.tick + 1) {
          RemainingDrops(env, l.tick, deadline);
          TakeTicks(env, Idle(l));
          var rest := Seek(buf).rest + Chunk(env, Idle(l), RUN_BUFFER);
          AwaitHasShape(env, n, rest, deadline);
          AwaitShapeChain(l, n, Await(env, n, rest, deadline).link);
        }
      }
    }
  }

  /** A reply is given up on only when the clock has passed its deadline. */
  lemma {:induction false} SilentMeansLate(env: Env, l: Link, buf: seq<Byte>, deadline: nat)
    requires Patient(env)
    ensures var w := Await(env, l, buf, deadline);
            w.Silent? ==> w.link.tick > 0 && env.clock(w.link.tick - 1) >= deadline
    decreases Remaining(env, l.tick, deadline)
  {
    hide Seek, Chunk, Remaining, Patient, Await;
    if Seek(buf).Found? {
      AwaitFound(env, l, buf, deadline);
    } else {
      AwaitDry(env, l, buf, deadline);
      if env.clock(l.tick) < deadline && !env.fails(l.tick + 1) {
        RemainingDrops(env, l.tick, deadline);
        var n := Take(env, Idle(l), RUN_BUFFER);
        TakeTicks(env, Idle(l));
        SilentMeansLate(env, n, Seek(buf).rest + Chunk(env, Idle(l), RUN_BUFFER), deadline);
      }
    }
  }

  lemma TakeTicks(env: Env, l: Link)
    ensures Take(env, l, RUN_BUFFER).tick == l.tick + 1
  {
  }

  /** What one whole step leaves behind. */
  ghost predicate StepShape(step: Step, l: Link, e: StepEnd) {
    && l.tape <= e.link.tape
    && var d := News(l, e.link);
       && |SentIn(d)| <= 1
       && (|SentIn(d)| == 1 ==>
             SentIn(d)[0].rate == SendRate(step, l.rate) && SentIn(d)[0].bytes <= Encode(step.frame))
       && HeardOnlyAt(d, ReadRate(step, l.rate))
       && (e.Onward? ==>
             && SentIn(d) == [Outgoing(SendRate(step, l.rate), Encode(step.frame))]
             && e.link.rate == ReadRate(step, l.rate)
             && (if step.wants == Nothing then RepliesIn(d) == []
                 else |RepliesIn(d)| == 1 && Satisfies(step, RepliesIn(d)[0])))
       && (e.Halted? ==> Refused(step, e.error, RepliesIn(d)))
  }

  /** The replies heard when a step ends in error: the refused one, if that is the error. */
  ghost predicate Refused(step: Step, error: RunError, replies: seq<Frame>) {
    if error.Rejected? then
      && |replies| == 1 && !Satisfies(step, replies[0])
      && Objection(step, replies[0]) == Some(error.error)
    else replies == []
  }

  /** Waiting for the reply adds that reply and nothing sent, all of it heard at one rate. */
  lemma HearHasShape(env: Env, steps: seq<Step>, q: Progress, l: Link, buf: seq<Byte>)
    requires Patient(env) && Sound(steps, q) && q.awaiting
    ensures var e, step := Hear(env, steps, q, l, buf), steps[q.at];
            && l.tape <= e.link.tape && e.link.rate == l.rate
            && var d := News(l, e.link);
               && SentIn(d) == [] && HeardOnlyAt(d, l.rate)
               && (e.Onward? ==> |RepliesIn(d)| == 1 && Satisfies(step, RepliesIn(d)[0]))
               && (e.Halted? ==> Refused(step, e.error, RepliesIn(d)))
  {
    hide Await, Encode, Objection, Satisfies, HasWrite, WritesEndBy, SentIn, RepliesIn;
    var step := steps[q.at];
    var m, deadline := Idle(l), env.clock(l.tick) + step.timeoutMs;
    AwaitHasShape(env, m, buf, deadline);
    var w := Await(env, m, buf, deadline);
    assert News(l, w.link) == News(m, w.link);
    if w.Arrived? {
      var n := Marked(w.link, Replied(w.frame));
      assert News(w.link, n) == [Replied(w.frame)];
      OneMark(Replied(w.frame));
      NewsChain(l, w.link, n);
      AcceptsExactly(step, w.frame);
    }
  }

  lemma StepHasShape(env: Env, tcDrain: bool, steps: seq<Step>, p: Progress, l: Link, buf: seq<Byte>)
    requires Patient(env) && Sound(steps, p) && !p.awaiting && p.at < |steps|
    ensures StepShape(steps[p.at], l, StepFrom(env, tcDrain, steps, p, l, buf))
  {
    var step, q := steps[p.at], Issue(steps, p);
    assert Sound(steps, q);
    hide Transmit, Hear, Encode, Objection, Satisfies, HasWrite, WritesEndBy, SentIn, RepliesIn, Sound, News,
         Refused, SendRate, ReadRate;
    TransmitHasShape(env, tcDrain, step, l, buf);
    var s := Transmit(env, tcDrain, step, l, buf);
    if s.Through? && step.wants != Nothing {
      HearHasShape(env, steps, q, s.link, s.buf);
      SentThenHeard(l, s.link, Hear(env, steps, q, s.link, s.buf).link, ReadRate(step, l.rate));
    }
  }

  // ------------------------------------------------------------ the whole run

  /** `replies` answers, one for one and in order, the steps from `from` to `to` that want an answer. */
  predicate Answers(steps: seq<Step>, from: nat, to: nat, replies: seq<Frame>)
    requires from <= to <= |steps|
    decreases |steps| - from
  {
    if from == to then replies == []
    else if steps[from].wants == Nothing then Answers(steps, from + 1, to, replies)
    else replies != [] && Satisfies(steps[from], replies[0]) && Answers(steps, from + 1, to, replies[1..])
  }

  /** How many steps the run got through: all of them, or all before the one it stopped in. */
  function Completed(steps: seq<Step>, o: Outcome): int {
    if o.result == Done then |steps| else o.progress.Handed() - 1
  }

  /** Step `from + i` went out in full and at its own rate. */
  predicate SentWhole(steps: seq<Step>, from: nat, rate: U32, i: nat, x: Outgoing) {
    && from + i < |steps|
    && x == Outgoing(SendRate(steps[from + i], RateAt(steps, from, from + i, rate)), Encode(steps[from + i].frame))
  }

  /** Step `from + i` went out at its own rate, up to some point. */
  predicate SentPart(steps: seq<Step>, from: nat, rate: U32, i: nat, x: Outgoing) {
    && from + i < |steps|
    && x.rate == SendRate(steps[from + i], RateAt(steps, from, from + i, rate))
    && x.bytes <= Encode(steps[from + i].frame)
  }

  /** The writes of a run: every step it got through, then at most part of the one it stopped in. */
  predicate SendsPlan(steps: seq<Step>, from: nat, rate: U32, done: nat, sent: seq<Outgoing>) {
    && from + done <= |steps|
    && done <= |sent| <= done + 1
    && (forall i :: 0 <= i < done ==> SentWhole(steps, from, rate, i, sent[i]))
    && (|sent| > done ==> SentPart(steps, from, rate, done, sent[done]))
  }

  /** The replies of a run: one satisfying answer per step it got through, then only a rejected one. */
  ghost predicate HearsAnswers(steps: seq<Step>, from: nat, done: nat, o: Outcome, replies: seq<Frame>)
    requires from <= done <= |steps|
  {
    if o.result.Stopped? && Cause(o.result.error).Rejected? then
      && replies != [] && done < |steps|
      && Answers(steps, from, done, replies[..|replies| - 1])
      && Objection(steps[done], replies[|replies| - 1]) == Some(Cause(o.result.error).error)
    else Answers(steps, from, done, replies)
  }

  function Cause(e: RunError): RunError { if e.IndeterminateFlash? then e.inner else e }

  lemma {:induction false} RateShift(steps: seq<Step>, from: nat, n: nat, rate: U32)
    requires from < n <= |steps|
    ensures RateAt(steps, from, n, rate) == RateAt(steps, from + 1, n, ReadRate(steps[from], rate))
  {
    if n > from + 1 { RateShift(steps, from, n - 1, rate); }
  }

  lemma SendsPlanStep(steps: seq<Step>, from: nat, rate: U32, done: nat, x: Outgoing, sent: seq<Outgoing>)
    requires from < |steps| && SentWhole(steps, from, rate, 0, x)
    requires SendsPlan(steps, from + 1, ReadRate(steps[from], rate), done, sent)
    ensures SendsPlan(steps, from, rate, done + 1, [x] + sent)
  {
    hide Encode, SendRate, ReadRate;
    forall i | 0 <= i < done + 1 ensures SentWhole(steps, from, rate, i, ([x] + sent)[i]) {
      if i > 0 {
        RateShift(steps, from, from + i, rate);
        assert SentWhole(steps, from + 1, ReadRate(steps[from], rate), i - 1, sent[i - 1]);
      }
    }
    if |sent| > done { RateShift(steps, from, from + 1 + done, rate); }
  }

  /**
    * Every run, in every environment: the frames of the plan go out in order,
    * each whole and at its own rate, with at most a part of the one the run
    * stopped in after them.
    */
  lemma {:induction false} RunSendsPlan(env: Env, tcDrain: bool, steps: seq<Step>, p: Progress, l: Link, buf: seq<Byte>)
    requires Patient(env) && Sound(steps, p) && !p.awaiting
    ensures var o := RunFrom(env, tcDrain, steps, p, l, buf);
            && l.tape <= o.link.tape
            && p.at <= Completed(steps, o) <= |steps|
            && SendsPlan(steps, p.at, l.rate, Completed(steps, o) - p.at, SentIn(News(l, o.link)))
    decreases |steps| - p.at
  {
    hide Patient, StepFrom, Encode, Objection, Satisfies, HasWrite, WritesEndBy, SentIn, RepliesIn, SendRate, ReadRate;
    var o := RunFrom(env, tcDrain, steps, p, l, buf);
    if p.at == |steps| {
      assert News(l, o.link) == [];
      NothingSent();
    } else {
      StepHasShape(env, tcDrain, steps, p, l, buf);
      var e := StepFrom(env, tcDrain, steps, p, l, buf);
      if e.Onward? {
        RunSendsPlan(env, tcDrain, steps, e.progress, e.link, e.buf);
        NewsChain(l, e.link, o.link);
        var x := SentIn(News(l, e.link))[0];
        SendsPlanStep(steps, p.at, l.rate, Completed(steps, o) - p.at - 1, x, SentIn(News(e.link, o.link)));
      } else {
        HaltedHere(env, tcDrain, steps, p, l, buf);
      }
    }
  }

  lemma NothingSent()
    ensures SentIn([]) == [] && RepliesIn([]) == []
  {
  }

  /** A run that stops, stops in the step it took. */
  lemma HaltedHere(env: Env, tcDrain: bool, steps: seq<Step>, p: Progress, l: Link, buf: seq<Byte>)
    requires Patient(env) && Sound(steps, p) && !p.awaiting && p.at < |steps|
    ensures var e := StepFrom(env, tcDrain, steps, p, l, buf);
            e.Halted? ==>
              e.progress == Issue(steps, p) && e.progress.Handed() == p.at + 1 && !e.error.IndeterminateFlash?
  {
    hide Transmit, Await, Objection, HasWrite, WritesEndBy;
  }

  lemma AnswerAhead(steps: seq<Step>, from: nat, done: nat, o: Outcome, x: Frame, r: seq<Frame>)
    requires from < done <= |steps| && steps[from].wants != Nothing && Satisfies(steps[from], x)
    requires HearsAnswers(steps, from + 1, done, o, r)
    ensures HearsAnswers(steps, from, done, o, [x] + r)
  {
    hide Satisfies, Objection;
    var all := [x] + r;
    assert all[1..] == r;
    if r != [] {
      assert all[..|all| - 1][1..] == r[..|r| - 1];
      assert all[|all| - 1] == r[|r| - 1];
    }
  }

  /** Every run: each step it got through was answered by exactly one frame, and that frame satisfied it. */
  lemma {:induction false} RunHearsAnswers(env: Env, tcDrain: bool, steps: seq<Step>, p: Progress, l: Link,
                                           buf: seq<Byte>)
    requires Patient(env) && Sound(steps, p) && !p.awaiting
    ensures var o := RunFrom(env, tcDrain, steps, p, l, buf);
            && l.tape <= o.link.tape
            && p.at <= Completed(steps, o) <= |steps|
            && HearsAnswers(steps, p.at, Completed(steps, o), o, RepliesIn(News(l, o.link)))
    decreases |steps| - p.at
  {
    hide Patient, StepFrom, Encode, Objection, Satisfies, HasWrite, WritesEndBy, SentIn, RepliesIn, SendRate, ReadRate;
    var o := RunFrom(env, tcDrain, steps, p, l, buf);
    if p.at == |steps| {
      assert News(l, o.link) == [];
      NothingSent();
    } else {
      StepHasShape(env, tcDrain, steps, p, l, buf);
      var e := StepFrom(env, tcDrain, steps, p, l, buf);
      if e.Onward? {
        RunHearsAnswers(env, tcDrain, steps, e.progress, e.link, e.buf);
        NewsChain(l, e.link, o.link);
        var r := RepliesIn(News(e.link, o.link));
        if steps[p.at].wants == Nothing {
          assert [] + r == r;
        } else {
          var x := RepliesIn(News(l, e.link))[0];
          assert RepliesIn(News(l, e.link)) == [x];
          AnswerAhead(steps, p.at, Completed(steps, o), o, x, r);
        }
      } else {
        HaltedHere(env, tcDrain, steps, p, l, buf);
      }
    }
  }

  /** Every run: if all steps are read at one rate, nothing is read at any other. */
  lemma {:induction false} RunHearsAt(env: Env, tcDrain: bool, steps: seq<Step>, p: Progress, l: Link,
                                      buf: seq<Byte>, rate: U32)
    requires Patient(env) && Sound(steps, p) && !p.awaiting
    requires forall j :: p.at <= j < |steps| ==> ReadRate(steps[j], RateAt(steps, p.at, j, l.rate)) == rate
    ensures var o := RunFrom(env, tcDrain, steps, p, l, buf);
            l.tape <= o.link.tape && HeardOnlyAt(News(l, o.link), rate)
    decreases |steps| - p.at
  {
    hide Patient, StepFrom, Encode, Objection, Satisfies, HasWrite, WritesEndBy, SentIn, RepliesIn, SendRate, ReadRate;
    var o := RunFrom(env, tcDrain, steps, p, l, buf);
    if p.at == |steps| {
      assert News(l, o.link) == [];
    } else {
      StepHasShape(env, tcDrain, steps, p, l, buf);
      var e := StepFrom(env, tcDrain, steps, p, l, buf);
      assert RateAt(steps, p.at, p.at, l.rate) == l.rate;
      if e.Onward? {
        forall j | e.progress.at <= j < |steps|
          ensures ReadRate(steps[j], RateAt(steps, e.progress.at, j, e.link.rate)) == rate
        {
          RateShift(steps, p.at, j, l.rate);
        }
        RunHearsAt(env, tcDrain, steps, e.progress, e.link, e.buf, rate);
        NewsChain(l, e.link, o.link);
      }
    }
  }

  /**
    * Every run: it is done exactly when every step is behind it, an error is
    * wrapped as indeterminate exactly when the session says the flash is, and
    * never twice.
    */
  lemma {:induction false} RunErrorExact(env: Env, tcDrain: bool, steps: seq<Step>, p: Progress, l: Link,
                                         buf: seq<Byte>)
    requires Patient(env) && Sound(steps, p) && !p.awaiting
    ensures var o := RunFrom(env, tcDrain, steps, p, l, buf);
            match o.result
            case Done => o.progress.at == |steps| && !o.progress.awaiting && !o.progress.Indeterminate()
            case Stopped(e) =>
              && (e.IndeterminateFlash? <==> o.progress.Indeterminate())
              && !Cause(e).IndeterminateFlash?
    decreases |steps| - p.at
  {
    if p.at < |steps| {
      hide StepFrom, Encode, Objection, HasWrite, WritesEndBy;
      HaltedHere(env, tcDrain, steps, p, l, buf);
      var e := StepFrom(env, tcDrain, steps, p, l, buf);
      if e.Onward? { RunErrorExact(env, tcDrain, steps, e.progress, e.link, e.buf); }
    }
  }

  // ------------------------------------------------------------------ lockstep

  /**
    * Whenever a frame goes out, say the one of step `from + m`, the replies so
    * far answer, one for one and each accepted, the steps before it that want
    * an answer.
    */
  ghost predicate Lockstep(steps: seq<Step>, from: nat, t: seq<Mark>) {
    forall n :: 0 <= n < |t| && t[n].Sent? ==> InStep(steps, from, |SentIn(t[..n])|, RepliesIn(t[..n]))
  }

  /** There is a step after the first `m`, and `replies` answers these. */
  predicate InStep(steps: seq<Step>, from: nat, m: nat, replies: seq<Frame>) {
    from + m < |steps| && Answers(steps, from, from + m, replies)
  }

  lemma {:induction false} NoneSent(t: seq<Mark>, n: nat)
    requires SentIn(t) == [] && n < |t|
    ensures !t[n].Sent?
  {
    if n > 0 && !t[0].Sent? {
      assert SentIn(t) == [] + SentIn(t[1..]);
      NoneSent(t[1..], n - 1);
    }
  }

  /** Before the only write of a stretch without replies there is neither write nor reply. */
  lemma BeforeTheWrite(t: seq<Mark>, n: nat)
    requires n < |t| && t[n].Sent? && |SentIn(t)| <= 1 && RepliesIn(t) == []
    ensures SentIn(t[..n]) == [] && RepliesIn(t[..n]) == []
  {
    var a, b := t[..n], t[n..];
    assert t == a + b;
    SentConcat(a, b);
    RepliesConcat(a, b);
    assert b[0].Sent? && |SentIn(b)| == 1 + |SentIn(b[1..])|;
  }

  /** A step writes before it hears anything. */
  ghost predicate WritesFirst(l: Link, m: Link) {
    && l.tape <= m.tape
    && forall n :: 0 <= n < |News(l, m)| && News(l, m)[n].Sent? ==>
         SentIn(News(l, m)[..n]) == [] && RepliesIn(News(l, m)[..n]) == []
  }

  lemma WritesFirstChain(l: Link, m: Link, n: Link)
    requires WritesFirst(l, m) && m.tape <= n.tape && SentIn(News(m, n)) == []
    ensures WritesFirst(l, n)
  {
    hide SentIn, RepliesIn;
    NewsChain(l, m, n);
    var d, d1, d2 := News(l, n), News(l, m), News(m, n);
    forall k | |d1| <= k < |d| ensures !d[k].Sent? { NoneSent(d2, k - |d1|); }
    forall k | 0 <= k < |d1| ensures d[..k] == d1[..k] && d[k] == d1[k] {}
  }

  lemma StepWritesFirst(env: Env, tcDrain: bool, steps: seq<Step>, p: Progress, l: Link, buf: seq<Byte>)
    requires Patient(env) && Sound(steps, p) && !p.awaiting && p.at < |steps|
    ensures WritesFirst(l, StepFrom(env, tcDrain, steps, p, l, buf).link)
  {
    var step, q := steps[p.at], Issue(steps, p);
    assert Sound(steps, q);
    hide Transmit, Hear, Encode, Objection, Satisfies, HasWrite, WritesEndBy, SentIn, RepliesIn, Sound;
    TransmitHasShape(env, tcDrain, step, l, buf);
    var s := Transmit(env, tcDrain, step, l, buf);
    forall n | 0 <= n < |News(l, s.link)| && News(l, s.link)[n].Sent?
      ensures SentIn(News(l, s.link)[..n]) == [] && RepliesIn(News(l, s.link)[..n]) == []
    {
      BeforeTheWrite(News(l, s.link), n);
    }
    assert WritesFirst(l, s.link);
    if s.Through? && step.wants != Nothing {
      HearHasShape(env, steps, q, s.link, s.buf);
      WritesFirstChain(l, s.link, Hear(env, steps, q, s.link, s.buf).link);
    }
  }

  /** The replies of one step, put before those of the steps after it. */
  lemma AnswersAhead(steps: seq<Step>, from: nat, m: nat, first: seq<Frame>, rest: seq<Frame>)
    requires from < |steps| && InStep(steps, from + 1, m, rest)
    requires if steps[from].wants == Nothing then first == []
             else |first| == 1 && Satisfies(steps[from], first[0])
    ensures InStep(steps, from, m + 1, first + rest)
  {
    hide Satisfies;
    if steps[from].wants == Nothing {
      assert first + rest == rest;
    } else {
      assert (first + rest)[1..] == rest;
    }
  }

  lemma LockstepAhead(steps: seq<Step>, from: nat, d: seq<Mark>, r: seq<Mark>)
    requires from < |steps| && |SentIn(d)| == 1 && Lockstep(steps, from + 1, r)
    requires if steps[from].wants == Nothing then RepliesIn(d) == []
             else |RepliesIn(d)| == 1 && Satisfies(steps[from], RepliesIn(d)[0])
    requires forall n :: 0 <= n < |d| && d[n].Sent? ==> SentIn(d[..n]) == [] && RepliesIn(d[..n]) == []
    ensures Lockstep(steps, from, d + r)
  {
    hide Satisfies, SentIn, RepliesIn, Answers;
    var t := d + r;
    forall n | 0 <= n < |t| && t[n].Sent? ensures InStep(steps, from, |SentIn(t[..n])|, RepliesIn(t[..n])) {
      if n < |d| {
        assert t[..n] == d[..n];
        InStepAtOnce(steps, from);
      } else {
        hide InStep;
        var k := n - |d|;
        assert t[n] == r[k] && t[..n] == d + r[..k];
        SentConcat(d, r[..k]);
        RepliesConcat(d, r[..k]);
        AnswersAhead(steps, from, |SentIn(r[..k])|, RepliesIn(d), RepliesIn(r[..k]));
      }
    }
  }

  lemma InStepAtOnce(steps: seq<Step>, from: nat)
    requires from < |steps|
    ensures InStep(steps, from, 0, [])
  {
  }

  /** Every run: no frame goes out before every earlier answer is in and accepted. */
  lemma {:induction false} RunInLockstep(env: Env, tcDrain: bool, steps: seq<Step>, p: Progress, l: Link,
                                         buf: seq<Byte>)
    requires Patient(env) && Sound(steps, p) && !p.awaiting
    ensures var o := RunFrom(env, tcDrain, steps, p, l, buf);
            l.tape <= o.link.tape && Lockstep(steps, p.at, News(l, o.link))
    decreases |steps| - p.at
  {
    hide Patient, StepFrom, Encode, Objection, Satisfies, HasWrite, WritesEndBy, SentIn, RepliesIn, Lockstep;
    var o := RunFrom(env, tcDrain, steps, p, l, buf);
    if p.at == |steps| {
      assert News(l, o.link) == [];
      LockstepAlone(steps, p.at, []);
    } else {
      StepHasShape(env, tcDrain, steps, p, l, buf);
      StepWritesFirst(env, tcDrain, steps, p, l, buf);
      var e := StepFrom(env, tcDrain, steps, p, l, buf);
      if e.Onward? {
        RunInLockstep(env, tcDrain, steps, e.progress, e.link, e.buf);
        NewsChain(l, e.link, o.link);
        LockstepAhead(steps, p.at, News(l, e.link), News(e.link, o.link));
      } else {
        LockstepAlone(steps, p.at, News(l, e.link));
      }
    }
  }

  lemma LockstepAlone(steps: seq<Step>, from: nat, d: seq<Mark>)
    requires d == [] || from < |steps|
    requires forall n :: 0 <= n < |d| && d[n].Sent? ==> SentIn(d[..n]) == [] && RepliesIn(d[..n]) == []
    ensures Lockstep(steps, from, d)
  {
    hide SentIn, RepliesIn;
  }
}
