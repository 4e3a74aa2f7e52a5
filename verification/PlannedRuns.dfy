/**
  * Runs of planned sessions: the baud schedule, the acknowledgements, and when
  * the flash is reported indeterminate.
  */
module PlannedRuns {
  import opened Bytes
  import opened FrameCodec
  import opened SessionMachine
  import opened Stc89
  import opened PlanTheorems
  import opened WireModel
  import opened Driver
  import opened RunTheorems
  import opened DrainTheorems

  // ------------------------------------------------------------ baud schedule

  /** In a plan for work only the probe and the commit touch the rate. */
  lemma PlannedRetunes(info: TargetInfo, job: Job, o: SessionOptions, j: nat)
    requires !job.Identify? && PlanOf(info, job, o).Ok? && j < |PlanOf(info, job, o).value|
    ensures var step := PlanOf(info, job, o).value[j];
            && step.retuneBefore == (if j == 1 then Some(o.handshakeBaud) else None)
            && step.retuneAfter == (if j < 2 then Some(o.transferBaud) else None)
  {
    hide *;
    PlanHasGrammar(info, job, o);
    var steps := PlanOf(info, job, o).value;
    var reload: Byte, blocks: Byte :| Grammar(info, job, o, steps, reload, blocks);
    GrammarRetunes(info, job, o, steps, reload, blocks, j);
  }

  lemma GrammarRetunes(info: TargetInfo, job: Job, o: SessionOptions, steps: seq<Step>, reload: Byte, blocks: Byte,
                       j: nat)
    requires Grammar(info, job, o, steps, reload, blocks) && j < |steps|
    ensures steps[j].retuneBefore == if j == 1 then Some(o.handshakeBaud) else None
    ensures steps[j].retuneAfter == if j < 2 then Some(o.transferBaud) else None
  {
    hide Block, ErasedBlocks, EraseBlocksFor, BaudProbeFrame, BaudCommitFrame, LinkTestFrame, EraseFrame, WriteFrame,
         OptionsFrame, RunFrame, Sum8;
  }

  /** The rate at which step `j` of a plan for work is taken. */
  lemma {:induction false} PlannedRate(info: TargetInfo, job: Job, o: SessionOptions, j: nat)
    requires !job.Identify? && PlanOf(info, job, o).Ok? && j <= |PlanOf(info, job, o).value|
    ensures RateAt(PlanOf(info, job, o).value, 0, j, o.handshakeBaud) ==
            if j == 0 then o.handshakeBaud else o.transferBaud
  {
    hide PlanOf;
    if j > 0 {
      PlannedRate(info, job, o, j - 1);
      PlannedRetunes(info, job, o, j - 1);
    }
  }

  lemma PlannedRates(info: TargetInfo, job: Job, o: SessionOptions, j: nat)
    requires !job.Identify? && PlanOf(info, job, o).Ok? && j < |PlanOf(info, job, o).value|
    ensures var steps := PlanOf(info, job, o).value;
            var rate := RateAt(steps, 0, j, o.handshakeBaud);
            && ReadRate(steps[j], rate) == o.transferBaud
            && SendRate(steps[j], rate) == if j < 2 then o.handshakeBaud else o.transferBaud
  {
    hide PlanOf, RateAt;
    PlannedRate(info, job, o, j);
    PlannedRetunes(info, job, o, j);
  }

  lemma SendsPlanRate(steps: seq<Step>, from: nat, rate: U32, done: nat, sent: seq<Outgoing>, i: nat)
    requires SendsPlan(steps, from, rate, done, sent) && i < |sent|
    ensures from + i < |steps| && sent[i].rate == SendRate(steps[from + i], RateAt(steps, from, from + i, rate))
  {
    hide Encode, SendRate, RateAt;
    if i < done { assert SentWhole(steps, from, rate, i, sent[i]); }
  }

  lemma FreshIsSound(steps: seq<Step>)
    ensures Sound(steps, FRESH)
  {
  }

  lemma HeardAtTransferRate(env: Env, tcDrain: bool, info: TargetInfo, job: Job, o: SessionOptions, l: Link)
    requires Patient(env) && !job.Identify? && PlanOf(info, job, o).Ok? && l.rate == o.handshakeBaud
    requires Sound(PlanOf(info, job, o).value, FRESH)
    ensures var out := RunFrom(env, tcDrain, PlanOf(info, job, o).value, FRESH, l, []);
            l.tape <= out.link.tape && HeardOnlyAt(News(l, out.link), o.transferBaud)
  {
    hide PlanOf, Patient, RateAt, SendRate, ReadRate, RunFrom, HeardOnlyAt, Sound;
    var steps := PlanOf(info, job, o).value;
    forall j | 0 <= j < |steps|
      ensures ReadRate(steps[j], RateAt(steps, 0, j, l.rate)) == o.transferBaud
    {
      PlannedRates(info, job, o, j);
    }
    RunHearsAt(env, tcDrain, steps, FRESH, l, [], o.transferBaud);
  }

  lemma SentAtScheduledRate(env: Env, tcDrain: bool, info: TargetInfo, job: Job, o: SessionOptions, l: Link, i: nat)
    requires Patient(env) && !job.Identify? && PlanOf(info, job, o).Ok? && l.rate == o.handshakeBaud
    requires Sound(PlanOf(info, job, o).value, FRESH)
    ensures var out := RunFrom(env, tcDrain, PlanOf(info, job, o).value, FRESH, l, []);
            && l.tape <= out.link.tape
            && (i < |SentIn(News(l, out.link))| ==>
                  SentIn(News(l, out.link))[i].rate == if i < 2 then o.handshakeBaud else o.transferBaud)
  {
    hide PlanOf, Patient, SentIn, RateAt, SendRate, RunFrom, SendsPlan, Sound;
    var steps := PlanOf(info, job, o).value;
    RunSendsPlan(env, tcDrain, steps, FRESH, l, []);
    var out := RunFrom(env, tcDrain, steps, FRESH, l, []);
    var sent := SentIn(News(l, out.link));
    if i < |sent| {
      SendsPlanRate(steps, 0, l.rate, Completed(steps, out), sent, i);
      PlannedRates(info, job, o, i);
    }
  }

  /**
    * Every run of a plan for work that starts at the handshake rate: probe and
    * commit are sent at it, everything later at the transfer rate, and nothing
    * is ever read at any other rate than the transfer rate.
    */
  lemma BaudSchedule(env: Env, tcDrain: bool, info: TargetInfo, job: Job, o: SessionOptions, l: Link)
    requires Patient(env) && !job.Identify? && PlanOf(info, job, o).Ok? && l.rate == o.handshakeBaud
    ensures Sound(PlanOf(info, job, o).value, FRESH)
    ensures var out := RunFrom(env, tcDrain, PlanOf(info, job, o).value, FRESH, l, []);
            && l.tape <= out.link.tape
            && HeardOnlyAt(News(l, out.link), o.transferBaud)
            && forall i :: 0 <= i < |SentIn(News(l, out.link))| ==>
                 SentIn(News(l, out.link))[i].rate == if i < 2 then o.handshakeBaud else o.transferBaud
  {
    FreshIsSound(PlanOf(info, job, o).value);
    hide *;
    HeardAtTransferRate(env, tcDrain, info, job, o, l);
    var out := RunFrom(env, tcDrain, PlanOf(info, job, o).value, FRESH, l, []);
    forall i | 0 <= i < |SentIn(News(l, out.link))|
      ensures SentIn(News(l, out.link))[i].rate == if i < 2 then o.handshakeBaud else o.transferBaud
    {
      SentAtScheduledRate(env, tcDrain, info, job, o, l, i);
    }
  }

  /** The run frame in bytes. */
  lemma RunFrameBytes()
    ensures Encode(Frame(HostToMcu, 0x82, [])) == [0x46, 0xB9, 0x6A, 0x00, 0x06, 0x82, 0xF2, 0x16]
  {
    EncodeLayout(Frame(HostToMcu, 0x82, []));
    var body: seq<Byte> := [0x6A, 0x00, 0x06, 0x82];
    assert [0x6A, 0x00, 0x06, 0x82] + [] == body;
    assert body[1..] == [0x00, 0x06, 0x82] && body[1..][1..] == [0x06, 0x82] && body[1..][1..][1..] == [0x82];
    assert Total([0x82]) == 0x82 && Total([0x06, 0x82]) == 0x88 && Total([0x00, 0x06, 0x82]) == 0x88;
    assert Total(body) == 0xF2;
    hide Encode, Total;
  }

  /**
    * An identify session: one write, at the rate it finds, of the run frame, or
    * of a part of it if that fails; it reads nothing and changes no rate.
    */
  lemma IdentifyNeverRetunes(env: Env, tcDrain: bool, info: TargetInfo, o: SessionOptions, l: Link)
    requires Patient(env)
    ensures PlanOf(info, Identify, o).Ok? && Sound(PlanOf(info, Identify, o).value, FRESH)
    ensures var out := RunFrom(env, tcDrain, PlanOf(info, Identify, o).value, FRESH, l, []);
            var frame := [0x46, 0xB9, 0x6A, 0x00, 0x06, 0x82, 0xF2, 0x16];
            && l.tape <= out.link.tape && out.link.rate == l.rate
            && News(l, out.link) != []
            && (var m := News(l, out.link)[0];
                m.Sent? && m.rate == l.rate && m.bytes <= frame && (out.result == Done ==> m.bytes == frame))
            && News(l, out.link)[1..] <= [Flushed]
  {
    var steps := PlanOf(info, Identify, o).value;
    IdentifyPlan(info, o);
    RunFrameBytes();
    FreshIsSound(steps);
    PlainSend(env, tcDrain, steps[0], l);
    hide PlanOf, Transmit, Encode, HasWrite, WritesEndBy, News;
    assert steps == [steps[0]];
  }

  /** A step without rate changes: one write at the rate in force, then its flush. */
  lemma PlainSend(env: Env, tcDrain: bool, step: Step, l: Link)
    requires step.retuneBefore.None? && step.retuneAfter.None?
    ensures var s := Transmit(env, tcDrain, step, l, []);
            && l.tape <= s.link.tape && s.link.rate == l.rate
            && News(l, s.link) != []
            && (var m := News(l, s.link)[0];
                m.Sent? && m.rate == l.rate && m.bytes <= Encode(step.frame)
                && (s.Through? ==> m.bytes == Encode(step.frame)))
            && News(l, s.link)[1..] <= [Flushed]
  {
    hide Encode;
    var s := Transmit(env, tcDrain, step, l, []);
    var m1 := Put(env, l, Encode(step.frame));
    assert News(l, s.link) == if s.Broken? then [m1.tape[|l.tape|]] else [m1.tape[|l.tape|], Flushed];
  }

  /** In every run of a plan that drains, the rate never changes directly after a write. */
  lemma PlannedDrains(env: Env, info: TargetInfo, job: Job, o: SessionOptions, l: Link)
    requires Patient(env) && PlanOf(info, job, o).Ok?
    ensures Sound(PlanOf(info, job, o).value, FRESH)
    ensures var out := RunFrom(env, true, PlanOf(info, job, o).value, FRESH, l, []);
            l.tape <= out.link.tape && NoHotRetune(News(l, out.link))
  {
    var steps := PlanOf(info, job, o).value;
    FreshIsSound(steps);
    hide PlanOf, RunFrom, NoHotRetune, Patient, Sound;
    forall j | 0 <= j < |steps| - 1 ensures !HotPair(steps[j], steps[j + 1]) {
      OnlyRunUnanswered(info, job, o, j);
    }
    RunDrainsBeforeRetune(env, steps, FRESH, l, []);
  }

  // --------------------------------------------------------- acknowledgements

  /** When only the last step goes unanswered, reply `j` answers step `j`. */
  lemma {:induction false} AnswersInStep(steps: seq<Step>, from: nat, replies: seq<Frame>)
    requires from < |steps| && Answers(steps, from, |steps|, replies)
    requires forall j :: from <= j < |steps| ==> (steps[j].wants == Nothing <==> j == |steps| - 1)
    ensures |replies| == |steps| - 1 - from
    ensures forall j :: from <= j < |steps| - 1 ==> Satisfies(steps[j], replies[j - from])
    decreases |steps| - from
  {
    hide Satisfies;
    if from == |steps| - 1 {
      assert Answers(steps, from + 1, |steps|, replies);
    } else {
      AnswersInStep(steps, from + 1, replies[1..]);
      forall j | from < j < |steps| - 1 ensures Satisfies(steps[j], replies[j - from]) {
        assert replies[1..][j - (from + 1)] == replies[j - from];
      }
    }
  }

  /** The answer each step of a programming plan takes. */
  lemma PlannedAnswer(info: TargetInfo, job: Job, o: SessionOptions, j: nat, f: Frame)
    requires job.Program? && PlanOf(info, job, o).Ok?
    requires j < |PlanOf(info, job, o).value| && Satisfies(PlanOf(info, job, o).value[j], f)
    ensures j == 0 ==> f.cmd == 0x8F && f.payload == PlanOf(info, job, o).value[0].frame.payload
    ensures j == 1 ==> f.cmd == 0x8E && f.payload == PlanOf(info, job, o).value[1].frame.payload
    ensures 2 <= j < 6 ==> f == Frame(McuToHost, 0x80, [])
    ensures 7 <= j < 7 + WriteCount(job) ==> f == Frame(McuToHost, 0x80, [Sum8(Block(job, j - 7))])
  {
    PlanHasGrammar(info, job, o);
    hide PlanOf, TimerReload, Region, Block, EraseBlocksFor, Sum8, ReloadField, WriteFrame, EraseFrame,
         LinkTestFrame, OptionsFrame;
  }

  /** The replies of a programming run: both echoes, four link acks, and each block's own sum. */
  predicate Acked(steps: seq<Step>, job: Job, r: seq<Frame>)
    requires job.Program?
  {
    && |steps| >= 8 + WriteCount(job) && |r| == |steps| - 1
    && r[0].cmd == 0x8F && r[0].payload == steps[0].frame.payload
    && r[1].cmd == 0x8E && r[1].payload == steps[1].frame.payload
    && (forall j :: 2 <= j < 6 ==> r[j] == Frame(McuToHost, 0x80, []))
    && (forall i :: 0 <= i < WriteCount(job) ==>
          r[7 + i] == Frame(McuToHost, 0x80, [Sum8(Block(job, i))]))
  }

  lemma AnswersAreAcks(info: TargetInfo, job: Job, o: SessionOptions, r: seq<Frame>)
    requires job.Program? && PlanOf(info, job, o).Ok?
    requires Answers(PlanOf(info, job, o).value, 0, |PlanOf(info, job, o).value|, r)
    ensures Acked(PlanOf(info, job, o).value, job, r)
  {
    var steps := PlanOf(info, job, o).value;
    PlanLength(info, job, o);
    hide PlanOf, WriteCount, Block, Sum8, Satisfies, Answers;
    forall j | 0 <= j < |steps| ensures steps[j].wants == Nothing <==> j == |steps| - 1 {
      OnlyRunUnanswered(info, job, o, j);
    }
    AnswersInStep(steps, 0, r);
    PlannedAnswer(info, job, o, 0, r[0]);
    PlannedAnswer(info, job, o, 1, r[1]);
    forall j | 2 <= j < 6 ensures r[j] == Frame(McuToHost, 0x80, []) {
      PlannedAnswer(info, job, o, j, r[j]);
    }
    forall i | 0 <= i < WriteCount(job)
      ensures r[7 + i] == Frame(McuToHost, 0x80, [Sum8(Block(job, i))])
    {
      PlannedAnswer(info, job, o, 7 + i, r[7 + i]);
    }
  }

  /**
    * A programming run that ends well was acknowledged throughout: both rate
    * changes were echoed, all four link tests were acked, and the chip returned
    * for every block the sum of exactly the bytes written to it.
    */
  lemma DoneMeansAcked(env: Env, tcDrain: bool, info: TargetInfo, job: Job, o: SessionOptions, l: Link)
    requires Patient(env) && job.Program? && PlanOf(info, job, o).Ok?
    ensures Sound(PlanOf(info, job, o).value, FRESH)
    ensures var steps := PlanOf(info, job, o).value;
            var out := RunFrom(env, tcDrain, steps, FRESH, l, []);
            out.result == Done ==> l.tape <= out.link.tape && Acked(steps, job, RepliesIn(News(l, out.link)))
  {
    var steps := PlanOf(info, job, o).value;
    FreshIsSound(steps);
    RunHearsAnswers(env, tcDrain, steps, FRESH, l, []);
    var out := RunFrom(env, tcDrain, steps, FRESH, l, []);
    if out.result == Done {
      assert Completed(steps, out) == |steps|;
      assert Answers(steps, 0, |steps|, RepliesIn(News(l, out.link)));
      hide *;
      AnswersAreAcks(info, job, o, RepliesIn(News(l, out.link)));
    }
  }

  // ------------------------------------------------------ indeterminate flash

  /** In a planned session: from handing out the first block until the last block's ack is accepted. */
  lemma IndeterminateWindow(info: TargetInfo, job: Job, o: SessionOptions, p: Progress)
    requires !job.Identify? && PlanOf(info, job, o).Ok? && Sound(PlanOf(info, job, o).value, p)
    ensures p.Indeterminate() <==> WriteCount(job) > 0 && p.Handed() > 7 && p.at < 7 + WriteCount(job)
  {
    var steps, w := PlanOf(info, job, o).value, WriteCount(job);
    forall i | 0 <= i < |steps| ensures steps[i].phase == Write <==> 7 <= i < 7 + w {
      WritesAreInTheMiddle(info, job, o, i);
    }
    PlanHasGrammar(info, job, o);
    hide PlanOf, WriteCount, TimerReload, ProbeStep, CommitStep, LinkStep, EraseStep, WriteStep, RunStep;
    assert |steps| >= 8 + w;
    if w > 0 {
      assert steps[7].phase == Write && steps[6 + w].phase == Write;
    }
  }
}
