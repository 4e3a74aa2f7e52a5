/**
  * The write command as one piece: hex text, handshake, plan and run, and what
  * all of it together has done to the chip and to the line.
  */
module FlashCommand {
  import opened Bytes
  import opened FrameCodec
  import opened StreamScan
  import opened StreamTheorems
  import opened SessionMachine
  import opened Stc89
  import opened PlanTheorems
  import opened ChipFlash
  import opened WireModel
  import opened Driver
  import opened RunTheorems
  import opened NoiseTheorems
  import opened PlannedRuns
  import opened FaultTheorems
  import opened PulseTiming
  import opened HandshakeSpec
  import opened Handshake
  import opened IntelHex
  import opened EndToEnd

  datatype CommandError =
    | BadHex(error: HexError)
    | NoTarget(why: HandshakeError)
    | NoPlan(objection: ProtocolError)
    | RunFailed(cause: RunError)

  // ------------------------------------------- what the chip makes of the pulses

  /** Sync pulses and nothing else. */
  predicate AllPulses(bytes: seq<Byte>) {
    forall i :: 0 <= i < |bytes| ==> bytes[i] == 0x7F
  }

  lemma {:induction false} BytesOutConcat(a: seq<Outgoing>, b: seq<Outgoing>)
    ensures BytesOut(a + b) == BytesOut(a) + BytesOut(b)
  {
    if b == [] {
      assert a + b == a && BytesOut(a) + [] == BytesOut(a);
    } else {
      var init, last := b[..|b| - 1], b[|b| - 1].bytes;
      assert (a + b)[..|a + b| - 1] == a + init && (a + b)[|a + b| - 1] == b[|b| - 1];
      BytesOutConcat(a, init);
      BytesOutLast(a + b);
      BytesOutLast(b);
      hide *;
      Regroup(BytesOut(a), BytesOut(init), last);
    }
  }

  /** A stretch of pulses puts nothing but pulses on the line. */
  lemma {:induction false} PulsesOut(env: Env, t: seq<Mark>, rate: U32)
    requires PulsesOnly(env, t, rate)
    ensures AllPulses(BytesOut(SentIn(t)))
  {
    if t != [] {
      var x := if t[0].Sent? then [Outgoing(t[0].rate, t[0].bytes)] else [];
      assert Pulsing(env, t[0], rate) && PulsesOnly(env, t[1..], rate);
      PulsesOut(env, t[1..], rate);
      assert SentIn(t) == x + SentIn(t[1..]);
      BytesOutConcat(x, SentIn(t[1..]));
      assert AllPulses(BytesOut(x)) by {
        if t[0].Sent? { BytesOutLast(x); assert x[..0] == [] && [] + t[0].bytes == t[0].bytes; }
      }
    }
  }

  /** Pulses in front of a stream are not heard as anything. */
  lemma {:induction false} PulsesSilent(a: seq<Byte>, b: seq<Byte>)
    requires AllPulses(a)
    ensures Hears(a + b) == Hears(b)
  {
    if a == [] {
      assert a + b == b;
    } else {
      var s := a + b;
      assert s[0] == 0x7F && s[1..] == a[1..] + b;
      assert First(s) == Act(Dropped(s[0]));
      ScanStep(s);
      PulsesSilent(a[1..], b);
      hide First, Scan;
      assert Scan(s).events[1..] == Scan(s[1..]).events;
    }
  }

  /** So the handshake leaves the flash alone, and what comes after it counts in full. */
  lemma FlashAfterPulses(env: Env, flash: Flash, l: Link, mid: Link, m: Link, rate: U32)
    requires l.tape <= mid.tape <= m.tape && PulsesOnly(env, News(l, mid), rate)
    ensures FlashAfter(flash, l, m) == FlashAfter(flash, mid, m)
    ensures FlashAfter(flash, l, mid) == flash
  {
    PulsesOut(env, News(l, mid), rate);
    NewsChain(l, mid, m);
    FlashAfterIs(flash, l, m);
    FlashAfterIs(flash, mid, m);
    FlashAfterIs(flash, l, mid);
    NothingToObey(flash);
    hide *;
    var a, b := SentIn(News(l, mid)), SentIn(News(mid, m));
    BytesOutConcat(a, b);
    PulsesSilent(BytesOut(a), BytesOut(b));
    PulsesSilent(BytesOut(a), []);
    assert BytesOut(a) + [] == BytesOut(a);
  }

  lemma NothingToObey(flash: Flash)
    ensures ObeyAll(flash, Hears([])) == flash
  {
    assert Scan([]) == Scanned([], []);
  }

  // -------------------------------------------------------------- one session

  function Ending(result: RunResult): Result<(), CommandError> {
    if result.Done? then Ok(()) else Err(RunFailed(result.error))
  }

  /** A whole session: its outcome, the line when the target was found, and the line at the end. */
  datatype Conducted = Conducted(result: Result<(), CommandError>, mid: Link, link: Link)

  /** Wait for the bootloader, plan the job for what it says, run the plan. */
  ghost function Conduct(env: Env, tcDrain: bool, job: Job, o: SessionOptions, waitMs: nat, l: Link): Conducted
    requires Patient(env)
  {
    var s := Shake(env, l, o, waitMs);
    match s.result
    case Err(why) => Conducted(Err(NoTarget(why)), s.link, s.link)
    case Ok(info) =>
      match PlanOf(info, job, o)
      case Err(e) => Conducted(Err(NoPlan(e)), s.link, s.link)
      case Ok(steps) =>
        FreshIsSound(steps);
        var out := RunFrom(env, tcDrain, steps, FRESH, s.link, []);
        Conducted(Ending(out.result), s.link, out.link)
  }

  /** `cmd_session` as written. */
  method PerformSession(wire: Wire, job: Job, o: SessionOptions, waitMs: nat, tcDrain: bool)
      returns (r: Result<(), CommandError>, ghost mid: Link)
    requires Patient(wire.env)
    modifies wire
    ensures Conduct(wire.env, tcDrain, job, o, waitMs, old(wire.State())) == Conducted(r, mid, wire.State())
  {
    hide Patient, PlanOf, RunFrom, Shake, HasWrite, WritesEndBy;
    var target := PerformHandshake(wire, o, waitMs);
    mid := wire.State();
    if target.Err? { return Err(NoTarget(target.error)), mid; }
    var info := target.value;
    var plan := Plan(info, job, o);
    if plan.Err? { return Err(NoPlan(plan.error)), mid; }
    FreshIsSound(plan.value);
    var session := new Session(plan.value);
    var result := RunSession(wire, session, tcDrain);
    r := Ending(result);
  }

  // --------------------------------------------------- what a session is worth

  /** The target a session finds. */
  ghost function TargetOf(env: Env, o: SessionOptions, waitMs: nat, l: Link): Result<TargetInfo, HandshakeError>
    requires Patient(env)
  {
    Shake(env, l, o, waitMs).result
  }

  /** Did the session get as far as running a plan? */
  ghost predicate Runs(env: Env, job: Job, o: SessionOptions, waitMs: nat, l: Link)
    requires Patient(env)
  {
    TargetOf(env, o, waitMs, l).Ok? && PlanOf(TargetOf(env, o, waitMs, l).value, job, o).Ok?
  }

  lemma ConductRuns(env: Env, tcDrain: bool, job: Job, o: SessionOptions, waitMs: nat, l: Link)
    requires Patient(env)
    ensures var c := Conduct(env, tcDrain, job, o, waitMs, l);
            && c.mid == Shake(env, l, o, waitMs).link
            && (if Runs(env, job, o, waitMs, l) then
                  var steps := PlanOf(TargetOf(env, o, waitMs, l).value, job, o).value;
                  Sound(steps, FRESH) &&
                  var out := RunFrom(env, tcDrain, steps, FRESH, c.mid, []);
                  c.link == out.link && c.result == Ending(out.result)
                else c.link == c.mid && c.result.Err? && !c.result.error.RunFailed?)
  {
    hide Patient, PlanOf, RunFrom, Shake, Sound;
    if Runs(env, job, o, waitMs, l) { FreshIsSound(PlanOf(TargetOf(env, o, waitMs, l).value, job, o).value); }
  }

  /** What is known of the line and the target when the handshake is over. */
  lemma MidTells(env: Env, tcDrain: bool, job: Job, o: SessionOptions, waitMs: nat, l: Link)
    requires Patient(env)
    ensures var mid := Conduct(env, tcDrain, job, o, waitMs, l).mid;
            && l.tape <= mid.tape
            && PulsesOnly(env, News(l, mid), o.handshakeBaud) && Cadence(env, News(l, mid))
            && Accounts(BytesGot(News(l, mid)), o.handshakeBaud, waitMs, TargetOf(env, o, waitMs, l))
            && Blames(env, l, mid, TargetOf(env, o, waitMs, l) == Err(WireFailed))
            && (TargetOf(env, o, waitMs, l).Ok? ==>
                  mid.rate == o.handshakeBaud && FromStatus(TargetOf(env, o, waitMs, l).value))
  {
    ConductRuns(env, tcDrain, job, o, waitMs, l);
    ShakeTells(env, l, o, waitMs);
    hide Shake, Conduct, Patient, PulsesOnly, Cadence, BytesGot, Accounts, FromStatus, Blames;
    if TargetOf(env, o, waitMs, l).Ok? {
      HeardFromStatus(Shake(env, l, o, waitMs).heard, o.handshakeBaud, waitMs, TargetOf(env, o, waitMs, l).value);
    }
  }

  lemma HeardFromStatus(heard: seq<Byte>, baud: U32, waitMs: nat, info: TargetInfo)
    requires Accounts(heard, baud, waitMs, Ok(info))
    ensures FromStatus(info)
  {
    var f :| FirstStatus(FramesOf(Scan(heard).events), f) && StatusOf(f, baud) == Ok(info);
    StatusGivesInfo(f, baud);
  }

  /** Did a session end because the line failed? */
  predicate LineFailed(r: Result<(), CommandError>) {
    r == Err(NoTarget(WireFailed)) || (r.Err? && r.error.RunFailed? && Cause(r.error.cause) == Io)
  }

  /** Every session of any job blames the line exactly when an operation on it has failed, the last one and no other. */
  lemma SessionBlames(env: Env, tcDrain: bool, job: Job, o: SessionOptions, waitMs: nat, l: Link)
    requires Patient(env)
    ensures var c := Conduct(env, tcDrain, job, o, waitMs, l); Blames(env, l, c.link, LineFailed(c.result))
  {
    MidTells(env, tcDrain, job, o, waitMs, l);
    ConductRuns(env, tcDrain, job, o, waitMs, l);
    var c := Conduct(env, tcDrain, job, o, waitMs, l);
    if Runs(env, job, o, waitMs, l) {
      var steps := PlanOf(TargetOf(env, o, waitMs, l).value, job, o).value;
      RunErrorsEarned(env, tcDrain, steps, FRESH, c.mid, []);
      hide Conduct, Patient, PlanOf, Shake, RunFrom, Sound, Accounts, PulsesOnly, Cadence, BytesGot, GaveUpOn,
           FromStatus;
      BlamesChain(env, l, c.mid, c.link, LineFailed(c.result));
    } else {
      NoRunNoIo(env, tcDrain, job, o, waitMs, l);
    }
  }

  lemma NoRunNoIo(env: Env, tcDrain: bool, job: Job, o: SessionOptions, waitMs: nat, l: Link)
    requires Patient(env) && !Runs(env, job, o, waitMs, l)
    ensures LineFailed(Conduct(env, tcDrain, job, o, waitMs, l).result) <==>
            TargetOf(env, o, waitMs, l) == Err(WireFailed)
  {
    hide Shake, PlanOf, Patient;
  }

  /** Every session ends with the error of the stage that failed, or well. */
  lemma SessionEndsExactly(env: Env, tcDrain: bool, job: Job, o: SessionOptions, waitMs: nat, l: Link, r: CommandError)
    requires Patient(env)
    ensures var c, target := Conduct(env, tcDrain, job, o, waitMs, l), TargetOf(env, o, waitMs, l);
            c.result == Err(r) <==>
              match r
              case BadHex(_) => false
              case NoTarget(why) => target == Err(why)
              case NoPlan(e) => target.Ok? && PlanOf(target.value, job, o) == Err(e)
              case RunFailed(e) =>
                Runs(env, job, o, waitMs, l) &&
                RunResultOf(env, tcDrain, PlanOf(target.value, job, o).value, c.mid) == Stopped(e)
  {
    ConductRuns(env, tcDrain, job, o, waitMs, l);
    if Runs(env, job, o, waitMs, l) { FreshIsSound(PlanOf(TargetOf(env, o, waitMs, l).value, job, o).value); }
    hide Patient, PlanOf, RunFrom, Shake, Sound;
  }

  /** How the run of a plan from the start ends. */
  ghost function RunResultOf(env: Env, tcDrain: bool, steps: seq<Step>, l: Link): RunResult
    requires Patient(env)
  {
    FreshIsSound(steps);
    RunFrom(env, tcDrain, steps, FRESH, l, []).result
  }

  /** What the end of a programming session says about the flash, given the flash before it. */
  ghost predicate Settled(text: string, job: Job, flash: Flash, after: Flash, r: Result<(), CommandError>)
    requires ParseOf(text).Ok? && job.Program?
  {
    && (r.Ok? ==> HoldsText(after, flash, text))
    && (r.Err? && !r.error.RunFailed? ==> after == flash)
    && (r.Err? && r.error.RunFailed? && !r.error.cause.IndeterminateFlash? ==>
          after == flash || after == Erased(flash, RegionSize(job)) || HoldsText(after, flash, text))
    && exists k :: after == Programmed(flash, Region(job), k)
  }

  /** First only pulses, on the beat; then all reads and all writes but the first two at the transfer rate. */
  ghost predicate Scheduled(env: Env, o: SessionOptions, l: Link, mid: Link, m: Link)
    requires l.tape <= mid.tape <= m.tape
  {
    && PulsesOnly(env, News(l, mid), o.handshakeBaud) && Cadence(env, News(l, mid))
    && HeardOnlyAt(News(mid, m), o.transferBaud)
    && forall i :: 0 <= i < |SentIn(News(mid, m))| ==>
         SentIn(News(mid, m))[i].rate == if i < 2 then o.handshakeBaud else o.transferBaud
  }

  /** There was a plan for what the bootloader said, and every step of it was acknowledged. */
  ghost predicate AllAcked(env: Env, job: Job, o: SessionOptions, waitMs: nat, l: Link, replies: seq<Frame>)
    requires Patient(env) && job.Program?
  {
    Runs(env, job, o, waitMs, l) && Acked(PlanOf(TargetOf(env, o, waitMs, l).value, job, o).value, job, replies)
  }

  /** The run of a planned programming job settles the flash. */
  lemma RunSettles(env: Env, tcDrain: bool, text: string, job: Job, info: TargetInfo, o: SessionOptions, flash: Flash,
                   mid: Link)
    requires Patient(env) && FromStatus(info) && PlanOf(info, job, o).Ok?
    requires ParseOf(text).Ok? && job.Program? && job.image == ParseOf(text).value.bytes
    ensures Sound(PlanOf(info, job, o).value, FRESH)
    ensures var out := RunFrom(env, tcDrain, PlanOf(info, job, o).value, FRESH, mid, []);
            mid.tape <= out.link.tape
            && Settled(text, job, flash, FlashAfter(flash, mid, out.link), Ending(out.result))
  {
    AnyEndIsAPrefix(env, tcDrain, info, job, o, mid, flash);
    DoneMeansProgrammed(env, tcDrain, info, job, o, mid, flash);
    PlainErrorMeansDeterminate(env, tcDrain, info, job, o, mid, flash);
    RegionSizeIs(job);
    hide PlanOf, Patient, RunFrom, FlashAfter, HoldsImage, HoldsText, Programmed, Region, RegionSize, Erased,
         Completed, Sound, FromStatus, ParseOf, EraseBlocksFor;
    var after := FlashAfter(flash, mid, RunFrom(env, tcDrain, PlanOf(info, job, o).value, FRESH, mid, []).link);
    if HoldsImage(after, flash, job.image, 256 * EraseBlocksFor(|job.image|)) {
      ImageIsText(after, flash, text);
    }
  }

  lemma NothingRan(env: Env, o: SessionOptions, job: Job, flash: Flash, l: Link, mid: Link)
    requires l.tape <= mid.tape && PulsesOnly(env, News(l, mid), o.handshakeBaud) && Cadence(env, News(l, mid))
    requires job.Program?
    ensures Scheduled(env, o, l, mid, mid) && Programmed(flash, Region(job), 0) == flash
  {
    hide PulsesOnly, Cadence;
    assert News(mid, mid) == [];
  }

  /** How a programming session leaves the line and what it was told. */
  ghost predicate WellConducted(env: Env, job: Job, o: SessionOptions, waitMs: nat, l: Link, c: Conducted)
    requires Patient(env) && job.Program?
  {
    && l.tape <= c.mid.tape <= c.link.tape
    && Scheduled(env, o, l, c.mid, c.link)
    && (c.result.Ok? ==> AllAcked(env, job, o, waitMs, l, RepliesIn(News(c.mid, c.link))))
  }

  /**
    * The whole of a programming session, in every environment, whatever is on
    * the line and however it ends: success means the text is on the chip and
    * every step acknowledged; an error before the run leaves the chip alone; a
    * plain error leaves it as it was, erased or complete; any end at all leaves
    * an exact programmed prefix; and the rates were those of the protocol.
    */
  lemma SessionIsHonest(env: Env, tcDrain: bool, text: string, writeOptions: bool, o: SessionOptions, waitMs: nat,
                        flash: Flash, l: Link)
    requires Patient(env) && ParseOf(text).Ok?
    ensures var job := Program(ParseOf(text).value.bytes, writeOptions);
            var c := Conduct(env, tcDrain, job, o, waitMs, l);
            && WellConducted(env, job, o, waitMs, l, c)
            && Settled(text, job, flash, FlashAfter(flash, l, c.link), c.result)
  {
    var job := Program(ParseOf(text).value.bytes, writeOptions);
    hide *;
    if Runs(env, job, o, waitMs, l) {
      RunConducted(env, tcDrain, text, job, o, waitMs, flash, l);
    } else {
      NothingConducted(env, tcDrain, text, job, o, waitMs, flash, l);
    }
  }

  lemma RunConducted(env: Env, tcDrain: bool, text: string, job: Job, o: SessionOptions, waitMs: nat, flash: Flash,
                     l: Link)
    requires Patient(env) && ParseOf(text).Ok? && job.Program? && job.image == ParseOf(text).value.bytes
    requires Runs(env, job, o, waitMs, l)
    ensures var c := Conduct(env, tcDrain, job, o, waitMs, l);
            && WellConducted(env, job, o, waitMs, l, c)
            && Settled(text, job, flash, FlashAfter(flash, l, c.link), c.result)
  {
    var c, info := Conduct(env, tcDrain, job, o, waitMs, l), TargetOf(env, o, waitMs, l).value;
    ConductRuns(env, tcDrain, job, o, waitMs, l);
    MidTells(env, tcDrain, job, o, waitMs, l);
    RunsMeans(env, job, o, waitMs, l);
    hide *;
    RunSettles(env, tcDrain, text, job, info, o, flash, c.mid);
    RunScheduled(env, tcDrain, info, job, o, l, c.mid);
    FlashAfterPulses(env, flash, l, c.mid, c.link, o.handshakeBaud);
    RunAcked(env, tcDrain, job, o, waitMs, l, c.mid);
    Conducts(env, job, o, waitMs, l, c);
  }

  lemma RunsMeans(env: Env, job: Job, o: SessionOptions, waitMs: nat, l: Link)
    requires Patient(env) && Runs(env, job, o, waitMs, l)
    ensures TargetOf(env, o, waitMs, l).Ok? && PlanOf(TargetOf(env, o, waitMs, l).value, job, o).Ok?
  {
    hide PlanOf, TargetOf;
  }

  lemma Conducts(env: Env, job: Job, o: SessionOptions, waitMs: nat, l: Link, c: Conducted)
    requires Patient(env) && job.Program? && l.tape <= c.mid.tape <= c.link.tape
    requires Scheduled(env, o, l, c.mid, c.link)
    requires c.result.Ok? ==> AllAcked(env, job, o, waitMs, l, RepliesIn(News(c.mid, c.link)))
    ensures WellConducted(env, job, o, waitMs, l, c)
  {
    hide Scheduled, AllAcked, Patient;
  }

  lemma RunScheduled(env: Env, tcDrain: bool, info: TargetInfo, job: Job, o: SessionOptions, l: Link, mid: Link)
    requires Patient(env) && !job.Identify? && PlanOf(info, job, o).Ok? && mid.rate == o.handshakeBaud
    requires l.tape <= mid.tape && PulsesOnly(env, News(l, mid), o.handshakeBaud) && Cadence(env, News(l, mid))
    ensures Sound(PlanOf(info, job, o).value, FRESH)
    ensures var m := RunFrom(env, tcDrain, PlanOf(info, job, o).value, FRESH, mid, []).link;
            mid.tape <= m.tape && Scheduled(env, o, l, mid, m)
  {
    BaudSchedule(env, tcDrain, info, job, o, mid);
    hide PlanOf, Patient, RunFrom, Sound, SentIn, HeardOnlyAt, PulsesOnly, Cadence;
  }

  lemma RunAcked(env: Env, tcDrain: bool, job: Job, o: SessionOptions, waitMs: nat, l: Link, mid: Link)
    requires Patient(env) && job.Program? && Runs(env, job, o, waitMs, l)
    ensures var steps := PlanOf(TargetOf(env, o, waitMs, l).value, job, o).value;
            Sound(steps, FRESH) &&
            var out := RunFrom(env, tcDrain, steps, FRESH, mid, []);
            Ending(out.result).Ok? ==>
              mid.tape <= out.link.tape && AllAcked(env, job, o, waitMs, l, RepliesIn(News(mid, out.link)))
  {
    DoneMeansAcked(env, tcDrain, TargetOf(env, o, waitMs, l).value, job, o, mid);
    hide PlanOf, Patient, RunFrom, Sound, RepliesIn, TargetOf, Acked;
  }

  lemma NothingConducted(env: Env, tcDrain: bool, text: string, job: Job, o: SessionOptions, waitMs: nat, flash: Flash,
                         l: Link)
    requires Patient(env) && ParseOf(text).Ok? && job.Program? && !Runs(env, job, o, waitMs, l)
    ensures var c := Conduct(env, tcDrain, job, o, waitMs, l);
            && WellConducted(env, job, o, waitMs, l, c)
            && Settled(text, job, flash, FlashAfter(flash, l, c.link), c.result)
  {
    var c := Conduct(env, tcDrain, job, o, waitMs, l);
    ConductRuns(env, tcDrain, job, o, waitMs, l);
    MidTells(env, tcDrain, job, o, waitMs, l);
    hide *;
    NothingRan(env, o, job, flash, l, c.mid);
    FlashAfterPulses(env, flash, l, c.mid, c.mid, o.handshakeBaud);
    SettledUntouched(text, job, flash, c.result);
    Conducts(env, job, o, waitMs, l, c);
  }

  lemma SettledUntouched(text: string, job: Job, flash: Flash, r: Result<(), CommandError>)
    requires ParseOf(text).Ok? && job.Program? && r.Err? && !r.error.RunFailed?
    requires Programmed(flash, Region(job), 0) == flash
    ensures Settled(text, job, flash, flash, r)
  {
    hide ParseOf, Programmed, Region, HoldsText, Erased, RegionSize;
  }

  /** The same for an erase session: success means erased, and any end leaves the chip untouched or erased. */
  lemma EraseSessionIsHonest(env: Env, tcDrain: bool, job: Job, o: SessionOptions, waitMs: nat, flash: Flash, l: Link)
    requires Patient(env) && job.EraseOnly?
    ensures var c := Conduct(env, tcDrain, job, o, waitMs, l);
            && l.tape <= c.link.tape
            && var after := FlashAfter(flash, l, c.link);
               && (c.result.Err? && !c.result.error.RunFailed? ==> after == flash)
               && (c.result.Ok? || c.result.error.RunFailed? ==>
                     Runs(env, job, o, waitMs, l) &&
                     var n := 256 * ErasedBlocks(TargetOf(env, o, waitMs, l).value, job);
                     after == Erased(flash, n) || (c.result.Err? && after == flash))
  {
    var c := Conduct(env, tcDrain, job, o, waitMs, l);
    ConductRuns(env, tcDrain, job, o, waitMs, l);
    MidTells(env, tcDrain, job, o, waitMs, l);
    hide PlanOf, Patient, Accounts, PulsesOnly, Cadence, BytesGot, FlashAfter, Erased, ErasedBlocks, Blames,
         Conduct, Shake, RunFrom, FromStatus, News, Sound;
    FlashAfterPulses(env, flash, l, c.mid, c.mid, o.handshakeBaud);
    if Runs(env, job, o, waitMs, l) {
      EraseRun(env, tcDrain, TargetOf(env, o, waitMs, l).value, job, o, c.mid, flash);
      FlashAfterPulses(env, flash, l, c.mid, c.link, o.handshakeBaud);
    }
  }

  /** And an identify session leaves the flash as it was, however it ends. */
  lemma IdentifySessionIsHarmless(env: Env, tcDrain: bool, o: SessionOptions, waitMs: nat, flash: Flash, l: Link)
    requires Patient(env)
    ensures var c := Conduct(env, tcDrain, Identify, o, waitMs, l);
            l.tape <= c.link.tape && FlashAfter(flash, l, c.link) == flash
  {
    var c := Conduct(env, tcDrain, Identify, o, waitMs, l);
    ConductRuns(env, tcDrain, Identify, o, waitMs, l);
    MidTells(env, tcDrain, Identify, o, waitMs, l);
    hide PlanOf, Patient, Accounts, PulsesOnly, Cadence, BytesGot, FlashAfter, Blames,
         Conduct, Shake, RunFrom, FromStatus, News, Sound;
    FlashAfterPulses(env, flash, l, c.mid, c.mid, o.handshakeBaud);
    if Runs(env, Identify, o, waitMs, l) {
      IdentifyRun(env, tcDrain, TargetOf(env, o, waitMs, l).value, o, c.mid, flash);
      FlashAfterPulses(env, flash, l, c.mid, c.link, o.handshakeBaud);
    }
  }

  // ------------------------------------------------------ sessions that succeed

  /**
    * An environment in which `job` must succeed: a status packet arrives within
    * the wait, there is a plan for what it says, and from then on no write or
    * rate change fails and every step of that plan is answered in time; packet
    * and answers behind any noise that hides no frame.
    */
  ghost predicate GoodWire(env: Env, tcDrain: bool, job: Job, o: SessionOptions, waitMs: nat, l: Link, n: nat,
                           noise: seq<Byte>, status: Frame, tail: seq<Byte>, script: seq<Answer>)
    requires Patient(env)
  {
    && PacketArrives(env, l, o, waitMs, n, noise, status, tail)
    && StatusOf(status, o.handshakeBaud).Ok?
    && PlanOf(StatusOf(status, o.handshakeBaud).value, job, o).Ok?
    && Plays(env, tcDrain, PlanOf(StatusOf(status, o.handshakeBaud).value, job, o).value, 0,
             Shake(env, l, o, waitMs).link, [], script)
  }

  /** Every session of any job in such an environment ends well. */
  lemma GoodWireSucceeds(env: Env, tcDrain: bool, job: Job, o: SessionOptions, waitMs: nat, l: Link, n: nat,
                         noise: seq<Byte>, status: Frame, tail: seq<Byte>, script: seq<Answer>)
    requires Patient(env) && GoodWire(env, tcDrain, job, o, waitMs, l, n, noise, status, tail, script)
    ensures Conduct(env, tcDrain, job, o, waitMs, l).result == Ok(())
  {
    var info := StatusOf(status, o.handshakeBaud).value;
    HandshakeSucceeds(env, l, o, waitMs, n, noise, status, tail);
    NoiseTolerantRun(env, tcDrain, PlanOf(info, job, o).value, Shake(env, l, o, waitMs).link, script);
    ConductRuns(env, tcDrain, job, o, waitMs, l);
    hide StatusOf, PlanOf, Shake, PacketArrives, Plays, RunFrom, Patient, Conduct, Sound, SentIn, PlannedSends, News;
  }

  ghost predicate Favourable(env: Env, tcDrain: bool, job: Job, o: SessionOptions, waitMs: nat, l: Link)
    requires Patient(env)
  {
    exists n, noise, status, tail, script :: GoodWire(env, tcDrain, job, o, waitMs, l, n, noise, status, tail, script)
  }

  lemma FavourableSucceeds(env: Env, tcDrain: bool, job: Job, o: SessionOptions, waitMs: nat, l: Link)
    requires Patient(env) && Favourable(env, tcDrain, job, o, waitMs, l)
    ensures Conduct(env, tcDrain, job, o, waitMs, l).result == Ok(())
  {
    hide Patient, GoodWire, Conduct;
    var n, noise, status, tail, script :| GoodWire(env, tcDrain, job, o, waitMs, l, n, noise, status, tail, script);
    GoodWireSucceeds(env, tcDrain, job, o, waitMs, l, n, noise, status, tail, script);
  }

  // --------------------------------------------------------- the write command

  /** `write`: read the image, then a session that programs it. */
  method WriteCommand(wire: Wire, text: string, writeOptions: bool, o: SessionOptions, waitMs: nat, tcDrain: bool,
                      ghost flash: Flash)
      returns (r: Result<(), CommandError>, ghost mid: Link)
    requires Patient(wire.env)
    modifies wire
    ensures ParseOf(text).Err? ==> r == Err(BadHex(ParseOf(text).error)) && wire.State() == old(wire.State())
    ensures ParseOf(text).Ok? ==>
              var job, l := Program(ParseOf(text).value.bytes, writeOptions), old(wire.State());
              var c := Conducted(r, mid, wire.State());
              && c == Conduct(wire.env, tcDrain, job, o, waitMs, l)
              && WellConducted(wire.env, job, o, waitMs, l, c)
              && Settled(text, job, flash, FlashAfter(flash, l, wire.State()), r)
              && Blames(wire.env, l, wire.State(), LineFailed(r))
              && (Favourable(wire.env, tcDrain, job, o, waitMs, l) ==> r == Ok(()))
  {
    hide ParseOf, PlanOf, Patient, Settled, Conduct, WellConducted, FlashAfter, Favourable, Blames;
    var image := Parse(text);
    mid := wire.State();
    if image.Err? { return Err(BadHex(image.error)), mid; }
    ghost var l, job := wire.State(), Program(image.value.bytes, writeOptions);
    SessionIsHonest(wire.env, tcDrain, text, writeOptions, o, waitMs, flash, l);
    SessionBlames(wire.env, tcDrain, job, o, waitMs, l);
    if Favourable(wire.env, tcDrain, job, o, waitMs, l) {
      FavourableSucceeds(wire.env, tcDrain, job, o, waitMs, l);
    }
    r, mid := PerformSession(wire, Program(image.value.bytes, writeOptions), o, waitMs, tcDrain);
  }
}
