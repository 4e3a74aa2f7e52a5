/**
  * From hex text to flash: what the chip holds after any run of a programming
  * session, however the run ends, and what the report of that end is worth.
  */
module EndToEnd {
  import opened Bytes
  import opened FrameCodec
  import opened StreamScan
  import opened StreamTheorems
  import opened SessionMachine
  import opened Stc89
  import opened PlanTheorems
  import opened ChipFlash
  import opened WireModel
  import opened Driver
  import opened RunTheorems
  import opened NoiseTheorems
  import opened PlannedRuns
  import opened IntelHex
  import opened HexTheorems

  /** All bytes written, in order. */
  function BytesOut(sent: seq<Outgoing>): seq<Byte> {
    if sent == [] then [] else BytesOut(sent[..|sent| - 1]) + sent[|sent| - 1].bytes
  }

  /** The frames a chip hears in a stream of bytes: those its receiver emits. */
  function Hears(bytes: seq<Byte>): seq<Frame> { FramesOf(Scan(bytes).events) }

  // --------------------------------------------------- bytes back into frames

  /** A frame cut short is not heard. */
  lemma CutFrameSilent(f: Frame, part: seq<Byte>)
    requires |f.payload| <= 1018 && part < Encode(f)
    ensures Scan(part) == Scanned([], part)
  {
    var t := Encode(f)[|part|..];
    assert part + t == Encode(f);
    FrameIsPlausible(f, Encode(f));
    assert t != [] && Plausible(part + t);
    WaitsIffOpen(part);
  }

  lemma HearsWhole(fs: seq<Frame>, part: seq<Byte>)
    requires Short(fs)
    ensures Hears(WireOf(fs) + part) == fs + FramesOf(Scan(part).events)
  {
    StreamRoundTrip(fs, part);
    EmitsFrames(fs);
    FramesConcat(Emits(fs), Scan(part).events);
  }

  /** Whole frames and a piece of one more are heard as the whole frames. */
  lemma HearsCut(fs: seq<Frame>, n: nat, part: seq<Byte>)
    requires Short(fs) && n <= |fs|
    requires if n < |fs| then part < Encode(fs[n]) else part == []
    ensures Hears(WireOf(fs[..n]) + part) == fs[..n]
  {
    HearsWhole(fs[..n], part);
    if n < |fs| { CutFrameSilent(fs[n], part); }
    hide Hears, Encode, WireOf, First;
    assert Scan(part).events == [] by { if n == |fs| { assert First([]).Wait?; } }
    hide Scan;
    assert fs[..n] + [] == fs[..n];
  }

  /** Whole frames and all of one more are heard as all of them. */
  lemma HearsNext(fs: seq<Frame>, n: nat)
    requires Short(fs) && n < |fs|
    ensures Hears(WireOf(fs[..n]) + Encode(fs[n])) == fs[..n + 1]
  {
    hide Hears, Encode, WireOf, Scan, FramesOf;
    HearsWhole(fs[..n], Encode(fs[n]));
    HearsOne(fs[n]);
    hide *;
    assert fs[..n + 1] == fs[..n] + [fs[n]];
  }

  lemma WireOfOne(f: Frame)
    ensures WireOf([f]) == Encode(f)
  {
    assert [f][1..] == [];
    assert Encode(f) + [] == Encode(f);
  }

  lemma HearsOne(f: Frame)
    requires |f.payload| <= 1018
    ensures FramesOf(Scan(Encode(f)).events) == [f]
  {
    HearsWhole([f], []);
    WireOfOne(f);
    assert Encode(f) + [] == Encode(f);
    assert Scan([]).events == [];
    assert [f] + [] == [f];
  }

  lemma {:induction false} WholeFramesOut(steps: seq<Step>, rate: U32, done: nat, sent: seq<Outgoing>)
    requires SendsPlan(steps, 0, rate, done, sent)
    ensures BytesOut(sent[..done]) == WireOf(FramesIn(steps)[..done])
    decreases done
  {
    var fs := FramesIn(steps);
    if done == 0 {
      assert sent[..0] == [] && fs[..0] == [];
    } else {
      assert SentWhole(steps, 0, rate, done - 1, sent[done - 1]);
      hide Encode, SendRate, RateAt;
      assert SendsPlan(steps, 0, rate, done - 1, sent[..done]);
      WholeFramesOut(steps, rate, done - 1, sent[..done]);
      assert sent[..done][..done - 1] == sent[..done - 1];
      assert fs[..done] == fs[..done - 1] + [fs[done - 1]];
      WireConcat(fs[..done - 1], [fs[done - 1]]);
      WireOfOne(fs[done - 1]);
    }
  }

  lemma BytesOutLast(sent: seq<Outgoing>)
    requires sent != []
    ensures BytesOut(sent) == BytesOut(sent[..|sent| - 1]) + sent[|sent| - 1].bytes
  {
  }

  /** The piece of a frame a run ends with. */
  function LastPiece(done: nat, sent: seq<Outgoing>): seq<Byte> {
    if done < |sent| then sent[done].bytes else []
  }

  /** All bytes of a run: the frames it got through, then part of one more. */
  lemma BytesOfRun(steps: seq<Step>, rate: U32, done: nat, sent: seq<Outgoing>)
    requires SendsPlan(steps, 0, rate, done, sent)
    ensures BytesOut(sent) == WireOf(FramesIn(steps)[..done]) + LastPiece(done, sent)
  {
    WholeFramesOut(steps, rate, done, sent);
    var whole := WireOf(FramesIn(steps)[..done]);
    assert done <= |sent| <= done + 1;
    hide *;
    if |sent| == done {
      assert sent[..done] == sent;
      assert whole + [] == whole;
      assert LastPiece(done, sent) == [] by { LastPieceIs(done, sent); }
    } else {
      BytesOutLast(sent);
      assert LastPiece(done, sent) == sent[done].bytes by { LastPieceIs(done, sent); }
    }
  }

  lemma LastPieceIs(done: nat, sent: seq<Outgoing>)
    ensures LastPiece(done, sent) == if done < |sent| then sent[done].bytes else []
  {
  }

  /** How many steps a chip hears of such a run. */
  function StepsHeard(steps: seq<Step>, done: nat, sent: seq<Outgoing>): nat {
    if done < |sent| && done < |steps| && sent[done].bytes == Encode(steps[done].frame) then done + 1 else done
  }

  /** What a chip hears of a run: every step the run got through, and perhaps the one it stopped in. */
  lemma RunHeard(steps: seq<Step>, rate: U32, done: nat, sent: seq<Outgoing>)
    requires SendsPlan(steps, 0, rate, done, sent) && Short(FramesIn(steps))
    ensures StepsHeard(steps, done, sent) <= |steps|
    ensures Hears(BytesOut(sent)) == FramesIn(steps)[..StepsHeard(steps, done, sent)]
  {
    var fs := FramesIn(steps);
    BytesOfRun(steps, rate, done, sent);
    hide Encode, SendRate, RateAt, Hears, WireOf, BytesOut, SentWhole;
    if StepsHeard(steps, done, sent) == done + 1 {
      HearsNext(fs, done);
    } else {
      HearsCut(fs, done, LastPiece(done, sent));
    }
  }

  // -------------------------------------------------------- any end of any run

  /** The information a planned session relies on comes from a status packet. */
  predicate FromStatus(info: TargetInfo) { |info.chipId| == CHIP_ID_LEN && |info.optionBytes| == 1 }

  lemma StatusGivesInfo(f: Frame, baud: U32)
    requires StatusOf(f, baud).Ok?
    ensures FromStatus(StatusOf(f, baud).value)
  {
  }

  lemma PlanIsShort(info: TargetInfo, job: Job, o: SessionOptions)
    requires PlanOf(info, job, o).Ok? && FromStatus(info)
    ensures Short(FramesIn(PlanOf(info, job, o).value))
  {
    forall i | 0 <= i < |PlanOf(info, job, o).value|
      ensures |FramesIn(PlanOf(info, job, o).value)[i].payload| <= 1018
    {
      PlannedFramesAreShort(info, job, o, i);
    }
  }

  /** The flash after everything the driver wrote has been heard and obeyed. */
  ghost function FlashAfter(flash: Flash, l: Link, m: Link): Flash
    requires l.tape <= m.tape
  {
    ObeyAll(flash, Hears(BytesOut(SentIn(News(l, m)))))
  }

  /** The flash after a run is the programmed prefix of the steps heard. */
  lemma FlashAfterRun(info: TargetInfo, job: Job, o: SessionOptions, rate: U32, done: nat, sent: seq<Outgoing>,
                      flash: Flash)
    requires job.Program? && PlanOf(info, job, o).Ok? && FromStatus(info)
    requires SendsPlan(PlanOf(info, job, o).value, 0, rate, done, sent)
    ensures var k := StepsHeard(PlanOf(info, job, o).value, done, sent);
            && k <= |PlanOf(info, job, o).value|
            && ObeyAll(flash, Hears(BytesOut(sent))) == Programmed(flash, Region(job), k)
  {
    PlanIsShort(info, job, o);
    hide *;
    var steps := PlanOf(info, job, o).value;
    RunHeard(steps, rate, done, sent);
    PlanPrograms(flash, info, job, o, StepsHeard(steps, done, sent));
  }

  /**
    * However a programming run ends, in whatever environment, and even if the
    * last write was cut short: the chip has obeyed exactly the steps the run
    * got through, and perhaps the one it stopped in. So no cell outside the
    * region is ever touched and no cell is ever written twice.
    */
  lemma AnyEndIsAPrefix(env: Env, tcDrain: bool, info: TargetInfo, job: Job, o: SessionOptions, l: Link, flash: Flash)
    requires Patient(env) && job.Program? && PlanOf(info, job, o).Ok? && FromStatus(info)
    ensures Sound(PlanOf(info, job, o).value, FRESH)
    ensures var steps := PlanOf(info, job, o).value;
            var out := RunFrom(env, tcDrain, steps, FRESH, l, []);
            && l.tape <= out.link.tape && 0 <= Completed(steps, out) <= |steps|
            && exists k :: Completed(steps, out) <= k <= Completed(steps, out) + 1 && k <= |steps|
                 && FlashAfter(flash, l, out.link) == Programmed(flash, Region(job), k)
  {
    var steps := PlanOf(info, job, o).value;
    FreshRun(env, tcDrain, steps, l);
    hide *;
    var out := RunFrom(env, tcDrain, steps, FRESH, l, []);
    var done, sent := Completed(steps, out), SentIn(News(l, out.link));
    FlashAfterRun(info, job, o, l.rate, done, sent, flash);
    StepsHeardIs(steps, done, sent);
    FlashAfterIs(flash, l, out.link);
  }

  /** What a run from the start writes. */
  lemma FreshRun(env: Env, tcDrain: bool, steps: seq<Step>, l: Link)
    requires Patient(env)
    ensures Sound(steps, FRESH)
    ensures var out := RunFrom(env, tcDrain, steps, FRESH, l, []);
            && l.tape <= out.link.tape && 0 <= Completed(steps, out) <= |steps|
            && SendsPlan(steps, 0, l.rate, Completed(steps, out), SentIn(News(l, out.link)))
  {
    FreshIsSound(steps);
    assert FRESH.at == 0 && !FRESH.awaiting;
    hide *;
    RunFromStart(env, tcDrain, steps, FRESH, l);
  }

  lemma RunFromStart(env: Env, tcDrain: bool, steps: seq<Step>, p: Progress, l: Link)
    requires Patient(env) && Sound(steps, p) && !p.awaiting && p.at == 0
    ensures var out := RunFrom(env, tcDrain, steps, p, l, []);
            && l.tape <= out.link.tape && 0 <= Completed(steps, out) <= |steps|
            && SendsPlan(steps, 0, l.rate, Completed(steps, out), SentIn(News(l, out.link)))
  {
    hide *;
    RunSendsPlan(env, tcDrain, steps, p, l, []);
  }

  lemma StepsHeardIs(steps: seq<Step>, done: nat, sent: seq<Outgoing>)
    ensures done <= StepsHeard(steps, done, sent) <= done + 1
  {
  }

  lemma FlashAfterIs(flash: Flash, l: Link, m: Link)
    requires l.tape <= m.tape
    ensures FlashAfter(flash, l, m) == ObeyAll(flash, Hears(BytesOut(SentIn(News(l, m)))))
  {
    hide ObeyAll, Hears, BytesOut, SentIn, News;
  }

  /** The erased region of a job. */
  function RegionSize(job: Job): nat
    requires job.Program?
  {
    256 * EraseBlocksFor(|job.image|)
  }

  /** From the last write on, the flash holds the whole image. */
  lemma ProgrammedWhole(flash: Flash, job: Job, k: nat)
    requires job.Program? && k >= 7 + WriteCount(job)
    ensures HoldsImage(Programmed(flash, Region(job), k), flash, job.image, RegionSize(job))
  {
    EraseGeometry(|job.image|);
    hide EraseBlocksFor;
  }

  /** Up to the erase, the flash is what it was, or erased. */
  lemma ProgrammedNotYet(flash: Flash, data: seq<Byte>, k: nat)
    requires k <= 7
    ensures Programmed(flash, data, k) == flash || Programmed(flash, data, k) == Erased(flash, |data|)
  {
  }

  /**
    * A run that ends well has put the image on the chip.
    */
  lemma DoneMeansProgrammed(env: Env, tcDrain: bool, info: TargetInfo, job: Job, o: SessionOptions, l: Link,
                            flash: Flash)
    requires Patient(env) && job.Program? && PlanOf(info, job, o).Ok? && FromStatus(info)
    ensures Sound(PlanOf(info, job, o).value, FRESH)
    ensures var out := RunFrom(env, tcDrain, PlanOf(info, job, o).value, FRESH, l, []);
            out.result == Done ==>
              && l.tape <= out.link.tape
              && HoldsImage(FlashAfter(flash, l, out.link), flash, job.image, RegionSize(job))
  {
    AnyEndIsAPrefix(env, tcDrain, info, job, o, l, flash);
    PlanLength(info, job, o);
    var steps := PlanOf(info, job, o).value;
    hide PlanOf, Patient, RunFrom, Programmed, Region, RegionSize, FlashAfter, HoldsImage, Grammar, WriteCount,
         TimerReload, Sound;
    var out := RunFrom(env, tcDrain, steps, FRESH, l, []);
    if out.result == Done {
      ProgrammedWhole(flash, job, |steps|);
    }
  }

  /**
    * Whatever the noise before the replies, their cutting into reads and their
    * timing: if every step of a programming plan is answered in time, the image
    * ends up on the chip.
    */
  lemma NoisyRunPrograms(env: Env, tcDrain: bool, info: TargetInfo, job: Job, o: SessionOptions, l: Link,
                         script: seq<Answer>, flash: Flash)
    requires Patient(env) && job.Program? && PlanOf(info, job, o).Ok? && FromStatus(info)
    requires Plays(env, tcDrain, PlanOf(info, job, o).value, 0, l, [], script)
    ensures Sound(PlanOf(info, job, o).value, FRESH)
    ensures var out := RunFrom(env, tcDrain, PlanOf(info, job, o).value, FRESH, l, []);
            && out.result == Done && l.tape <= out.link.tape
            && HoldsImage(FlashAfter(flash, l, out.link), flash, job.image, RegionSize(job))
  {
    hide *;
    NoiseTolerantRun(env, tcDrain, PlanOf(info, job, o).value, l, script);
    DoneMeansProgrammed(env, tcDrain, info, job, o, l, flash);
  }

  /**
    * The report is honest: a run that stops without calling the flash
    * indeterminate has either written no block at all, so that the chip is as
    * it was or erased, or has had every block acknowledged, so that the chip
    * holds the whole image.
    */
  lemma PlainErrorMeansDeterminate(env: Env, tcDrain: bool, info: TargetInfo, job: Job, o: SessionOptions, l: Link,
                                   flash: Flash)
    requires Patient(env) && job.Program? && PlanOf(info, job, o).Ok? && FromStatus(info)
    ensures Sound(PlanOf(info, job, o).value, FRESH)
    ensures var out := RunFrom(env, tcDrain, PlanOf(info, job, o).value, FRESH, l, []);
            out.result.Stopped? && !out.result.error.IndeterminateFlash? ==>
              && l.tape <= out.link.tape
              && var after := FlashAfter(flash, l, out.link);
                 || after == flash
                 || after == Erased(flash, RegionSize(job))
                 || HoldsImage(after, flash, job.image, RegionSize(job))
  {
    var steps := PlanOf(info, job, o).value;
    AnyEndIsAPrefix(env, tcDrain, info, job, o, l, flash);
    var out := RunFrom(env, tcDrain, steps, FRESH, l, []);
    RunErrorExact(env, tcDrain, steps, FRESH, l, []);
    StoppedAwaiting(env, tcDrain, info, job, o, FRESH, l, []);
    IndeterminateWindow(info, job, o, out.progress);
    WritesToProgram(job);
    hide PlanOf, Patient, RunFrom, Programmed, Region, RegionSize, FlashAfter, HoldsImage, WriteCount, Sound, Erased;
    if out.result.Stopped? && !out.result.error.IndeterminateFlash? {
      var k :| Completed(steps, out) <= k <= Completed(steps, out) + 1 && k <= |steps|
               && FlashAfter(flash, l, out.link) == Programmed(flash, Region(job), k);
      if out.progress.Handed() <= 7 {
        ProgrammedNotYet(flash, Region(job), k);
        RegionLength(job);
      } else {
        ProgrammedWhole(flash, job, k);
      }
    }
  }

  /**
    * However an erase run ends: the chip is as it was, or exactly the planned
    * blocks are erased; and they are when the run ends well.
    */
  lemma EraseRun(env: Env, tcDrain: bool, info: TargetInfo, job: Job, o: SessionOptions, l: Link, flash: Flash)
    requires Patient(env) && job.EraseOnly? && PlanOf(info, job, o).Ok? && FromStatus(info)
    ensures Sound(PlanOf(info, job, o).value, FRESH)
    ensures var out := RunFrom(env, tcDrain, PlanOf(info, job, o).value, FRESH, l, []);
            && l.tape <= out.link.tape
            && var after := FlashAfter(flash, l, out.link);
               var erased := Erased(flash, 256 * ErasedBlocks(info, job));
               (after == flash || after == erased) && (out.result == Done ==> after == erased)
  {
    var steps := PlanOf(info, job, o).value;
    FreshRun(env, tcDrain, steps, l);
    PlanIsShort(info, job, o);
    PlanLength(info, job, o);
    assert |steps| >= 8;
    var out := RunFrom(env, tcDrain, steps, FRESH, l, []);
    assert out.result == Done ==> Completed(steps, out) == |steps|;
    hide *;
    var done, sent := Completed(steps, out), SentIn(News(l, out.link));
    RunHeard(steps, l.rate, done, sent);
    StepsHeardIs(steps, done, sent);
    FlashAfterIs(flash, l, out.link);
    PlanErases(flash, info, job, o, StepsHeard(steps, done, sent));
  }

  /** However an identify run ends, the chip is as it was. */
  lemma IdentifyRun(env: Env, tcDrain: bool, info: TargetInfo, o: SessionOptions, l: Link, flash: Flash)
    requires Patient(env)
    ensures PlanOf(info, Identify, o).Ok? && Sound(PlanOf(info, Identify, o).value, FRESH)
    ensures var out := RunFrom(env, tcDrain, PlanOf(info, Identify, o).value, FRESH, l, []);
            l.tape <= out.link.tape && FlashAfter(flash, l, out.link) == flash
  {
    IdentifyPlan(info, o);
    var steps := PlanOf(info, Identify, o).value;
    FreshRun(env, tcDrain, steps, l);
    assert FramesIn(steps) == [Frame(HostToMcu, 0x82, [])];
    ObeyRun(flash);
    hide *;
    var out := RunFrom(env, tcDrain, steps, FRESH, l, []);
    var done, sent := Completed(steps, out), SentIn(News(l, out.link));
    OneShort(Frame(HostToMcu, 0x82, []));
    RunHeard(steps, l.rate, done, sent);
    FlashAfterIs(flash, l, out.link);
    var n := StepsHeard(steps, done, sent);
    assert FramesIn(steps)[..n] == if n == 0 then [] else [Frame(HostToMcu, 0x82, [])];
  }

  lemma OneShort(f: Frame)
    requires |f.payload| <= 1018
    ensures Short([f])
  {
  }

  lemma ObeyRun(flash: Flash)
    ensures ObeyAll(flash, []) == flash && ObeyAll(flash, [Frame(HostToMcu, 0x82, [])]) == flash
  {
    assert [Frame(HostToMcu, 0x82, [])][..0] == [];
  }

  lemma RegionLength(job: Job)
    requires job.Program?
    ensures |Region(job)| == RegionSize(job)
  {
  }

  lemma WritesToProgram(job: Job)
    requires job.Program?
    ensures WriteCount(job) > 0 <==> job.image != []
  {
    EraseGeometry(|job.image|);
  }

  /** A stopped run of a plan is waiting for a reply, or stopped in the unanswered last step. */
  lemma {:induction false} StoppedAwaiting(env: Env, tcDrain: bool, info: TargetInfo, job: Job, o: SessionOptions,
                                           p: Progress, l: Link, buf: seq<Byte>)
    requires Patient(env) && PlanOf(info, job, o).Ok? && Sound(PlanOf(info, job, o).value, p) && !p.awaiting
    ensures var steps := PlanOf(info, job, o).value;
            var out := RunFrom(env, tcDrain, steps, p, l, buf);
            out.result.Stopped? ==> out.progress.awaiting || out.progress.at == |steps|
    decreases |PlanOf(info, job, o).value| - p.at
  {
    var steps := PlanOf(info, job, o).value;
    hide PlanOf, Patient, StepFrom, HasWrite, WritesEndBy;
    if p.at < |steps| {
      HaltedHere(env, tcDrain, steps, p, l, buf);
      OnlyRunUnanswered(info, job, o, p.at);
      var e := StepFrom(env, tcDrain, steps, p, l, buf);
      if e.Onward? { StoppedAwaiting(env, tcDrain, info, job, o, e.progress, e.link, e.buf); }
    }
  }

  // ------------------------------------------------------------- hex to flash

  /**
    * The flash holds, at every address of the image of `text`, what the last
    * hex record covering that address says, or 0; then 0xFF to the end of the
    * erased region; then what it held before.
    */
  ghost predicate HoldsText(flash: Flash, was: Flash, text: string)
    requires ParseOf(text).Ok?
  {
    var image := ParseOf(text).value.bytes;
    && HoldsImage(flash, was, image, 256 * EraseBlocksFor(|image|))
    && forall a :: 0 <= a < |image| && a < |flash| ==>
         flash[a].Held? && LastWins(DataAbove(Lines(text), FileEnd(Lines(text), 0)), a, flash[a].b)
  }

  lemma ImageIsText(flash: Flash, was: Flash, text: string)
    requires ParseOf(text).Ok?
    requires var image := ParseOf(text).value.bytes;
             HoldsImage(flash, was, image, 256 * EraseBlocksFor(|image|))
    ensures HoldsText(flash, was, text)
  {
    AcceptedFile(text);
    ImageMeaning(DataAbove(Lines(text), FileEnd(Lines(text), 0)));
    hide ParseOf, ImageOf, DataAbove, FileEnd, Lines, LastWins, EraseBlocksFor;
  }

  /**
    * For every hex text that parses, every status packet, and every plan for
    * it: encoding the planned frames, hearing them from the bytes and obeying
    * them puts the text on the chip and leaves everything else alone.
    */
  lemma HexToFlash(text: string, status: Frame, writeOptions: bool, o: SessionOptions, flash: Flash)
    requires ParseOf(text).Ok? && StatusOf(status, o.handshakeBaud).Ok?
    requires PlanOf(StatusOf(status, o.handshakeBaud).value, Program(ParseOf(text).value.bytes, writeOptions), o).Ok?
    ensures var job := Program(ParseOf(text).value.bytes, writeOptions);
            var steps := PlanOf(StatusOf(status, o.handshakeBaud).value, job, o).value;
            HoldsText(ObeyAll(flash, Hears(WireOf(FramesIn(steps)))), flash, text)
  {
    StatusGivesInfo(status, o.handshakeBaud);
    hide *;
    var info, image := StatusOf(status, o.handshakeBaud).value, ParseOf(text).value.bytes;
    var job := Program(image, writeOptions);
    var fs := FramesIn(PlanOf(info, job, o).value);
    PlanIsShort(info, job, o);
    WholePlanPrograms(flash, info, job, o);
    HearsCut(fs, |fs|, []);
    assert fs[..|fs|] == fs && WireOf(fs) + [] == WireOf(fs);
    ImageIsText(ObeyAll(flash, Hears(WireOf(fs))), flash, text);
  }

  /** And so does every run of such a plan that ends well, in whatever environment. */
  lemma HexRunToFlash(env: Env, tcDrain: bool, text: string, status: Frame, writeOptions: bool, o: SessionOptions,
                      l: Link, flash: Flash)
    requires Patient(env) && ParseOf(text).Ok? && StatusOf(status, o.handshakeBaud).Ok?
    requires PlanOf(StatusOf(status, o.handshakeBaud).value, Program(ParseOf(text).value.bytes, writeOptions), o).Ok?
    ensures var job := Program(ParseOf(text).value.bytes, writeOptions);
            var steps := PlanOf(StatusOf(status, o.handshakeBaud).value, job, o).value;
            && Sound(steps, FRESH)
            && var out := RunFrom(env, tcDrain, steps, FRESH, l, []);
               out.result == Done ==>
                 l.tape <= out.link.tape && HoldsText(FlashAfter(flash, l, out.link), flash, text)
  {
    StatusGivesInfo(status, o.handshakeBaud);
    RegionSizeIs(Program(ParseOf(text).value.bytes, writeOptions));
    hide *;
    var job := Program(ParseOf(text).value.bytes, writeOptions);
    var info := StatusOf(status, o.handshakeBaud).value;
    DoneMeansProgrammed(env, tcDrain, info, job, o, l, flash);
    var out := RunFrom(env, tcDrain, PlanOf(info, job, o).value, FRESH, l, []);
    if out.result == Done { ImageIsText(FlashAfter(flash, l, out.link), flash, text); }
  }

  lemma RegionSizeIs(job: Job)
    requires job.Program?
    ensures RegionSize(job) == 256 * EraseBlocksFor(|job.image|)
  {
  }
}
