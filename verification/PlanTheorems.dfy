/**
  * What the planner's arithmetic and its plans satisfy, over every status
  * packet, job and set of options.
  */
module PlanTheorems {
  import opened Bytes
  import opened FrameCodec
  import opened SessionMachine
  import opened Stc89

  // ------------------------------------------------------------ timer rounding

  lemma DivExactly(x: nat, d: nat, q: int)
    requires d > 0
    ensures x / d == q <==> q * d <= x < (q + 1) * d
  {
    assert x == d * (x / d) + x % d;
    MulOrder(q, x / d, d);
    MulOrder(x / d, q, d);
  }

  lemma MulOrder(a: int, b: int, d: nat)
    ensures a < b ==> d * a + d <= d * b
  {
    if a < b {
      var k: nat := b - a - 1;
      assert d * k >= 0;
      assert d * k == d * b - d * a - d;
    }
  }

  lemma HalfTickBelow(b1: nat, b2: nat, t: nat)
    requires b1 <= b2 && t >= 1
    ensures 32 * b1 * t - 16 * b1 <= 32 * b2 * t - 16 * b2
  {
    assert (b2 - b1) * (2 * t - 1) >= 0;
  }

  /** The number of timer ticks a reload stands for. */
  function Ticks(reload: Byte): nat { 256 - reload }

  /** `ticks` is `hz / (32 * baud)` to the nearest, ties upward. */
  predicate Nearest(hz: nat, baud: nat, ticks: int) {
    -16 * baud <= hz - 32 * baud * ticks < 16 * baud
  }

  /** The quotient as it is computed. */
  function Rounded(hz: U64, baud: U32): int
    requires baud > 0
  {
    (hz + baud * 32 / 2) % 0x1_0000_0000_0000_0000 / (baud * 32)
  }

  lemma RoundedIs(hz: U64, baud: U32)
    requires baud > 0
    ensures TimerReload(hz, baud) ==
            if 1 <= 256 - Rounded(hz, baud) <= 255 then Ok(256 - Rounded(hz, baud))
            else Err(UnreachableBaud(baud, 256 - Rounded(hz, baud)))
  {
  }

  lemma RoundedNotNegative(hz: U64, baud: U32)
    requires baud > 0
    ensures Rounded(hz, baud) >= 0
  {
    var d, x, q := baud * 32, (hz + baud * 32 / 2) % 0x1_0000_0000_0000_0000, Rounded(hz, baud);
    DivExactly(x, d, q);
    if q < 0 { MulOrder(q, 0, d); }
  }

  lemma TicksExactly(hz: U64, baud: U32, t: int)
    requires baud > 0 && hz + 16 * baud < 0x1_0000_0000_0000_0000
    ensures Rounded(hz, baud) == t <==> Nearest(hz, baud, t)
  {
    var d, x := baud * 32, hz + baud * 16;
    assert d / 2 == baud * 16;
    assert x % 0x1_0000_0000_0000_0000 == x;
    DivExactly(x, d, t);
    assert t * d == 32 * baud * t && (t + 1) * d == 32 * baud * t + d;
  }

  lemma WrappedTicks(hz: U64, baud: U32)
    requires baud > 0 && hz + 16 * baud >= 0x1_0000_0000_0000_0000
    ensures Rounded(hz, baud) == 0
  {
    var d, x := baud * 32, (hz + baud * 16) % 0x1_0000_0000_0000_0000;
    assert d / 2 == baud * 16;
    assert x == hz + baud * 16 - 0x1_0000_0000_0000_0000;
    DivExactly(x, d, 0);
  }

  /**
    * Rounding, exactly: the reload is the nearest tick count, and it exists iff
    * that count is 1..255; even where the rounding sum wraps around.
    */
  lemma ReloadExactly(hz: U64, baud: U32, reload: Byte)
    ensures TimerReload(hz, baud) == Ok(reload) <==>
            baud > 0 && 1 <= reload && Nearest(hz, baud, Ticks(reload))
  {
    if baud > 0 {
      RoundedIs(hz, baud);
      if hz + 16 * baud < 0x1_0000_0000_0000_0000 {
        TicksExactly(hz, baud, Ticks(reload));
      } else {
        WrappedTicks(hz, baud);
        if 1 <= reload { FarTooFast(hz, baud, Ticks(reload)); }
      }
      hide TimerReload, Nearest, Rounded;
    }
  }

  /** Where the sum wraps the frequency is far beyond any reload. */
  lemma FarTooFast(hz: U64, baud: U32, t: nat)
    requires hz + 16 * baud >= 0x1_0000_0000_0000_0000 && t <= 255
    ensures !Nearest(hz, baud, t)
  {
    assert baud * t <= baud * 255;
    assert 32 * baud * t == 32 * (baud * t);
  }

  /** When there is no reload at all. */
  lemma UnreachableExactly(hz: U64, baud: U32)
    ensures TimerReload(hz, baud).Err? <==>
            baud == 0 || forall ticks :: 1 <= ticks <= 255 ==> !Nearest(hz, baud, ticks)
  {
    if TimerReload(hz, baud).Ok? {
      var r := TimerReload(hz, baud).value;
      ReloadExactly(hz, baud, r);
      assert Nearest(hz, baud, Ticks(r));
    } else {
      forall ticks | 1 <= ticks <= 255 && baud > 0 ensures !Nearest(hz, baud, ticks) {
        ReloadExactly(hz, baud, 256 - ticks);
      }
    }
  }

  /** What an unreachable baud is reported with: the reload that would have been needed, out of range as it is. */
  lemma UnreachableReports(hz: U64, baud: U32, e: ProtocolError)
    ensures TimerReload(hz, baud) == Err(e) <==>
              && e.UnreachableBaud? && e.baud == baud
              && if baud == 0 then e.reload == 0
                 else if hz + 16 * baud >= 0x1_0000_0000_0000_0000 then e.reload == 256
                 else e.reload <= 256 && !(1 <= e.reload <= 255) && Nearest(hz, baud, 256 - e.reload)
  {
    if baud > 0 {
      RoundedIs(hz, baud);
      RoundedNotNegative(hz, baud);
      if hz + 16 * baud >= 0x1_0000_0000_0000_0000 {
        WrappedTicks(hz, baud);
      } else {
        TicksExactly(hz, baud, Rounded(hz, baud));
        if e.UnreachableBaud? { TicksExactly(hz, baud, 256 - e.reload); }
      }
      hide TimerReload, Nearest, Rounded;
    }
  }

  lemma NearestAntitone(hz1: nat, hz2: nat, baud: nat, t1: nat, t2: nat)
    requires hz1 <= hz2 && Nearest(hz1, baud, t1) && Nearest(hz2, baud, t2)
    ensures t1 <= t2
  {
    MulOrder(t2, t1, 32 * baud);
  }

  lemma NearestMonotone(hz: nat, baud1: nat, baud2: nat, t1: nat, t2: nat)
    requires baud1 <= baud2 && Nearest(hz, baud1, t1) && Nearest(hz, baud2, t2)
    ensures t2 <= t1
  {
    MulOrder(t1, t2, 32 * baud1);
    if t2 >= 1 { HalfTickBelow(baud1, baud2, t2); }
  }

  /** A faster clock needs more ticks: the reload is antitone in the frequency. */
  lemma ReloadAntitone(hz1: U64, hz2: U64, baud: U32)
    requires hz1 <= hz2
    ensures var a, b := TimerReload(hz1, baud), TimerReload(hz2, baud);
            a.Ok? && b.Ok? ==> b.value <= a.value
  {
    hide TimerReload, Nearest;
    var a, b := TimerReload(hz1, baud), TimerReload(hz2, baud);
    if a.Ok? && b.Ok? {
      ReloadExactly(hz1, baud, a.value);
      ReloadExactly(hz2, baud, b.value);
      NearestAntitone(hz1, hz2, baud, Ticks(a.value), Ticks(b.value));
    }
  }

  /** A faster line needs fewer ticks: the reload is monotone in the baud rate. */
  lemma ReloadMonotone(hz: U64, baud1: U32, baud2: U32)
    requires baud1 <= baud2
    ensures var a, b := TimerReload(hz, baud1), TimerReload(hz, baud2);
            a.Ok? && b.Ok? ==> a.value <= b.value
  {
    hide TimerReload, Nearest;
    var a, b := TimerReload(hz, baud1), TimerReload(hz, baud2);
    if a.Ok? && b.Ok? {
      ReloadExactly(hz, baud1, a.value);
      ReloadExactly(hz, baud2, b.value);
      NearestMonotone(hz, baud1, baud2, Ticks(a.value), Ticks(b.value));
    }
  }

  /** Two bytes read as a signed 16-bit number. */
  function Signed16(b: seq<Byte>): int
    requires |b| == 2
  {
    var v := Be16(b[0], b[1]);
    if v < 0x8000 then v else v - 0x1_0000
  }

  lemma ReloadFieldIsNegativeTicks(reload: Byte)
    ensures |ReloadField(reload)| == 2 && Signed16(ReloadField(reload)) == -(Ticks(reload) as int)
  {
  }

  // ------------------------------------------------------------ erase geometry

  /** The erased region is the image rounded up to 512 bytes, in an even number of blocks. */
  lemma EraseGeometry(len: nat)
    ensures var n := EraseBlocksFor(len);
            && n % 2 == 0
            && len <= 256 * n < len + 512
            && (n > 0xFF <==> len > 65024) && (n == 0 <==> len == 0)
  {
  }

  /** A region that rounds up stays inside any capacity that is itself a multiple of 512. */
  lemma RegionFits(len: nat, capacity: nat)
    requires len <= capacity && capacity % 512 == 0
    ensures 256 * EraseBlocksFor(len) <= capacity
  {
  }

  // -------------------------------------------------------------- when it plans

  predicate Reachable(info: TargetInfo, o: SessionOptions) {
    TimerReload(info.measuredHz, o.transferBaud).Ok?
  }

  predicate Fits(info: TargetInfo, len: nat) {
    info.codeFlash.Some? ==> len <= info.codeFlash.value
  }

  /**
    * A programming plan exists exactly for a reachable baud and a non-empty
    * image that fits the chip and the erase frame.
    */
  lemma ProgramPlansExactly(info: TargetInfo, image: seq<Byte>, w: bool, o: SessionOptions)
    ensures PlanOf(info, Program(image, w), o).Ok? <==>
            Reachable(info, o) && image != [] && Fits(info, |image|) && |image| <= 65024
    ensures (exists n :: PlanOf(info, Program(image, w), o) == Err(EraseTooLarge(n))) <==>
            Reachable(info, o) && Fits(info, |image|) && |image| > 65024
  {
    hide TimerReload, Opening, Programming, EraseBlocksFor;
    EraseGeometry(|image|);
    if Reachable(info, o) && Fits(info, |image|) && |image| > 65024 {
      assert PlanOf(info, Program(image, w), o) == Err(EraseTooLarge(EraseBlocksFor(|image|)));
    }
    if exists n :: PlanOf(info, Program(image, w), o) == Err(EraseTooLarge(n)) {
      UnreachableIsNotTooLarge(info, o);
    }
  }

  lemma UnreachableIsNotTooLarge(info: TargetInfo, o: SessionOptions)
    ensures TimerReload(info.measuredHz, o.transferBaud).Err? ==>
            TimerReload(info.measuredHz, o.transferBaud).error.UnreachableBaud?
  {
  }

  /**
    * An erase-only plan: an explicit count is only required to be non-zero; the
    * whole chip must be known and fit the frame.
    */
  lemma EraseOnlyPlansExactly(info: TargetInfo, n: Option<Byte>, o: SessionOptions)
    ensures PlanOf(info, EraseOnly(n), o).Ok? <==>
            && Reachable(info, o)
            && match n
               case Some(blocks) => blocks != 0
               case None => info.codeFlash.Some? && 256 <= info.codeFlash.value < 256 * 0x100
  {
    hide TimerReload, Opening, Programming;
  }

  /** `e` is the first reason why there is no plan for work. */
  ghost predicate NoPlanFor(info: TargetInfo, job: Job, o: SessionOptions, e: ProtocolError) {
    !job.Identify? &&
    if !Reachable(info, o) then e == TimerReload(info.measuredHz, o.transferBaud).error
    else
      match e
      case EmptyImage => job.Program? && job.image == []
      case ImageTooLarge(n, cap) =>
        job.Program? && n == |job.image| && info.codeFlash == Some(cap) && n > cap
      case UnknownChipSize(id) => job == EraseOnly(None) && info.codeFlash.None? && id == info.chipId
      case EraseTooLarge(n) =>
        if job.Program? then Fits(info, |job.image|) && |job.image| > 65024 && n % 2 == 0
                             && |job.image| <= 256 * n < |job.image| + 512
        else if job.blocks.Some? then job.blocks.value == 0 == n
        else info.codeFlash.Some? && 256 * n <= info.codeFlash.value < 256 * (n + 1) && (n == 0 || n > 0xFF)
      case _ => false
  }

  /** A job without a plan is refused for the first reason. */
  lemma PlanRefusedExactly(info: TargetInfo, job: Job, o: SessionOptions, e: ProtocolError)
    ensures PlanOf(info, job, o) == Err(e) <==> NoPlanFor(info, job, o, e)
  {
    hide TimerReload, Opening, Programming;
    if job.Program? {
      EraseGeometry(|job.image|);
      if e.EraseTooLarge? { SameGeometry(|job.image|, e.blocks); }
    }
    hide EraseBlocksFor;
  }

  /** The geometry fixes the number of blocks. */
  lemma SameGeometry(len: nat, n: nat)
    ensures n == EraseBlocksFor(len) <==> n % 2 == 0 && len <= 256 * n < len + 512
  {
  }

  /** So a count beyond the chip's capacity is planned all the same: 255 blocks on an 8 KiB part. */
  lemma ExplicitCountUnchecked(info: TargetInfo, o: SessionOptions)
    requires Reachable(info, o) && info.codeFlash == Some(8 * 1024)
    ensures PlanOf(info, EraseOnly(Some(255)), o).Ok? && 255 * 256 > info.codeFlash.value
  {
    EraseOnlyPlansExactly(info, Some(255), o);
  }

  /**
    * The erase reply is checked for direction, command and length and nothing
    * else; the chip id it carries is not looked at.
    */
  lemma EraseReplyExactly(blocks: Byte, o: SessionOptions, reply: Frame)
    ensures Objection(EraseStep(blocks, o), reply).None? <==>
            reply.dir == McuToHost && reply.cmd == 0x80 && |reply.payload| == 7
    ensures Objection(EraseStep(blocks, o), Frame(McuToHost, 0x80, [0, 0, 0, 0, 0, 0, 0])).None?
  {
    AcceptsExactly(EraseStep(blocks, o), reply);
  }

  // ------------------------------------------------------------ what it plans

  /** Number of write steps of a plan for `job`. */
  function WriteCount(job: Job): nat {
    if job.Program? then 2 * EraseBlocksFor(|job.image|) else 0
  }

  function OptionsCount(job: Job): nat { if job.Program? && job.writeOptions then 1 else 0 }

  /** The padded image, as long as the erased region. */
  function Region(job: Job): seq<Byte>
    requires job.Program?
  {
    Padded(job.image, 256 * EraseBlocksFor(|job.image|))
  }

  function Block(job: Job, i: nat): seq<Byte>
    requires job.Program? && i < WriteCount(job)
  {
    Region(job)[128 * i..128 * (i + 1)]
  }

  /** The number of blocks a plan erases: what the image needs, what was asked for, or the whole chip. */
  function ErasedBlocks(info: TargetInfo, job: Job): nat {
    match job
    case Identify => 0
    case EraseOnly(Some(n)) => n
    case EraseOnly(None) => if info.codeFlash.Some? then info.codeFlash.value / 256 else 0
    case Program(image, _) => EraseBlocksFor(|image|)
  }

  /** Exactly which step stands where in a plan for work. */
  predicate Grammar(info: TargetInfo, job: Job, o: SessionOptions, steps: seq<Step>, reload: Byte, blocks: Byte) {
    var w := WriteCount(job);
    && 1 <= blocks
    && |steps| == 8 + w + OptionsCount(job)
    && blocks == ErasedBlocks(info, job)
    && steps[0] == ProbeStep(reload, o)
    && steps[1] == CommitStep(reload, o)
    && (forall i :: 2 <= i < 6 ==> steps[i] == LinkStep(info, o))
    && steps[6] == EraseStep(blocks, o)
    && w <= 510
    && (job.Program? ==>
          forall i :: 7 <= i < 7 + w ==> steps[i] == WriteStep(128 * (i - 7), Block(job, i - 7), o))
    && (OptionsCount(job) == 1 ==> steps[7 + w] == OptionsStep(info, o))
    && steps[|steps| - 1] == RunStep(o)
  }

  lemma OpeningAt(info: TargetInfo, reload: Byte, o: SessionOptions)
    ensures var head := Opening(info, reload, o);
            && |head| == 6
            && head[0] == ProbeStep(reload, o) && head[1] == CommitStep(reload, o)
            && forall i :: 2 <= i < 6 ==> head[i] == LinkStep(info, o)
  {
    hide ProbeStep, CommitStep, LinkStep;
  }

  lemma ProgrammingAt(info: TargetInfo, job: Job, blocks: Byte, o: SessionOptions)
    requires job.Program? ==> blocks == EraseBlocksFor(|job.image|)
    ensures var p, w := Programming(info, job, blocks, o), WriteCount(job);
            && |p| == w + OptionsCount(job)
            && (job.Program? ==>
                  forall i :: 0 <= i < w ==> p[i] == WriteStep(128 * i, Block(job, i), o))
            && (OptionsCount(job) == 1 ==> p[w] == OptionsStep(info, o))
  {
    hide OptionsStep, WriteStep, EraseBlocksFor, Padded;
  }

  lemma PlanHasGrammar(info: TargetInfo, job: Job, o: SessionOptions)
    requires !job.Identify? && PlanOf(info, job, o).Ok?
    ensures exists reload: Byte, blocks: Byte ::
              && TimerReload(info.measuredHz, o.transferBaud) == Ok(reload)
              && Grammar(info, job, o, PlanOf(info, job, o).value, reload, blocks)
  {
    var reload := TimerReload(info.measuredHz, o.transferBaud).value;
    var blocks := BlocksFor(info, job).value;
    var steps, p := PlanOf(info, job, o).value, Programming(info, job, blocks, o);
    var opening, erase, last := Opening(info, reload, o), EraseStep(blocks, o), RunStep(o);
    assert steps == opening + [erase] + p + [last];
    assert 1 <= blocks && blocks == ErasedBlocks(info, job);
    hide *;
    OpeningAt(info, reload, o);
    ProgrammingAt(info, job, blocks, o);
    Assembled(opening, erase, p, last);
    GrammarOfParts(info, job, o, steps, reload, blocks);
  }

  /** Where the parts of a plan end up. */
  lemma Assembled(opening: seq<Step>, erase: Step, middle: seq<Step>, last: Step)
    ensures var s := opening + [erase] + middle + [last];
            var n := |opening|;
            && |s| == n + 2 + |middle|
            && s[..n] == opening && s[n] == erase && s[n + 1..|s| - 1] == middle && s[|s| - 1] == last
  {
  }

  lemma GrammarOfParts(info: TargetInfo, job: Job, o: SessionOptions, steps: seq<Step>, reload: Byte, blocks: Byte)
    requires 1 <= blocks && blocks == ErasedBlocks(info, job) && |steps| >= 8
    requires steps[..6] == Opening(info, reload, o) && steps[6] == EraseStep(blocks, o)
    requires steps[7..|steps| - 1] == Programming(info, job, blocks, o) && steps[|steps| - 1] == RunStep(o)
    ensures Grammar(info, job, o, steps, reload, blocks)
  {
    OpeningAt(info, reload, o);
    ProgrammingAt(info, job, blocks, o);
    hide Opening, Programming, ProbeStep, CommitStep, LinkStep, EraseStep, WriteStep, OptionsStep, RunStep,
         EraseBlocksFor, Block;
    var opening, middle := steps[..6], steps[7..|steps| - 1];
    assert forall i :: 0 <= i < 6 ==> steps[i] == opening[i];
    assert forall i :: 0 <= i < |middle| ==> steps[7 + i] == middle[i];
  }

  /** A step as an observer of the wire would describe it. */
  predicate Looks(step: Step, phase: Phase, cmd: Byte, payload: seq<Byte>, wants: Expect, timeoutMs: nat,
                  before: Option<U32>, after: Option<U32>, addr: Option<U32>) {
    step == Step(phase, Frame(HostToMcu, cmd, payload), wants, timeoutMs, before, after, addr)
  }

  /** Write step number `k`: address in four bytes, length in two, the data, and its sum as the ack. */
  predicate WriteLooks(step: Step, k: nat, data: seq<Byte>, timeoutMs: nat)
    requires k < 0x200
  {
    Looks(step, Write, 0x00, [0, 0, k / 2, 128 * (k % 2), 0, 128] + data, BlockAck(Total(data) % 256), timeoutMs,
          None, None, Some(128 * k))
  }

  /** The plan for work, in terms of the inputs: command, payload, expected answer and timeout of every step. */
  predicate Table(info: TargetInfo, job: Job, o: SessionOptions, steps: seq<Step>, reload: Byte) {
    var w, t := WriteCount(job), o.replyTimeoutMs;
    && |steps| == 8 + w + OptionsCount(job)
    && Looks(steps[0], BaudProbe, 0x8F, [0xFF, reload, 0x00, 0x06, 0xA0, 0x81], Echo, t,
             None, Some(o.transferBaud), None)
    && Looks(steps[1], BaudCommit, 0x8E, [0xFF, reload, 0x00, 0x06, 0xA0], Echo, t,
             Some(o.handshakeBaud), Some(o.transferBaud), None)
    && (forall i :: 2 <= i < 6 ==>
          Looks(steps[i], LinkTest, 0x80, [0x00, 0x00, 0x36, 0x01] + info.chipId, Ack(0x80, []), t,
                None, None, None))
    && 1 <= ErasedBlocks(info, job) <= 0xFF
    && Looks(steps[6], Erase, 0x84, [ErasedBlocks(info, job), 0x33, 0x33, 0x33, 0x33, 0x33, 0x33],
             AckLen(0x80, 7), o.eraseTimeoutMs, None, None, None)
    && w <= 510
    && (job.Program? ==> forall i :: 7 <= i < 7 + w ==>
          WriteLooks(steps[i], i - 7, Block(job, i - 7), t))
    && (OptionsCount(job) == 1 ==>
          Looks(steps[7 + w], Phase.Options, 0x8D, info.optionBytes + [0xFF, 0xFF, 0xFF], Echo, t,
                None, None, None))
    && Looks(steps[|steps| - 1], Run, 0x82, [], Nothing, t, None, None, None)
  }

  /** Every plan for work is spelled out by that table, with the reload the measured clock gives. */
  lemma PlanTable(info: TargetInfo, job: Job, o: SessionOptions)
    requires !job.Identify? && PlanOf(info, job, o).Ok?
    ensures exists reload: Byte ::
              && TimerReload(info.measuredHz, o.transferBaud) == Ok(reload)
              && Table(info, job, o, PlanOf(info, job, o).value, reload)
  {
    hide *;
    PlanHasGrammar(info, job, o);
    var steps := PlanOf(info, job, o).value;
    var reload: Byte, blocks: Byte :|
      TimerReload(info.measuredHz, o.transferBaud) == Ok(reload) && Grammar(info, job, o, steps, reload, blocks);
    TableOfGrammar(info, job, o, steps, reload, blocks);
  }

  /** And the plan of an identify job is the run frame alone. */
  lemma IdentifyPlan(info: TargetInfo, o: SessionOptions)
    ensures PlanOf(info, Identify, o).Ok? && |PlanOf(info, Identify, o).value| == 1
    ensures Looks(PlanOf(info, Identify, o).value[0], Run, 0x82, [], Nothing, o.replyTimeoutMs, None, None, None)
  {
  }

  lemma TableOfGrammar(info: TargetInfo, job: Job, o: SessionOptions, steps: seq<Step>, reload: Byte, blocks: Byte)
    requires !job.Identify? && Grammar(info, job, o, steps, reload, blocks)
    ensures Table(info, job, o, steps, reload)
  {
    hide ErasedBlocks, Block, WriteCount, OptionsCount, ProbeStep, CommitStep, LinkStep, EraseStep, WriteStep,
         OptionsStep, RunStep, Looks, WriteLooks;
    StepsLook(info, o, reload, blocks);
    if job.Program? {
      forall i | 7 <= i < 7 + WriteCount(job)
        ensures WriteLooks(steps[i], i - 7, Block(job, i - 7), o.replyTimeoutMs)
      {
        BlockLength(job, i - 7);
        WritesLook(i - 7, Block(job, i - 7), o);
      }
    }
  }

  lemma BlockLength(job: Job, k: nat)
    requires job.Program? && k < WriteCount(job)
    ensures |Block(job, k)| == 128
  {
  }

  /** The address of block `k` in big-endian bytes. */
  lemma BlockAddress(k: nat)
    requires k < 0x200
    ensures Be32Bytes(128 * k) == [0, 0, k / 2, 128 * (k % 2)]
  {
    assert 128 * k == 256 * (k / 2) + 128 * (k % 2);
    assert Be16Bytes(128 * k) == [k / 2, 128 * (k % 2)];
    assert Be16Bytes(0) == [0, 0];
  }

  lemma WritesLook(k: nat, data: seq<Byte>, o: SessionOptions)
    requires k < 0x200 && |data| == 128
    ensures WriteLooks(WriteStep(128 * k, data, o), k, data, o.replyTimeoutMs)
  {
    SumIsTotal(data);
    BlockAddress(k);
    assert Be16Bytes(128) == [0, 128];
    hide Be32Bytes, Be16Bytes, Sum8, Total;
    var head: seq<Byte> := [0, 0, k / 2, 128 * (k % 2)];
    assert head + [0, 128] + data == [0, 0, k / 2, 128 * (k % 2), 0, 128] + data;
  }

  /** Every kind of step but the writes, spelled out. */
  lemma StepsLook(info: TargetInfo, o: SessionOptions, reload: Byte, blocks: Byte)
    ensures var t := o.replyTimeoutMs;
            && Looks(ProbeStep(reload, o), BaudProbe, 0x8F, [0xFF, reload, 0x00, 0x06, 0xA0, 0x81], Echo, t,
             None, Some(o.transferBaud), None)
            && Looks(CommitStep(reload, o), BaudCommit, 0x8E, [0xFF, reload, 0x00, 0x06, 0xA0], Echo, t,
             Some(o.handshakeBaud), Some(o.transferBaud), None)
            && Looks(LinkStep(info, o), LinkTest, 0x80, [0x00, 0x00, 0x36, 0x01] + info.chipId, Ack(0x80, []), t,
                None, None, None)
            && Looks(EraseStep(blocks, o), Erase, 0x84, [blocks, 0x33, 0x33, 0x33, 0x33, 0x33, 0x33],
                     AckLen(0x80, 7), o.eraseTimeoutMs, None, None, None)
            && Looks(OptionsStep(info, o), Phase.Options, 0x8D, info.optionBytes + [0xFF, 0xFF, 0xFF], Echo, t,
                None, None, None)
            && Looks(RunStep(o), Run, 0x82, [], Nothing, t, None, None, None)
  {
    ReloadBytes(reload);
    hide ReloadField;
  }

  /** A reload is 0xFF and itself on the wire. */
  lemma ReloadBytes(reload: Byte)
    ensures ReloadField(reload) == [0xFF, reload]
  {
  }

  lemma PlanLength(info: TargetInfo, job: Job, o: SessionOptions)
    requires !job.Identify? && PlanOf(info, job, o).Ok?
    ensures |PlanOf(info, job, o).value| == 8 + WriteCount(job) + OptionsCount(job)
  {
    hide *;
    PlanHasGrammar(info, job, o);
    var steps := PlanOf(info, job, o).value;
    var reload: Byte, blocks: Byte :| Grammar(info, job, o, steps, reload, blocks);
    GrammarLength(info, job, o, steps, reload, blocks);
  }

  lemma GrammarLength(info: TargetInfo, job: Job, o: SessionOptions, steps: seq<Step>, reload: Byte, blocks: Byte)
    requires Grammar(info, job, o, steps, reload, blocks)
    ensures |steps| == 8 + WriteCount(job) + OptionsCount(job)
  {
  }

  /** Only the run frame goes unanswered, and it is the last. */
  lemma OnlyRunUnanswered(info: TargetInfo, job: Job, o: SessionOptions, i: nat)
    requires PlanOf(info, job, o).Ok? && i < |PlanOf(info, job, o).value|
    ensures var steps := PlanOf(info, job, o).value;
            steps[i].wants == Nothing <==> i == |steps| - 1
  {
    if !job.Identify? {
      PlanHasGrammar(info, job, o);
      hide PlanOf, TimerReload, Block, Region, EraseBlocksFor;
    }
  }

  /** Exactly the steps from 7 on, as many as there are chunks, are writes. */
  lemma WritesAreInTheMiddle(info: TargetInfo, job: Job, o: SessionOptions, i: nat)
    requires !job.Identify? && PlanOf(info, job, o).Ok? && i < |PlanOf(info, job, o).value|
    ensures PlanOf(info, job, o).value[i].phase == Write <==> 7 <= i < 7 + WriteCount(job)
  {
    PlanHasGrammar(info, job, o);
    hide PlanOf, TimerReload, Block, Region, EraseBlocksFor;
  }

  /** Every frame of a plan is short enough for the receiver. */
  lemma PlannedFramesAreShort(info: TargetInfo, job: Job, o: SessionOptions, i: nat)
    requires PlanOf(info, job, o).Ok? && i < |PlanOf(info, job, o).value|
    requires |info.chipId| == CHIP_ID_LEN && |info.optionBytes| == 1
    ensures |PlanOf(info, job, o).value[i].frame.payload| <= 134
  {
    if !job.Identify? {
      hide PlanOf, TimerReload, Table;
      PlanTable(info, job, o);
      var steps := PlanOf(info, job, o).value;
      var reload: Byte :| Table(info, job, o, steps, reload);
      TableIsShort(info, job, o, steps, reload, i);
    }
  }

  lemma TableIsShort(info: TargetInfo, job: Job, o: SessionOptions, steps: seq<Step>, reload: Byte, i: nat)
    requires Table(info, job, o, steps, reload) && i < |steps|
    requires |info.chipId| == 2 && |info.optionBytes| == 1
    ensures |steps[i].frame.payload| <= 134
  {
    hide Block, ErasedBlocks, EraseBlocksFor, Total;
    if 7 <= i < 7 + WriteCount(job) { BlockLength(job, i - 7); }
  }

  // ----------------------------------------------- what a plan may depend on

  /** Agreement on the first 21 payload bytes: everything the planner is allowed to see. */
  predicate SameFront(f: Frame, g: Frame) {
    && f.dir == g.dir && f.cmd == g.cmd
    && |f.payload| >= STATUS_PAYLOAD_LEN && |g.payload| >= STATUS_PAYLOAD_LEN
    && f.payload[..21] == g.payload[..21]
  }

  /** The opaque region of the status packet reaches nothing but the verbatim copy. */
  lemma OpaqueRegionIgnored(f: Frame, g: Frame, baud: U32)
    requires SameFront(f, g)
    ensures match StatusOf(f, baud)
            case Ok(info) => StatusOf(g, baud) == Ok(info.(rawStatus := g.payload))
            case Err(e) => StatusOf(g, baud) == Err(e)
  {
    var p, q := f.payload, g.payload;
    assert forall i :: 0 <= i < 21 ==> p[i] == p[..21][i] == q[..21][i] == q[i];
    assert FreqWords(p) == FreqWords(q);
    assert p[OFF_CHIP_ID..OFF_CHIP_ID + CHIP_ID_LEN] == q[OFF_CHIP_ID..OFF_CHIP_ID + CHIP_ID_LEN];
  }

  /** So two such packets give identical plans for every job and every options. */
  lemma OpaqueRegionNeverPlanned(f: Frame, g: Frame, baud: U32, job: Job, o: SessionOptions)
    requires SameFront(f, g) && StatusOf(f, baud).Ok?
    ensures StatusOf(g, baud).Ok? && PlanOf(StatusOf(g, baud).value, job, o) == PlanOf(StatusOf(f, baud).value, job, o)
  {
    OpaqueRegionIgnored(f, g, baud);
    var info := StatusOf(f, baud).value;
    hide StatusOf;
    PlanIgnoresRaw(info, g.payload, job, o);
  }

  lemma PlanIgnoresRaw(info: TargetInfo, raw: seq<Byte>, job: Job, o: SessionOptions)
    ensures PlanOf(info.(rawStatus := raw), job, o) == PlanOf(info, job, o)
  {
    var other := info.(rawStatus := raw);
    if !job.Identify? {
      assert BlocksFor(other, job) == BlocksFor(info, job);
      hide TimerReload, BlocksFor, ProbeStep, CommitStep, EraseStep, WriteStep, Writes, EraseBlocksFor;
      forall reload: Byte ensures Opening(other, reload, o) == Opening(info, reload, o) {}
    }
  }

  lemma OptionsFramesEcho(info: TargetInfo, job: Job, o: SessionOptions, i: nat)
    requires PlanOf(info, job, o).Ok? && i < |PlanOf(info, job, o).value|
    ensures var step := PlanOf(info, job, o).value[i];
            step.frame.cmd == 0x8D ==> step.frame.payload == info.optionBytes + OPTIONS_TAIL
  {
    if !job.Identify? {
      hide PlanOf, TimerReload, Grammar, OPTIONS_TAIL;
      PlanHasGrammar(info, job, o);
      var steps := PlanOf(info, job, o).value;
      var reload: Byte, blocks: Byte :| Grammar(info, job, o, steps, reload, blocks);
      GrammarOptions(info, job, o, steps, reload, blocks, i);
    }
  }

  lemma GrammarOptions(info: TargetInfo, job: Job, o: SessionOptions, steps: seq<Step>, reload: Byte, blocks: Byte,
                       i: nat)
    requires Grammar(info, job, o, steps, reload, blocks) && i < |steps|
    ensures steps[i].frame.cmd == 0x8D ==> steps[i].frame.payload == info.optionBytes + OPTIONS_TAIL
  {
    hide ReloadField, Be16Bytes, Be32Bytes, Block, Sum8, ErasedBlocks, EraseBlocksFor, OPTIONS_TAIL;
  }

  /** The only option byte ever planned is the one the status packet carried. */
  lemma OptionByteIsAnEcho(f: Frame, baud: U32, job: Job, o: SessionOptions, i: nat)
    requires StatusOf(f, baud).Ok?
    requires PlanOf(StatusOf(f, baud).value, job, o).Ok?
    requires i < |PlanOf(StatusOf(f, baud).value, job, o).value|
    ensures var step := PlanOf(StatusOf(f, baud).value, job, o).value[i];
            step.frame.cmd == 0x8D ==> step.frame.payload == [f.payload[18], 0xFF, 0xFF, 0xFF]
  {
    var info := StatusOf(f, baud).value;
    assert info.optionBytes == [f.payload[18]];
    hide StatusOf, PlanOf;
    OptionsFramesEcho(info, job, o, i);
  }

  // --------------------------------------------------------- the status packet

  /** The eight words at the front of a status payload agree. */
  predicate WordsAgree(p: seq<Byte>)
    requires |p| >= 16
  {
    forall i :: 0 <= i < 8 ==> Be16(p[2 * i], p[2 * i + 1]) == Be16(p[0], p[1])
  }

  lemma WordsExactly(p: seq<Byte>)
    requires |p| >= 16
    ensures |FreqWords(p)| == 8 && forall i :: 0 <= i < 8 ==> FreqWords(p)[i] == Be16(p[2 * i], p[2 * i + 1])
    ensures WordsAgree(p) <==> forall i :: 0 <= i < 8 ==> FreqWords(p)[i] == FreqWords(p)[0]
  {
    var w := FreqWords(p);
    assert |w| == 8 && forall i :: 0 <= i < 8 ==> w[i] == Be16(p[2 * i], p[2 * i + 1]);
    hide FreqWords, Be16;
    assert w[0] == Be16(p[0], p[1]);
    if WordsAgree(p) {
      forall i | 0 <= i < 8 ensures w[i] == w[0] { assert w[i] == Be16(p[2 * i], p[2 * i + 1]); }
    } else {
      var i :| 0 <= i < 8 && Be16(p[2 * i], p[2 * i + 1]) != Be16(p[0], p[1]);
      assert w[i] != w[0];
    }
  }

  /** The clock a status payload reports at `baud`: word times baud times 12 over 7, rounded down. */
  predicate Reports(p: seq<Byte>, baud: U32, hz: nat)
    requires |p| >= 2
  {
    7 * hz <= Be16(p[0], p[1]) * baud * 12 < 7 * (hz + 1)
  }

  lemma ReportsExactly(p: seq<Byte>, baud: U32, hz: nat)
    requires |p| >= 2
    ensures Reports(p, baud, hz) <==> hz == FrequencyHz(Be16(p[0], p[1]), baud)
  {
  }

  /** A frame is accepted exactly when it is a status packet, long enough, and reports a sane clock eight times. */
  lemma StatusAcceptedExactly(f: Frame, baud: U32)
    ensures StatusOf(f, baud).Ok? <==>
              && f.dir == McuToHost && f.cmd == 0x00 && |f.payload| >= 52 && WordsAgree(f.payload)
              && exists hz :: Reports(f.payload, baud, hz) && 1_000_000 <= hz <= 48_000_000
  {
    var p := f.payload;
    if |p| >= 52 {
      WordsExactly(p);
      ReportsExactly(p, baud, FrequencyHz(Be16(p[0], p[1]), baud));
      forall hz | Reports(p, baud, hz) ensures hz == FrequencyHz(Be16(p[0], p[1]), baud) {
        ReportsExactly(p, baud, hz);
      }
      hide FrequencyHz, FreqWords, Reports, WordsAgree, InfoOf;
      assert FreqWords(p)[0] == Be16(p[0], p[1]);
    }
  }

  /** `e` names the first thing wrong with `f` as a status packet. */
  ghost predicate StatusFlaw(f: Frame, baud: U32, e: ProtocolError) {
    var p := f.payload;
    var ours := f.dir == McuToHost && f.cmd == 0x00;
    match e
    case NotAStatusFrame(cmd) => !ours && cmd == f.cmd
    case ShortStatus(got, want) => ours && got == |p| < 52 == want
    case InconsistentFrequency(words) =>
      && ours && |p| >= 52 && !WordsAgree(p)
      && |words| == 8 && forall i :: 0 <= i < 8 ==> words[i] == Be16(p[2 * i], p[2 * i + 1])
    case ImplausibleFrequency(hz) =>
      ours && |p| >= 52 && WordsAgree(p) && Reports(p, baud, hz) && !(1_000_000 <= hz <= 48_000_000)
    case _ => false
  }

  /** A refused status packet is refused for its first flaw. */
  lemma StatusRefusedExactly(f: Frame, baud: U32, e: ProtocolError)
    ensures StatusOf(f, baud) == Err(e) <==> StatusFlaw(f, baud, e)
  {
    var p := f.payload;
    if |p| >= 52 {
      WordsExactly(p);
      var hz := FrequencyHz(Be16(p[0], p[1]), baud);
      forall h | Reports(p, baud, h) ensures h == hz { ReportsExactly(p, baud, h); }
      ReportsExactly(p, baud, hz);
      hide FrequencyHz, FreqWords, Reports, WordsAgree, InfoOf;
      assert FreqWords(p)[0] == Be16(p[0], p[1]);
      if e.InconsistentFrequency? && |e.words| == 8
         && (forall i :: 0 <= i < 8 ==> e.words[i] == Be16(p[2 * i], p[2 * i + 1])) {
        assert e.words == FreqWords(p);
      }
    }
  }

  /** What an accepted status packet says, field by field. */
  lemma StatusMeaning(f: Frame, baud: U32)
    requires StatusOf(f, baud).Ok?
    ensures var info, p := StatusOf(f, baud).value, f.payload;
            && IsStatusFrame(f) && |p| >= 52 && WordsAgree(p)
            && Reports(p, baud, info.measuredHz) && 1_000_000 <= info.measuredHz <= 48_000_000
            && info.chipId == [p[19], p[20]] && info.optionBytes == [p[18]] && info.rawStatus == p
            && |info.freqWords| == 8 && (forall i :: 0 <= i < 8 ==> info.freqWords[i] == Be16(p[2 * i], p[2 * i + 1]))
            && (if p[19] == 0xF0 && p[20] == 0x02 then
                  && info.model == Some("STC89C52RC/LE52RC")
                  && info.codeFlash == Some(8192) && info.eepromFlash == Some(6144)
                else info.model == None && info.codeFlash == None && info.eepromFlash == None)
  {
    var p := f.payload;
    WordsExactly(p);
    StatusAcceptedExactly(f, baud);
    ReportsExactly(p, baud, StatusOf(f, baud).value.measuredHz);
    assert p[OFF_CHIP_ID..OFF_CHIP_ID + CHIP_ID_LEN] == [p[19], p[20]];
    hide FreqWords, FrequencyHz, Reports;
  }

  /**
    * The frames that end the handshake as a short status packet: exactly those
    * that look like one and have 21 to 51 payload bytes.
    */
  lemma ShortStatusExactly(f: Frame, baud: U32)
    ensures IsStatusFrame(f) <==> f.dir == McuToHost && f.cmd == 0x00 && |f.payload| >= 21
    ensures IsStatusFrame(f) && StatusOf(f, baud) == Err(ShortStatus(|f.payload|, 52)) <==>
            f.dir == McuToHost && f.cmd == 0x00 && 21 <= |f.payload| <= 51
  {
  }

  /** On every known chip, a planned region stays inside the code flash. */
  lemma PlannedRegionFits(f: Frame, baud: U32, image: seq<Byte>, w: bool, o: SessionOptions)
    requires StatusOf(f, baud).Ok? && StatusOf(f, baud).value.codeFlash.Some?
    requires PlanOf(StatusOf(f, baud).value, Program(image, w), o).Ok?
    ensures 256 * EraseBlocksFor(|image|) <= StatusOf(f, baud).value.codeFlash.value
  {
    StatusMeaning(f, baud);
    var info := StatusOf(f, baud).value;
    hide StatusOf;
    ProgramPlansExactly(info, image, w, o);
    RegionFits(|image|, info.codeFlash.value);
  }

  /**
    * On a known chip, exactly which planned erases stay inside the code flash:
    * all but an explicit count beyond the chip's 32 blocks.
    */
  lemma PlannedEraseFitsExactly(f: Frame, baud: U32, job: Job, o: SessionOptions)
    requires StatusOf(f, baud).Ok? && StatusOf(f, baud).value.codeFlash.Some?
    requires PlanOf(StatusOf(f, baud).value, job, o).Ok?
    ensures var info := StatusOf(f, baud).value;
            256 * ErasedBlocks(info, job) <= info.codeFlash.value <==>
            !(job.EraseOnly? && job.blocks.Some? && job.blocks.value > 32)
  {
    StatusMeaning(f, baud);
    if job.Program? { PlannedRegionFits(f, baud, job.image, job.writeOptions, o); }
    hide PlanOf, EraseBlocksFor, FreqWords;
  }
}
