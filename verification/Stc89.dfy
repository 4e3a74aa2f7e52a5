/**
  * The STC89 family: the status packet, the timer arithmetic, and the planner
  * that turns (status, job, options) into the whole list of steps.
  */
module Stc89 {
  import opened Bytes
  import opened FrameCodec
  import opened SessionMachine

  const CMD_STATUS: Byte := 0x00
  const CMD_WRITE: Byte := 0x00
  const CMD_BAUD_PROBE: Byte := 0x8F
  const CMD_BAUD_COMMIT: Byte := 0x8E
  const CMD_LINK_TEST: Byte := 0x80
  const CMD_ERASE: Byte := 0x84
  const CMD_OPTIONS: Byte := 0x8D
  const CMD_RUN: Byte := 0x82

  const STATUS_PAYLOAD_LEN := 52
  const FREQ_WORD_COUNT := 8
  const OFF_OPTION := 18
  const OFF_CHIP_ID := 19
  const CHIP_ID_LEN := 2
  const FREQ_MIN_HZ := 1_000_000
  const FREQ_MAX_HZ := 48_000_000
  const BAUD_CONSTS: seq<Byte> := [0x00, 0x06, 0xA0]
  const BAUD_PROBE_TAIL: Byte := 0x81
  const LINK_TEST_PREFIX: seq<Byte> := [0x00, 0x00, 0x36, 0x01]
  const LINK_TEST_REPEATS := 4
  const ERASE_FILL: seq<Byte> := [0x33, 0x33, 0x33, 0x33, 0x33, 0x33]
  const ERASE_REPLY_LEN := 7
  const ERASE_BLOCK := 256
  const ERASE_GRANULE := 512
  const WRITE_BLOCK := 128
  const OPTIONS_TAIL: seq<Byte> := [0xFF, 0xFF, 0xFF]

  datatype Job =
    | Identify
    | EraseOnly(blocks: Option<Byte>)
    | Program(image: seq<Byte>, writeOptions: bool)

  datatype SessionOptions =
    SessionOptions(handshakeBaud: U32, transferBaud: U32, replyTimeoutMs: nat, eraseTimeoutMs: nat)

  datatype TargetInfo = TargetInfo(
    chipId: seq<Byte>,
    model: Option<string>,
    codeFlash: Option<nat>,
    eepromFlash: Option<nat>,
    measuredHz: U64,
    freqWords: seq<U16>,
    optionBytes: seq<Byte>,
    rawStatus: seq<Byte>)

  datatype ProtocolError =
    | NotAStatusFrame(cmd: Byte)
    | ShortStatus(got: nat, want: nat)
    | InconsistentFrequency(words: seq<U16>)
    | ImplausibleFrequency(hz: nat)
    | UnreachableBaud(baud: U32, reload: int)
    | ImageTooLarge(image: nat, capacity: nat)
    | EmptyImage
    | UnknownChipSize(chipId: seq<Byte>)
    | EraseTooLarge(blocks: nat)

  // ---------------------------------------------------------------- arithmetic

  /** The clock the bootloader measured, in Hz: word * baud * 12 / 7. */
  function FrequencyHz(word: U16, handshakeBaud: U32): nat { word * handshakeBaud * 12 / 7 }

  function Be16Bytes(n: U16): seq<Byte> { [n / 256, n % 256] }

  /** round(256 - f / (32 * baud)), if it is a usable reload; the sum wraps at 64 bits. */
  function TimerReload(hz: U64, baud: U32): Result<Byte, ProtocolError> {
    var denom := baud * 32;
    if denom == 0 then Err(UnreachableBaud(baud, 0))
    else
      var ticks := (hz + denom / 2) % 0x1_0000_0000_0000_0000 / denom;
      var reload := 256 - ticks;
      if 1 <= reload <= 255 then Ok(reload) else Err(UnreachableBaud(baud, reload))
  }

  function ReloadField(reload: Byte): seq<Byte> {
    Be16Bytes((0x1_0000 - (256 - reload)) % 0x1_0000)
  }

  /** NN = 2 * ceil(len / 512). */
  function EraseBlocksFor(len: nat): nat { 2 * ((len + ERASE_GRANULE - 1) / ERASE_GRANULE) }

  // -------------------------------------------------------------------- frames

  function BaudProbeFrame(reload: Byte): Frame {
    Host(CMD_BAUD_PROBE, ReloadField(reload) + BAUD_CONSTS + [BAUD_PROBE_TAIL])
  }

  function BaudCommitFrame(reload: Byte): Frame {
    Host(CMD_BAUD_COMMIT, ReloadField(reload) + BAUD_CONSTS)
  }

  function LinkTestFrame(chipId: seq<Byte>): Frame { Host(CMD_LINK_TEST, LINK_TEST_PREFIX + chipId) }

  function EraseFrame(blocks: Byte): Frame { Host(CMD_ERASE, [blocks] + ERASE_FILL) }

  function Be32Bytes(n: U32): seq<Byte> { Be16Bytes(n / 0x1_0000) + Be16Bytes(n % 0x1_0000) }

  function WriteFrame(addr: U32, data: seq<Byte>): Frame {
    Host(CMD_WRITE, Be32Bytes(addr) + Be16Bytes(|data| % 0x1_0000) + data)
  }

  function OptionsFrame(info: TargetInfo): Frame { Host(CMD_OPTIONS, info.optionBytes + OPTIONS_TAIL) }

  function RunFrame(): Frame { Host(CMD_RUN, []) }

  // -------------------------------------------------------------------- status

  predicate IsStatusFrame(f: Frame) {
    f.dir == McuToHost && f.cmd == CMD_STATUS && |f.payload| >= OFF_CHIP_ID + CHIP_ID_LEN
  }

  function FreqWords(p: seq<Byte>): seq<U16>
    requires |p| >= 2 * FREQ_WORD_COUNT
  {
    seq(FREQ_WORD_COUNT, i requires 0 <= i < FREQ_WORD_COUNT => Be16(p[2 * i], p[2 * i + 1]))
  }

  /** The single chip the table knows. */
  predicate KnownChip(id: seq<Byte>) { id == [0xF0, 0x02] }

  function InfoOf(p: seq<Byte>, hz: U64): TargetInfo
    requires |p| >= STATUS_PAYLOAD_LEN
  {
    var id := p[OFF_CHIP_ID..OFF_CHIP_ID + CHIP_ID_LEN];
    var known := KnownChip(id);
    TargetInfo(id,
               if known then Some("STC89C52RC/LE52RC") else None,
               if known then Some(8 * 1024) else None,
               if known then Some(6 * 1024) else None,
               hz, FreqWords(p), [p[OFF_OPTION]], p)
  }

  function StatusOf(f: Frame, handshakeBaud: U32): Result<TargetInfo, ProtocolError> {
    if f.cmd != CMD_STATUS || f.dir != McuToHost then Err(NotAStatusFrame(f.cmd))
    else if |f.payload| < STATUS_PAYLOAD_LEN then Err(ShortStatus(|f.payload|, STATUS_PAYLOAD_LEN))
    else
      var words := FreqWords(f.payload);
      if exists i :: 0 <= i < |words| && words[i] != words[0] then Err(InconsistentFrequency(words))
      else
        var hz := FrequencyHz(words[0], handshakeBaud);
        if !(FREQ_MIN_HZ <= hz <= FREQ_MAX_HZ) then Err(ImplausibleFrequency(hz))
        else Ok(InfoOf(f.payload, hz))
  }

  /** `parse_status` as written: the words are collected in a loop, then compared with the first. */
  method ParseStatus(f: Frame, handshakeBaud: U32) returns (r: Result<TargetInfo, ProtocolError>)
    ensures r == StatusOf(f, handshakeBaud)
  {
    if f.cmd != CMD_STATUS || f.dir != McuToHost { return Err(NotAStatusFrame(f.cmd)); }
    var p := f.payload;
    if |p| < STATUS_PAYLOAD_LEN { return Err(ShortStatus(|p|, STATUS_PAYLOAD_LEN)); }
    var words: seq<U16> := [];
    for i := 0 to FREQ_WORD_COUNT
      invariant words == FreqWords(p)[..i]
    {
      var o := i * 2;
      words := words + [Be16(p[o], p[o + 1])];
    }
    assert words == FreqWords(p);
    var agree := true;
    for i := 0 to |words|
      invariant agree <==> forall j :: 0 <= j < i ==> words[j] == words[0]
    {
      if words[i] != words[0] { agree := false; }
    }
    if !agree { return Err(InconsistentFrequency(words)); }
    var hz := FrequencyHz(words[0], handshakeBaud);
    if !(FREQ_MIN_HZ <= hz <= FREQ_MAX_HZ) { return Err(ImplausibleFrequency(hz)); }
    return Ok(InfoOf(p, hz));
  }

  // ----------------------------------------------------------------- the plan

  function ProbeStep(reload: Byte, o: SessionOptions): Step {
    Step(BaudProbe, BaudProbeFrame(reload), Echo, o.replyTimeoutMs, None, Some(o.transferBaud), None)
  }

  function CommitStep(reload: Byte, o: SessionOptions): Step {
    Step(BaudCommit, BaudCommitFrame(reload), Echo, o.replyTimeoutMs,
         Some(o.handshakeBaud), Some(o.transferBaud), None)
  }

  function LinkStep(info: TargetInfo, o: SessionOptions): Step {
    Step(LinkTest, LinkTestFrame(info.chipId), Ack(REPLY_ACK, []), o.replyTimeoutMs, None, None, None)
  }

  function EraseStep(blocks: Byte, o: SessionOptions): Step {
    Step(Erase, EraseFrame(blocks), AckLen(REPLY_ACK, ERASE_REPLY_LEN), o.eraseTimeoutMs, None, None, None)
  }

  function WriteStep(addr: U32, data: seq<Byte>, o: SessionOptions): Step {
    Step(Write, WriteFrame(addr, data), BlockAck(Sum8(data)), o.replyTimeoutMs, None, None, Some(addr))
  }

  function OptionsStep(info: TargetInfo, o: SessionOptions): Step {
    Step(Phase.Options, OptionsFrame(info), Echo, o.replyTimeoutMs, None, None, None)
  }

  function RunStep(o: SessionOptions): Step {
    Step(Run, RunFrame(), Nothing, o.replyTimeoutMs, None, None, None)
  }

  /** The image filled up with 0xFF to `n` bytes (`resize`, which would also cut). */
  function Padded(image: seq<Byte>, n: nat): (p: seq<Byte>)
    ensures |p| == n
  {
    if n <= |image| then image[..n] else image + Repeat(0xFF, n - |image|)
  }

  /** The blocks to erase, before the one-byte check. */
  function BlocksFor(info: TargetInfo, job: Job): Result<nat, ProtocolError>
    requires !job.Identify?
  {
    match job
    case EraseOnly(Some(n)) => Ok(n)
    case EraseOnly(None) =>
      if info.codeFlash.Some? then Ok(info.codeFlash.value / ERASE_BLOCK) else Err(UnknownChipSize(info.chipId))
    case Program(image, _) =>
      if image == [] then Err(EmptyImage)
      else if info.codeFlash.Some? && |image| > info.codeFlash.value then
        Err(ImageTooLarge(|image|, info.codeFlash.value))
      else Ok(EraseBlocksFor(|image|))
  }

  function Opening(info: TargetInfo, reload: Byte, o: SessionOptions): seq<Step> {
    [ProbeStep(reload, o), CommitStep(reload, o)] + Repeat(LinkStep(info, o), LINK_TEST_REPEATS)
  }

  /** One write step per 128-byte chunk of `data`, addressed from 0. */
  function Writes(data: seq<Byte>, n: nat, o: SessionOptions): (w: seq<Step>)
    requires WRITE_BLOCK * n <= |data| && n <= 0x1_0000
    ensures |w| == n
  {
    seq(n, i requires 0 <= i < n =>
      WriteStep(WRITE_BLOCK * i, data[WRITE_BLOCK * i..WRITE_BLOCK * (i + 1)], o))
  }

  function Programming(info: TargetInfo, job: Job, blocks: Byte, o: SessionOptions): seq<Step> {
    if job.Program? then
      Writes(Padded(job.image, blocks * ERASE_BLOCK), 2 * blocks, o)
      + if job.writeOptions then [OptionsStep(info, o)] else []
    else []
  }

  function PlanOf(info: TargetInfo, job: Job, o: SessionOptions): Result<seq<Step>, ProtocolError> {
    if job.Identify? then Ok([RunStep(o)])
    else match TimerReload(info.measuredHz, o.transferBaud)
      case Err(e) => Err(e)
      case Ok(reload) =>
        match BlocksFor(info, job)
        case Err(e) => Err(e)
        case Ok(blocks) =>
          if blocks == 0 || blocks > 0xFF then Err(EraseTooLarge(blocks))
          else Ok(Opening(info, reload, o) + [EraseStep(blocks, o)]
                  + Programming(info, job, blocks, o) + [RunStep(o)])
  }

  /** One write step pushed per chunk of the padded image. */
  method PushWrites(pushed: seq<Step>, padded: seq<Byte>, n: nat, o: SessionOptions) returns (steps: seq<Step>)
    requires |padded| == WRITE_BLOCK * n && n <= 0x1_0000
    ensures steps == pushed + Writes(padded, n, o)
  {
    steps := pushed;
    var i := 0;
    while i * WRITE_BLOCK < |padded|
      invariant 0 <= i <= n
      invariant steps == pushed + Writes(padded, n, o)[..i]
    {
      var addr: U32 := i * WRITE_BLOCK;
      var chunk := padded[addr..addr + WRITE_BLOCK];
      assert Writes(padded, n, o)[i] == WriteStep(addr, chunk, o);
      hide *;
      steps := steps + [WriteStep(addr, chunk, o)];
      i := i + 1;
    }
  }

  /** `plan` as written: steps pushed one by one. */
  method Plan(info: TargetInfo, job: Job, o: SessionOptions) returns (r: Result<seq<Step>, ProtocolError>)
    ensures r == PlanOf(info, job, o)
  {
    hide TimerReload, BlocksFor, ProbeStep, CommitStep, LinkStep, EraseStep, RunStep, OptionsStep, Writes;
    var steps: seq<Step> := [];
    if job.Identify? {
      steps := steps + [RunStep(o)];
      assert steps == [RunStep(o)];
      return Ok(steps);
    }
    var reloadOrErr := TimerReload(info.measuredHz, o.transferBaud);
    if reloadOrErr.Err? { return Err(reloadOrErr.error); }
    var reload := reloadOrErr.value;
    steps := steps + [ProbeStep(reload, o)];
    steps := steps + [CommitStep(reload, o)];
    for i := 0 to LINK_TEST_REPEATS
      invariant steps == Opening(info, reload, o)[..2 + i]
    {
      steps := steps + [LinkStep(info, o)];
    }
    assert steps == Opening(info, reload, o);
    hide Opening;
    var blocksOrErr := BlocksFor(info, job);
    if blocksOrErr.Err? { return Err(blocksOrErr.error); }
    var blocks := blocksOrErr.value;
    if blocks == 0 || blocks > 0xFF { return Err(EraseTooLarge(blocks)); }
    steps := steps + [EraseStep(blocks, o)];
    ghost var head := steps;
    if job.Program? {
      var padded := Padded(job.image, blocks * ERASE_BLOCK);
      steps := PushWrites(steps, padded, 2 * blocks, o);
      if job.writeOptions { steps := steps + [OptionsStep(info, o)]; }
    }
    assert steps == head + Programming(info, job, blocks, o);
    steps := steps + [RunStep(o)];
    return Ok(steps);
  }
}
