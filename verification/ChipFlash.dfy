/**
  * What the planned frames do to a flash array.
  *
  * A cell that is written twice without an erase in between is `Spoiled`, so
  * a result without spoiled cells says that no address was written twice.
  */
module ChipFlash {
  import opened Bytes
  import opened FrameCodec
  import opened SessionMachine
  import opened Stc89
  import opened PlanTheorems

  datatype Cell = Blank | Held(b: Byte) | Spoiled

  type Flash = seq<Cell>

  function Erased(flash: Flash, n: nat): Flash {
    seq(|flash|, i requires 0 <= i < |flash| => if i < n then Blank else flash[i])
  }

  function Written(flash: Flash, addr: nat, data: seq<Byte>): Flash {
    seq(|flash|, i requires 0 <= i < |flash| =>
      if addr <= i < addr + |data| then
        if flash[i] == Blank then Held(data[i - addr]) else Spoiled
      else flash[i])
  }

  function Be32(b: seq<Byte>): nat
    requires |b| == 4
  {
    Be16(b[0], b[1]) * 0x1_0000 + Be16(b[2], b[3])
  }

  /** One frame from the host, obeyed: erase, write, or no effect on the flash. */
  function Obey(flash: Flash, f: Frame): Flash {
    var p := f.payload;
    if f.dir == HostToMcu && f.cmd == 0x84 && |p| >= 1 then Erased(flash, 256 * p[0] as int)
    else if f.dir == HostToMcu && f.cmd == 0x00 && |p| >= 6 && Be16(p[4], p[5]) == |p| - 6 then
      Written(flash, Be32(p[..4]), p[6..])
    else flash
  }

  function ObeyAll(flash: Flash, fs: seq<Frame>): Flash {
    if fs == [] then flash else Obey(ObeyAll(flash, fs[..|fs| - 1]), fs[|fs| - 1])
  }

  function FramesIn(steps: seq<Step>): seq<Frame> {
    seq(|steps|, i requires 0 <= i < |steps| => steps[i].frame)
  }

  /** An address survives its trip through four big-endian bytes. */
  lemma AddressRoundTrip(n: U32)
    ensures |Be32Bytes(n)| == 4 && Be32(Be32Bytes(n)) == n
  {
  }

  /** And a length through two. */
  lemma LengthRoundTrip(n: U16)
    ensures |Be16Bytes(n)| == 2 && Be16(Be16Bytes(n)[0], Be16Bytes(n)[1]) == n
  {
  }

  lemma ObeyWrite(flash: Flash, addr: U32, data: seq<Byte>)
    requires |data| < 0x1_0000
    ensures Obey(flash, WriteFrame(addr, data)) == Written(flash, addr, data)
  {
    var f, head, len := WriteFrame(addr, data), Be32Bytes(addr), Be16Bytes(|data|);
    assert f == Frame(HostToMcu, 0x00, head + len + data);
    AddressRoundTrip(addr);
    LengthRoundTrip(|data|);
    PartsOfWrite(head, len, data);
    hide *;
    ObeyParts(flash, f, data);
  }

  lemma ObeyParts(flash: Flash, f: Frame, data: seq<Byte>)
    requires f.dir == HostToMcu && f.cmd == 0x00 && |f.payload| == 6 + |data|
    requires Be16(f.payload[4], f.payload[5]) == |data| && f.payload[6..] == data
    ensures Obey(flash, f) == Written(flash, Be32(f.payload[..4]), data)
  {
    hide Be16, Be32, Written, Erased;
  }

  lemma PartsOfWrite(head: seq<Byte>, len: seq<Byte>, data: seq<Byte>)
    requires |head| == 4 && |len| == 2
    ensures var p := head + len + data;
            |p| == 6 + |data| && p[..4] == head && p[4] == len[0] && p[5] == len[1] && p[6..] == data
  {
  }

  lemma ObeyErase(flash: Flash, blocks: Byte)
    ensures Obey(flash, EraseFrame(blocks)) == Erased(flash, 256 * blocks as int)
  {
  }

  /**
    * The flash after the first `n` frames of a plan that programs `data` over a
    * region of its own length: nothing until the erase, then chunk by chunk,
    * each cell of the region exactly once, and never anything outside it.
    */
  function Programmed(flash: Flash, data: seq<Byte>, n: nat): Flash {
    if n <= 6 then flash
    else
      var done := Min(128 * (n - 7), |data|);
      seq(|flash|, i requires 0 <= i < |flash| =>
        if i < done then Held(data[i]) else if i < |data| then Blank else flash[i])
  }

  lemma ProgrammedErases(flash: Flash, data: seq<Byte>)
    ensures Erased(Programmed(flash, data, 6), |data|) == Programmed(flash, data, 7)
  {
  }

  lemma ProgrammedWrites(flash: Flash, data: seq<Byte>, k: nat)
    requires 128 * (k + 1) <= |data|
    ensures Written(Programmed(flash, data, 7 + k), 128 * k, data[128 * k..128 * (k + 1)])
            == Programmed(flash, data, 8 + k)
  {
    var chunk := data[128 * k..128 * (k + 1)];
    assert forall j :: 0 <= j < 128 ==> chunk[j] == data[128 * k + j];
  }

  lemma ProgrammedRests(flash: Flash, data: seq<Byte>, n: nat)
    requires n < 6 || 128 * (n - 7) >= |data|
    ensures Programmed(flash, data, n + 1) == Programmed(flash, data, n)
  {
  }

  /** Frames that are neither erase nor write leave the flash alone. */
  lemma ObeyOther(flash: Flash, f: Frame)
    requires f.cmd != 0x84 && f.cmd != 0x00
    ensures Obey(flash, f) == flash
  {
  }

  lemma ObeyAllSnoc(flash: Flash, fs: seq<Frame>, n: nat)
    requires n < |fs|
    ensures ObeyAll(flash, fs[..n + 1]) == Obey(ObeyAll(flash, fs[..n]), fs[n])
  {
    assert fs[..n + 1][..n] == fs[..n];
  }

  /** Which planned frames touch the flash. */
  lemma PlannedFrames(info: TargetInfo, job: Job, o: SessionOptions, n: nat)
    requires job.Program? && PlanOf(info, job, o).Ok? && n < |PlanOf(info, job, o).value|
    ensures var f, w := PlanOf(info, job, o).value[n].frame, WriteCount(job);
            && w <= 510
            && (n == 6 ==> f == EraseFrame(EraseBlocksFor(|job.image|)))
            && (7 <= n < 7 + w ==> f == WriteFrame(128 * (n - 7), Block(job, n - 7)))
            && (n != 6 && !(7 <= n < 7 + w) ==> f.cmd != 0x84 && f.cmd != 0x00)
  {
    PlanHasGrammar(info, job, o);
    hide PlanOf, TimerReload, Block, EraseBlocksFor, ReloadField, Be16Bytes, Be32Bytes, Sum8;
  }

  /** How one planned frame moves the flash on. */
  lemma PlannedFrameProgress(flash: Flash, info: TargetInfo, job: Job, o: SessionOptions, n: nat)
    requires job.Program? && PlanOf(info, job, o).Ok? && n < |PlanOf(info, job, o).value|
    ensures Obey(Programmed(flash, Region(job), n), PlanOf(info, job, o).value[n].frame)
            == Programmed(flash, Region(job), n + 1)
  {
    PlannedFrames(info, job, o, n);
    var f := PlanOf(info, job, o).value[n].frame;
    var data, w, state := Region(job), WriteCount(job), Programmed(flash, Region(job), n);
    assert |data| == 128 * w;
    hide PlanOf, Region, Programmed, EraseBlocksFor, Obey, Erased, Written, EraseFrame, WriteFrame;
    if n == 6 {
      ObeyErase(state, EraseBlocksFor(|job.image|));
      ProgrammedErases(flash, data);
    } else if 7 <= n < 7 + w {
      var k := n - 7;
      ObeyWrite(state, 128 * k, Block(job, k));
      ProgrammedWrites(flash, data, k);
    } else {
      ObeyOther(state, f);
      ProgrammedRests(flash, data, n);
    }
  }

  /** After any prefix of the planned frames, the flash is exactly the programmed prefix. */
  lemma {:induction false} PlanPrograms(flash: Flash, info: TargetInfo, job: Job, o: SessionOptions, n: nat)
    requires job.Program? && PlanOf(info, job, o).Ok? && n <= |PlanOf(info, job, o).value|
    ensures ObeyAll(flash, FramesIn(PlanOf(info, job, o).value)[..n]) == Programmed(flash, Region(job), n)
  {
    hide PlanOf, Region, Obey;
    var fs := FramesIn(PlanOf(info, job, o).value);
    if n == 0 {
      assert fs[..0] == [];
    } else {
      hide Programmed, ObeyAll;
      PlanPrograms(flash, info, job, o, n - 1);
      ObeyAllSnoc(flash, fs, n - 1);
      PlannedFrameProgress(flash, info, job, o, n - 1);
    }
  }

  /** Which frames of an erase-only plan touch the flash. */
  lemma ErasingFrames(info: TargetInfo, job: Job, o: SessionOptions, n: nat)
    requires job.EraseOnly? && PlanOf(info, job, o).Ok? && n < |PlanOf(info, job, o).value|
    ensures ErasedBlocks(info, job) <= 0xFF
    ensures var f := PlanOf(info, job, o).value[n].frame;
            if n == 6 then f == EraseFrame(ErasedBlocks(info, job)) else f.cmd != 0x84 && f.cmd != 0x00
  {
    PlanHasGrammar(info, job, o);
    hide PlanOf, TimerReload, ErasedBlocks, ReloadField, Be16Bytes, Be32Bytes, Sum8;
  }

  /** An erase-only plan leaves the flash alone up to its erase, and then has erased exactly its blocks. */
  lemma {:induction false} PlanErases(flash: Flash, info: TargetInfo, job: Job, o: SessionOptions, n: nat)
    requires job.EraseOnly? && PlanOf(info, job, o).Ok? && n <= |PlanOf(info, job, o).value|
    ensures ObeyAll(flash, FramesIn(PlanOf(info, job, o).value)[..n]) ==
            if n <= 6 then flash else Erased(flash, 256 * ErasedBlocks(info, job))
  {
    hide PlanOf, Obey, Erased, ErasedBlocks, EraseFrame;
    var fs := FramesIn(PlanOf(info, job, o).value);
    if n == 0 {
      assert fs[..0] == [];
    } else {
      hide ObeyAll;
      PlanErases(flash, info, job, o, n - 1);
      ObeyAllSnoc(flash, fs, n - 1);
      ErasingFrames(info, job, o, n - 1);
      var now := ObeyAll(flash, fs[..n - 1]);
      if n - 1 == 6 { ObeyErase(now, ErasedBlocks(info, job)); } else { ObeyOther(now, fs[n - 1]); }
    }
  }

  /** The image, then 0xFF to the end of the erased region, then whatever was there. */
  predicate HoldsImage(flash: Flash, was: Flash, image: seq<Byte>, region: nat) {
    && |flash| == |was|
    && forall a :: 0 <= a < |flash| ==>
         flash[a] == if a < |image| then Held(image[a]) else if a < region then Held(0xFF) else was[a]
  }

  /** A whole programming plan puts the image on the chip. */
  lemma WholePlanPrograms(flash: Flash, info: TargetInfo, job: Job, o: SessionOptions)
    requires job.Program? && PlanOf(info, job, o).Ok?
    ensures HoldsImage(ObeyAll(flash, FramesIn(PlanOf(info, job, o).value)), flash, job.image,
                       256 * EraseBlocksFor(|job.image|))
  {
    var fs := FramesIn(PlanOf(info, job, o).value);
    PlanPrograms(flash, info, job, o, |fs|);
    assert fs[..|fs|] == fs;
    PlanLength(info, job, o);
    hide PlanOf, ObeyAll;
    EraseGeometry(|job.image|);
    hide EraseBlocksFor;
  }
}
