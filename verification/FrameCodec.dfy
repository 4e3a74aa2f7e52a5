/**
  * The wire frame: magic, direction, big-endian length, command, payload,
  * 8-bit checksum, terminator. There is no escaping, so a payload may hold the
  * magic or the terminator.
  */
module FrameCodec {
  import opened Bytes

  const MAGIC_0: Byte := 0x46
  const MAGIC_1: Byte := 0xB9
  const DIR_HOST_TO_MCU: Byte := 0x6A
  const DIR_MCU_TO_HOST: Byte := 0x68
  const TERMINATOR: Byte := 0x16
  const FRAME_OVERHEAD := 8
  const MIN_LEN_FIELD := 6
  const MAX_LEN_FIELD := 1024

  datatype Dir = HostToMcu | McuToHost {
    function ToByte(): Byte {
      match this
      case HostToMcu => DIR_HOST_TO_MCU
      case McuToHost => DIR_MCU_TO_HOST
    }
  }

  function DirFromByte(b: Byte): Option<Dir> {
    if b == DIR_HOST_TO_MCU then Some(HostToMcu)
    else if b == DIR_MCU_TO_HOST then Some(McuToHost)
    else None
  }

  datatype Frame = Frame(dir: Dir, cmd: Byte, payload: seq<Byte>) {
    function WireLen(): nat { |payload| + FRAME_OVERHEAD }

    /** LEN on the wire: truncated to 16 bits, as the cast in the source is. */
    function LenField(): U16 { (WireLen() - 2) % 0x1_0000 }

    /** The checksummed part: everything from the direction byte to the last payload byte. */
    function Body(): seq<Byte> {
      [dir.ToByte(), LenField() / 256, LenField() % 256, cmd] + payload
    }
  }

  function Host(cmd: Byte, payload: seq<Byte>): Frame { Frame(HostToMcu, cmd, payload) }

  datatype FrameError =
    | TooShort(len: nat)
    | BadMagic(m0: Byte, m1: Byte)
    | BadLength(declared: U16, actual: U16)
    | BadTerminator(last: Byte)
    | BadChecksum(computed: Byte, got: Byte)
    | BadDir(dir: Byte)

  function Encode(f: Frame): (b: seq<Byte>)
    ensures |b| == f.WireLen()
  {
    [MAGIC_0, MAGIC_1] + f.Body() + [Sum8(f.Body()), TERMINATOR]
  }

  /** The encoder as written: bytes pushed one group after the other. */
  method EncodeBytes(f: Frame) returns (out: seq<Byte>)
    ensures out == Encode(f)
  {
    out := [MAGIC_0, MAGIC_1];
    out := out + [f.dir.ToByte()];
    var len := f.LenField();
    out := out + [len / 256];
    out := out + [len % 256];
    out := out + [f.cmd];
    out := out + f.payload;
    assert out[2..] == f.Body();
    out := out + [Sum8(out[2..])];
    out := out + [TERMINATOR];
  }

  function Decode(bytes: seq<Byte>): Result<Frame, FrameError> {
    var n := |bytes|;
    if n < FRAME_OVERHEAD then Err(TooShort(n))
    else if bytes[0] != MAGIC_0 || bytes[1] != MAGIC_1 then Err(BadMagic(bytes[0], bytes[1]))
    else if Be16(bytes[3], bytes[4]) != (n - 2) % 0x1_0000 then
      Err(BadLength(Be16(bytes[3], bytes[4]), (n - 2) % 0x1_0000))
    else if bytes[n - 1] != TERMINATOR then Err(BadTerminator(bytes[n - 1]))
    else if bytes[n - 2] != Sum8(bytes[2..n - 2]) then
      Err(BadChecksum(Sum8(bytes[2..n - 2]), bytes[n - 2]))
    else match DirFromByte(bytes[2])
      case None => Err(BadDir(bytes[2]))
      case Some(dir) => Ok(Frame(dir, bytes[5], bytes[6..n - 2]))
  }

  predicate IsEchoOf(reply: Frame, req: Frame) {
    && reply.dir == McuToHost
    && req.dir == HostToMcu
    && reply.cmd == req.cmd
    && reply.payload == req.payload
  }

  /** Round trip, at every payload length (LEN wraps, but so does the check). */
  lemma DecodeEncode(f: Frame)
    ensures Decode(Encode(f)) == Ok(f)
  {
    var b := Encode(f);
    assert b[2..|b| - 2] == f.Body();
    assert b[6..|b| - 2] == f.payload;
  }

  /** The other direction: only encodings decode, and to the frame they encode. */
  lemma EncodeDecode(b: seq<Byte>)
    requires Decode(b).Ok?
    ensures Encode(Decode(b).value) == b
  {
    var f := Decode(b).value;
    assert f.Body() == b[2..|b| - 2];
    assert b == [b[0], b[1]] + b[2..|b| - 2] + [b[|b| - 2], b[|b| - 1]];
  }

  /** `Decode` accepts exactly the image of `Encode`, and inverts it there. */
  lemma DecodeExact(b: seq<Byte>, f: Frame)
    ensures Decode(b) == Ok(f) <==> b == Encode(f)
  {
    DecodeEncode(f);
    if Decode(b) == Ok(f) { EncodeDecode(b); }
  }

  /** The wire form in plain numbers, LEN truncated to 16 bits. */
  lemma EncodeLayout(f: Frame)
    ensures var n := (|f.payload| + 6) % 0x1_0000;
            var body := [if f.dir == HostToMcu then 0x6A else 0x68, n / 256, n % 256, f.cmd] + f.payload;
            Encode(f) == [0x46, 0xB9] + body + [Total(body) % 256, 0x16]
  {
    SumIsTotal(f.Body());
  }

  /** Magic and LEN are in order. */
  predicate Framed(b: seq<Byte>) {
    |b| >= 8 && b[0] == 0x46 && b[1] == 0xB9 && Be16(b[3], b[4]) == (|b| - 2) % 0x1_0000
  }

  predicate Summed(b: seq<Byte>) {
    Framed(b) && b[|b| - 1] == 0x16 && b[|b| - 2] == Total(b[2..|b| - 2]) % 256
  }

  /** `e` names the first thing wrong with `b`, in the order length, magic, LEN, terminator, checksum, direction. */
  predicate FirstFlaw(b: seq<Byte>, e: FrameError) {
    var n := |b|;
    match e
    case TooShort(k) => n < 8 && k == n
    case BadMagic(x, y) => n >= 8 && x == b[0] && y == b[1] && !(x == 0x46 && y == 0xB9)
    case BadLength(declared, actual) =>
      && n >= 8 && b[0] == 0x46 && b[1] == 0xB9
      && declared == Be16(b[3], b[4]) && actual == (n - 2) % 0x1_0000 && declared != actual
    case BadTerminator(x) => Framed(b) && x == b[n - 1] && x != 0x16
    case BadChecksum(computed, got) =>
      && Framed(b) && b[n - 1] == 0x16
      && computed == Total(b[2..n - 2]) % 256 && got == b[n - 2] && computed != got
    case BadDir(d) => Summed(b) && d == b[2] && d != 0x6A && d != 0x68
  }

  /** A byte string that does not decode is refused for its first flaw. */
  lemma RefusedExactly(b: seq<Byte>, e: FrameError)
    ensures Decode(b) == Err(e) <==> FirstFlaw(b, e)
  {
    if |b| >= 8 { SumIsTotal(b[2..|b| - 2]); }
    hide Sum8, Total;
  }

  /** Any single corrupted byte, wherever it is, is caught. */
  lemma CorruptionDetected(f: Frame, i: nat, v: Byte)
    requires i < |Encode(f)| && v != Encode(f)[i]
    ensures Decode(Encode(f)[i := v]).Err?
  {
    var b := Encode(f);
    var n := |b|;
    var c := b[i := v];
    assert b[2..n - 2] == f.Body();
    if 2 <= i < n - 2 {
      assert c[2..n - 2] == b[2..n - 2][i - 2 := v];
      SumDetectsChange(b[2..n - 2], i - 2, v);
    } else {
      assert c[2..n - 2] == b[2..n - 2];
    }
  }

  /** An echo differs from its request in DIR and the checksum only, and the checksum by exactly 2. */
  lemma EchoOnTheWire(reply: Frame, req: Frame)
    requires req.dir == HostToMcu
    ensures var b, n := Encode(req), |Encode(req)|;
            IsEchoOf(reply, req) <==>
            Encode(reply) == b[2 := 0x68][n - 2 := WrappingSub(b[n - 2], 2)]
  {
    var b, n := Encode(req), |Encode(req)|;
    var echo := Frame(McuToHost, req.cmd, req.payload);
    assert echo.Body() == req.Body()[0 := DIR_MCU_TO_HOST];
    SumUpdate(req.Body(), 0, DIR_MCU_TO_HOST);
    assert Encode(echo) == b[2 := DIR_MCU_TO_HOST][n - 2 := WrappingSub(b[n - 2], 2)];
    DecodeEncode(echo);
    DecodeEncode(reply);
  }
}
