/**
  * The Intel HEX reader (Intel Hexadecimal Object File Format Specification,
  * Rev. A: section 2 general record format, sections 3 and 4 extended
  * addresses, section 5 data record, section 8 end of file).
  */
module IntelHex {
  import opened Bytes

  datatype Why =
    | NoStartCode
    | Truncated
    | NonHex(c: Byte)
    | CountMismatch(count: nat, len: nat)
    | BadType02Length
    | BadType04Length
    | UnsupportedType(kind: Byte)

  datatype HexError =
    | Empty
    | NoData
    | BadRecord(line: nat, why: Why)
    | BadChecksum(line: nat, computed: Byte, got: Byte)
    | AddressTooHigh(line: nat, addr: U32)

  datatype Image = Image(bytes: seq<Byte>, lowestAddr: U32, gapBytes: nat)

  /** One decoded record. */
  datatype Record = Record(offset: U16, kind: Byte, data: seq<Byte>)

  /** A data record at its absolute address. */
  datatype Placed = Placed(addr: U32, data: seq<Byte>) {
    function End(): nat { addr + |data| }
    predicate Covers(a: nat) { addr <= a < End() }
  }

  const ADDRESS_SPACE := 0x1_0000

  // ---------------------------------------------------------------------- text

  /** Unicode White_Space, which is what `trim` strips. */
  predicate IsWhite(c: char) {
    var n := c as int;
    || 0x9 <= n <= 0xD || n == 0x20 || n == 0x85 || n == 0xA0 || n == 0x1680
    || 0x2000 <= n <= 0x200A || n == 0x2028 || n == 0x2029 || n == 0x202F || n == 0x205F || n == 0x3000
  }

  function Trim(s: string): string
    decreases |s|
  {
    if s == [] then s
    else if IsWhite(s[0]) then Trim(s[1..])
    else if IsWhite(s[|s| - 1]) then Trim(s[..|s| - 1])
    else s
  }

  function LineEnd(s: string): (n: nat)
    ensures n <= |s| && (n < |s| ==> s[n] == '\n')
  {
    if s == [] || s[0] == '\n' then 0 else 1 + LineEnd(s[1..])
  }

  /** `lines`; the carriage return it would strip is white space and is trimmed anyway. */
  function Lines(s: string): seq<string>
    decreases |s|
  {
    if s == [] then []
    else
      var n := LineEnd(s);
      [s[..n]] + if n < |s| then Lines(s[n + 1..]) else []
  }

  function Utf8Char(c: char): seq<Byte> {
    var n := c as int;
    if n < 0x80 then [n]
    else if n < 0x800 then [0xC0 + n / 64, 0x80 + n % 64]
    else if n < 0x1_0000 then [0xE0 + n / 4096, 0x80 + n / 64 % 64, 0x80 + n % 64]
    else [0xF0 + n / 262144, 0x80 + n / 4096 % 64, 0x80 + n / 64 % 64, 0x80 + n % 64]
  }

  /** The bytes of a text slice; all lengths in the reader are byte lengths. */
  function Utf8(s: string): seq<Byte> {
    if s == [] then [] else Utf8Char(s[0]) + Utf8(s[1..])
  }

  function Nibble(c: Byte): (n: Option<Byte>)
    ensures n.Some? ==> n.value < 16
  {
    if '0' as int <= c <= '9' as int then Some(c - '0' as int)
    else if 'a' as int <= c <= 'f' as int then Some(c - 'a' as int + 10)
    else if 'A' as int <= c <= 'F' as int then Some(c - 'A' as int + 10)
    else None
  }

  /** Pairs of hex digits as bytes, or the first byte that is not one. */
  function HexOf(b: seq<Byte>): (r: Result<seq<Byte>, Byte>)
    requires |b| % 2 == 0
    ensures r.Ok? ==> |r.value| == |b| / 2
  {
    var n := |b|;
    if n == 0 then Ok([])
    else match HexOf(b[..n - 2])
      case Err(c) => Err(c)
      case Ok(out) =>
        var hi, lo := Nibble(b[n - 2]), Nibble(b[n - 1]);
        if hi.None? then Err(b[n - 2])
        else if lo.None? then Err(b[n - 1])
        else Ok(out + [hi.value * 16 + lo.value])
  }

  method DecodeHex(b: seq<Byte>) returns (r: Result<seq<Byte>, Byte>)
    requires |b| % 2 == 0
    ensures r == HexOf(b)
  {
    var out: seq<Byte> := [];
    var i := 0;
    while i < |b|
      invariant 0 <= i <= |b| && i % 2 == 0
      invariant HexOf(b[..i]) == Ok(out)
    {
      assert b[..i + 2][..i] == b[..i];
      var hi := Nibble(b[i]);
      if hi.None? {
        HexErrorSticks(b, i + 2);
        return Err(b[i]);
      }
      var lo := Nibble(b[i + 1]);
      if lo.None? {
        HexErrorSticks(b, i + 2);
        return Err(b[i + 1]);
      }
      out := out + [hi.value * 16 + lo.value];
      i := i + 2;
    }
    assert b[..i] == b;
    return Ok(out);
  }

  lemma {:induction false} HexErrorSticks(b: seq<Byte>, i: nat)
    requires |b| % 2 == 0 && i % 2 == 0 && i <= |b| && HexOf(b[..i]).Err?
    ensures HexOf(b) == HexOf(b[..i])
    decreases |b|
  {
    if i == |b| {
      assert b[..i] == b;
    } else {
      assert b[..|b| - 2][..i] == b[..i];
      HexErrorSticks(b[..|b| - 2], i);
    }
  }

  /** Accepted exactly when every byte is a hex digit, and then each pair is high digit, low digit. */
  lemma {:induction false} HexDigits(b: seq<Byte>)
    requires |b| % 2 == 0
    ensures HexOf(b).Ok? <==> forall i :: 0 <= i < |b| ==> Nibble(b[i]).Some?
    ensures HexOf(b).Ok? ==> forall i :: 0 <= i < |b| / 2 ==>
              HexOf(b).value[i] == 16 * Nibble(b[2 * i]).value + Nibble(b[2 * i + 1]).value
  {
    if b != [] {
      hide Nibble;
      var init := b[..|b| - 2];
      HexDigits(init);
      assert forall i :: 0 <= i < |init| ==> init[i] == b[i];
    }
  }

  // ------------------------------------------------------------------- records

  function RecordOf(bytes: seq<Byte>, no: nat): Result<Record, HexError>
    requires |bytes| >= 5
  {
    var count: nat, sum, got := bytes[0], Sum8(bytes), bytes[|bytes| - 1];
    if |bytes| != count + 5 then Err(BadRecord(no, CountMismatch(count, |bytes|)))
    else if sum != 0 then Err(BadChecksum(no, WrappingSub(got, sum), got))
    else Ok(Record(Be16(bytes[1], bytes[2]), bytes[3], bytes[4..4 + count]))
  }

  /** The decoded bytes of a line, if it is a record line in hex. */
  function LineBytes(line: string): Option<Result<seq<Byte>, Why>> {
    var s := Trim(line);
    if s == [] then None
    else if s[0] != ':' then Some(Err(NoStartCode))
    else
      var body := Utf8(s[1..]);
      if |body| < 10 || |body| % 2 != 0 then Some(Err(Truncated))
      else match HexOf(body)
        case Err(c) => Some(Err(NonHex(c)))
        case Ok(bytes) => Some(Ok(bytes))
  }

  lemma LineBytesLength(line: string)
    requires LineBytes(line).Some? && LineBytes(line).value.Ok?
    ensures |LineBytes(line).value.value| >= 5
  {
  }

  /** A line read as a record; `None` for a blank line. */
  function ReadRecord(line: string, no: nat): Result<Option<Record>, HexError> {
    match LineBytes(line)
    case None => Ok(None)
    case Some(Err(why)) => Err(BadRecord(no, why))
    case Some(Ok(bytes)) =>
      LineBytesLength(line);
      match RecordOf(bytes, no)
      case Err(e) => Err(e)
      case Ok(r) => Ok(Some(r))
  }

  /** The base address in force: a paragraph number times 16, or 0. */
  type Base = b: int | 0 <= b <= 0xF_FFF0

  /** What one record does to the reader. */
  datatype Deed = Data(placed: Placed) | EndOfFile | Rebase(base: Base) | Ignore

  function DeedOf(r: Record, base: Base, no: nat): Result<Deed, HexError> {
    if r.kind == 0 then
      var addr: U32 := base + r.offset;
      if addr + |r.data| > ADDRESS_SPACE then Err(AddressTooHigh(no, addr)) else Ok(Data(Placed(addr, r.data)))
    else if r.kind == 1 then Ok(EndOfFile)
    else if r.kind == 2 then
      if |r.data| != 2 then Err(BadRecord(no, BadType02Length)) else Ok(Rebase(Be16(r.data[0], r.data[1]) * 16))
    else if r.kind == 4 then
      if |r.data| != 2 then Err(BadRecord(no, BadType04Length))
      else if Be16(r.data[0], r.data[1]) != 0 then
        Err(AddressTooHigh(no, Be16(r.data[0], r.data[1]) * 0x1_0000))
      else Ok(Rebase(0))
    else if r.kind == 3 || r.kind == 5 then Ok(Ignore)
    else Err(BadRecord(no, UnsupportedType(r.kind)))
  }

  /** The data records from line `i` up to the end-of-file record, placed; or the first error. */
  function Gather(lines: seq<string>, i: nat, base: Base): Result<seq<Placed>, HexError>
    requires i <= |lines|
    decreases |lines| - i
  {
    if i == |lines| then Ok([])
    else match ReadRecord(lines[i], i + 1)
      case Err(e) => Err(e)
      case Ok(None) => Gather(lines, i + 1, base)
      case Ok(Some(r)) =>
        match DeedOf(r, base, i + 1)
        case Err(e) => Err(e)
        case Ok(EndOfFile) => Ok([])
        case Ok(Ignore) => Gather(lines, i + 1, base)
        case Ok(Rebase(b)) => Gather(lines, i + 1, b)
        case Ok(Data(p)) => Behind([p], Gather(lines, i + 1, base))
  }

  function Behind(ps: seq<Placed>, r: Result<seq<Placed>, HexError>): Result<seq<Placed>, HexError> {
    match r
    case Ok(qs) => Ok(ps + qs)
    case Err(e) => Err(e)
  }

  // --------------------------------------------------------------------- image

  /** One past the highest address any record reaches, empty records included. */
  function Extent(ps: seq<Placed>): nat {
    if ps == [] then 0
    else
      var e, last := Extent(ps[..|ps| - 1]), ps[|ps| - 1].End();
      if e < last then last else e
  }

  function Lowest(ps: seq<Placed>): U32 {
    if ps == [] then 0xFFFF_FFFF
    else
      var low, last := Lowest(ps[..|ps| - 1]), ps[|ps| - 1].addr;
      if last < low then last else low
  }

  /** What the last record covering `a` puts there. */
  function Latest(ps: seq<Placed>, a: nat): Option<Byte> {
    if ps == [] then None
    else if ps[|ps| - 1].Covers(a) then Some(ps[|ps| - 1].data[a - ps[|ps| - 1].addr])
    else Latest(ps[..|ps| - 1], a)
  }

  predicate Covered(ps: seq<Placed>, a: nat) { exists i :: 0 <= i < |ps| && ps[i].Covers(a) }

  /** The uncovered addresses below the end of the image. */
  function Gaps(ps: seq<Placed>): set<nat> { set a: nat | a < Extent(ps) && !Covered(ps, a) }

  function ByteAt(ps: seq<Placed>, a: nat): Byte {
    if Latest(ps, a).Some? then Latest(ps, a).value else 0
  }

  function ImageOf(ps: seq<Placed>): Result<Image, HexError> {
    if ps == [] || Extent(ps) == 0 then Err(NoData)
    else Ok(Image(seq(Extent(ps), a requires 0 <= a => ByteAt(ps, a)), Lowest(ps), |Gaps(ps)|))
  }

  function ImageOfLines(lines: seq<string>): Result<Image, HexError> {
    match Gather(lines, 0, 0)
    case Err(e) => Err(e)
    case Ok(ps) => ImageOf(ps)
  }

  function ParseOf(text: string): Result<Image, HexError> {
    if Trim(text) == [] then Err(Empty) else ImageOfLines(Lines(text))
  }

  /** `Latest` is the covering record that no later record covers. */
  lemma {:induction false} LatestMeans(ps: seq<Placed>, a: nat)
    ensures match Latest(ps, a)
            case Some(b) => exists i :: 0 <= i < |ps| && LastCover(ps, i, a) && ps[i].data[a - ps[i].addr] == b
            case None => !Covered(ps, a)
  {
    if ps != [] {
      var n := |ps| - 1;
      var init := ps[..n];
      if ps[n].Covers(a) {
        assert LastCover(ps, n, a);
      } else {
        assert Covered(ps, a) ==> Covered(init, a) by {
          if i :| 0 <= i < |ps| && ps[i].Covers(a) { assert init[i] == ps[i]; }
        }
        LatestMeans(init, a);
        if Latest(init, a).Some? {
          var i :| 0 <= i < |init| && LastCover(init, i, a) && init[i].data[a - init[i].addr] == Latest(init, a).value;
          assert LastCover(ps, i, a) && ps[i] == init[i];
        }
      }
    }
  }

  /** Record `i` covers `a` and none after it does. */
  predicate LastCover(ps: seq<Placed>, i: nat, a: nat) {
    && i < |ps| && ps[i].Covers(a)
    && forall j :: i < j < |ps| ==> !ps[j].Covers(a)
  }

  // ---------------------------------------------------------------- the reader

  lemma NothingPlaced()
    ensures MemoryOf([]) == [] && Lowest([]) == 0xFFFF_FFFF
    ensures forall r :: Behind([], r) == r
  {
    forall r: Result<seq<Placed>, HexError> ensures Behind([], r) == r {
      if r.Ok? { assert [] + r.value == r.value; }
    }
  }

  lemma BehindBehind(a: seq<Placed>, b: seq<Placed>, r: Result<seq<Placed>, HexError>)
    ensures Behind(a, Behind(b, r)) == Behind(a + b, r)
  {
    if r.Ok? { assert a + (b + r.value) == (a + b) + r.value; }
  }

  /** The sparse memory the reader builds. */
  function MemoryOf(ps: seq<Placed>): (mem: seq<Option<Byte>>)
    ensures |mem| == Extent(ps)
  {
    seq(Extent(ps), a requires 0 <= a => Latest(ps, a))
  }

  /** Lay one data record over the memory, growing it first if needed. */
  method Overlay(mem: seq<Option<Byte>>, p: Placed, ghost ps: seq<Placed>) returns (m: seq<Option<Byte>>)
    requires mem == MemoryOf(ps)
    ensures m == MemoryOf(ps + [p])
  {
    m := mem;
    if |m| < p.End() { m := m + Repeat(None, p.End() - |m|); }
    ghost var grown := m;
    BeyondExtent(ps);
    for i := 0 to |p.data|
      invariant |m| == |grown|
      invariant forall a :: 0 <= a < |m| ==>
                  m[a] == if p.addr <= a < p.addr + i then Some(p.data[a - p.addr]) else grown[a]
    {
      m := m[p.addr + i := Some(p.data[i])];
    }
    hide Latest;
    PlacedStep(ps, p);
    forall a | 0 <= a < |m| ensures m[a] == Latest(ps + [p], a) {
      assert grown[a] == Latest(ps, a);
    }
  }

  /** One more data record: it wins where it covers. */
  lemma PlacedStep(ps: seq<Placed>, p: Placed)
    ensures Extent(ps + [p]) == if Extent(ps) < p.End() then p.End() else Extent(ps)
    ensures Lowest(ps + [p]) == if p.addr < Lowest(ps) then p.addr else Lowest(ps)
    ensures forall a: nat :: Latest(ps + [p], a) ==
                             if p.Covers(a) then Some(p.data[a - p.addr]) else Latest(ps, a)
  {
    assert (ps + [p])[..|ps|] == ps;
  }

  lemma {:induction false} BeyondExtent(ps: seq<Placed>)
    ensures forall a: nat :: a >= Extent(ps) ==> Latest(ps, a) == None
  {
    if ps != [] { BeyondExtent(ps[..|ps| - 1]); }
  }

  /** How many cells are still empty. */
  method CountEmpty(mem: seq<Option<Byte>>, ghost ps: seq<Placed>) returns (n: nat)
    requires mem == MemoryOf(ps)
    ensures n == |Gaps(ps)|
  {
    n := 0;
    ghost var seen: set<nat> := {};
    for a := 0 to |mem|
      invariant seen == set x: nat | x < a && mem[x].None?
      invariant n == |seen|
    {
      if mem[a].None? {
        seen := seen + {a};
        n := n + 1;
      }
    }
    forall a: nat ensures Latest(ps, a).None? <==> !Covered(ps, a) { LatestMeans(ps, a); }
    assert seen == Gaps(ps);
  }

  /** The end of the reader: refuse an empty memory, count the gaps, fill them with zeros. */
  method Finish(mem: seq<Option<Byte>>, lowest: U32, sawData: bool, ghost ps: seq<Placed>)
      returns (r: Result<Image, HexError>)
    requires mem == MemoryOf(ps) && lowest == Lowest(ps) && sawData == (ps != [])
    ensures r == ImageOf(ps)
  {
    hide Latest, Lowest, Gaps, Extent;
    if !sawData || |mem| == 0 { return Err(NoData); }
    var gaps := CountEmpty(mem, ps);
    var bytes: seq<Byte> := [];
    for a := 0 to |mem|
      invariant |bytes| == a && forall x :: 0 <= x < a ==> bytes[x] == ByteAt(ps, x)
    {
      bytes := bytes + [if mem[a].Some? then mem[a].value else 0];
    }
    assert bytes == seq(Extent(ps), a requires 0 <= a => ByteAt(ps, a));
    return Ok(Image(bytes, lowest, gaps));
  }

  /** `parse` as written. */
  method Parse(text: string) returns (r: Result<Image, HexError>)
    ensures r == ParseOf(text)
  {
    hide ReadRecord, Latest, Extent, Lowest, Gaps, Lines, Trim;
    if Trim(text) == [] { return Err(Empty); }
    var mem: seq<Option<Byte>> := [];
    var base: Base := 0;
    var lowest: U32 := 0xFFFF_FFFF;
    var sawData := false;
    var lines := Lines(text);
    ghost var ps: seq<Placed> := [];
    NothingPlaced();
    var idx := 0;
    while idx < |lines|
      invariant 0 <= idx <= |lines|
      invariant Gather(lines, 0, 0) == Behind(ps, Gather(lines, idx, base))
      invariant mem == MemoryOf(ps) && lowest == Lowest(ps) && sawData == (ps != [])
    {
      var line := idx + 1;
      var record := ReadRecord(lines[idx], line);
      if record.Err? { return Err(record.error); }
      idx := idx + 1;
      if record.value.None? { continue; }
      var deed := DeedOf(record.value.value, base, line);
      match deed
      case Err(e) => return Err(e);
      case Ok(EndOfFile) =>
        assert ps + [] == ps;
        break;
      case Ok(Ignore) =>
      case Ok(Rebase(b)) => base := b;
      case Ok(Data(p)) =>
        mem := Overlay(mem, p, ps);
        PlacedStep(ps, p);
        if p.addr < lowest { lowest := p.addr; }
        BehindBehind(ps, [p], Gather(lines, idx, base));
        ps := ps + [p];
        sawData := true;
    }
    assert ps + [] == ps;
    assert Gather(lines, 0, 0) == Ok(ps);
    r := Finish(mem, lowest, sawData, ps);
  }
}
