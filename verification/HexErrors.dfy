/**
  * Which error a hex text is refused with: that of the first line that is not
  * in order, with that line's number, for the first thing wrong with it.
  */
module HexErrors {
  import opened Bytes
  import opened IntelHex
  import opened HexTheorems

  /** The first character that is not a hex digit. */
  predicate FirstBad(b: seq<Byte>, i: nat) {
    i < |b| && Nibble(b[i]).None? && forall j :: 0 <= j < i ==> Nibble(b[j]).Some?
  }

  predicate AllDigits(b: seq<Byte>) { forall i :: 0 <= i < |b| ==> Nibble(b[i]).Some? }

  lemma {:induction false} HexRefused(b: seq<Byte>)
    requires |b| % 2 == 0
    ensures HexOf(b).Err? ==> exists i: nat :: FirstBad(b, i) && b[i] == HexOf(b).error
  {
    hide Nibble;
    if b != [] {
      var n := |b|;
      var init := b[..n - 2];
      HexRefused(init);
      HexDigits(init);
      if HexOf(init).Err? {
        var i: nat :| FirstBad(init, i) && init[i] == HexOf(init).error;
        assert FirstBad(b, i);
      } else {
        assert forall j :: 0 <= j < n - 2 ==> init[j] == b[j];
        if Nibble(b[n - 2]).None? { assert FirstBad(b, n - 2); }
        else if Nibble(b[n - 1]).None? { assert FirstBad(b, n - 1); }
      }
    }
  }

  /** Hex digits are refused for the first character that is not one. */
  lemma HexRefusedExactly(b: seq<Byte>, c: Byte)
    requires |b| % 2 == 0
    ensures HexOf(b) == Err(c) <==> exists i: nat :: FirstBad(b, i) && b[i] == c
  {
    HexRefused(b);
    HexDigits(b);
    hide HexOf, Nibble, FirstBad;
    if i: nat :| FirstBad(b, i) && b[i] == c {
      FirstBadIsBad(b, i);
      var k: nat :| FirstBad(b, k) && b[k] == HexOf(b).error;
      OneFirstBad(b, i, k);
    }
  }

  lemma FirstBadIsBad(b: seq<Byte>, i: nat)
    requires FirstBad(b, i)
    ensures i < |b| && Nibble(b[i]).None?
  {
  }

  lemma OneFirstBad(b: seq<Byte>, i: nat, k: nat)
    requires FirstBad(b, i) && FirstBad(b, k)
    ensures i == k
  {
    hide Nibble;
  }

  /** What is wrong with a well-formed record at `base`. */
  predicate RecordFlaw(r: Record, no: nat, base: Base, e: HexError) {
    match e
    case AddressTooHigh(n, addr) =>
      n == no && ((r.kind == 0 && addr == base + r.offset && addr + |r.data| > 0x1_0000)
                  || (r.kind == 4 && |r.data| == 2 && addr == Be16(r.data[0], r.data[1]) * 0x1_0000 && addr > 0))
    case BadRecord(n, why) =>
      n == no && ((r.kind == 2 && |r.data| != 2 && why == BadType02Length)
                  || (r.kind == 4 && |r.data| != 2 && why == BadType04Length)
                  || (r.kind > 5 && why == UnsupportedType(r.kind)))
    case _ => false
  }

  lemma RecordRefusedExactly(r: Record, base: Base, no: nat, e: HexError)
    ensures DeedOf(r, base, no) == Err(e) <==> RecordFlaw(r, no, base, e)
  {
  }

  /** What is wrong with the bytes of a record: the count, or the checksum, which should have been `computed`. */
  predicate BytesFlaw(b: seq<Byte>, no: nat, e: HexError)
    requires |b| >= 5
  {
    if |b| != b[0] as int + 5 then e == BadRecord(no, CountMismatch(b[0], |b|))
    else
      && Total(b) % 256 != 0 && e.BadChecksum? && e.line == no && e.got == b[|b| - 1]
      && (Total(b[..|b| - 1]) + e.computed) % 256 == 0
  }

  lemma BytesRefusedExactly(b: seq<Byte>, no: nat, e: HexError)
    requires |b| >= 5
    ensures RecordOf(b, no) == Err(e) <==> BytesFlaw(b, no, e)
  {
    SumIsTotal(b);
    var init, last := b[..|b| - 1], b[|b| - 1];
    assert b == init + [last];
    TotalSnoc(init, last);
    hide Sum8, Total;
    if e.BadChecksum? { OneComplement(Total(init), last, e.computed); }
  }

  lemma OneComplement(x: nat, last: Byte, c: Byte)
    ensures (x + c) % 256 == 0 <==> c == WrappingSub(last, (x + last) % 256)
  {
    AddMod(x, c);
    AddMod(x, last);
    SmallComplement(x % 256, last, c);
  }

  lemma SmallComplement(r: Byte, last: Byte, c: Byte)
    ensures (r + c) % 256 == 0 <==> c == WrappingSub(last, (r + last) % 256)
  {
    assert (r + last) % 256 == if r + last < 256 then r + last else r + last - 256;
  }

  /** The first thing wrong with a line, at `base`. */
  ghost predicate LineFlaw(line: string, no: nat, base: Base, e: HexError) {
    var s := Trim(line);
    s != [] &&
    if s[0] != ':' then e == BadRecord(no, NoStartCode)
    else
      var body := Utf8(s[1..]);
      if |body| < 10 || |body| % 2 != 0 then e == BadRecord(no, Truncated)
      else if !AllDigits(body) then exists i: nat :: FirstBad(body, i) && e == BadRecord(no, NonHex(body[i]))
      else if !WellFormed(line) then BytesFlaw(PairBytes(body), no, e)
      else RecordFlaw(RecordIn(line).value, no, base, e)
  }

  /** Reading a line and then carrying its record out fails for the first thing wrong with it. */
  ghost predicate Refuses(line: string, no: nat, base: Base, e: HexError) {
    var read := ReadRecord(line, no);
    read == Err(e) || (read.Ok? && read.value.Some? && DeedOf(read.value.value, base, no) == Err(e))
  }

  lemma LineRefusedExactly(line: string, no: nat, base: Base, e: HexError)
    ensures Refuses(line, no, base, e) <==> LineFlaw(line, no, base, e)
  {
    ReadsExactly(line, no);
    RecordAnyLine(line, no);
    if RecordIn(line).Some? { RecordRefusedExactly(RecordIn(line).value, base, no, e); }
    if WellFormed(line) {
      WellFormedHasDigits(line);
      hide ReadRecord, WellFormed, RecordIn, DeedOf, RecordFlaw, Trim, Utf8, Nibble;
    } else {
      BadLineRefused(line, no, e);
      hide ReadRecord, WellFormed, RecordIn, DeedOf, RecordFlaw, Trim, Utf8, Nibble, BytesFlaw, PairBytes;
    }
  }

  lemma WellFormedHasDigits(line: string)
    requires WellFormed(line)
    ensures var s := Trim(line);
            s != [] ==> s[0] == ':' && RecordIn(line).Some? &&
                        var body := Utf8(s[1..]); |body| >= 10 && |body| % 2 == 0 && AllDigits(body)
    ensures Trim(line) == [] ==> RecordIn(line).None?
  {
    hide Trim, Utf8, Nibble, PairBytes, Total;
  }

  lemma BadLineRefused(line: string, no: nat, e: HexError)
    requires !WellFormed(line)
    ensures var s := Trim(line);
            s != [] &&
            (ReadRecord(line, no) == Err(e) <==>
              if s[0] != ':' then e == BadRecord(no, NoStartCode)
              else
                var body := Utf8(s[1..]);
                if |body| < 10 || |body| % 2 != 0 then e == BadRecord(no, Truncated)
                else if !AllDigits(body) then exists i: nat :: FirstBad(body, i) && e == BadRecord(no, NonHex(body[i]))
                else BytesFlaw(PairBytes(body), no, e))
  {
    var s := Trim(line);
    hide Trim;
    if s != [] && s[0] == ':' {
      var body := Utf8(s[1..]);
      hide Utf8, Nibble, Total, FirstBad;
      if |body| >= 10 && |body| % 2 == 0 {
        HexDigits(body);
        if AllDigits(body) {
          HexIsPairs(body);
          hide HexOf;
          BytesRefusedExactly(PairBytes(body), no, e);
          hide RecordOf, PairBytes, BytesFlaw;
        } else {
          hide HexOf, RecordOf, PairBytes, BytesFlaw;
          var c := HexOf(body).error;
          HexRefusedExactly(body, c);
          if e.BadRecord? && e.why.NonHex? { HexRefusedExactly(body, e.why.c); }
          assert ReadRecord(line, no) == Err(BadRecord(no, NonHex(c)));
          hide ReadRecord;
        }
      }
    }
  }

  /** One line of a refused file. */
  lemma GatherFails(lines: seq<string>, i: nat, base: Base, e: HexError)
    requires i < |lines|
    ensures Gather(lines, i, base) == Err(e) <==>
              && !EndsFile(lines[i])
              && (LineFlaw(lines[i], i + 1, base, e)
                  || (GoodLine(lines[i], base) && Gather(lines, i + 1, NextBase(RecordIn(lines[i]), base)) == Err(e)))
  {
    LineRefusedExactly(lines[i], i + 1, base, e);
    RecordAnyLine(lines[i], i + 1);
    ReadsExactly(lines[i], i + 1);
    if RecordIn(lines[i]).Some? { DeedExactly(RecordIn(lines[i]).value, base, i + 1); }
    GatherErrs(lines, i, base, e);
    hide Gather, ReadRecord, RecordIn, WellFormed, DeedOf, LineFlaw, NextBase, Doable;
  }

  lemma GatherErrs(lines: seq<string>, i: nat, base: Base, e: HexError)
    requires i < |lines|
    ensures var read := ReadRecord(lines[i], i + 1);
            Gather(lines, i, base) == Err(e) <==>
              || Refuses(lines[i], i + 1, base, e)
              || (read.Ok? && read.value.None? && Gather(lines, i + 1, base) == Err(e))
              || (read.Ok? && read.value.Some? &&
                  var deed := DeedOf(read.value.value, base, i + 1);
                  && deed.Ok? && !deed.value.EndOfFile?
                  && Gather(lines, i + 1, if deed.value.Rebase? then deed.value.base else base) == Err(e))
  {
    hide ReadRecord, DeedOf;
  }

  /** `e` is about the first line that is not in order, and above the end of file. */
  ghost predicate FirstLineFlaw(lines: seq<string>, i: nat, e: HexError)
    requires i <= |lines|
  {
    exists k: nat :: BlameLine(lines, i, k, e)
  }

  ghost predicate BlameLine(lines: seq<string>, i: nat, k: nat, e: HexError)
    requires i <= |lines|
  {
    && i <= k < FileEnd(lines, i)
    && (forall j :: i <= j < k ==> GoodLine(lines[j], BaseAt(lines, j)))
    && LineFlaw(lines[k], k + 1, BaseAt(lines, k), e)
  }

  lemma {:induction false} LinesRefusedExactly(lines: seq<string>, i: nat, e: HexError)
    requires i <= |lines|
    ensures Gather(lines, i, BaseAt(lines, i)) == Err(e) <==> FirstLineFlaw(lines, i, e)
    decreases |lines| - i
  {
    hide RecordIn, EndsFile, GoodLine, NextBase, PlacedBy, BaseAt, DataAbove, LineFlaw;
    if i < |lines| {
      GatherFails(lines, i, BaseAt(lines, i), e);
      AboveStep(lines, i);
      hide Gather;
      if !EndsFile(lines[i]) {
        LinesRefusedExactly(lines, i + 1, e);
        hide FileEnd;
        if FirstLineFlaw(lines, i + 1, e) && GoodLine(lines[i], BaseAt(lines, i)) {
          var k: nat :| BlameLine(lines, i + 1, k, e);
          assert BlameLine(lines, i, k, e);
        }
        if LineFlaw(lines[i], i + 1, BaseAt(lines, i), e) && i < FileEnd(lines, i) {
          assert BlameLine(lines, i, i, e);
        }
        if FirstLineFlaw(lines, i, e) {
          var k: nat :| BlameLine(lines, i, k, e);
          if k > i { assert BlameLine(lines, i + 1, k, e); }
        }
      }
    }
  }

  /**
    * A text is refused as empty when it is blank, for its first bad line when it
    * has one above the end of file, and as holding no data when no record
    * reaches beyond address 0; and for nothing else.
    */
  lemma ParseRefusedExactly(text: string, e: HexError)
    ensures var lines := Lines(text);
            var end := FileEnd(lines, 0);
            ParseOf(text) == Err(e) <==>
              if Trim(text) == [] then e == Empty
              else
                || FirstLineFlaw(lines, 0, e)
                || (&& e == NoData
                    && (forall k :: 0 <= k < end ==> GoodLine(lines[k], BaseAt(lines, k)))
                    && !exists p :: p in DataAbove(lines, end) && p.End() > 0)
  {
    var lines := Lines(text);
    LinesRefusedExactly(lines, 0, e);
    AcceptedExactly(text);
    LinesAcceptedExactly(lines, 0);
    AboveStart(lines);
    ParseErrs(text, e);
    hide *;
  }

  lemma ParseErrs(text: string, e: HexError)
    ensures var g := Gather(Lines(text), 0, 0);
            ParseOf(text) == Err(e) <==>
              if Trim(text) == [] then e == Empty
              else if g.Err? then g == Err(e)
              else e == NoData && ParseOf(text).Err?
  {
    hide Gather, Lines, Trim;
  }
}
