/**
  * What an accepted Intel HEX file means, and what makes one unacceptable.
  */
module HexTheorems {
  import opened Bytes
  import opened IntelHex

  // ------------------------------------------------------------- the image

  lemma {:induction false} ExtentIsMax(ps: seq<Placed>)
    ensures forall i :: 0 <= i < |ps| ==> ps[i].End() <= Extent(ps)
    ensures Extent(ps) > 0 ==> exists i :: 0 <= i < |ps| && ps[i].End() == Extent(ps)
  {
    if ps != [] {
      var n := |ps| - 1;
      ExtentIsMax(ps[..n]);
      assert forall i :: 0 <= i < n ==> ps[..n][i] == ps[i];
      assert ps[n].End() <= Extent(ps);
    }
  }

  lemma {:induction false} LowestIsMin(ps: seq<Placed>)
    ensures forall i :: 0 <= i < |ps| ==> Lowest(ps) <= ps[i].addr
    ensures ps != [] ==> exists i :: 0 <= i < |ps| && ps[i].addr == Lowest(ps)
  {
    if ps != [] {
      var n := |ps| - 1;
      LowestIsMin(ps[..n]);
      assert forall i :: 0 <= i < n ==> ps[..n][i] == ps[i];
      assert Lowest(ps) <= ps[n].addr;
    }
  }

  /** Byte `a` is what the last record covering it says, or 0 where none does. */
  ghost predicate LastWins(ps: seq<Placed>, a: nat, b: Byte) {
    if Covered(ps, a) then exists i: nat :: LastCover(ps, i, a) && ps[i].data[a - ps[i].addr] == b
    else b == 0
  }

  /** The image, without the fold that computes it. */
  lemma ImageMeaning(ps: seq<Placed>)
    ensures ImageOf(ps).Ok? <==> exists i :: 0 <= i < |ps| && ps[i].End() > 0
    ensures ImageOf(ps).Ok? ==>
              var img := ImageOf(ps).value;
              && (forall i :: 0 <= i < |ps| ==> ps[i].End() <= |img.bytes|)
              && (exists i :: 0 <= i < |ps| && ps[i].End() == |img.bytes|)
              && (forall a :: 0 <= a < |img.bytes| ==> LastWins(ps, a, img.bytes[a]))
              && img.gapBytes == |set a: nat | a < |img.bytes| && !Covered(ps, a)|
              && (forall i :: 0 <= i < |ps| ==> img.lowestAddr <= ps[i].addr)
              && (exists i :: 0 <= i < |ps| && ps[i].addr == img.lowestAddr)
  {
    ExtentIsMax(ps);
    LowestIsMin(ps);
    hide Extent, Lowest, Latest;
    if ImageOf(ps).Ok? {
      var img := ImageOf(ps).value;
      forall a | 0 <= a < |img.bytes| ensures LastWins(ps, a, img.bytes[a]) {
        LatestMeans(ps, a);
        if Latest(ps, a).Some? { LatestCovers(ps, a); }
      }
      assert Gaps(ps) == set a: nat | a < |img.bytes| && !Covered(ps, a);
    }
  }

  lemma LatestCovers(ps: seq<Placed>, a: nat)
    requires Latest(ps, a).Some?
    ensures Covered(ps, a)
  {
    LatestMeans(ps, a);
    var i :| 0 <= i < |ps| && LastCover(ps, i, a);
  }

  // ------------------------------------------------------- order does not matter

  /** Where two records of `ps` overlap, they say the same. */
  ghost predicate Agree(ps: seq<Placed>) {
    forall i, j, a: nat | 0 <= i < |ps| && 0 <= j < |ps| && ps[i].Covers(a) && ps[j].Covers(a) ::
      ps[i].data[a - ps[i].addr] == ps[j].data[a - ps[j].addr]
  }

  predicate SameRecords(ps: seq<Placed>, qs: seq<Placed>) {
    && (forall i :: 0 <= i < |ps| ==> ps[i] in qs)
    && (forall i :: 0 <= i < |qs| ==> qs[i] in ps)
  }

  lemma SameExtent(ps: seq<Placed>, qs: seq<Placed>)
    requires SameRecords(ps, qs)
    ensures Extent(ps) == Extent(qs) && Lowest(ps) == Lowest(qs)
  {
    ExtentIsMax(ps);
    ExtentIsMax(qs);
    LowestIsMin(ps);
    LowestIsMin(qs);
    hide Extent, Lowest;
    if ps != [] { assert ps[0] in qs; }
    if qs != [] { assert qs[0] in ps; }
    assert forall i :: 0 <= i < |ps| ==> ps[i] in qs;
    assert forall i :: 0 <= i < |qs| ==> qs[i] in ps;
  }

  lemma SameLatest(ps: seq<Placed>, qs: seq<Placed>, a: nat)
    requires SameRecords(ps, qs) && Agree(ps)
    ensures Latest(ps, a) == Latest(qs, a) && (Covered(ps, a) <==> Covered(qs, a))
  {
    LatestMeans(ps, a);
    LatestMeans(qs, a);
    hide Latest;
    if i :| 0 <= i < |ps| && ps[i].Covers(a) { assert ps[i] in qs; }
    if i :| 0 <= i < |qs| && qs[i].Covers(a) { assert qs[i] in ps; }
    if Latest(ps, a).Some? && Latest(qs, a).Some? {
      var i :| 0 <= i < |ps| && LastCover(ps, i, a) && ps[i].data[a - ps[i].addr] == Latest(ps, a).value;
      var j :| 0 <= j < |qs| && LastCover(qs, j, a) && qs[j].data[a - qs[j].addr] == Latest(qs, a).value;
      assert qs[j] in ps;
      var k :| 0 <= k < |ps| && ps[k] == qs[j];
    }
  }

  /** Records that agree where they overlap may come in any order, and repeat. */
  lemma OrderIrrelevant(ps: seq<Placed>, qs: seq<Placed>)
    requires SameRecords(ps, qs) && Agree(ps)
    ensures ImageOf(ps) == ImageOf(qs)
  {
    SameExtent(ps, qs);
    hide Extent, Lowest, Latest;
    forall a: nat ensures Latest(ps, a) == Latest(qs, a) && (Covered(ps, a) <==> Covered(qs, a)) {
      SameLatest(ps, qs, a);
    }
    assert Gaps(ps) == Gaps(qs);
    if ps != [] { assert ps[0] in qs; }
    if qs != [] { assert qs[0] in ps; }
    assert seq(Extent(ps), a requires 0 <= a => ByteAt(ps, a)) == seq(Extent(qs), a requires 0 <= a => ByteAt(qs, a));
  }

  ghost predicate PairwiseDisjoint(ps: seq<Placed>) {
    forall i, j, a: nat | 0 <= i < |ps| && 0 <= j < |ps| && ps[i].Covers(a) && ps[j].Covers(a) :: i == j
  }

  /** In particular, any permutation of pairwise disjoint records gives the same image. */
  lemma PermutationIrrelevant(ps: seq<Placed>, qs: seq<Placed>)
    requires multiset(ps) == multiset(qs) && PairwiseDisjoint(ps)
    ensures ImageOf(ps) == ImageOf(qs)
  {
    forall i | 0 <= i < |ps| ensures ps[i] in qs { assert ps[i] in multiset(qs); }
    forall i | 0 <= i < |qs| ensures qs[i] in ps { assert qs[i] in multiset(ps); }
    OrderIrrelevant(ps, qs);
  }

  // ------------------------------------------- which records, at which address

  /** A record is accepted exactly when its count fits its length and all its bytes sum to 0 mod 256. */
  lemma RecordAcceptedExactly(bytes: seq<Byte>, no: nat)
    requires |bytes| >= 5
    ensures RecordOf(bytes, no).Ok? <==> |bytes| == bytes[0] as int + 5 && Total(bytes) % 256 == 0
  {
    SumIsTotal(bytes);
  }

  /** The bytes a string of hex digits stands for. */
  function PairBytes(b: seq<Byte>): seq<Byte>
    requires |b| % 2 == 0 && forall i :: 0 <= i < |b| ==> Nibble(b[i]).Some?
  {
    seq(|b| / 2, i requires 0 <= i < |b| / 2 => 16 * Nibble(b[2 * i]).value + Nibble(b[2 * i + 1]).value)
  }

  /**
    * The general record format: nothing at all, or a colon and at least five
    * bytes in hex whose count fits and whose total is 0 mod 256.
    */
  predicate WellFormed(line: string) {
    var s := Trim(line);
    s == [] ||
    (s[0] == ':' &&
     var body := Utf8(s[1..]);
     && |body| >= 10 && |body| % 2 == 0
     && (forall i :: 0 <= i < |body| ==> Nibble(body[i]).Some?)
     && |body| / 2 == PairBytes(body)[0] as int + 5
     && Total(PairBytes(body)) % 256 == 0)
  }

  lemma HexIsPairs(b: seq<Byte>)
    requires |b| % 2 == 0 && forall i :: 0 <= i < |b| ==> Nibble(b[i]).Some?
    ensures HexOf(b) == Ok(PairBytes(b))
  {
    hide HexOf, Nibble;
    HexDigits(b);
    SameBytes(HexOf(b).value, b);
  }

  lemma SameBytes(v: seq<Byte>, b: seq<Byte>)
    requires |b| % 2 == 0 && forall i :: 0 <= i < |b| ==> Nibble(b[i]).Some?
    requires |v| == |b| / 2 && forall i :: 0 <= i < |v| ==>
               v[i] == 16 * Nibble(b[2 * i]).value + Nibble(b[2 * i + 1]).value
    ensures v == PairBytes(b)
  {
    hide Nibble;
    var w := PairBytes(b);
    assert |w| == |v|;
    forall i | 0 <= i < |v| ensures v[i] == w[i] {}
  }

  /** A line reads exactly when it is in the general record format. */
  lemma ReadsExactly(line: string, no: nat)
    ensures ReadRecord(line, no).Ok? <==> WellFormed(line)
  {
    var s := Trim(line);
    hide Trim;
    if s != [] && s[0] == ':' {
      var body := Utf8(s[1..]);
      hide Utf8, RecordOf, Total, Nibble;
      if |body| >= 10 && |body| % 2 == 0 {
        HexDigits(body);
        if HexOf(body).Ok? {
          HexIsPairs(body);
          RecordAcceptedExactly(HexOf(body).value, no);
        }
        hide HexOf, PairBytes;
      }
    }
  }

  /** The record a well-formed line spells: count, two address bytes, kind, data, checksum; a blank line holds none. */
  function RecordIn(line: string): Option<Record> {
    if WellFormed(line) && Trim(line) != [] then
      var b := PairBytes(Utf8(Trim(line)[1..]));
      Some(Record(Be16(b[1], b[2]), b[3], b[4..|b| - 1]))
    else None
  }

  predicate EndsFile(line: string) { RecordIn(line).Some? && RecordIn(line).value.kind == 1 }

  /** The index of the first end-of-file line from `i` on, or the number of lines. */
  function FileEnd(lines: seq<string>, i: nat): (n: nat)
    requires i <= |lines|
    ensures i <= n <= |lines|
    decreases |lines| - i
  {
    if i == |lines| || EndsFile(lines[i]) then i else FileEnd(lines, i + 1)
  }

  /** The base after a record: set by an extended address, kept by anything else. */
  function NextBase(r: Option<Record>, base: Base): Base {
    if r.Some? && r.value.kind == 2 && |r.value.data| == 2 then Be16(r.value.data[0], r.value.data[1]) * 16
    else if r.Some? && r.value.kind == 4 then 0
    else base
  }

  /** A data record goes to base plus offset; any other line places nothing. */
  function PlacedBy(r: Option<Record>, base: Base): seq<Placed> {
    if r.Some? && r.value.kind == 0 then [Placed(base + r.value.offset, r.value.data)] else []
  }

  /** The base in force at line `n`: set by the latest type-02 or type-04 record above it. */
  function BaseAt(lines: seq<string>, n: nat): Base
    requires n <= |lines|
  {
    if n == 0 then 0 else NextBase(RecordIn(lines[n - 1]), BaseAt(lines, n - 1))
  }

  /** The data records among the first `n` lines, each at the base then in force plus its offset. */
  function DataAbove(lines: seq<string>, n: nat): seq<Placed>
    requires n <= |lines|
  {
    if n == 0 then []
    else DataAbove(lines, n - 1) + PlacedBy(RecordIn(lines[n - 1]), BaseAt(lines, n - 1))
  }

  /** A line that is read is read as the record it spells; line numbers only matter for error messages. */
  lemma RecordAnyLine(line: string, no: nat)
    ensures match ReadRecord(line, no)
            case Ok(r) => RecordIn(line) == r
            case Err(_) => RecordIn(line) == None
  {
    ReadsExactly(line, no);
    if Trim(line) != [] && ReadRecord(line, no).Ok? {
      LineBytesAre(line);
      hide LineBytes, Trim, Utf8, PairBytes, Total, Sum8;
    }
  }

  /** The decoded bytes of a well-formed line are those its digits stand for. */
  lemma LineBytesAre(line: string)
    requires WellFormed(line) && Trim(line) != []
    ensures LineBytes(line) == Some(Ok(PairBytes(Utf8(Trim(line)[1..]))))
  {
    HexIsPairs(Utf8(Trim(line)[1..]));
    hide Trim, Utf8, HexOf, Nibble, Total, PairBytes;
  }

  /** One line of an accepted file. */
  lemma GatherStep(lines: seq<string>, i: nat, base: Base)
    requires i < |lines| && Gather(lines, i, base).Ok?
    ensures if EndsFile(lines[i]) then Gather(lines, i, base) == Ok([])
            else
              var r := RecordIn(lines[i]);
              var more := Gather(lines, i + 1, NextBase(r, base));
              more.Ok? && Gather(lines, i, base) == Ok(PlacedBy(r, base) + more.value)
    ensures forall k :: 0 <= k < |PlacedBy(RecordIn(lines[i]), base)| ==>
                          PlacedBy(RecordIn(lines[i]), base)[k].End() <= 0x1_0000
  {
    RecordAnyLine(lines[i], i + 1);
    var r := RecordIn(lines[i]);
    if r.Some? { DeedPlaces(r.value, base, i + 1); }
    hide ReadRecord, RecordIn, DeedOf;
    var more := Gather(lines, i + 1, NextBase(r, base));
    if more.Ok? { assert [] + more.value == more.value; }
  }

  /** What a record that can be carried out does. */
  lemma DeedPlaces(r: Record, base: Base, no: nat)
    requires DeedOf(r, base, no).Ok?
    ensures var deed := DeedOf(r, base, no).value;
            && (deed.EndOfFile? <==> r.kind == 1)
            && (if deed.Data? then PlacedBy(Some(r), base) == [deed.placed] && deed.placed.End() <= 0x1_0000
                else PlacedBy(Some(r), base) == [])
            && NextBase(Some(r), base) == if deed.Rebase? then deed.base else base
  {
    if |r.data| == 2 { ZeroPair(r.data); }
  }

  /** The records the reader places are the data records above the end of file, at the base then in force. */
  lemma {:induction false} GatherIsData(lines: seq<string>, i: nat)
    requires i <= |lines| && Gather(lines, i, BaseAt(lines, i)).Ok?
    ensures DataAbove(lines, i) + Gather(lines, i, BaseAt(lines, i)).value == DataAbove(lines, FileEnd(lines, i))
    decreases |lines| - i
  {
    hide DataAbove, BaseAt, ReadRecord, DeedOf, EndsFile, RecordIn, NextBase, PlacedBy;
    var here, base := DataAbove(lines, i), BaseAt(lines, i);
    if i == |lines| {
      assert here + [] == here;
    } else {
      GatherStep(lines, i, base);
      AboveStep(lines, i);
      hide *;
      if EndsFile(lines[i]) {
        assert here + [] == here;
      } else {
        var r := RecordIn(lines[i]);
        GatherIsData(lines, i + 1);
        var more := Gather(lines, i + 1, NextBase(r, base)).value;
        assert here + (PlacedBy(r, base) + more) == (here + PlacedBy(r, base)) + more;
      }
    }
  }

  /** The reference definitions, one line further. */
  lemma AboveStep(lines: seq<string>, i: nat)
    requires i < |lines|
    ensures var r, base := RecordIn(lines[i]), BaseAt(lines, i);
            && DataAbove(lines, i + 1) == DataAbove(lines, i) + PlacedBy(r, base)
            && BaseAt(lines, i + 1) == NextBase(r, base)
            && FileEnd(lines, i) == if EndsFile(lines[i]) then i else FileEnd(lines, i + 1)
  {
    hide RecordIn, PlacedBy, NextBase, EndsFile;
  }

  /** Nothing is placed beyond 64 KiB. */
  lemma {:induction false} PlacedInSpace(lines: seq<string>, i: nat, base: Base)
    requires i <= |lines| && Gather(lines, i, base).Ok?
    ensures forall k :: 0 <= k < |Gather(lines, i, base).value| ==>
                          Gather(lines, i, base).value[k].End() <= 0x1_0000
    decreases |lines| - i
  {
    if i < |lines| {
      GatherStep(lines, i, base);
      if !EndsFile(lines[i]) {
        PlacedInSpace(lines, i + 1, NextBase(RecordIn(lines[i]), base));
        hide EndsFile, RecordIn, NextBase, PlacedBy, Gather;
      }
    }
  }

  /** An accepted file is the image of its data records above the end of file. */
  lemma AcceptedFile(text: string)
    requires ParseOf(text).Ok?
    ensures var lines := Lines(text); ParseOf(text) == ImageOf(DataAbove(lines, FileEnd(lines, 0)))
    ensures 0 < |ParseOf(text).value.bytes| <= 0x1_0000
  {
    var lines := Lines(text);
    var ps := Gather(lines, 0, 0).value;
    GatherIsData(lines, 0);
    assert [] + ps == ps;
    PlacedInSpace(lines, 0, 0);
    ImageMeaning(ps);
  }

  // --------------------------------------------------------- what is accepted

  /** A record that can be carried out at `base`: a known kind, within its kind's own limits. */
  predicate Doable(r: Record, base: Base) {
    && r.kind <= 5
    && (r.kind == 0 ==> base + r.offset + |r.data| <= 0x1_0000)
    && (r.kind == 2 ==> |r.data| == 2)
    && (r.kind == 4 ==> r.data == [0, 0])
  }

  /** A well-formed line whose record, if it holds one, can be carried out at `base`. */
  predicate GoodLine(line: string, base: Base) {
    WellFormed(line) && (RecordIn(line).Some? ==> Doable(RecordIn(line).value, base))
  }

  lemma ZeroPair(d: seq<Byte>)
    requires |d| == 2
    ensures d == [0, 0] <==> Be16(d[0], d[1]) == 0
  {
    assert d == [d[0], d[1]];
  }

  /** What the reader does with a record: something exactly when it is doable, and then what its kind says. */
  lemma DeedExactly(r: Record, base: Base, no: nat)
    ensures DeedOf(r, base, no).Ok? <==> Doable(r, base)
    ensures Doable(r, base) ==>
              var deed := DeedOf(r, base, no).value;
              && (deed.EndOfFile? <==> r.kind == 1)
              && NextBase(Some(r), base) == if deed.Rebase? then deed.base else base
  {
    if |r.data| == 2 { ZeroPair(r.data); }
  }

  /** One line of the reader, by cases. */
  lemma GatherUnfolds(lines: seq<string>, i: nat, base: Base)
    requires i < |lines|
    ensures var read := ReadRecord(lines[i], i + 1);
            Gather(lines, i, base).Ok? <==>
              && read.Ok?
              && if read.value.None? then Gather(lines, i + 1, base).Ok?
                 else
                   var deed := DeedOf(read.value.value, base, i + 1);
                   && deed.Ok?
                   && (deed.value.EndOfFile?
                       || Gather(lines, i + 1, if deed.value.Rebase? then deed.value.base else base).Ok?)
  {
    hide ReadRecord, DeedOf;
  }

  lemma GoodLineStep(lines: seq<string>, i: nat, base: Base)
    requires i < |lines|
    ensures Gather(lines, i, base).Ok? <==>
              EndsFile(lines[i]) ||
              (GoodLine(lines[i], base) && Gather(lines, i + 1, NextBase(RecordIn(lines[i]), base)).Ok?)
  {
    RecordAnyLine(lines[i], i + 1);
    ReadsExactly(lines[i], i + 1);
    GatherUnfolds(lines, i, base);
    if RecordIn(lines[i]).Some? { DeedExactly(RecordIn(lines[i]).value, base, i + 1); }
    hide Gather, ReadRecord, RecordIn, WellFormed, DeedOf;
  }

  /** The lines are accepted exactly when every one above the end of file is good at the base then in force. */
  lemma {:induction false} LinesAcceptedExactly(lines: seq<string>, i: nat)
    requires i <= |lines|
    ensures Gather(lines, i, BaseAt(lines, i)).Ok? <==>
            forall k :: i <= k < FileEnd(lines, i) ==> GoodLine(lines[k], BaseAt(lines, k))
    decreases |lines| - i
  {
    hide ReadRecord, RecordIn, DeedOf, EndsFile, GoodLine, NextBase, PlacedBy, BaseAt, DataAbove;
    if i < |lines| {
      GoodLineStep(lines, i, BaseAt(lines, i));
      AboveStep(lines, i);
      hide Gather;
      if !EndsFile(lines[i]) {
        LinesAcceptedExactly(lines, i + 1);
      }
    }
  }

  /** A text is accepted exactly when its lines are, and some data record reaches beyond address 0. */
  lemma AcceptedExactly(text: string)
    ensures var lines := Lines(text);
            var end := FileEnd(lines, 0);
            ParseOf(text).Ok? <==>
              && Trim(text) != []
              && (forall k :: 0 <= k < end ==> GoodLine(lines[k], BaseAt(lines, k)))
              && exists p :: p in DataAbove(lines, end) && p.End() > 0
  {
    var lines := Lines(text);
    AcceptedByParts(text);
    AboveStart(lines);
    hide *;
    LinesAcceptedExactly(lines, 0);
    if Gather(lines, 0, 0).Ok? {
      var ps := Gather(lines, 0, 0).value;
      GatherIsData(lines, 0);
      assert [] + ps == ps;
      ImageExists(ps);
    }
  }

  lemma AcceptedByParts(text: string)
    ensures var g := Gather(Lines(text), 0, 0);
            ParseOf(text).Ok? <==> Trim(text) != [] && g.Ok? && ImageOf(g.value).Ok?
  {
    hide Gather, ImageOf, Lines, Trim;
  }

  lemma AboveStart(lines: seq<string>)
    ensures BaseAt(lines, 0) == 0 && DataAbove(lines, 0) == []
  {
  }

  lemma ImageExists(ps: seq<Placed>)
    ensures ImageOf(ps).Ok? <==> exists p :: p in ps && p.End() > 0
  {
    ImageMeaning(ps);
    hide ImageOf;
    if p :| p in ps && p.End() > 0 { var i :| 0 <= i < |ps| && ps[i] == p; }
    if i :| 0 <= i < |ps| && ps[i].End() > 0 { assert ps[i] in ps; }
  }

  // ----------------------------------------------------------- an empty record

  /** ASCII text is its own bytes. */
  lemma {:induction false} AsciiBytes(s: string)
    requires forall i :: 0 <= i < |s| ==> s[i] as int < 0x80
    ensures |Utf8(s)| == |s| && forall i :: 0 <= i < |s| ==> Utf8(s)[i] == s[i] as int
  {
    if s != [] { AsciiBytes(s[1..]); }
  }

  lemma {:induction false} OneLine(s: string)
    requires forall i :: 0 <= i < |s| ==> s[i] != '\n'
    ensures LineEnd(s) == |s| && (s != [] ==> Lines(s) == [s])
  {
    if s != [] {
      OneLine(s[1..]);
      assert s[..|s|] == s;
    }
  }

  /** A data record without data at address 0x10, with and without its start code. */
  const EMPTY_BODY: string := "00001000F0"
  const EMPTY_AT_16: string := [':'] + EMPTY_BODY

  lemma EmptyRecordBytes()
    ensures |Utf8(EMPTY_BODY)| == 10 && HexOf(Utf8(EMPTY_BODY)) == Ok([0, 0, 16, 0, 240])
  {
    var s := EMPTY_BODY;
    assert |s| == 10 && s[4] == '1' && s[8] == 'F' && forall i :: 0 <= i < 10 && i != 4 && i != 8 ==> s[i] == '0';
    hide EMPTY_BODY, Utf8, HexOf, Nibble;
    AsciiBytes(s);
    EmptyRecordDigits(Utf8(EMPTY_BODY));
  }

  lemma EmptyRecordDigits(b: seq<Byte>)
    requires |b| == 10 && b[4] == 49 && b[8] == 70 && forall i :: 0 <= i < 10 && i != 4 && i != 8 ==> b[i] == 48
    ensures HexOf(b) == Ok([0, 0, 16, 0, 240])
  {
    assert Nibble(48) == Some(0) && Nibble(49) == Some(1) && Nibble(70) == Some(15);
    hide Nibble, HexOf;
    assert forall i :: 0 <= i < 10 ==> Nibble(b[i]).Some?;
    HexDigits(b);
    var v := HexOf(b).value;
    assert |v| == 5 && v[0] == 0 && v[1] == 0 && v[2] == 16 && v[3] == 0 && v[4] == 240;
    assert v == [0, 0, 16, 0, 240];
  }

  lemma EmptyRecordSum()
    ensures Sum8([0, 0, 16, 0, 240]) == 0
  {
    SumIsTotal([0, 0, 16, 0, 240]);
    hide Sum8;
    assert [0, 0, 16, 0, 240][1..] == [0, 16, 0, 240];
    assert [0, 16, 0, 240][1..] == [16, 0, 240];
    assert [16, 0, 240][1..] == [0, 240];
    assert [0, 240][1..] == [240];
    assert Total([240]) == 240;
  }

  lemma EmptyRecordIs(no: nat)
    ensures RecordOf([0, 0, 16, 0, 240], no) == Ok(Record(16, 0, []))
  {
    EmptyRecordSum();
    hide Sum8;
    assert [0, 0, 16, 0, 240][4..4] == [];
  }

  lemma EmptyLine()
    ensures EMPTY_AT_16 != [] && EMPTY_AT_16[0] == ':' && EMPTY_AT_16[1..] == EMPTY_BODY
    ensures Trim(EMPTY_AT_16) == EMPTY_AT_16 && Lines(EMPTY_AT_16) == [EMPTY_AT_16]
  {
    var s := EMPTY_AT_16;
    assert s[0] == ':' && |s| == 11 && s[10] == '0';
    assert forall i :: 0 <= i < |s| ==> s[i] == ':' || s[i] == '0' || s[i] == '1' || s[i] == 'F';
    hide EMPTY_AT_16, EMPTY_BODY, Trim, Lines;
    OneLine(s);
    NotTrimmed(s);
  }

  lemma NotTrimmed(s: string)
    requires s != [] && !IsWhite(s[0]) && !IsWhite(s[|s| - 1])
    ensures Trim(s) == s
  {
  }

  lemma EmptyRecordReads(no: nat)
    ensures ReadRecord(EMPTY_AT_16, no) == Ok(Some(Record(16, 0, [])))
  {
    EmptyLine();
    EmptyRecordBytes();
    EmptyRecordIs(no);
    hide RecordOf, Utf8, HexOf, Trim, Lines;
  }

  /** It alone makes an accepted file, and an image of sixteen zeros that no record wrote. */
  lemma EmptyRecordExtends()
    ensures ParseOf(EMPTY_AT_16).Ok? && ParseOf(EMPTY_AT_16).value.bytes == Repeat(0, 16)
  {
    EmptyLine();
    EmptyRecordReads(1);
    EmptyGathers(EMPTY_AT_16);
    OnlyEmpty();
    hide Lines, Trim, Gather, ImageOf, ReadRecord;
  }

  lemma EmptyGathers(line: string)
    requires ReadRecord(line, 1) == Ok(Some(Record(16, 0, [])))
    ensures Gather([line], 0, 0) == Ok([Placed(16, [])])
  {
    hide ReadRecord;
    assert Gather([line], 1, 0) == Ok([]);
    assert [Placed(16, [])] + [] == [Placed(16, [])];
  }

  lemma OnlyEmpty()
    ensures var ps := [Placed(16, [])]; ImageOf(ps).Ok? && ImageOf(ps).value.bytes == Repeat(0, 16)
  {
    var ps := [Placed(16, [])];
    assert ps[..0] == [] && Extent(ps) == 16;
    forall a: nat ensures ByteAt(ps, a) == 0 { assert Latest(ps[..0], a) == None; }
  }

  // ------------------------------------------------------------- corruption

  /** One changed byte of a good record, be it count, address, type, data or checksum, is always noticed. */
  lemma RecordCorruption(bytes: seq<Byte>, i: nat, v: Byte, no: nat)
    requires |bytes| >= 5 && RecordOf(bytes, no).Ok? && i < |bytes| && v != bytes[i]
    ensures RecordOf(bytes[i := v], no).Err?
  {
    if i > 0 { SumDetectsChange(bytes, i, v); }
  }

  lemma BadLine(line: string, no: nat, base: Base)
    requires ReadRecord(line, no).Err?
    ensures !EndsFile(line) && !GoodLine(line, base)
  {
    RecordAnyLine(line, no);
    ReadsExactly(line, no);
    hide ReadRecord, RecordIn, WellFormed;
  }

  /** A bad line stops the reader, wherever it is above the end of file. */
  lemma {:induction false} BadLineStops(lines: seq<string>, k: nat, i: nat, base: Base)
    requires i <= k < |lines| && ReadRecord(lines[k], k + 1).Err?
    requires forall j :: i <= j < k ==> !EndsFile(lines[j])
    ensures Gather(lines, i, base).Err?
    decreases k - i
  {
    hide *;
    GoodLineStep(lines, i, base);
    if i < k {
      BadLineStops(lines, k, i + 1, NextBase(RecordIn(lines[i]), base));
    } else {
      BadLine(lines[k], k + 1, base);
    }
  }

  /** Change one decoded byte of any good record not below the end of file, and the file is refused. */
  lemma FileCorruption(text: string, corrupt: string, k: nat, i: nat, v: Byte)
    requires k < |Lines(text)| && |Lines(corrupt)| == |Lines(text)|
    requires forall j :: 0 <= j < |Lines(text)| && j != k ==> Lines(corrupt)[j] == Lines(text)[j]
    requires forall j :: 0 <= j < k ==> !EndsFile(Lines(text)[j])
    requires ReadRecord(Lines(text)[k], k + 1).Ok? && LineBytes(Lines(text)[k]).Some?
    requires var b := LineBytes(Lines(text)[k]).value.value;
             i < |b| && v != b[i] && LineBytes(Lines(corrupt)[k]) == Some(Ok(b[i := v]))
    ensures ParseOf(corrupt).Err?
  {
    LineBytesLength(Lines(text)[k]);
    RecordCorruption(LineBytes(Lines(text)[k]).value.value, i, v, k + 1);
    hide LineBytes, RecordOf;
    BadLineStops(Lines(corrupt), k, 0, 0);
  }
}
