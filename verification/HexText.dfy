/**
  * The text side of the hex reader: what trimming, splitting into lines, hex
  * digits and bytes of text are, each without the recursion that computes it;
  * and that the kind of line ending does not matter.
  */
module HexText {
  import opened Bytes
  import opened IntelHex

  // ------------------------------------------------------------------ trimming

  /** The code points that are white space. */
  const WHITE: set<int> :=
    {0x9, 0xA, 0xB, 0xC, 0xD, 0x20, 0x85, 0xA0, 0x1680, 0x2000, 0x2001, 0x2002, 0x2003, 0x2004, 0x2005, 0x2006, 0x2007,
     0x2008, 0x2009, 0x200A, 0x2028, 0x2029, 0x202F, 0x205F, 0x3000}

  lemma WhiteExactly(c: char)
    ensures IsWhite(c) <==> c as int in WHITE
  {
  }

  predicate AllWhite(s: string) { forall i :: 0 <= i < |s| ==> IsWhite(s[i]) }

  /** `t` is `s` without the white space around it. */
  ghost predicate Core(s: string, t: string) {
    && (t == [] || (!IsWhite(t[0]) && !IsWhite(t[|t| - 1])))
    && exists pre, post :: AllWhite(pre) && AllWhite(post) && s == pre + t + post
  }

  /** Trimming yields the one such core. */
  lemma TrimExactly(s: string, t: string)
    ensures t == Trim(s) <==> Core(s, t)
  {
    TrimIsCore(s);
    if Core(s, t) {
      var pre, post :| AllWhite(pre) && AllWhite(post) && s == pre + t + post;
      TrimAround(pre, t, post);
    }
  }

  lemma CoreMade(pre: string, t: string, post: string)
    requires AllWhite(pre) && AllWhite(post) && (t == [] || (!IsWhite(t[0]) && !IsWhite(t[|t| - 1])))
    ensures Core(pre + t + post, t)
  {
  }

  lemma CoreInFront(c: char, s: string, t: string)
    requires IsWhite(c) && Core(s, t)
    ensures Core([c] + s, t)
  {
    hide IsWhite;
    var pre, post :| AllWhite(pre) && AllWhite(post) && s == pre + t + post;
    CoreMade([c] + pre, t, post);
    assert [c] + (pre + t + post) == ([c] + pre) + t + post;
  }

  lemma CoreBehind(c: char, s: string, t: string)
    requires IsWhite(c) && Core(s, t)
    ensures Core(s + [c], t)
  {
    hide IsWhite;
    var pre, post :| AllWhite(pre) && AllWhite(post) && s == pre + t + post;
    CoreMade(pre, t, post + [c]);
    assert (pre + t + post) + [c] == pre + t + (post + [c]);
  }

  lemma {:induction false} TrimIsCore(s: string)
    ensures Core(s, Trim(s))
    decreases |s|
  {
    hide IsWhite, Core;
    if s == [] || (!IsWhite(s[0]) && !IsWhite(s[|s| - 1])) {
      CoreMade([], s, []);
      assert [] + s + [] == s;
    } else if IsWhite(s[0]) {
      TrimIsCore(s[1..]);
      CoreInFront(s[0], s[1..], Trim(s[1..]));
      assert s == [s[0]] + s[1..];
    } else {
      TrimIsCore(s[..|s| - 1]);
      CoreBehind(s[|s| - 1], s[..|s| - 1], Trim(s[..|s| - 1]));
      assert s == s[..|s| - 1] + [s[|s| - 1]];
    }
  }

  lemma {:induction false} TrimAround(pre: string, t: string, post: string)
    requires AllWhite(pre) && AllWhite(post)
    requires t == [] || (!IsWhite(t[0]) && !IsWhite(t[|t| - 1]))
    ensures Trim(pre + t + post) == t
    decreases |pre| + |post|
  {
    hide IsWhite;
    var s := pre + t + post;
    if pre != [] {
      Behead(pre, t, post);
      TrimAround(pre[1..], t, post);
    } else if post != [] {
      var rest := post[..|post| - 1];
      assert s == t + post;
      if t == [] {
        assert s == post && post[1..] == [] + [] + post[1..];
        TrimAround([], [], post[1..]);
      } else {
        assert s[0] == t[0] && s[|s| - 1] == post[|post| - 1];
        assert s[..|s| - 1] == [] + t + rest;
        TrimAround([], t, rest);
      }
    } else {
      assert s == t;
    }
  }

  /** White space behind a line does not matter. */
  lemma TrimWhiteEnd(s: string, c: char)
    requires IsWhite(c)
    ensures Trim(s + [c]) == Trim(s)
  {
    TrimIsCore(s);
    CoreBehind(c, s, Trim(s));
    TrimExactly(s + [c], Trim(s));
  }

  // --------------------------------------------------------------------- lines

  /** The lines one after the other, each with its newline. */
  function Ended(ls: seq<string>): string {
    if ls == [] then [] else ls[0] + ['\n'] + Ended(ls[1..])
  }

  predicate NewlineFree(s: string) { forall i :: 0 <= i < |s| ==> s[i] != '\n' }

  predicate AllNewlineFree(ls: seq<string>) { forall i :: 0 <= i < |ls| ==> NewlineFree(ls[i]) }

  /** The text with a newline at its end, unless it is empty or has one. */
  function Finished(s: string): string { if s != [] && s[|s| - 1] != '\n' then s + ['\n'] else s }

  /** The lines of a text are the one list of lines without newlines that spells it. */
  lemma LinesExactly(s: string, ls: seq<string>)
    ensures ls == Lines(s) <==> AllNewlineFree(ls) && Ended(ls) == Finished(s)
  {
    LinesSpell(s);
    if AllNewlineFree(ls) && Ended(ls) == Finished(s) { EndedInjective(ls, Lines(s)); }
  }

  lemma {:induction false} LineEndFree(s: string)
    ensures NewlineFree(s[..LineEnd(s)])
  {
    if s != [] && s[0] != '\n' {
      LineEndFree(s[1..]);
      assert s[..LineEnd(s)] == [s[0]] + s[1..][..LineEnd(s[1..])];
    }
  }

  lemma FinishedSplit(x: string, rest: string)
    ensures x + ['\n'] + Finished(rest) == Finished(x + ['\n'] + rest)
  {
    var s := x + ['\n'] + rest;
    assert s[|s| - 1] == if rest == [] then '\n' else rest[|rest| - 1];
  }

  lemma CutAt(s: string, n: nat)
    requires n < |s| && s[n] == '\n'
    ensures s == s[..n] + ['\n'] + s[n + 1..]
  {
  }

  /** The first line, and the others; or the only one. */
  lemma LinesStep(s: string)
    requires s != []
    ensures LineEnd(s) < |s| ==> Lines(s) == [s[..LineEnd(s)]] + Lines(s[LineEnd(s) + 1..])
    ensures LineEnd(s) == |s| ==> Lines(s) == [s]
  {
    LinesIs(s);
    hide Lines, LineEnd;
    if LineEnd(s) == |s| { assert s[..LineEnd(s)] == s && [s] + [] == [s]; }
  }

  lemma LinesIs(s: string)
    requires s != []
    ensures Lines(s) == [s[..LineEnd(s)]] + LinesBehind(s, LineEnd(s))
  {
    hide LineEnd;
  }

  /** The lines behind a newline at `n`. */
  function LinesBehind(s: string, n: nat): seq<string> { if n < |s| then Lines(s[n + 1..]) else [] }

  lemma SpellMore(x: string, ls: seq<string>, rest: string)
    requires NewlineFree(x) && AllNewlineFree(ls) && Ended(ls) == Finished(rest)
    ensures AllNewlineFree([x] + ls) && Ended([x] + ls) == Finished(x + ['\n'] + rest)
  {
    hide Finished, NewlineFree;
    FinishedSplit(x, rest);
    assert ([x] + ls)[1..] == ls;
  }

  lemma SpellLast(s: string)
    requires s != [] && NewlineFree(s)
    ensures AllNewlineFree([s]) && Ended([s]) == Finished(s)
  {
    assert [s][1..] == [] && Ended([]) == [];
    assert s + ['\n'] + [] == s + ['\n'];
  }

  lemma {:induction false} LinesSpell(s: string)
    ensures AllNewlineFree(Lines(s)) && Ended(Lines(s)) == Finished(s)
    decreases |s|
  {
    if s != [] {
      var n := LineEnd(s);
      LineEndFree(s);
      LinesStep(s);
      if n < |s| {
        LinesSpell(s[n + 1..]);
        CutAt(s, n);
        hide *;
        SpellMore(s[..n], Lines(s[n + 1..]), s[n + 1..]);
      } else {
        assert s[..n] == s;
        hide *;
        SpellLast(s);
      }
    }
  }

  lemma {:induction false} EndedInjective(a: seq<string>, b: seq<string>)
    requires AllNewlineFree(a) && AllNewlineFree(b) && Ended(a) == Ended(b)
    ensures a == b
  {
    if a != [] && b != [] {
      FirstLine(a[0], Ended(a[1..]), b[0], Ended(b[1..]));
      EndedInjective(a[1..], b[1..]);
      assert a == [a[0]] + a[1..] && b == [b[0]] + b[1..];
    }
  }

  lemma FirstLine(x: string, xs: string, y: string, ys: string)
    requires NewlineFree(x) && NewlineFree(y) && x + ['\n'] + xs == y + ['\n'] + ys
    ensures x == y && xs == ys
  {
    var s, t := x + ['\n'] + xs, y + ['\n'] + ys;
    assert s[|x|] == '\n' && t[|y|] == '\n';
    forall i | 0 <= i < |x| ensures s[i] != '\n' { assert s[i] == x[i]; }
    forall i | 0 <= i < |y| ensures t[i] != '\n' { assert t[i] == y[i]; }
    assert |x| == |y|;
    assert x == s[..|x|] && y == t[..|y|] && xs == s[|x| + 1..] && ys == t[|y| + 1..];
  }

  // ------------------------------------------------------------- line endings

  /** Every newline with a carriage return in front of it. */
  function CrLf(s: string): string {
    if s == [] then [] else (if s[0] == '\n' then ['\r', '\n'] else [s[0]]) + CrLf(s[1..])
  }

  /** The same lines up to white space around them. */
  predicate SameTrimmed(a: seq<string>, b: seq<string>) {
    |a| == |b| && forall i :: 0 <= i < |a| ==> Trim(a[i]) == Trim(b[i])
  }

  lemma {:induction false} CrLfFirstLine(s: string)
    ensures var n, c := LineEnd(s), CrLf(s);
            if n < |s| then c == s[..n] + ['\r', '\n'] + CrLf(s[n + 1..]) else c == s
  {
    if s != [] {
      if s[0] == '\n' {
        CrLfNewline(s);
      } else {
        var n := LineEnd(s[1..]);
        CrLfFirstLine(s[1..]);
        CrLfStep(s);
        hide *;
        OneMore(s, n);
        if n < |s| - 1 { Regroup([s[0]], s[1..][..n] + ['\r', '\n'], CrLf(s[1..][n + 1..])); }
      }
    }
  }

  lemma CrLfNewline(s: string)
    requires s != [] && s[0] == '\n'
    ensures LineEnd(s) == 0 && CrLf(s) == s[..0] + ['\r', '\n'] + CrLf(s[0 + 1..])
  {
    assert CrLf(s) == ['\r', '\n'] + CrLf(s[1..]);
    hide CrLf;
    assert s[..0] == [] && [] + ['\r', '\n'] == ['\r', '\n'];
  }

  lemma CrLfStep(s: string)
    requires s != [] && s[0] != '\n'
    ensures CrLf(s) == [s[0]] + CrLf(s[1..]) && LineEnd(s) == LineEnd(s[1..]) + 1
  {
  }

  /** The first `n` characters behind the first one. */
  lemma OneMore(s: string, n: nat)
    requires s != [] && n <= |s| - 1
    ensures s == [s[0]] + s[1..]
    ensures s[..n + 1] + ['\r', '\n'] == [s[0]] + (s[1..][..n] + ['\r', '\n'])
    ensures n < |s| - 1 ==> s[n + 2..] == s[1..][n + 1..]
  {
  }

  lemma {:induction false} LineEndAt(x: string, rest: string)
    requires NewlineFree(x)
    ensures LineEnd(x + ['\n'] + rest) == |x|
  {
    if x != [] {
      Behead(x, ['\n'], rest);
      LineEndAt(x[1..], rest);
    }
  }

  lemma LinesSplit(x: string, rest: string)
    requires NewlineFree(x)
    ensures Lines(x + ['\n'] + rest) == [x] + Lines(rest)
  {
    var s := x + ['\n'] + rest;
    LineEndAt(x, rest);
    hide LineEnd;
    assert s[..|x|] == x && s[|x| + 1..] == rest;
  }

  lemma {:induction false} CrLfLines(s: string)
    ensures SameTrimmed(Lines(CrLf(s)), Lines(s))
    decreases |s|
  {
    var n := LineEnd(s);
    CrLfFirstLine(s);
    if n < |s| {
      var x, rest := s[..n], s[n + 1..];
      LineEndFree(s);
      CrLfLines(rest);
      TrimWhiteEnd(x, '\r');
      CutAt(s, n);
      CrLfShape(x, CrLf(rest));
      hide *;
      LinesSplit(x, rest);
      LinesSplit(x + ['\r'], CrLf(rest));
      SameFirst(x, x + ['\r'], Lines(rest), Lines(CrLf(rest)));
    }
  }

  lemma CrLfShape(x: string, rest: string)
    requires NewlineFree(x)
    ensures x + ['\r', '\n'] + rest == (x + ['\r']) + ['\n'] + rest && NewlineFree(x + ['\r'])
  {
  }

  lemma SameFirst(x: string, y: string, xs: seq<string>, ys: seq<string>)
    requires Trim(x) == Trim(y) && SameTrimmed(ys, xs)
    ensures SameTrimmed([y] + ys, [x] + xs)
  {
    hide Trim;
  }

  predicate GathersSame(a: seq<string>, b: seq<string>, i: nat, base: Base)
    requires i <= |a| == |b|
  {
    Gather(a, i, base) == Gather(b, i, base)
  }

  lemma {:induction false} SameGather(a: seq<string>, b: seq<string>, i: nat, base: Base)
    requires SameTrimmed(a, b) && i <= |a|
    ensures GathersSame(a, b, i, base)
    decreases |a| - i
  {
    hide DeedOf, ReadRecord, Trim;
    if i < |a| {
      SameRead(a[i], b[i], i + 1);
      var n := i + 1;
      forall later: Base ensures GathersSame(a, b, n, later) { SameGather(a, b, n, later); }
      SameStep(a, b, i, n, base);
    }
  }

  lemma SameStep(a: seq<string>, b: seq<string>, i: nat, n: nat, base: Base)
    requires i < |a| == |b| && n == i + 1 && ReadRecord(a[i], i + 1) == ReadRecord(b[i], i + 1)
    requires forall later: Base :: GathersSame(a, b, n, later)
    ensures GathersSame(a, b, i, base)
  {
    hide DeedOf, ReadRecord;
    var r := ReadRecord(a[i], i + 1);
    assert GathersSame(a, b, n, base);
    if r.Ok? && r.value.Some? && DeedOf(r.value.value, base, i + 1).Ok?
       && DeedOf(r.value.value, base, i + 1).value.Rebase? {
      assert GathersSame(a, b, n, DeedOf(r.value.value, base, i + 1).value.base);
    }
  }

  lemma SameRead(x: string, y: string, no: nat)
    requires Trim(x) == Trim(y)
    ensures ReadRecord(x, no) == ReadRecord(y, no)
  {
    hide Trim, RecordOf, Utf8, HexOf;
  }

  lemma {:induction false} CrLfBlank(s: string)
    ensures AllWhite(CrLf(s)) <==> AllWhite(s)
  {
    if s != [] {
      CrLfBlank(s[1..]);
      var head := if s[0] == '\n' then ['\r', '\n'] else [s[0]];
      assert CrLf(s) == head + CrLf(s[1..]) && s == [s[0]] + s[1..];
      WhiteConcat(head, CrLf(s[1..]));
      WhiteConcat([s[0]], s[1..]);
      assert AllWhite(head) <==> IsWhite(s[0]) by { if s[0] == '\n' {} else { assert head[0] == s[0]; } }
      assert AllWhite([s[0]]) <==> IsWhite(s[0]) by { assert [s[0]][0] == s[0]; }
    }
  }

  lemma WhiteConcat(a: string, b: string)
    ensures AllWhite(a + b) <==> AllWhite(a) && AllWhite(b)
  {
    hide IsWhite;
    if AllWhite(a + b) {
      forall i | 0 <= i < |a| ensures IsWhite(a[i]) { assert (a + b)[i] == a[i]; }
      forall i | 0 <= i < |b| ensures IsWhite(b[i]) { assert (a + b)[|a| + i] == b[i]; }
    }
  }

  lemma BlankExactly(s: string)
    ensures Trim(s) == [] <==> AllWhite(s)
  {
    TrimIsCore(s);
    hide IsWhite;
    if Trim(s) == [] {
      var pre, post :| AllWhite(pre) && AllWhite(post) && s == pre + [] + post;
      assert s == pre + post;
      WhiteConcat(pre, post);
    }
    if AllWhite(s) {
      assert s == [] + [] + s;
      TrimAround([], [], s);
    }
  }

  /** A file reads the same with either kind of line ending. */
  lemma LineEndingsIrrelevant(text: string)
    ensures ParseOf(CrLf(text)) == ParseOf(text)
  {
    CrLfLines(text);
    CrLfBlank(text);
    BlankExactly(text);
    BlankExactly(CrLf(text));
    SameGather(Lines(CrLf(text)), Lines(text), 0, 0);
    hide Lines, Trim, CrLf, Gather, ImageOf, AllWhite;
  }

  // ------------------------------------------------------------ digits, bytes

  const LOWER: string := "0123456789abcdef"
  const UPPER: string := "0123456789ABCDEF"

  /** The hex digits, in either case. */
  lemma NibbleExactly(c: Byte, v: Byte)
    requires v < 16
    ensures Nibble(c) == Some(v) <==> c as int == LOWER[v] as int || c as int == UPPER[v] as int
  {
  }

  predicate Continues(b: Byte) { 0x80 <= b < 0xC0 }

  /** The UTF-8 bytes of a character: as many as its size wants, and they spell it. */
  lemma Utf8Exactly(c: char)
    ensures var b, n := Utf8Char(c), c as int;
            if n < 0x80 then b == [n]
            else if n < 0x800 then
              && |b| == 2 && 0xC0 <= b[0] < 0xE0 && Continues(b[1])
              && n == Bits(b[0], 0xC0) * 0x40 + Bits(b[1], 0x80)
            else if n < 0x1_0000 then
              && |b| == 3 && 0xE0 <= b[0] < 0xF0 && Continues(b[1]) && Continues(b[2])
              && n == (Bits(b[0], 0xE0) * 0x40 + Bits(b[1], 0x80)) * 0x40 + Bits(b[2], 0x80)
            else
              && |b| == 4 && 0xF0 <= b[0] < 0xF8 && Continues(b[1]) && Continues(b[2]) && Continues(b[3])
              && n == ((Bits(b[0], 0xF0) * 0x40 + Bits(b[1], 0x80)) * 0x40 + Bits(b[2], 0x80)) * 0x40 + Bits(b[3], 0x80)
  {
    var n := c as int;
    SixBits(n);
    SixBits(n / 64);
    SixBits(n / 64 / 64);
    assert n / 4096 == n / 64 / 64 && n / 262144 == n / 64 / 64 / 64;
  }

  /** The bits of a byte beyond its marker. */
  function Bits(b: Byte, marker: int): int { b - marker }

  lemma SixBits(n: nat)
    ensures n == (n / 64) * 64 + n % 64 && 0 <= n % 64 < 64
  {
  }
}
