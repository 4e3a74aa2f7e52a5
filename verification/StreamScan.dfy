/**
  * What a byte stream means, as one recursive scan over the whole of it.
  *
  * `Scan` is the specification the incremental receiver refines. `Explains`
  * is an independent, declarative reading of a stream; the two coincide.
  */
module StreamScan {
  import opened Bytes
  import opened FrameCodec

  /** One thing that happens to the front of the stream. */
  datatype Event =
    | Emitted(frame: Frame)
    | Faulted(error: FrameError, dropped: Byte)
    | Dropped(dropped: Byte)

  /** The bytes an event accounts for. */
  function Spell(e: Event): seq<Byte> {
    match e
    case Emitted(f) => Encode(f)
    case Faulted(_, b) => [b]
    case Dropped(b) => [b]
  }

  function Spelling(es: seq<Event>): seq<Byte> {
    if es == [] then [] else Spell(es[0]) + Spelling(es[1..])
  }

  /** The frames among `es`, in order. */
  function FramesOf(es: seq<Event>): seq<Frame> {
    if es == [] then []
    else (if es[0].Emitted? then [es[0].frame] else []) + FramesOf(es[1..])
  }

  /** The bytes thrown away by `es`, in order. */
  function Discards(es: seq<Event>): seq<Byte> {
    if es == [] then []
    else (if es[0].Emitted? then [] else [es[0].dropped]) + Discards(es[1..])
  }

  function WireLens(fs: seq<Frame>): nat {
    if fs == [] then 0 else fs[0].WireLen() + WireLens(fs[1..])
  }

  function WireOf(fs: seq<Frame>): seq<Byte> {
    if fs == [] then [] else Encode(fs[0]) + WireOf(fs[1..])
  }

  function Emits(fs: seq<Frame>): seq<Event> {
    if fs == [] then [] else [Emitted(fs[0])] + Emits(fs[1..])
  }

  // ---------------------------------------------------------------- the scan

  predicate PlausibleLen(len: int) { MIN_LEN_FIELD <= len <= MAX_LEN_FIELD }

  datatype Glance = Wait | Act(event: Event)

  /** What the first bytes of `s` call for, or `Wait` if more are needed to tell. */
  function First(s: seq<Byte>): (g: Glance)
    ensures g.Act? ==> Spell(g.event) <= s
  {
    if |s| == 0 then Wait
    else if s[0] != MAGIC_0 then Act(Dropped(s[0]))
    else if |s| < 2 then Wait
    else if s[1] != MAGIC_1 then Act(Dropped(s[0]))
    else if |s| < 5 then Wait
    else if !PlausibleLen(Be16(s[3], s[4])) then Act(Dropped(s[0]))
    else if |s| < Be16(s[3], s[4]) + 2 then Wait
    else match Decode(s[..Be16(s[3], s[4]) + 2])
      case Ok(f) => EncodeDecode(s[..Be16(s[3], s[4]) + 2]); Act(Emitted(f))
      case Err(e) => Act(Faulted(e, s[0]))
  }

  datatype Scanned = Scanned(events: seq<Event>, rest: seq<Byte>) {
    function After(es: seq<Event>): Scanned { Scanned(es + events, rest) }
  }

  function Scan(s: seq<Byte>): Scanned
    decreases |s|
  {
    match First(s)
    case Wait => Scanned([], s)
    case Act(e) =>
      Scan(s[|Spell(e)|..]).After([e])
  }

  datatype Found = Found(frame: Frame, rest: seq<Byte>) | Dry(rest: seq<Byte>)

  /** Skip to the next valid frame, ignoring everything that is not one. */
  function Seek(s: seq<Byte>): Found
    decreases |s|
  {
    match First(s)
    case Wait => Dry(s)
    case Act(Emitted(f)) => Found(f, s[|Encode(f)|..])
    case Act(e) => Seek(s[1..])
  }

  // ---------------------------------------- a declarative reading of a stream

  /** A byte string with a header the receiver believes and exactly the length it announces. */
  predicate Plausible(b: seq<Byte>) {
    && |b| >= 5
    && b[0] == 0x46
    && b[1] == 0xB9
    && 6 <= Be16(b[3], b[4]) <= 1024
    && |b| == Be16(b[3], b[4]) + 2
  }

  /** `s` is a proper prefix of something plausible. */
  ghost predicate Promising(s: seq<Byte>) {
    exists t: seq<Byte> :: t != [] && Plausible(s + t)
  }

  /**
    * Four bytes whose LEN is already too large whatever the fifth byte is. The
    * receiver only looks at LEN once both of its bytes are there.
    */
  predicate Doomed(s: seq<Byte>) {
    |s| == 4 && s[0] == 0x46 && s[1] == 0xB9 && Be16(s[3], 0) > 1024
  }

  ghost predicate Open(s: seq<Byte>) { Promising(s) || Doomed(s) }

  /** The frame `f`, short enough for the receiver, is at the front of `s`. */
  predicate FrameAtFront(f: Frame, s: seq<Byte>) {
    |f.payload| <= 1018 && Encode(f) <= s
  }

  ghost predicate StartsFrame(s: seq<Byte>) {
    exists f :: FrameAtFront(f, s)
  }

  /** `s` begins with a plausible run that fails to decode with error `e`. */
  ghost predicate StartsBadRun(s: seq<Byte>, e: FrameError) {
    exists n :: 0 <= n <= |s| && Plausible(s[..n]) && Decode(s[..n]) == Err(e)
  }

  /** The event `e` is the right thing to say about the front of `s`. */
  ghost predicate Justified(s: seq<Byte>, e: Event) {
    match e
    case Emitted(f) => FrameAtFront(f, s)
    case Faulted(err, b) => s != [] && b == s[0] && StartsBadRun(s, err)
    case Dropped(b) =>
      && s != [] && b == s[0]
      && !Open(s) && !StartsFrame(s)
      && forall err :: !StartsBadRun(s, err)
  }

  /** `r` accounts for the whole of `s`: every event is justified where it stands, and what is left is still open. */
  ghost predicate Explains(s: seq<Byte>, r: Scanned)
    decreases |r.events|
  {
    if r.events == [] then r.rest == s && Open(s)
    else
      && Justified(s, r.events[0])
      && |Spell(r.events[0])| <= |s|
      && Explains(s[|Spell(r.events[0])|..], Scanned(r.events[1..], r.rest))
  }

  // ------------------------------------------------- First against its meaning

  /** A plausible run's length is fixed by the stream it starts. */
  lemma PlausibleLength(s: seq<Byte>, n: nat)
    requires n <= |s| && Plausible(s[..n])
    ensures |s| >= 5 && n == Be16(s[3], s[4]) + 2
  {
  }

  lemma FrameIsPlausible(f: Frame, s: seq<Byte>)
    requires FrameAtFront(f, s)
    ensures Plausible(Encode(f)) && s[..|Encode(f)|] == Encode(f)
    ensures First(s) == Act(Emitted(f))
  {
    var b := Encode(f);
    assert f.LenField() == |f.payload| + 6;
    assert b[3] == f.LenField() / 256 && b[4] == f.LenField() % 256;
    assert Be16(b[3], b[4]) == f.LenField();
    assert forall i :: 0 <= i < |b| ==> s[i] == b[i];
    assert s[..|b|] == b;
    DecodeEncode(f);
  }

  /** A run long enough to be promising, given that the receiver waits. */
  function Completion(s: seq<Byte>): (t: seq<Byte>)
    requires First(s).Wait? && !Doomed(s)
    ensures t != [] && Plausible(s + t)
  {
    if |s| < 5 then
      var head := s + [MAGIC_0, MAGIC_1, 0, 0][Min(|s|, 4)..];
      var low := if head[3] == 0 then 6 else 0;
      var t := [MAGIC_0, MAGIC_1, 0, 0][Min(|s|, 4)..] + [low] + Repeat(0, Be16(head[3], low) - 3);
      assert s + t == head + [low] + Repeat(0, Be16(head[3], low) - 3);
      t
    else
      Repeat(0, Be16(s[3], s[4]) + 2 - |s|)
  }

  /** When the receiver waits: exactly on the open prefixes. */
  lemma WaitsIffOpen(s: seq<Byte>)
    ensures First(s).Wait? <==> Open(s)
  {
    if First(s).Wait? && !Doomed(s) {
      var t := Completion(s);
      assert t != [] && Plausible(s + t);
    }
    if Promising(s) {
      var t: seq<Byte> :| t != [] && Plausible(s + t);
      assert forall i :: 0 <= i < |s| ==> (s + t)[i] == s[i];
    }
  }

  /** A complete plausible run at the front decides the first event. */
  lemma FirstOfCandidate(s: seq<Byte>, n: nat)
    requires n <= |s| && Plausible(s[..n])
    ensures n > 0
    ensures match Decode(s[..n])
            case Ok(f) => First(s) == Act(Emitted(f)) && |Spell(Emitted(f))| == n
            case Err(e) => First(s) == Act(Faulted(e, s[0]))
  {
    PlausibleLength(s, n);
    assert s[..n][0] == s[0] && s[..n][1] == s[1];
    hide Decode, Encode;
    if Decode(s[..n]).Ok? { EncodeDecode(s[..n]); }
  }

  /** What it acted on is there. */
  lemma ActedOn(s: seq<Byte>)
    requires First(s).Act?
    ensures s != []
    ensures var e := First(s).event;
            && (e.Emitted? ==> FrameAtFront(e.frame, s))
            && (e.Faulted? ==> e.dropped == s[0] && StartsBadRun(s, e.error))
            && (e.Dropped? ==> e.dropped == s[0])
  {
    var e := First(s).event;
    if !e.Dropped? {
      var n := Be16(s[3], s[4]) + 2;
      hide Encode, Decode;
      assert Plausible(s[..n]);
      if e.Emitted? {
        EncodeDecode(s[..n]);
        assert e.frame.WireLen() == n;
      }
    }
  }

  /** What the receiver does otherwise is what the stream justifies, and nothing else is justified. */
  lemma ActsIffJustified(s: seq<Byte>, e: Event)
    requires !First(s).Wait?
    ensures First(s) == Act(e) <==> Justified(s, e)
  {
    hide First, Open, Decode, Encode, Plausible;
    WaitsIffOpen(s);
    ActedOn(s);
    forall f | FrameAtFront(f, s) ensures First(s) == Act(Emitted(f)) {
      FrameIsPlausible(f, s);
    }
    forall n | 0 <= n <= |s| && Plausible(s[..n]) && Decode(s[..n]).Err?
      ensures First(s) == Act(Faulted(Decode(s[..n]).error, s[0]))
    {
      FirstOfCandidate(s, n);
    }
  }
}
