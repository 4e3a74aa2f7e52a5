/**
  * What the scan guarantees: it is the one justified reading of a stream, it
  * conserves every byte, it does not care how the stream is cut into reads, it
  * inverts the encoder, and it finds a frame behind noise.
  */
module StreamTheorems {
  import opened Bytes
  import opened FrameCodec
  import opened StreamScan

  // ------------------------------------------------------- sequences of events

  lemma {:induction false} SpellingConcat(a: seq<Event>, b: seq<Event>)
    ensures Spelling(a + b) == Spelling(a) + Spelling(b)
  {
    hide Spell;
    if a == [] {
      assert a + b == b;
    } else {
      assert (a + b)[1..] == a[1..] + b;
      SpellingConcat(a[1..], b);
      var x := Spell(a[0]);
      assert x + (Spelling(a[1..]) + Spelling(b)) == (x + Spelling(a[1..])) + Spelling(b);
    }
  }

  lemma {:induction false} FramesConcat(a: seq<Event>, b: seq<Event>)
    ensures FramesOf(a + b) == FramesOf(a) + FramesOf(b)
  {
    if a == [] {
      assert a + b == b;
    } else {
      assert (a + b)[1..] == a[1..] + b;
      FramesConcat(a[1..], b);
      var x := if a[0].Emitted? then [a[0].frame] else [];
      assert x + (FramesOf(a[1..]) + FramesOf(b)) == (x + FramesOf(a[1..])) + FramesOf(b);
    }
  }

  lemma {:induction false} DiscardsConcat(a: seq<Event>, b: seq<Event>)
    ensures Discards(a + b) == Discards(a) + Discards(b)
  {
    if a == [] {
      assert a + b == b;
    } else {
      assert (a + b)[1..] == a[1..] + b;
      DiscardsConcat(a[1..], b);
      var x := if a[0].Emitted? then [] else [a[0].dropped];
      assert x + (Discards(a[1..]) + Discards(b)) == (x + Discards(a[1..])) + Discards(b);
    }
  }

  /** One more event at the end. */
  lemma EventSnoc(es: seq<Event>, e: Event)
    ensures Spelling(es + [e]) == Spelling(es) + Spell(e)
    ensures Discards(es + [e]) == Discards(es) + if e.Emitted? then [] else [e.dropped]
  {
    SpellingConcat(es, [e]);
    DiscardsConcat(es, [e]);
    assert [e][1..] == [];
    hide Spell;
    assert Spelling([e]) == Spell(e) + [];
    assert Discards([e]) == (if e.Emitted? then [] else [e.dropped]) + [];
  }

  lemma {:induction false} WireConcat(a: seq<Frame>, b: seq<Frame>)
    ensures WireOf(a + b) == WireOf(a) + WireOf(b)
  {
    if a == [] {
      assert a + b == b;
    } else {
      WireConcat(a[1..], b);
      WireUncons(a, b);
      hide *;
      Regroup(Encode(a[0]), WireOf(a[1..]), WireOf(b));
    }
  }

  lemma WireUncons(a: seq<Frame>, b: seq<Frame>)
    requires a != []
    ensures WireOf(a) == Encode(a[0]) + WireOf(a[1..])
    ensures WireOf(a + b) == Encode(a[0]) + WireOf(a[1..] + b)
  {
    assert (a + b)[0] == a[0] && (a + b)[1..] == a[1..] + b;
    hide Encode;
  }

  /** Bytes accounted for are either thrown away or inside a frame. */
  lemma {:induction false} EventBytesSplit(es: seq<Event>)
    ensures |Spelling(es)| == |Discards(es)| + WireLens(FramesOf(es))
  {
    if es != [] {
      EventBytesSplit(es[1..]);
      var tail := FramesOf(es[1..]);
      if es[0].Emitted? {
        assert FramesOf(es) == [es[0].frame] + tail;
        assert ([es[0].frame] + tail)[1..] == tail;
        assert |Spell(es[0])| == es[0].frame.WireLen();
      } else {
        assert FramesOf(es) == tail;
      }
    }
  }

  lemma {:induction false} EmitsFrames(fs: seq<Frame>)
    ensures FramesOf(Emits(fs)) == fs && Discards(Emits(fs)) == []
  {
    if fs != [] { EmitsFrames(fs[1..]); }
  }

  // ------------------------------------------------------------- what Scan is

  lemma SpellFits(s: seq<Byte>)
    requires First(s).Act?
    ensures 0 < |Spell(First(s).event)| <= |s| && s == Spell(First(s).event) + s[|Spell(First(s).event)|..]
  {
    hide First, Encode;
  }

  /** One step of the scan. */
  lemma ScanStep(s: seq<Byte>)
    requires First(s).Act?
    ensures var e := First(s).event;
            var r := Scan(s[|Spell(e)|..]);
            Scan(s) == r.After([e]) && Scan(s).events == [e] + r.events && Scan(s).rest == r.rest
  {
    hide First;
  }

  /** Nothing is lost, reordered or invented. */
  lemma {:induction false} ScanConserves(s: seq<Byte>)
    ensures Spelling(Scan(s).events) + Scan(s).rest == s
    decreases |s|
  {
    if First(s).Act? {
      var e := First(s).event;
      var t := s[|Spell(e)|..];
      SpellFits(s);
      ScanStep(s);
      ScanConserves(t);
      assert Spelling(Scan(s).events) == Spell(e) + Spelling(Scan(t).events) by {
        assert Scan(s).events[1..] == Scan(t).events;
      }
    }
  }

  /** The scan is the one and only justified reading of the stream. */
  lemma {:induction false} ScanIsTheReading(s: seq<Byte>, r: Scanned)
    ensures Explains(s, r) <==> r == Scan(s)
    decreases |s|
  {
    WaitsIffOpen(s);
    if First(s).Wait? {
      if r.events != [] { NothingJustifiedWhileOpen(s, r.events[0]); }
    } else {
      var e := First(s).event;
      ActsIffJustified(s, e);
      assert Scan(s).events[0] == e;
      if r.events != [] {
        ActsIffJustified(s, r.events[0]);
        if r.events[0] == e {
          var tail := Scanned(r.events[1..], r.rest);
          ScanIsTheReading(s[|Spell(e)|..], tail);
          assert r.events == [e] + tail.events;
        }
      }
    }
  }

  lemma NothingJustifiedWhileOpen(s: seq<Byte>, e: Event)
    requires First(s).Wait?
    ensures !Justified(s, e)
  {
    WaitsIffOpen(s);
    if StartsFrame(s) {
      var f :| FrameAtFront(f, s);
      FrameIsPlausible(f, s);
    }
    if n: nat :| n <= |s| && Plausible(s[..n]) {
      PlausibleLength(s, n);
      assert false;
    }
  }

  // ----------------------------------------------------- chunking independence

  lemma AfterAfter(r: Scanned, a: seq<Event>, b: seq<Event>)
    ensures r.After(b).After(a) == r.After(a + b)
  {
    assert a + (b + r.events) == (a + b) + r.events;
  }

  /** More input never changes a decision already taken. */
  lemma FirstStable(s: seq<Byte>, t: seq<Byte>)
    requires First(s).Act?
    ensures First(s + t) == First(s)
  {
    assert forall i :: 0 <= i < |s| ==> (s + t)[i] == s[i];
    if |s| >= 5 && s[0] == MAGIC_0 && s[1] == MAGIC_1 && PlausibleLen(Be16(s[3], s[4])) {
      assert (s + t)[..Be16(s[3], s[4]) + 2] == s[..Be16(s[3], s[4]) + 2];
    }
  }

  /** Scanning what has arrived and then going on from what was left is scanning it all at once. */
  lemma {:induction false} ScanConcat(s: seq<Byte>, t: seq<Byte>)
    ensures Scan(s + t) == Scan(Scan(s).rest + t).After(Scan(s).events)
    decreases |s|
  {
    if First(s).Act? {
      hide *;
      FirstStable(s, t);
      var e := First(s).event;
      SpellFits(s);
      var u := s[|Spell(e)|..];
      assert (s + t)[|Spell(e)|..] == u + t;
      ScanStep(s);
      ScanStep(s + t);
      ScanConcat(u, t);
      AfterAfter(Scan(Scan(u).rest + t), [e], Scan(u).events);
    } else {
      hide First;
      assert Scan(s) == Scanned([], s);
      assert [] + Scan(s + t).events == Scan(s + t).events;
    }
  }

  /** What the scan leaves over is open, so scanning it again changes nothing. */
  lemma {:induction false} ScanRestWaits(s: seq<Byte>)
    ensures First(Scan(s).rest).Wait? && Scan(Scan(s).rest) == Scanned([], Scan(s).rest)
    decreases |s|
  {
    if First(s).Act? { ScanRestWaits(s[|Spell(First(s).event)|..]); }
  }

  /**
    * For any cut of a stream into reads, resuming after each read reports what
    * one scan of the whole reports.
    */
  function ScanChunks(chunks: seq<seq<Byte>>, pending: seq<Byte>): Scanned {
    if chunks == [] then Scanned([], pending)
    else
      var here := Scan(pending + chunks[0]);
      ScanChunks(chunks[1..], here.rest).After(here.events)
  }

  lemma ChunksStep(chunks: seq<seq<Byte>>, pending: seq<Byte>)
    requires chunks != []
    ensures var here := Scan(pending + chunks[0]);
            ScanChunks(chunks, pending) == ScanChunks(chunks[1..], here.rest).After(here.events)
    ensures Flatten(chunks) == chunks[0] + Flatten(chunks[1..])
  {
    hide Scan;
  }

  lemma {:induction false} ChunkingIndependence(chunks: seq<seq<Byte>>, pending: seq<Byte>)
    requires First(pending).Wait?
    ensures ScanChunks(chunks, pending) == Scan(pending + Flatten(chunks))
    decreases |chunks|
  {
    if chunks == [] {
      hide First;
      assert pending + Flatten(chunks) == pending;
    } else {
      hide *;
      var s, more := pending + chunks[0], Flatten(chunks[1..]);
      ChunksStep(chunks, pending);
      ScanRestWaits(s);
      ChunkingIndependence(chunks[1..], Scan(s).rest);
      ScanConcat(s, more);
      Regroup(pending, chunks[0], more);
    }
  }

  // ------------------------------------------------------------- what is found

  predicate Short(fs: seq<Frame>) { forall i :: 0 <= i < |fs| ==> |fs[i].payload| <= 1018 }

  /** Stream round trip, in front of any further input. */
  lemma {:induction false} StreamRoundTrip(fs: seq<Frame>, tail: seq<Byte>)
    requires Short(fs)
    ensures Scan(WireOf(fs) + tail) == Scan(tail).After(Emits(fs))
    decreases |fs|
  {
    if fs == [] {
      assert WireOf(fs) + tail == tail && [] + Scan(tail).events == Scan(tail).events;
    } else {
      hide *;
      var s := WireOf(fs) + tail;
      WireStep(fs, tail);
      ScanStep(s);
      StreamRoundTrip(fs[1..], tail);
      AfterAfter(Scan(tail), [Emitted(fs[0])], Emits(fs[1..]));
    }
  }

  /** An encoded frame at the front is the first thing reported. */
  lemma FrameFirst(f: Frame, s: seq<Byte>, more: seq<Byte>)
    requires |f.payload| <= 1018 && s == Encode(f) + more
    ensures First(s) == Act(Emitted(f)) && |Spell(Emitted(f))| <= |s| && s[|Spell(Emitted(f))|..] == more
  {
    hide First, Encode;
    FrameIsPlausible(f, s);
    DropFront(s, Encode(f), more);
  }

  lemma WireStep(fs: seq<Frame>, tail: seq<Byte>)
    requires fs != [] && |fs[0].payload| <= 1018
    ensures var s := WireOf(fs) + tail;
            && First(s) == Act(Emitted(fs[0])) && |Spell(Emitted(fs[0]))| <= |s|
            && s[|Spell(Emitted(fs[0]))|..] == WireOf(fs[1..]) + tail
    ensures Emits(fs) == [Emitted(fs[0])] + Emits(fs[1..])
  {
    WireUncons(fs, []);
    hide First, Encode, WireOf, Spell;
    Regroup(Encode(fs[0]), WireOf(fs[1..]), tail);
    FrameFirst(fs[0], WireOf(fs) + tail, WireOf(fs[1..]) + tail);
  }

  /** Nothing that starts inside the first `n` bytes of `s` is a frame or still undecided. */
  ghost predicate NoFrameWithin(s: seq<Byte>, n: nat) {
    forall k :: 0 <= k < n && k <= |s| ==> !StartsFrame(s[k..]) && !Open(s[k..])
  }

  ghost predicate OnlyNoise(es: seq<Event>) {
    forall i :: 0 <= i < |es| ==> !es[i].Emitted?
  }

  /** `r` throws away exactly `noise`, byte by byte, then reports `f`, then goes on as `after`. */
  ghost predicate Shows(r: Scanned, noise: seq<Byte>, f: Frame, after: Scanned) {
    var n := |noise|;
    && |r.events| > n
    && OnlyNoise(r.events[..n]) && Discards(r.events[..n]) == noise
    && r.events[n] == Emitted(f)
    && after == Scanned(r.events[n + 1..], r.rest)
  }

  /** The scan throws away the noise, reports the frame, and reads on behind it. */
  ghost predicate Recovers(noise: seq<Byte>, f: Frame, tail: seq<Byte>) {
    Shows(Scan(noise + Encode(f) + tail), noise, f, Scan(tail))
  }

  /** The exact condition for recovering a frame behind arbitrary noise. */
  lemma {:induction false} RecoversIff(noise: seq<Byte>, f: Frame, tail: seq<Byte>)
    requires |f.payload| <= 1018
    ensures Recovers(noise, f, tail) <==> NoFrameWithin(noise + Encode(f) + tail, |noise|)
    decreases |noise|
  {
    hide First, Open, Scan, Encode, Shows, StartsFrame, Spell;
    if noise == [] {
      RecoversNow(f, tail);
      assert [] + Encode(f) == Encode(f);
    } else {
      hide NoFrameWithin;
      var s, s1 := noise + Encode(f) + tail, noise[1..] + Encode(f) + tail;
      Behead(noise, Encode(f), tail);
      RecoversIff(noise[1..], f, tail);
      StepsOverNoise(s);
      NoFrameShift(s, |noise|);
      if First(s).Act? && !First(s).event.Emitted? {
        NoiseStep(s);
        ShowsShift(First(s).event, Scan(s1), noise, f, Scan(tail));
      } else {
        ShowsNothing(s, noise, f, Scan(tail));
      }
    }
  }

  /** With no noise in front, the frame is reported at once. */
  lemma RecoversNow(f: Frame, tail: seq<Byte>)
    requires |f.payload| <= 1018
    ensures Shows(Scan(Encode(f) + tail), [], f, Scan(tail))
  {
    hide First, Encode, Spell, Scan;
    var s := Encode(f) + tail;
    FrameFirst(f, s, tail);
    ScanStep(s);
    assert Scan(s).events[..0] == [] && Scan(s).events[1..] == Scan(tail).events;
  }

  /** One byte thrown away, as the scan reports it. */
  lemma NoiseStep(s: seq<Byte>)
    requires First(s).Act? && !First(s).event.Emitted?
    ensures s != [] && First(s).event.dropped == s[0]
    ensures Scan(s) == Scanned([First(s).event] + Scan(s[1..]).events, Scan(s[1..]).rest)
  {
    SpellFits(s);
    ScanStep(s);
    hide First, Scan;
  }

  lemma ShowsShift(e: Event, r: Scanned, noise: seq<Byte>, f: Frame, after: Scanned)
    requires !e.Emitted? && noise != [] && e.dropped == noise[0]
    ensures Shows(Scanned([e] + r.events, r.rest), noise, f, after) <==> Shows(r, noise[1..], f, after)
  {
    var es, n := [e] + r.events, |noise|;
    if |r.events| >= n {
      var a, b := es[..n], r.events[..n - 1];
      assert a == [e] + b && es[n + 1..] == r.events[n..] && es[n] == r.events[n - 1];
      assert a[1..] == b && Discards(a) == [noise[0]] + Discards(b);
      assert noise == [noise[0]] + noise[1..];
      hide Discards;
      assert Discards(a) == noise <==> Discards(b) == noise[1..] by {
        DropFront(Discards(a), [noise[0]], Discards(b));
        DropFront(noise, [noise[0]], noise[1..]);
      }
      forall i | 0 <= i < |b| ensures a[i + 1] == b[i] {}
    }
  }

  /** Where the scan does not throw a byte away, it does not recover from noise. */
  lemma ShowsNothing(s: seq<Byte>, noise: seq<Byte>, f: Frame, after: Scanned)
    requires noise != [] && !(First(s).Act? && !First(s).event.Emitted?)
    ensures !Shows(Scan(s), noise, f, after)
  {
    hide First, Spell;
    if First(s).Act? {
      ScanStep(s);
      hide Scan;
      assert |Scan(s).events| > |noise| ==> Scan(s).events[..|noise|][0] == First(s).event;
    }
  }

  /** One byte is thrown away exactly when neither a frame nor an undecided run starts there. */
  lemma StepsOverNoise(s: seq<Byte>)
    ensures (First(s).Act? && !First(s).event.Emitted?) <==> !StartsFrame(s) && !Open(s)
  {
    WaitsIffOpen(s);
    if StartsFrame(s) {
      var f :| FrameAtFront(f, s);
      FrameIsPlausible(f, s);
    }
    if First(s).Act? && First(s).event.Emitted? {
      ActsIffJustified(s, First(s).event);
      assert FrameAtFront(First(s).event.frame, s);
    }
  }

  lemma NoFrameShift(s: seq<Byte>, n: nat)
    requires 0 < n <= |s|
    ensures NoFrameWithin(s, n) <==> !StartsFrame(s) && !Open(s) && NoFrameWithin(s[1..], n - 1)
  {
    assert s[0..] == s;
    forall k | 0 <= k < n - 1 ensures s[1..][k..] == s[k + 1..] {}
    if !StartsFrame(s) && !Open(s) && NoFrameWithin(s[1..], n - 1) {
      forall k | 0 <= k < n && k <= |s| ensures !StartsFrame(s[k..]) && !Open(s[k..]) {
        if k > 0 { assert s[1..][k - 1..] == s[k..]; }
      }
    }
    if NoFrameWithin(s, n) {
      forall k | 0 <= k < n - 1 && k <= |s[1..]|
        ensures !StartsFrame(s[1..][k..]) && !Open(s[1..][k..])
      {
        assert s[1..][k..] == s[k + 1..];
      }
    }
  }

  /**
    * Resynchronisation past false magics: with 1025 bytes behind the noise, no
    * run that starts in the noise can still be undecided.
    */
  lemma Resynchronises(noise: seq<Byte>, f: Frame, tail: seq<Byte>)
    requires |f.payload| <= 1018
    requires |Encode(f) + tail| >= 1025
    requires forall k :: 0 <= k < |noise| ==> !StartsFrame((noise + Encode(f) + tail)[k..])
    ensures Recovers(noise, f, tail)
  {
    var s := noise + Encode(f) + tail;
    forall k | 0 <= k < |noise| ensures !Open(s[k..]) {
      if Open(s[k..]) { OpenIsShort(s[k..]); assert false; }
    }
    RecoversIff(noise, f, tail);
  }

  /** Bounded latency: what is held back starts like a frame and is at most 1025 bytes. */
  lemma OpenIsShort(s: seq<Byte>)
    requires Open(s)
    ensures |s| <= 1025
    ensures s != [] ==> s[0] == 0x46
  {
    WaitsIffOpen(s);
  }

  predicate NoMagic(noise: seq<Byte>) {
    forall i :: 0 <= i < |noise| - 1 ==> !(noise[i] == 0x46 && noise[i + 1] == 0xB9)
  }

  /** Noise without an adjacent magic pair never delays the frame behind it, whatever follows. */
  lemma MagicFreeNoise(noise: seq<Byte>, f: Frame, tail: seq<Byte>)
    requires |f.payload| <= 1018 && NoMagic(noise)
    ensures Recovers(noise, f, tail)
  {
    var s := noise + Encode(f) + tail;
    forall k | 0 <= k < |noise| ensures !StartsFrame(s[k..]) && !Open(s[k..]) {
      var u := s[k..];
      assert |u| >= 2 && u[0] == noise[k];
      assert k + 1 < |noise| ==> u[1] == noise[k + 1];
      assert k + 1 == |noise| ==> u[1] == Encode(f)[0];
      assert First(u) == Act(Dropped(u[0]));
      StepsOverNoise(u);
    }
    RecoversIff(noise, f, tail);
  }

  /**
    * What is waited on is the beginning of something plausible, with one exact
    * exception: four bytes of header whose LEN is already out of range.
    */
  lemma PromisingExactly(s: seq<Byte>)
    ensures Promising(s) <==> First(s).Wait? && !Doomed(s)
  {
    WaitsIffOpen(s);
    forall t: seq<Byte> | t != [] && Doomed(s) ensures !Plausible(s + t) {
      assert (s + t)[3] == s[3];
    }
  }

  /** Such a header: it is held back although no continuation of it can be a frame. */
  lemma DoomedHeaderWaits()
    ensures First([0x46, 0xB9, 0x6A, 0xFF]).Wait? && !Promising([0x46, 0xB9, 0x6A, 0xFF])
  {
    PromisingExactly([0x46, 0xB9, 0x6A, 0xFF]);
  }

  // ------------------------------------------------------------------- seeking

  /** `Seek` is the scan up to its first frame. */
  lemma {:induction false} SeekIsScan(s: seq<Byte>)
    ensures Seek(s).Dry? ==> Seek(s).rest == Scan(s).rest && FramesOf(Scan(s).events) == []
    ensures Seek(s).Found? ==>
              && FramesOf(Scan(s).events) == [Seek(s).frame] + FramesOf(Scan(Seek(s).rest).events)
              && Scan(s).rest == Scan(Seek(s).rest).rest
    ensures |Seek(s).rest| <= |s|
    decreases |s|
  {
    if First(s).Act? && !First(s).event.Emitted? { SeekIsScan(s[1..]); }
  }

  /** Finding a frame does not depend on what arrives after it; running dry can be resumed. */
  lemma {:induction false} SeekStable(s: seq<Byte>, t: seq<Byte>)
    ensures match Seek(s)
            case Found(f, rest) => Seek(s + t) == Found(f, rest + t)
            case Dry(rest) => Seek(s + t) == Seek(rest + t)
    decreases |s|
  {
    if First(s).Act? {
      FirstStable(s, t);
      var e := First(s).event;
      assert (s + t)[|Spell(e)|..] == s[|Spell(e)|..] + t;
      if !e.Emitted? { SeekStable(s[1..], t); }
    }
  }

  /** Behind recoverable noise, seeking finds the frame and leaves the tail. */
  lemma {:induction false} SeekRecovers(noise: seq<Byte>, f: Frame, tail: seq<Byte>)
    requires |f.payload| <= 1018
    requires NoFrameWithin(noise + Encode(f) + tail, |noise|)
    ensures Seek(noise + Encode(f) + tail) == Found(f, tail)
    decreases |noise|
  {
    var s := noise + Encode(f) + tail;
    if noise == [] {
      FrameIsPlausible(f, s);
      assert s[|Encode(f)|..] == tail;
    } else {
      assert s[0..] == s;
      StepsOverNoise(s);
      assert s[1..] == noise[1..] + Encode(f) + tail;
      NoFrameShift(s, |noise|);
      SeekRecovers(noise[1..], f, tail);
    }
  }
}
