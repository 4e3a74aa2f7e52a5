/**
  * The resynchronising byte-stream receiver: an object fed in arbitrary
  * pieces and asked for frames at arbitrary moments. Its ghost history ties
  * every reachable state to one scan of everything it was ever fed.
  */
module StreamReceiver {
  import opened Bytes
  import opened FrameCodec
  import opened StreamScan
  import opened StreamTheorems

  datatype Hunted = NeedMore | Advanced | Candidate(n: nat)

  /** Only bytes thrown away without a report. */
  predicate AllDropped(es: seq<Event>) {
    forall i :: 0 <= i < |es| ==> es[i].Dropped?
  }

  /** What a caller hears of an event. */
  function Report(e: Event): Option<Result<Frame, FrameError>> {
    match e
    case Emitted(f) => Some(Ok(f))
    case Faulted(err, _) => Some(Err(err))
    case Dropped(_) => None
  }

  /** Everything a caller hears of a run of events, in order. */
  function Reports(es: seq<Event>): seq<Result<Frame, FrameError>> {
    if es == [] then []
    else (if Report(es[0]).Some? then [Report(es[0]).value] else []) + Reports(es[1..])
  }

  /** `es` extends `es0` by silently dropped bytes only, and `d` extends `d0` by exactly those bytes. */
  predicate SkipsOnly(es0: seq<Event>, es: seq<Event>, d0: seq<Byte>, d: seq<Byte>) {
    && es0 <= es
    && AllDropped(es[|es0|..])
    && d == d0 + Discards(es[|es0|..])
  }

  lemma SkipsTrans(es0: seq<Event>, es1: seq<Event>, es2: seq<Event>,
                    d0: seq<Byte>, d1: seq<Byte>, d2: seq<Byte>)
    requires SkipsOnly(es0, es1, d0, d1) && SkipsOnly(es1, es2, d1, d2)
    ensures SkipsOnly(es0, es2, d0, d2)
  {
    hide Discards;
    var a, b := es1[|es0|..], es2[|es1|..];
    assert es2[|es0|..] == a + b;
    DiscardsConcat(a, b);
    assert d0 + (Discards(a) + Discards(b)) == (d0 + Discards(a)) + Discards(b);
  }

  lemma SkipsOne(es: seq<Event>, d: seq<Byte>, b: Byte)
    ensures SkipsOnly(es, es + [Dropped(b)], d, d + [b])
  {
    assert (es + [Dropped(b)])[|es|..] == [Dropped(b)];
    assert Discards([Dropped(b)]) == [b];
  }

  /** `events`, then a scan of `buf`, is the scan of `fed`; and no byte of `fed` is lost. */
  ghost predicate Reading(fed: seq<Byte>, events: seq<Event>, buf: seq<Byte>) {
    Scan(fed) == Scan(buf).After(events) && Spelling(events) + buf == fed
  }

  lemma FeedKeepsReading(fed: seq<Byte>, events: seq<Event>, buf: seq<Byte>, more: seq<Byte>)
    requires Reading(fed, events, buf)
    ensures Reading(fed + more, events, buf + more)
  {
    hide Scan, Spelling;
    ScanConcat(fed, more);
    ScanConcat(buf, more);
    AfterAfter(Scan(Scan(buf).rest + more), events, Scan(buf).events);
    assert Spelling(events) + (buf + more) == (Spelling(events) + buf) + more;
  }

  lemma EventKeepsReading(fed: seq<Byte>, events: seq<Event>, buf: seq<Byte>, e: Event)
    requires Reading(fed, events, buf) && First(buf) == Act(e)
    ensures |Spell(e)| <= |buf| && Reading(fed, events + [e], buf[|Spell(e)|..])
    ensures Discards(events + [e]) == Discards(events) + if e.Emitted? then [] else [e.dropped]
  {
    hide First, Scan, Spelling, Discards, Spell;
    SpellFits(buf);
    ScanStep(buf);
    EventSnoc(events, e);
    var rest := buf[|Spell(e)|..];
    AfterAfter(Scan(rest), events, [e]);
    assert Spelling(events) + (Spell(e) + rest) == (Spelling(events) + Spell(e)) + rest;
  }

  /** And keeps the collected and the discarded bytes equal to all discards. */
  lemma EventSettles(fed: seq<Byte>, events: seq<Event>, buf: seq<Byte>, e: Event, taken: seq<Byte>, d: seq<Byte>)
    requires Reading(fed, events, buf) && First(buf) == Act(e) && taken + d == Discards(events)
    ensures |Spell(e)| <= |buf| && Reading(fed, events + [e], buf[|Spell(e)|..])
    ensures taken + (d + if e.Emitted? then [] else [e.dropped]) == Discards(events + [e])
  {
    hide *;
    EventKeepsReading(fed, events, buf, e);
    Regroup(taken, d, if e.Emitted? then [] else [e.dropped]);
  }

  /** While the receiver waits, its history is the whole scan. */
  lemma WaitingReading(fed: seq<Byte>, events: seq<Event>, buf: seq<Byte>)
    requires Reading(fed, events, buf) && First(buf).Wait?
    ensures Open(buf) && Scan(fed) == Scanned(events, buf) && Seek(buf) == Dry(buf)
  {
    WaitsIffOpen(buf);
    assert Scan(buf) == Scanned([], buf);
    assert events + [] == events;
  }

  lemma SeekStep(s: seq<Byte>)
    requires First(s).Act?
    ensures var e := First(s).event;
            Seek(s) == if e.Emitted? then Found(e.frame, s[|Spell(e)|..]) else Seek(s[1..])
  {
    hide First, Encode;
  }

  lemma SkipsNone(es: seq<Event>, d: seq<Byte>)
    ensures SkipsOnly(es, es, d, d)
  {
    assert es[|es|..] == [];
  }

  lemma EventSplit(es0: seq<Event>, es1: seq<Event>, es2: seq<Event>)
    requires es0 <= es1 && |es2| == |es1| + 1 && es1 <= es2
    ensures es2[|es0|..|es2| - 1] == es1[|es0|..]
    ensures Discards(es2[|es0|..]) ==
            Discards(es1[|es0|..]) + if es2[|es1|].Emitted? then [] else [es2[|es1|].dropped]
  {
    assert es2[|es0|..] == es1[|es0|..] + [es2[|es1|]];
    DiscardsConcat(es1[|es0|..], [es2[|es1|]]);
  }

  /** The event behind what a caller hears of a complete run at the front of `s`. */
  function EventOf(x: Result<Frame, FrameError>, s: seq<Byte>): (e: Event)
    requires s != []
    ensures Report(e) == Some(x) && (e.Emitted? <==> x.Ok?) && (x.Err? ==> e.Faulted? && e.dropped == s[0])
  {
    if x.Ok? then Emitted(x.value) else Faulted(x.error, s[0])
  }

  /** What is to be done about a complete plausible run at the front. */
  lemma CandidateMeans(s: seq<Byte>, n: nat)
    requires n <= |s| && Plausible(s[..n])
    ensures 0 < n && s[..n][0] == s[0] && s[..n][1..] + s[n..] == s[1..]
    ensures var x := Decode(s[..n]);
            var e := EventOf(x, s);
            && First(s) == Act(e)
            && (if x.Ok? then |Spell(e)| == n && Seek(s) == Found(x.value, s[n..])
                else |Spell(e)| == 1 && Seek(s) == Seek(s[1..]))
  {
    FirstOfCandidate(s, n);
    SeekStep(s);
    hide First, Seek, Plausible, Decode, Encode;
  }

  class Receiver {
    var buf: seq<Byte>
    var discarded: seq<Byte>
    /** Every byte ever fed. */
    ghost var fed: seq<Byte>
    /** Everything decided so far, in order. */
    ghost var events: seq<Event>
    /** The discarded bytes already collected by the caller. */
    ghost var taken: seq<Byte>

    ghost predicate Valid()
      reads this
    {
      && Reading(fed, events, buf)
      && taken + discarded == Discards(events)
    }

    constructor ()
      ensures Valid() && fed == [] && events == [] && taken == [] && buf == [] && discarded == []
    {
      buf, discarded, fed, events, taken := [], [], [], [], [];
    }

    method Feed(bytes: seq<Byte>)
      requires Valid()
      modifies this
      ensures Valid()
      ensures fed == old(fed) + bytes && buf == old(buf) + bytes
      ensures events == old(events) && taken == old(taken) && discarded == old(discarded)
    {
      hide Reading, Discards;
      FeedKeepsReading(fed, events, buf, bytes);
      buf := buf + bytes;
      fed := fed + bytes;
    }

    method TakeDiscarded() returns (d: seq<Byte>)
      requires Valid()
      modifies this`discarded, this`taken
      ensures Valid()
      ensures d == old(discarded) && discarded == [] && taken == old(taken) + d
    {
      d := discarded;
      taken := taken + d;
      discarded := [];
      assert taken + discarded == old(taken) + old(discarded);
    }

    function Pending(): nat
      reads this
    {
      |buf|
    }

    /**
      * Pull the next report. `None` leaves only an open prefix buffered, so the
      * history is then the whole scan; otherwise exactly one event is reported,
      * after some silently dropped bytes.
      */
    method NextFrame() returns (r: Option<Result<Frame, FrameError>>)
      requires Valid()
      modifies this
      ensures Valid() && fed == old(fed) && taken == old(taken)
      ensures old(events) <= events
      ensures discarded == old(discarded) + Discards(events[|old(events)|..])
      ensures match r
              case None =>
                && Open(buf) && Scan(fed) == Scanned(events, buf)
                && AllDropped(events[|old(events)|..])
              case Some(x) =>
                && |buf| < |old(buf)| && |old(events)| < |events|
                && AllDropped(events[|old(events)|..|events| - 1])
                && Report(events[|events| - 1]) == Some(x)
      ensures match r
              case None => Seek(old(buf)) == Dry(buf)
              case Some(Ok(f)) => Seek(old(buf)) == Found(f, buf)
              case Some(Err(_)) => Seek(old(buf)) == Seek(buf)
    {
      hide First, Seek, Scan, Spelling, Discards, Plausible, Open, Reading, AllDropped;
      SkipsNone(events, discarded);
      while true
        invariant Valid() && fed == old(fed) && taken == old(taken)
        invariant SkipsOnly(old(events), events, old(discarded), discarded)
        invariant Seek(buf) == Seek(old(buf)) && |buf| <= |old(buf)|
        decreases |buf|
      {
        ghost var es, d := events, discarded;
        var h := Hunt();
        SkipsTrans(old(events), es, events, old(discarded), d, discarded);
        match h
        case NeedMore =>
          WaitingReading(fed, events, buf);
          return None;
        case Advanced =>
        case Candidate(n) =>
          es := events;
          var x := Consume(n);
          EventSplit(old(events), es, events);
          return Some(x);
      }
    }

    /** Take the complete plausible run at the front: the frame it holds, or only its first byte. */
    method Consume(n: nat) returns (x: Result<Frame, FrameError>)
      requires Valid() && n <= |buf| && Plausible(buf[..n])
      modifies this`buf, this`discarded, this`events
      ensures Valid()
      ensures old(buf) != [] && |buf| < |old(buf)|
      ensures events == old(events) + [EventOf(x, old(buf))]
      ensures discarded == old(discarded) + if x.Ok? then [] else [old(buf)[0]]
      ensures Seek(old(buf)) == if x.Ok? then Found(x.value, buf) else Seek(buf)
    {
      ghost var run, d := buf, discarded;
      CandidateMeans(buf, n);
      assert Reading(fed, events, buf) && taken + d == Discards(events);
      hide *;
      var bytes := buf[..n];
      buf := buf[n..];
      x := Decode(bytes);
      if x.Err? { PutBack(bytes); }
      Settle(run, EventOf(x, run), d);
    }

    /** Only the first byte of a bad run is lost; the rest goes back in front of the buffer. */
    method PutBack(run: seq<Byte>)
      requires run != []
      modifies this`buf, this`discarded
      ensures buf == run[1..] + old(buf) && discarded == old(discarded) + [run[0]]
    {
      var rest := run;
      discarded := discarded + [rest[0]];
      rest := rest[1..];
      rest := rest + buf;
      buf := rest;
    }

    /** Drop bytes until the buffer is open or a plausible run is complete at its front. */
    method Hunt() returns (h: Hunted)
      requires Valid()
      modifies this`buf, this`discarded, this`events
      ensures Valid()
      ensures SkipsOnly(old(events), events, old(discarded), discarded)
      ensures Seek(buf) == Seek(old(buf)) && |buf| <= |old(buf)|
      ensures match h
              case NeedMore => First(buf).Wait?
              case Advanced => |buf| < |old(buf)|
              case Candidate(n) => n <= |buf| && Plausible(buf[..n])
    {
      hide Reading, Discards, Seek, Decode, Encode, SkipsOnly;
      SkipsNone(events, discarded);
      while true
        invariant Valid()
        invariant SkipsOnly(old(events), events, old(discarded), discarded)
        invariant Seek(buf) == Seek(old(buf)) && |buf| <= |old(buf)|
        decreases |buf|
      {
        ghost var es, d := events, discarded;
        if |buf| == 0 { return NeedMore; }
        if buf[0] != MAGIC_0 {
          DropFirst();
          SkipsTrans(old(events), es, events, old(discarded), d, discarded);
          continue;
        }
        if |buf| < 2 { return NeedMore; }
        if buf[1] != MAGIC_1 {
          DropFirst();
          SkipsTrans(old(events), es, events, old(discarded), d, discarded);
          continue;
        }
        if |buf| < 5 { return NeedMore; }
        var declared := Be16(buf[3], buf[4]);
        if !PlausibleLen(declared) {
          DropFirst();
          SkipsTrans(old(events), es, events, old(discarded), d, discarded);
          return Advanced;
        }
        var n := declared + 2;
        if |buf| < n { return NeedMore; }
        return Candidate(n);
      }
    }

    /** Move the first buffered byte to the discarded ones. */
    method DropFirst()
      requires Valid() && buf != [] && First(buf) == Act(Dropped(buf[0]))
      modifies this`buf, this`discarded, this`events
      ensures Valid()
      ensures buf == old(buf)[1..] && discarded == old(discarded) + [old(buf)[0]]
      ensures SkipsOnly(old(events), events, old(discarded), discarded)
      ensures Seek(buf) == Seek(old(buf))
    {
      ghost var b, was, d := buf[0], buf, discarded;
      discarded := discarded + [buf[0]];
      buf := buf[1..];
      Settle(was, Dropped(b), d);
      SkipsOne(old(events), old(discarded), b);
    }

    /** Record in the history an event whose effect on the fields has just happened. */
    ghost method Settle(was: seq<Byte>, e: Event, d0: seq<Byte>)
      requires First(was) == Act(e) && |Spell(e)| <= |was| && buf == was[|Spell(e)|..]
      requires Reading(fed, events, was) && taken + d0 == Discards(events)
      requires discarded == d0 + if e.Emitted? then [] else [e.dropped]
      modifies this`events
      ensures Valid() && events == old(events) + [e]
    {
      hide Reading, Discards, First, Spell;
      EventSettles(fed, events, was, e, taken, d0);
      events := events + [e];
    }
  }

  // --------------------------------------------- any use of a receiver at all

  datatype Op = FeedOp(bytes: seq<Byte>) | PullOp | CollectOp

  function FedBy(ops: seq<Op>): seq<Byte> {
    if ops == [] then []
    else FedBy(ops[..|ops| - 1]) + if ops[|ops| - 1].FeedOp? then ops[|ops| - 1].bytes else []
  }

  lemma {:induction false} ReportsConcat(a: seq<Event>, b: seq<Event>)
    ensures Reports(a + b) == Reports(a) + Reports(b)
  {
    if a == [] {
      assert a + b == b;
    } else {
      assert (a + b)[1..] == a[1..] + b;
      ReportsConcat(a[1..], b);
      var x := if Report(a[0]).Some? then [Report(a[0]).value] else [];
      assert x + (Reports(a[1..]) + Reports(b)) == (x + Reports(a[1..])) + Reports(b);
    }
  }

  lemma {:induction false} DroppedSaysNothing(es: seq<Event>)
    requires AllDropped(es)
    ensures Reports(es) == []
  {
    if es != [] { DroppedSaysNothing(es[1..]); }
  }

  /** What `NextFrame` promises about the history, in terms of what the caller hears. */
  lemma PullReports(es0: seq<Event>, es: seq<Event>, r: Option<Result<Frame, FrameError>>)
    requires es0 <= es
    requires match r
             case None => AllDropped(es[|es0|..])
             case Some(x) => |es0| < |es| && AllDropped(es[|es0|..|es| - 1]) && Report(es[|es| - 1]) == Some(x)
    ensures Reports(es) == Reports(es0) + if r.Some? then [r.value] else []
  {
    SplitAt(es, es0);
    if r.None? {
      DroppedSaysNothing(es[|es0|..]);
      hide *;
      ReportsConcat(es0, es[|es0|..]);
    } else {
      var last := es[|es| - 1];
      DroppedSaysNothing(es[|es0|..|es| - 1]);
      ReportsOfOne(last);
      hide *;
      ReportsSnoc(es0, es[|es0|..|es| - 1], last);
    }
  }

  lemma ReportsSnoc(es: seq<Event>, mid: seq<Event>, last: Event)
    requires Reports(mid) == []
    ensures Reports(es + mid + [last]) == Reports(es) + Reports([last])
  {
    hide *;
    ReportsConcat(es, mid);
    ReportsConcat(es + mid, [last]);
    assert Reports(es) + [] == Reports(es);
  }

  lemma ReportsOfOne(e: Event)
    ensures Reports([e]) == if Report(e).Some? then [Report(e).value] else []
  {
    hide Report;
    assert [e][1..] == [];
  }

  /** Pull until the receiver has nothing more to say. */
  method Drain(rx: Receiver) returns (heard: seq<Result<Frame, FrameError>>)
    requires rx.Valid()
    modifies rx
    ensures rx.Valid() && rx.fed == old(rx.fed) && rx.taken == old(rx.taken)
    ensures Scan(rx.fed) == Scanned(rx.events, rx.buf)
    ensures Reports(rx.events) == Reports(old(rx.events)) + heard
  {
    hide First, Scan, Seek, Discards, Open, AllDropped, Reports, Report, Reading;
    heard := [];
    var r := None;
    while true
      invariant rx.Valid() && rx.fed == old(rx.fed) && rx.taken == old(rx.taken)
      invariant Reports(rx.events) == Reports(old(rx.events)) + heard
      decreases |rx.buf|
    {
      ghost var es := rx.events;
      r := rx.NextFrame();
      PullReports(es, rx.events, r);
      if r.None? { return; }
      heard := heard + [r.value];
    }
  }

  /** One use of the receiver, as heard by its caller. */
  method Perform(rx: Receiver, op: Op) returns (heard: seq<Result<Frame, FrameError>>, lost: seq<Byte>)
    requires rx.Valid()
    modifies rx
    ensures rx.Valid() && rx.fed == old(rx.fed) + if op.FeedOp? then op.bytes else []
    ensures rx.taken == old(rx.taken) + lost
    ensures Reports(rx.events) == Reports(old(rx.events)) + heard
  {
    hide First, Scan, Seek, Discards, Open, AllDropped, Reports, Report, Reading;
    heard, lost := [], [];
    match op
    case FeedOp(bytes) =>
      rx.Feed(bytes);
    case PullOp =>
      ghost var es := rx.events;
      var r := rx.NextFrame();
      PullReports(es, rx.events, r);
      if r.Some? { heard := [r.value]; }
    case CollectOp =>
      lost := rx.TakeDiscarded();
  }

  /**
    * Chunking independence of the object itself: for any interleaving of feeds,
    * pulls and collections, followed by draining, the caller has heard exactly
    * the reports of one scan of all the bytes, collected exactly its discards,
    * and left exactly its rest.
    */
  method Exercise(ops: seq<Op>)
      returns (heard: seq<Result<Frame, FrameError>>, lost: seq<Byte>, left: seq<Byte>)
    ensures heard == Reports(Scan(FedBy(ops)).events)
    ensures lost == Discards(Scan(FedBy(ops)).events)
    ensures left == Scan(FedBy(ops)).rest
  {
    hide First, Scan, Discards, Report, Reading;
    var rx := new Receiver();
    heard, lost := [], [];
    for i := 0 to |ops|
      invariant rx.Valid() && fresh(rx)
      invariant rx.fed == FedBy(ops[..i])
      invariant heard == Reports(rx.events) && lost == rx.taken
    {
      assert ops[..i + 1][..i] == ops[..i];
      var h, l := Perform(rx, ops[i]);
      heard, lost := heard + h, lost + l;
    }
    assert ops[..|ops|] == ops;
    var h := Drain(rx);
    heard := heard + h;
    var d := rx.TakeDiscarded();
    lost := lost + d;
    assert rx.taken + [] == rx.taken;
    left := rx.buf;
  }
}
