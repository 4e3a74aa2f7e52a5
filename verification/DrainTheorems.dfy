/**
  * Draining: when a run that waits for the line to empty never changes the
  * rate under a frame still on its way out.
  */
module DrainTheorems {
  import opened Bytes
  import opened FrameCodec
  import opened SessionMachine
  import opened WireModel
  import opened Driver
  import opened RunTheorems

  /** No change of rate follows directly on a write and its flush: the last byte has left the wire first. */
  predicate NoHotRetune(t: seq<Mark>) {
    forall i :: 0 < i < |t| && t[i].Tuned? ==> !Hot(t[i - 1])
  }

  /** A write, or a flush, which hands the bytes over but does not wait for them to leave. */
  predicate Hot(m: Mark) { m.Sent? || m.Flushed? }

  lemma NoHotConcat(a: seq<Mark>, b: seq<Mark>)
    requires NoHotRetune(a) && NoHotRetune(b)
    requires a != [] && Hot(a[|a| - 1]) ==> b == [] || !b[0].Tuned?
    ensures NoHotRetune(a + b)
  {
    var t := a + b;
    forall i | 0 < i < |t| && t[i].Tuned? ensures !Hot(t[i - 1]) {
      if i > |a| { assert t[i] == b[i - |a|] && t[i - 1] == b[i - 1 - |a|]; }
    }
  }

  lemma RetunedMarks(env: Env, to: Option<U32>, l: Link, buf: seq<Byte>)
    ensures var m := Retuned(env, to, l, buf).link;
            l.tape <= m.tape && (News(l, m) == [] || (to.Some? && News(l, m) == [Tuned(to.value)]))
  {
  }

  /** After the write: nothing, or a drain before anything else and the change of rate at the end. */
  lemma DrainedMarks(env: Env, to: Option<U32>, l: Link, buf: seq<Byte>)
    ensures var s := DrainedAndRetuned(env, true, to, l, buf);
            && l.tape <= s.link.tape && NoHotRetune(News(l, s.link))
            && (News(l, s.link) != [] ==> News(l, s.link)[0] == Drained)
            && (s.Through? && to.Some? ==> EndsCool(News(l, s.link)))
  {
    if to.Some? && !env.fails(l.tick) {
      var m := DrainLink(env, l);
      RetunedMarks(env, to, m, buf);
      NewsChain(l, m, Retuned(env, to, m, buf).link);
    }
  }

  /** The last thing is there and is neither a write nor a flush. */
  predicate EndsCool(t: seq<Mark>) { t != [] && !Hot(t[|t| - 1]) }

  lemma EndsCoolConcat(a: seq<Mark>, b: seq<Mark>)
    requires EndsCool(b)
    ensures EndsCool(a + b)
  {
    assert (a + b)[|a + b| - 1] == b[|b| - 1];
  }

  lemma TransmitCool(env: Env, step: Step, l: Link, buf: seq<Byte>)
    ensures var s := Transmit(env, true, step, l, buf);
            && l.tape <= s.link.tape && NoHotRetune(News(l, s.link))
            && (s.Through? && step.retuneAfter.Some? ==> EndsCool(News(l, s.link)))
  {
    hide Encode, Retuned, DrainedAndRetuned, SentIn, RepliesIn, EndsCool;
    RetunedMarks(env, step.retuneBefore, l, buf);
    var s := Retuned(env, step.retuneBefore, l, buf);
    if s.Through? {
      var m := s.link;
      var m1 := Put(env, m, Encode(step.frame));
      assert News(m, m1) == [m1.tape[|m.tape|]];
      NewsChain(l, m, m1);
      NoHotConcat(News(l, m), News(m, m1));
      if !env.fails(m.tick) && !env.fails(m1.tick) {
        var f := FlushLink(env, m1);
        assert News(m1, f) == [Flushed];
        NewsChain(l, m1, f);
        NoHotConcat(News(l, m1), News(m1, f));
        DrainedMarks(env, step.retuneAfter, f, s.buf);
        var n := DrainedAndRetuned(env, true, step.retuneAfter, f, s.buf).link;
        NewsChain(l, f, n);
        NoHotConcat(News(l, f), News(f, n));
        if EndsCool(News(f, n)) { EndsCoolConcat(News(l, f), News(f, n)); }
      }
    }
  }

  lemma HearCool(env: Env, steps: seq<Step>, q: Progress, l: Link, buf: seq<Byte>)
    requires Patient(env) && Sound(steps, q) && q.awaiting
    ensures var e := Hear(env, steps, q, l, buf);
            && l.tape <= e.link.tape
            && (forall i :: 0 <= i < |News(l, e.link)| ==> !News(l, e.link)[i].Tuned?)
            && (e.Onward? ==> EndsCool(News(l, e.link)))
  {
    hide Await, Encode, Objection, HasWrite, WritesEndBy, Patient;
    var m, deadline := Idle(l), env.clock(l.tick) + steps[q.at].timeoutMs;
    AwaitHasShape(env, m, buf, deadline);
    var w := Await(env, m, buf, deadline);
    assert News(l, w.link) == News(m, w.link);
    if w.Arrived? {
      var n := Marked(w.link, Replied(w.frame));
      assert News(l, n) == News(l, w.link) + [Replied(w.frame)];
    }
  }

  lemma StepCool(env: Env, steps: seq<Step>, p: Progress, l: Link, buf: seq<Byte>)
    requires Patient(env) && Sound(steps, p) && !p.awaiting && p.at < |steps|
    ensures var e := StepFrom(env, true, steps, p, l, buf);
            && l.tape <= e.link.tape && NoHotRetune(News(l, e.link))
            && (e.Onward? && (steps[p.at].wants != Nothing || steps[p.at].retuneAfter.Some?) ==>
                  EndsCool(News(l, e.link)))
  {
    var step, q := steps[p.at], Issue(steps, p);
    assert Sound(steps, q);
    hide Transmit, Hear, Encode, Sound, SentIn, RepliesIn, Patient, EndsCool;
    TransmitCool(env, step, l, buf);
    var s := Transmit(env, true, step, l, buf);
    if s.Through? && step.wants != Nothing {
      HearCool(env, steps, q, s.link, s.buf);
      var n := Hear(env, steps, q, s.link, s.buf).link;
      NewsChain(l, s.link, n);
      NoHotConcat(News(l, s.link), News(s.link, n));
      if EndsCool(News(s.link, n)) { EndsCoolConcat(News(l, s.link), News(s.link, n)); }
    }
  }

  /** What sending a step does first, and keeps: its rate change if it has one, otherwise its write. */
  lemma TransmitBegins(env: Env, tcDrain: bool, step: Step, l: Link, buf: seq<Byte>)
    ensures Begins(env, step, l, Transmit(env, tcDrain, step, l, buf).link)
  {
    hide Encode, DrainedAndRetuned;
    var r := Retuned(env, step.retuneBefore, l, buf);
    if r.Through? {
      var m1 := Put(env, r.link, Encode(step.frame));
      DrainedIsQuiet(env, tcDrain, step.retuneAfter, FlushLink(env, m1), r.buf);
      assert m1.tape <= Transmit(env, tcDrain, step, l, buf).link.tape;
    }
  }

  /** The first thing on the tape since `l` is the step's change of rate, or its write. */
  ghost predicate Begins(env: Env, step: Step, l: Link, m: Link) {
    && l.tape <= m.tape
    && (step.retuneBefore.None? ==> News(l, m) != [] && News(l, m)[0].Sent?)
    && (step.retuneBefore.Some? && !env.fails(l.tick) ==>
          News(l, m) != [] && News(l, m)[0] == Tuned(step.retuneBefore.value))
  }

  lemma BeginsStill(env: Env, step: Step, l: Link, m: Link, n: Link)
    requires Begins(env, step, l, m) && m.tape <= n.tape
    ensures Begins(env, step, l, n)
  {
    assert News(l, m) <= News(l, n);
  }

  lemma StepBegins(env: Env, tcDrain: bool, steps: seq<Step>, p: Progress, l: Link, buf: seq<Byte>)
    requires Patient(env) && Sound(steps, p) && !p.awaiting && p.at < |steps|
    ensures Begins(env, steps[p.at], l, StepFrom(env, tcDrain, steps, p, l, buf).link)
  {
    var step, q := steps[p.at], Issue(steps, p);
    assert Sound(steps, q);
    hide Transmit, Hear, Encode, Sound, Patient, Begins;
    TransmitBegins(env, tcDrain, step, l, buf);
    var s := Transmit(env, tcDrain, step, l, buf);
    if s.Through? && step.wants != Nothing {
      HearCool(env, steps, q, s.link, s.buf);
      BeginsStill(env, step, l, s.link, Hear(env, steps, q, s.link, s.buf).link);
    }
  }

  /**
    * No step from `from` on that waits for nothing and changes no rate is
    * directly followed by one that changes the rate before it writes.
    */
  predicate NoHotPair(steps: seq<Step>, from: nat) {
    forall j :: from <= j < |steps| - 1 ==> !HotPair(steps[j], steps[j + 1])
  }

  predicate HotPair(a: Step, b: Step) { a.wants == Nothing && a.retuneAfter.None? && b.retuneBefore.Some? }

  ghost predicate RunsCool(env: Env, steps: seq<Step>, p: Progress, l: Link, buf: seq<Byte>)
    requires Patient(env) && Sound(steps, p) && !p.awaiting
  {
    var o := RunFrom(env, true, steps, p, l, buf);
    l.tape <= o.link.tape && NoHotRetune(News(l, o.link))
  }

  /**
    * Every run that drains, over steps without such a pair: the rate never
    * changes under a frame still on its way out.
    */
  lemma {:induction false} RunDrainsBeforeRetune(env: Env, steps: seq<Step>, p: Progress, l: Link, buf: seq<Byte>)
    requires Patient(env) && Sound(steps, p) && !p.awaiting && NoHotPair(steps, p.at)
    ensures RunsCool(env, steps, p, l, buf)
    decreases |steps| - p.at
  {
    hide Patient, StepFrom, HasWrite, WritesEndBy, NoHotRetune, SentIn, RepliesIn;
    var o := RunFrom(env, true, steps, p, l, buf);
    if p.at == |steps| {
      assert News(l, o.link) == [];
      NothingHot();
    } else {
      StepCool(env, steps, p, l, buf);
      var e := StepFrom(env, true, steps, p, l, buf);
      if e.Onward? {
        RunDrainsBeforeRetune(env, steps, e.progress, e.link, e.buf);
        NewsChain(l, e.link, o.link);
        if e.progress.at < |steps| {
          assert !HotPair(steps[p.at], steps[p.at + 1]);
          RunBegins(env, steps, e.progress, e.link, e.buf);
        } else {
          assert News(e.link, o.link) == [];
        }
        NoHotConcat(News(l, e.link), News(e.link, o.link));
      }
    }
  }

  /** How a run begins is how its first step does. */
  lemma RunBegins(env: Env, steps: seq<Step>, p: Progress, l: Link, buf: seq<Byte>)
    requires Patient(env) && Sound(steps, p) && !p.awaiting && p.at < |steps|
    ensures Begins(env, steps[p.at], l, RunFrom(env, true, steps, p, l, buf).link)
  {
    hide Patient, StepFrom, HasWrite, WritesEndBy, Begins;
    StepBegins(env, true, steps, p, l, buf);
    var e := StepFrom(env, true, steps, p, l, buf);
    if e.Onward? {
      RunSendsPlan(env, true, steps, e.progress, e.link, e.buf);
      BeginsStill(env, steps[p.at], l, e.link, RunFrom(env, true, steps, p, l, buf).link);
    }
  }

  // ------------------------------------------------------------------ flushing

  /** Whatever follows a write follows its flush. */
  predicate Flushes(t: seq<Mark>) {
    forall i :: 0 <= i < |t| - 1 && t[i].Sent? ==> t[i + 1].Flushed?
  }

  predicate EndsFlushed(t: seq<Mark>) { t == [] || !t[|t| - 1].Sent? }

  lemma FlushesConcat(a: seq<Mark>, b: seq<Mark>)
    requires Flushes(a) && Flushes(b) && EndsFlushed(a)
    ensures Flushes(a + b) && (EndsFlushed(b) ==> EndsFlushed(a + b))
  {
    var t := a + b;
    forall i | 0 <= i < |t| - 1 && t[i].Sent? ensures t[i + 1].Flushed? {
      if i < |a| { assert a[i].Sent?; } else { assert b[i - |a|].Sent?; }
    }
  }

  /** Every write between `l` and `m` is flushed, but perhaps the last if nothing is said to go on. */
  ghost predicate Clean(l: Link, m: Link, goesOn: bool) {
    l.tape <= m.tape && Flushes(News(l, m)) && (goesOn ==> EndsFlushed(News(l, m)))
  }

  lemma CleanChain(l: Link, m: Link, n: Link, goesOn: bool)
    requires Clean(l, m, true) && Clean(m, n, goesOn)
    ensures Clean(l, n, goesOn)
  {
    hide Flushes, EndsFlushed;
    NewsChain(l, m, n);
    FlushesConcat(News(l, m), News(m, n));
  }

  lemma QuietIsClean(l: Link, m: Link)
    requires Quiet(l, m)
    ensures Clean(l, m, true)
  {
    hide SentIn, RepliesIn;
    SilentFlushes(News(l, m));
  }

  lemma WriteIsClean(env: Env, m: Link, bytes: seq<Byte>)
    ensures var m1 := Put(env, m, bytes); Clean(m, m1, false) && Clean(m, FlushLink(env, m1), !env.fails(m1.tick))
  {
    var m1 := Put(env, m, bytes);
    var f, mark := FlushLink(env, m1), m1.tape[|m.tape|];
    assert News(m, m1) == [mark];
    assert News(m, f) == if env.fails(m1.tick) then [mark] else [mark, Flushed];
  }

  lemma TransmitFlushes(env: Env, tcDrain: bool, step: Step, l: Link, buf: seq<Byte>)
    ensures var s := Transmit(env, tcDrain, step, l, buf); Clean(l, s.link, s.Through?)
  {
    hide Encode, Retuned, DrainedAndRetuned, Quiet, Clean, Put;
    RetunedIsQuiet(env, step.retuneBefore, l, buf);
    var s := Retuned(env, step.retuneBefore, l, buf);
    QuietIsClean(l, s.link);
    if s.Through? {
      var m1 := Put(env, s.link, Encode(step.frame));
      var f := FlushLink(env, m1);
      WriteIsClean(env, s.link, Encode(step.frame));
      CleanChain(l, s.link, m1, false);
      CleanChain(l, s.link, f, !env.fails(m1.tick));
      if !env.fails(s.link.tick) && !env.fails(m1.tick) {
        DrainedIsQuiet(env, tcDrain, step.retuneAfter, f, s.buf);
        var n := DrainedAndRetuned(env, tcDrain, step.retuneAfter, f, s.buf).link;
        QuietIsClean(f, n);
        CleanChain(l, f, n, true);
      }
    }
    CleanLess(l, Transmit(env, tcDrain, step, l, buf).link);
  }

  lemma CleanLess(l: Link, m: Link)
    ensures Clean(l, m, true) ==> Clean(l, m, false)
  {
  }

  lemma SilentFlushes(t: seq<Mark>)
    requires SentIn(t) == []
    ensures Flushes(t) && EndsFlushed(t)
  {
    forall i | 0 <= i < |t| ensures !t[i].Sent? { NoneSent(t, i); }
  }

  lemma StepFlushes(env: Env, tcDrain: bool, steps: seq<Step>, p: Progress, l: Link, buf: seq<Byte>)
    requires Patient(env) && Sound(steps, p) && !p.awaiting && p.at < |steps|
    ensures var e := StepFrom(env, tcDrain, steps, p, l, buf); Clean(l, e.link, e.Onward?)
  {
    var step, q := steps[p.at], Issue(steps, p);
    assert Sound(steps, q);
    hide Transmit, Hear, Encode, Sound, Patient, SentIn, RepliesIn, Refused, Satisfies, Flushes, EndsFlushed;
    TransmitFlushes(env, tcDrain, step, l, buf);
    var s := Transmit(env, tcDrain, step, l, buf);
    if s.Through? && step.wants != Nothing {
      HearHasShape(env, steps, q, s.link, s.buf);
      var n := Hear(env, steps, q, s.link, s.buf).link;
      SilentFlushes(News(s.link, n));
      CleanChain(l, s.link, n, true);
    }
  }

  /** Every run hands each frame over completely before it does anything else: the write is flushed at once. */
  lemma {:induction false} RunFlushes(env: Env, tcDrain: bool, steps: seq<Step>, p: Progress, l: Link, buf: seq<Byte>)
    requires Patient(env) && Sound(steps, p) && !p.awaiting
    ensures Clean(l, RunFrom(env, tcDrain, steps, p, l, buf).link, false)
    decreases |steps| - p.at
  {
    hide Patient, StepFrom, HasWrite, WritesEndBy, SentIn, RepliesIn;
    var o := RunFrom(env, tcDrain, steps, p, l, buf);
    if p.at == |steps| {
      assert News(l, o.link) == [];
    } else {
      StepFlushes(env, tcDrain, steps, p, l, buf);
      var e := StepFrom(env, tcDrain, steps, p, l, buf);
      if e.Onward? {
        RunFlushes(env, tcDrain, steps, e.progress, e.link, e.buf);
        CleanChain(l, e.link, o.link, false);
      }
    }
  }

  // ------------------------------------------------------- when it does not drain

  ghost predicate NeverFails(env: Env) { forall t: nat :: !env.fails(t) }

  /** Since `l` there was something, and a write or its flush last. */
  ghost predicate EndsHot(l: Link, m: Link) {
    l.tape <= m.tape && News(l, m) != [] && Hot(News(l, m)[|News(l, m)| - 1])
  }

  ghost predicate HotSince(l: Link, n: Link) { l.tape <= n.tape ==> !NoHotRetune(News(l, n)) }

  /** Such a pair, reached on a line where nothing fails, does change the rate directly after a write. */
  lemma HotPairIsHot(env: Env, steps: seq<Step>, p: Progress, l: Link, buf: seq<Byte>)
    requires Patient(env) && Sound(steps, p) && !p.awaiting && NeverFails(env)
    requires p.at + 1 < |steps| && HotPair(steps[p.at], steps[p.at + 1])
    ensures !RunsCool(env, steps, p, l, buf)
  {
    hide *;
    var e := StepFrom(env, true, steps, p, l, buf);
    UnansweredEndsHot(env, steps, p, l, buf);
    TuneBehindWrite(env, steps, e.progress, l, e.link, e.buf);
    HotIsNotCool(env, steps, p, l, buf);
  }

  lemma HotIsNotCool(env: Env, steps: seq<Step>, p: Progress, l: Link, buf: seq<Byte>)
    requires Patient(env) && Sound(steps, p) && !p.awaiting && p.at < |steps|
    requires var e := StepFrom(env, true, steps, p, l, buf);
             e.Onward? && HotSince(l, RunFrom(env, true, steps, e.progress, e.link, e.buf).link)
    ensures !RunsCool(env, steps, p, l, buf)
  {
    hide StepFrom, Patient, Sound, NoHotRetune, News;
  }

  lemma TuneBehindWrite(env: Env, steps: seq<Step>, p: Progress, l: Link, m: Link, buf: seq<Byte>)
    requires Patient(env) && Sound(steps, p) && !p.awaiting && NeverFails(env)
    requires 0 < p.at < |steps| && HotPair(steps[p.at - 1], steps[p.at]) && EndsHot(l, m)
    ensures HotSince(l, RunFrom(env, true, steps, p, m, buf).link)
  {
    hide Patient, RunFrom, NoHotRetune, Sound, News;
    RunBegins(env, steps, p, m, buf);
    var n := RunFrom(env, true, steps, p, m, buf).link;
    NewsChain(l, m, n);
    HotSeam(News(l, m), News(m, n));
  }

  lemma UnansweredEndsHot(env: Env, steps: seq<Step>, p: Progress, l: Link, buf: seq<Byte>)
    requires Patient(env) && Sound(steps, p) && !p.awaiting && NeverFails(env)
    requires p.at + 1 < |steps| && HotPair(steps[p.at], steps[p.at + 1])
    ensures var e := StepFrom(env, true, steps, p, l, buf); e.Onward? && EndsHot(l, e.link)
  {
    hide Encode, HasWrite, WritesEndBy;
  }

  lemma HotSeam(a: seq<Mark>, b: seq<Mark>)
    requires a != [] && b != [] && Hot(a[|a| - 1]) && b[0].Tuned?
    ensures !NoHotRetune(a + b)
  {
    var t := a + b;
    assert t[|a|].Tuned? && Hot(t[|a| - 1]);
  }

  /** Whatever the environment, and from whatever step on. */
  ghost predicate AlwaysCool(steps: seq<Step>) {
    forall env, p, l, buf | Patient(env) && Sound(steps, p) && !p.awaiting :: RunsCool(env, steps, p, l, buf)
  }

  /** Exactly the step lists without such a pair drain before every change of rate, whatever happens. */
  lemma DrainsExactly(steps: seq<Step>)
    ensures NoHotPair(steps, 0) <==> AlwaysCool(steps)
  {
    hide Patient, Sound, RunsCool;
    if NoHotPair(steps, 0) {
      forall env, p, l, buf | Patient(env) && Sound(steps, p) && !p.awaiting ensures RunsCool(env, steps, p, l, buf) {
        RunDrainsBeforeRetune(env, steps, p, l, buf);
      }
    } else {
      var j :| 0 <= j < |steps| - 1 && HotPair(steps[j], steps[j + 1]);
      var p := ProgressAt(steps, j);
      var env := Env(_ => [], _ => false, _ => 0, t => t);
      QuietLineIsPatient(env);
      HotPairIsHot(env, steps, p, Link(0, 0, [], 0), []);
    }
  }

  /** The fields of a session about to take step `j`. */
  function ProgressAt(steps: seq<Step>, j: nat): (p: Progress)
    requires j <= |steps|
    ensures Sound(steps, p) && !p.awaiting && p.at == j
  {
    Progress(j, false, HasWrite(steps, j), HasWrite(steps, j) && WritesEndBy(steps, j))
  }

  lemma QuietLineIsPatient(env: Env)
    requires forall t: nat :: env.clock(t) == t
    ensures Patient(env)
  {
    forall t: nat ensures Reached(env, t) { assert env.clock(t) >= t; }
  }

  lemma NothingHot()
    ensures NoHotRetune([])
  {
  }
}
