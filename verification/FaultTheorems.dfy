/**
  * What an error is worth: a run blames the line exactly when an operation on
  * it has failed, and the chip's silence only after waiting as long as the
  * step allows and no longer.
  */
module FaultTheorems {
  import opened Bytes
  import opened FrameCodec
  import opened StreamScan
  import opened SessionMachine
  import opened WireModel
  import opened Driver
  import opened RunTheorems

  // ------------------------------------------------------------------ failures

  /** Between `l` and `m` the last operation failed and no other, or none did. */
  ghost predicate Blames(env: Env, l: Link, m: Link, failed: bool) {
    && l.tick <= m.tick
    && m.faults == l.faults + (if failed then 1 else 0)
    && (failed ==> l.tick < m.tick && env.fails(m.tick - 1))
  }

  lemma BlamesChain(env: Env, l: Link, m: Link, n: Link, failed: bool)
    requires Blames(env, l, m, false) && Blames(env, m, n, failed)
    ensures Blames(env, l, n, failed)
  {
  }

  lemma RetunedBlames(env: Env, to: Option<U32>, l: Link, buf: seq<Byte>)
    ensures var s := Retuned(env, to, l, buf); Blames(env, l, s.link, s.Broken?)
  {
  }

  lemma DrainedBlames(env: Env, tcDrain: bool, to: Option<U32>, l: Link, buf: seq<Byte>)
    ensures var s := DrainedAndRetuned(env, tcDrain, to, l, buf); Blames(env, l, s.link, s.Broken?)
  {
    if to.Some? && tcDrain && !env.fails(l.tick) { RetunedBlames(env, to, DrainLink(env, l), buf); }
  }

  lemma TransmitBlames(env: Env, tcDrain: bool, step: Step, l: Link, buf: seq<Byte>)
    ensures var s := Transmit(env, tcDrain, step, l, buf); Blames(env, l, s.link, s.Broken?)
  {
    hide Encode, Retuned, DrainedAndRetuned;
    RetunedBlames(env, step.retuneBefore, l, buf);
    var s0 := Retuned(env, step.retuneBefore, l, buf);
    if s0.Through? {
      var m1 := Put(env, s0.link, Encode(step.frame));
      DrainedBlames(env, tcDrain, step.retuneAfter, FlushLink(env, m1), s0.buf);
    }
  }

  /**
    * Waiting fails exactly when a read has failed; every read is made before
    * the deadline; and silence is only reported at or past it.
    */
  lemma {:induction false} AwaitWaits(env: Env, l: Link, buf: seq<Byte>, deadline: nat)
    requires Patient(env)
    ensures var w := Await(env, l, buf, deadline);
            && Blames(env, l, w.link, w.Lost?)
            && l.tape <= w.link.tape && ReadsBefore(env, News(l, w.link), deadline)
            && (w.Silent? ==> w.link.tick > 0 && env.clock(w.link.tick - 1) >= deadline)
    decreases Remaining(env, l.tick, deadline)
  {
    hide Seek, Chunk, Remaining, Patient, Await, TakesAll;
    if Seek(buf).Found? {
      AwaitFound(env, l, buf, deadline);
    } else {
      AwaitDry(env, l, buf, deadline);
      if env.clock(l.tick) < deadline {
        var n := Take(env, Idle(l), RUN_BUFFER);
        if !env.fails(l.tick + 1) {
          RemainingDrops(env, l.tick, deadline);
          TakeTicks(env, Idle(l));
          var rest := Seek(buf).rest + Chunk(env, Idle(l), RUN_BUFFER);
          AwaitWaits(env, n, rest, deadline);
          var w := Await(env, n, rest, deadline);
          ChunkTakesAll(env, Idle(l));
          assert News(l, w.link) == [n.tape[|l.tape|]] + News(n, w.link);
        }
      }
    }
  }

  lemma ChunkTakesAll(env: Env, l: Link)
    ensures TakesAll(env, Got(l.rate, Chunk(env, l, RUN_BUFFER), l.tick), 512)
  {
  }

  /** Every read was made on a clock reading before `deadline`, and took all that was there, up to 512 bytes. */
  ghost predicate ReadsBefore(env: Env, t: seq<Mark>, deadline: nat) {
    forall i :: 0 <= i < |t| && t[i].Got? ==>
      t[i].tick > 0 && env.clock(t[i].tick - 1) < deadline && TakesAll(env, t[i], 512)
  }

  /** Waiting for the reply of a step: for its own timeout, from the moment its frame is out. */
  lemma HearWaits(env: Env, steps: seq<Step>, q: Progress, l: Link, buf: seq<Byte>)
    requires Patient(env) && Sound(steps, q) && q.awaiting
    ensures var e, ms := Hear(env, steps, q, l, buf), steps[q.at].timeoutMs;
            && Blames(env, l, e.link, e.Halted? && e.error == Io)
            && l.tape <= e.link.tape && ReadsBefore(env, News(l, e.link), env.clock(l.tick) + ms)
            && (e.Halted? && e.error.TimedOut? ==>
                  e.error == TimedOut(ms) && e.progress == q && l.tick < e.link.tick
                  && env.clock(e.link.tick - 1) >= env.clock(l.tick) + ms)
            && (e.Halted? ==> !e.error.IndeterminateFlash?)
  {
    hide Await, Encode, Objection, HasWrite, WritesEndBy, Patient;
    var m, deadline := Idle(l), env.clock(l.tick) + steps[q.at].timeoutMs;
    AwaitWaits(env, m, buf, deadline);
    var w := Await(env, m, buf, deadline);
    assert News(l, w.link) == News(m, w.link);
    if w.Arrived? {
      var n := Marked(w.link, Replied(w.frame));
      assert News(l, n) == News(l, w.link) + [Replied(w.frame)];
    }
  }

  /** `ms` after the clock reading at `from`, and no earlier, waiting was given up. */
  ghost predicate GaveUp(env: Env, t: seq<Mark>, from: nat, end: nat, ms: nat) {
    && from < end && env.clock(end - 1) >= env.clock(from) + ms
    && forall i :: 0 <= i < |t| ==> InTurn(env, t[i], from, ms)
  }

  /** A write from before `from`, or a read that was not too late. */
  predicate InTurn(env: Env, m: Mark, from: nat, ms: nat) {
    && (m.Sent? ==> m.tick < from)
    && (m.Got? && m.tick > from ==> env.clock(m.tick - 1) < env.clock(from) + ms)
  }

  // ------------------------------------------------------------- time stamps

  /** Every write and read between `l` and `m` bears a time between theirs. */
  ghost predicate Stamped(l: Link, m: Link) {
    && l.tape <= m.tape && l.tick <= m.tick
    && forall i :: 0 <= i < |News(l, m)| ==> InTime(News(l, m)[i], l.tick, m.tick)
  }

  predicate InTime(m: Mark, from: nat, to: nat) { m.Sent? || m.Got? ==> from <= m.tick < to }

  lemma StampedChain(l: Link, m: Link, n: Link)
    requires Stamped(l, m) && Stamped(m, n)
    ensures Stamped(l, n)
  {
    var a, b, c := News(l, m), News(m, n), News(l, n);
    assert c == a + b;
    forall i | 0 <= i < |c| ensures InTime(c[i], l.tick, n.tick) {
      if i < |a| { assert InTime(a[i], l.tick, m.tick); } else { assert InTime(b[i - |a|], m.tick, n.tick); }
    }
  }

  lemma StampedIdle(l: Link, m: Link)
    requires m.tape == l.tape && l.tick <= m.tick
    ensures Stamped(l, m)
  {
    assert News(l, m) == [];
  }

  lemma StampedMark(l: Link, m: Link, mark: Mark)
    requires m.tape == l.tape + [mark] && m.tick == l.tick + 1 && InTime(mark, l.tick, m.tick)
    ensures Stamped(l, m)
  {
    assert News(l, m) == [mark];
  }

  lemma RetunedStamped(env: Env, to: Option<U32>, l: Link, buf: seq<Byte>)
    ensures Stamped(l, Retuned(env, to, l, buf).link)
  {
    var m := Retuned(env, to, l, buf).link;
    if m.tape == l.tape { StampedIdle(l, m); } else { StampedMark(l, m, Tuned(to.value)); }
  }

  lemma DrainedStamped(env: Env, tcDrain: bool, to: Option<U32>, l: Link, buf: seq<Byte>)
    ensures Stamped(l, DrainedAndRetuned(env, tcDrain, to, l, buf).link)
  {
    hide Retuned, Stamped;
    if to.Some? && tcDrain {
      var m := DrainLink(env, l);
      if env.fails(l.tick) {
        StampedIdle(l, m);
      } else {
        StampedMark(l, m, Drained);
        RetunedStamped(env, to, m, buf);
        StampedChain(l, m, Retuned(env, to, m, buf).link);
      }
    } else {
      RetunedStamped(env, to, l, buf);
    }
  }

  lemma TransmitStamped(env: Env, tcDrain: bool, step: Step, l: Link, buf: seq<Byte>)
    ensures Stamped(l, Transmit(env, tcDrain, step, l, buf).link)
  {
    hide Encode, Retuned, DrainedAndRetuned, Stamped;
    RetunedStamped(env, step.retuneBefore, l, buf);
    var s0 := Retuned(env, step.retuneBefore, l, buf);
    if s0.Through? {
      var m1 := Put(env, s0.link, Encode(step.frame));
      StampedMark(s0.link, m1, m1.tape[|s0.link.tape|]);
      StampedChain(l, s0.link, m1);
      if !env.fails(s0.link.tick) {
        var f := FlushLink(env, m1);
        if env.fails(m1.tick) { StampedIdle(m1, f); } else { StampedMark(m1, f, Flushed); }
        StampedChain(l, m1, f);
        if !env.fails(m1.tick) {
          var n := DrainedAndRetuned(env, tcDrain, step.retuneAfter, f, s0.buf).link;
          DrainedStamped(env, tcDrain, step.retuneAfter, f, s0.buf);
          StampedChain(l, f, n);
        }
      }
    }
  }

  lemma {:induction false} AwaitStamped(env: Env, l: Link, buf: seq<Byte>, deadline: nat)
    requires Patient(env)
    ensures Stamped(l, Await(env, l, buf, deadline).link)
    decreases Remaining(env, l.tick, deadline)
  {
    hide Seek, Chunk, Remaining, Patient, Await, Stamped;
    if Seek(buf).Found? {
      AwaitFound(env, l, buf, deadline);
      StampedIdle(l, l);
    } else {
      AwaitDry(env, l, buf, deadline);
      StampedIdle(l, Idle(l));
      if env.clock(l.tick) < deadline {
        var n := Take(env, Idle(l), RUN_BUFFER);
        if env.fails(l.tick + 1) {
          StampedIdle(l, n);
        } else {
          StampedMark(Idle(l), n, n.tape[|l.tape|]);
          StampedChain(l, Idle(l), n);
          RemainingDrops(env, l.tick, deadline);
          TakeTicks(env, Idle(l));
          var rest := Seek(buf).rest + Chunk(env, Idle(l), RUN_BUFFER);
          AwaitStamped(env, n, rest, deadline);
          StampedChain(l, n, Await(env, n, rest, deadline).link);
        }
      }
    }
  }

  lemma HearStamped(env: Env, steps: seq<Step>, q: Progress, l: Link, buf: seq<Byte>)
    requires Patient(env) && Sound(steps, q) && q.awaiting
    ensures Stamped(l, Hear(env, steps, q, l, buf).link)
  {
    hide Await, Encode, Objection, HasWrite, WritesEndBy, Patient, Stamped;
    var m, deadline := Idle(l), env.clock(l.tick) + steps[q.at].timeoutMs;
    StampedIdle(l, m);
    AwaitStamped(env, m, buf, deadline);
    var w := Await(env, m, buf, deadline);
    StampedChain(l, m, w.link);
    if w.Arrived? {
      StampedMark(w.link, Marked(w.link, Replied(w.frame)), Replied(w.frame));
      StampedChain(l, w.link, Marked(w.link, Replied(w.frame)));
    }
  }

  // -------------------------------------------------------------- whole runs

  /** `p.at` is the step waited for, and `from` the moment its frame was out. */
  ghost predicate GaveUpOn(env: Env, steps: seq<Step>, p: Progress, l: Link, m: Link, ms: nat) {
    && l.tape <= m.tape && p.at < |steps| && ms == steps[p.at].timeoutMs
    && exists from :: l.tick <= from && GaveUp(env, News(l, m), from, m.tick, ms)
  }

  lemma GaveUpEarlier(env: Env, steps: seq<Step>, p: Progress, l: Link, m: Link, n: Link, ms: nat)
    requires Stamped(l, m) && GaveUpOn(env, steps, p, m, n, ms)
    ensures GaveUpOn(env, steps, p, l, n, ms)
  {
    var from :| m.tick <= from && GaveUp(env, News(m, n), from, n.tick, ms);
    var a, b, c := News(l, m), News(m, n), News(l, n);
    assert c == a + b;
    forall i | 0 <= i < |c| ensures InTurn(env, c[i], from, ms) {
      if i < |a| { assert InTime(a[i], l.tick, m.tick); } else { assert InTurn(env, b[i - |a|], from, ms); }
    }
    assert GaveUp(env, c, from, n.tick, ms);
  }

  /** How a run's error is earned: the last operation failed and no other, or the chip was given its time. */
  ghost predicate Earned(env: Env, steps: seq<Step>, p: Progress, l: Link, m: Link, stopped: bool, error: RunError) {
    && Blames(env, l, m, stopped && error == Io)
    && (stopped && error.TimedOut? ==> GaveUpOn(env, steps, p, l, m, error.ms))
  }

  lemma HearGivesUp(env: Env, steps: seq<Step>, q: Progress, l: Link, buf: seq<Byte>)
    requires Patient(env) && Sound(steps, q) && q.awaiting
    ensures var e := Hear(env, steps, q, l, buf);
            e.Halted? && e.error.TimedOut? ==> GaveUpOn(env, steps, e.progress, l, e.link, e.error.ms)
  {
    var e := Hear(env, steps, q, l, buf);
    HearWaits(env, steps, q, l, buf);
    HearStamped(env, steps, q, l, buf);
    HearHasShape(env, steps, q, l, buf);
    hide Hear, Objection, Satisfies, Patient, Sound, RepliesIn;
    if e.Halted? && e.error.TimedOut? {
      var d, ms := News(l, e.link), steps[q.at].timeoutMs;
      forall i | 0 <= i < |d| ensures InTurn(env, d[i], l.tick, ms) {
        if d[i].Sent? { SomethingSent(d, i); }
      }
      assert GaveUp(env, d, l.tick, e.link.tick, ms);
    }
  }

  lemma SomethingSent(t: seq<Mark>, i: nat)
    requires i < |t| && t[i].Sent?
    ensures SentIn(t) != []
  {
    if SentIn(t) == [] { NoneSent(t, i); }
  }

  lemma StepEarned(env: Env, tcDrain: bool, steps: seq<Step>, p: Progress, l: Link, buf: seq<Byte>)
    requires Patient(env) && Sound(steps, p) && !p.awaiting && p.at < |steps|
    ensures var e := StepFrom(env, tcDrain, steps, p, l, buf);
            && Stamped(l, e.link)
            && Earned(env, steps, e.progress, l, e.link, e.Halted?, if e.Halted? then e.error else Io)
            && (e.Halted? ==> !e.error.IndeterminateFlash?)
  {
    var step, q := steps[p.at], Issue(steps, p);
    assert Sound(steps, q);
    hide Transmit, Hear, Encode, Sound, Patient, Stamped, Blames, GaveUpOn;
    TransmitBlames(env, tcDrain, step, l, buf);
    TransmitStamped(env, tcDrain, step, l, buf);
    var s := Transmit(env, tcDrain, step, l, buf);
    if s.Through? && step.wants != Nothing {
      var e := Hear(env, steps, q, s.link, s.buf);
      HearWaits(env, steps, q, s.link, s.buf);
      HearStamped(env, steps, q, s.link, s.buf);
      HearGivesUp(env, steps, q, s.link, s.buf);
      StampedChain(l, s.link, e.link);
      BlamesChain(env, l, s.link, e.link, e.Halted? && e.error == Io);
      if e.Halted? && e.error.TimedOut? { GaveUpEarlier(env, steps, e.progress, l, s.link, e.link, e.error.ms); }
    }
  }

  /**
    * Every run: it ends with `Io` exactly when an operation on the line has
    * failed, the last one and no other; and with `TimedOut(ms)` only when `ms`
    * is the timeout of the step it stopped in and that long has passed since
    * the step's frame was out, no read having been made later than that.
    */
  lemma {:induction false} RunErrorsEarned(env: Env, tcDrain: bool, steps: seq<Step>, p: Progress, l: Link,
                                           buf: seq<Byte>)
    requires Patient(env) && Sound(steps, p) && !p.awaiting
    ensures var o := RunFrom(env, tcDrain, steps, p, l, buf);
            Earned(env, steps, o.progress, l, o.link, o.result.Stopped?,
                   if o.result.Stopped? then Cause(o.result.error) else Io)
    decreases |steps| - p.at
  {
    hide Patient, StepFrom, HasWrite, WritesEndBy, Blames, GaveUpOn, Stamped;
    var o := RunFrom(env, tcDrain, steps, p, l, buf);
    if p.at == |steps| {
      BlamesNothing(env, l);
    } else {
      StepEarned(env, tcDrain, steps, p, l, buf);
      var e := StepFrom(env, tcDrain, steps, p, l, buf);
      if e.Onward? {
        RunErrorsEarned(env, tcDrain, steps, e.progress, e.link, e.buf);
        BlamesChain(env, l, e.link, o.link, o.result.Stopped? && Cause(o.result.error) == Io);
        if o.result.Stopped? && Cause(o.result.error).TimedOut? {
          GaveUpEarlier(env, steps, o.progress, l, e.link, o.link, Cause(o.result.error).ms);
        }
      }
    }
  }

  lemma BlamesNothing(env: Env, l: Link)
    ensures Blames(env, l, l, false)
  {
  }
}
