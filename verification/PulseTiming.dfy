/**
  * When the handshake pulses: the beat it keeps while nothing is coming in,
  * and the hold while a frame is.
  */
module PulseTiming {
  import opened Bytes
  import opened StreamScan
  import opened WireModel

  const SYNC_BYTE: Byte := 0x7F
  const PULSE_EVERY := 30
  const PARTIAL_STALL := 400

  /** All bytes read, in order. */
  function BytesGot(t: seq<Mark>): seq<Byte> {
    if t == [] then []
    else BytesGot(t[..|t| - 1]) + if t[|t| - 1].Got? then t[|t| - 1].bytes else []
  }

  /** What the clock said once the last pulse had been flushed. */
  function LastPulse(env: Env, t: seq<Mark>): Option<nat> {
    if t == [] then None
    else if t[|t| - 1].Sent? then Some(env.clock(t[|t| - 1].tick + 2))
    else LastPulse(env, t[..|t| - 1])
  }

  /** What the clock said once the last bytes had come in. */
  function LastHeard(env: Env, t: seq<Mark>): Option<nat> {
    if t == [] then None
    else if t[|t| - 1].Got? && t[|t| - 1].bytes != [] then Some(env.clock(t[|t| - 1].tick + 1))
    else LastHeard(env, t[..|t| - 1])
  }

  /** At `now` there has been no pulse for a whole beat. */
  predicate Due(env: Env, t: seq<Mark>, now: nat) {
    LastPulse(env, t).Some? ==> now >= LastPulse(env, t).value + 30
  }

  /** At `now` a frame may be half way in, and the line has not been silent for long. */
  predicate Held(env: Env, t: seq<Mark>, now: nat) {
    Scan(BytesGot(t)).rest != [] && LastHeard(env, t).Some? && now < LastHeard(env, t).value + 400
  }

  /** Behind `t`, a pulse is written only if due and not held, and a read is made only if not due or held. */
  predicate OnBeat(env: Env, t: seq<Mark>, m: Mark) {
    && (m.Sent? ==> Due(env, t, env.clock(m.tick)) && !Held(env, t, env.clock(m.tick)))
    && (m.Got? ==> m.tick > 0 && MayRead(env, t, m.tick))
  }

  predicate MayRead(env: Env, t: seq<Mark>, tick: nat)
    requires tick > 0
  {
    !Due(env, t, env.clock(tick - 1)) || Held(env, t, env.clock(tick - 1))
  }

  /** So it is at every mark of `t`. */
  predicate Cadence(env: Env, t: seq<Mark>) {
    forall i :: 0 <= i < |t| ==> OnBeat(env, t[..i], t[i])
  }

  lemma CadenceSnoc(env: Env, t: seq<Mark>, m: Mark)
    requires Cadence(env, t) && OnBeat(env, t, m)
    ensures Cadence(env, t + [m])
  {
    hide OnBeat;
    var u := t + [m];
    forall i | 0 <= i < |u| ensures OnBeat(env, u[..i], u[i]) {
      if i < |t| { assert u[..i] == t[..i]; } else { assert u[..i] == t; }
    }
  }

  lemma LastSnoc(env: Env, t: seq<Mark>, m: Mark)
    ensures LastPulse(env, t + [m]) == if m.Sent? then Some(env.clock(m.tick + 2)) else LastPulse(env, t)
    ensures LastHeard(env, t + [m]) ==
            if m.Got? && m.bytes != [] then Some(env.clock(m.tick + 1)) else LastHeard(env, t)
    ensures BytesGot(t + [m]) == BytesGot(t) + if m.Got? then m.bytes else []
  {
    assert (t + [m])[..|t|] == t;
  }

  lemma {:induction false} HeardSomething(env: Env, t: seq<Mark>)
    requires BytesGot(t) != []
    ensures LastHeard(env, t).Some?
  {
    if !(t[|t| - 1].Got? && t[|t| - 1].bytes != []) { HeardSomething(env, t[..|t| - 1]); }
  }

  lemma ClockForward(env: Env, i: nat, j: nat)
    requires Patient(env) && i <= j
    ensures env.clock(i) <= env.clock(j)
  {
  }

  lemma {:induction false} LastPulseIs(env: Env, t: seq<Mark>, i: nat)
    requires i < |t| && t[i].Sent? && forall k :: i < k < |t| ==> !t[k].Sent?
    ensures LastPulse(env, t) == Some(env.clock(t[i].tick + 2))
  {
    if i < |t| - 1 { LastPulseIs(env, t[..|t| - 1], i); }
  }

  /** From the end of one pulse to the start of the next there is at least a beat. */
  lemma PulsesApart(env: Env, t: seq<Mark>, i: nat, j: nat)
    requires Cadence(env, t) && i < j < |t| && t[i].Sent? && t[j].Sent?
    requires forall k :: i < k < j ==> !t[k].Sent?
    ensures env.clock(t[j].tick) >= env.clock(t[i].tick + 2) + 30
  {
    assert OnBeat(env, t[..j], t[j]);
    LastPulseIs(env, t[..j], i);
  }

  lemma {:induction false} SomePulse(env: Env, t: seq<Mark>) returns (i: nat)
    requires LastPulse(env, t).Some?
    ensures i < |t| && t[i].Sent? && LastPulse(env, t) == Some(env.clock(t[i].tick + 2))
  {
    i := |t| - 1;
    if !t[i].Sent? { i := SomePulse(env, t[..i]); }
  }

  /** Unless a frame is coming in, there is a pulse less than a beat before every read. */
  lemma PulseBeforeRead(env: Env, t: seq<Mark>, j: nat)
    requires Cadence(env, t) && j < |t| && t[j].Got?
    ensures t[j].tick > 0
    ensures Held(env, t[..j], env.clock(t[j].tick - 1)) ||
            exists i :: 0 <= i < j && t[i].Sent? && env.clock(t[j].tick - 1) < env.clock(t[i].tick + 2) + 30
  {
    assert OnBeat(env, t[..j], t[j]);
    if !Held(env, t[..j], env.clock(t[j].tick - 1)) {
      var i := SomePulse(env, t[..j]);
      assert t[..j][i] == t[i];
    }
  }
}
