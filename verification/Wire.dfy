/**
  * The byte pipe and the clock, with everything the outside world decides
  * given by an arbitrary environment: which bytes each read returns, which
  * operation fails, how much of a failed write got out, what the clock says.
  */
module WireModel {
  import opened Bytes
  import opened FrameCodec

  /** The outside world, as a function of how many operations have been performed. */
  datatype Env = Env(arrivals: nat -> seq<Byte>, fails: nat -> bool, cut: nat -> nat, clock: nat -> nat)

  /** What an observer of the wire and of the driver's log sees; `tick` says when a write or read was made. */
  datatype Mark =
    | Sent(rate: U32, bytes: seq<Byte>, tick: nat)
    | Got(rate: U32, bytes: seq<Byte>, tick: nat)
    | Tuned(rate: U32)
    | Flushed
    | Drained
    | Replied(frame: Frame)

  /** Where the line stands: how many operations were performed, at which rate, what was seen, how many failed. */
  datatype Link = Link(tick: nat, rate: U32, tape: seq<Mark>, faults: nat)

  ghost predicate Reached(env: Env, t: nat) { exists k: nat :: env.clock(k) >= t }

  /** The clock never runs backwards and passes every moment. */
  ghost predicate Patient(env: Env) {
    && (forall i: nat, j: nat :: i <= j ==> env.clock(i) <= env.clock(j))
    && forall t: nat :: Reached(env, t)
  }

  function Idle(l: Link): Link { l.(tick := l.tick + 1) }

  function Marked(l: Link, m: Mark): Link { l.(tick := l.tick + 1, tape := l.tape + [m]) }

  function Failed(l: Link): Link { l.(faults := l.faults + 1) }

  /** `write_all`: all of the bytes, or some first part of them if it fails. */
  function Put(env: Env, l: Link, bytes: seq<Byte>): Link {
    if env.fails(l.tick) then Failed(Marked(l, Sent(l.rate, bytes[..Min(env.cut(l.tick), |bytes|)], l.tick)))
    else Marked(l, Sent(l.rate, bytes, l.tick))
  }

  function FlushLink(env: Env, l: Link): Link { if env.fails(l.tick) then Failed(Idle(l)) else Marked(l, Flushed) }

  function Tune(env: Env, l: Link, rate: U32): Link {
    if env.fails(l.tick) then Failed(Idle(l)) else Marked(l, Tuned(rate)).(rate := rate)
  }

  function DrainLink(env: Env, l: Link): Link {
    if env.fails(l.tick) then Failed(Idle(l)) else Marked(l, Drained)
  }

  /** What a read into a buffer of `cap` bytes returns, possibly nothing. */
  function Chunk(env: Env, l: Link, cap: nat): seq<Byte> {
    env.arrivals(l.tick)[..Min(cap, |env.arrivals(l.tick)|)]
  }

  /** A read that left nothing behind that fits `cap` bytes. */
  predicate TakesAll(env: Env, m: Mark, cap: nat) {
    m.Got? ==>
      var there := env.arrivals(m.tick);
      m.bytes == if |there| <= cap then there else there[..cap]
  }

  function Take(env: Env, l: Link, cap: nat): Link {
    if env.fails(l.tick) then Failed(Idle(l)) else Marked(l, Got(l.rate, Chunk(env, l, cap), l.tick))
  }

  class Wire {
    const env: Env
    var tick: nat
    var rate: U32
    ghost var tape: seq<Mark>
    ghost var faults: nat

    constructor (env: Env, rate: U32)
      ensures this.env == env && State() == Link(0, rate, [], 0)
    {
      this.env := env;
      this.rate := rate;
      tick, tape, faults := 0, [], 0;
    }

    ghost function State(): Link
      reads this
    {
      Link(tick, rate, tape, faults)
    }

    /** The observer's side of an operation. */
    ghost method Note(l: Link)
      modifies this`tape, this`faults
      ensures tape == l.tape && faults == l.faults
    {
      tape, faults := l.tape, l.faults;
    }

    method WriteAll(bytes: seq<Byte>) returns (ok: bool)
      modifies this
      ensures State() == Put(env, old(State()), bytes) && ok == !env.fails(old(tick))
    {
      ok := !env.fails(tick);
      Note(Put(env, State(), bytes));
      tick := tick + 1;
    }

    method Read(cap: nat) returns (ok: bool, bytes: seq<Byte>)
      modifies this
      ensures State() == Take(env, old(State()), cap) && ok == !env.fails(old(tick))
      ensures bytes == if ok then Chunk(env, old(State()), cap) else []
    {
      ok := !env.fails(tick);
      bytes := if ok then env.arrivals(tick)[..Min(cap, |env.arrivals(tick)|)] else [];
      Note(Take(env, State(), cap));
      tick := tick + 1;
    }

    method Retune(to: U32) returns (ok: bool)
      modifies this
      ensures State() == Tune(env, old(State()), to) && ok == !env.fails(old(tick))
    {
      ok := !env.fails(tick);
      Note(Tune(env, State(), to));
      if ok { rate := to; }
      tick := tick + 1;
    }

    method Flush() returns (ok: bool)
      modifies this
      ensures State() == FlushLink(env, old(State())) && ok == !env.fails(old(tick))
    {
      ok := !env.fails(tick);
      Note(FlushLink(env, State()));
      tick := tick + 1;
    }

    method Drain() returns (ok: bool)
      modifies this
      ensures State() == DrainLink(env, old(State())) && ok == !env.fails(old(tick))
    {
      ok := !env.fails(tick);
      Note(DrainLink(env, State()));
      tick := tick + 1;
    }

    /** Ask the clock. */
    method Now() returns (t: nat)
      modifies this
      ensures State() == Idle(old(State())) && t == env.clock(old(tick))
    {
      t := env.clock(tick);
      tick := tick + 1;
    }

    /** The driver's log of a reply. */
    method LogReply(f: Frame)
      modifies this
      ensures State() == Marked(old(State()), Replied(f))
    {
      tape := tape + [Replied(f)];
      tick := tick + 1;
    }
  }
}
