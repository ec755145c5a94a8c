/**
  Clock synchronisation of the TTEthernet end system (c/ethlib/tte.c): the
  permanence function for integration frames, and the timer that walks the
  schedule.  All times are unsigned 64-bit counts of 80 MHz clock cycles.
 */
module TteClock {
  import Arith
  import opened TteSchedule

  const TWO32: nat := 0x1_0000_0000
  const TWO64: nat := 0x1_0000_0000_0000_0000
  const CYCLES_PER_UNIT: nat := 8000

  function U32(x: int): nat { x % TWO32 }
  function U64(x: int): nat { x % TWO64 }

  lemma U64Add(x: int, k: int)
    ensures U64(U64(x) + k) == U64(x + k)
  {
  }

  ghost predicate Near(x: int, bound: nat) {
    -1 * bound < x < bound
  }

  // ---- Transparent clock ------------------------------------------------

  /** Transparent clock (ns * 2^16) to clock cycles, with a multiplication in place of / 125. */
  function TransClkToClk(transClk: nat): nat {
    U64(U64(transClk * 10) / 65536 * 536871) / 67108864
  }

  /** The multiplication is the division by 125 exactly up to the guard on the right;
      beyond it the result is too large, never too small. */
  lemma TransClkExact(transClk: nat)
    requires transClk * 10 < TWO64 && transClk * 10 / 65536 * 536871 < TWO64
    ensures var x := transClk * 10 / 65536;
            && x / 125 <= TransClkToClk(transClk)
            && (TransClkToClk(transClk) == x / 125 <==> 11 * x < (125 - x % 125) * 67108864)
  {
    var x := transClk * 10 / 65536;
    var q, r := x / 125, x % 125;
    assert 125 * (x * 536871) == 67108864 * x + 11 * x;
  }

  /** The nested floors collapse: up to 6100873 tenths-free nanoseconds the result is floor(10t / (65536 * 125)). */
  lemma TransClkIsDivision(transClk: nat)
    requires transClk * 10 / 65536 <= 6100873
    ensures TransClkToClk(transClk) == transClk * 10 / (65536 * 125)
  {
    var y := transClk * 10;
    var x := y / 65536;
    TransClkExact(transClk);
    assert y / (65536 * 125) == x / 125;
  }

  /** The first failing value: one nanosecond more and the result is one cycle too large. */
  lemma TransClkFirstError()
    ensures exists t: nat :: t * 10 / 65536 == 6100874 && TransClkToClk(t) == t * 10 / (65536 * 125) + 1
  {
    var t := 39982687847;
    assert t * 10 / 65536 == 6100874;
    assert TransClkToClk(t) == t * 10 / (65536 * 125) + 1;
  }

  // ---- Integration frames -----------------------------------------------

  /** Configuration set by tte_initialize and tte_generate_schedule. */
  datatype Config = Config(maxDelay: nat, compDelay: nat, precision: nat, intPeriod: nat,
                           startTick: nat, sched: seq<nat>, vlSched: seq<nat>, pcf: int) {
    /** integration_period: the integration period in clock cycles. */
    function Period(): nat { intPeriod * CYCLES_PER_UNIT }

    ghost predicate Valid() {
      && 2 * maxDelay + compDelay < TWO32
      && 0 < precision < TWO32
      && 0 < intPeriod && Period() < TWO32
      && |sched| == |vlSched|
    }
  }

  datatype Clock = Clock(current: nat, timer: nat, place: nat, armed: nat)

  function Permanence(cfg: Config, receivePit: nat, transClock: nat): nat {
    U64(receivePit + cfg.maxDelay - transClock)
  }

  /** tte_current_time as used by this frame: a zero clock first adopts the frame's own time. */
  function Adopted(cfg: Config, st: Clock, permanence: nat): nat {
    if st.current == 0 then U64(permanence - U32(2 * cfg.maxDelay + cfg.compDelay)) else st.current
  }

  function ScheduledReceive(cfg: Config, current: nat): nat {
    U64(current + U32(2 * cfg.maxDelay) + cfg.compDelay)
  }

  predicate InWindow(cfg: Config, permanence: nat, scheduled: nat) {
    U64(scheduled - cfg.precision) < permanence < U64(scheduled + cfg.precision)
  }

  predicate Accepts(cfg: Config, st: Clock, receivePit: nat, transClock: nat) {
    var permanence := Permanence(cfg, receivePit, transClock);
    InWindow(cfg, permanence, ScheduledReceive(cfg, Adopted(cfg, st, permanence)))
  }

  /** handle_integration_frame after the fields of the frame have been read. */
  function HandleFrame(cfg: Config, st: Clock, receivePit: nat, transClock: nat, cycle: nat): Clock {
    var permanence := Permanence(cfg, receivePit, transClock);
    var adopted := Adopted(cfg, st, permanence);
    var scheduled := ScheduledReceive(cfg, adopted);
    if InWindow(cfg, permanence, scheduled) then
      Advance(cfg, st, U64(adopted + (permanence - scheduled)), cycle)
    else
      st.(current := 0)
  }

  /** The accepting branch: cycle 0 restarts the schedule at the corrected time. */
  function Advance(cfg: Config, st: Clock, corrected: nat, cycle: nat): Clock {
    var start := U64(corrected + CYCLES_PER_UNIT * cfg.startTick);
    var st' := if cycle == 0 then st.(place := 0, timer := start, armed := start) else st;
    st'.(current := U64(corrected + cfg.Period()))
  }

  /** An accepted frame leaves its own time plus one period, whatever the clock showed. */
  lemma AcceptedTime(cfg: Config, st: Clock, receivePit: nat, transClock: nat, cycle: nat)
    requires cfg.Valid() && Accepts(cfg, st, receivePit, transClock)
    ensures HandleFrame(cfg, st, receivePit, transClock, cycle).current
            == U64(Permanence(cfg, receivePit, transClock) - (2 * cfg.maxDelay + cfg.compDelay) + cfg.Period())
  {
    var p := Permanence(cfg, receivePit, transClock);
    CorrectedTime(cfg, Adopted(cfg, st, p), p);
  }

  lemma CorrectedTime(cfg: Config, adopted: nat, permanence: nat)
    requires cfg.Valid()
    ensures U64(U64(adopted + (permanence - ScheduledReceive(cfg, adopted))) + cfg.Period())
            == U64(permanence - (2 * cfg.maxDelay + cfg.compDelay) + cfg.Period())
  {
    Corrected(adopted, permanence, 2 * cfg.maxDelay + cfg.compDelay, cfg.Period());
  }

  lemma Corrected(adopted: nat, permanence: nat, d: nat, period: nat)
    ensures U64(U64(adopted + (permanence - U64(adopted + d))) + period) == U64(permanence - d + period)
  {
    var q := (adopted + d) / TWO64;
    var own := permanence - d;
    assert adopted + (permanence - U64(adopted + d)) == own + q * TWO64;
    U64Add(own + q * TWO64, period);
    assert (own + q * TWO64) + period == (own + period) + q * TWO64;
  }

  /** With no clock the window is centred on the frame itself, so only a window
      that wraps around the 64-bit range can refuse it. */
  lemma Resynchronises(cfg: Config, st: Clock, receivePit: nat, transClock: nat)
    requires cfg.Valid() && st.current == 0
    ensures Accepts(cfg, st, receivePit, transClock) <==>
              cfg.precision <= Permanence(cfg, receivePit, transClock) < TWO64 - cfg.precision
  {
    var p := Permanence(cfg, receivePit, transClock);
    CentredWindow(cfg, p);
    WindowExact(cfg, p, p);
  }

  lemma CentredWindow(cfg: Config, permanence: nat)
    requires cfg.Valid() && permanence < TWO64
    ensures ScheduledReceive(cfg, U64(permanence - U32(2 * cfg.maxDelay + cfg.compDelay))) == permanence
  {
    var d := 2 * cfg.maxDelay + cfg.compDelay;
    U64Add(permanence - d, d);
  }

  lemma WindowExact(cfg: Config, permanence: nat, scheduled: nat)
    requires cfg.Valid() && permanence < TWO64 && scheduled < TWO64
    ensures cfg.precision <= scheduled < TWO64 - cfg.precision ==>
              (InWindow(cfg, permanence, scheduled) <==> Near(permanence - scheduled, cfg.precision))
    ensures permanence == scheduled ==> (InWindow(cfg, permanence, scheduled) <==> cfg.precision <= scheduled < TWO64 - cfg.precision)
  {
  }

  /** One integration frame as the network delivers it: sent at `dispatch`,
      received `delay` cycles later, with transparent clock field `transClk`. */
  datatype Sync = Sync(dispatch: nat, delay: nat, transClk: nat, cycle: nat)

  ghost predicate ReportsTrueDelay(f: Sync) {
    TransClkToClk(f.transClk) == f.delay
  }

  /** The frame's window stays inside the 64-bit range. */
  ghost predicate InRange(cfg: Config, f: Sync) {
    cfg.precision <= f.dispatch + cfg.maxDelay && f.dispatch + cfg.maxDelay + cfg.Period() + cfg.precision < TWO64
  }

  ghost predicate SteadyMaster(cfg: Config, fs: seq<Sync>) {
    && (forall k :: 0 <= k < |fs| ==> ReportsTrueDelay(fs[k]) && InRange(cfg, fs[k]))
    && (forall k :: 0 <= k < |fs| - 1 ==>
          Near(fs[k + 1].dispatch - fs[k].dispatch - cfg.Period(), cfg.precision))
  }

  ghost function Receive(cfg: Config, st: Clock, f: Sync): Clock {
    HandleFrame(cfg, st, f.dispatch + f.delay, TransClkToClk(f.transClk), f.cycle)
  }

  ghost predicate AcceptsSync(cfg: Config, st: Clock, f: Sync) {
    Accepts(cfg, st, f.dispatch + f.delay, TransClkToClk(f.transClk))
  }

  ghost function ReceiveAll(cfg: Config, st: Clock, fs: seq<Sync>): Clock {
    if fs == [] then st else Receive(cfg, ReceiveAll(cfg, st, fs[..|fs| - 1]), fs[|fs| - 1])
  }

  /** The local time that goes with a dispatch time, whatever the network delay was. */
  ghost function SyncedTime(cfg: Config, dispatch: nat): nat {
    U64(dispatch + cfg.Period() - cfg.maxDelay - cfg.compDelay)
  }

  /** From a cleared clock, the local time after the frames of a steady master is a
      function of the last dispatch time alone. */
  lemma {:induction false} SteadyTime(cfg: Config, st: Clock, fs: seq<Sync>)
    requires cfg.Valid() && st.current == 0 && SteadyMaster(cfg, fs) && fs != []
    ensures ReceiveAll(cfg, st, fs).current == SyncedTime(cfg, fs[|fs| - 1].dispatch)
  {
    var n := |fs| - 1;
    if n == 0 {
      assert ReceiveAll(cfg, st, fs[..n]) == st;
      FirstSync(cfg, st, fs[n]);
    } else {
      SteadyTime(cfg, st, fs[..n]);
      SteadyStep(cfg, ReceiveAll(cfg, st, fs[..n]), fs[n - 1], fs[n]);
    }
  }

  /** Every frame of a steady master is accepted. */
  lemma SteadyAccepted(cfg: Config, st: Clock, fs: seq<Sync>, k: nat)
    requires cfg.Valid() && st.current == 0 && SteadyMaster(cfg, fs) && k < |fs|
    ensures AcceptsSync(cfg, ReceiveAll(cfg, st, fs[..k]), fs[k])
  {
    if k == 0 {
      assert ReceiveAll(cfg, st, fs[..k]) == st;
      FirstSync(cfg, st, fs[k]);
    } else {
      SteadyTime(cfg, st, fs[..k]);
      SteadyStep(cfg, ReceiveAll(cfg, st, fs[..k]), fs[k - 1], fs[k]);
    }
  }

  /** With a true delay report the permanence point is dispatch plus the maximal delay. */
  lemma TruePermanence(cfg: Config, f: Sync)
    requires ReportsTrueDelay(f) && InRange(cfg, f)
    ensures Permanence(cfg, f.dispatch + f.delay, f.delay) == f.dispatch + cfg.maxDelay
  {
  }

  lemma NextExpected(cfg: Config, last: Sync)
    requires cfg.Valid() && InRange(cfg, last)
    ensures ScheduledReceive(cfg, SyncedTime(cfg, last.dispatch)) == last.dispatch + cfg.Period() + cfg.maxDelay
  {
    U64Add(last.dispatch + cfg.Period() - cfg.maxDelay - cfg.compDelay, 2 * cfg.maxDelay + cfg.compDelay);
  }

  lemma FirstSync(cfg: Config, st: Clock, f: Sync)
    requires cfg.Valid() && ReportsTrueDelay(f) && InRange(cfg, f) && st.current == 0
    ensures AcceptsSync(cfg, st, f)
    ensures Receive(cfg, st, f).current == SyncedTime(cfg, f.dispatch)
  {
    TruePermanence(cfg, f);
    Resynchronises(cfg, st, f.dispatch + f.delay, f.delay);
    AcceptedTime(cfg, st, f.dispatch + f.delay, f.delay, f.cycle);
  }

  lemma SteadyStep(cfg: Config, st: Clock, last: Sync, f: Sync)
    requires cfg.Valid() && ReportsTrueDelay(f) && InRange(cfg, f) && InRange(cfg, last)
    requires st.current == SyncedTime(cfg, last.dispatch)
    requires Near(f.dispatch - last.dispatch - cfg.Period(), cfg.precision)
    ensures AcceptsSync(cfg, st, f)
    ensures Receive(cfg, st, f).current == SyncedTime(cfg, f.dispatch)
  {
    if st.current == 0 {
      FirstSync(cfg, st, f);
    } else {
      NextExpected(cfg, last);
      TruePermanence(cfg, f);
      WindowExact(cfg, f.dispatch + cfg.maxDelay, last.dispatch + cfg.Period() + cfg.maxDelay);
      AcceptedTime(cfg, st, f.dispatch + f.delay, f.delay, f.cycle);
    }
  }

  /** Two runs of the same master over different networks keep the same local time. */
  lemma DelayIndependent(cfg: Config, a: Clock, b: Clock, fs: seq<Sync>, gs: seq<Sync>)
    requires cfg.Valid() && a.current == 0 && b.current == 0
    requires SteadyMaster(cfg, fs) && SteadyMaster(cfg, gs) && 0 < |fs| == |gs|
    requires forall k :: 0 <= k < |fs| ==> fs[k].dispatch == gs[k].dispatch
    ensures ReceiveAll(cfg, a, fs).current == ReceiveAll(cfg, b, gs).current
  {
    SteadyTime(cfg, a, fs);
    SteadyTime(cfg, b, gs);
  }

  /** A refused frame clears the clock, and the next frame sets it again to that frame's own time. */
  lemma RecoversAtOnce(cfg: Config, st: Clock, refused: Sync, next: Sync)
    requires cfg.Valid() && !AcceptsSync(cfg, st, refused)
    requires ReportsTrueDelay(next) && InRange(cfg, next)
    ensures AcceptsSync(cfg, Receive(cfg, st, refused), next)
    ensures Receive(cfg, Receive(cfg, st, refused), next).current == SyncedTime(cfg, next.dispatch)
  {
    FirstSync(cfg, Receive(cfg, st, refused), next);
  }

  // ---- The schedule timer -----------------------------------------------

  /** The timer part of tte_clock_tick: a slot of the PCF link is re-anchored at the local clock. */
  function TickTimer(cfg: Config, st: Clock): Clock
    requires st.place < |cfg.sched| == |cfg.vlSched|
  {
    var t := U64(st.timer + CYCLES_PER_UNIT * cfg.sched[st.place]);
    var place := st.place + 1;
    if place < |cfg.sched| then
      var t' := if cfg.vlSched[place] == cfg.pcf then st.current else t;
      Clock(st.current, t', place, t')
    else
      Clock(st.current, t, place, st.armed)
  }

  datatype Event = Tick | Frame(receivePit: nat, transClock: nat, cycle: nat)

  ghost function Slots(cfg: Config): seq<Slot>
    requires |cfg.sched| == |cfg.vlSched|
  {
    TableSlots(cfg.startTick, cfg.sched, cfg.vlSched)
  }

  ghost predicate ZeroError(cfg: Config, st: Clock, receivePit: nat, transClock: nat) {
    && Accepts(cfg, st, receivePit, transClock)
    && Permanence(cfg, receivePit, transClock) == ScheduledReceive(cfg, st.current)
  }

  /** Inside one cluster, after `frames` integration frames: further frames are
      accepted with zero error, and a tick that arms a PCF slot comes after
      exactly the frames of the earlier integration cycles. */
  ghost predicate Punctual(cfg: Config, st: Clock, frames: nat, es: seq<Event>)
    requires |cfg.sched| == |cfg.vlSched|
    decreases |es|
  {
    es == [] ||
    match es[0]
    case Tick =>
      && st.place < |cfg.sched|
      && (st.place + 1 < |cfg.sched| && cfg.vlSched[st.place + 1] == cfg.pcf ==>
            Slots(cfg)[st.place + 1].time == frames * cfg.intPeriod)
      && Punctual(cfg, TickTimer(cfg, st), frames, es[1..])
    case Frame(r, t, cycle) =>
      && cycle != 0 && ZeroError(cfg, st, r, t)
      && Punctual(cfg, HandleFrame(cfg, st, r, t, cycle), frames + 1, es[1..])
  }

  ghost function Step(cfg: Config, st: Clock, e: Event): Clock
    requires |cfg.sched| == |cfg.vlSched|
  {
    match e
    case Tick => if st.place < |cfg.sched| then TickTimer(cfg, st) else st
    case Frame(r, t, cycle) => HandleFrame(cfg, st, r, t, cycle)
  }

  ghost function Run(cfg: Config, st: Clock, es: seq<Event>): Clock
    requires |cfg.sched| == |cfg.vlSched|
    decreases |es|
  {
    if es == [] then st else Run(cfg, Step(cfg, st, es[0]), es[1..])
  }

  /** The next slot is armed for the cluster's base time plus its activation time. */
  ghost predicate Anchored(cfg: Config, st: Clock, base: nat, frames: nat)
    requires |cfg.sched| == |cfg.vlSched|
  {
    && 0 < frames && st.current == base + CYCLES_PER_UNIT * (frames * cfg.intPeriod)
    && (st.place < |cfg.sched| ==>
          st.timer == st.armed == base + CYCLES_PER_UNIT * Slots(cfg)[st.place].time)
  }

  lemma CycleZeroAnchors(cfg: Config, st: Clock, receivePit: nat, transClock: nat)
    requires cfg.Valid() && Accepts(cfg, st, receivePit, transClock) && cfg.sched != []
    requires 2 * cfg.maxDelay + cfg.compDelay <= Permanence(cfg, receivePit, transClock)
    requires Permanence(cfg, receivePit, transClock) + CYCLES_PER_UNIT * cfg.startTick + cfg.Period() < TWO64
    ensures Anchored(cfg, HandleFrame(cfg, st, receivePit, transClock, 0),
                     Permanence(cfg, receivePit, transClock) - (2 * cfg.maxDelay + cfg.compDelay), 1)
  {
    var p := Permanence(cfg, receivePit, transClock);
    var base: nat := p - (2 * cfg.maxDelay + cfg.compDelay);
    CorrectedBase(cfg, st, p);
    AdvanceAnchors(cfg, st, base);
  }

  lemma CorrectedBase(cfg: Config, st: Clock, permanence: nat)
    requires cfg.Valid() && 2 * cfg.maxDelay + cfg.compDelay <= permanence < TWO64
    ensures var adopted := Adopted(cfg, st, permanence);
            U64(adopted + (permanence - ScheduledReceive(cfg, adopted)))
            == permanence - (2 * cfg.maxDelay + cfg.compDelay)
  {
    Corrected(Adopted(cfg, st, permanence), permanence, 2 * cfg.maxDelay + cfg.compDelay, 0);
  }

  lemma AdvanceAnchors(cfg: Config, st: Clock, base: nat)
    requires cfg.Valid() && cfg.sched != []
    requires base + CYCLES_PER_UNIT * cfg.startTick + cfg.Period() < TWO64
    ensures Anchored(cfg, Advance(cfg, st, base, 0), base, 1)
  {
    assert Slots(cfg)[0].time == cfg.startTick;
    assert 1 * cfg.intPeriod == cfg.intPeriod;
  }

  /** Every slot of the cluster is armed for base + 8000 * (its merged activation time). */
  lemma {:induction false} SlotsArmedOnTime(cfg: Config, st: Clock, base: nat, frames: nat, es: seq<Event>)
      returns (frames': nat)
    requires cfg.Valid() && Anchored(cfg, st, base, frames) && Punctual(cfg, st, frames, es)
    requires base + CYCLES_PER_UNIT * ((frames + |es|) * cfg.intPeriod) < TWO64
    requires forall k :: 0 <= k < |cfg.sched| ==> base + CYCLES_PER_UNIT * Slots(cfg)[k].time < TWO64
    ensures Anchored(cfg, Run(cfg, st, es), base, frames')
    decreases |es|
  {
    frames' := frames;
    if es != [] {
      var st' := Step(cfg, st, es[0]);
      if es[0].Tick? {
        TickAnchored(cfg, st, base, frames);
        assert (frames + |es[1..]|) * cfg.intPeriod <= (frames + |es|) * cfg.intPeriod by {
          Arith.MulStep(frames + |es[1..]|, frames + |es|, cfg.intPeriod);
        }
        frames' := SlotsArmedOnTime(cfg, st', base, frames, es[1..]);
      } else {
        assert frames + 1 + |es[1..]| == frames + |es|;
        if 1 < |es| { Arith.MulStep(frames + 1, frames + |es|, cfg.intPeriod); }
        FrameAnchored(cfg, st, base, frames, es[0]);
        frames' := SlotsArmedOnTime(cfg, st', base, frames + 1, es[1..]);
      }
    }
  }

  lemma TickAnchored(cfg: Config, st: Clock, base: nat, frames: nat)
    requires cfg.Valid() && Anchored(cfg, st, base, frames) && Punctual(cfg, st, frames, [Tick])
    requires forall k :: 0 <= k < |cfg.sched| ==> base + CYCLES_PER_UNIT * Slots(cfg)[k].time < TWO64
    ensures Anchored(cfg, TickTimer(cfg, st), base, frames)
  {
    var p := st.place + 1;
    if p < |cfg.sched| {
      assert cfg.sched[..p][..st.place] == cfg.sched[..st.place];
      assert Slots(cfg)[p].time == Slots(cfg)[st.place].time + cfg.sched[st.place];
    }
  }

  lemma FrameAnchored(cfg: Config, st: Clock, base: nat, frames: nat, e: Event)
    requires cfg.Valid() && Anchored(cfg, st, base, frames)
    requires e.Frame? && e.cycle != 0 && ZeroError(cfg, st, e.receivePit, e.transClock)
    requires base + CYCLES_PER_UNIT * ((frames + 1) * cfg.intPeriod) < TWO64
    ensures Anchored(cfg, Step(cfg, st, e), base, frames + 1)
  {
    assert (frames + 1) * cfg.intPeriod == frames * cfg.intPeriod + cfg.intPeriod;
    Arith.MulStep(0, frames, cfg.intPeriod);
    ZeroErrorAdvance(cfg, st, e.receivePit, e.transClock, e.cycle);
  }

  lemma ZeroErrorAdvance(cfg: Config, st: Clock, receivePit: nat, transClock: nat, cycle: nat)
    requires cfg.Valid() && 0 < st.current && st.current + cfg.Period() < TWO64 && cycle != 0
    requires ZeroError(cfg, st, receivePit, transClock)
    ensures HandleFrame(cfg, st, receivePit, transClock, cycle) == st.(current := st.current + cfg.Period())
  {
    var s := ScheduledReceive(cfg, st.current);
    assert U64(st.current + (s - s)) == st.current;
    assert Advance(cfg, st, st.current, cycle) == st.(current := st.current + cfg.Period());
  }
}
