/** The TTEthernet end system as a whole (c/ethlib/tte.c): links, schedule tables, clock and timer. */
module TteEndSystem {
  import opened Bytes
  import opened TteSchedule
  import opened TteQueue
  import C = TteClock

  ghost predicate Separate(links: seq<VirtualLink>) {
    forall i, j :: 0 <= i < j < |links| ==> Distinct(links[i], links[j])
  }

  /** A link as tte_init_VL leaves it. */
  ghost predicate Idle(vl: VirtualLink, params: Link, cluster: nat)
    reads vl, vl.queue, vl.sizeQueue
    requires 0 < params.period
  {
    vl.Valid() && vl.contents == vl.sent == [] && vl.params == params && vl.maxQueue == MaxQueue(params, cluster)
  }

  ghost predicate Distinct(vl: VirtualLink, other: VirtualLink) {
    vl != other && {vl.queue, vl.sizeQueue} !! {other.queue, other.sizeQueue}
  }

  lemma SeparateNext(links: seq<VirtualLink>, vl: VirtualLink)
    requires Separate(links) && forall i :: 0 <= i < |links| ==> Distinct(links[i], vl)
    ensures Separate(links + [vl])
  {
  }

  method InitLinks(vls: seq<Link>, cluster: nat) returns (links: seq<VirtualLink>)
    requires Positive(vls) && forall i :: 0 <= i < |vls| ==> 0 < MaxQueue(vls[i], cluster)
    ensures |links| == |vls| && Separate(links)
    ensures forall i :: 0 <= i < |links| ==>
              fresh(links[i]) && fresh(links[i].queue) && fresh(links[i].sizeQueue) && Idle(links[i], vls[i], cluster)
  {
    links := [];
    for k := 0 to |vls|
      invariant |links| == k && Separate(links)
      invariant forall i :: 0 <= i < k ==>
                  fresh(links[i]) && fresh(links[i].queue) && fresh(links[i].sizeQueue) && Idle(links[i], vls[i], cluster)
    {
      var vl := new VirtualLink(vls[k], cluster);
      SeparateNext(links, vl);
      links := links + [vl];
    }
  }

  /** Nothing is pending or sent on n links. */
  ghost predicate Quiet(net: Net, n: nat) {
    && |net.queues| == |net.sent| == n && net.place == 0
    && forall i :: 0 <= i < n ==> net.queues[i] == net.sent[i] == []
  }

  lemma QueuesNotEmpty(vls: seq<Link>, cluster: nat)
    requires ValidLinks(vls, cluster)
    ensures forall i :: 0 <= i < |vls| ==> 0 < MaxQueue(vls[i], cluster)
  {
    forall i | 0 <= i < |vls| ensures 0 < MaxQueue(vls[i], cluster) {
      assert i < |vls| - 1 ==> DataLink(vls[i], cluster);
      FitsOnce(cluster, vls[i].period);
    }
  }

  lemma FitsOnce(c: nat, p: nat)
    requires 0 < c && 0 < p && c % p == 0
    ensures 0 < c / p
  {
    assert c == c / p * p;
  }

  class EndSystem {
    const links: seq<VirtualLink>
    const cluster: nat
    const intPeriod: nat
    const maxDelay: nat
    const compDelay: nat
    const precision: nat
    var sched: seq<nat>
    var vlSched: seq<nat>
    var startTick: nat
    var maxSched: nat
    var schedplace: nat
    var currentTime: nat
    var timerTime: nat
    var armedTime: nat

    function Params(): seq<Link> {
      seq(|links|, i requires 0 <= i < |links| => links[i].params)
    }

    ghost function Caps(): seq<nat> {
      seq(|links|, i requires 0 <= i < |links| => links[i].maxQueue)
    }

    ghost function Footprint(): set<object> {
      (set i | 0 <= i < |links| :: links[i] as object)
      + (set i | 0 <= i < |links| :: links[i].queue as object)
      + (set i | 0 <= i < |links| :: links[i].sizeQueue as object)
    }

    ghost predicate Valid()
      reads this, Footprint()
    {
      && Separate(links) && this !in Footprint()
      && (forall i :: 0 <= i < |links| ==> links[i].Valid())
      && |sched| == |vlSched| == maxSched
      && (forall k :: 0 <= k < maxSched ==> vlSched[k] < |links|)
    }

    ghost function Cfg(): C.Config
      reads this
    {
      C.Config(maxDelay, compDelay, precision, intPeriod, startTick, sched, vlSched, |links| - 1)
    }

    ghost function Clock(): C.Clock
      reads this
    {
      C.Clock(currentTime, timerTime, schedplace, armedTime)
    }

    ghost function Network(): Net
      reads this, Footprint()
    {
      Net(seq(|links|, i requires 0 <= i < |links| reads this, Footprint() => links[i].contents),
          seq(|links|, i requires 0 <= i < |links| reads this, Footprint() => links[i].sent),
          schedplace)
    }

    /** tte_initialize with one tte_init_VL per link; the PCF link comes last. */
    constructor (dataLinks: seq<Link>, intPeriod: nat, cluster: nat, maxDelay: nat, compDelay: nat, precision: nat)
      requires ValidLinks(dataLinks + [Link(intPeriod, intPeriod)], cluster)
      ensures Valid() && fresh(Footprint()) && Params() == dataLinks + [Link(intPeriod, intPeriod)] && this.cluster == cluster
      ensures Cfg() == C.Config(maxDelay, compDelay, precision, intPeriod, 0, [], [], |dataLinks|) && maxSched == 0
      ensures forall i :: 0 <= i < |links| ==> 0 < links[i].params.period && links[i].maxQueue == MaxQueue(links[i].params, cluster)
      ensures Clock() == C.Clock(0, 0, 0, 0)
      ensures Quiet(Network(), |dataLinks| + 1)
    {
      this.intPeriod, this.cluster := intPeriod, cluster;
      this.maxDelay, this.compDelay, this.precision := maxDelay, compDelay, precision;
      sched, vlSched, startTick, maxSched, schedplace := [], [], 0, 0, 0;
      currentTime, timerTime, armedTime := 0, 0, 0;
      var vls := dataLinks + [Link(intPeriod, intPeriod)];
      QueuesNotEmpty(vls, cluster);
      var ls := InitLinks(vls, cluster);
      links := ls;
    }

    /** tte_start_ticking: the tables become the merge of the link activations and the clock is cleared. */
    method StartTicking()
      requires Valid() && ValidLinks(Params(), cluster)
      modifies this`sched, this`vlSched, this`startTick, this`maxSched, this`currentTime
      ensures Valid() && maxSched == TotalQueue(Params(), cluster)
      ensures IsMerge(Params(), cluster, TableSlots(startTick, sched, vlSched))
      ensures currentTime == 0
    {
      var s, v, start, max := BuildTables(Params(), cluster);
      sched, vlSched, startTick, maxSched := s, v, start, max;
      currentTime := 0;
    }

    method Enqueue(addr: nat, size: nat, i: nat) returns (ok: bool)
      requires Valid() && 0 < addr && i < |links|
      modifies Footprint()
      ensures Valid()
      ensures ok <==> |old(Network()).queues[i]| < links[i].maxQueue
      ensures var was := old(Network());
              Network() == if ok then was.(queues := was.queues[i := was.queues[i] + [Frame(addr, size)]]) else was
    {
      ok := links[i].ScheduleSend(addr, size);
      forall j | 0 <= j < |links| && j != i
        ensures links[j].Valid() && links[j].contents == old(links[j].contents) && links[j].sent == old(links[j].sent)
      {
        assert unchanged(links[j], links[j].queue, links[j].sizeQueue);
      }
      ghost var was := old(Network());
      assert Network().sent == was.sent;
      assert Network().queues == was.queues[i := links[i].contents];
    }

    /** tte_schedule_send on link i. */
    method ScheduleSend(addr: nat, size: nat, i: nat) returns (ok: bool)
      requires Valid() && 0 < addr && i < |links|
      modifies Footprint()
      ensures Valid() && WellFormed(old(Network()), Caps())
      ensures ok <==> Accepted(old(Network()), Caps(), Send(i, Frame(addr, size)))
      ensures Network() == Perform(old(Network()), Caps(), vlSched, Send(i, Frame(addr, size)))
    {
      QueuesBounded();
      ok := Enqueue(addr, size, i);
    }

    /** The transmit half of the tick: the owner of the slot sends its oldest frame, if any. */
    method TransmitFrom(i: nat) returns (out: seq<Frame>)
      requires Valid() && i < |links|
      modifies Footprint()
      ensures Valid()
      ensures out == if old(Network()).queues[i] == [] then [] else [old(Network()).queues[i][0]]
      ensures var was := old(Network());
              Network() == if was.queues[i] == [] then was
                           else was.(sent := was.sent[i := was.sent[i] + [was.queues[i][0]]],
                                     queues := was.queues[i := was.queues[i][1..]])
    {
      out := links[i].Transmit();
      ghost var was := old(Network());
      if was.queues[i] == [] {
        assert Network().queues == was.queues && Network().sent == was.sent;
      } else {
        assert out == [was.queues[i][0]];
        assert Network().queues == was.queues[i := was.queues[i][1..]];
        assert Network().sent == was.sent[i := was.sent[i] + [was.queues[i][0]]];
      }
    }

    /** The timer half of the tick. */
    method AdvanceTimer() returns (i: nat)
      requires Valid() && schedplace < maxSched
      modifies this`timerTime, this`schedplace, this`armedTime
      ensures Valid() && i == vlSched[old(schedplace)]
      ensures Clock() == C.TickTimer(old(Cfg()), old(Clock()))
      ensures Network() == old(Network()).(place := old(schedplace) + 1)
    {
      timerTime := C.U64(timerTime + C.CYCLES_PER_UNIT * sched[schedplace]);
      i := vlSched[schedplace];
      schedplace := schedplace + 1;
      if schedplace < maxSched {
        if vlSched[schedplace] == |links| - 1 {
          timerTime := currentTime;
        }
        armedTime := timerTime;
      }
    }

    /** tte_clock_tick: one slot of the schedule. */
    method ClockTick() returns (out: seq<Frame>)
      requires Valid() && schedplace < maxSched
      modifies this`timerTime, this`schedplace, this`armedTime, Footprint()
      ensures Valid()
      ensures Cfg() == old(Cfg()) && Clock() == C.TickTimer(old(Cfg()), old(Clock()))
      ensures WellFormed(old(Network()), Caps())
      ensures Network() == Perform(old(Network()), Caps(), vlSched, Tick)
      ensures var i, was := old(vlSched[schedplace]), old(Network());
              i < |was.queues| && out == if was.queues[i] == [] then [] else [was.queues[i][0]]
    {
      QueuesBounded();
      var i := AdvanceTimer();
      out := TransmitFrom(i);
    }

    /** handle_integration_frame on the received frame bytes. */
    method HandleIntegrationFrame(frame: seq<byte>, receivePit: nat) returns (accepted: bool)
      requires Valid() && 42 <= |frame|
      modifies this`currentTime, this`timerTime, this`schedplace, this`armedTime
      ensures Valid() && Cfg() == old(Cfg()) && Network() == old(Network()).(place := schedplace)
      ensures var transClock := C.TransClkToClk(BigEndian(frame[34..42]));
              && (accepted <==> C.Accepts(old(Cfg()), old(Clock()), receivePit, transClock))
              && Clock() == C.HandleFrame(old(Cfg()), old(Clock()), receivePit, transClock, BigEndian(frame[14..18]))
    {
      var transClk := ReadField(frame, 34, 42);
      var cycle := ReadField(frame, 14, 18);
      accepted := Integrate(receivePit, C.TransClkToClk(transClk), cycle);
    }

    method Integrate(receivePit: nat, transClock: nat, cycle: nat) returns (accepted: bool)
      modifies this`currentTime, this`timerTime, this`schedplace, this`armedTime
      ensures accepted <==> C.Accepts(old(Cfg()), old(Clock()), receivePit, transClock)
      ensures Clock() == C.HandleFrame(old(Cfg()), old(Clock()), receivePit, transClock, cycle)
    {
      ghost var cfg, st := Cfg(), Clock();
      var permanence := C.U64(receivePit + maxDelay - transClock);
      if currentTime == 0 {
        currentTime := C.U64(permanence - C.U32(2 * maxDelay + compDelay));
      }
      assert currentTime == C.Adopted(cfg, st, permanence);
      var scheduled := C.U64(currentTime + C.U32(2 * maxDelay) + compDelay);
      if C.U64(scheduled - precision) < permanence && permanence < C.U64(scheduled + precision) {
        AdvanceTo(C.U64(currentTime + (permanence - scheduled)), cycle);
        return true;
      }
      currentTime := 0;
      return false;
    }

    /** The accepting branch of handle_integration_frame. */
    method AdvanceTo(corrected: nat, cycle: nat)
      modifies this`currentTime, this`timerTime, this`schedplace, this`armedTime
      ensures Clock() == C.Advance(old(Cfg()), old(Clock()).(current := corrected), corrected, cycle)
    {
      currentTime := corrected;
      if cycle == 0 {
        schedplace := 0;
        timerTime := C.U64(currentTime + C.CYCLES_PER_UNIT * startTick);
        armedTime := timerTime;
      }
      currentTime := C.U64(currentTime + intPeriod * C.CYCLES_PER_UNIT);
    }

    lemma QueuesBounded()
      requires Valid()
      ensures WellFormed(Network(), Caps())
    {
      forall i | 0 <= i < |links| ensures |Network().queues[i]| <= Caps()[i] {
        assert links[i].Valid();
      }
    }
  }

  lemma OwnersInRange(vls: seq<Link>, cluster: nat, startTick: nat, sched: seq<nat>, vlSched: seq<nat>)
    requires |sched| == |vlSched| && IsMerge(vls, cluster, TableSlots(startTick, sched, vlSched))
    ensures forall k :: 0 <= k < |vlSched| ==> vlSched[k] < |vls|
  {
    forall k | 0 <= k < |vlSched| ensures vlSched[k] < |vls| {
      assert TableSlots(startTick, sched, vlSched)[k].link == vlSched[k];
    }
  }

  method BuildTables(vls: seq<Link>, cluster: nat)
    returns (sched: seq<nat>, vlSched: seq<nat>, startTick: nat, maxSched: nat)
    requires ValidLinks(vls, cluster)
    ensures |sched| == |vlSched| == maxSched == TotalQueue(vls, cluster)
    ensures IsMerge(vls, cluster, TableSlots(startTick, sched, vlSched))
    ensures forall k :: 0 <= k < maxSched ==> vlSched[k] < |vls|
  {
    var s, v, start, max := GenerateSchedule(vls, cluster);
    sched, vlSched, startTick, maxSched := s[..], v[..], start, max;
    OwnersInRange(vls, cluster, start, sched, vlSched);
  }

  method ReadField(frame: seq<byte>, from: nat, to: nat) returns (value: nat)
    requires from <= to <= |frame|
    ensures value == BigEndian(frame[from..to])
  {
    value := 0;
    for k := from to to
      invariant value == BigEndian(frame[from..k])
    {
      assert frame[from..k + 1][..k - from] == frame[from..k];
      value := value * 256 + frame[k];
    }
  }
}
