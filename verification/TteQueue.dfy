/**
  Frame queues of the TTEthernet end system (c/ethlib/tte.c): each virtual link
  has a ring of frame addresses in which 0 marks an empty place, and the tick
  handler transmits one frame of the link that owns the slot.
 */
module TteQueue {
  import opened TteSchedule

  datatype Frame = Frame(addr: nat, size: nat)

  ghost function Place(rm: nat, max: nat, j: nat): int {
    if rm + j < max then rm + j else rm + j - max
  }

  /** The place j steps from the read position: frame j of `contents`, or a zero past its end. */
  ghost predicate PlaceHolds(q: seq<nat>, z: seq<nat>, rm: nat, contents: seq<Frame>, j: nat)
    requires rm < |q| == |z| && j < |q|
  {
    var p := Place(rm, |q|, j);
    if j < |contents| then 0 < q[p] && contents[j] == Frame(q[p], z[p]) else q[p] == 0
  }

  /** The ring holds `contents` from its read position on, and zeros elsewhere. */
  ghost predicate Ring(q: seq<nat>, z: seq<nat>, rm: nat, contents: seq<Frame>) {
    && rm < |q| == |z| && |contents| <= |q|
    && forall j :: 0 <= j < |q| ==> PlaceHolds(q, z, rm, contents, j)
  }

  /** A zero at the read position means empty, and a zero at the write position means not full. */
  lemma FirstPlaces(q: seq<nat>, z: seq<nat>, rm: nat, contents: seq<Frame>)
    requires Ring(q, z, rm, contents)
    ensures q[rm] == 0 <==> contents == []
    ensures q[Place(rm, |q|, |contents|)] == 0 <==> |contents| < |q|
    ensures contents != [] ==> contents[0] == Frame(q[rm], z[rm])
  {
    assert PlaceHolds(q, z, rm, contents, 0);
    assert |contents| < |q| ==> PlaceHolds(q, z, rm, contents, |contents|);
  }

  lemma RingPush(q: seq<nat>, z: seq<nat>, rm: nat, contents: seq<Frame>, addr: nat, size: nat)
    requires Ring(q, z, rm, contents) && |contents| < |q| && 0 < addr
    ensures var p := Place(rm, |q|, |contents|);
            Ring(q[p := addr], z[p := size], rm, contents + [Frame(addr, size)])
  {
    var p, fs := Place(rm, |q|, |contents|), contents + [Frame(addr, size)];
    var q', z' := q[p := addr], z[p := size];
    forall j | 0 <= j < |q| ensures PlaceHolds(q', z', rm, fs, j) {
      assert PlaceHolds(q, z, rm, contents, j);
    }
  }

  lemma RingPop(q: seq<nat>, z: seq<nat>, rm: nat, contents: seq<Frame>)
    requires Ring(q, z, rm, contents) && contents != []
    ensures Ring(q[rm := 0], z, if rm + 1 == |q| then 0 else rm + 1, contents[1..])
  {
    var q', rm', fs := q[rm := 0], if rm + 1 == |q| then 0 else rm + 1, contents[1..];
    forall j | 0 <= j < |q| ensures PlaceHolds(q', z, rm', fs, j) {
      assert j + 1 < |q| ==> PlaceHolds(q, z, rm, contents, j + 1);
    }
  }

  /** `struct VL` with its ring.  `contents` is the abstract queue; `accepted` and
      `sent` are the histories of the whole run. */
  class VirtualLink {
    const params: Link
    const maxQueue: nat
    const queue: array<nat>
    const sizeQueue: array<nat>
    var addplace: nat
    var rmplace: nat
    ghost var addrs: seq<nat>
    ghost var sizes: seq<nat>
    ghost var contents: seq<Frame>
    ghost var accepted: seq<Frame>
    ghost var sent: seq<Frame>

    ghost predicate Valid()
      reads this, queue, sizeQueue
    {
      && queue.Length == sizeQueue.Length == maxQueue && queue != sizeQueue
      && queue[..] == addrs && sizeQueue[..] == sizes && Ring(addrs, sizes, rmplace, contents)
      && addplace == Place(rmplace, maxQueue, |contents|)
      && accepted == sent + contents
    }

    /** tte_init_VL */
    constructor (vl: Link, cluster: nat)
      requires 0 < vl.period && 0 < MaxQueue(vl, cluster)
      ensures Valid() && fresh(queue) && fresh(sizeQueue)
      ensures params == vl && maxQueue == MaxQueue(vl, cluster)
      ensures contents == [] && accepted == [] && sent == []
    {
      params := vl;
      addplace, rmplace := 0, 0;
      var n := MaxQueue(vl, cluster);
      maxQueue := n;
      var q, z := new nat[n], new nat[n];
      for j := 0 to n
        invariant forall k :: 0 <= k < j ==> q[k] == 0 && z[k] == 0
      {
        q[j] := 0;
        z[j] := 0;
      }
      queue, sizeQueue := q, z;
      contents, accepted, sent := [], [], [];
      addrs, sizes := q[..], z[..];
    }

    /** tte_schedule_send: refused exactly when maxQueue frames are pending. */
    method ScheduleSend(addr: nat, size: nat) returns (ok: bool)
      requires Valid() && 0 < addr
      modifies this, queue, sizeQueue
      ensures Valid()
      ensures ok <==> old(|contents|) < maxQueue
      ensures contents == if ok then old(contents) + [Frame(addr, size)] else old(contents)
      ensures accepted == if ok then old(accepted) + [Frame(addr, size)] else old(accepted)
      ensures sent == old(sent)
    {
      FirstPlaces(addrs, sizes, rmplace, contents);
      if queue[addplace] == 0 {
        RingPush(addrs, sizes, rmplace, contents, addr, size);
        queue[addplace] := addr;
        sizeQueue[addplace] := size;
        addrs, sizes := addrs[addplace := addr], sizes[addplace := size];
        addplace := addplace + 1;
        if addplace == maxQueue {
          addplace := 0;
        }
        contents, accepted := contents + [Frame(addr, size)], accepted + [Frame(addr, size)];
        return true;
      }
      return false;
    }

    /** tte_send_data: the oldest pending frame leaves. */
    method SendData() returns (frame: Frame)
      requires Valid() && contents != []
      modifies this`rmplace, this`addrs, this`contents, this`sent, queue
      ensures Valid()
      ensures frame == old(contents)[0] && contents == old(contents)[1..] && sent == old(sent) + [frame]
    {
      FirstPlaces(addrs, sizes, rmplace, contents);
      RingPop(addrs, sizes, rmplace, contents);
      var txAddr := queue[rmplace];
      queue[rmplace] := 0;
      frame := Frame(txAddr, sizeQueue[rmplace]);
      addrs := addrs[rmplace := 0];
      rmplace := rmplace + 1;
      if rmplace == maxQueue {
        rmplace := 0;
      }
      contents, sent := contents[1..], sent + [frame];
    }

    /** The transmit part of tte_clock_tick. */
    method Transmit() returns (out: seq<Frame>)
      requires Valid()
      modifies this, queue
      ensures Valid() && accepted == old(accepted)
      ensures old(contents) == [] ==> out == [] && contents == [] && sent == old(sent)
      ensures old(contents) != [] ==>
                out == [old(contents)[0]] && contents == old(contents)[1..] && sent == old(sent) + out
    {
      out := [];
      FirstPlaces(addrs, sizes, rmplace, contents);
      if queue[rmplace] > 0 {
        var f := SendData();
        out := [f];
      }
    }
  }

  // ---- Abstract network of bounded queues -------------------------------

  /** All queues with what each link has transmitted, and the current slot. */
  datatype Net = Net(queues: seq<seq<Frame>>, sent: seq<seq<Frame>>, place: nat)

  datatype Action = Send(link: nat, frame: Frame) | Tick

  ghost predicate WellFormed(net: Net, caps: seq<nat>) {
    && |net.queues| == |net.sent| == |caps|
    && forall i :: 0 <= i < |caps| ==> |net.queues[i]| <= caps[i]
  }

  ghost predicate Accepted(net: Net, caps: seq<nat>, a: Action)
    requires WellFormed(net, caps)
  {
    a.Send? && a.link < |caps| && |net.queues[a.link]| < caps[a.link]
  }

  ghost function Perform(net: Net, caps: seq<nat>, owners: seq<nat>, a: Action): (r: Net)
    requires WellFormed(net, caps)
    ensures WellFormed(r, caps)
  {
    match a
    case Send(i, f) =>
      if Accepted(net, caps, a) then net.(queues := net.queues[i := net.queues[i] + [f]]) else net
    case Tick =>
      if net.place >= |owners| then net
      else
        var i, net' := owners[net.place], net.(place := net.place + 1);
        if i < |caps| && net.queues[i] != []
        then net'.(sent := net.sent[i := net.sent[i] + [net.queues[i][0]]],
                   queues := net.queues[i := net.queues[i][1..]])
        else net'
  }

  ghost function PerformAll(net: Net, caps: seq<nat>, owners: seq<nat>, acts: seq<Action>): (r: Net)
    requires WellFormed(net, caps)
    ensures WellFormed(r, caps)
  {
    if acts == [] then net
    else Perform(PerformAll(net, caps, owners, acts[..|acts| - 1]), caps, owners, acts[|acts| - 1])
  }

  /** The frames that link i accepts during a run, in order. */
  ghost function AcceptedFrames(net: Net, caps: seq<nat>, owners: seq<nat>, acts: seq<Action>, i: nat): seq<Frame>
    requires WellFormed(net, caps)
  {
    if acts == [] then []
    else
      var front, a := acts[..|acts| - 1], acts[|acts| - 1];
      AcceptedFrames(net, caps, owners, front, i)
      + (if Accepted(PerformAll(net, caps, owners, front), caps, a) && a.link == i then [a.frame] else [])
  }

  lemma PerformKeepsStream(net: Net, caps: seq<nat>, owners: seq<nat>, a: Action, i: nat)
    requires WellFormed(net, caps) && i < |caps|
    ensures var net' := Perform(net, caps, owners, a);
            net'.sent[i] + net'.queues[i]
            == net.sent[i] + net.queues[i] + (if Accepted(net, caps, a) && a.link == i then [a.frame] else [])
  {
    var net' := Perform(net, caps, owners, a);
    if a.Tick? && net'.queues[i] != net.queues[i] {
      assert net.queues[i] == [net.queues[i][0]] + net'.queues[i];
    }
  }

  /** Over every run of sends and ticks: what left the link followed by what is
      still queued is what was there before followed by what was accepted. */
  lemma {:induction false} FifoRun(net: Net, caps: seq<nat>, owners: seq<nat>, acts: seq<Action>, i: nat)
    requires WellFormed(net, caps) && i < |caps|
    ensures var net' := PerformAll(net, caps, owners, acts);
            net'.sent[i] + net'.queues[i]
            == net.sent[i] + net.queues[i] + AcceptedFrames(net, caps, owners, acts, i)
  {
    if acts != [] {
      var front := acts[..|acts| - 1];
      FifoRun(net, caps, owners, front, i);
      var mid := PerformAll(net, caps, owners, front);
      PerformKeepsStream(mid, caps, owners, acts[|acts| - 1], i);
    }
  }

  ghost function Ticks(acts: seq<Action>): nat {
    if acts == [] then 0 else Ticks(acts[..|acts| - 1]) + (if acts[|acts| - 1].Tick? then 1 else 0)
  }

  /** Number of slots of link i in an owner table. */
  ghost function Share(owners: seq<nat>, i: nat): nat {
    if owners == [] then 0
    else Share(owners[..|owners| - 1], i) + (if owners[|owners| - 1] == i then 1 else 0)
  }

  /** A run from the start of the cluster: each own slot sends one more of the
      frames that were pending at the start. */
  lemma {:induction false} EachSlotSends(net: Net, caps: seq<nat>, owners: seq<nat>, acts: seq<Action>, i: nat)
    requires WellFormed(net, caps) && i < |caps| && net.place == 0 && Ticks(acts) <= |owners|
    ensures var net' := PerformAll(net, caps, owners, acts);
            && net'.place == Ticks(acts)
            && (|net.sent[i]| + Share(owners[..Ticks(acts)], i) <= |net'.sent[i]|
                || |net.sent[i] + net.queues[i]| <= |net'.sent[i]|)
  {
    if acts != [] {
      var front, a := acts[..|acts| - 1], acts[|acts| - 1];
      EachSlotSends(net, caps, owners, front, i);
      FifoRun(net, caps, owners, front, i);
      if a.Tick? {
        assert owners[..Ticks(acts)][..Ticks(front)] == owners[..Ticks(front)];
      }
    }
  }

  /** All frames pending at the start of a cluster cycle have been transmitted,
      in order, by its end, whatever else is queued meanwhile. */
  lemma DrainsInOneCycle(net: Net, caps: seq<nat>, owners: seq<nat>, acts: seq<Action>, i: nat)
    requires WellFormed(net, caps) && i < |caps| && net.place == 0
    requires Ticks(acts) == |owners| && caps[i] <= Share(owners, i)
    ensures net.sent[i] + net.queues[i] <= PerformAll(net, caps, owners, acts).sent[i]
  {
    EachSlotSends(net, caps, owners, acts, i);
    FifoRun(net, caps, owners, acts, i);
    assert owners[..|owners|] == owners;
    var net' := PerformAll(net, caps, owners, acts);
    var before := net.sent[i] + net.queues[i];
    assert |before| <= |net'.sent[i]|;
    assert net'.sent[i] == (net'.sent[i] + net'.queues[i])[..|net'.sent[i]|];
  }

  lemma {:induction false} ShareIsOwned(slots: seq<Slot>, owners: seq<nat>, i: nat)
    requires |slots| == |owners| && forall k :: 0 <= k < |slots| ==> owners[k] == slots[k].link
    ensures Share(owners, i) == Owned(slots, i)
  {
    if slots != [] { ShareIsOwned(slots[..|slots| - 1], owners[..|owners| - 1], i); }
  }

  /** The generated schedule drains every data link once per cluster cycle. */
  lemma ScheduleDrains(vls: seq<Link>, cluster: nat, startTick: nat, sched: seq<nat>, vlSched: seq<nat>,
                       net: Net, caps: seq<nat>, acts: seq<Action>, i: nat)
    requires ValidLinks(vls, cluster) && |sched| == |vlSched| == Ticks(acts)
    requires IsMerge(vls, cluster, TableSlots(startTick, sched, vlSched))
    requires |caps| == |vls| && forall j :: 0 <= j < |vls| ==> caps[j] == MaxQueue(vls[j], cluster)
    requires WellFormed(net, caps) && net.place == 0 && i < |vls| - 1
    ensures net.sent[i] + net.queues[i] <= PerformAll(net, caps, vlSched, acts).sent[i]
  {
    OwnsItsShare(vls, cluster, TableSlots(startTick, sched, vlSched), i);
    ShareIsOwned(TableSlots(startTick, sched, vlSched), vlSched, i);
    DrainsInOneCycle(net, caps, vlSched, acts, i);
  }
}
