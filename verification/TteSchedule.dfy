/**
  Schedule generation of the TTEthernet end system (c/ethlib/tte.c).

  Every virtual link (VL) is periodic; the last one is the dummy link that puts
  the integration frames (PCFs) into the schedule.  The generator merges the
  activations of all links into one table of gaps and one table of owners.
 */
module TteSchedule {
  import Arith

  /** The two schedule parameters of a `struct VL`, in schedule units. */
  datatype Link = Link(start: nat, period: nat)

  /** One entry of the merged schedule: link number `link` is served at `time`. */
  datatype Slot = Slot(time: nat, link: nat)

  ghost predicate DataLink(vl: Link, cluster: nat) {
    vl.start < vl.period && cluster % vl.period == 0
  }

  ghost predicate PcfLink(vl: Link, cluster: nat) {
    0 < vl.period == vl.start && cluster % vl.period == 0
  }

  predicate Positive(vls: seq<Link>) {
    forall vl <- vls :: 0 < vl.period
  }

  /** `(unsigned char) cluster_period/period`: the cast applies to the cluster period. */
  function MaxQueue(vl: Link, cluster: nat): nat
    requires 0 < vl.period
  {
    (cluster % 256) / vl.period
  }

  /** The cast keeps the queue as long as the link needs exactly for clusters that fit a byte. */
  lemma CastKeepsLength(vl: Link, cluster: nat)
    requires 0 < vl.period && 0 < cluster && cluster % vl.period == 0
    ensures MaxQueue(vl, cluster) == cluster / vl.period <==> cluster < 256
  {
    var p := vl.period;
    var q, m := cluster / p, MaxQueue(vl, cluster);
    assert cluster == q * p;
    if cluster >= 256 {
      assert m * p <= cluster % 256 < cluster;
    }
  }

  function TotalQueue(vls: seq<Link>, cluster: nat): nat
    requires Positive(vls)
  {
    if vls == [] then 0
    else TotalQueue(vls[..|vls| - 1], cluster) + MaxQueue(vls[|vls| - 1], cluster)
  }

  /** What the configuration must meet: the tables are indexed by bytes, and at
      least one activation precedes the end of the cluster. */
  ghost predicate ValidLinks(vls: seq<Link>, cluster: nat) {
    && 0 < |vls| && 0 < cluster < 256
    && (forall i :: 0 <= i < |vls| - 1 ==> DataLink(vls[i], cluster))
    && PcfLink(vls[|vls| - 1], cluster)
    && Positive(vls)
    && TotalQueue(vls, cluster) < 256
    && (|vls| == 1 ==> vls[0].period < cluster)
  }

  /** Activation number k of a link. */
  ghost function At(vl: Link, k: nat): nat {
    vl.start + k * vl.period
  }

  ghost predicate Activates(vl: Link, t: nat) {
    exists k: nat :: At(vl, k) == t
  }

  ghost predicate Earlier(a: Slot, b: Slot) {
    a.time < b.time || (a.time == b.time && a.link < b.link)
  }

  ghost predicate Sorted(slots: seq<Slot>) {
    forall j, k :: 0 <= j < k < |slots| ==> Earlier(slots[j], slots[k])
  }

  ghost predicate AllActivations(vls: seq<Link>, slots: seq<Slot>) {
    forall k :: 0 <= k < |slots| ==> slots[k].link < |vls| && Activates(vls[slots[k].link], slots[k].time)
  }

  /** `slots` is the sorted merge of all activations before the end of the
      cluster (ties by lowest link), closed by the first activation at its end. */
  ghost predicate IsMerge(vls: seq<Link>, cluster: nat, slots: seq<Slot>) {
    && 0 < |slots|
    && Sorted(slots)
    && AllActivations(vls, slots)
    && (forall j :: 0 <= j < |slots| - 1 ==> slots[j].time < cluster)
    && (forall i: nat, k: nat :: i < |vls| && At(vls[i], k) < cluster ==> Slot(At(vls[i], k), i) in slots)
    && slots[|slots| - 1].time == cluster
    && (forall i :: 0 <= i < slots[|slots| - 1].link ==> !Activates(vls[i], cluster))
  }

  function Sum(s: seq<nat>): nat {
    if s == [] then 0 else Sum(s[..|s| - 1]) + s[|s| - 1]
  }

  /** What the tick handler makes of the two tables: slot k is reached after the first k gaps. */
  ghost function TableSlots(startTick: nat, sched: seq<nat>, vlSched: seq<nat>): (slots: seq<Slot>)
    requires |sched| == |vlSched|
    ensures |slots| == |sched|
  {
    seq(|sched|, k requires 0 <= k < |sched| => Slot(startTick + Sum(sched[..k]), vlSched[k]))
  }

  ghost function Owned(slots: seq<Slot>, i: nat): nat {
    if slots == [] then 0
    else Owned(slots[..|slots| - 1], i) + (if slots[|slots| - 1].link == i then 1 else 0)
  }

  // ---- Invariant of the merge -------------------------------------------

  /** `slots` holds exactly the activations before `cur`, where cur[i] is the
      next activation of link i (the array VLcurrent). */
  ghost predicate Cut(vls: seq<Link>, cur: seq<nat>, slots: seq<Slot>) {
    && |cur| == |vls|
    && Sorted(slots)
    && AllActivations(vls, slots)
    && (forall i :: 0 <= i < |vls| ==> cur[i] == At(vls[i], Owned(slots, i)))
    && (forall i: nat, k: nat :: i < |vls| && k < Owned(slots, i) ==> Slot(At(vls[i], k), i) in slots)
    && (forall i, j :: 0 <= i < |vls| && 0 <= j < |slots| ==> Earlier(slots[j], Slot(cur[i], i)))
  }

  ghost predicate IsNext(cur: seq<nat>, vl: nat) {
    vl < |cur| && forall i :: 0 <= i < |cur| && i != vl ==> Earlier(Slot(cur[vl], vl), Slot(cur[i], i))
  }

  lemma AtOrder(vl: Link, j: nat, k: nat)
    requires 0 < vl.period
    ensures At(vl, j) < At(vl, k) <==> j < k
  {
    if j < k { Arith.MulStep(j, k, vl.period); }
    if k < j { Arith.MulStep(k, j, vl.period); }
  }

  lemma CutStep(vls: seq<Link>, cur: seq<nat>, slots: seq<Slot>, vl: nat)
    requires Positive(vls) && Cut(vls, cur, slots) && IsNext(cur, vl)
    ensures Cut(vls, cur[vl := cur[vl] + vls[vl].period], slots + [Slot(cur[vl], vl)])
  {
    var s := Slot(cur[vl], vl);
    var slots', cur' := slots + [s], cur[vl := cur[vl] + vls[vl].period];
    assert slots'[..|slots|] == slots;
    forall i: nat, k: nat | i < |vls| && k < Owned(slots', i)
      ensures Slot(At(vls[i], k), i) in slots'
    {
      if k < Owned(slots, i) { assert Slot(At(vls[i], k), i) in slots; }
      else { assert slots'[|slots|] == Slot(At(vls[i], k), i); }
    }
    assert (Owned(slots, vl) + 1) * vls[vl].period == Owned(slots, vl) * vls[vl].period + vls[vl].period;
  }

  // ---- Counting ---------------------------------------------------------

  /** Number of activations of a link before the end of the cluster. */
  ghost function Before(vls: seq<Link>, cluster: nat, i: nat): nat
    requires Positive(vls) && i < |vls|
  {
    if i == |vls| - 1 then MaxQueue(vls[i], cluster) - (if MaxQueue(vls[i], cluster) > 0 then 1 else 0)
    else MaxQueue(vls[i], cluster)
  }

  ghost function OwnedUpTo(slots: seq<Slot>, n: nat): nat {
    if n == 0 then 0 else OwnedUpTo(slots, n - 1) + Owned(slots, n - 1)
  }

  lemma {:induction false} OwnedAppend(slots: seq<Slot>, n: nat)
    requires slots != []
    ensures OwnedUpTo(slots, n) == OwnedUpTo(slots[..|slots| - 1], n) + (if slots[|slots| - 1].link < n then 1 else 0)
  {
    if n > 0 { OwnedAppend(slots, n - 1); }
  }

  lemma {:induction false} OwnedTotal(slots: seq<Slot>, n: nat)
    requires forall s <- slots :: s.link < n
    ensures OwnedUpTo(slots, n) == |slots|
  {
    if slots != [] {
      OwnedAppend(slots, n);
      OwnedTotal(slots[..|slots| - 1], n);
    } else {
      OwnedNone(n);
    }
  }

  lemma {:induction false} OwnedNone(n: nat)
    ensures OwnedUpTo([], n) == 0
  {
    if n > 0 { OwnedNone(n - 1); }
  }

  lemma {:induction false} TotalMonotone(vls: seq<Link>, cluster: nat, i: nat)
    requires Positive(vls) && i <= |vls|
    ensures TotalQueue(vls[..i], cluster) <= TotalQueue(vls, cluster)
  {
    if i < |vls| {
      var front := vls[..|vls| - 1];
      TotalMonotone(front, cluster, i);
      assert front[..i] == vls[..i];
    } else {
      assert vls[..i] == vls;
    }
  }

  /** The byte counter does not wrap while it adds up the queue lengths. */
  lemma TotalStep(vls: seq<Link>, cluster: nat, i: nat)
    requires ValidLinks(vls, cluster) && i < |vls|
    ensures (TotalQueue(vls[..i], cluster) + MaxQueue(vls[i], cluster)) % 256 == TotalQueue(vls[..i + 1], cluster)
  {
    assert vls[..i + 1][..i] == vls[..i];
    TotalMonotone(vls, cluster, i + 1);
  }

  /** A link has used up its share exactly when its next activation has left the cluster. */
  lemma ShareOf(vls: seq<Link>, cluster: nat, i: nat, c: nat)
    requires ValidLinks(vls, cluster) && i < |vls|
    ensures At(vls[i], c) < cluster <==> c < Before(vls, cluster, i)
    ensures i == |vls| - 1 ==> Before(vls, cluster, i) + 1 == MaxQueue(vls[i], cluster)
    ensures i == |vls| - 1 ==> At(vls[i], Before(vls, cluster, i)) == cluster
  {
    var p, q := vls[i].period, cluster / vls[i].period;
    assert i < |vls| - 1 ==> DataLink(vls[i], cluster);
    assert cluster == q * p;
    if i == |vls| - 1 { PcfShare(p, q, c); } else { DataShare(vls[i].start, p, q, c); }
  }

  lemma DataShare(start: nat, p: nat, q: nat, c: nat)
    requires start < p
    ensures start + c * p < q * p <==> c < q
  {
    if c < q { Arith.MulStep(c, q, p); } else if c > q { Arith.MulStep(q, c, p); }
  }

  lemma PcfShare(p: nat, q: nat, c: nat)
    requires 0 < p && 0 < q * p
    ensures 0 < q && (p + c * p < q * p <==> c < q - 1) && p + (q - 1) * p == q * p
  {
    Arith.MulNext(c, p);
    if c + 1 < q { Arith.MulStep(c + 1, q, p); } else if c + 1 > q { Arith.MulStep(q, c + 1, p); }
  }

  lemma {:induction false} SumOfShares(vls: seq<Link>, cluster: nat, cur: seq<nat>, slots: seq<Slot>, n: nat)
    requires ValidLinks(vls, cluster) && Cut(vls, cur, slots) && n <= |vls|
    requires forall k :: 0 <= k < |slots| ==> slots[k].time < cluster
    ensures OwnedUpTo(slots, n) <= TotalQueue(vls[..n], cluster) - (if n == |vls| then 1 else 0)
    ensures (forall i :: 0 <= i < n ==> cluster <= cur[i]) ==>
              OwnedUpTo(slots, n) == TotalQueue(vls[..n], cluster) - (if n == |vls| then 1 else 0)
  {
    if n > 0 {
      var i := n - 1;
      SumOfShares(vls, cluster, cur, slots, i);
      assert vls[..n][..i] == vls[..i] && vls[..n][i] == vls[i];
      OwnedWithinShare(vls, cluster, cur, slots, i);
    }
  }

  lemma OwnedWithinShare(vls: seq<Link>, cluster: nat, cur: seq<nat>, slots: seq<Slot>, i: nat)
    requires ValidLinks(vls, cluster) && Cut(vls, cur, slots) && i < |vls|
    requires forall k :: 0 <= k < |slots| ==> slots[k].time < cluster
    ensures Owned(slots, i) <= Before(vls, cluster, i)
    ensures cluster <= cur[i] ==> Owned(slots, i) == Before(vls, cluster, i)
    ensures Before(vls, cluster, i) == MaxQueue(vls[i], cluster) - (if i == |vls| - 1 then 1 else 0)
  {
    var c := Owned(slots, i);
    ShareOf(vls, cluster, i, c);
    if c > 0 {
      ShareOf(vls, cluster, i, c - 1);
      assert Slot(At(vls[i], c - 1), i) in slots;
    }
  }

  // ---- The generator ----------------------------------------------------

  /** State of the merge loop: both tables are filled for all slots but the current one's gap. */
  ghost predicate Merging(vls: seq<Link>, cluster: nat, cur: seq<nat>, slots: seq<Slot>,
                          sched: seq<nat>, vlSched: seq<nat>)
    requires Positive(vls)
  {
    && Cut(vls, cur, slots)
    && 0 < |slots| < |sched| == |vlSched| == TotalQueue(vls, cluster)
    && (forall k :: 0 <= k < |slots| ==> slots[k].time < cluster && vlSched[k] == slots[k].link)
    && (forall k :: 0 <= k < |slots| - 1 ==> slots[k].time + sched[k] == slots[k + 1].time)
  }

  /** One scan of VLcurrent: the lowest index among the smallest entries below `limit`. */
  method EarliestBelow(current: array<nat>, limit: nat) returns (min: nat, vl: nat)
    requires exists i :: 0 <= i < current.Length && current[i] < limit
    ensures vl < current.Length && min == current[vl] < limit && IsNext(current[..], vl)
  {
    min, vl := limit, 0;
    for i := 0 to current.Length
      invariant min <= limit && forall j :: 0 <= j < i ==> min <= current[j]
      invariant min < limit ==> vl < i && min == current[vl] && forall j :: 0 <= j < vl ==> min < current[j]
    {
      if current[i] < min {
        min, vl := current[i], i;
      }
    }
  }

  /** First loop of the generator: earliest start, VLcurrent and the number of slots. */
  method Prepare(vls: seq<Link>, cluster: nat) returns (current: array<nat>, min: nat, vl: nat, maxSched: nat)
    requires ValidLinks(vls, cluster)
    ensures fresh(current) && Cut(vls, current[..], [])
    ensures vl < |vls| && min == current[vl] < cluster && IsNext(current[..], vl)
    ensures maxSched == TotalQueue(vls, cluster)
  {
    current := new nat[|vls|];
    min, vl, maxSched := cluster, 0, 0;
    for i := 0 to |vls|
      invariant forall j :: 0 <= j < i ==> current[j] == vls[j].start
      invariant maxSched == TotalQueue(vls[..i], cluster)
      invariant min <= cluster && forall j :: 0 <= j < i ==> min <= vls[j].start
      invariant min < cluster ==> vl < i && min == vls[vl].start && forall j :: 0 <= j < vl ==> min < vls[j].start
    {
      if vls[i].start < min {
        min, vl := vls[i].start, i;
      }
      current[i] := vls[i].start;
      TotalStep(vls, cluster, i);
      maxSched := (maxSched + MaxQueue(vls[i], cluster)) % 256;
    }
    assert vls[..|vls|] == vls;
    SomeStart(vls, cluster);
  }

  /** `slots` is complete and both tables describe it. */
  ghost predicate Tabulated(vls: seq<Link>, cluster: nat, slots: seq<Slot>, sched: seq<nat>, vlSched: seq<nat>)
    requires Positive(vls)
  {
    && IsMerge(vls, cluster, slots)
    && |slots| == |sched| == |vlSched| == TotalQueue(vls, cluster)
    && (forall k :: 0 <= k < |slots| ==> vlSched[k] == slots[k].link)
    && (forall k :: 0 <= k < |slots| - 1 ==> slots[k].time + sched[k] == slots[k + 1].time)
  }

  /** One round of the merge loop; `time` is the activation written last. */
  method MergeRound(vls: seq<Link>, limit: nat, current: array<nat>, sched: array<nat>, vlSched: array<nat>,
                    index: nat, time: nat, ghost cur: seq<nat>, ghost gaps: seq<nat>, ghost owners: seq<nat>)
    returns (min: nat, vl: nat, gap: nat)
    requires current != sched && current != vlSched && sched != vlSched
    requires current[..] == cur && sched[..] == gaps && vlSched[..] == owners
    requires 0 < |vls| == |cur| && index + 1 < |gaps| == |owners|
    requires cur[|vls| - 1] < limit && forall i :: 0 <= i < |cur| ==> time <= cur[i]
    modifies current, sched, vlSched
    ensures vl < |vls| && time <= min == cur[vl] && IsNext(cur, vl)
    ensures current[..] == cur[vl := min + vls[vl].period]
    ensures gap == min - time && sched[..] == gaps[index := gap]
    ensures vlSched[..] == owners[index + 1 := vl]
  {
    assert current[|vls| - 1] == cur[|vls| - 1];
    min, vl := EarliestBelow(current, limit);
    assert current[vl] == cur[vl];
    gap := min - time;
    sched[index] := gap;
    if index < sched.Length - 1 {
      vlSched[index + 1] := vl;
    }
    current[vl] := current[vl] + vls[vl].period;
  }

  /** The merge loop, entered with the first slot recorded. */
  method MergeLoop(vls: seq<Link>, cluster: nat, current: array<nat>, sched: array<nat>, vlSched: array<nat>,
                   startTick: nat, vl0: nat)
    requires ValidLinks(vls, cluster) && current != sched && current != vlSched && sched != vlSched
    requires Merging(vls, cluster, current[..], [Slot(startTick, vl0)], sched[..], vlSched[..])
    modifies current, sched, vlSched
    ensures IsMerge(vls, cluster, TableSlots(startTick, sched[..], vlSched[..]))
  {
    var index, time := 0, startTick;
    ghost var slots, cur, gaps, owners := [Slot(startTick, vl0)], current[..], sched[..], vlSched[..];
    while true
      invariant current[..] == cur && sched[..] == gaps && vlSched[..] == owners
      invariant Merging(vls, cluster, cur, slots, gaps, owners)
      invariant |slots| == index + 1 && time == slots[index].time && startTick == slots[0].time
      decreases sched.Length - index
    {
      RoundReady(vls, cluster, cur, slots, gaps, owners);
      var min, vl, gap := MergeRound(vls, cluster * 2, current, sched, vlSched, index, time, cur, gaps, owners);
      ghost var slots' := slots + [Slot(min, vl)];
      ghost var next: nat := min + vls[vl].period;
      ghost var cur': seq<nat> := cur[vl := next];
      ghost var gaps': seq<nat> := gaps[index := gap];
      ghost var owners': seq<nat> := owners[index + 1 := vl];
      MergingStep(vls, cluster, cur, slots, gaps, owners, vl, index, gap, cur', slots', gaps', owners');
      cur, gaps, owners, slots := cur', gaps', owners', slots';
      time := min;
      if min >= cluster { break; }
      index := index + 1;
    }
    TablesAgree(startTick, gaps, owners, slots);
  }

  /** tte_generate_schedule: both tables together are the sorted merge of all
      activations, in exactly as many entries as were allocated. */
  method GenerateSchedule(vls: seq<Link>, cluster: nat)
    returns (sched: array<nat>, vlSched: array<nat>, startTick: nat, maxSched: nat)
    requires ValidLinks(vls, cluster)
    ensures fresh(sched) && fresh(vlSched)
    ensures sched.Length == vlSched.Length == maxSched == TotalQueue(vls, cluster)
    ensures IsMerge(vls, cluster, TableSlots(startTick, sched[..], vlSched[..]))
  {
    var current, min, vl, max := Prepare(vls, cluster);
    maxSched := max;
    startTick := min;
    ghost var next: nat := min + vls[vl].period;
    ghost var cur: seq<nat> := current[..][vl := next];
    FirstSlot(vls, cluster, current[..], vl);
    current[vl] := current[vl] + vls[vl].period;
    sched := new nat[maxSched];
    vlSched := new nat[maxSched];
    vlSched[0] := vl;
    assert current[..] == cur;
    MergeLoop(vls, cluster, current, sched, vlSched, startTick, vl);
  }

  lemma RoundReady(vls: seq<Link>, cluster: nat, cur: seq<nat>, slots: seq<Slot>, gaps: seq<nat>, owners: seq<nat>)
    requires ValidLinks(vls, cluster) && Merging(vls, cluster, cur, slots, gaps, owners)
    ensures cur[|vls| - 1] < cluster * 2
    ensures forall i :: 0 <= i < |cur| ==> slots[|slots| - 1].time <= cur[i]
  {
    PcfStillDue(vls, cluster, cur, slots);
    forall i | 0 <= i < |cur| ensures slots[|slots| - 1].time <= cur[i] {
      assert Earlier(slots[|slots| - 1], Slot(cur[i], i));
    }
  }

  lemma FirstSlot(vls: seq<Link>, cluster: nat, cur: seq<nat>, vl: nat)
    requires ValidLinks(vls, cluster) && Cut(vls, cur, []) && IsNext(cur, vl) && cur[vl] < cluster
    ensures Cut(vls, cur[vl := cur[vl] + vls[vl].period], [Slot(cur[vl], vl)])
    ensures 1 < TotalQueue(vls, cluster)
  {
    CutStep(vls, cur, [], vl);
    assert [] + [Slot(cur[vl], vl)] == [Slot(cur[vl], vl)];
    RoomLeft(vls, cluster, cur[vl := cur[vl] + vls[vl].period], [Slot(cur[vl], vl)]);
  }

  /** A round keeps the tables aligned, and the round that reaches the end of the
      cluster is the one that fills the last owner entry. */
  lemma MergingStep(vls: seq<Link>, cluster: nat, cur: seq<nat>, slots: seq<Slot>, gaps: seq<nat>, owners: seq<nat>,
                    vl: nat, index: nat, gap: nat, cur': seq<nat>, slots': seq<Slot>, gaps': seq<nat>, owners': seq<nat>)
    requires ValidLinks(vls, cluster) && Merging(vls, cluster, cur, slots, gaps, owners) && IsNext(cur, vl)
    requires index == |slots| - 1 && slots[index].time + gap == cur[vl]
    requires cur' == cur[vl := cur[vl] + vls[vl].period] && slots' == slots + [Slot(cur[vl], vl)]
    requires gaps' == gaps[index := gap] && owners' == owners[index + 1 := vl]
    ensures if cur[vl] < cluster
            then Merging(vls, cluster, cur', slots', gaps', owners')
            else Tabulated(vls, cluster, slots', gaps', owners')
  {
    CutStep(vls, cur, slots, vl);
    if cur[vl] < cluster {
      RoomLeft(vls, cluster, cur', slots');
    } else {
      MergeDone(vls, cluster, cur, slots, vl);
    }
  }

  lemma SomeStart(vls: seq<Link>, cluster: nat)
    requires ValidLinks(vls, cluster)
    ensures vls[0].start < cluster
  {
    if |vls| > 1 {
      assert DataLink(vls[0], cluster);
      assert cluster == cluster / vls[0].period * vls[0].period;
    }
  }

  lemma RoomLeft(vls: seq<Link>, cluster: nat, cur: seq<nat>, slots: seq<Slot>)
    requires ValidLinks(vls, cluster) && Cut(vls, cur, slots)
    requires forall k :: 0 <= k < |slots| ==> slots[k].time < cluster
    ensures |slots| < TotalQueue(vls, cluster)
  {
    OwnedTotal(slots, |vls|);
    SumOfShares(vls, cluster, cur, slots, |vls|);
    assert vls[..|vls|] == vls;
  }

  lemma PcfStillDue(vls: seq<Link>, cluster: nat, cur: seq<nat>, slots: seq<Slot>)
    requires ValidLinks(vls, cluster) && Cut(vls, cur, slots)
    requires forall k :: 0 <= k < |slots| ==> slots[k].time < cluster
    ensures cur[|vls| - 1] <= cluster
  {
    var i := |vls| - 1;
    OwnedWithinShare(vls, cluster, cur, slots, i);
    ShareOf(vls, cluster, i, Before(vls, cluster, i));
    AtOrder(vls[i], Before(vls, cluster, i), Owned(slots, i));
  }

  /** The round that reaches the end of the cluster completes the merge, in the last table entry. */
  lemma MergeDone(vls: seq<Link>, cluster: nat, cur: seq<nat>, slots: seq<Slot>, vl: nat)
    requires ValidLinks(vls, cluster) && Cut(vls, cur, slots)
    requires forall k :: 0 <= k < |slots| ==> slots[k].time < cluster
    requires IsNext(cur, vl) && cluster <= cur[vl]
    ensures cur[vl] == cluster
    ensures |slots| + 1 == TotalQueue(vls, cluster)
    ensures IsMerge(vls, cluster, slots + [Slot(cur[vl], vl)])
  {
    PcfStillDue(vls, cluster, cur, slots);
    assert cur[vl] == cluster by { assert vl != |vls| - 1 ==> Earlier(Slot(cur[vl], vl), Slot(cur[|vls| - 1], |vls| - 1)); }
    forall i | 0 <= i < |vls| ensures cluster <= cur[i] {
      assert i != vl ==> Earlier(Slot(cur[vl], vl), Slot(cur[i], i));
    }
    NothingMissing(vls, cluster, cur, slots);
    forall i | 0 <= i < vl
      ensures !Activates(vls[i], cluster)
    {
      assert Earlier(Slot(cur[vl], vl), Slot(cur[i], i));
      forall k: nat ensures At(vls[i], k) != cluster {
        AtOrder(vls[i], k, Owned(slots, i));
      }
    }
    CutStep(vls, cur, slots, vl);
  }

  lemma NothingMissing(vls: seq<Link>, cluster: nat, cur: seq<nat>, slots: seq<Slot>)
    requires ValidLinks(vls, cluster) && Cut(vls, cur, slots)
    requires forall k :: 0 <= k < |slots| ==> slots[k].time < cluster
    requires forall i :: 0 <= i < |vls| ==> cluster <= cur[i]
    ensures |slots| + 1 == TotalQueue(vls, cluster)
    ensures forall i: nat, k: nat :: i < |vls| && At(vls[i], k) < cluster ==> Slot(At(vls[i], k), i) in slots
  {
    OwnedTotal(slots, |vls|);
    SumOfShares(vls, cluster, cur, slots, |vls|);
    assert vls[..|vls|] == vls;
    forall i: nat, k: nat | i < |vls| && At(vls[i], k) < cluster
      ensures Slot(At(vls[i], k), i) in slots
    {
      AtOrder(vls[i], k, Owned(slots, i));
    }
  }

  lemma {:induction false} GapsAddUp(gaps: seq<nat>, slots: seq<Slot>, k: nat)
    requires k < |slots| <= |gaps|
    requires forall j :: 0 <= j < |slots| - 1 ==> slots[j].time + gaps[j] == slots[j + 1].time
    ensures slots[0].time + Sum(gaps[..k]) == slots[k].time
  {
    if k > 0 {
      GapsAddUp(gaps, slots, k - 1);
      assert gaps[..k][..k - 1] == gaps[..k - 1];
    }
  }

  lemma TablesAgree(startTick: nat, sched: seq<nat>, vlSched: seq<nat>, slots: seq<Slot>)
    requires |sched| == |vlSched| == |slots| > 0 && startTick == slots[0].time
    requires forall k :: 0 <= k < |slots| ==> vlSched[k] == slots[k].link
    requires forall k :: 0 <= k < |slots| - 1 ==> slots[k].time + sched[k] == slots[k + 1].time
    ensures TableSlots(startTick, sched, vlSched) == slots
  {
    forall k | 0 <= k < |slots|
      ensures TableSlots(startTick, sched, vlSched)[k] == slots[k]
    {
      GapsAddUp(sched, slots, k);
    }
  }

  // ---- Consequences for every merged schedule ---------------------------

  /** The gaps span the time from the first activation to the end of the cluster. */
  lemma GapsSpanCluster(vls: seq<Link>, cluster: nat, startTick: nat, sched: seq<nat>, vlSched: seq<nat>)
    requires |sched| == |vlSched| && IsMerge(vls, cluster, TableSlots(startTick, sched, vlSched))
    ensures 0 < |sched| && Sum(sched[..|sched| - 1]) == cluster - startTick
  {
    var slots := TableSlots(startTick, sched, vlSched);
    assert slots[|slots| - 1].time == startTick + Sum(sched[..|sched| - 1]);
  }

  /** The description leaves no freedom: at most one slot list is a merge. */
  lemma MergeUnique(vls: seq<Link>, cluster: nat, a: seq<Slot>, b: seq<Slot>)
    requires IsMerge(vls, cluster, a) && IsMerge(vls, cluster, b)
    ensures a == b
  {
    if |a| <= |b| {
      MergePrefix(vls, cluster, a, b, |a|);
    } else {
      MergePrefix(vls, cluster, b, a, |b|);
    }
  }

  lemma {:induction false} MergePrefix(vls: seq<Link>, cluster: nat, a: seq<Slot>, b: seq<Slot>, n: nat)
    requires IsMerge(vls, cluster, a) && IsMerge(vls, cluster, b) && n <= |a| <= |b|
    ensures a[..n] == b[..n]
    ensures n == |a| ==> |a| == |b|
  {
    if n > 0 {
      var k := n - 1;
      MergePrefix(vls, cluster, a, b, k);
      if a[k].time < cluster {
        NotBefore(vls, cluster, a, b, k);
      }
      if b[k].time < cluster {
        NotBefore(vls, cluster, b, a, k);
      }
      assert a[k] == b[k];
      assert a[..n] == a[..k] + [a[k]] && b[..n] == b[..k] + [b[k]];
    }
  }

  lemma NotBefore(vls: seq<Link>, cluster: nat, a: seq<Slot>, b: seq<Slot>, k: nat)
    requires IsMerge(vls, cluster, a) && IsMerge(vls, cluster, b)
    requires k < |a| && k < |b| && a[..k] == b[..k] && a[k].time < cluster
    ensures a[k] == b[k] || Earlier(b[k], a[k])
  {
    assert forall x :: 0 <= x < k ==> a[..k][x] == b[..k][x];
    assert a[k] in b;
    var j :| 0 <= j < |b| && b[j] == a[k];
  }

  lemma {:induction false} OwnedGrows(slots: seq<Slot>, a: nat, b: nat, i: nat)
    requires a <= b <= |slots|
    ensures Owned(slots[..a], i) <= Owned(slots[..b], i)
  {
    if a < b {
      OwnedGrows(slots, a, b - 1, i);
      assert slots[..b][..b - 1] == slots[..b - 1];
    }
  }

  /** Every data link owns at least as many slots of the cluster as its queue holds frames. */
  lemma OwnsItsShare(vls: seq<Link>, cluster: nat, slots: seq<Slot>, i: nat)
    requires ValidLinks(vls, cluster) && IsMerge(vls, cluster, slots) && i < |vls| - 1
    ensures MaxQueue(vls[i], cluster) <= Owned(slots, i)
  {
    var n := MaxQueue(vls[i], cluster);
    if n > 0 {
      var q := ServedBy(vls, cluster, slots, i, n);
      OwnedGrows(slots, q + 1, |slots|, i);
      assert slots[..|slots|] == slots;
    }
  }

  lemma {:induction false} ServedBy(vls: seq<Link>, cluster: nat, slots: seq<Slot>, i: nat, k: nat) returns (q: nat)
    requires ValidLinks(vls, cluster) && IsMerge(vls, cluster, slots) && i < |vls| - 1
    requires 0 < k <= MaxQueue(vls[i], cluster)
    ensures q < |slots| && slots[q] == Slot(At(vls[i], k - 1), i) && k <= Owned(slots[..q + 1], i)
  {
    q := SlotOf(vls, cluster, slots, i, k - 1);
    if k > 1 {
      var q0 := ServedBy(vls, cluster, slots, i, k - 1);
      AtOrder(vls[i], k - 2, k - 1);
      CountOnce(slots, q0, q);
    } else {
      assert slots[..q + 1][..q] == slots[..q];
    }
  }

  lemma SlotOf(vls: seq<Link>, cluster: nat, slots: seq<Slot>, i: nat, k: nat) returns (q: nat)
    requires ValidLinks(vls, cluster) && IsMerge(vls, cluster, slots) && i < |vls| - 1
    requires k < MaxQueue(vls[i], cluster)
    ensures q < |slots| && slots[q] == Slot(At(vls[i], k), i)
  {
    ShareOf(vls, cluster, i, k);
    assert Slot(At(vls[i], k), i) in slots;
    q :| 0 <= q < |slots| && slots[q] == Slot(At(vls[i], k), i);
  }

  lemma CountOnce(slots: seq<Slot>, p: nat, q: nat)
    requires Sorted(slots) && p < |slots| && q < |slots|
    requires slots[p].time < slots[q].time
    ensures Owned(slots[..p + 1], slots[q].link) < Owned(slots[..q + 1], slots[q].link)
  {
    OwnedGrows(slots, p + 1, q, slots[q].link);
    assert slots[..q + 1][..q] == slots[..q];
  }
}
