/**
  Runs of the boot handshake (c/bootloader/bootloader.c) that lose a signal, for
  every number of cores that allows it, and the exact core counts.
 */
module BootHangRuns {
  import opened BootHandshake
  import opened BootHangs

  // ---- Putting runs together --------------------------------------------

  lemma {:induction false} Joined(s: State, a: seq<Action>, m: State, b: seq<Action>, e: State)
    requires Leads(s, a, m) && Leads(m, b, e)
    ensures Leads(s, a + b, e)
    decreases |a|
  {
    if a == [] {
      assert a + b == b;
    } else {
      assert (a + b)[1..] == a[1..] + b;
      Joined(Next(s, a[0]), a[1..], m, b, e);
    }
  }

  /** One more action. */
  lemma Then(s: State, acts: seq<Action>, m: State, a: Action) returns (acts': seq<Action>, e: State)
    requires Leads(s, acts, m) && |m.status| == |m.slave| && Enabled(m, a)
    ensures Leads(s, acts', e) && e == Next(m, a)
  {
    acts', e := acts + [a], Next(m, a);
    assert [a][1..] == [];
    assert Leads(m, [a], e);
    Joined(s, acts, m, [a], e);
  }

  // ---- The slaves move phase by phase -----------------------------------

  /** At power-up, waiting for BOOT, waiting for INIT, started, in the return loop. */
  datatype Phase = Off | Up | Ready | Active | Back

  ghost function After(p: Phase): Phase {
    match p
    case Off => Up
    case Up => Ready
    case Ready => Active
    case _ => Back
  }

  ghost predicate At(p: Phase, pc: SlavePc, st: Status) {
    match p
    case Off => pc == Clear
    case Up => pc == PostBoot && st == Null
    case Ready => pc == AwaitInit && st == Boot
    case Active => pc == TestEntry && st == Init
    case Back => pc == ReadReturn && st == Return
  }

  /** What the shared block must show for a slave to reach the next phase. */
  ghost predicate MayMove(s: State, p: Phase) {
    match p
    case Off => true
    case Up => s.masterStatus == Boot
    case Ready => s.masterStatus == Init
    case Active => s.entrypoint == 0
    case Back => false
  }

  ghost predicate SizesOk(s: State) { 1 <= |s.slave| == |s.status| }

  /** Only slave i has moved; powering up also clears the master's fields. */
  ghost predicate Moved(s: State, s': State, i: nat, p: Phase) {
    && SizesOk(s) && SizesOk(s') && |s'.slave| == |s.slave| && s'.master == s.master
    && (p != Off ==> s'.masterStatus == s.masterStatus && s'.entrypoint == s.entrypoint)
    && (p == Off ==> s'.entrypoint == 0)
    && forall j :: 0 <= j < |s.slave| && j != i ==> s'.slave[j] == s.slave[j] && s'.status[j] == s.status[j]
  }

  lemma Move(s: State, i: nat, p: Phase) returns (acts: seq<Action>, e: State)
    requires SizesOk(s) && IsSlave(s, i) && At(p, s.slave[i], s.status[i]) && MayMove(s, p)
    ensures Leads(s, acts, e) && Moved(s, e, i, p) && At(After(p), e.slave[i], e.status[i])
  {
    acts, e := Then(s, [], s, SlaveStep(i));
    acts, e := Then(s, acts, e, SlaveStep(i));
    if p == Off || p == Ready {
      acts, e := Then(s, acts, e, SlaveStep(i));
    }
  }

  /** Slaves below k are in the next phase, the others still in phase p. */
  ghost predicate Swept(s: State, p: Phase, k: nat) {
    && SizesOk(s)
    && forall i: nat :: IsSlave(s, i) ==> At(if i < k then After(p) else p, s.slave[i], s.status[i])
  }

  /** All slaves reach the next phase while core 0 stands still. */
  lemma {:induction false} Sweep(s: State, p: Phase, k: nat) returns (acts: seq<Action>, e: State)
    requires Swept(s, p, k) && 1 <= k <= |s.slave| && MayMove(s, p) && s.entrypoint == 0
    ensures Leads(s, acts, e) && Swept(e, p, |s.slave|) && |e.slave| == |s.slave| && e.master == s.master
    ensures e.entrypoint == 0 && (p != Off ==> e.masterStatus == s.masterStatus)
    decreases |s.slave| - k
  {
    acts, e := [], s;
    if k < |s.slave| {
      var a, m := Move(s, k, p);
      var b, f := Sweep(m, p, k + 1);
      Joined(s, a, m, b, f);
      acts, e := a + b, f;
    }
  }

  /** Every slave is in phase p. */
  ghost predicate All(s: State, p: Phase) {
    SizesOk(s) && forall i: nat :: IsSlave(s, i) ==> At(p, s.slave[i], s.status[i])
  }

  lemma SweepAll(s0: State, acts0: seq<Action>, s: State, p: Phase) returns (acts: seq<Action>, e: State)
    requires Leads(s0, acts0, s) && All(s, p) && MayMove(s, p) && p != Back && s.entrypoint == 0
    ensures Leads(s0, acts, e) && All(e, After(p)) && |e.slave| == |s.slave| && e.master == s.master && e.entrypoint == 0
    ensures p != Off ==> e.masterStatus == s.masterStatus
  {
    var a, f := Sweep(s, p, 1);
    Joined(s0, acts0, s, a, f);
    acts, e := acts0 + a, f;
  }

  // ---- Core 0 moves -----------------------------------------------------

  ghost function PowerUp(n: nat): (s: State)
    requires n >= 1
    ensures Initial(s) && All(s, Off) && |s.slave| == n
  {
    State(Null, 0, seq(n, _ => Null), ClearMaster, seq(n, _ => Clear), 0, [], Round(0, 0, []))
  }

  /** Clearing the slots does not touch the slaves' places. */
  lemma {:induction false} ClearSlots(s0: State, acts0: seq<Action>, s: State) returns (acts: seq<Action>, e: State)
    requires Leads(s0, acts0, s) && All(s, Off) && s.master.ClearSlot? && s.master.i <= |s.slave| && s.entrypoint == 0
    ensures Leads(s0, acts, e) && All(e, Off) && e.master == WriteBoot(0) && |e.slave| == |s.slave| && e.entrypoint == 0
    decreases |s.slave| - s.master.i
  {
    acts, e := Then(s0, acts0, s, MasterStep);
    if s.master.i < |s.slave| {
      acts, e := ClearSlots(s0, acts, e);
    }
  }

  lemma {:induction false} WriteBoots(s0: State, acts0: seq<Action>, s: State) returns (acts: seq<Action>, e: State)
    requires Leads(s0, acts0, s) && All(s, Up) && s.master.WriteBoot? && s.master.k <= 15 && s.entrypoint == 0
    ensures Leads(s0, acts, e) && All(e, Up) && e.master == Download && |e.slave| == |s.slave| && e.entrypoint == 0
    ensures e.masterStatus == Boot
    decreases 15 - s.master.k
  {
    acts, e := Then(s0, acts0, s, MasterStep);
    if s.master.k < 15 {
      acts, e := WriteBoots(s0, acts, e);
    }
  }

  /** From power-up to the download, all slaves waiting for BOOT. */
  lemma ToDownload(n: nat) returns (acts: seq<Action>, e: State)
    requires n >= 1
    ensures Leads(PowerUp(n), acts, e) && All(e, Up) && e.master == Download && |e.slave| == n
    ensures e.entrypoint == 0 && e.masterStatus == Boot
  {
    var s := PowerUp(n);
    acts, e := Then(s, [], s, MasterStep);
    acts, e := Then(s, acts, e, MasterStep);
    acts, e := ClearSlots(s, acts, e);
    acts, e := SweepAll(s, acts, e, Off);
    acts, e := WriteBoots(s, acts, e);
  }

  /** A download that fails, the copy and INIT. */
  lemma ToInit(s0: State, acts0: seq<Action>, s: State, p: Phase) returns (acts: seq<Action>, e: State)
    requires Leads(s0, acts0, s) && All(s, p) && s.master == Download
    ensures Leads(s0, acts, e) && All(e, p) && e.master == WaitInit(1) && |e.slave| == |s.slave|
    ensures e.entrypoint == 0 && e.masterStatus == Init
  {
    acts, e := Then(s0, acts0, s, Received(0));
    acts, e := Then(s0, acts, e, MasterStep);
    acts, e := Then(s0, acts, e, MasterStep);
    acts, e := Then(s0, acts, e, MasterStep);
  }

  /** Core 0 sees every INIT. */
  lemma {:induction false} SeeInits(s0: State, acts0: seq<Action>, s: State) returns (acts: seq<Action>, e: State)
    requires Leads(s0, acts0, s) && All(s, Active) && s.master.WaitInit? && 1 <= s.master.i <= |s.slave| && s.entrypoint == 0
    ensures Leads(s0, acts, e) && All(e, Active) && e.master == Test && |e.slave| == |s.slave| && e.entrypoint == 0
    decreases |s.slave| - s.master.i
  {
    acts, e := Then(s0, acts0, s, MasterStep);
    if s.master.i < |s.slave| {
      assert At(Active, s.slave[s.master.i], s.status[s.master.i]);
      acts, e := SeeInits(s0, acts, e);
    }
  }

  /** Core 0 sees every RETURN. */
  lemma {:induction false} SeeReturns(s0: State, acts0: seq<Action>, s: State) returns (acts: seq<Action>, e: State)
    requires Leads(s0, acts0, s) && All(s, Back) && s.master.CheckReturn? && 1 <= s.master.i <= |s.slave|
    ensures Leads(s0, acts, e) && All(e, Back) && e.master == Print && |e.slave| == |s.slave|
    decreases |s.slave| - s.master.i
  {
    acts, e := Then(s0, acts0, s, MasterStep);
    if s.master.i < |s.slave| {
      assert At(Back, s.slave[s.master.i], s.status[s.master.i]);
      acts, e := Then(s0, acts, e, MasterStep);
      acts, e := SeeReturns(s0, acts, e);
    }
  }

  /** The exit message and core 0's own RETURN. */
  lemma WriteOwn(s0: State, acts0: seq<Action>, s: State) returns (acts: seq<Action>, e: State)
    requires Leads(s0, acts0, s) && All(s, Back) && s.master == Print
    ensures Leads(s0, acts, e) && All(e, Back) && e.master == WaitNull(1) && |e.slave| == |s.slave| && e.masterStatus == Return
  {
    acts, e := Then(s0, acts0, s, MasterStep);
    acts, e := Then(s0, acts, e, MasterStep);
  }

  // ---- The runs that lose a signal --------------------------------------

  /** Core 0 is through with the download before slave 1 has read BOOT. */
  lemma LosesBoot(n: nat) returns (acts: seq<Action>, e: State)
    requires n >= 2
    ensures Leads(PowerUp(n), acts, e) && |e.slave| == n && MissedBoot(e, 1)
  {
    acts, e := ToDownload(n);
    acts, e := ToInit(PowerUp(n), acts, e, Up);
    assert At(Up, e.slave[1], e.status[1]);
  }

  /** All slaves have answered INIT, core 0 has not looked yet. */
  lemma ToStarted(n: nat) returns (acts: seq<Action>, e: State)
    requires n >= 1
    ensures Leads(PowerUp(n), acts, e) && |e.slave| == n && All(e, Active) && e.master == WaitInit(1) && e.entrypoint == 0
  {
    acts, e := ToDownload(n);
    acts, e := SweepAll(PowerUp(n), acts, e, Up);
    acts, e := ToInit(PowerUp(n), acts, e, Ready);
    acts, e := SweepAll(PowerUp(n), acts, e, Ready);
  }

  /** The slaves are through with the application before core 0 looks for INIT. */
  lemma LosesInit(n: nat) returns (acts: seq<Action>, e: State)
    requires n >= 2
    ensures Leads(PowerUp(n), acts, e) && |e.slave| == n && MissedInit(e, 1)
  {
    acts, e := ToStarted(n);
    acts, e := SweepAll(PowerUp(n), acts, e, Active);
    assert At(Back, e.slave[1], e.status[1]);
  }

  /** All slaves are in the return loop and core 0 has written RETURN. */
  lemma ToReturned(n: nat) returns (acts: seq<Action>, e: State)
    requires n >= 1
    ensures Leads(PowerUp(n), acts, e) && |e.slave| == n && All(e, Back) && e.master == WaitNull(1)
    ensures e.masterStatus == Return
  {
    var s := PowerUp(n);
    acts, e := ToStarted(n);
    acts, e := SeeInits(s, acts, e);
    acts, e := Then(s, acts, e, MasterStep);
    acts, e := SweepAll(s, acts, e, Active);
    acts, e := SeeReturns(s, acts, e);
    acts, e := WriteOwn(s, acts, e);
  }

  /** Slave 1 acknowledges, loops back and clears the master's status before slave 2 has read it. */
  lemma LosesReturn(n: nat) returns (acts: seq<Action>, e: State)
    requires n >= 3
    ensures Leads(PowerUp(n), acts, e) && |e.slave| == n && ReturnLost(e, 2)
  {
    acts, e := ToReturned(n);
    acts, e := Overwrites(PowerUp(n), acts, e);
  }

  lemma Overwrites(s0: State, acts0: seq<Action>, s: State) returns (acts: seq<Action>, e: State)
    requires Leads(s0, acts0, s) && All(s, Back) && s.master == WaitNull(1) && s.masterStatus == Return && |s.slave| >= 3
    ensures Leads(s0, acts, e) && |e.slave| == |s.slave| && ReturnLost(e, 2)
  {
    assert At(Back, s.slave[1], s.status[1]) && At(Back, s.slave[2], s.status[2]);
    acts, e := Then(s0, acts0, s, SlaveStep(1));
    acts, e := Then(s0, acts, e, SlaveStep(1));
    acts, e := Then(s0, acts, e, SlaveStep(1));
  }

  // ---- Exact conditions -------------------------------------------------

  /** Some run from power-up leads to s. */
  ghost predicate Reachable(s: State) { exists s0, acts :: Initial(s0) && Leads(s0, acts, s) }

  lemma ReachableKept(s: State)
    requires Reachable(s)
    ensures Kept(s)
  {
    var s0, acts :| Initial(s0) && Leads(s0, acts, s);
    InitialKept(s0);
    KeptAlways(s0, acts, s);
  }

  /** BOOT can be missed exactly when there is a slave. */
  lemma MissedBootIff(n: nat)
    requires n >= 1
    ensures (exists s, j: nat :: Reachable(s) && |s.slave| == n && MissedBoot(s, j)) <==> n >= 2
  {
    if n >= 2 {
      var acts, e := LosesBoot(n);
      assert Reachable(e) && MissedBoot(e, 1);
    }
  }

  /** INIT can be missed exactly when there is a slave. */
  lemma MissedInitIff(n: nat)
    requires n >= 1
    ensures (exists s, j: nat :: Reachable(s) && |s.slave| == n && MissedInit(s, j)) <==> n >= 2
  {
    if n >= 2 {
      var acts, e := LosesInit(n);
      assert Reachable(e) && MissedInit(e, 1);
    }
  }

  /** With two cores there is no other slave to overwrite RETURN. */
  lemma TwoCoresReturn(s: State, j: nat)
    requires LeftBehind(s) && |s.slave| <= 2
    ensures !ReturnLost(s, j)
  {
  }

  /** RETURN can be lost exactly when there are at least three cores. */
  lemma ReturnLostIff(n: nat)
    requires n >= 1
    ensures (exists s, j: nat :: Reachable(s) && |s.slave| == n && ReturnLost(s, j)) <==> n >= 3
  {
    if n >= 3 {
      var acts, e := LosesReturn(n);
      assert Reachable(e) && ReturnLost(e, 2);
    } else {
      forall s, j: nat | Reachable(s) && |s.slave| == n ensures !ReturnLost(s, j) {
        ReachableKept(s);
        TwoCoresReturn(s, j);
      }
    }
  }

  /** A single core never hangs, and with more the three lost signals are all that can stop progress. */
  lemma ReachableProgress(s: State) returns (a: Action)
    requires Reachable(s)
    ensures |s.status| == |s.slave| && ((exists j: nat :: Lost(s, j)) || Productive(s, a))
    ensures |s.slave| == 1 ==> Productive(s, a)
  {
    ReachableKept(s);
    a := Progress(s);
  }
}
