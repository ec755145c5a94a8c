/**
  Progress of the boot handshake (c/bootloader/bootloader.c): the three ways in
  which a fast core can overwrite what a slow one still waits for, when they can
  happen, and progress in every other state.
 */
module BootHangs {
  import opened BootHandshake

  // ---- The three lost signals -------------------------------------------

  /** Slave j has not seen BOOT, and core 0 has gone on to INIT. */
  ghost predicate MissedBoot(s: State, j: nat) {
    IsSlave(s, j) && s.master.WaitInit? && s.master.i <= j && (s.slave[j] == PostBoot || s.slave[j] == ReadBoot)
  }

  /** Slave j has replaced its INIT by RETURN before core 0 looked. */
  ghost predicate MissedInit(s: State, j: nat) {
    && IsSlave(s, j) && |s.status| == |s.slave| && s.master.WaitInit? && s.master.i <= j
    && Leaving(s.slave[j]) && s.status[j] == Return
  }

  /** Slave j still waits for RETURN, but a faster slave has already overwritten it. */
  ghost predicate ReturnLost(s: State, j: nat) {
    IsSlave(s, j) && s.master.WaitNull? && s.master.i <= j && s.masterStatus != Return && Leaving(s.slave[j])
  }

  ghost predicate Lost(s: State, j: nat) { MissedBoot(s, j) || MissedInit(s, j) || ReturnLost(s, j) }

  // ---- What every reachable state keeps ---------------------------------

  /** A slave leaves core 0 and the other slaves alone, and writes the master's status only to NULL. */
  lemma SlaveFrame(s: State, i: nat)
    requires |s.status| == |s.slave| && IsSlave(s, i)
    ensures var s' := SlaveNext(s, i);
            && s'.master == s.master && |s'.slave| == |s'.status| == |s.slave|
            && (s'.masterStatus == s.masterStatus || (s'.masterStatus == Null && s.slave[i] == Clear))
            && forall j :: 0 <= j < |s.slave| && j != i ==> s'.slave[j] == s.slave[j] && s'.status[j] == s.status[j]
  {
  }

  /** Every wait of core 0 looks at a slave. */
  ghost predicate IndexOk(s: State) {
    && (s.master.WaitInit? || s.master.CheckReturn? || s.master.SpinReturn? || s.master.WaitNull? ==> s.master.i >= 1)
    && (s.master.SpinReturn? ==> s.master.i < |s.slave|)
  }

  /** Past its first write after the loop back. */
  ghost predicate Gone(pc: SlavePc) { pc == ClearEntrypoint || pc == ClearOwn || pc == PostBoot || pc == ReadBoot }

  /** While core 0 waits for the slaves to leave, RETURN disappears only with a slave that has left. */
  ghost predicate LeftBehind(s: State) {
    s.master.WaitNull? && s.masterStatus != Return ==> exists i: nat :: IsSlave(s, i) && Gone(s.slave[i])
  }

  ghost predicate Kept(s: State) { Inv(s) && IndexOk(s) && LeftBehind(s) }

  lemma InitialKept(s: State)
    requires Initial(s)
    ensures Kept(s)
  {
    InitialOk(s);
  }

  lemma LeftBySlave(s: State, i: nat)
    requires Kept(s) && IsSlave(s, i)
    ensures LeftBehind(SlaveNext(s, i))
  {
    var s' := SlaveNext(s, i);
    SlaveFrame(s, i);
    if s'.master.WaitNull? && s'.masterStatus != Return {
      if s.masterStatus == Return {
        assert Gone(s'.slave[i]);
      } else {
        var k: nat :| IsSlave(s, k) && Gone(s.slave[k]);
        assert Gone(s'.slave[k]);
      }
    }
  }

  lemma StepKept(s: State, a: Action)
    requires Kept(s) && Enabled(s, a)
    ensures Kept(Next(s, a)) && |Next(s, a).slave| == |s.slave|
  {
    StepKeeps(s, a);
    if a.SlaveStep? {
      SlaveFrame(s, a.id);
      LeftBySlave(s, a.id);
    }
  }

  lemma {:induction false} KeptAlways(s: State, actions: seq<Action>, s': State)
    requires Kept(s) && Leads(s, actions, s')
    ensures Kept(s') && |s'.slave| == |s.slave|
    decreases |actions|
  {
    if actions != [] {
      StepKept(s, actions[0]);
      KeptAlways(Next(s, actions[0]), actions[1..], s');
    }
  }

  // ---- Once lost, always lost -------------------------------------------

  lemma LostBySlave(s: State, i: nat, j: nat)
    requires Inv(s) && IsSlave(s, i) && Lost(s, j)
    ensures Lost(SlaveNext(s, i), j)
  {
    assert SlaveOk(s, j) && SlaveOk(s, i);
    SlaveFrame(s, i);
  }

  lemma LostByMaster(s: State, j: nat)
    requires Inv(s) && Lost(s, j)
    ensures Lost(MasterNext(s), j)
  {
    assert SlaveOk(s, j);
  }

  /** From then on core 0 never starts another round, whatever the schedule. */
  lemma {:induction false} LostForever(s: State, actions: seq<Action>, s': State, j: nat)
    requires Inv(s) && Leads(s, actions, s') && Lost(s, j)
    ensures Lost(s', j)
    decreases |actions|
  {
    if actions != [] {
      StepKeeps(s, actions[0]);
      match actions[0] {
        case MasterStep => LostByMaster(s, j);
        case SlaveStep(i) => LostBySlave(s, i, j);
        case _ =>
      }
      LostForever(Next(s, actions[0]), actions[1..], s', j);
    }
  }

  // ---- Progress everywhere else -----------------------------------------

  /** The action only repeats a wait whose condition is not met. */
  ghost predicate Spins(s: State, a: Action)
    requires |s.status| == |s.slave| && Enabled(s, a)
  {
    match a
    case MasterStep => (
      match s.master
      case WaitInit(i) => i < |s.slave| && s.status[i] != Init
      case SpinReturn(i) => i >= |s.slave| || s.status[i] != Return
      case WaitNull(i) => i < |s.slave| && s.status[i] == Return
      case _ => false)
    case SlaveStep(i) => (
      match s.slave[i]
      case PostBoot => s.masterStatus != Boot
      case ReadBoot => s.masterStatus != Boot
      case AwaitInit => s.masterStatus != Init
      case PostReturn => s.masterStatus != Return && s.status[i] == Return
      case ReadReturn => s.masterStatus != Return
      case _ => false)
    case _ => false
  }

  ghost predicate Productive(s: State, a: Action)
    requires |s.status| == |s.slave|
  {
    Enabled(s, a) && !Spins(s, a)
  }

  /** Slave i is what core 0 waits for, and it can move or it is lost. */
  lemma WaitedForMoves(s: State, i: nat)
    requires Inv(s) && IsSlave(s, i)
    requires s.master == WaitInit(i) || s.master == SpinReturn(i) || s.master == WaitNull(i)
    requires Spins(s, MasterStep)
    ensures Lost(s, i) || Productive(s, SlaveStep(i))
  {
    assert SlaveOk(s, i);
  }

  /** Unless a signal is lost, some core can do more than spin. */
  lemma Progress(s: State) returns (a: Action)
    requires Kept(s)
    ensures (exists j: nat :: Lost(s, j)) || Productive(s, a)
  {
    a := if s.master == Download then Received(0) else MasterStep;
    if !Enabled(s, a) {
      var i: nat :| IsSlave(s, i) && Clearing(s.slave[i]);
      a := SlaveStep(i);
    } else if Spins(s, a) {
      var i: nat := s.master.i;
      WaitedForMoves(s, i);
      a := SlaveStep(i);
    }
  }
}
