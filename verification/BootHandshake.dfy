/**
  The multi-core boot handshake (c/bootloader/bootloader.c): core 0 downloads,
  the others wait for it, and all meet again before the exit message.  Every read
  or write of the shared boot_info block is one step; the cores interleave freely
  and loop back to the start after each application.
 */
module BootHandshake {

  datatype Status = Null | Boot | Init | Return

  /** Where core 0 is; the argument is the slave it looks at, or a counter. */
  datatype MasterPc =
    | ClearMaster | ClearEntry | ClearSlot(i: nat) | WriteBoot(k: nat)
    | Download | WriteEntry(address: nat) | CopySpm | WriteInit
    | WaitInit(i: nat) | Test | Fetch | Application | CheckReturn(i: nat) | SpinReturn(i: nat) | Print | WriteReturn
    | WaitNull(i: nat)

  datatype SlavePc =
    | Clear | ClearEntrypoint | ClearOwn
    | PostBoot | ReadBoot | AwaitInit
    | Copy | AckInit | TestEntry | FetchEntry | Calling | PostReturn | ReadReturn
    | PostNull

  datatype Event =
    | Copied(core: nat, image: nat)
    | Called(core: nat, address: nat)
    | Finished(core: nat)
    | Exited

  /** What happened since a download completed with this entry point and memory image. */
  datatype Round = Round(entry: nat, image: nat, events: seq<Event>)

  datatype State = State(
    masterStatus: Status, entrypoint: nat, status: seq<Status>,
    master: MasterPc, slave: seq<SlavePc>,
    mem: nat, past: seq<Round>, now: Round)

  /** A step of core 0, which may take part of a download or its result from outside, or of a slave. */
  datatype Action = MasterStep | Receiving(image: nat) | Received(address: nat) | SlaveStep(id: nat)

  ghost predicate IsSlave(s: State, i: nat) { 1 <= i < |s.slave| }

  /** Power-up: everything shared is left over from an earlier run. */
  ghost predicate Initial(s: State) {
    && 1 <= |s.slave| == |s.status|
    && s.master == ClearMaster && (forall i: nat :: IsSlave(s, i) ==> s.slave[i] == Clear)
    && s.past == [] && s.now == Round(0, s.mem, [])
  }

  ghost predicate Clearing(pc: SlavePc) { pc == Clear || pc == ClearEntrypoint || pc == ClearOwn }

  ghost predicate Waiting(pc: SlavePc) { pc == PostBoot || pc == ReadBoot || pc == AwaitInit }

  ghost predicate Started(pc: SlavePc) {
    pc == TestEntry || pc == FetchEntry || pc == Calling || pc == PostReturn || pc == ReadReturn
  }

  ghost predicate Leaving(pc: SlavePc) { pc == PostReturn || pc == ReadReturn }

  /** The start-up delay: no slave is still clearing at the last of the sixteen BOOT writes. */
  ghost predicate Enabled(s: State, a: Action) {
    match a
    case MasterStep => s.master != Download &&
                       (s.master.WriteBoot? && s.master.k >= 15 ==> forall i: nat :: IsSlave(s, i) ==> !Clearing(s.slave[i]))
    case Receiving(_) => s.master == Download
    case Received(_) => s.master == Download
    case SlaveStep(i) => IsSlave(s, i)
  }

  ghost function Log(s: State, e: Event): State { s.(now := s.now.(events := s.now.events + [e])) }

  ghost function MasterNext(s: State): State
    requires |s.status| == |s.slave|
  {
    var n := |s.slave|;
    match s.master
    case ClearMaster => s.(masterStatus := Null, master := ClearEntry)
    case ClearEntry => s.(entrypoint := 0, master := ClearSlot(0))
    case ClearSlot(i) => if i < n then s.(status := s.status[i := Null], master := ClearSlot(i + 1))
                         else s.(master := WriteBoot(0))
    case WriteBoot(k) => s.(masterStatus := Boot, master := if k < 15 then WriteBoot(k + 1) else Download)
    case Download => s
    case WriteEntry(e) => s.(entrypoint := e, master := CopySpm)
    case CopySpm => Log(s, Copied(0, s.mem)).(master := WriteInit)
    case WriteInit => s.(masterStatus := Init, master := WaitInit(1))
    case WaitInit(i) => if i >= n then s.(master := Test)
                        else if s.status[i] == Init then s.(master := WaitInit(i + 1)) else s
    case Test => s.(master := if s.entrypoint != 0 then Fetch else CheckReturn(1))
    case Fetch => Log(s, Called(0, s.entrypoint)).(master := Application)
    case Application => Log(s, Finished(0)).(master := CheckReturn(1))
    case CheckReturn(i) => if i >= n then s.(master := Print)
                           else s.(master := if s.status[i] != Null then SpinReturn(i) else CheckReturn(i + 1))
    case SpinReturn(i) => if i < n && s.status[i] == Return then s.(master := CheckReturn(i + 1)) else s
    case Print => Log(s, Exited).(master := WriteReturn)
    case WriteReturn => s.(masterStatus := Return, master := WaitNull(1))
    case WaitNull(i) => if i >= n then s.(master := ClearMaster)
                        else if s.status[i] == Return then s else s.(master := WaitNull(i + 1))
  }

  ghost function SlaveNext(s: State, i: nat): State
    requires |s.status| == |s.slave| && IsSlave(s, i)
  {
    match s.slave[i]
    case Clear => Go(s.(masterStatus := Null), i, ClearEntrypoint)
    case ClearEntrypoint => Go(s.(entrypoint := 0), i, ClearOwn)
    case ClearOwn => Go(Post(s, i, Null), i, PostBoot)
    case PostBoot => Go(Post(s, i, Boot), i, ReadBoot)
    case ReadBoot => Go(s, i, if s.masterStatus == Boot then AwaitInit else PostBoot)
    case AwaitInit => Go(s, i, if s.masterStatus == Init then Copy else AwaitInit)
    case Copy => Go(Log(s, Copied(i, s.mem)), i, AckInit)
    case AckInit => Go(Post(s, i, Init), i, TestEntry)
    case TestEntry => Go(s, i, if s.entrypoint != 0 then FetchEntry else PostReturn)
    case FetchEntry => Go(Log(s, Called(i, s.entrypoint)), i, Calling)
    case Calling => Go(Log(s, Finished(i)), i, PostReturn)
    case PostReturn => Go(Post(s, i, Return), i, ReadReturn)
    case ReadReturn => Go(s, i, if s.masterStatus == Return then PostNull else PostReturn)
    case PostNull => Go(Post(s, i, Null), i, Clear)
  }

  ghost function Go(s: State, i: nat, pc: SlavePc): State
    requires i < |s.slave|
  {
    s.(slave := s.slave[i := pc])
  }

  ghost function Post(s: State, i: nat, st: Status): State
    requires i < |s.status|
  {
    s.(status := s.status[i := st])
  }

  ghost function Next(s: State, a: Action): State
    requires |s.status| == |s.slave| && Enabled(s, a)
  {
    match a
    case MasterStep => MasterNext(s)
    case Receiving(image) => s.(mem := image)
    case Received(e) => s.(master := WriteEntry(e), past := s.past + [s.now], now := Round(e, s.mem, []))
    case SlaveStep(i) => SlaveNext(s, i)
  }

  // ---- What a round must look like --------------------------------------

  /** The event is allowed after the events before it. */
  ghost predicate Justified(r: Round, before: seq<Event>, e: Event, n: nat) {
    match e
    case Copied(_, image) => image == r.image
    case Called(core, address) =>
      && address == r.entry && r.entry != 0
      && Copied(core, r.image) in before
      && (core == 0 ==> forall i :: 1 <= i < n ==> Copied(i, r.image) in before)
    case Finished(core) => Called(core, r.entry) in before
    case Exited => r.entry != 0 ==> forall i :: 0 <= i < n ==> Finished(i) in before
  }

  /** Calls go to the downloaded entry point after the caller copied the downloaded image; core 0
      calls after every slave has copied; the exit message follows the return of every call. */
  ghost predicate GoodRound(r: Round, n: nat) {
    forall t :: 0 <= t < |r.events| ==> Justified(r, r.events[..t], r.events[t], n)
  }

  lemma GoodExtend(r: Round, e: Event, n: nat)
    requires GoodRound(r, n) && Justified(r, r.events, e, n)
    ensures GoodRound(r.(events := r.events + [e]), n)
  {
    var es := r.events + [e];
    forall t | 0 <= t < |es| ensures Justified(r, es[..t], es[t], n) {
      assert es[..t] == r.events[..t];
    }
  }

  // ---- The invariant ----------------------------------------------------

  /** Before the last BOOT write / up to INIT / until the exit message / while the slaves leave. */
  datatype Stage = Starting | Loading | Running | Ending

  ghost function StageOf(pc: MasterPc): Stage {
    match pc
    case ClearMaster => Starting
    case ClearEntry => Starting
    case ClearSlot(_) => Starting
    case WriteBoot(_) => Starting
    case Download => Loading
    case WriteEntry(_) => Loading
    case CopySpm => Loading
    case WriteInit => Loading
    case WaitNull(_) => Ending
    case _ => Running
  }

  ghost predicate SharedOk(s: State) {
    match StageOf(s.master)
    case Starting =>
      (s.masterStatus == Init || s.masterStatus == Return ==>
         s.master == ClearMaster && forall i: nat :: IsSlave(s, i) ==> s.slave[i] == Clear)
    case Loading => s.masterStatus == Boot
    case Running => s.masterStatus == Init
    case Ending =>
      && (s.masterStatus == Return || s.masterStatus == Null)
      && (s.masterStatus == Return ==> forall i: nat :: IsSlave(s, i) ==>
            Leaving(s.slave[i]) || s.slave[i] == PostNull || s.slave[i] == Clear)
  }

  /** Between the end of a download and the exit the round's entry point and image stand. */
  ghost predicate RoundOk(s: State) {
    && (s.master.WriteEntry? ==> s.master.address == s.now.entry)
    && (s.master == CopySpm || s.master == WriteInit || StageOf(s.master) == Running ==> s.entrypoint == s.now.entry)
    && ((StageOf(s.master) == Loading && s.master != Download) || StageOf(s.master) == Running ==> s.mem == s.now.image)
    && (s.master == WriteInit || StageOf(s.master) == Running ==> Copied(0, s.now.image) in s.now.events)
    && (s.master == Fetch || s.master == Application ==> s.now.entry != 0)
    && (s.master == Application ==> Called(0, s.now.entry) in s.now.events)
    && (s.master.CheckReturn? || s.master.SpinReturn? || s.master == Print ==>
          (s.now.entry != 0 ==> Finished(0) in s.now.events))
  }

  ghost predicate PcOk(stage: Stage, pc: SlavePc) {
    match stage
    case Starting => Clearing(pc) || Waiting(pc)
    case Loading => Waiting(pc)
    case Running => Waiting(pc) || pc == Copy || pc == AckInit || Started(pc)
    case Ending => Leaving(pc) || pc == PostNull || Clearing(pc) || pc == PostBoot || pc == ReadBoot
  }

  ghost predicate StatusOk(stage: Stage, pc: SlavePc, st: Status) {
    && (Waiting(pc) || pc == Copy || pc == AckInit ==> st == Null || st == Boot)
    && (pc == TestEntry || pc == FetchEntry || pc == Calling ==> st == Init)
    && (pc == PostReturn ==> st == Init || st == Return)
    && (pc == ReadReturn || pc == PostNull ==> st == Return)
    && (stage == Ending ==> if Leaving(pc) || pc == PostNull then st == Return else st != Return)
  }

  ghost predicate HistoryOk(pc: SlavePc, i: nat, r: Round) {
    && (pc == AckInit || Started(pc) ==> Copied(i, r.image) in r.events)
    && (pc == FetchEntry || pc == Calling ==> r.entry != 0)
    && (pc == Calling ==> Called(i, r.entry) in r.events)
    && (Leaving(pc) && r.entry != 0 ==> Finished(i) in r.events)
  }

  /** What core 0 has seen of slave i so far. */
  ghost predicate SeenOk(m: MasterPc, i: nat, pc: SlavePc, st: Status) {
    match m
    case WaitInit(j) => i < j ==> Started(pc)
    case Test => Started(pc)
    case Fetch => Started(pc)
    case Application => Started(pc)
    case CheckReturn(j) => Started(pc) && (i < j ==> st == Return)
    case SpinReturn(j) => Started(pc) && (i < j ==> st == Return)
    case Print => st == Return
    case WriteReturn => st == Return
    case WaitNull(j) => i < j ==> st != Return
    case _ => true
  }

  ghost predicate SlaveOk(s: State, i: nat)
    requires |s.status| == |s.slave| && IsSlave(s, i)
  {
    && PcOk(StageOf(s.master), s.slave[i])
    && StatusOk(StageOf(s.master), s.slave[i], s.status[i])
    && HistoryOk(s.slave[i], i, s.now)
    && SeenOk(s.master, i, s.slave[i], s.status[i])
  }

  ghost predicate Inv(s: State) {
    && 1 <= |s.slave| == |s.status|
    && SharedOk(s) && RoundOk(s)
    && (forall i: nat :: IsSlave(s, i) ==> SlaveOk(s, i))
    && GoodRound(s.now, |s.slave|)
    && (forall r <- s.past :: GoodRound(r, |s.slave|))
  }

  lemma InitialOk(s: State)
    requires Initial(s)
    ensures Inv(s)
  {
  }

  /** When core 0 writes RETURN, every slave is in its return loop. */
  lemma AllLeaving(s: State)
    requires Inv(s) && s.master == WriteReturn
    ensures forall i: nat :: IsSlave(s, i) ==> Leaving(s.slave[i])
  {
    forall i: nat | IsSlave(s, i) ensures Leaving(s.slave[i]) { assert SlaveOk(s, i); }
  }

  /** When core 0 starts over and RETURN still stands, no slave has passed its first write. */
  lemma AllBack(s: State)
    requires Inv(s) && s.master.WaitNull? && s.master.i >= |s.slave| && s.masterStatus == Return
    ensures forall i: nat :: IsSlave(s, i) ==> s.slave[i] == Clear
  {
    forall i: nat | IsSlave(s, i) ensures s.slave[i] == Clear { assert SlaveOk(s, i); }
  }

  /** The two steps that change the stage with the slaves in mind. */
  lemma MasterShifts(s: State)
    requires Inv(s) && (s.master == WriteReturn || s.master.WaitNull?)
    ensures SharedOk(MasterNext(s))
  {
    if s.master == WriteReturn {
      AllLeaving(s);
    } else if s.master.i >= |s.slave| && s.masterStatus == Return {
      AllBack(s);
    }
  }

  lemma MasterShared(s: State)
    requires |s.status| == |s.slave| && SharedOk(s) && s.master != WriteReturn && !s.master.WaitNull?
    ensures SharedOk(MasterNext(s))
  {
  }

  lemma MasterRecords(s: State)
    requires |s.status| == |s.slave| && RoundOk(s)
    ensures RoundOk(MasterNext(s))
  {
  }

  lemma MasterPlaces(s: State, i: nat)
    requires |s.status| == |s.slave| && IsSlave(s, i) && SlaveOk(s, i)
    requires s.master.WriteBoot? && s.master.k >= 15 ==> !Clearing(s.slave[i])
    ensures PcOk(StageOf(MasterNext(s).master), s.slave[i])
  {
  }

  lemma MasterStatus(s: State, i: nat)
    requires |s.status| == |s.slave| && IsSlave(s, i) && SlaveOk(s, i)
    ensures var s' := MasterNext(s); StatusOk(StageOf(s'.master), s'.slave[i], s'.status[i])
  {
  }

  lemma MasterSeen(s: State, i: nat)
    requires |s.status| == |s.slave| && IsSlave(s, i) && SlaveOk(s, i)
    ensures var s' := MasterNext(s);
            HistoryOk(s'.slave[i], i, s'.now) && SeenOk(s'.master, i, s'.slave[i], s'.status[i])
  {
  }

  lemma MasterCalls(s: State)
    requires Inv(s) && s.master == Fetch
    ensures Justified(s.now, s.now.events, Called(0, s.entrypoint), |s.slave|)
  {
    forall i: nat | IsSlave(s, i) ensures Copied(i, s.now.image) in s.now.events { assert SlaveOk(s, i); }
  }

  lemma MasterExits(s: State)
    requires Inv(s) && s.master == Print
    ensures Justified(s.now, s.now.events, Exited, |s.slave|)
  {
    forall i: nat | IsSlave(s, i) && s.now.entry != 0 ensures Finished(i) in s.now.events { assert SlaveOk(s, i); }
  }

  lemma MasterRound(s: State)
    requires Inv(s)
    ensures GoodRound(MasterNext(s).now, |s.slave|)
  {
    match s.master
    case CopySpm => GoodExtend(s.now, Copied(0, s.mem), |s.slave|);
    case Fetch => MasterCalls(s); GoodExtend(s.now, Called(0, s.entrypoint), |s.slave|);
    case Application => GoodExtend(s.now, Finished(0), |s.slave|);
    case Print => MasterExits(s); GoodExtend(s.now, Exited, |s.slave|);
    case _ =>
  }

  lemma MasterKeeps(s: State, s': State)
    requires Inv(s) && Enabled(s, MasterStep) && s' == MasterNext(s)
    ensures Inv(s')
  {
    MasterLocal(s);
    if s.master == WriteReturn || s.master.WaitNull? { MasterShifts(s); } else { MasterShared(s); }
    MasterRecords(s);
    MasterRound(s);
    forall i: nat | IsSlave(s, i) ensures SlaveOk(s', i) {
      assert SlaveOk(s, i);
      MasterPlaces(s, i);
      MasterStatus(s, i);
      MasterSeen(s, i);
    }
  }

  lemma MasterLocal(s: State)
    requires |s.status| == |s.slave|
    ensures var s' := MasterNext(s); s'.slave == s.slave && |s'.status| == |s.status| && s'.past == s.past
  {
  }

  lemma ReceiveKeeps(s: State, a: Action)
    requires Inv(s) && Enabled(s, a) && (a.Receiving? || a.Received?)
    ensures Inv(Next(s, a))
  {
    forall i: nat | IsSlave(s, i) ensures SlaveOk(Next(s, a), i) { assert SlaveOk(s, i); }
  }

  lemma SlaveShared(s: State, i: nat)
    requires |s.status| == |s.slave| && IsSlave(s, i) && SlaveOk(s, i) && SharedOk(s)
    ensures SharedOk(SlaveNext(s, i))
  {
  }

  lemma SlaveRecords(s: State, i: nat)
    requires |s.status| == |s.slave| && IsSlave(s, i) && SlaveOk(s, i) && RoundOk(s)
    ensures RoundOk(SlaveNext(s, i))
  {
  }

  lemma SlavePlaces(s: State, i: nat)
    requires |s.status| == |s.slave| && IsSlave(s, i) && SlaveOk(s, i) && SharedOk(s)
    ensures PcOk(StageOf(s.master), SlaveNext(s, i).slave[i])
  {
  }

  lemma SlaveHistory(s: State, i: nat)
    requires |s.status| == |s.slave| && IsSlave(s, i) && SlaveOk(s, i) && RoundOk(s)
    ensures HistoryOk(SlaveNext(s, i).slave[i], i, SlaveNext(s, i).now)
  {
  }

  lemma SlaveStatus(s: State, i: nat)
    requires |s.status| == |s.slave| && IsSlave(s, i) && SlaveOk(s, i)
    ensures var s' := SlaveNext(s, i); StatusOk(StageOf(s.master), s'.slave[i], s'.status[i])
  {
  }

  lemma SlaveSeen(s: State, i: nat)
    requires |s.status| == |s.slave| && IsSlave(s, i) && SlaveOk(s, i) && SharedOk(s)
    ensures var s' := SlaveNext(s, i); SeenOk(s.master, i, s'.slave[i], s'.status[i])
  {
  }

  /** A slave changes neither core 0's place nor the length of the tables. */
  lemma SlaveLocal(s: State, i: nat)
    requires |s.status| == |s.slave| && IsSlave(s, i)
    ensures var s' := SlaveNext(s, i);
            s'.master == s.master && |s'.slave| == |s'.status| == |s.slave| && s'.past == s.past
  {
  }

  lemma SlaveOther(s: State, i: nat, j: nat)
    requires |s.status| == |s.slave| && IsSlave(s, i) && IsSlave(s, j) && SlaveOk(s, j) && i != j
    ensures SlaveOk(SlaveNext(s, i), j)
  {
  }

  lemma SlaveRound(s: State, i: nat)
    requires Inv(s) && IsSlave(s, i)
    ensures GoodRound(SlaveNext(s, i).now, |s.slave|)
  {
    var s' := SlaveNext(s, i);
    if s'.now != s.now {
      var e := s'.now.events[|s.now.events|];
      assert SlaveOk(s, i);
      assert Justified(s.now, s.now.events, e, |s.slave|);
      GoodExtend(s.now, e, |s.slave|);
    }
  }

  lemma SlaveKeeps(s: State, i: nat, s': State)
    requires Inv(s) && IsSlave(s, i) && s' == SlaveNext(s, i)
    ensures Inv(s')
  {
    assert SlaveOk(s, i);
    SlaveLocal(s, i);
    SlaveShared(s, i);
    SlaveRecords(s, i);
    SlaveRound(s, i);
    SlavePlaces(s, i);
    SlaveStatus(s, i);
    SlaveHistory(s, i);
    SlaveSeen(s, i);
    assert SlaveOk(s', i);
    forall j: nat | IsSlave(s, j) && j != i ensures SlaveOk(s', j) {
      assert SlaveOk(s, j);
      SlaveOther(s, i, j);
    }
  }

  // ---- Runs -------------------------------------------------------------

  /** The actions lead from s to s'. */
  ghost predicate Leads(s: State, actions: seq<Action>, s': State)
    decreases |actions|
  {
    if actions == [] then s == s'
    else
      |s.status| == |s.slave| && Enabled(s, actions[0]) && Leads(Next(s, actions[0]), actions[1..], s')
  }

  lemma StepKeeps(s: State, a: Action)
    requires Inv(s) && Enabled(s, a)
    ensures Inv(Next(s, a))
  {
    match a
    case MasterStep => MasterKeeps(s, MasterNext(s));
    case SlaveStep(i) => SlaveKeeps(s, i, SlaveNext(s, i));
    case _ => ReceiveKeeps(s, a);
  }

  /** The invariant holds in every state of every interleaving. */
  lemma {:induction false} InvAlways(s: State, actions: seq<Action>, s': State)
    requires Inv(s) && Leads(s, actions, s')
    ensures Inv(s')
    decreases |actions|
  {
    if actions != [] {
      StepKeeps(s, actions[0]);
      InvAlways(Next(s, actions[0]), actions[1..], s');
    }
  }

  /** In every interleaving from power-up, every round so far is a good one. */
  lemma EveryRoundGood(s: State, actions: seq<Action>, s': State)
    requires Initial(s) && Leads(s, actions, s')
    ensures forall r <- s'.past + [s'.now] :: GoodRound(r, |s'.slave|)
  {
    InitialOk(s);
    InvAlways(s, actions, s');
  }
}
