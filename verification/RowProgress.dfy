/**
  Termination of the row protocol (c/cmp/mandelbrot_par.c): a measure that every
  step except a spin decreases, so that every fair run ends.
 */
module RowProgress {
  import Arith
  import opened RowProtocol
  import opened RowProtocolRuns

  // ---- Steps left at a worker -------------------------------------------

  ghost function SpinLowLeft(l: Link): int { if l.sPacket[4] > CMD_NULL then 55 else 3 }

  /** Steps a worker can still make without a new packet. */
  ghost function WorkerLeft(l: Link): int {
    match l.pc
    case WaitStart => 15
    case AckCmd => 14
    case AckDma(k) => if k <= COLS / 4 then 13 - k else 1 + SpinLowLeft(l)
    case SpinLow => SpinLowLeft(l)
    case SpinStop => if l.sPacket[4] > CMD_NULL then 56 else if l.sPacket[4] == CMD_STOP then 2 else 3
    case CheckStop => if l.sPacket[4] == CMD_STOP then 1 else 54
    case ReadField(f) => 53 - f
    case ClearCmd => 48
    case Compute(idx, _) => 47 - idx
    case SetRowCmd => 14
    case RowDma(k) => if k <= COLS / 4 then 13 - k else 1 + SpinLowLeft(l)
    case Halted => 0
  }

  ghost predicate WorkerMoves(l: Link) {
    match l.pc
    case WaitStart => l.sPacket[4] == CMD_START
    case SpinLow => l.sPacket[4] > CMD_NULL || l.sPacket[4] == CMD_STOP
    case SpinStop => l.sPacket[4] > CMD_NULL || l.sPacket[4] == CMD_STOP
    case Halted => false
    case _ => true
  }

  /** What the invariant says about the counters in a worker's place. */
  ghost predicate PlaceOk(l: Link) {
    match l.pc
    case AckDma(k) => k <= COLS / 4 + 1 && (k <= COLS / 4 ==> l.sPacket[4] == CMD_START)
    case CheckStop => l.sPacket[4] > CMD_NULL || l.sPacket[4] == CMD_STOP
    case ReadField(f) => f < 5
    case Compute(idx, x) => idx <= COLS && x == XSTART + idx * XSTEP && l.local[2] == XEND && l.local[3] == XSTEP
    case RowDma(k) => k <= COLS / 4 + 1 && (k <= COLS / 4 ==> l.sPacket[4] == CMD_NULL)
    case _ => true
  }

  lemma PlaceOkAlways(cfg: Config, i: nat, st: Stage, l: Link)
    requires cfg.Valid() && LinkOk(cfg, i, st, l)
    ensures PlaceOk(l)
  {
  }

  lemma WorkerSteps(l: Link)
    requires PlaceOk(l)
    ensures WorkerLeft(SlaveStep(l)) == WorkerLeft(l) - (if WorkerMoves(l) then 1 else 0)
    ensures !WorkerMoves(l) ==> SlaveStep(l) == l.(pc := SlaveStep(l).pc)
  {
    if l.pc.Compute? { ColumnInside(l.pc.idx); }
  }

  lemma WorkerLeftNat(l: Link)
    requires PlaceOk(l)
    ensures WorkerLeft(l) >= 0
  {
  }

  // ---- Steps left at the master -----------------------------------------

  const ROW_COST: int := 100
  const TAKE_COST: int := 35
  const STOP_COST: int := 7

  /** All rows of a worker and its stop packet; a row costs more than sending it, computing it and taking it. */
  ghost function FullLeft(cfg: Config): int { cfg.share * ROW_COST + STOP_COST }

  ghost function RowsLeft(cfg: Config, i: nat, l: Link): int {
    (cfg.First(i) + cfg.share - l.next) * ROW_COST + (l.next - cfg.First(i) - l.got) * TAKE_COST + STOP_COST
  }

  ghost function Capped(k: nat): nat { if k < 5 then k else 5 }

  /** What the master still has to do for worker i. */
  ghost function MasterLeft(cfg: Config, pc: MasterPc, i: nat, l: Link): int {
    match pc
    case MClear(j) => FullLeft(cfg) + (if i < j then 9 else 10)
    case MStartCmd(j) => FullLeft(cfg) + (if i < j then 2 else 9)
    case MStartDma(j, k) => FullLeft(cfg) + (if i < j then 2 else if i == j then 8 - Capped(k) else 9)
    case MWaitAck(j) => FullLeft(cfg) + (if i < j then 1 else 2)
    case MClearNull(j) => FullLeft(cfg) + (if i < j then 0 else 1)
    case MFirst(j, f) =>
      if i < j then RowsLeft(cfg, i, l)
      else if i == j && f > 0 then RowsLeft(cfg, i, l) - f
      else FullLeft(cfg)
    case MFirstDma(j, k) =>
      if i < j then RowsLeft(cfg, i, l)
      else if i == j then (if k <= 4 then RowsLeft(cfg, i, l) - 5 - k else RowsLeft(cfg, i, l) + 1)
      else FullLeft(cfg)
    case MPoll(_) => RowsLeft(cfg, i, l)
    case MReadCmd(j) => RowsLeft(cfg, i, l) + (if i == j then 34 else 0)
    case MReadData(j, k) => RowsLeft(cfg, i, l) + (if i == j then 33 - k else 0)
    case MClearRow(j) => RowsLeft(cfg, i, l) + (if i == j then 1 else 0)
    case MNext(j, f) => RowsLeft(cfg, i, l) - (if i == j then f else 0)
    case MNextDma(j, k) => RowsLeft(cfg, i, l) + (if i != j then 0 else if k <= 4 then -5 - k else 1)
    case MStopCmd(j) => if i < j then 0 else STOP_COST
    case MStopDma(j, k) => if i < j then 0 else if i == j then 6 - Capped(k) else STOP_COST
    case MDone => 0
  }

  ghost function LinkLeft(cfg: Config, pc: MasterPc, i: nat, l: Link): int { MasterLeft(cfg, pc, i, l) + WorkerLeft(l) }

  ghost function SumLeft(cfg: Config, pc: MasterPc, links: seq<Link>, n: nat): int
    requires n <= |links|
  {
    if n == 0 then 0 else SumLeft(cfg, pc, links, n - 1) + LinkLeft(cfg, pc, n - 1, links[n - 1])
  }

  /** The master takes more than a wasted look at a mailbox. */
  ghost predicate MasterWorks(s: State)
    requires s.pc.MDone? || s.pc.i < |s.links|
  {
    match s.pc
    case MWaitAck(i) => s.links[i].mRow.cmd == CMD_START
    case MPoll(i) => s.links[i].mRow.cmd != CMD_NULL
    case MDone => false
    case _ => true
  }

  // ---- A working step of the master -------------------------------------

  lemma StartSteps(cfg: Config, s: State)
    requires Inv(cfg, s) && MasterWorks(s)
    requires s.pc.MClear? || s.pc.MStartCmd? || s.pc.MStartDma? || s.pc.MWaitAck? || s.pc.MClearNull?
    ensures var s', i := MasterStep(cfg, s), s.pc.i;
            LinkLeft(cfg, s'.pc, i, s'.links[i]) < LinkLeft(cfg, s.pc, i, s.links[i])
  {
    assert LinkFine(cfg, s, s.pc.i);
  }

  lemma FillSteps(cfg: Config, s: State)
    requires Inv(cfg, s) && (s.pc.MFirst? || s.pc.MNext?)
    ensures var s', i := MasterStep(cfg, s), s.pc.i;
            LinkLeft(cfg, s'.pc, i, s'.links[i]) < LinkLeft(cfg, s.pc, i, s.links[i])
  {
    var i, l := s.pc.i, s.links[s.pc.i];
    assert LinkFine(cfg, s, i);
    assert s.pc.MFirst? && s.pc.k == 0 ==> l.got == 0;
  }

  /** The word that delivers a packet gives the worker a whole row to do. */
  lemma DeliverCost(l: Link, row: int)
    requires Quiet(l) && row >= 0
    ensures WorkerLeft(l.(sPacket := l.sPacket[4 := row])) <= WorkerLeft(l) + 53
  {
  }

  lemma CopyFacts(cfg: Config, i: nat, k: nat, l: Link)
    requires cfg.Valid() && LinkOk(cfg, i, Copy(k), l)
    ensures Quiet(l) && l.next == cfg.First(i) + l.got && l.mPacket[4] == l.next
  {
  }

  lemma CopyLink(cfg: Config, i: nat, k: nat, l: Link)
    requires k < 5 && Quiet(l) && l.next == cfg.First(i) + l.got && l.mPacket[4] == l.next && l.next >= 0
    ensures var l' := Deliver(l, k);
            if k < 4 then l'.next == l.next && l'.got == l.got && WorkerLeft(l') == WorkerLeft(l)
            else l'.next == l.next + 1 && l'.got == l.got && WorkerLeft(l') <= WorkerLeft(l) + 53
  {
    if k == 4 { DeliverCost(l, l.next); }
  }

  lemma CopySteps(cfg: Config, s: State)
    requires Inv(cfg, s) && (s.pc.MFirstDma? || s.pc.MNextDma?)
    ensures var s', i := MasterStep(cfg, s), s.pc.i;
            LinkLeft(cfg, s'.pc, i, s'.links[i]) < LinkLeft(cfg, s.pc, i, s.links[i])
  {
    var i, k, l := s.pc.i, s.pc.k, s.links[s.pc.i];
    assert LinkFine(cfg, s, i);
    if k < 5 {
      CopyFacts(cfg, i, k, l);
      RowNatural(cfg, i, l.got);
      CopyLink(cfg, i, k, l);
    } else {
      CopyDone(cfg, s);
    }
  }

  lemma CopyDone(cfg: Config, s: State)
    requires Inv(cfg, s) && (s.pc.MFirstDma? || s.pc.MNextDma?) && s.pc.k >= 5
    ensures var s', i := MasterStep(cfg, s), s.pc.i;
            LinkLeft(cfg, s'.pc, i, s'.links[i]) < LinkLeft(cfg, s.pc, i, s.links[i])
  {
    if Ends(cfg, s) { OnlyStops(cfg, s, s.pc.i); }
  }

  lemma PollSteps(cfg: Config, s: State)
    requires Inv(cfg, s) && MasterWorks(s) && s.pc.MPoll?
    ensures var s', i := MasterStep(cfg, s), s.pc.i;
            LinkLeft(cfg, s'.pc, i, s'.links[i]) < LinkLeft(cfg, s.pc, i, s.links[i])
  {
    var i, l, s' := s.pc.i, s.links[s.pc.i], MasterStep(cfg, s);
    assert s'.pc == MReadCmd(i) && s'.links[i] == l.(got := l.got + 1);
  }

  lemma ReadSteps(cfg: Config, s: State)
    requires Inv(cfg, s) && (s.pc.MReadCmd? || s.pc.MReadData?)
    ensures var s', i := MasterStep(cfg, s), s.pc.i;
            LinkLeft(cfg, s'.pc, i, s'.links[i]) < LinkLeft(cfg, s.pc, i, s.links[i])
  {
    assert MasterStep(cfg, s).links == s.links;
  }

  lemma ClearSteps(cfg: Config, s: State)
    requires Inv(cfg, s) && s.pc.MClearRow?
    ensures var s', i := MasterStep(cfg, s), s.pc.i;
            LinkLeft(cfg, s'.pc, i, s'.links[i]) < LinkLeft(cfg, s.pc, i, s.links[i])
  {
    if Ends(cfg, s) { OnlyStops(cfg, s, s.pc.i); }
  }

  /** A stop packet gives the worker nothing to do that was not counted. */
  lemma StopCost(l: Link, k: nat)
    requires Quiet(l) && l.mPacket[4] == CMD_STOP
    ensures WorkerLeft(CopyPacketWord(l, k)) <= WorkerLeft(l)
  {
  }

  lemma StopSteps(cfg: Config, s: State)
    requires Inv(cfg, s) && (s.pc.MStopCmd? || s.pc.MStopDma?)
    ensures var s', i := MasterStep(cfg, s), s.pc.i;
            LinkLeft(cfg, s'.pc, i, s'.links[i]) < LinkLeft(cfg, s.pc, i, s.links[i])
  {
    var i, l := s.pc.i, s.links[s.pc.i];
    if s.pc.MStopDma? && s.pc.k < 5 {
      assert LinkFine(cfg, s, i);
      StopCost(l, s.pc.k);
    }
  }

  /** The master leaves the poll loop. */
  ghost predicate Ends(cfg: Config, s: State)
    requires cfg.Valid() && InRange(cfg, s)
  {
    MasterStep(cfg, s).pc == MStopCmd(0) && !s.pc.MDone? && !s.pc.MStopDma?
  }

  lemma StartOthers(cfg: Config, s: State, j: nat)
    requires cfg.Valid() && InRange(cfg, s) && j < cfg.slaves && !s.pc.MDone? && j != s.pc.i
    requires s.pc.MClear? || s.pc.MStartCmd? || s.pc.MStartDma? || s.pc.MWaitAck? || s.pc.MClearNull?
    ensures MasterLeft(cfg, MasterStep(cfg, s).pc, j, s.links[j]) == MasterLeft(cfg, s.pc, j, s.links[j])
  {
  }

  lemma SendOthers(cfg: Config, s: State, j: nat)
    requires cfg.Valid() && InRange(cfg, s) && j < cfg.slaves && !s.pc.MDone? && j != s.pc.i && !Ends(cfg, s)
    requires s.pc.MFirst? || s.pc.MFirstDma? || s.pc.MNext? || s.pc.MNextDma? || s.pc.MStopCmd? || s.pc.MStopDma?
    ensures MasterLeft(cfg, MasterStep(cfg, s).pc, j, s.links[j]) == MasterLeft(cfg, s.pc, j, s.links[j])
  {
  }

  lemma TakeOthers(cfg: Config, s: State, j: nat)
    requires cfg.Valid() && InRange(cfg, s) && j < cfg.slaves && !s.pc.MDone? && j != s.pc.i && !Ends(cfg, s)
    requires s.pc.MPoll? || s.pc.MReadCmd? || s.pc.MReadData? || s.pc.MClearRow?
    ensures MasterLeft(cfg, MasterStep(cfg, s).pc, j, s.links[j]) == MasterLeft(cfg, s.pc, j, s.links[j])
  {
  }

  /** When the master leaves the poll loop, only the stop packets are left. */
  lemma OnlyStops(cfg: Config, s: State, j: nat)
    requires Inv(cfg, s) && j < cfg.slaves && Ends(cfg, s)
    ensures RowsLeft(cfg, j, MasterStep(cfg, s).links[j]) == STOP_COST
  {
    var s' := MasterStep(cfg, s);
    MasterKeepsInv(cfg, s);
    AllReceived(cfg, s', cfg.slaves);
    assert LinkFine(cfg, s', j);
  }

  lemma EndOthers(cfg: Config, s: State, j: nat)
    requires cfg.Valid() && InRange(cfg, s) && j < cfg.slaves && Ends(cfg, s)
    requires j != s.pc.i && RowsLeft(cfg, j, s.links[j]) == STOP_COST
    ensures MasterLeft(cfg, MasterStep(cfg, s).pc, j, s.links[j]) == MasterLeft(cfg, s.pc, j, s.links[j])
  {
  }

  lemma Untouched(cfg: Config, s: State, j: nat)
    requires cfg.Valid() && InRange(cfg, s) && j < cfg.slaves && (s.pc.MDone? || j != s.pc.i)
    ensures MasterStep(cfg, s).links[j] == s.links[j]
  {
  }

  /** The links the master does not work on are not touched by its step. */
  lemma OtherLinks(cfg: Config, s: State, j: nat)
    requires Inv(cfg, s) && !s.pc.MDone? && j < cfg.slaves && j != s.pc.i
    ensures var s' := MasterStep(cfg, s); LinkLeft(cfg, s'.pc, j, s'.links[j]) == LinkLeft(cfg, s.pc, j, s.links[j])
  {
    Untouched(cfg, s, j);
    if Ends(cfg, s) {
      OnlyStops(cfg, s, j);
      EndOthers(cfg, s, j);
    } else if s.pc.MPoll? || s.pc.MReadCmd? || s.pc.MReadData? || s.pc.MClearRow? {
      TakeOthers(cfg, s, j);
    } else if s.pc.MFirst? || s.pc.MFirstDma? || s.pc.MNext? || s.pc.MNextDma? || s.pc.MStopCmd? || s.pc.MStopDma? {
      SendOthers(cfg, s, j);
    } else {
      StartOthers(cfg, s, j);
    }
  }

  /** A working step brings its own link forward. */
  lemma OwnLink(cfg: Config, s: State)
    requires Inv(cfg, s) && MasterWorks(s)
    ensures var s', i := MasterStep(cfg, s), s.pc.i;
            LinkLeft(cfg, s'.pc, i, s'.links[i]) < LinkLeft(cfg, s.pc, i, s.links[i])
  {
    match s.pc
    case MFirst(_, _) => FillSteps(cfg, s);
    case MNext(_, _) => FillSteps(cfg, s);
    case MFirstDma(_, _) => CopySteps(cfg, s);
    case MNextDma(_, _) => CopySteps(cfg, s);
    case MPoll(_) => PollSteps(cfg, s);
    case MReadCmd(_) => ReadSteps(cfg, s);
    case MReadData(_, _) => ReadSteps(cfg, s);
    case MClearRow(_) => ClearSteps(cfg, s);
    case MStopCmd(_) => StopSteps(cfg, s);
    case MStopDma(_, _) => StopSteps(cfg, s);
    case _ => StartSteps(cfg, s);
  }

  // ---- Polling ----------------------------------------------------------

  ghost predicate Filled(l: Link) { l.mRow.cmd != CMD_NULL }

  /** The first filled mailbox from index i on, |links| if there is none. */
  ghost function FirstFilled(links: seq<Link>, i: nat): (r: nat)
    requires i <= |links|
    ensures i <= r <= |links| && (r < |links| ==> Filled(links[r]))
    ensures forall j :: i <= j < r ==> !Filled(links[j])
    decreases |links| - i
  {
    if i == |links| then i else if Filled(links[i]) then i else FirstFilled(links, i + 1)
  }

  /** Looks the master needs from mailbox i on to reach a filled one, going round once. */
  ghost function Looks(links: seq<Link>, i: nat): (d: nat)
    requires i < |links|
    ensures d <= 2 * |links|
  {
    var a, b := FirstFilled(links, i), FirstFilled(links, 0);
    if a < |links| then a - i else if b < |links| then |links| - i + b else 2 * |links|
  }

  ghost function PollLeft(cfg: Config, s: State): (d: nat)
    requires InRange(cfg, s)
    ensures d <= 2 * cfg.slaves
  {
    if !s.pc.MPoll? then 0
    else if s.received == cfg.Rows() then cfg.slaves - s.pc.i
    else Looks(s.links, s.pc.i)
  }

  lemma FirstFilledUnique(links: seq<Link>, links': seq<Link>, i: nat)
    requires i <= |links| == |links'| && forall j :: 0 <= j < |links| ==> (Filled(links[j]) <==> Filled(links'[j]))
    ensures FirstFilled(links', i) == FirstFilled(links, i)
  {
  }

  /** Looking at an empty mailbox brings the master one closer to a filled one, if there is one. */
  lemma LooksNext(links: seq<Link>, i: nat)
    requires i < |links| && !Filled(links[i])
    ensures var i' := if i + 1 < |links| then i + 1 else 0;
            Looks(links, i') == if exists j :: 0 <= j < |links| && Filled(links[j]) then Looks(links, i) - 1 else Looks(links, i)
  {
    assert FirstFilled(links, i) == FirstFilled(links, i + 1);
    var b := FirstFilled(links, 0);
    if j :| 0 <= j < |links| && Filled(links[j]) {
      assert b <= j;
    }
  }

  // ---- The measure ------------------------------------------------------

  /** Steps other than spinning that are left, in a unit larger than a round of polling. */
  ghost function StepsLeft(cfg: Config, s: State): int
    requires InRange(cfg, s)
  {
    SumLeft(cfg, s.pc, s.links, cfg.slaves) * (2 * cfg.slaves + 1) + PollLeft(cfg, s)
  }

  /** One link's share changes by d, the others do not change. */
  lemma {:induction false} SumChange(cfg: Config, pc: MasterPc, links: seq<Link>, pc': MasterPc, links': seq<Link>, i: nat, d: int, n: nat)
    requires n <= |links| == |links'| && i < |links|
    requires LinkLeft(cfg, pc', i, links'[i]) == LinkLeft(cfg, pc, i, links[i]) + d
    requires forall j: nat :: j < |links| && j != i ==> LinkLeft(cfg, pc', j, links'[j]) == LinkLeft(cfg, pc, j, links[j])
    ensures SumLeft(cfg, pc', links', n) == SumLeft(cfg, pc, links, n) + (if i < n then d else 0)
  {
    if n > 0 { SumChange(cfg, pc, links, pc', links', i, d, n - 1); }
  }

  /** A smaller sum is a smaller measure whatever happens to the polling. */
  lemma SumDominates(a: int, b: int, x: nat, y: nat, m: nat)
    requires a < b && x <= 2 * m
    ensures a * (2 * m + 1) + x < b * (2 * m + 1) + y
  {
    Arith.MulStep(a, b, 2 * m + 1);
  }

  lemma MasterWorkCounts(cfg: Config, s: State)
    requires Inv(cfg, s) && MasterWorks(s)
    ensures InRange(cfg, MasterStep(cfg, s)) && StepsLeft(cfg, MasterStep(cfg, s)) < StepsLeft(cfg, s)
  {
    var s', i := MasterStep(cfg, s), s.pc.i;
    MasterKeepsInv(cfg, s);
    OwnLink(cfg, s);
    var d := LinkLeft(cfg, s'.pc, i, s'.links[i]) - LinkLeft(cfg, s.pc, i, s.links[i]);
    forall j: nat | j < cfg.slaves && j != i
      ensures LinkLeft(cfg, s'.pc, j, s'.links[j]) == LinkLeft(cfg, s.pc, j, s.links[j])
    {
      OtherLinks(cfg, s, j);
    }
    SumChange(cfg, s.pc, s.links, s'.pc, s'.links, i, d, cfg.slaves);
    SumDominates(SumLeft(cfg, s'.pc, s'.links, cfg.slaves), SumLeft(cfg, s.pc, s.links, cfg.slaves),
                 PollLeft(cfg, s'), PollLeft(cfg, s), cfg.slaves);
  }

  /** A look at an empty mailbox changes nothing but the polling place. */
  lemma EmptyLook(cfg: Config, s: State)
    requires Inv(cfg, s) && s.pc.MPoll? && !MasterWorks(s)
    ensures var s' := MasterStep(cfg, s);
            InRange(cfg, s') && s'.links == s.links && SumLeft(cfg, s'.pc, s'.links, cfg.slaves) == SumLeft(cfg, s.pc, s.links, cfg.slaves)
  {
    var s', i := MasterStep(cfg, s), s.pc.i;
    MasterKeepsInv(cfg, s);
    forall j: nat | j < cfg.slaves && j != i
      ensures LinkLeft(cfg, s'.pc, j, s'.links[j]) == LinkLeft(cfg, s.pc, j, s.links[j])
    {
      OtherLinks(cfg, s, j);
    }
    if Ends(cfg, s) { OnlyStops(cfg, s, i); }
    SumChange(cfg, s.pc, s.links, s'.pc, s'.links, i, 0, cfg.slaves);
  }

  lemma MasterLookCounts(cfg: Config, s: State)
    requires Inv(cfg, s) && !MasterWorks(s)
    ensures var s' := MasterStep(cfg, s);
            InRange(cfg, s') && StepsLeft(cfg, s') == StepsLeft(cfg, s) - (if Productive(cfg, s, cfg.slaves) then 1 else 0)
  {
    if s.pc.MPoll? {
      EmptyLook(cfg, s);
      if s.received != cfg.Rows() { LooksNext(s.links, s.pc.i); }
      AllReceived(cfg, s, cfg.slaves);
    }
  }

  /** The filled mailboxes that a worker's step does not change are found where they were. */
  lemma PollKept(cfg: Config, s: State, i: nat, l: Link)
    requires InRange(cfg, s) && i < cfg.slaves && l.mRow.cmd == s.links[i].mRow.cmd
    ensures PollLeft(cfg, s.(links := s.links[i := l])) == PollLeft(cfg, s)
  {
    if s.pc.MPoll? {
      FirstFilledUnique(s.links, s.links[i := l], s.pc.i);
      FirstFilledUnique(s.links, s.links[i := l], 0);
    }
  }

  lemma WorkerCounts(cfg: Config, s: State, i: nat)
    requires Inv(cfg, s) && i < cfg.slaves
    ensures var s' := WorkerStep(s, i);
            && InRange(cfg, s')
            && (WorkerMoves(s.links[i]) ==> StepsLeft(cfg, s') < StepsLeft(cfg, s))
            && (!WorkerMoves(s.links[i]) ==> StepsLeft(cfg, s') == StepsLeft(cfg, s))
  {
    var s', l := WorkerStep(s, i), s.links[i];
    assert LinkFine(cfg, s, i);
    PlaceOkAlways(cfg, i, StageOf(s.pc, i), l);
    WorkerSteps(l);
    SlaveOwns(l);
    SumChange(cfg, s.pc, s.links, s.pc, s'.links, i, WorkerLeft(SlaveStep(l)) - WorkerLeft(l), cfg.slaves);
    if WorkerMoves(l) {
      SumDominates(SumLeft(cfg, s.pc, s'.links, cfg.slaves), SumLeft(cfg, s.pc, s.links, cfg.slaves),
                   PollLeft(cfg, s'), PollLeft(cfg, s), cfg.slaves);
    } else {
      PollKept(cfg, s, i, SlaveStep(l));
    }
  }

  /** Every productive step decreases the measure, every other step leaves it as it is. */
  lemma StepCounts(cfg: Config, s: State, p: nat)
    requires Inv(cfg, s)
    ensures var s' := StepOf(cfg, s, p);
            && Inv(cfg, s')
            && (Moves(cfg, s, p) ==> StepsLeft(cfg, s') < StepsLeft(cfg, s))
            && (!Moves(cfg, s, p) ==> StepsLeft(cfg, s') == StepsLeft(cfg, s))
  {
    if p < cfg.slaves {
      WorkerKeepsInv(cfg, s, p);
      WorkerCounts(cfg, s, p);
    } else {
      MasterKeepsInv(cfg, s);
      if MasterWorks(s) { MasterWorkCounts(cfg, s); } else { MasterLookCounts(cfg, s); }
    }
  }

  /** Any number from cfg.slaves on stands for the master. */
  ghost predicate Moves(cfg: Config, s: State, p: nat)
    requires InRange(cfg, s)
  {
    Productive(cfg, s, if p < cfg.slaves then p else cfg.slaves)
  }

  // ---- The measure counts down to zero ----------------------------------

  lemma {:induction false} SumNat(cfg: Config, pc: MasterPc, links: seq<Link>, n: nat)
    requires n <= |links| && forall i: nat :: i < n ==> LinkLeft(cfg, pc, i, links[i]) >= 0
    ensures SumLeft(cfg, pc, links, n) >= 0
  {
    if n > 0 { SumNat(cfg, pc, links, n - 1); }
  }

  lemma MasterLeftNat(cfg: Config, s: State, i: nat)
    requires Inv(cfg, s) && i < cfg.slaves
    ensures MasterLeft(cfg, s.pc, i, s.links[i]) >= 0
  {
    assert LinkFine(cfg, s, i);
  }

  lemma LinkLeftNat(cfg: Config, s: State, i: nat)
    requires Inv(cfg, s) && i < cfg.slaves
    ensures LinkLeft(cfg, s.pc, i, s.links[i]) >= 0
  {
    assert LinkFine(cfg, s, i);
    PlaceOkAlways(cfg, i, StageOf(s.pc, i), s.links[i]);
    WorkerLeftNat(s.links[i]);
    MasterLeftNat(cfg, s, i);
  }

  lemma SumLeftNat(cfg: Config, s: State)
    requires Inv(cfg, s)
    ensures SumLeft(cfg, s.pc, s.links, cfg.slaves) >= 0
  {
    forall i: nat | i < cfg.slaves ensures LinkLeft(cfg, s.pc, i, s.links[i]) >= 0 { LinkLeftNat(cfg, s, i); }
    SumNat(cfg, s.pc, s.links, cfg.slaves);
  }

  lemma StepsLeftNat(cfg: Config, s: State)
    requires Inv(cfg, s)
    ensures StepsLeft(cfg, s) >= 0
  {
    SumLeftNat(cfg, s);
    NatProduct(SumLeft(cfg, s.pc, s.links, cfg.slaves), 2 * cfg.slaves + 1);
  }

  lemma NatProduct(a: nat, b: nat)
    ensures a * b >= 0
  {
  }

  /** The productive steps of a run. */
  ghost function Moved(cfg: Config, s: State, schedule: seq<nat>): nat
    requires Inv(cfg, s)
    decreases |schedule|
  {
    if schedule == [] then 0
    else
      StepCounts(cfg, s, schedule[0]);
      (if Moves(cfg, s, schedule[0]) then 1 else 0) + Moved(cfg, StepOf(cfg, s, schedule[0]), schedule[1..])
  }

  /** No run makes more productive steps than the measure at its start. */
  lemma {:induction false} MovesBounded(cfg: Config, s: State, schedule: seq<nat>, s': State)
    requires Inv(cfg, s) && Reachable(cfg, s, schedule, s')
    ensures Inv(cfg, s') && Moved(cfg, s, schedule) + StepsLeft(cfg, s') <= StepsLeft(cfg, s)
    decreases |schedule|
  {
    if schedule != [] {
      StepCounts(cfg, s, schedule[0]);
      MovesBounded(cfg, StepOf(cfg, s, schedule[0]), schedule[1..], s');
    }
  }

  // ---- Fair runs --------------------------------------------------------

  lemma WorkerSpinKeeps(cfg: Config, s: State, p: nat, q: nat)
    requires cfg.Valid() && InRange(cfg, s) && q < cfg.slaves && p != q && Moves(cfg, s, p)
    requires SlaveStep(s.links[q]).mRow == s.links[q].mRow
    ensures InRange(cfg, WorkerStep(s, q)) && Moves(cfg, WorkerStep(s, q), p)
  {
    var s' := WorkerStep(s, q);
    assert forall j :: 0 <= j < cfg.slaves ==> s'.links[j].mRow == s.links[j].mRow;
  }

  /** A spin of the master leaves the links alone. */
  lemma MasterSpins(cfg: Config, s: State)
    requires cfg.Valid() && InRange(cfg, s) && !Productive(cfg, s, cfg.slaves)
    ensures MasterStep(cfg, s).links == s.links
  {
  }

  /** A spin of one process takes no step away from another. */
  lemma SpinKeeps(cfg: Config, s: State, p: nat, q: nat)
    requires Inv(cfg, s) && Moves(cfg, s, p) && !Moves(cfg, s, q)
    ensures InRange(cfg, StepOf(cfg, s, q)) && Moves(cfg, StepOf(cfg, s, q), p)
  {
    if q < cfg.slaves {
      assert LinkFine(cfg, s, q);
      PlaceOkAlways(cfg, q, StageOf(s.pc, q), s.links[q]);
      WorkerSteps(s.links[q]);
      WorkerSpinKeeps(cfg, s, p, q);
    } else {
      MasterKeepsInv(cfg, s);
      MasterSpins(cfg, s);
    }
  }

  /** A stretch of a run in which a process that can move gets its turn has a productive step. */
  lemma {:induction false} TurnMoves(cfg: Config, s: State, schedule: seq<nat>, p: nat)
    requires Inv(cfg, s) && Moves(cfg, s, p) && p in schedule
    ensures Moved(cfg, s, schedule) >= 1
    decreases |schedule|
  {
    StepCounts(cfg, s, schedule[0]);
    if !Moves(cfg, s, schedule[0]) {
      SpinKeeps(cfg, s, p, schedule[0]);
      TurnMoves(cfg, StepOf(cfg, s, schedule[0]), schedule[1..], p);
    }
  }

  /** A stretch in which every worker and the master get a turn. */
  ghost predicate Round(cfg: Config, schedule: seq<nat>) { forall p: nat :: p <= cfg.slaves ==> p in schedule }

  lemma {:induction false} FinishedStays(cfg: Config, s: State, schedule: seq<nat>, s': State)
    requires Inv(cfg, s) && Finished(cfg, s) && Reachable(cfg, s, schedule, s')
    ensures s' == s
    decreases |schedule|
  {
    if schedule != [] {
      FinishedStep(cfg, s, schedule[0]);
      FinishedStays(cfg, s, schedule[1..], s');
    }
  }

  lemma FinishedStep(cfg: Config, s: State, p: nat)
    requires Inv(cfg, s) && Finished(cfg, s)
    ensures StepOf(cfg, s, p) == s
  {
  }

  ghost function Joined(rounds: seq<seq<nat>>): seq<nat> {
    if rounds == [] then [] else rounds[0] + Joined(rounds[1..])
  }

  lemma {:induction false} ReachableSplit(cfg: Config, s: State, a: seq<nat>, b: seq<nat>, e: State) returns (m: State)
    requires Inv(cfg, s) && Reachable(cfg, s, a + b, e)
    ensures Reachable(cfg, s, a, m) && Reachable(cfg, m, b, e)
    decreases |a|
  {
    if a == [] {
      assert a + b == b;
      m := s;
    } else {
      assert (a + b)[1..] == a[1..] + b;
      StepCounts(cfg, s, a[0]);
      m := ReachableSplit(cfg, StepOf(cfg, s, a[0]), a[1..], b, e);
    }
  }

  lemma RoundCounts(cfg: Config, s: State, round: seq<nat>, m: State)
    requires Inv(cfg, s) && !Finished(cfg, s) && Round(cfg, round) && Reachable(cfg, s, round, m)
    ensures Inv(cfg, m) && StepsLeft(cfg, m) < StepsLeft(cfg, s)
  {
    var p := SomeMove(cfg, s);
    assert p in round;
    TurnMoves(cfg, s, round, p);
    MovesBounded(cfg, s, round, m);
  }

  /** Every fair run ends: more rounds than the measure leave master and workers finished. */
  lemma {:induction false} FairRunEnds(cfg: Config, s: State, rounds: seq<seq<nat>>, s': State)
    requires Inv(cfg, s) && (forall r <- rounds :: Round(cfg, r)) && |rounds| > StepsLeft(cfg, s)
    requires Reachable(cfg, s, Joined(rounds), s')
    ensures InRange(cfg, s') && Finished(cfg, s')
    decreases |rounds|
  {
    if Finished(cfg, s) {
      FinishedStays(cfg, s, Joined(rounds), s');
    } else {
      StepsLeftNat(cfg, s);
      assert Round(cfg, rounds[0]);
      var m := ReachableSplit(cfg, s, rounds[0], Joined(rounds[1..]), s');
      RoundCounts(cfg, s, rounds[0], m);
      FairRunEnds(cfg, m, rounds[1..], s');
    }
  }

  /** From the start, every fair run ends with the whole picture written out. */
  lemma FairRunDelivers(cfg: Config, s: State, rounds: seq<seq<nat>>, s': State, row: nat)
    requires Init(cfg, s) && (forall r <- rounds :: Round(cfg, r)) && |rounds| > StepsLeft(cfg, s)
    requires Reachable(cfg, s, Joined(rounds), s') && row < cfg.Rows()
    ensures InRange(cfg, s') && Finished(cfg, s') && |s'.out| == cfg.Rows()
    ensures exists k :: 0 <= k < |s'.out| && s'.out[k] == (row, RowPixels(cfg, row))
  {
    InitInv(cfg, s);
    FairRunEnds(cfg, s, rounds, s');
    EveryRowOnce(cfg, s, Joined(rounds), s', row);
  }
}
