/**
  Whole runs of the master/worker row protocol: every picture row is written
  out exactly once, copies are never torn, and the system never gets stuck.
 */
module RowProtocolRuns {
  import Arith
  import opened RowProtocol

  ghost function GotUpTo(links: seq<Link>, n: nat): nat
    requires n <= |links|
  {
    if n == 0 then 0 else GotUpTo(links, n - 1) + links[n - 1].got
  }

  /** The master has taken the row from worker i but not yet written it out. */
  ghost predicate Reading(pc: MasterPc, i: nat) {
    (pc.MReadCmd? || pc.MReadData?) && pc.i == i
  }

  /** Rows of worker i that have been written out. */
  ghost function Written(s: State, i: nat): int
    requires i < |s.links|
  {
    s.links[i].got - (if Reading(s.pc, i) then 1 else 0)
  }

  ghost function Counts(s: State): seq<int> {
    seq(|s.links|, i requires 0 <= i < |s.links| => Written(s, i))
  }

  ghost function RowOf(cfg: Config, i: nat, g: nat): nat { cfg.First(i) + g }

  ghost predicate IsWritten(cfg: Config, counts: seq<int>, row: int) {
    exists i: nat, g: nat :: i < |counts| && g < counts[i] && row == RowOf(cfg, i, g)
  }

  ghost predicate InOutput(out: seq<(int, seq<char>)>, row: int) {
    exists k :: 0 <= k < |out| && out[k].0 == row
  }

  /** The output holds the written rows, each once and with its own pixels. */
  ghost predicate OutputOk(cfg: Config, counts: seq<int>, out: seq<(int, seq<char>)>)
    requires cfg.Valid()
  {
    && (forall k :: 0 <= k < |out| ==> IsWritten(cfg, counts, out[k].0) && out[k].1 == RowPixels(cfg, out[k].0))
    && (forall i: nat, g: nat :: i < |counts| && g < counts[i] ==> InOutput(out, RowOf(cfg, i, g)))
    && (forall j, k :: 0 <= j < k < |out| ==> out[j].0 != out[k].0)
  }

  /** The row being read is copied without tearing. */
  ghost predicate BufferOk(cfg: Config, s: State)
    requires cfg.Valid() && InRange(cfg, s)
  {
    s.pc.MReadData? ==>
      && s.position == cfg.First(s.pc.i) + s.links[s.pc.i].got - 1
      && s.buf == RowPixels(cfg, s.position)[..s.pc.k]
  }

  ghost predicate Inv(cfg: Config, s: State) {
    && cfg.Valid() && InRange(cfg, s) && LinksOk(cfg, s)
    && s.received == GotUpTo(s.links, cfg.slaves)
    && (Stopping(s.pc) ==> s.received == cfg.Rows())
    && BufferOk(cfg, s) && OutputOk(cfg, Counts(s), s.out)
    && |s.out| == s.received - (if s.pc.MReadCmd? || s.pc.MReadData? then 1 else 0)
  }

  /** Any memory contents, except that no worker mailbox already holds a start command. */
  ghost predicate Init(cfg: Config, s: State) {
    && cfg.Valid() && |s.links| == cfg.slaves && s.pc == MClear(0)
    && s.received == 0 && s.out == []
    && forall i :: 0 <= i < cfg.slaves ==>
         s.links[i].pc == WaitStart && s.links[i].sPacket[4] != CMD_START && s.links[i].got == 0
  }

  lemma {:induction false} GotZero(links: seq<Link>, n: nat)
    requires n <= |links| && forall i :: 0 <= i < n ==> links[i].got == 0
    ensures GotUpTo(links, n) == 0
  {
    if n > 0 { GotZero(links, n - 1); }
  }

  lemma InitInv(cfg: Config, s: State)
    requires Init(cfg, s)
    ensures Inv(cfg, s)
  {
    GotZero(s.links, cfg.slaves);
    assert forall i :: 0 <= i < cfg.slaves ==> Counts(s)[i] == 0;
  }

  // ---- Counting ---------------------------------------------------------

  lemma {:induction false} GotUpdate(links: seq<Link>, i: nat, l: Link, n: nat)
    requires n <= |links| && i < |links|
    ensures GotUpTo(links[i := l], n) == GotUpTo(links, n) + (if i < n then l.got - links[i].got else 0)
  {
    if n > 0 { GotUpdate(links, i, l, n - 1); }
  }

  lemma GotBounded(cfg: Config, s: State, i: nat)
    requires cfg.Valid() && InRange(cfg, s) && LinksOk(cfg, s) && i < cfg.slaves
    ensures s.links[i].got <= cfg.share
  {
    assert LinkFine(cfg, s, i);
  }

  /** received == ROWS means that every worker has delivered its whole share. */
  lemma {:induction false} AllReceived(cfg: Config, s: State, n: nat)
    requires cfg.Valid() && InRange(cfg, s) && LinksOk(cfg, s) && n <= cfg.slaves
    ensures GotUpTo(s.links, n) <= n * cfg.share
    ensures GotUpTo(s.links, n) == n * cfg.share ==> forall i :: 0 <= i < n ==> s.links[i].got == cfg.share
    ensures (forall i :: 0 <= i < n ==> s.links[i].got == cfg.share) ==> GotUpTo(s.links, n) == n * cfg.share
  {
    if n > 0 {
      AllReceived(cfg, s, n - 1);
      GotBounded(cfg, s, n - 1);
      Arith.MulNext(n - 1, cfg.share);
    }
  }

  lemma RowDecomposition(cfg: Config, i: nat, g: nat, j: nat, h: nat)
    requires g < cfg.share && h < cfg.share && cfg.First(i) + g == cfg.First(j) + h
    ensures i == j && g == h
  {
    if i < j { Arith.MulStep(i, j, cfg.share); }
    if j < i { Arith.MulStep(j, i, cfg.share); }
  }

  // ---- Preservation -----------------------------------------------------

  /** received is the number of rows taken from all workers together. */
  lemma ReceivedKept(cfg: Config, s: State)
    requires Inv(cfg, s)
    ensures var s' := MasterStep(cfg, s); s'.received == GotUpTo(s'.links, cfg.slaves)
  {
    if !s.pc.MDone? {
      var s' := MasterStep(cfg, s);
      var l := s'.links[s.pc.i];
      assert s'.links == s.links[s.pc.i := l];
      GotUpdate(s.links, s.pc.i, l, cfg.slaves);
    }
  }

  lemma StopOnlyWhenAll(cfg: Config, s: State)
    requires Inv(cfg, s)
    ensures var s' := MasterStep(cfg, s); Stopping(s'.pc) ==> s'.received == cfg.Rows()
  {
    AllReceived(cfg, s, cfg.slaves);
  }

  /** The row the master is reading lies complete in its mailbox. */
  lemma ReadFacts(cfg: Config, s: State)
    requires Inv(cfg, s) && (s.pc.MReadCmd? || s.pc.MReadData?)
    ensures var l, row := s.links[s.pc.i], cfg.First(s.pc.i) + s.links[s.pc.i].got - 1;
            l.mRow.cmd == row && l.mRow.data == RowPixels(cfg, row)
  {
    assert LinkFine(cfg, s, s.pc.i);
  }

  lemma BufferKept(cfg: Config, s: State)
    requires Inv(cfg, s) && InRange(cfg, MasterStep(cfg, s))
    ensures BufferOk(cfg, MasterStep(cfg, s))
  {
    if s.pc.MReadCmd? {
      ReadFacts(cfg, s);
    } else if s.pc.MReadData? {
      ReadFacts(cfg, s);
      NextPixel(RowPixels(cfg, s.position), s.links[s.pc.i].mRow.data, s.buf, s.pc.k);
    }
  }

  lemma NextPixel(px: RowData, data: RowData, buf: seq<char>, k: nat)
    requires data == px && k < COLS && buf == px[..k]
    ensures buf + [data[k]] == px[..k + 1]
  {
  }

  /** Only the step that completes a row changes what has been written. */
  ghost predicate Completes(pc: MasterPc) { pc.MReadData? && pc.k == COLS - 1 }

  lemma WrittenStep(cfg: Config, s: State, i: nat)
    requires Inv(cfg, s) && i < cfg.slaves
    ensures var s' := MasterStep(cfg, s);
            && |s'.links| == cfg.slaves
            && Written(s', i) == Written(s, i) + (if Completes(s.pc) && i == s.pc.i then 1 else 0)
  {
  }

  /** A completed row that was not written before keeps the output in order. */
  lemma OutputGrows(cfg: Config, counts: seq<int>, out: seq<(int, seq<char>)>, i: nat)
    requires cfg.Valid() && OutputOk(cfg, counts, out) && i < |counts| && 0 <= counts[i] < cfg.share
    requires forall j :: 0 <= j < |counts| ==> counts[j] <= cfg.share
    ensures var row := RowOf(cfg, i, counts[i]);
            OutputOk(cfg, counts[i := counts[i] + 1], out + [(row, RowPixels(cfg, row))])
  {
    var row := RowOf(cfg, i, counts[i]);
    var counts', out' := counts[i := counts[i] + 1], out + [(row, RowPixels(cfg, row))];
    forall k | 0 <= k < |out| ensures IsWritten(cfg, counts', out[k].0) && out[k].0 != row {
      NotYetWritten(cfg, counts, i, out[k].0);
    }
    assert IsWritten(cfg, counts', row);
    forall j: nat, h: nat | j < |counts'| && h < counts'[j] ensures InOutput(out', RowOf(cfg, j, h)) {
      if j == i && h == counts[i] {
        assert out'[|out|].0 == row;
      } else {
        assert InOutput(out, RowOf(cfg, j, h));
        var k :| 0 <= k < |out| && out[k].0 == RowOf(cfg, j, h);
        assert out'[k].0 == RowOf(cfg, j, h);
      }
    }
  }

  lemma NotYetWritten(cfg: Config, counts: seq<int>, i: nat, row: int)
    requires i < |counts| && 0 <= counts[i] < cfg.share && IsWritten(cfg, counts, row)
    requires forall j :: 0 <= j < |counts| ==> counts[j] <= cfg.share
    ensures IsWritten(cfg, counts[i := counts[i] + 1], row) && row != RowOf(cfg, i, counts[i])
  {
    var j: nat, h: nat :| j < |counts| && h < counts[j] && row == RowOf(cfg, j, h);
    assert h < counts[i := counts[i] + 1][j];
    if row == RowOf(cfg, i, counts[i]) { RowDecomposition(cfg, i, counts[i], j, h); }
  }

  /** The step that completes a row appends the oldest unwritten row of its worker. */
  lemma CompletedRow(cfg: Config, s: State)
    requires Inv(cfg, s) && Completes(s.pc)
    ensures 0 <= Written(s, s.pc.i) < cfg.share
    ensures var row := RowOf(cfg, s.pc.i, Written(s, s.pc.i));
            MasterStep(cfg, s).out == s.out + [(row, RowPixels(cfg, row))]
  {
    var px := RowPixels(cfg, s.position);
    ReadFacts(cfg, s);
    GotBounded(cfg, s, s.pc.i);
    NextPixel(px, s.links[s.pc.i].mRow.data, s.buf, COLS - 1);
    assert px[..COLS] == px;
    ReadGot(cfg, s);
  }

  lemma ReadGot(cfg: Config, s: State)
    requires Inv(cfg, s) && (s.pc.MReadCmd? || s.pc.MReadData?)
    ensures s.links[s.pc.i].got > 0
  {
    assert LinkFine(cfg, s, s.pc.i);
  }

  lemma RowCompleted(cfg: Config, s: State)
    requires Inv(cfg, s) && Completes(s.pc)
    ensures var s' := MasterStep(cfg, s); OutputOk(cfg, Counts(s'), s'.out)
  {
    var i := s.pc.i;
    CompletedRow(cfg, s);
    CountsStep(cfg, s);
    forall j: nat | j < cfg.slaves ensures Counts(s)[j] <= cfg.share { GotBounded(cfg, s, j); }
    OutputGrows(cfg, Counts(s), s.out, i);
  }

  lemma CountsStep(cfg: Config, s: State)
    requires Inv(cfg, s) && Completes(s.pc)
    ensures s.pc.i < |Counts(s)| && Counts(MasterStep(cfg, s)) == Counts(s)[s.pc.i := Counts(s)[s.pc.i] + 1]
  {
    var s', i := MasterStep(cfg, s), s.pc.i;
    forall j: nat | j < cfg.slaves ensures Written(s', j) == Written(s, j) + (if j == i then 1 else 0) {
      WrittenStep(cfg, s, j);
    }
  }

  lemma MasterKeepsInv(cfg: Config, s: State)
    requires Inv(cfg, s)
    ensures Inv(cfg, MasterStep(cfg, s))
  {
    var s' := MasterStep(cfg, s);
    AllReceived(cfg, s, cfg.slaves);
    MasterKeepsLinks(cfg, s);
    ReceivedKept(cfg, s);
    StopOnlyWhenAll(cfg, s);
    BufferKept(cfg, s);
    OutputKept(cfg, s);
  }

  lemma OutputKept(cfg: Config, s: State)
    requires Inv(cfg, s)
    ensures var s' := MasterStep(cfg, s); OutputOk(cfg, Counts(s'), s'.out)
  {
    var s' := MasterStep(cfg, s);
    if Completes(s.pc) {
      RowCompleted(cfg, s);
    } else {
      forall i: nat | i < cfg.slaves ensures Written(s', i) == Written(s, i) { WrittenStep(cfg, s, i); }
      assert Counts(s') == Counts(s);
    }
  }

  ghost function WorkerStep(s: State, i: nat): State
    requires i < |s.links|
  {
    s.(links := s.links[i := SlaveStep(s.links[i])])
  }

  lemma WorkerKeepsLinks(cfg: Config, s: State, i: nat)
    requires cfg.Valid() && InRange(cfg, s) && LinksOk(cfg, s) && i < cfg.slaves
    ensures InRange(cfg, WorkerStep(s, i)) && LinksOk(cfg, WorkerStep(s, i))
  {
    var s' := WorkerStep(s, i);
    forall j: nat | j < cfg.slaves ensures LinkFine(cfg, s', j) {
      assert LinkFine(cfg, s, j);
      if j == i { SlaveKeepsLink(cfg, i, StageOf(s.pc, i), s.links[i]); }
    }
  }

  lemma WorkerKeepsInv(cfg: Config, s: State, i: nat)
    requires Inv(cfg, s) && i < cfg.slaves
    ensures Inv(cfg, WorkerStep(s, i))
  {
    var s', l := WorkerStep(s, i), SlaveStep(s.links[i]);
    SlaveOwns(s.links[i]);
    WorkerKeepsLinks(cfg, s, i);
    GotUpdate(s.links, i, l, cfg.slaves);
    assert Counts(s') == Counts(s);
  }

  // ---- Runs -------------------------------------------------------------

  /** One step of process p: a worker below `slaves`, the master otherwise. */
  ghost function StepOf(cfg: Config, s: State, p: nat): State
    requires cfg.Valid() && InRange(cfg, s)
  {
    if p < cfg.slaves then WorkerStep(s, p) else MasterStep(cfg, s)
  }

  ghost predicate Reachable(cfg: Config, s: State, schedule: seq<nat>, s': State)
    decreases |schedule|
  {
    if schedule == [] then s == s'
    else cfg.Valid() && InRange(cfg, s) && Reachable(cfg, StepOf(cfg, s, schedule[0]), schedule[1..], s')
  }

  /** The invariant holds in every state of every interleaving. */
  lemma {:induction false} RunInv(cfg: Config, s: State, schedule: seq<nat>, s': State)
    requires Inv(cfg, s) && Reachable(cfg, s, schedule, s')
    ensures Inv(cfg, s')
    decreases |schedule|
  {
    if schedule != [] {
      if schedule[0] < cfg.slaves { WorkerKeepsInv(cfg, s, schedule[0]); } else { MasterKeepsInv(cfg, s); }
      RunInv(cfg, StepOf(cfg, s, schedule[0]), schedule[1..], s');
    }
  }

  /** Every picture row is written out exactly once, with the pixels of its own y value, and nothing else is. */
  lemma EveryRowOnce(cfg: Config, s: State, schedule: seq<nat>, s': State, row: nat)
    requires Init(cfg, s) && Reachable(cfg, s, schedule, s') && Stopping(s'.pc) && row < cfg.Rows()
    ensures exists k :: 0 <= k < |s'.out| && s'.out[k] == (row, RowPixels(cfg, row))
                        && forall j :: 0 <= j < |s'.out| && s'.out[j].0 == row ==> j == k
    ensures |s'.out| == cfg.Rows()
  {
    InitInv(cfg, s);
    RunInv(cfg, s, schedule, s');
    AllReceived(cfg, s', cfg.slaves);
    var i, g := Locate(cfg, row);
    assert g < Counts(s')[i];
    assert InOutput(s'.out, RowOf(cfg, i, g));
    var k :| 0 <= k < |s'.out| && s'.out[k].0 == row;
  }

  lemma Locate(cfg: Config, row: nat) returns (i: nat, g: nat)
    requires cfg.Valid() && row < cfg.Rows()
    ensures i < cfg.slaves && g < cfg.share && row == RowOf(cfg, i, g)
  {
    i, g := row / cfg.share, row % cfg.share;
    assert row == i * cfg.share + g;
    if i > cfg.slaves { Arith.MulStep(cfg.slaves, i, cfg.share); }
  }

  // ---- Conservation -----------------------------------------------------

  /** A packet for a row lies in the worker's mailbox. */
  ghost predicate InMailbox(l: Link) { l.pc != WaitStart && l.sPacket[4] > CMD_NULL }

  /** The worker has taken the packet out and has not yet delivered the row. */
  ghost predicate Working(l: Link) {
    l.pc.Compute? || l.pc == SetRowCmd || (l.pc.RowDma? && l.pc.k <= COLS / 4)
  }

  /** A row of worker i lies in the master's mailbox and has not been counted yet. */
  ghost predicate RowWaiting(s: State, i: nat)
    requires i < |s.links|
  {
    s.links[i].pc != WaitStart && s.links[i].mRow.cmd > CMD_NULL && !Reading(s.pc, i) && s.pc != MClearRow(i)
  }

  /** Packets and rows of worker i between the master's two counters, by where they are. */
  ghost function Outstanding(s: State, i: nat): nat
    requires i < |s.links|
  {
    (if InMailbox(s.links[i]) then 1 else 0) + (if Working(s.links[i]) then 1 else 0) + (if RowWaiting(s, i) then 1 else 0)
  }

  /** The master has set row[i]. */
  ghost predicate RowSet(pc: MasterPc, i: nat) {
    match pc
    case MClear(_) => false
    case MStartCmd(_) => false
    case MStartDma(_, _) => false
    case MWaitAck(_) => false
    case MClearNull(_) => false
    case MFirst(j, f) => i < j || (i == j && f > 0)
    case MFirstDma(j, _) => i <= j
    case _ => true
  }

  /** Rows of worker i for which no packet has been sent, by row[i]. */
  ghost function Unassigned(cfg: Config, s: State, i: nat): int
    requires i < |s.links|
  {
    if RowSet(s.pc, i) then cfg.First(i) + cfg.share - s.links[i].next else cfg.share
  }

  ghost function SumOutstanding(s: State, n: nat): nat
    requires n <= |s.links|
  {
    if n == 0 then 0 else SumOutstanding(s, n - 1) + Outstanding(s, n - 1)
  }

  ghost function SumUnassigned(cfg: Config, s: State, n: nat): int
    requires n <= |s.links|
  {
    if n == 0 then 0 else SumUnassigned(cfg, s, n - 1) + Unassigned(cfg, s, n - 1)
  }

  /** What the mailboxes hold accounts for the difference of the counters. */
  lemma LinkBalance(cfg: Config, s: State, i: nat)
    requires Inv(cfg, s) && i < cfg.slaves
    ensures Balanced(cfg, s, i) && Outstanding(s, i) <= 1 && Unassigned(cfg, s, i) >= 0
  {
    assert LinkFine(cfg, s, i);
  }

  ghost predicate Balanced(cfg: Config, s: State, i: nat)
    requires i < |s.links|
  {
    s.links[i].got + Outstanding(s, i) + Unassigned(cfg, s, i) == cfg.share
  }

  lemma {:induction false} SumsAddUp(cfg: Config, s: State, n: nat)
    requires n <= |s.links| && forall i: nat :: i < n ==> Balanced(cfg, s, i)
    ensures GotUpTo(s.links, n) + SumOutstanding(s, n) + SumUnassigned(cfg, s, n) == n * cfg.share
  {
    if n > 0 {
      SumsAddUp(cfg, s, n - 1);
      assert Balanced(cfg, s, n - 1);
      Arith.MulNext(n - 1, cfg.share);
    }
  }

  /** In every reachable state: rows received, packets and rows found in the mailboxes and at the workers,
      and rows not yet assigned add up to ROWS, and no worker has more than one outstanding. */
  lemma Conservation(cfg: Config, s: State, schedule: seq<nat>, s': State)
    requires Init(cfg, s) && Reachable(cfg, s, schedule, s')
    ensures |s'.links| == cfg.slaves
    ensures s'.received + SumOutstanding(s', cfg.slaves) + SumUnassigned(cfg, s', cfg.slaves) == cfg.Rows()
    ensures forall i :: 0 <= i < cfg.slaves ==> Outstanding(s', i) <= 1 && Unassigned(cfg, s', i) >= 0
  {
    InitInv(cfg, s);
    RunInv(cfg, s, schedule, s');
    forall i: nat | i < cfg.slaves
      ensures Balanced(cfg, s', i) && Outstanding(s', i) <= 1 && Unassigned(cfg, s', i) >= 0
    {
      LinkBalance(cfg, s', i);
    }
    SumsAddUp(cfg, s', cfg.slaves);
  }

  /** No torn reads: a worker that has read its packet holds exactly one whole
      packet of its own range, and the master's buffer is a prefix of one whole row. */
  lemma NoTornReads(cfg: Config, s: State, schedule: seq<nat>, s': State, i: nat)
    requires Init(cfg, s) && Reachable(cfg, s, schedule, s') && i < cfg.slaves
    ensures Inv(cfg, s')
    ensures s'.links[i].pc == ClearCmd || s'.links[i].pc.Compute? ==>
              exists row :: cfg.First(i) <= row < cfg.First(i) + cfg.share && s'.links[i].local == PacketOf(cfg, row)
    ensures s'.pc.MReadData? ==> s'.buf == RowPixels(cfg, s'.position)[..s'.pc.k]
  {
    InitInv(cfg, s);
    RunInv(cfg, s, schedule, s');
    assert LinkFine(cfg, s', i);
    WholePacket(cfg, i, StageOf(s'.pc, i), s'.links[i]);
  }

  lemma WholePacket(cfg: Config, i: nat, st: Stage, l: Link)
    requires cfg.Valid() && LinkOk(cfg, i, st, l)
    ensures l.pc == ClearCmd || l.pc.Compute? ==> l.got < cfg.share && l.local == PacketOf(cfg, cfg.First(i) + l.got)
  {
  }

  // ---- Progress ---------------------------------------------------------

  /** Process p can do more than repeat its spin loop. */
  ghost predicate Productive(cfg: Config, s: State, p: nat)
    requires InRange(cfg, s)
  {
    if p < cfg.slaves then
      match s.links[p].pc
      case WaitStart => s.links[p].sPacket[4] == CMD_START
      case SpinLow => s.links[p].sPacket[4] > CMD_NULL || s.links[p].sPacket[4] == CMD_STOP
      case SpinStop => s.links[p].sPacket[4] > CMD_NULL || s.links[p].sPacket[4] == CMD_STOP
      case Halted => false
      case _ => true
    else
      match s.pc
      case MWaitAck(i) => s.links[i].mRow.cmd == CMD_START
      case MPoll(_) => s.received == cfg.Rows() || exists j :: 0 <= j < cfg.slaves && s.links[j].mRow.cmd != CMD_NULL
      case MDone => false
      case _ => true
  }

  ghost predicate Finished(cfg: Config, s: State)
    requires InRange(cfg, s)
  {
    s.pc.MDone? && forall i :: 0 <= i < cfg.slaves ==> s.links[i].pc == Halted
  }

  lemma SomeMove(cfg: Config, s: State) returns (p: nat)
    requires Inv(cfg, s) && !Finished(cfg, s)
    ensures p <= cfg.slaves && Productive(cfg, s, p)
  {
    p := cfg.slaves;
    if !Productive(cfg, s, p) {
      match s.pc
      case MWaitAck(i) =>
        p := i;
        WorkerAnswers(cfg, s, i);
      case MPoll(_) =>
        AllReceived(cfg, s, cfg.slaves);
        p :| 0 <= p < cfg.slaves && s.links[p].got != cfg.share;
        WorkerComputes(cfg, s, p);
      case MDone =>
        p :| 0 <= p < cfg.slaves && s.links[p].pc != Halted;
        WorkerStops(cfg, s, p);
    }
  }

  /** In every reachable unfinished state some process can do more than spin. */
  lemma NeverStuck(cfg: Config, s: State, schedule: seq<nat>, s': State) returns (p: nat)
    requires Init(cfg, s) && Reachable(cfg, s, schedule, s')
    ensures InRange(cfg, s') && (Finished(cfg, s') || Productive(cfg, s', p))
  {
    InitInv(cfg, s);
    RunInv(cfg, s, schedule, s');
    p := 0;
    if !Finished(cfg, s') { p := SomeMove(cfg, s'); }
  }

  lemma WorkerAnswers(cfg: Config, s: State, i: nat)
    requires Inv(cfg, s) && s.pc == MWaitAck(i) && s.links[i].mRow.cmd != CMD_START
    ensures Productive(cfg, s, i)
  {
    assert LinkFine(cfg, s, i);
  }

  lemma WorkerComputes(cfg: Config, s: State, i: nat)
    requires Inv(cfg, s) && s.pc.MPoll? && i < cfg.slaves
    requires s.links[i].got != cfg.share && s.links[i].mRow.cmd == CMD_NULL
    ensures Productive(cfg, s, i)
  {
    assert LinkFine(cfg, s, i);
  }

  lemma WorkerStops(cfg: Config, s: State, i: nat)
    requires Inv(cfg, s) && s.pc == MDone && i < cfg.slaves && s.links[i].pc != Halted
    ensures Productive(cfg, s, i)
  {
    assert LinkFine(cfg, s, i);
  }
}
