/**
  Master/worker row protocol of the parallel mandelbrot program
  (c/cmp/mandelbrot_par.c), as interleaved steps on single words: every store to
  a mailbox, every word moved by a copy and every spin read is one step.
 */
module RowProtocol {
  import Arith

  const CMD_START := -3
  const CMD_STOP := -2
  const CMD_NULL := -1

  const COLS: nat := 32
  const FRAC_ONE := 65536
  const XSTART := -2 * FRAC_ONE
  const XEND := FRAC_ONE
  const XSTEP := (XEND - XSTART + COLS - 1) / COLS
  const YSTART := -FRAC_ONE
  const YEND := FRAC_ONE
  const MAX_SQUARE := 16 * FRAC_ONE
  const MAX_ITER: nat := 64
  const MAP := " .',:;-~+=<>/\\!(){}[]it1lfIJ?L7VThYZCdbUOQGD2S5XFHKP9NAE38&RBWM#"

  /** SLAVES workers with `share` = ROWS / SLAVES rows each. */
  datatype Config = Config(slaves: nat, share: nat) {
    ghost predicate Valid() { 0 < slaves && 0 < share }
    function Rows(): nat { slaves * share }
    function First(i: nat): nat { i * share }
  }

  // ---- Pixels -----------------------------------------------------------

  function Wrap32(x: int): int { (x + 0x8000_0000) % 0x1_0000_0000 - 0x8000_0000 }
  function FracMul(x: int, y: int): int { Wrap32(x * y / FRAC_ONE) }

  function Iterate(cx: int, cy: int, x: int, y: int, square: int, iter: nat): nat
    decreases MAX_ITER - iter
  {
    if square <= MAX_SQUARE && iter < MAX_ITER then
      var x' := Wrap32(FracMul(x, x) - FracMul(y, y) + cx);
      var y' := Wrap32(2 * FracMul(x, y) + cy);
      Iterate(cx, cy, x', y', (FracMul(x', x') + FracMul(y', y')) % 0x1_0000_0000, iter + 1)
    else iter
  }

  function Pixel(x: int, y: int): char { MAP[Iterate(x, y, 0, 0, 0, 0) % 64] }

  function YVal(cfg: Config, row: int): int
    requires cfg.Valid()
  {
    YSTART + row * ((YEND - YSTART + cfg.Rows() - 1) / RowsPositive(cfg))
  }

  function RowsPositive(cfg: Config): (n: int)
    requires cfg.Valid()
    ensures n == cfg.Rows() > 0
  {
    Arith.MulStep(0, cfg.slaves, cfg.share);
    cfg.Rows()
  }

  type RowData = d: seq<char> | |d| == COLS witness seq(COLS, _ => ' ')

  /** The picture row that belongs to row number `row`. */
  function RowPixels(cfg: Config, row: int): RowData
    requires cfg.Valid()
  {
    PixelRow(YVal(cfg, row), COLS)
  }

  /** The first n pixels of a row. */
  function PixelRow(y: int, n: nat): (r: seq<char>)
    ensures |r| == n
    decreases n, y
  {
    if n == 0 then [] else PixelRow(y, n - 1) + [Pixel(XSTART + (n - 1) * XSTEP, y)]
  }

  lemma {:induction false} PixelAt(y: int, n: nat, k: nat)
    requires k < n
    ensures PixelRow(y, n)[k] == Pixel(XSTART + k * XSTEP, y)
  {
    if k < n - 1 { PixelAt(y, n - 1, k); }
  }

  // ---- Mailboxes and states ---------------------------------------------

  /** packet_t as words: yval, xstart, xend, xstep, cmd.  Its padding word is copied but never read. */
  type Packet = p: seq<int> | |p| == 5 witness [0, 0, 0, 0, 0]

  datatype Row = Row(data: RowData, cmd: int)

  function PacketOf(cfg: Config, row: int): Packet
    requires cfg.Valid()
  {
    [YVal(cfg, row), XSTART, XEND, XSTEP, row]
  }

  datatype SlavePc =
    | WaitStart | AckCmd | AckDma(k: nat)
    | SpinLow | SpinStop | CheckStop
    | ReadField(f: nat) | ClearCmd
    | Compute(idx: nat, x: int) | SetRowCmd | RowDma(k: nat)
    | Halted

  /** All words shared by the master and one worker, with the worker's own state.
      `next` is row[i] of the master and `got` counts the rows it has taken from this worker. */
  datatype Link = Link(mPacket: Packet, mRow: Row, sPacket: Packet, sRow: Row,
                       local: Packet, pc: SlavePc, next: int, got: nat)

  datatype MasterPc =
    | MClear(i: nat) | MStartCmd(i: nat) | MStartDma(i: nat, k: nat) | MWaitAck(i: nat) | MClearNull(i: nat)
    | MFirst(i: nat, k: nat) | MFirstDma(i: nat, k: nat)
    | MPoll(i: nat) | MReadCmd(i: nat) | MReadData(i: nat, k: nat) | MClearRow(i: nat)
    | MNext(i: nat, k: nat) | MNextDma(i: nat, k: nat)
    | MStopCmd(i: nat) | MStopDma(i: nat, k: nat) | MDone

  datatype State = State(pc: MasterPc, links: seq<Link>, received: nat,
                         position: int, buf: seq<char>, out: seq<(int, seq<char>)>)

  // ---- Worker steps -----------------------------------------------------

  /** Word k of the row copy: eight data words, the command, one padding word. */
  function CopyRowWord(l: Link, k: nat): Link {
    if k < COLS / 4 then
      l.(mRow := l.mRow.(data := l.mRow.data[..4 * k] + l.sRow.data[4 * k..4 * k + 4] + l.mRow.data[4 * k + 4..]))
    else if k == COLS / 4 then l.(mRow := l.mRow.(cmd := l.sRow.cmd))
    else l
  }

  function SlaveStep(l: Link): Link {
    match l.pc
    case WaitStart => if l.sPacket[4] == CMD_START then l.(pc := AckCmd) else l
    case AckCmd => l.(sRow := l.sRow.(cmd := CMD_START), pc := AckDma(0))
    case AckDma(k) => CopyRowWord(l, k).(pc := if k > COLS / 4 then SpinLow else AckDma(k + 1))
    case SpinLow => l.(pc := if l.sPacket[4] <= CMD_NULL then SpinStop else CheckStop)
    case SpinStop => l.(pc := if l.sPacket[4] != CMD_STOP then SpinLow else CheckStop)
    case CheckStop => l.(pc := if l.sPacket[4] == CMD_STOP then Halted else ReadField(0))
    case ReadField(f) =>
      if f < 4 then l.(local := l.local[f := l.sPacket[f]], pc := ReadField(f + 1))
      else l.(local := l.local[4 := l.sPacket[4]], pc := ClearCmd)
    case ClearCmd => l.(sPacket := l.sPacket[4 := CMD_NULL], pc := Compute(0, l.local[1]))
    case Compute(idx, x) =>
      if x < l.local[2] then
        // a store beyond the row (idx >= COLS) would leave the model; the invariant excludes it
        var row := if idx < COLS then l.sRow.(data := l.sRow.data[idx := Pixel(x, l.local[0])]) else l.sRow;
        l.(sRow := row, pc := Compute(idx + 1, x + l.local[3]))
      else l.(pc := SetRowCmd)
    case SetRowCmd => l.(sRow := l.sRow.(cmd := l.local[4]), pc := RowDma(0))
    case RowDma(k) => CopyRowWord(l, k).(pc := if k > COLS / 4 then SpinLow else RowDma(k + 1))
    case Halted => l
  }

  // ---- Master steps -----------------------------------------------------

  /** Word k of the packet copy; word 5 is padding. */
  function CopyPacketWord(l: Link, k: nat): Link {
    if k < 5 then l.(sPacket := l.sPacket[k := l.mPacket[k]]) else l
  }

  /** The master fills cmd first, then yval, xstart, xend and xstep. */
  function FieldIndex(f: nat): nat
    requires f < 5
  {
    if f == 0 then 4 else f - 1
  }

  function FillField(cfg: Config, l: Link, f: nat): Link
    requires cfg.Valid() && f < 5
  {
    l.(mPacket := l.mPacket[FieldIndex(f) := PacketOf(cfg, l.next)[FieldIndex(f)]])
  }

  /** row[i]++ touches only the master's own state, so it is done with the word that delivers the packet. */
  function Deliver(l: Link, k: nat): Link {
    var l' := CopyPacketWord(l, k);
    if k == 4 then l'.(next := l.next + 1) else l'
  }

  ghost predicate InRange(cfg: Config, s: State) {
    && |s.links| == cfg.slaves
    && match s.pc
       case MDone => true
       case MReadData(i, k) => i < cfg.slaves && k < COLS
       case MFirst(i, k) => i < cfg.slaves && k < 5
       case MNext(i, k) => i < cfg.slaves && k < 5
       case _ => s.pc.i < cfg.slaves
  }

  function AfterPoll(cfg: Config, i: nat, received: nat): MasterPc {
    if i + 1 < cfg.slaves then MPoll(i + 1)
    else if received < cfg.Rows() then MPoll(0)
    else MStopCmd(0)
  }

  ghost function MasterStep(cfg: Config, s: State): State
    requires cfg.Valid() && InRange(cfg, s)
  {
    if s.pc.MDone? then s else
    var i, l, last := s.pc.i, s.links[s.pc.i], s.pc.i + 1 == cfg.slaves;
    match s.pc
    case MClear(_) => Go(s, l.(mRow := l.mRow.(cmd := CMD_STOP)), if last then MStartCmd(0) else MClear(i + 1))
    case MStartCmd(_) => Go(s, l.(mPacket := l.mPacket[4 := CMD_START]), MStartDma(i, 0))
    case MStartDma(_, k) =>
      Go(s, CopyPacketWord(l, k), if k < 5 then MStartDma(i, k + 1) else if last then MWaitAck(0) else MStartCmd(i + 1))
    case MWaitAck(_) =>
      if l.mRow.cmd != CMD_START then s else Go(s, l, if last then MClearNull(0) else MWaitAck(i + 1))
    case MClearNull(_) => Go(s, l.(mRow := l.mRow.(cmd := CMD_NULL)), if last then MFirst(0, 0) else MClearNull(i + 1))
    case MFirst(_, f) =>
      var l' := if f == 0 then l.(next := cfg.First(i)) else l;
      Go(s, FillField(cfg, l', f), if f < 4 then MFirst(i, f + 1) else MFirstDma(i, 0))
    case MFirstDma(_, k) =>
      Go(s, Deliver(l, k), if k < 5 then MFirstDma(i, k + 1) else if last then MPoll(0) else MFirst(i + 1, 0))
    case MPoll(_) =>
      if l.mRow.cmd == CMD_NULL then s.(pc := AfterPoll(cfg, i, s.received))
      else Go(s, l.(got := l.got + 1), MReadCmd(i)).(received := s.received + 1)
    case MReadCmd(_) => s.(position := l.mRow.cmd, buf := [], pc := MReadData(i, 0))
    case MReadData(_, k) =>
      var buf := s.buf + [l.mRow.data[k]];
      if k + 1 < COLS then s.(buf := buf, pc := MReadData(i, k + 1))
      else s.(buf := buf, out := s.out + [(s.position, buf)], pc := MClearRow(i))
    case MClearRow(_) =>
      Go(s, l.(mRow := l.mRow.(cmd := CMD_NULL)),
         if l.next < cfg.First(i) + cfg.share then MNext(i, 0) else AfterPoll(cfg, i, s.received))
    case MNext(_, f) => Go(s, FillField(cfg, l, f), if f < 4 then MNext(i, f + 1) else MNextDma(i, 0))
    case MNextDma(_, k) =>
      Go(s, Deliver(l, k), if k < 5 then MNextDma(i, k + 1) else AfterPoll(cfg, i, s.received))
    case MStopCmd(_) => Go(s, l.(mPacket := l.mPacket[4 := CMD_STOP]), MStopDma(i, 0))
    case MStopDma(_, k) =>
      Go(s, CopyPacketWord(l, k), if k < 5 then MStopDma(i, k + 1) else if last then MDone else MStopCmd(i + 1))
  }

  /** The master replaces what it owns of its current link and moves on. */
  ghost function Go(s: State, l: Link, pc: MasterPc): State
    requires !s.pc.MDone? && s.pc.i < |s.links|
  {
    s.(links := s.links[s.pc.i := l], pc := pc)
  }

  // ---- Invariant --------------------------------------------------------

  /** What the master's position means for worker i. */
  datatype Stage =
    | Boot(cleared: bool) | BootCopy | Acking(acked: bool) | Unused
    | Fill(first: bool, k: nat) | Copy(k: nat) | Run | Read
    | StopCopy | Stopped

  ghost function StageOf(pc: MasterPc, i: nat): Stage {
    match pc
    case MClear(j) => Boot(i < j)
    case MStartCmd(j) => if i < j then Acking(false) else Boot(true)
    case MStartDma(j, k) => if i < j || (i == j && k >= 5) then Acking(false) else if i == j then BootCopy else Boot(true)
    case MWaitAck(j) => Acking(i < j)
    case MClearNull(j) => if i < j then Unused else Acking(true)
    case MFirst(j, f) => if i < j then Run else if i == j then Fill(true, f) else Unused
    case MFirstDma(j, k) => if i < j || (i == j && k >= 5) then Run else if i == j then Copy(k) else Unused
    case MPoll(_) => Run
    case MReadCmd(j) => if i == j then Read else Run
    case MReadData(j, _) => if i == j then Read else Run
    case MClearRow(j) => if i == j then Read else Run
    case MNext(j, f) => if i == j then Fill(false, f) else Run
    case MNextDma(j, k) => if i == j && k < 5 then Copy(k) else Run
    case MStopCmd(j) => if i < j then Stopped else Run
    case MStopDma(j, k) => if i < j || (i == j && k >= 5) then Stopped else if i == j then StopCopy else Run
    case MDone => Stopped
  }

  /** The worker has handed over everything and is on its way to, or in, the spin loop. */
  ghost predicate Waiting(l: Link) {
    match l.pc
    case SpinLow => true
    case SpinStop => true
    case AckDma(k) => k == COLS / 4 + 1
    case RowDma(k) => k == COLS / 4 + 1
    case _ => false
  }

  /** No packet at the worker, no row at the master. */
  ghost predicate Quiet(l: Link) {
    Waiting(l) && (l.sPacket[4] == CMD_START || l.sPacket[4] == CMD_NULL) && l.mRow.cmd == CMD_NULL
  }

  /** Exactly one packet p is between delivery and the arrival of its pixels px. */
  ghost predicate Flying(l: Link, p: Packet, px: RowData) {
    match l.pc
    case CheckStop => l.sPacket == p && l.mRow.cmd == CMD_NULL
    case ReadField(f) => l.sPacket == p && l.mRow.cmd == CMD_NULL && f < 5 && l.local[..f] == p[..f]
    case ClearCmd => l.sPacket == l.local == p && l.mRow.cmd == CMD_NULL
    case Compute(idx, x) =>
      && l.local == p && l.sPacket[4] == CMD_NULL && l.mRow.cmd == CMD_NULL
      && idx <= COLS && x == XSTART + idx * XSTEP && l.sRow.data[..idx] == px[..idx]
    case SetRowCmd =>
      l.local == p && l.sPacket[4] == CMD_NULL && l.mRow.cmd == CMD_NULL && l.sRow.data == px
    case RowDma(k) =>
      if k == COLS / 4 + 1 then Arrived(l, p, px) || Mailed(l, p)
      else
        && k <= COLS / 4 && l.sRow == Row(px, p[4]) && l.sPacket[4] == CMD_NULL
        && l.mRow.cmd == CMD_NULL && l.mRow.data[..4 * k] == px[..4 * k]
    case _ => Waiting(l) && (Arrived(l, p, px) || Mailed(l, p))
  }

  ghost predicate Mailed(l: Link, p: Packet) { l.sPacket == p && l.mRow.cmd == CMD_NULL }

  ghost predicate Arrived(l: Link, p: Packet, px: RowData) { l.sPacket[4] == CMD_NULL && l.mRow == Row(px, p[4]) }

  /** The packet and the pixels are those of `row`. */
  ghost predicate InFlight(cfg: Config, l: Link, row: int)
    requires cfg.Valid()
  {
    Flying(l, PacketOf(cfg, row), RowPixels(cfg, row))
  }

  ghost predicate Delivered(cfg: Config, l: Link, row: int)
    requires cfg.Valid()
  {
    Arrived(l, PacketOf(cfg, row), RowPixels(cfg, row))
  }

  /** Between two looks of the master, `row` being the next row it will take. */
  ghost predicate RunOk(cfg: Config, l: Link, row: int)
    requires cfg.Valid()
  {
    && l.got <= cfg.share
    && (l.next == row ==> l.got == cfg.share && Quiet(l))
    && (l.next != row ==> l.next == row + 1 && l.got < cfg.share && InFlight(cfg, l, row))
  }

  ghost predicate LinkOk(cfg: Config, i: nat, st: Stage, l: Link)
    requires cfg.Valid()
  {
    var row := cfg.First(i) + l.got;
    match st
    case Boot(cleared) => l.pc == WaitStart && l.sPacket[4] != CMD_START && l.got == 0 && (cleared ==> l.mRow.cmd == CMD_STOP)
    case BootCopy =>
      l.pc == WaitStart && l.sPacket[4] != CMD_START && l.got == 0 && l.mRow.cmd == CMD_STOP && l.mPacket[4] == CMD_START
    case Acking(acked) =>
      && l.sPacket[4] == CMD_START && l.got == 0
      && (if Waiting(l) then l.mRow.cmd == CMD_START
          else !acked && l.mRow.cmd == CMD_STOP &&
               (l.pc == WaitStart || l.pc == AckCmd || (l.pc.AckDma? && l.pc.k <= COLS / 4 && l.sRow.cmd == CMD_START)))
    case Unused => Waiting(l) && l.sPacket[4] == CMD_START && l.mRow.cmd == CMD_NULL && l.got == 0
    case Fill(first, f) =>
      && Quiet(l) && l.got < cfg.share && (first ==> l.got == 0) && ((first && f == 0) || l.next == row)
      && forall g :: 0 <= g < f && g < 5 ==> l.mPacket[FieldIndex(g)] == PacketOf(cfg, row)[FieldIndex(g)]
    case Copy(k) =>
      && Quiet(l) && l.got < cfg.share && l.next == row
      && l.mPacket == PacketOf(cfg, row) && k <= 4 && l.sPacket[..k] == PacketOf(cfg, row)[..k]
    case Run => RunOk(cfg, l, row)
    case Read =>
      0 < l.got <= cfg.share && l.next == row && Waiting(l) && Delivered(cfg, l, row - 1)
    case StopCopy => l.got == cfg.share && l.next == row && Quiet(l) && l.mPacket[4] == CMD_STOP
    case Stopped =>
      && l.got == cfg.share && l.next == row && l.sPacket[4] == CMD_STOP && l.mRow.cmd == CMD_NULL
      && (Waiting(l) || l.pc == CheckStop || l.pc == Halted)
  }

  // ---- Worker steps keep the invariant ----------------------------------

  /** Without a new command a waiting worker only moves inside its spin loop. */
  lemma WaitingKeeps(l: Link)
    requires Waiting(l) && (l.sPacket[4] == CMD_START || l.sPacket[4] == CMD_NULL)
    ensures Waiting(SlaveStep(l)) && SlaveStep(l) == l.(pc := SlaveStep(l).pc)
  {
  }

  lemma QuietKeeps(l: Link)
    requires Quiet(l)
    ensures Quiet(SlaveStep(l)) && SlaveStep(l) == l.(pc := SlaveStep(l).pc)
  {
    WaitingKeeps(l);
  }

  /** The columns of the step loop: it runs exactly COLS times. */
  lemma ColumnInside(idx: nat)
    requires idx <= COLS
    ensures XSTART + idx * XSTEP < XEND <==> idx < COLS
    ensures XSTART + (idx + 1) * XSTEP == XSTART + idx * XSTEP + XSTEP
  {
    assert XSTEP == 6144;
  }

  lemma StorePixel(d: RowData, px: RowData, idx: nat, c: char)
    requires idx < COLS && d[..idx] == px[..idx] && c == px[idx]
    ensures d[idx := c][..idx + 1] == px[..idx + 1]
  {
    assert d[idx := c][..idx + 1] == d[..idx] + [c];
    assert px[..idx + 1] == px[..idx] + [px[idx]];
  }

  /** A packet for a row and the pixels that belong to it. */
  ghost predicate Matching(p: Packet, px: RowData) {
    p[1] == XSTART && p[2] == XEND && p[3] == XSTEP && p[4] >= 0 && px == PixelRow(p[0], COLS)
  }

  lemma ComputeKeeps(l: Link, p: Packet, px: RowData)
    requires l.pc.Compute? && Flying(l, p, px) && Matching(p, px)
    ensures Flying(SlaveStep(l), p, px)
  {
    var idx := l.pc.idx;
    ColumnInside(idx);
    if idx < COLS {
      var c := Pixel(l.pc.x, p[0]);
      PixelAt(p[0], COLS, idx);
      StorePixel(l.sRow.data, px, idx, c);
      assert SlaveStep(l) == l.(sRow := l.sRow.(data := l.sRow.data[idx := c]), pc := Compute(idx + 1, l.pc.x + XSTEP));
    } else {
      assert l.sRow.data[..idx] == l.sRow.data && px[..idx] == px;
    }
  }

  lemma RowDmaKeeps(l: Link, p: Packet, px: RowData)
    requires l.pc.RowDma? && Flying(l, p, px) && Matching(p, px)
    ensures Flying(SlaveStep(l), p, px)
  {
    var k := l.pc.k;
    if k < COLS / 4 {
      assert CopyRowWord(l, k).mRow.data[..4 * (k + 1)] == px[..4 * k] + px[4 * k..4 * k + 4] == px[..4 * (k + 1)];
    } else if k == COLS / 4 {
      assert l.mRow.data[..4 * k] == l.mRow.data && px[..4 * k] == px;
    }
  }

  lemma FieldKeeps(l: Link, p: Packet, px: RowData)
    requires l.pc.ReadField? && Flying(l, p, px)
    ensures Flying(SlaveStep(l), p, px)
  {
    var f := l.pc.f;
    assert f < 4 ==> SlaveStep(l).local[..f + 1] == p[..f] + [p[f]] == p[..f + 1];
    assert f == 4 ==> SlaveStep(l).local == p[..4] + [p[4]] == p;
  }

  lemma FlyingKeeps(l: Link, p: Packet, px: RowData)
    requires Flying(l, p, px) && Matching(p, px)
    ensures Flying(SlaveStep(l), p, px)
  {
    match l.pc
    case Compute(_, _) => ComputeKeeps(l, p, px);
    case RowDma(_) => RowDmaKeeps(l, p, px);
    case ReadField(_) => FieldKeeps(l, p, px);
    case _ =>
  }

  lemma InFlightKeeps(cfg: Config, l: Link, row: nat)
    requires cfg.Valid() && InFlight(cfg, l, row)
    ensures InFlight(cfg, SlaveStep(l), row)
  {
    FlyingKeeps(l, PacketOf(cfg, row), RowPixels(cfg, row));
  }

  lemma AckingKeeps(cfg: Config, i: nat, acked: bool, l: Link)
    requires cfg.Valid() && LinkOk(cfg, i, Acking(acked), l)
    ensures LinkOk(cfg, i, Acking(acked), SlaveStep(l))
  {
  }

  /** The worker changes nothing that belongs to the master's side. */
  lemma SlaveOwns(l: Link)
    ensures SlaveStep(l).mPacket == l.mPacket && SlaveStep(l).next == l.next && SlaveStep(l).got == l.got
  {
  }

  lemma RunKeeps(cfg: Config, i: nat, l: Link)
    requires cfg.Valid() && LinkOk(cfg, i, Run, l)
    ensures LinkOk(cfg, i, Run, SlaveStep(l))
  {
    RowNatural(cfg, i, l.got);
    RunOkKeeps(cfg, l, cfg.First(i) + l.got);
  }

  lemma RunOkKeeps(cfg: Config, l: Link, row: nat)
    requires cfg.Valid() && RunOk(cfg, l, row)
    ensures RunOk(cfg, SlaveStep(l), row) && SlaveStep(l).got == l.got
  {
    SlaveOwns(l);
    if l.next == row { QuietKeeps(l); } else { InFlightKeeps(cfg, l, row); }
  }

  lemma RowNatural(cfg: Config, i: nat, got: nat)
    ensures cfg.First(i) + got >= 0
  {
  }

  lemma QuietStageKeeps(cfg: Config, i: nat, st: Stage, l: Link)
    requires cfg.Valid() && LinkOk(cfg, i, st, l) && (st.Fill? || st.Copy? || st.StopCopy?)
    ensures LinkOk(cfg, i, st, SlaveStep(l))
  {
    QuietKeeps(l);
    assert SlaveStep(l).sPacket == l.sPacket && SlaveStep(l).mPacket == l.mPacket;
  }

  /** A worker step keeps its link in order, whatever the master is doing. */
  lemma SlaveKeepsLink(cfg: Config, i: nat, st: Stage, l: Link)
    requires cfg.Valid() && LinkOk(cfg, i, st, l)
    ensures LinkOk(cfg, i, st, SlaveStep(l))
  {
    match st
    case Run => RunKeeps(cfg, i, l);
    case Acking(acked) => AckingKeeps(cfg, i, acked, l);
    case Fill(_, _) => QuietStageKeeps(cfg, i, st, l);
    case Copy(_) => QuietStageKeeps(cfg, i, st, l);
    case StopCopy => QuietStageKeeps(cfg, i, st, l);
    case _ => IdleStageKeeps(cfg, i, st, l);
  }

  lemma IdleStageKeeps(cfg: Config, i: nat, st: Stage, l: Link)
    requires cfg.Valid() && LinkOk(cfg, i, st, l)
    requires st.Boot? || st.BootCopy? || st.Unused? || st.Read? || st.Stopped?
    ensures LinkOk(cfg, i, st, SlaveStep(l))
  {
    if st.Unused? {
      WaitingKeeps(l);
    } else if st.Read? {
      ReadKeeps(cfg, i, l);
    } else if st.Stopped? {
      StoppedKeeps(cfg, i, l);
    } else {
      assert SlaveStep(l) == l;
    }
  }

  lemma ReadKeeps(cfg: Config, i: nat, l: Link)
    requires cfg.Valid() && LinkOk(cfg, i, Read, l)
    ensures LinkOk(cfg, i, Read, SlaveStep(l))
  {
    WaitingKeeps(l);
    DeliveredKeeps(cfg, l, SlaveStep(l), cfg.First(i) + l.got - 1);
  }

  lemma DeliveredKeeps(cfg: Config, l: Link, l': Link, row: int)
    requires cfg.Valid() && Delivered(cfg, l, row) && l' == l.(pc := l'.pc)
    ensures Delivered(cfg, l', row)
  {
  }

  lemma StoppedKeeps(cfg: Config, i: nat, l: Link)
    requires cfg.Valid() && LinkOk(cfg, i, Stopped, l)
    ensures LinkOk(cfg, i, Stopped, SlaveStep(l))
  {
    SlaveOwns(l);
  }

  // ---- Master steps keep the invariant ----------------------------------

  ghost predicate LinksOk(cfg: Config, s: State)
    requires cfg.Valid() && InRange(cfg, s)
  {
    forall i: nat :: i < cfg.slaves ==> LinkFine(cfg, s, i)
  }

  ghost predicate LinkFine(cfg: Config, s: State, i: nat)
    requires cfg.Valid() && InRange(cfg, s) && i < cfg.slaves
  {
    LinkOk(cfg, i, StageOf(s.pc, i), s.links[i])
  }

  ghost predicate Stopping(pc: MasterPc) { pc.MStopCmd? || pc.MStopDma? || pc.MDone? }

  lemma FillKeeps(cfg: Config, i: nat, first: bool, f: nat, l: Link)
    requires cfg.Valid() && f < 5 && LinkOk(cfg, i, Fill(first, f), l) && l.next == cfg.First(i) + l.got
    ensures LinkOk(cfg, i, if f < 4 then Fill(first, f + 1) else Copy(0), FillField(cfg, l, f))
  {
    var l', p := FillField(cfg, l, f), PacketOf(cfg, l.next);
    forall g | 0 <= g <= f ensures l'.mPacket[FieldIndex(g)] == p[FieldIndex(g)] {
      assert g < f ==> FieldIndex(g) != FieldIndex(f);
    }
    if f == 4 {
      assert forall k :: 0 <= k < 5 ==> l'.mPacket[k] == p[k] by {
        assert l'.mPacket[FieldIndex(0)] == p[4] && l'.mPacket[FieldIndex(1)] == p[0];
        assert l'.mPacket[FieldIndex(2)] == p[1] && l'.mPacket[FieldIndex(3)] == p[2];
      }
      assert l'.mPacket == p;
      assert l'.sPacket[..0] == p[..0];
    }
  }

  lemma CopyKeeps(cfg: Config, i: nat, k: nat, l: Link)
    requires cfg.Valid() && k < 5 && LinkOk(cfg, i, Copy(k), l)
    ensures LinkOk(cfg, i, if k < 4 then Copy(k + 1) else Run, Deliver(l, k))
  {
    var p := PacketOf(cfg, l.next);
    CopyWord(l.sPacket, p, k);
    if k == 4 {
      assert Deliver(l, 4).sPacket == p;
      assert Mailed(Deliver(l, 4), p);
    }
  }

  lemma CopyWord(sp: Packet, p: Packet, k: nat)
    requires k < 5 && sp[..k] == p[..k]
    ensures sp[k := p[k]][..k + 1] == p[..k + 1]
    ensures k == 4 ==> sp[k := p[k]] == p
  {
    var sp' := sp[k := p[k]];
    assert sp'[..k + 1] == sp[..k] + [p[k]] && p[..k + 1] == p[..k] + [p[k]];
    assert sp'[..5] == sp' && p[..5] == p;
  }

  lemma PollFinds(cfg: Config, i: nat, l: Link)
    requires cfg.Valid() && LinkOk(cfg, i, Run, l) && l.mRow.cmd != CMD_NULL
    ensures LinkOk(cfg, i, Read, l.(got := l.got + 1))
  {
    RowNatural(cfg, i, l.got);
    RowFound(cfg, l, cfg.First(i) + l.got);
  }

  lemma RowFound(cfg: Config, l: Link, row: nat)
    requires cfg.Valid() && RunOk(cfg, l, row) && l.mRow.cmd != CMD_NULL
    ensures l.got < cfg.share && l.next == row + 1 && Waiting(l) && Delivered(cfg, l, row)
  {
  }

  lemma StopReady(cfg: Config, i: nat, l: Link)
    requires cfg.Valid() && LinkOk(cfg, i, Run, l) && l.got == cfg.share
    ensures LinkOk(cfg, i, StopCopy, l.(mPacket := l.mPacket[4 := CMD_STOP]))
  {
  }

  ghost predicate OwnKept(cfg: Config, s: State)
    requires cfg.Valid() && InRange(cfg, s) && !s.pc.MDone?
  {
    var s' := MasterStep(cfg, s);
    LinkOk(cfg, s.pc.i, StageOf(s'.pc, s.pc.i), s'.links[s.pc.i])
  }

  lemma OwnAtStart(cfg: Config, s: State)
    requires cfg.Valid() && InRange(cfg, s)
    requires s.pc.MClear? || s.pc.MStartCmd? || s.pc.MStartDma? || s.pc.MWaitAck? || s.pc.MClearNull?
    requires LinkOk(cfg, s.pc.i, StageOf(s.pc, s.pc.i), s.links[s.pc.i])
    ensures OwnKept(cfg, s)
  {
  }

  lemma OwnAtFill(cfg: Config, s: State)
    requires cfg.Valid() && InRange(cfg, s) && (s.pc.MFirst? || s.pc.MNext?)
    requires LinkOk(cfg, s.pc.i, StageOf(s.pc, s.pc.i), s.links[s.pc.i])
    ensures OwnKept(cfg, s)
  {
    var i, l, f := s.pc.i, s.links[s.pc.i], s.pc.k;
    if s.pc.MFirst? {
      FillKeeps(cfg, i, true, f, if f == 0 then l.(next := cfg.First(i)) else l);
    } else {
      FillKeeps(cfg, i, false, f, l);
    }
  }

  lemma OwnAtCopy(cfg: Config, s: State)
    requires cfg.Valid() && InRange(cfg, s) && (s.pc.MFirstDma? || s.pc.MNextDma?)
    requires LinkOk(cfg, s.pc.i, StageOf(s.pc, s.pc.i), s.links[s.pc.i])
    ensures OwnKept(cfg, s)
  {
    if s.pc.k < 5 { CopyKeeps(cfg, s.pc.i, s.pc.k, s.links[s.pc.i]); }
  }

  lemma PollHits(cfg: Config, s: State)
    requires cfg.Valid() && InRange(cfg, s) && s.pc.MPoll?
    requires LinkOk(cfg, s.pc.i, Run, s.links[s.pc.i]) && s.links[s.pc.i].mRow.cmd != CMD_NULL
    ensures OwnKept(cfg, s)
  {
    var i, l, s' := s.pc.i, s.links[s.pc.i], MasterStep(cfg, s);
    PollFinds(cfg, i, l);
    assert s'.pc == MReadCmd(i) && s'.links[i] == l.(got := l.got + 1);
  }

  lemma PollMisses(cfg: Config, s: State)
    requires cfg.Valid() && InRange(cfg, s) && s.pc.MPoll?
    requires LinkOk(cfg, s.pc.i, Run, s.links[s.pc.i]) && s.links[s.pc.i].mRow.cmd == CMD_NULL
    ensures OwnKept(cfg, s)
  {
    var i, s' := s.pc.i, MasterStep(cfg, s);
    assert s'.pc == AfterPoll(cfg, i, s.received) && StageOf(s'.pc, i) == Run && s'.links == s.links;
  }

  lemma OwnAtPoll(cfg: Config, s: State)
    requires cfg.Valid() && InRange(cfg, s) && s.pc.MPoll?
    requires LinkOk(cfg, s.pc.i, Run, s.links[s.pc.i])
    ensures OwnKept(cfg, s)
  {
    if s.links[s.pc.i].mRow.cmd != CMD_NULL { PollHits(cfg, s); } else { PollMisses(cfg, s); }
  }

  lemma OwnAtRead(cfg: Config, s: State)
    requires cfg.Valid() && InRange(cfg, s) && (s.pc.MReadCmd? || s.pc.MReadData?)
    requires LinkOk(cfg, s.pc.i, Read, s.links[s.pc.i])
    ensures OwnKept(cfg, s)
  {
  }

  lemma OwnAtClear(cfg: Config, s: State)
    requires cfg.Valid() && InRange(cfg, s) && s.pc.MClearRow?
    requires LinkOk(cfg, s.pc.i, Read, s.links[s.pc.i])
    ensures OwnKept(cfg, s)
  {
    assert StageOf(AfterPoll(cfg, s.pc.i, s.received), s.pc.i) == Run;
  }

  lemma OwnAtStop(cfg: Config, s: State)
    requires cfg.Valid() && InRange(cfg, s) && (s.pc.MStopCmd? || s.pc.MStopDma?)
    requires LinkOk(cfg, s.pc.i, StageOf(s.pc, s.pc.i), s.links[s.pc.i]) && s.links[s.pc.i].got == cfg.share
    ensures OwnKept(cfg, s)
  {
    if s.pc.MStopCmd? { StopReady(cfg, s.pc.i, s.links[s.pc.i]); }
  }

  /** The link the master works on. */
  lemma MasterKeepsOwn(cfg: Config, s: State)
    requires cfg.Valid() && InRange(cfg, s) && !s.pc.MDone?
    requires LinkOk(cfg, s.pc.i, StageOf(s.pc, s.pc.i), s.links[s.pc.i])
    requires Stopping(s.pc) ==> s.links[s.pc.i].got == cfg.share
    ensures OwnKept(cfg, s)
  {
    match s.pc
    case MFirst(_, _) => OwnAtFill(cfg, s);
    case MNext(_, _) => OwnAtFill(cfg, s);
    case MFirstDma(_, _) => OwnAtCopy(cfg, s);
    case MNextDma(_, _) => OwnAtCopy(cfg, s);
    case MPoll(_) => OwnAtPoll(cfg, s);
    case MReadCmd(_) => OwnAtRead(cfg, s);
    case MReadData(_, _) => OwnAtRead(cfg, s);
    case MClearRow(_) => OwnAtClear(cfg, s);
    case MStopCmd(_) => OwnAtStop(cfg, s);
    case MStopDma(_, _) => OwnAtStop(cfg, s);
    case _ => OwnAtStart(cfg, s);
  }

  /** The links it does not work on: a stage changes only from unused to the first packet. */
  lemma OtherStage(cfg: Config, s: State, j: nat)
    requires cfg.Valid() && InRange(cfg, s) && !s.pc.MDone? && j < cfg.slaves && j != s.pc.i
    ensures var s' := MasterStep(cfg, s);
            && s'.links[j] == s.links[j]
            && (StageOf(s'.pc, j) == StageOf(s.pc, j)
                || (StageOf(s.pc, j) == Unused && StageOf(s'.pc, j) == Fill(true, 0)))
  {
  }

  lemma MasterKeepsLinks(cfg: Config, s: State)
    requires cfg.Valid() && InRange(cfg, s) && LinksOk(cfg, s)
    requires Stopping(s.pc) && !s.pc.MDone? ==> s.links[s.pc.i].got == cfg.share
    ensures InRange(cfg, MasterStep(cfg, s)) && LinksOk(cfg, MasterStep(cfg, s))
  {
    if !s.pc.MDone? {
      var s' := MasterStep(cfg, s);
      InRangeKept(cfg, s);
      forall j: nat | j < cfg.slaves ensures LinkFine(cfg, s', j) {
        assert LinkFine(cfg, s, j);
        if j == s.pc.i { MasterKeepsOwn(cfg, s); } else { OtherStage(cfg, s, j); }
      }
    }
  }

  lemma InRangeKept(cfg: Config, s: State)
    requires cfg.Valid() && InRange(cfg, s)
    ensures InRange(cfg, MasterStep(cfg, s))
  {
  }
}
