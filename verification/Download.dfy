/**
  The packet layer of the boot download (c/bootloader/download.c): a byte-wise
  machine that collects size, CRC and payload, proved against a reference that
  cuts the stream into packets first.
 */
module Download {
  import opened Bytes
  import opened Crc
  import opened BootImage

  datatype Machine = Machine(size: nat, count: nat, reg: bv32, recv: nat, loader: Loader)

  /** NULL is address 0; the memory is what the loader has written. */
  datatype Outcome = Running(m: Machine) | Returned(address: nat, loader: Loader)

  function AbsorbData(reg: bv32, b: byte): bv32 { AbsorbByte(reg, b as bv8) }

  function Finish(m: Machine): Outcome {
    var reg := Not(m.reg);
    if reg as nat != m.recv then Returned(0, m.loader)
    else if m.loader.count == m.loader.number then Returned(m.loader.entry, m.loader)
    else Running(m.(size := 0, reg := reg))
  }

  /** One received byte. */
  function Advance(o: Outcome, data: byte): Outcome {
    if o.Returned? then o
    else
      var m := o.m;
      if m.size == 0 then Running(Machine(data, 0, 0xFFFF_FFFF, 0, m.loader))
      else
        var m1 := if m.count < 4 then m.(recv := (m.recv * 256 + data) % U32)
                  else m.(reg := AbsorbData(m.reg, data), loader := Feed(m.loader, data));
        var m2 := m1.(count := m.count + 1);
        if m2.count == m.size + 4 then Finish(m2) else Running(m2)
  }

  function RunAll(o: Outcome, stream: seq<byte>): Outcome { Fold(Advance, o, stream) }

  function Boot(mem: map<nat, nat>): Outcome { Running(Machine(0, 0, 0, 0xFFFF_FFFF, Start(mem))) }

  // ---- Reference: packets -----------------------------------------------

  datatype Frame = Frame(crc: nat, payload: seq<byte>)

  /** Size byte, four CRC bytes, payload; zero bytes between packets are skipped. */
  ghost function Frames(s: seq<byte>): seq<Frame>
    decreases |s|
  {
    if s == [] then []
    else if s[0] == 0 then Frames(s[1..])
    else if |s| - 5 < s[0] then []
    else [Frame(BigEndian(s[1..5]), s[5..][..s[0]])] + Frames(s[5..][s[0]..])
  }

  function PayloadReg(payload: seq<byte>): bv32 { Fold(AbsorbData, 0xFFFF_FFFF, payload) }

  function PayloadCrc(payload: seq<byte>): nat { Not(PayloadReg(payload)) as nat }

  datatype Verdict = Waiting | Result(address: nat, loader: Loader)

  ghost function Judge(l: Loader, fs: seq<Frame>): Verdict
    decreases |fs|
  {
    if fs == [] then Waiting
    else
      var l' := FeedAll(l, fs[0].payload);
      if PayloadCrc(fs[0].payload) != fs[0].crc then Result(0, l')
      else if l'.count == l'.number then Result(l'.entry, l')
      else Judge(l', fs[1..])
  }

  ghost predicate Agrees(o: Outcome, v: Verdict) {
    match v
    case Waiting => o.Running?
    case Result(a, l) => o == Returned(a, l)
  }

  // ---- The machine refines the reference --------------------------------

  lemma {:induction false} ReturnedStays(o: Outcome, s: seq<byte>)
    requires o.Returned?
    ensures RunAll(o, s) == o
  {
    if s != [] { ReturnedStays(o, s[..|s| - 1]); }
  }

  ghost function Collecting(n: nat, crc: seq<byte>, l: Loader): Outcome {
    Running(Machine(n, |crc|, 0xFFFF_FFFF, BigEndian(crc), l))
  }

  lemma FoldOne<S, T>(f: (S, T) -> S, s: S, t: T)
    ensures Fold(f, s, [t]) == f(s, t)
  {
    assert [t][..|[t]| - 1] == [];
    assert Fold(f, s, [t][..|[t]| - 1]) == s;
  }

  lemma {:induction false} CrcBytes(m: Machine, n: byte, crc: seq<byte>)
    requires m.size == 0 && 0 < n && |crc| <= 4
    ensures RunAll(Running(m), [n] + crc) == Collecting(n, crc, m.loader)
    ensures BigEndian(crc) < U32
    decreases |crc|
  {
    CrcFits(crc);
    if crc == [] {
      assert [n] + crc == [n];
      FoldOne(Advance, Running(m), n);
    } else {
      var front := crc[..|crc| - 1];
      CrcBytes(m, n, front);
      assert ([n] + crc)[..|crc|] == [n] + front;
    }
  }

  lemma CrcFits(crc: seq<byte>)
    requires |crc| <= 4
    ensures BigEndian(crc) < U32
  {
    EncodeDecode(crc);
    assert Pow256(4) == 256 * Pow256(3) == 65536 * Pow256(2);
  }

  ghost function Loading(n: nat, crc: nat, payload: seq<byte>, l: Loader): Machine {
    Machine(n, 4 + |payload|, PayloadReg(payload), crc, FeedAll(l, payload))
  }

  lemma {:induction false} PayloadBytes(n: nat, crc: nat, l: Loader, payload: seq<byte>)
    requires |payload| < n
    ensures RunAll(Running(Machine(n, 4, 0xFFFF_FFFF, crc, l)), payload) == Running(Loading(n, crc, payload, l))
    decreases |payload|
  {
    if payload != [] { PayloadBytes(n, crc, l, payload[..|payload| - 1]); }
  }

  lemma WholePayload(n: nat, crc: nat, l: Loader, payload: seq<byte>)
    requires |payload| == n > 0
    ensures RunAll(Running(Machine(n, 4, 0xFFFF_FFFF, crc, l)), payload) == Finish(Loading(n, crc, payload, l))
  {
    PayloadBytes(n, crc, l, payload[..n - 1]);
  }

  /** An incomplete packet leaves the machine running. */
  lemma PartialPacket(m: Machine, s: seq<byte>)
    requires m.size == 0 && s != [] && 0 < s[0] && |s| - 5 < s[0]
    ensures RunAll(Running(m), s).Running?
  {
    var k := if |s| < 5 then |s| else 5;
    CrcBytes(m, s[0], s[1..k]);
    assert s == ([s[0]] + s[1..k]) + s[k..];
    FoldConcat(Advance, Running(m), [s[0]] + s[1..k], s[k..]);
    if k == 5 { PayloadBytes(s[0], BigEndian(s[1..5]), m.loader, s[5..]); }
  }

  lemma SplitRun(o: Outcome, s: seq<byte>, k: nat)
    requires k <= |s|
    ensures RunAll(o, s) == RunAll(RunAll(o, s[..k]), s[k..])
  {
    assert s == s[..k] + s[k..];
    FoldConcat(Advance, o, s[..k], s[k..]);
  }

  lemma PacketAhead(m: Machine, s: seq<byte>, n: byte, f: Frame, rest: seq<byte>)
    requires m.size == 0 && n > 0 && n + 0 <= |s| - 5 && s[0] == n
    requires f == Frame(BigEndian(s[1..5]), s[5..][..n]) && rest == s[5..][n..]
    ensures RunAll(Running(m), s) == RunAll(Finish(Loading(n, f.crc, f.payload, m.loader)), rest)
  {
    SplitRun(Running(m), s, 5);
    SplitRun(RunAll(Running(m), s[..5]), s[5..], n);
    assert s[..5] == [n] + s[1..5];
    CrcBytes(m, n, s[1..5]);
    WholePayload(n, f.crc, m.loader, f.payload);
  }

  lemma PacketJudged(m: Machine, n: nat, f: Frame, fs: seq<Frame>, end: Outcome)
    requires var o := Finish(Loading(n, f.crc, f.payload, m.loader));
             if o.Returned? then end == o else Agrees(end, Judge(o.m.loader, fs))
    ensures Agrees(end, Judge(m.loader, [f] + fs))
  {
    assert ([f] + fs)[1..] == fs;
  }

  /** For every stream, the byte-wise machine ends as the packet-wise reference says. */
  lemma {:induction false} MachineRefinesPackets(m: Machine, s: seq<byte>)
    requires m.size == 0
    ensures Agrees(RunAll(Running(m), s), Judge(m.loader, Frames(s)))
    decreases |s|
  {
    if s == [] {
    } else if s[0] == 0 {
      SplitRun(Running(m), s, 1);
      assert s[..1] == [s[0]];
      FoldOne(Advance, Running(m), s[0]);
      MachineRefinesPackets(Machine(0, 0, 0xFFFF_FFFF, 0, m.loader), s[1..]);
    } else if |s| - 5 < s[0] {
      PartialPacket(m, s);
    } else {
      var n, f, rest := s[0], Frame(BigEndian(s[1..5]), s[5..][..s[0]]), s[5..][s[0]..];
      PacketAhead(m, s, n, f, rest);
      var o := Finish(Loading(n, f.crc, f.payload, m.loader));
      if o.Returned? {
        ReturnedStays(o, rest);
      } else {
        MachineRefinesPackets(o.m, rest);
      }
      PacketJudged(m, n, f, Frames(rest), RunAll(o, rest));
    }
  }

  // ---- Nothing is started on bad data -----------------------------------

  ghost function Payloads(fs: seq<Frame>): seq<byte> {
    if fs == [] then [] else fs[0].payload + Payloads(fs[1..])
  }

  /** The first n packets carry good checksums and together make a complete image. */
  ghost predicate AcceptedAfter(l: Loader, fs: seq<Frame>, n: nat, v: Verdict) {
    && 0 < n <= |fs| && v.Result?
    && (forall i :: 0 <= i < n ==> PayloadCrc(fs[i].payload) == fs[i].crc)
    && v.loader == FeedAll(l, Payloads(fs[..n]))
    && v.loader.count == v.loader.number && v.address == v.loader.entry
  }

  /** A non-null result is the entry point of an image of checked packets only. */
  lemma {:induction false} OnlyChecked(l: Loader, fs: seq<Frame>) returns (n: nat)
    requires Judge(l, fs).Result? && Judge(l, fs).address != 0
    ensures AcceptedAfter(l, fs, n, Judge(l, fs))
    decreases |fs|
  {
    var head, tail := fs[0].payload, fs[1..];
    var l' := FeedAll(l, head);
    if l'.count == l'.number {
      n := 1;
      assert fs[..1] == [fs[0]] && [fs[0]][1..] == [] && head + [] == head;
    } else {
      var k := OnlyChecked(l', tail);
      n := k + 1;
      assert fs[..n][1..] == tail[..k];
      FoldConcat(Feed, l, head, Payloads(tail[..k]));
      assert forall i :: 1 <= i < n ==> fs[i] == tail[i - 1];
    }
  }

  /** For every received stream: an entry point is returned only for an image of checked packets. */
  lemma StartsOnlyChecked(mem: map<nat, nat>, s: seq<byte>) returns (n: nat)
    requires RunAll(Boot(mem), s).Returned? && RunAll(Boot(mem), s).address != 0
    ensures var o := RunAll(Boot(mem), s); AcceptedAfter(Start(mem), Frames(s), n, Result(o.address, o.loader))
  {
    MachineRefinesPackets(Boot(mem).m, s);
    n := OnlyChecked(Start(mem), Frames(s));
  }

  ghost function Octets(p: seq<byte>): (r: seq<bv8>)
    ensures |r| == |p|
  {
    seq(|p|, i requires 0 <= i < |p| => p[i] as bv8)
  }

  lemma {:induction false} RegisterIsAbsorb(p: seq<byte>)
    ensures PayloadReg(p) == AbsorbAll(0xFFFF_FFFF, Octets(p))
  {
    if p != [] {
      RegisterIsAbsorb(p[..|p| - 1]);
      assert Octets(p)[..|p| - 1] == Octets(p[..|p| - 1]);
    }
  }

  /** The checksum of a packet is the CRC-32 of its payload. */
  lemma PayloadCrcIsCrc32(p: seq<byte>)
    ensures PayloadCrc(p) == Crc32(Octets(p), 0) as nat
  {
    RegisterIsAbsorb(p);
    assert Not(0) == 0xFFFF_FFFF;
  }

  // ---- A packetised program is delivered --------------------------------

  type Payload = p: seq<byte> | 0 < |p| < 256 witness [0]

  ghost function Packet(p: Payload): seq<byte> { [|p|] + Encode(PayloadCrc(p), 4) + p }

  ghost function Stream(ps: seq<Payload>): seq<byte> {
    if ps == [] then [] else Packet(ps[0]) + Stream(ps[1..])
  }

  ghost function Joined(ps: seq<Payload>): seq<byte> {
    if ps == [] then [] else ps[0] + Joined(ps[1..])
  }

  ghost function FramesOf(ps: seq<Payload>): seq<Frame> {
    if ps == [] then [] else [Frame(PayloadCrc(ps[0]), ps[0])] + FramesOf(ps[1..])
  }

  lemma FrameOfPacket(p: Payload, rest: seq<byte>)
    ensures Frames(Packet(p) + rest) == [Frame(PayloadCrc(p), p)] + Frames(rest)
  {
    var s := Packet(p) + rest;
    assert Pow256(4) == 256 * Pow256(3) == 65536 * Pow256(2) == U32;
    DecodeEncode(PayloadCrc(p), 4);
    assert s[0] == |p| && s[1..5] == Encode(PayloadCrc(p), 4);
    assert s[5..][..s[0]] == p && s[5..][s[0]..] == rest;
  }

  lemma Associative<T>(a: seq<T>, b: seq<T>, c: seq<T>)
    ensures (a + b) + c == a + (b + c)
  {
  }

  /** Cutting the stream recovers exactly the packets that were sent. */
  lemma {:induction false} FramesOfStream(ps: seq<Payload>, rest: seq<byte>)
    ensures Frames(Stream(ps) + rest) == FramesOf(ps) + Frames(rest)
    decreases |ps|
  {
    if ps == [] {
      assert Stream(ps) + rest == rest;
    } else {
      var p, tail := ps[0], Stream(ps[1..]) + rest;
      Associative(Packet(p), Stream(ps[1..]), rest);
      FrameOfPacket(p, tail);
      FramesOfStream(ps[1..], rest);
      Associative([Frame(PayloadCrc(p), p)], FramesOf(ps[1..]), Frames(rest));
    }
  }

  lemma JudgeGood(l: Loader, p: Payload, fs: seq<Frame>, l': Loader)
    requires l' == FeedAll(l, p)
    ensures Judge(l, [Frame(PayloadCrc(p), p)] + fs)
         == if l'.count == l'.number then Result(l'.entry, l') else Judge(l', fs)
  {
    var f := Frame(PayloadCrc(p), p);
    assert ([f] + fs)[1..] == fs;
  }

  /** Judging the remaining packets of a program of which `sent` has arrived. */
  lemma {:induction false} JudgeProgram(mem: map<nat, nat>, p: Program, sent: seq<byte>, ps: seq<Payload>, more: seq<Frame>)
    requires ValidProgram(p) && ps != [] && sent + Joined(ps) == ProgramBytes(p)
    ensures Judge(FeedAll(Start(mem), sent), FramesOf(ps) + more)
         == Result(p.entry, FeedAll(Start(mem), ProgramBytes(p)))
    decreases |ps|
  {
    var head, tail := ps[0], ps[1..];
    var sent' := sent + head;
    Associative(sent, head, Joined(tail));
    FoldConcat(Feed, Start(mem), sent, head);
    Associative([Frame(PayloadCrc(head), head)], FramesOf(tail), more);
    JudgeGood(FeedAll(Start(mem), sent), head, FramesOf(tail) + more, FeedAll(Start(mem), sent'));
    if tail == [] {
      assert sent' == sent' + Joined(tail);
      ProgramFed(mem, p);
    } else {
      JoinedGrows(tail);
      PrefixUnfinished(mem, p, sent', Joined(tail));
      JudgeProgram(mem, p, sent', tail, more);
    }
  }

  lemma JoinedGrows(ps: seq<Payload>)
    requires ps != []
    ensures Joined(ps) != []
  {
    var p: seq<byte> := ps[0];
    assert |p| > 0;
  }

  lemma PrefixUnfinished(mem: map<nat, nat>, p: Program, a: seq<byte>, b: seq<byte>)
    requires ValidProgram(p) && a + b == ProgramBytes(p) && b != []
    ensures var l := FeedAll(Start(mem), a); l.count != l.number
  {
    assert ProgramBytes(p)[..|a|] == a;
    ProgramUnfinished(mem, p, |a|);
  }

  /** However a program is cut into packets, and whatever follows it on the line, the
      download returns its entry point with its sections in memory. */
  lemma DeliversProgram(mem: map<nat, nat>, p: Program, ps: seq<Payload>, rest: seq<byte>)
    requires ValidProgram(p) && Joined(ps) == ProgramBytes(p)
    ensures RunAll(Boot(mem), Stream(ps) + rest)
         == Returned(p.entry, AfterSections(AfterPrologue(mem, p), p.sections))
  {
    MachineRefinesPackets(Boot(mem).m, Stream(ps) + rest);
    FramesOfStream(ps, rest);
    assert |ProgramBytes(p)| >= 8 && ps != [];
    assert [] + Joined(ps) == ProgramBytes(p);
    JudgeProgram(mem, p, [], ps, Frames(rest));
    ProgramFed(mem, p);
  }

  /** Word w of main memory after the download of a program. */
  lemma DeliversImage(mem: map<nat, nat>, p: Program, ps: seq<Payload>, rest: seq<byte>, w: nat)
    requires ValidProgram(p) && Joined(ps) == ProgramBytes(p)
    ensures var o := RunAll(Boot(mem), Stream(ps) + rest);
            o.Returned? && o.address == p.entry && ImageAt(mem, p.sections, o.loader.mem, w)
  {
    DeliversProgram(mem, p, ps, rest);
    SectionsImage(AfterPrologue(mem, p), p.sections, w);
  }
}
