/**
  The payload of a boot download (c/bootloader/download.c): the byte-wise
  section loader, and the program format it reads.
 */
module BootImage {
  import opened Arith
  import opened Bytes
  import opened Crc

  datatype Phase = Entrypoint | Number | Filesize | Offset | Memsize | Data

  /** The variables of `download` that survive from byte to byte, with main memory as words. */
  datatype Loader = Loader(phase: Phase, entry: nat, number: nat, count: nat,
                           filesize: nat, offset: nat, memsize: nat,
                           done: nat, integer: nat, mem: map<nat, nat>)

  function Start(mem: map<nat, nat>): Loader {
    Loader(Entrypoint, 0, U32 - 1, 0, 0, 0, 0, 0, 0, mem)
  }

  /** Weight of byte k of a big-endian word. */
  function Lane(k: nat): nat
    requires k < 4
  {
    if k == 0 then 0x100_0000 else if k == 1 then 0x1_0000 else if k == 2 then 0x100 else 1
  }

  function WordIndex(addr: nat): nat { addr % U32 / 4 }

  function Latch(l: Loader): Loader {
    var l' := l.(done := 0);
    match l.phase
    case Entrypoint => l'.(entry := l.integer, phase := Number)
    case Number => l'.(number := l.integer, phase := Filesize)
    case Filesize => l'.(filesize := l.integer, phase := Offset)
    case Offset => l'.(offset := l.integer, phase := Memsize)
    case Memsize => l'.(memsize := l.integer, phase := Data)
    case Data => l'
  }

  function ZeroFill(mem: map<nat, nat>, offset: nat, from: nat, memsize: nat): map<nat, nat>
    decreases memsize - from
  {
    if from < memsize then ZeroFill(mem[WordIndex(offset + from) := 0], offset, from + 4, memsize) else mem
  }

  function RoundUp(n: nat): nat { (n + 3) / 4 * 4 }

  function EndSection(l: Loader): Loader {
    l.(mem := ZeroFill(l.mem, l.offset, RoundUp(l.done), l.memsize), done := 0, count := l.count + 1, phase := Filesize)
  }

  /** One payload byte.  The lane it goes to is still zero, so the source's `|=` is an addition. */
  function Feed(l: Loader, b: byte): Loader {
    var integer := l.integer + b * Lane(l.done % 4);
    var l1 := l.(integer := integer, done := l.done + 1);
    var l2 := if l.phase == Data then l1.(mem := l1.mem[WordIndex(l.offset + l.done) := integer])
              else if l1.done == 4 then Latch(l1)
              else l1;
    var l3 := if l2.phase == Data && l2.done == l2.filesize then EndSection(l2) else l2;
    if l3.done % 4 == 0 then l3.(integer := 0) else l3
  }

  function FeedAll(l: Loader, bytes: seq<byte>): Loader { Fold(Feed, l, bytes) }

  // ---- Programs ---------------------------------------------------------

  datatype Section = Section(offset: nat, memsize: nat, data: seq<byte>)

  datatype Program = Program(entry: nat, sections: seq<Section>)

  /** Word-aligned and inside the 32-bit address space. */
  ghost predicate ValidSection(s: Section) {
    && s.offset % 4 == 0
    && s.offset + |s.data| + 4 < U32 && s.offset + s.memsize + 4 < U32
  }

  ghost predicate ValidProgram(p: Program) {
    p.entry < U32 && |p.sections| < U32 - 1 && forall s <- p.sections :: ValidSection(s)
  }

  ghost function SectionBytes(s: Section): seq<byte> {
    Encode(|s.data|, 4) + Encode(s.offset, 4) + Encode(s.memsize, 4) + s.data
  }

  ghost function SectionsBytes(ss: seq<Section>): seq<byte> {
    if ss == [] then [] else SectionBytes(ss[0]) + SectionsBytes(ss[1..])
  }

  ghost function ProgramBytes(p: Program): seq<byte> {
    Encode(p.entry, 4) + Encode(|p.sections|, 4) + SectionsBytes(p.sections)
  }

  /** Byte i of a section, zero beyond its file data. */
  ghost function ByteAt(data: seq<byte>, i: nat): byte { if i < |data| then data[i] else 0 }

  /** Word j of a section: big-endian file data, zero padded. */
  ghost function WordAt(data: seq<byte>, j: nat): nat {
    ByteAt(data, 4 * j) * Lane(0) + ByteAt(data, 4 * j + 1) * Lane(1)
    + ByteAt(data, 4 * j + 2) * Lane(2) + ByteAt(data, 4 * j + 3) * Lane(3)
  }

  ghost function Words(n: nat): nat { (n + 3) / 4 }

  /** Number of words a section covers. */
  ghost function Extent(s: Section): nat {
    if Words(|s.data|) < Words(s.memsize) then Words(s.memsize) else Words(|s.data|)
  }

  ghost predicate Covers(s: Section, w: nat) { s.offset / 4 <= w < s.offset / 4 + Extent(s) }

  /** mem' is mem with the section's words in place. */
  ghost predicate LoadedOver(mem: map<nat, nat>, mem': map<nat, nat>, s: Section) {
    && (forall w :: w in mem' <==> w in mem || Covers(s, w))
    && (forall w :: w in mem' ==> mem'[w] == if Covers(s, w) then WordAt(s.data, w - s.offset / 4) else mem[w])
  }

  // ---- Header words -----------------------------------------------------

  ghost predicate AtWord(l: Loader) { l.done == 0 && l.integer == 0 }

  lemma EncodeWord(v: nat)
    requires v < U32
    ensures var w := Encode(v, 4);
            v == w[0] * Lane(0) + w[1] * Lane(1) + w[2] * Lane(2) + w[3]
  {
    var w := Encode(v, 4);
    var w3, w2, w1 := Encode(v / 256, 3), Encode(v / 256 / 256, 2), Encode(v / 256 / 256 / 256, 1);
    assert w == w3 + [v % 256];
    assert w3 == w2 + [v / 256 % 256];
    assert w2 == w1 + [v / 256 / 256 % 256];
    assert w1 == Encode(v / 256 / 256 / 256 / 256, 0) + [v / 256 / 256 / 256 % 256];
  }

  /** Up to three bytes of a header word change nothing but the word being collected. */
  lemma {:induction false} PartialWord(l: Loader, w: seq<byte>)
    requires AtWord(l) && l.phase != Data && |w| < 4
    ensures FeedAll(l, w) == l.(done := |w|, integer := FeedAll(l, w).integer)
    ensures |w| == 0 ==> FeedAll(l, w).integer == 0
    ensures |w| == 1 ==> FeedAll(l, w).integer == w[0] * Lane(0)
    ensures |w| == 2 ==> FeedAll(l, w).integer == w[0] * Lane(0) + w[1] * Lane(1)
    ensures |w| == 3 ==> FeedAll(l, w).integer == w[0] * Lane(0) + w[1] * Lane(1) + w[2] * Lane(2)
    decreases |w|
  {
    if w != [] {
      PartialWord(l, w[..|w| - 1]);
    }
  }

  ghost function Latched(l: Loader, v: nat): Loader {
    var l' := Latch(l.(integer := v)).(integer := 0);
    if l'.phase == Data && l'.filesize == 0 then EndSection(l') else l'
  }

  lemma FourthByte(l: Loader, i: nat, b: byte)
    requires AtWord(l) && l.phase != Data
    ensures Feed(l.(done := 3, integer := i), b) == Latched(l, i + b)
  {
  }

  /** A whole header word is latched; with an empty file the last one also ends the section. */
  lemma HeaderWord(l: Loader, v: nat)
    requires AtWord(l) && l.phase != Data && v < U32
    ensures FeedAll(l, Encode(v, 4)) == Latched(l, v)
  {
    var w := Encode(v, 4);
    PartialWord(l, w[..3]);
    EncodeWord(v);
    FourthByte(l, FeedAll(l, w[..3]).integer, w[3]);
    assert FeedAll(l, w) == Feed(FeedAll(l, w[..3]), w[3]);
  }

  /** Bits below the lanes filled so far. */
  ghost function FreeBits(done: nat): (n: nat)
    ensures n <= 32
  {
    32 - 8 * (done % 4)
  }

  /** Lanes that are still to be filled are zero, as the source's `|=` needs. */
  ghost predicate LanesClear(l: Loader) { exists q: nat :: Holds(l.integer, q, FreeBits(l.done)) }

  ghost predicate Holds(integer: nat, q: nat, free: nat)
    requires free <= 32
  {
    q < Pow2(32 - free) && integer == q * Pow2(free)
  }

  lemma Powers()
    ensures Pow2(0) == 1 && Pow2(8) == 256 && Pow2(16) == 0x1_0000 && Pow2(24) == 0x100_0000 && Pow2(32) == U32
  {
    assert Pow2(8) == 2 * Pow2(7) == 4 * Pow2(6) == 8 * Pow2(5) == 16 * Pow2(4) == 32 * Pow2(3) == 64 * Pow2(2);
    assert Pow2(16) == 2 * Pow2(15) == 4 * Pow2(14) == 8 * Pow2(13) == 16 * Pow2(12) == 32 * Pow2(11) == 64 * Pow2(10) == 128 * Pow2(9);
    assert Pow2(24) == 2 * Pow2(23) == 4 * Pow2(22) == 8 * Pow2(21) == 16 * Pow2(20) == 32 * Pow2(19) == 64 * Pow2(18) == 128 * Pow2(17);
    assert Pow2(32) == 2 * Pow2(31) == 4 * Pow2(30) == 8 * Pow2(29) == 16 * Pow2(28) == 32 * Pow2(27) == 64 * Pow2(26) == 128 * Pow2(25);
  }

  /** What a byte does to the word being collected. */
  lemma FeedWord(l: Loader, b: byte)
    ensures var l' := Feed(l, b);
            if l'.done % 4 == 0 then l'.integer == 0
            else l'.done == l.done + 1 && l'.integer == l.integer + b * Lane(l.done % 4)
  {
  }

  lemma LaneNext(integer: nat, q: nat, b: byte, done: nat)
    requires Holds(integer, q, FreeBits(done)) && (done + 1) % 4 != 0
    ensures Holds(integer + b * Lane(done % 4), q * 256 + b, FreeBits(done + 1))
  {
    Powers();
    var d := done % 4;
    assert (done + 1) % 4 == d + 1;
    LaneSplit(q, b, if d == 0 then 0x100_0000 else if d == 1 then 0x1_0000 else 0x100);
  }

  lemma LaneSplit(q: nat, b: nat, w: nat)
    ensures q * (256 * w) + b * w == (q * 256 + b) * w
  {
  }

  lemma LanesStep(l: Loader, b: byte, l': Loader)
    requires LanesClear(l) && l'.done == l.done + 1 && l'.done % 4 != 0 && l'.integer == l.integer + b * Lane(l.done % 4)
    ensures LanesClear(l')
  {
    var q: nat :| Holds(l.integer, q, FreeBits(l.done));
    LaneNext(l.integer, q, b, l.done);
  }

  lemma FeedClearsLanes(l: Loader, b: byte)
    requires LanesClear(l)
    ensures LanesClear(Feed(l, b))
  {
    var l' := Feed(l, b);
    FeedWord(l, b);
    if l'.done % 4 == 0 {
      NoLanes(l');
    } else {
      LanesStep(l, b, l');
    }
  }

  lemma NoLanes(l: Loader)
    requires l.done % 4 == 0 && l.integer == 0
    ensures LanesClear(l)
  {
    assert 0 < Pow2(0) && Holds(l.integer, 0, FreeBits(l.done));
  }

  lemma OrAtLane(l: Loader, b: byte)
    requires LanesClear(l)
    ensures Or(l.integer, b * Lane(l.done % 4)) == l.integer + b * Lane(l.done % 4)
  {
    Powers();
    var q: nat :| Holds(l.integer, q, FreeBits(l.done));
    OrAdds(q, b * Lane(l.done % 4), FreeBits(l.done));
  }

  /** In every state the bytes of a download can lead to, the bitwise or of the source is the addition of the model. */
  lemma {:induction false} OrIsAddition(mem: map<nat, nat>, bytes: seq<byte>, b: byte)
    ensures var l := FeedAll(Start(mem), bytes);
            LanesClear(l) && Or(l.integer, b * Lane(l.done % 4)) == l.integer + b * Lane(l.done % 4)
    decreases |bytes|
  {
    if bytes == [] {
      NoLanes(Start(mem));
    } else {
      OrIsAddition(mem, bytes[..|bytes| - 1], bytes[|bytes| - 1]);
      FeedClearsLanes(FeedAll(Start(mem), bytes[..|bytes| - 1]), bytes[|bytes| - 1]);
    }
    OrAtLane(FeedAll(Start(mem), bytes), b);
  }

  // ---- Section data -----------------------------------------------------

  /** The word being collected after k bytes of file data. */
  ghost function Collected(data: seq<byte>, k: nat): nat
    requires k <= |data|
  {
    if k % 4 == 0 then 0 else WordAt(data[..k], k / 4)
  }

  lemma CollectNext(data: seq<byte>, k: nat)
    requires k < |data|
    ensures Collected(data, k) + data[k] * Lane(k % 4) == WordAt(data[..k + 1], k / 4)
  {
    var p, p', j := data[..k], data[..k + 1], k / 4;
    assert forall i: nat :: i != k ==> ByteAt(p', i) == ByteAt(p, i);
    assert ByteAt(p', k) == data[k] && ByteAt(p, k) == 0;
    assert k == 4 * j + k % 4;
    assert ByteAt(p, k + 1) == 0 && ByteAt(p, k + 2) == 0 && ByteAt(p, k + 3) == 0;
  }

  /** Memory after the bytes of `data` have been stored one by one from word `base` on. */
  ghost function Stored(mem: map<nat, nat>, base: nat, data: seq<byte>): map<nat, nat> {
    if data == [] then mem
    else
      var j := (|data| - 1) / 4;
      Stored(mem, base, data[..|data| - 1])[base + j := WordAt(data, j)]
  }

  ghost predicate AtData(l: Loader) {
    l.phase == Data && AtWord(l) && l.offset % 4 == 0 && l.offset + l.filesize + 4 < U32
  }

  lemma FeedNext(l: Loader, data: seq<byte>, k: nat)
    requires k < |data|
    ensures FeedAll(l, data[..k + 1]) == Feed(FeedAll(l, data[..k]), data[k])
  {
    var p := data[..k + 1];
    assert p[..k] == data[..k];
  }

  /** Part of the file data: the words so far are stored, the last one zero padded. */
  lemma {:induction false} DataPrefix(l: Loader, data: seq<byte>, k: nat)
    requires AtData(l) && l.filesize == |data| && k < |data|
    ensures FeedAll(l, data[..k])
            == l.(done := k, integer := Collected(data, k), mem := Stored(l.mem, l.offset / 4, data[..k]))
    decreases k
  {
    if k > 0 {
      FeedNext(l, data, k - 1);
      DataPrefix(l, data, k - 1);
      DataByte(l, data, k - 1);
    }
  }

  lemma FeedInData(m: Loader, b: byte, value: nat, w: nat)
    requires m.phase == Data && value == m.integer + b * Lane(m.done % 4) && w == WordIndex(m.offset + m.done)
    ensures var m' := m.(done := m.done + 1, mem := m.mem[w := value]);
            Feed(m, b) == if m'.done == m.filesize then EndSection(m').(integer := 0)
                          else m'.(integer := if m'.done % 4 == 0 then 0 else value)
  {
  }

  lemma DataByte(l: Loader, data: seq<byte>, k: nat)
    requires AtData(l) && l.filesize == |data| && k < |data|
    ensures var m := l.(done := k, integer := Collected(data, k), mem := Stored(l.mem, l.offset / 4, data[..k]));
            var mem' := Stored(l.mem, l.offset / 4, data[..k + 1]);
            Feed(m, data[k]) == if k + 1 < |data|
                                then l.(done := k + 1, integer := Collected(data, k + 1), mem := mem')
                                else EndSection(l.(done := |data|, mem := mem'))
  {
    var value, w := WordAt(data[..k + 1], k / 4), l.offset / 4 + k / 4;
    CollectNext(data, k);
    CollectedAfter(data, k);
    DataAddress(l.offset, k);
    StoredNext(l.mem, l.offset / 4, data, k);
    DataByteAt(l, data[k], k, Collected(data, k), value, Stored(l.mem, l.offset / 4, data[..k]), w);
  }

  lemma CollectedAfter(data: seq<byte>, k: nat)
    requires k < |data|
    ensures Collected(data, k + 1) == if (k + 1) % 4 == 0 then 0 else WordAt(data[..k + 1], k / 4)
  {
  }

  lemma DataByteAt(l: Loader, b: byte, k: nat, before: nat, value: nat, mem: map<nat, nat>, w: nat)
    requires AtData(l) && k < l.filesize && value == before + b * Lane(k % 4) && w == WordIndex(l.offset + k)
    ensures Feed(l.(done := k, integer := before, mem := mem), b)
         == if k + 1 < l.filesize
            then l.(done := k + 1, integer := if (k + 1) % 4 == 0 then 0 else value, mem := mem[w := value])
            else EndSection(l.(done := l.filesize, mem := mem[w := value]))
  {
    FeedInData(l.(done := k, integer := before, mem := mem), b, value, w);
  }

  lemma StoredNext(mem: map<nat, nat>, base: nat, data: seq<byte>, k: nat)
    requires k < |data|
    ensures Stored(mem, base, data[..k + 1])
         == Stored(mem, base, data[..k])[base + k / 4 := WordAt(data[..k + 1], k / 4)]
  {
    assert data[..k + 1][..k] == data[..k];
  }

  lemma DataAddress(offset: nat, k: nat)
    requires offset % 4 == 0 && offset + k < U32
    ensures WordIndex(offset + k) == offset / 4 + k / 4
    ensures (k + 1) % 4 != 0 ==> (k + 1) / 4 == k / 4
  {
  }

  /** The whole file data followed by the zero fill. */
  lemma DataWhole(l: Loader, data: seq<byte>)
    requires AtData(l) && l.filesize == |data| && data != []
    ensures FeedAll(l, data) == EndSection(l.(done := |data|, mem := Stored(l.mem, l.offset / 4, data)))
  {
    var k := |data| - 1;
    DataPrefix(l, data, k);
    DataByte(l, data, k);
    assert data[..k + 1] == data;
  }

  lemma WordStable(data: seq<byte>, j: nat)
    requires data != [] && 4 * j + 4 <= |data| - 1
    ensures WordAt(data[..|data| - 1], j) == WordAt(data, j)
  {
  }

  lemma {:induction false} StoredAt(mem: map<nat, nat>, base: nat, data: seq<byte>, w: nat)
    ensures w in Stored(mem, base, data) <==> w in mem || base <= w < base + Words(|data|)
    ensures w in Stored(mem, base, data) ==>
              Stored(mem, base, data)[w] == if base <= w < base + Words(|data|) then WordAt(data, w - base) else mem[w]
    decreases |data|
  {
    if data != [] {
      var front, j := data[..|data| - 1], (|data| - 1) / 4;
      StoredAt(mem, base, front, w);
      if base <= w < base + j { WordStable(data, w - base); }
    }
  }

  lemma {:induction false} ZeroFillAt(mem: map<nat, nat>, offset: nat, from: nat, memsize: nat, w: nat)
    requires offset % 4 == 0 && from % 4 == 0 && offset + memsize + 4 < U32
    ensures var r := ZeroFill(mem, offset, from, memsize);
            var filled := offset / 4 + from / 4 <= w < offset / 4 + Words(memsize);
            && (w in r <==> w in mem || filled)
            && (w in r ==> r[w] == if filled then 0 else mem[w])
    decreases memsize - from
  {
    if from < memsize {
      DataAddress(offset, from);
      ZeroFillAt(mem[WordIndex(offset + from) := 0], offset, from + 4, memsize, w);
    }
  }

  ghost function Filled(mem: map<nat, nat>, s: Section): map<nat, nat> {
    ZeroFill(Stored(mem, s.offset / 4, s.data), s.offset, RoundUp(|s.data|), s.memsize)
  }

  lemma FilledIsLoaded(mem: map<nat, nat>, s: Section)
    requires ValidSection(s)
    ensures LoadedOver(mem, Filled(mem, s), s)
  {
    forall w: nat
      ensures w in Filled(mem, s) <==> w in mem || Covers(s, w)
      ensures w in Filled(mem, s) ==>
                Filled(mem, s)[w] == if Covers(s, w) then WordAt(s.data, w - s.offset / 4) else mem[w]
    {
      StoredAt(mem, s.offset / 4, s.data, w);
      ZeroFillAt(Stored(mem, s.offset / 4, s.data), s.offset, RoundUp(|s.data|), s.memsize, w);
      if s.offset / 4 + Words(|s.data|) <= w { BeyondData(s.data, w - s.offset / 4); }
    }
  }

  lemma BeyondData(data: seq<byte>, j: nat)
    requires Words(|data|) <= j
    ensures WordAt(data, j) == 0
  {
  }

  // ---- Whole sections and programs --------------------------------------

  ghost predicate AtBoundary(l: Loader) { l.phase == Filesize && AtWord(l) }

  ghost function AfterHeader(l: Loader, s: Section): Loader {
    l.(phase := Data, filesize := |s.data|, offset := s.offset, memsize := s.memsize)
  }

  ghost function AfterSection(l: Loader, s: Section): Loader {
    AfterHeader(l, s).(phase := Filesize, count := l.count + 1, mem := Filled(l.mem, s))
  }

  ghost function Header(s: Section): seq<byte> { Encode(|s.data|, 4) + Encode(s.offset, 4) + Encode(s.memsize, 4) }

  lemma HeaderFed(l: Loader, s: Section)
    requires AtBoundary(l) && ValidSection(s)
    ensures FeedAll(l, Header(s)) == if s.data == [] then AfterSection(l, s) else AfterHeader(l, s)
  {
    var a, b, c := Encode(|s.data|, 4), Encode(s.offset, 4), Encode(s.memsize, 4);
    HeaderWord(l, |s.data|);
    var l1 := l.(phase := Offset, filesize := |s.data|);
    HeaderWord(l1, s.offset);
    var l2 := l1.(phase := Memsize, offset := s.offset);
    HeaderWord(l2, s.memsize);
    FoldConcat(Feed, l, a + b, c);
    FoldConcat(Feed, l, a, b);
  }

  /** A section of the stream becomes exactly its words in memory. */
  lemma SectionFed(l: Loader, s: Section)
    requires AtBoundary(l) && ValidSection(s)
    ensures FeedAll(l, SectionBytes(s)) == AfterSection(l, s)
  {
    HeaderFed(l, s);
    FoldConcat(Feed, l, Header(s), s.data);
    if s.data == [] {
      assert SectionBytes(s) == Header(s);
    } else {
      DataWhole(AfterHeader(l, s), s.data);
    }
  }

  ghost function AfterSections(l: Loader, ss: seq<Section>): Loader
    decreases |ss|
  {
    if ss == [] then l else AfterSections(AfterSection(l, ss[0]), ss[1..])
  }

  lemma {:induction false} SectionsFed(l: Loader, ss: seq<Section>)
    requires AtBoundary(l) && forall s <- ss :: ValidSection(s)
    ensures FeedAll(l, SectionsBytes(ss)) == AfterSections(l, ss)
    ensures AfterSections(l, ss).count == l.count + |ss|
    ensures AfterSections(l, ss).number == l.number && AfterSections(l, ss).entry == l.entry
    decreases |ss|
  {
    if ss != [] {
      SectionFed(l, ss[0]);
      FoldConcat(Feed, l, SectionBytes(ss[0]), SectionsBytes(ss[1..]));
      SectionsFed(AfterSection(l, ss[0]), ss[1..]);
    }
  }

  /** State after entry point and section count. */
  ghost function AfterPrologue(mem: map<nat, nat>, p: Program): Loader {
    Start(mem).(phase := Filesize, entry := p.entry, number := |p.sections|)
  }

  lemma PrologueFed(mem: map<nat, nat>, p: Program)
    requires ValidProgram(p)
    ensures FeedAll(Start(mem), Encode(p.entry, 4) + Encode(|p.sections|, 4)) == AfterPrologue(mem, p)
  {
    HeaderWord(Start(mem), p.entry);
    HeaderWord(Start(mem).(phase := Number, entry := p.entry), |p.sections|);
    FoldConcat(Feed, Start(mem), Encode(p.entry, 4), Encode(|p.sections|, 4));
  }

  /** The loader reads back exactly the program that was serialised. */
  lemma ProgramFed(mem: map<nat, nat>, p: Program)
    requires ValidProgram(p)
    ensures FeedAll(Start(mem), ProgramBytes(p)) == AfterSections(AfterPrologue(mem, p), p.sections)
    ensures var l := FeedAll(Start(mem), ProgramBytes(p)); l.entry == p.entry && l.count == l.number
  {
    PrologueFed(mem, p);
    FoldConcat(Feed, Start(mem), Encode(p.entry, 4) + Encode(|p.sections|, 4), SectionsBytes(p.sections));
    SectionsFed(AfterPrologue(mem, p), p.sections);
  }

  // ---- The loader is not complete before the last byte ------------------

  ghost predicate SameCount(l: Loader, l': Loader) { l'.count == l.count && l'.number == l.number }

  lemma HeaderPrefix(l: Loader, s: Section, k: nat)
    requires AtBoundary(l) && ValidSection(s) && k < 12
    ensures SameCount(l, FeedAll(l, Header(s)[..k]))
  {
    var a, b := Encode(|s.data|, 4), Encode(s.offset, 4);
    HeaderWord(l, |s.data|);
    if k < 4 {
      assert Header(s)[..k] == a[..k];
      PartialWord(l, a[..k]);
    } else if k < 8 {
      assert Header(s)[..k] == a + b[..k - 4];
      FoldConcat(Feed, l, a, b[..k - 4]);
      PartialWord(l.(phase := Offset, filesize := |s.data|), b[..k - 4]);
    } else {
      ThirdWordPrefix(l, s, k - 8);
    }
  }

  lemma TwoWords(l: Loader, s: Section)
    requires AtBoundary(l) && ValidSection(s)
    ensures FeedAll(l, Encode(|s.data|, 4) + Encode(s.offset, 4))
         == l.(phase := Memsize, filesize := |s.data|, offset := s.offset)
  {
    HeaderWord(l, |s.data|);
    HeaderWord(l.(phase := Offset, filesize := |s.data|), s.offset);
    FoldConcat(Feed, l, Encode(|s.data|, 4), Encode(s.offset, 4));
  }

  lemma ThirdWordPrefix(l: Loader, s: Section, k: nat)
    requires AtBoundary(l) && ValidSection(s) && k < 4
    ensures SameCount(l, FeedAll(l, Header(s)[..8 + k]))
  {
    var ab, c := Encode(|s.data|, 4) + Encode(s.offset, 4), Encode(s.memsize, 4);
    TwoWords(l, s);
    assert Header(s)[..8 + k] == ab + c[..k];
    FoldConcat(Feed, l, ab, c[..k]);
    PartialWord(l.(phase := Memsize, filesize := |s.data|, offset := s.offset), c[..k]);
  }

  lemma PrefixOf(a: seq<byte>, b: seq<byte>, k: nat)
    requires k <= |a + b|
    ensures (a + b)[..k] == if k < |a| then a[..k] else a + b[..k - |a|]
  {
  }

  lemma HeaderAndPrefix(l: Loader, s: Section, k: nat)
    requires AtBoundary(l) && ValidSection(s) && k < |s.data|
    ensures SameCount(l, FeedAll(l, Header(s) + s.data[..k]))
  {
    HeaderFed(l, s);
    FoldConcat(Feed, l, Header(s), s.data[..k]);
    DataPrefix(AfterHeader(l, s), s.data, k);
  }

  lemma SectionPrefix(l: Loader, s: Section, k: nat)
    requires AtBoundary(l) && ValidSection(s) && k < |SectionBytes(s)|
    ensures SameCount(l, FeedAll(l, SectionBytes(s)[..k]))
  {
    PrefixOf(Header(s), s.data, k);
    if k < 12 {
      HeaderPrefix(l, s, k);
    } else {
      HeaderAndPrefix(l, s, k - 12);
    }
  }

  lemma {:induction false} SectionsPrefix(l: Loader, ss: seq<Section>, k: nat)
    requires AtBoundary(l) && (forall s <- ss :: ValidSection(s)) && k < |SectionsBytes(ss)|
    ensures var l' := FeedAll(l, SectionsBytes(ss)[..k]); l'.number == l.number && l'.count < l.count + |ss|
    decreases |ss|
  {
    var a, b := SectionBytes(ss[0]), SectionsBytes(ss[1..]);
    if k < |a| {
      assert (a + b)[..k] == a[..k];
      SectionPrefix(l, ss[0], k);
    } else {
      assert (a + b)[..k] == a + b[..k - |a|];
      SectionFed(l, ss[0]);
      FoldConcat(Feed, l, a, b[..k - |a|]);
      SectionsPrefix(AfterSection(l, ss[0]), ss[1..], k - |a|);
    }
  }

  lemma PrologueUnfinished(mem: map<nat, nat>, p: Program, k: nat)
    requires ValidProgram(p) && k < 8
    ensures var l := FeedAll(Start(mem), (Encode(p.entry, 4) + Encode(|p.sections|, 4))[..k]); l.count != l.number
  {
    var a, b := Encode(p.entry, 4), Encode(|p.sections|, 4);
    HeaderWord(Start(mem), p.entry);
    if k < 4 {
      assert (a + b)[..k] == a[..k];
      PartialWord(Start(mem), a[..k]);
    } else {
      assert (a + b)[..k] == a + b[..k - 4];
      FoldConcat(Feed, Start(mem), a, b[..k - 4]);
      PartialWord(Start(mem).(phase := Number, entry := p.entry), b[..k - 4]);
    }
  }

  /** No proper prefix of a program looks complete. */
  lemma ProgramUnfinished(mem: map<nat, nat>, p: Program, k: nat)
    requires ValidProgram(p) && k < |ProgramBytes(p)|
    ensures var l := FeedAll(Start(mem), ProgramBytes(p)[..k]); l.count != l.number
  {
    var h, b := Encode(p.entry, 4) + Encode(|p.sections|, 4), SectionsBytes(p.sections);
    if k < 8 {
      assert (h + b)[..k] == h[..k];
      PrologueUnfinished(mem, p, k);
    } else {
      assert (h + b)[..k] == h + b[..k - 8];
      SectionsUnfinished(mem, p, h, b[..k - 8]);
    }
  }

  lemma SectionsUnfinished(mem: map<nat, nat>, p: Program, h: seq<byte>, part: seq<byte>)
    requires ValidProgram(p) && h == Encode(p.entry, 4) + Encode(|p.sections|, 4)
    requires |part| < |SectionsBytes(p.sections)| && part == SectionsBytes(p.sections)[..|part|]
    ensures var l := FeedAll(Start(mem), h + part); l.count != l.number
  {
    PrologueFed(mem, p);
    FoldConcat(Feed, Start(mem), h, part);
    SectionsPrefix(AfterPrologue(mem, p), p.sections, |part|);
  }

  // ---- The memory image -------------------------------------------------

  ghost predicate Disjoint(ss: seq<Section>) {
    forall i, j, w :: 0 <= i < j < |ss| && Covers(ss[i], w) ==> !Covers(ss[j], w)
  }

  ghost predicate Covered(ss: seq<Section>, w: nat) { exists s <- ss :: Covers(s, w) }

  /** What word w holds once the sections are in memory: disjoint sections find their words, words
      outside every section are as before. */
  ghost predicate ImageAt(mem: map<nat, nat>, ss: seq<Section>, mem': map<nat, nat>, w: nat) {
    && (!Covered(ss, w) ==> (w in mem' <==> w in mem) && (w in mem' ==> mem'[w] == mem[w]))
    && (Disjoint(ss) ==> forall i :: 0 <= i < |ss| && Covers(ss[i], w) ==>
          w in mem' && mem'[w] == WordAt(ss[i].data, w - ss[i].offset / 4))
  }

  lemma {:induction false} SectionsImage(l: Loader, ss: seq<Section>, w: nat)
    requires forall s <- ss :: ValidSection(s)
    ensures ImageAt(l.mem, ss, AfterSections(l, ss).mem, w)
    decreases |ss|
  {
    if ss != [] {
      FilledIsLoaded(l.mem, ss[0]);
      SectionsImage(AfterSection(l, ss[0]), ss[1..], w);
      ImageStep(l.mem, AfterSection(l, ss[0]).mem, AfterSections(l, ss).mem, ss, w);
    }
  }

  /** Loading the first section, then the others, is loading them all. */
  lemma ImageStep(mem: map<nat, nat>, mid: map<nat, nat>, mem': map<nat, nat>, ss: seq<Section>, w: nat)
    requires ss != [] && LoadedOver(mem, mid, ss[0]) && ImageAt(mid, ss[1..], mem', w)
    ensures ImageAt(mem, ss, mem', w)
  {
    if Disjoint(ss) { TailDisjoint(ss, w); }
    assert !Covered(ss, w) ==> !Covers(ss[0], w) && !Covered(ss[1..], w);
  }

  lemma TailDisjoint(ss: seq<Section>, w: nat)
    requires ss != [] && Disjoint(ss)
    ensures Disjoint(ss[1..])
    ensures Covers(ss[0], w) ==> !Covered(ss[1..], w)
  {
    forall i, j, v | 0 <= i < j < |ss[1..]| && Covers(ss[1..][i], v) ensures !Covers(ss[1..][j], v) {
      assert Covers(ss[i + 1], v);
      assert !Covers(ss[j + 1], v);
    }
  }
}
