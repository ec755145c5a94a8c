/**
  Reading frames out of the buffer: packet classification (c/ethlib/mac.c), the
  field getters (c/ethlib/udp.c) and the two checksum routines with their
  verifiers (c/ethlib/ipv4.c, c/ethlib/udp.c).
 */
module EthFrames {
  import opened Arith
  import opened Bytes
  import opened EthBuffer
  import opened Checksum

  type Mac = s: seq<byte> | |s| == 6 witness [0, 0, 0, 0, 0, 0]
  type Ip = s: seq<byte> | |s| == 4 witness [0, 0, 0, 0]

  datatype Protocol = ICMP | UDP | TCP | ARP | LLDP | PTP | TTE_PCF | UNSUPPORTED

  /** The protocol of a frame by EtherType and IPv4 protocol number. */
  function Classify(p: seq<byte>): Protocol
    requires |p| >= 24
  {
    if Half(p, 12) == 0x0800 then
      if p[23] == 0x01 then ICMP else if p[23] == 0x11 then UDP else if p[23] == 0x06 then TCP else UNSUPPORTED
    else if Half(p, 12) == 0x0806 then ARP
    else if Half(p, 12) == 0x880C then LLDP
    else if Half(p, 12) == 0x88F7 then PTP
    else if Half(p, 12) == 0x891D then TTE_PCF
    else UNSUPPORTED
  }

  ghost predicate Frame(buf: Buffer, pkt: nat, n: nat)
    reads buf, buf.words
  {
    buf.Valid() && pkt % 4 == 0 && pkt + n <= |buf.bytes|
  }

  /** mac_packet_type */
  method MacPacketType(buf: Buffer, pkt: nat) returns (t: Protocol)
    requires Frame(buf, pkt, 24)
    ensures t == Classify(buf.bytes[pkt..])
  {
    var b := buf.IordByte(pkt + 13);
    var a := buf.IordByte(pkt + 12);
    if a == 0x08 {
      if b == 0x00 {
        b := buf.IordByte(pkt + 23);
        return if b == 0x01 then ICMP else if b == 0x11 then UDP else if b == 0x06 then TCP else UNSUPPORTED;
      } else if b == 0x06 {
        return ARP;
      } else {
        return UNSUPPORTED;
      }
    } else if a == 0x88 {
      if b == 0x0C { return LLDP; } else if b == 0xF7 { return PTP; }
    } else if a == 0x89 {
      if b == 0x1D { return TTE_PCF; }
    }
    return UNSUPPORTED;
  }

  /** mem_iowr of four bytes shifted into place. */
  method WriteQuad(buf: Buffer, addr: nat, a: byte, b: byte, c: byte, d: byte)
    requires buf.Valid() && addr % 4 == 0 && addr + 4 <= |buf.bytes|
    modifies buf, buf.words
    ensures buf.Valid() && buf.bytes == Splice(old(buf.bytes), addr, [a, b, c, d])
  {
    SplitQuad(a, b, c, d);
    assert addr / 4 * 4 == addr;
    buf.Iowr(addr, Quad(a, b, c, d));
  }

  // ---- UDP fields -------------------------------------------------------

  function SourcePort(p: seq<byte>): nat
    requires |p| >= 44
  {
    Word(p, 32) % 0x1_0000
  }

  function DestinationPort(p: seq<byte>): nat
    requires |p| >= 44
  {
    Word(p, 36) / 0x1_0000
  }

  function UdpLength(p: seq<byte>): nat
    requires |p| >= 44
  {
    Word(p, 36) % 0x1_0000
  }

  /** The word getters read the half-words of the standard layout. */
  lemma UdpFields(p: seq<byte>)
    requires |p| >= 44
    ensures SourcePort(p) == Half(p, 34) && DestinationPort(p) == Half(p, 36) && UdpLength(p) == Half(p, 38)
  {
    DivideBy(Word(p, 32), Half(p, 32), Half(p, 34), 0x1_0000);
    DivideBy(Word(p, 36), Half(p, 36), Half(p, 38), 0x1_0000);
  }

  /** udp_get_data */
  method UdpGetData(buf: Buffer, pkt: nat, data: array<nat>, length: nat)
    requires buf.Valid() && pkt + 42 + length <= |buf.bytes| && length <= data.Length && data != buf.words
    modifies data
    ensures buf.Valid()
    ensures data[..length] == buf.bytes[pkt + 42..pkt + 42 + length] && data[length..] == old(data[length..])
  {
    ghost var b := buf.bytes;
    for i := 0 to length
      invariant buf.Valid() && buf.bytes == b
      invariant data[..i] == b[pkt + 42..pkt + 42 + i] && data[length..] == old(data[length..])
    {
      var v := buf.IordByte(pkt + 42 + i);
      data[i] := v;
    }
  }

  // ---- Checksums --------------------------------------------------------

  ghost function IpSum(b: seq<byte>, pkt: nat): nat
    requires pkt + 34 <= |b|
  {
    Sum(b, pkt + 14, 10)
  }

  /** The number of half-words summed; the rounded length is kept in sixteen bits. */
  function Halves(length: nat): nat { if length == 0xFFFF then 0 else (length + 1) / 2 }

  ghost predicate HoldsPayload(b: seq<byte>, pkt: nat) {
    pkt + 44 <= |b| && pkt + 34 + Half(b, pkt + 38) + Half(b, pkt + 38) % 2 <= |b|
  }

  /** The byte after an odd payload is overwritten with zero. */
  ghost function Padded(b: seq<byte>, pkt: nat): (r: seq<byte>)
    requires HoldsPayload(b, pkt)
    ensures |r| == |b|
  {
    var n := Half(b, pkt + 38);
    if n % 2 == 0 then b else b[pkt + 34 + n := 0]
  }

  /** Pseudo header, UDP header and padded data. */
  ghost function UdpSum(b: seq<byte>, pkt: nat): nat
    requires HoldsPayload(b, pkt)
  {
    var n, q := Half(b, pkt + 38), Padded(b, pkt);
    Sum(q, pkt + 34, Halves(n)) + Sum(q, pkt + 26, 4) + 0x11 + n
  }

  /** The summing loop of every checksum routine. */
  method SumHalves(buf: Buffer, from: nat, n: nat) returns (sum: nat)
    requires buf.Valid() && from + 2 * n <= |buf.bytes|
    ensures sum == Sum(buf.bytes, from, n)
  {
    sum := 0;
    for i := 0 to n
      invariant sum == Sum(buf.bytes, from, i)
    {
      var hi := buf.IordByte(from + 2 * i);
      var lo := buf.IordByte(from + 2 * i + 1);
      sum := sum + Pair(hi, lo);
    }
  }

  method Fold(sum: nat) returns (c: nat)
    requires sum < U32
    ensures c == Complement(sum)
  {
    FoldCongruent(sum);
    c := FoldOnce(sum);
    c := FoldOnce(c);
    c := FoldOnce(c);
    c := 0xFFFF - c;
  }

  /** ipv4_compute_checksum */
  method Ipv4ComputeChecksum(buf: Buffer, pkt: nat) returns (c: nat)
    requires Frame(buf, pkt, 34)
    ensures var s := WithoutField(IpSum(buf.bytes, pkt), buf.bytes[pkt + 24], buf.bytes[pkt + 25]);
            s >= 0 && c == Complement(s)
  {
    SumField(buf.bytes, pkt + 14, 10, 5);
    SumBound(buf.bytes, pkt + 14, 10);
    var sum := SumHalves(buf, pkt + 14, 10);
    var hi := buf.IordByte(pkt + 24);
    var lo := buf.IordByte(pkt + 25);
    c := Fold(WithoutField(sum, hi, lo));
  }

  /** The header checksum does not depend on the stored one exactly when the low byte stored is zero. */
  lemma IpFieldIgnoredIff(b: seq<byte>, pkt: nat)
    requires pkt + 34 <= |b|
    ensures var s := WithoutField(IpSum(b, pkt), b[pkt + 24], b[pkt + 25]);
            && s >= 0
            && (Complement(s) == Complement(IpSum(b[pkt + 24 := 0][pkt + 25 := 0], pkt)) <==> b[pkt + 25] == 0)
  {
    var c := b[pkt + 24 := 0][pkt + 25 := 0];
    var rest := Sum(b, pkt + 14, 5) + Sum(b, pkt + 26, 4);
    SumField(b, pkt + 14, 10, 5);
    SumField(c, pkt + 14, 10, 5);
    SumSame(c, pkt + 14, b, pkt + 14, 5);
    SumSame(c, pkt + 26, b, pkt + 26, 4);
    SumBound(b, pkt + 14, 10);
    IgnoresFieldIff(rest, b[pkt + 24], b[pkt + 25]);
  }

  /** ipv4_verify_checksum */
  method Ipv4VerifyChecksum(buf: Buffer, pkt: nat) returns (ok: bool)
    requires Frame(buf, pkt, 34)
    ensures ok <==> Good(IpSum(buf.bytes, pkt))
  {
    SumBound(buf.bytes, pkt + 14, 10);
    var sum := SumHalves(buf, pkt + 14, 10);
    VerifyMeansGood(sum);
    var c := Fold(sum);
    return c == 0;
  }

  lemma FourHalves(b: seq<byte>, from: nat)
    requires from + 8 <= |b|
    ensures Sum(b, from, 4) == Half(b, from) + Half(b, from + 2) + Half(b, from + 4) + Half(b, from + 6)
  {
    assert Sum(b, from, 0) == 0;
    assert Sum(b, from, 1) == Half(b, from);
    assert Sum(b, from, 2) == Half(b, from) + Half(b, from + 2);
    assert Sum(b, from, 3) == Half(b, from) + Half(b, from + 2) + Half(b, from + 4);
  }

  /** The address loop of the UDP routines: both IP addresses, two half-words a round. */
  method SumAddresses(buf: Buffer, pkt: nat) returns (sum: nat)
    requires Frame(buf, pkt, 34)
    ensures sum == Sum(buf.bytes, pkt + 26, 4)
  {
    sum := 0;
    FourHalves(buf.bytes, pkt + 26);
    for i := 0 to 2
      invariant sum == (if i >= 1 then Half(buf.bytes, pkt + 26) + Half(buf.bytes, pkt + 30) else 0)
                     + (if i == 2 then Half(buf.bytes, pkt + 28) + Half(buf.bytes, pkt + 32) else 0)
    {
      var a := buf.IordByte(pkt + 26 + 2 * i);
      var b := buf.IordByte(pkt + 27 + 2 * i);
      var c := buf.IordByte(pkt + 30 + 2 * i);
      var d := buf.IordByte(pkt + 31 + 2 * i);
      sum := sum + Pair(a, b) + Pair(c, d);
    }
  }

  /** Read the length and clear the byte after an odd payload. */
  method PadPayload(buf: Buffer, pkt: nat) returns (length: nat)
    requires Frame(buf, pkt, 44) && HoldsPayload(buf.bytes, pkt)
    modifies buf, buf.words
    ensures buf.Valid() && length == old(Half(buf.bytes, pkt + 38)) && buf.bytes == old(Padded(buf.bytes, pkt))
  {
    var w := buf.Iord(pkt + 36);
    DivideBy(w, Half(buf.bytes, pkt + 36), Half(buf.bytes, pkt + 38), 0x1_0000);
    length := w % 0x1_0000;
    if length % 2 != 0 {
      buf.IowrByte(pkt + length + 34, 0);
    }
  }

  lemma HalvesFit(length: nat)
    requires length <= 0xFFFF
    ensures 2 * Halves(length) <= length + length % 2 && Halves(length) <= 0x7FFF
  {
  }

  /** Both sums of the UDP routines, after padding. */
  method UdpParts(buf: Buffer, pkt: nat, length: nat) returns (sum: nat, addresses: nat)
    requires Frame(buf, pkt, 44) && length <= 0xFFFF && pkt + 34 + length + length % 2 <= |buf.bytes|
    ensures pkt + 34 + 2 * Halves(length) <= |buf.bytes|
    ensures sum == Sum(buf.bytes, pkt + 34, Halves(length)) && addresses == Sum(buf.bytes, pkt + 26, 4)
    ensures sum + addresses <= 0x8003 * 0xFFFF
  {
    HalvesFit(length);
    var n := Halves(length);
    SumBound(buf.bytes, pkt + 34, n);
    SumBound(buf.bytes, pkt + 26, 4);
    sum := SumHalves(buf, pkt + 34, n);
    addresses := SumAddresses(buf, pkt);
  }

  /** Padding and summing, common to the two UDP routines. */
  method UdpTotal(buf: Buffer, pkt: nat) returns (total: nat)
    requires Frame(buf, pkt, 44) && HoldsPayload(buf.bytes, pkt)
    modifies buf, buf.words
    ensures buf.Valid() && buf.bytes == old(Padded(buf.bytes, pkt))
    ensures total == old(UdpSum(buf.bytes, pkt)) && total < U32
  {
    var length := PadPayload(buf, pkt);
    var sum, addresses := UdpParts(buf, pkt, length);
    total := sum + addresses + 0x11 + length;
  }

  /** 32-bit unsigned arithmetic. */
  function Unsigned(x: int): (r: nat)
    ensures r < U32 && (0 <= x < U32 ==> r == x)
  {
    x % U32
  }

  /** udp_compute_checksum.  Taking the field out is a 32-bit unsigned operation: a length that does
      not cover the field makes it wrap. */
  method UdpComputeChecksum(buf: Buffer, pkt: nat) returns (c: nat)
    requires Frame(buf, pkt, 44) && HoldsPayload(buf.bytes, pkt)
    modifies buf, buf.words
    ensures buf.Valid() && buf.bytes == old(Padded(buf.bytes, pkt))
    ensures c == Complement(Unsigned(WithoutField(old(UdpSum(buf.bytes, pkt)), buf.bytes[pkt + 40], buf.bytes[pkt + 41])))
  {
    var total := UdpTotal(buf, pkt);
    var hi := buf.IordByte(pkt + 40);
    var lo := buf.IordByte(pkt + 41);
    c := Fold(Unsigned(WithoutField(total, hi, lo)));
  }

  lemma UdpFieldInSum(b: seq<byte>, pkt: nat, n: nat)
    requires pkt + 34 + 2 * n <= |b| && n >= 4
    ensures Sum(b, pkt + 34, n) == Sum(b, pkt + 34, 3) + Half(b, pkt + 40) + Sum(b, pkt + 42, n - 4)
  {
    SumField(b, pkt + 34, n, 3);
  }

  lemma UdpSumOfPadded(b: seq<byte>, pkt: nat, q: seq<byte>, n: nat)
    requires HoldsPayload(b, pkt) && q == Padded(b, pkt) && n == Halves(Half(b, pkt + 38)) && pkt + 34 + 2 * n <= |q|
    ensures UdpSum(b, pkt) == Sum(q, pkt + 34, n) + Sum(q, pkt + 26, 4) + 0x11 + Half(b, pkt + 38)
  {
  }

  /** Clearing the field commutes with padding. */
  lemma PaddedField(b: seq<byte>, pkt: nat, c: seq<byte>)
    requires HoldsPayload(b, pkt) && Half(b, pkt + 38) >= 8 && c == b[pkt + 40 := 0][pkt + 41 := 0]
    ensures Half(c, pkt + 38) == Half(b, pkt + 38) && HoldsPayload(c, pkt)
    ensures Padded(c, pkt) == Padded(b, pkt)[pkt + 40 := 0][pkt + 41 := 0]
    ensures Padded(b, pkt)[pkt + 40] == b[pkt + 40] && Padded(b, pkt)[pkt + 41] == b[pkt + 41]
  {
  }

  /** The half-words of a string with the field cleared. */
  lemma ClearedSum(p: seq<byte>, pkt: nat, q: seq<byte>, n: nat)
    requires pkt + 44 <= |p| && pkt + 34 + 2 * n <= |p| && n >= 4 && q == p[pkt + 40 := 0][pkt + 41 := 0]
    ensures Sum(p, pkt + 34, n) == Sum(q, pkt + 34, n) + Half(p, pkt + 40) && Sum(p, pkt + 26, 4) == Sum(q, pkt + 26, 4)
  {
    UdpFieldInSum(p, pkt, n);
    UdpFieldInSum(q, pkt, n);
    SumSame(p, pkt + 34, q, pkt + 34, 3);
    SumSame(p, pkt + 42, q, pkt + 42, n - 4);
    SumSame(p, pkt + 26, q, pkt + 26, 4);
  }

  /** The UDP sum as the field plus a rest that does not depend on it. */
  lemma UdpFieldApart(b: seq<byte>, pkt: nat, c: seq<byte>)
    requires HoldsPayload(b, pkt) && 8 <= Half(b, pkt + 38) < 0xFFFF && c == b[pkt + 40 := 0][pkt + 41 := 0]
    ensures HoldsPayload(c, pkt) && UdpSum(b, pkt) == UdpSum(c, pkt) + Half(b, pkt + 40)
    ensures UdpSum(c, pkt) <= 0x8004 * 0xFFFF + 0x1_0011
  {
    var n := Halves(Half(b, pkt + 38));
    PaddedField(b, pkt, c);
    HalvesFit(Half(b, pkt + 38));
    HalvesCover(Half(b, pkt + 38));
    UdpSumOfPadded(b, pkt, Padded(b, pkt), n);
    UdpSumOfPadded(c, pkt, Padded(c, pkt), n);
    ClearedSum(Padded(b, pkt), pkt, Padded(c, pkt), n);
    SumBound(Padded(c, pkt), pkt + 34, n);
    SumBound(Padded(c, pkt), pkt + 26, 4);
  }

  lemma HalvesCover(length: nat)
    requires 8 <= length < 0xFFFF
    ensures Halves(length) >= 4
  {
  }

  /** The UDP checksum does not depend on the stored one exactly when the low byte stored is zero. */
  lemma UdpFieldIgnoredIff(b: seq<byte>, pkt: nat)
    requires HoldsPayload(b, pkt) && 8 <= Half(b, pkt + 38) < 0xFFFF
    ensures var c, p := b[pkt + 40 := 0][pkt + 41 := 0], Padded(b, pkt);
            && HoldsPayload(c, pkt)
            && (Complement(Unsigned(WithoutField(UdpSum(b, pkt), p[pkt + 40], p[pkt + 41]))) == Complement(UdpSum(c, pkt))
                <==> b[pkt + 41] == 0)
  {
    var c := b[pkt + 40 := 0][pkt + 41 := 0];
    PaddedField(b, pkt, c);
    UdpFieldApart(b, pkt, c);
    IgnoresFieldIff(UdpSum(c, pkt), b[pkt + 40], b[pkt + 41]);
  }

  /** udp_verify_checksum */
  method UdpVerifyChecksum(buf: Buffer, pkt: nat) returns (ok: bool)
    requires Frame(buf, pkt, 44) && HoldsPayload(buf.bytes, pkt)
    modifies buf, buf.words
    ensures buf.Valid() && buf.bytes == old(Padded(buf.bytes, pkt))
    ensures ok <==> old(Good(UdpSum(buf.bytes, pkt)))
  {
    var total := UdpTotal(buf, pkt);
    VerifyMeansGood(total);
    var c := Fold(total);
    return c == 0;
  }

  // ---- Replies ----------------------------------------------------------

  ghost predicate Apart(a: nat, b: nat, n: nat) { a + n <= b || b + n <= a }

  /** What a reply is built from: the received frame in place, or a copy of it. */
  ghost function Copied(b: seq<byte>, rx: nat, tx: nat, n: nat): (r: seq<byte>)
    requires rx + n <= |b| && tx + n <= |b|
    ensures |r| == |b| && r[tx..tx + n] == b[rx..rx + n]
  {
    if rx == tx then b else Splice(b, tx, b[rx..rx + n])
  }

  /** The copy loop after i rounds. */
  ghost function CopyRounds(b: seq<byte>, rx: nat, tx: nat, i: nat): (r: seq<byte>)
    requires rx + i <= |b| && tx + i <= |b|
    ensures |r| == |b|
  {
    if i == 0 then b
    else var c := CopyRounds(b, rx, tx, i - 1); c[tx + i - 1 := c[rx + i - 1]]
  }

  lemma {:induction false} CopyRoundsAt(b: seq<byte>, rx: nat, tx: nat, i: nat, n: nat, k: nat)
    requires i <= n && rx + n <= |b| && tx + n <= |b| && Apart(rx, tx, n) && k < |b|
    ensures CopyRounds(b, rx, tx, i)[k] == if tx <= k < tx + i then b[rx + (k - tx)] else b[k]
    decreases i
  {
    if i > 0 {
      CopyRoundsAt(b, rx, tx, i - 1, n, k);
      CopyRoundsAt(b, rx, tx, i - 1, n, rx + i - 1);
    }
  }

  lemma CopyRoundsCopy(b: seq<byte>, rx: nat, tx: nat, n: nat)
    requires rx + n <= |b| && tx + n <= |b| && Apart(rx, tx, n)
    ensures CopyRounds(b, rx, tx, n) == Splice(b, tx, b[rx..rx + n])
  {
    var r, x := CopyRounds(b, rx, tx, n), b[rx..rx + n];
    forall k | 0 <= k < |b| ensures r[k] == Splice(b, tx, x)[k] {
      CopyRoundsAt(b, rx, tx, n, n, k);
      if tx <= k < tx + n { SpliceRead(b, tx, x, k - tx); }
    }
  }

  /** The copy loop of the reply builders. */
  method CopyFrame(buf: Buffer, rx: nat, tx: nat, n: nat)
    requires buf.Valid() && rx + n <= |buf.bytes| && tx + n <= |buf.bytes| && (rx == tx || Apart(rx, tx, n))
    modifies buf, buf.words
    ensures buf.Valid() && buf.bytes == Copied(old(buf.bytes), rx, tx, n)
  {
    if rx != tx {
      ghost var b0 := buf.bytes;
      for i := 0 to n
        invariant buf.Valid() && buf.bytes == CopyRounds(b0, rx, tx, i)
      {
        var v := buf.IordByte(rx + i);
        buf.IowrByte(tx + i, v);
      }
      CopyRoundsCopy(b0, rx, tx, n);
    }
  }

  /** A swapping loop after i rounds. */
  ghost function SwapRounds(b: seq<byte>, dst: nat, src: nat, own: seq<byte>, i: nat): (r: seq<byte>)
    requires i <= |own| && dst + i <= |b| && src + i <= |b|
    ensures |r| == |b|
  {
    if i == 0 then b
    else var c := SwapRounds(b, dst, src, own, i - 1); c[dst + i - 1 := c[src + i - 1]][src + i - 1 := own[i - 1]]
  }

  /** Byte k after i rounds. */
  ghost function SwapAt(b: seq<byte>, dst: nat, src: nat, own: seq<byte>, i: nat, k: nat): byte
    requires i <= |own| && dst + |own| <= |b| && src + |own| <= |b| && k < |b|
  {
    if dst <= k < dst + i then b[src + (k - dst)] else if src <= k < src + i then own[k - src] else b[k]
  }

  lemma {:induction false} SwapRoundsAt(b: seq<byte>, dst: nat, src: nat, own: seq<byte>, i: nat, k: nat)
    requires i <= |own| && dst + |own| <= |b| && src + |own| <= |b| && Apart(dst, src, |own|) && k < |b|
    ensures SwapRounds(b, dst, src, own, i)[k] == SwapAt(b, dst, src, own, i, k)
    decreases i
  {
    if i > 0 {
      SwapRoundsAt(b, dst, src, own, i - 1, k);
      SwapRoundsAt(b, dst, src, own, i - 1, src + i - 1);
    }
  }

  lemma SwapAtSwaps(b: seq<byte>, r: seq<byte>, dst: nat, src: nat, own: seq<byte>)
    requires dst + |own| <= |b| == |r| && src + |own| <= |b| && Apart(dst, src, |own|)
    requires forall k :: 0 <= k < |b| ==> r[k] == SwapAt(b, dst, src, own, |own|, k)
    ensures Swapped(b, r, dst, src, own)
  {
    var n := |own|;
    assert r[dst..dst + n] == b[src..src + n];
    assert r[src..src + n] == own;
  }

  lemma SwapRoundsSwap(b: seq<byte>, dst: nat, src: nat, own: seq<byte>)
    requires dst + |own| <= |b| && src + |own| <= |b| && Apart(dst, src, |own|)
    ensures Swapped(b, SwapRounds(b, dst, src, own, |own|), dst, src, own)
  {
    var r := SwapRounds(b, dst, src, own, |own|);
    forall k | 0 <= k < |b| ensures r[k] == SwapAt(b, dst, src, own, |own|, k) {
      SwapRoundsAt(b, dst, src, own, |own|, k);
    }
    SwapAtSwaps(b, r, dst, src, own);
  }

  /** The swapping loops: the field at `src` moves to `dst`, our own value takes its place. */
  method SwapIn(buf: Buffer, dst: nat, src: nat, own: seq<byte>)
    requires buf.Valid() && dst + |own| <= |buf.bytes| && src + |own| <= |buf.bytes| && Apart(dst, src, |own|)
    modifies buf, buf.words
    ensures buf.Valid() && Swapped(old(buf.bytes), buf.bytes, dst, src, own)
  {
    ghost var b0 := buf.bytes;
    for i := 0 to |own|
      invariant buf.Valid() && buf.bytes == SwapRounds(b0, dst, src, own, i)
    {
      var v := buf.IordByte(src + i);
      buf.IowrByte(dst + i, v);
      buf.IowrByte(src + i, own[i]);
    }
    SwapRoundsSwap(b0, dst, src, own);
  }

  ghost predicate Swapped(b: seq<byte>, b': seq<byte>, dst: nat, src: nat, own: seq<byte>)
    requires dst + |own| <= |b| && src + |own| <= |b|
  {
    && |b'| == |b| && b'[dst..dst + |own|] == b[src..src + |own|] && b'[src..src + |own|] == own
    && forall k :: 0 <= k < |b| && !(dst <= k < dst + |own|) && !(src <= k < src + |own|) ==> b'[k] == b[k]
  }
}
