/**
  Building a UDP frame (udp_send and udp_send_mac of c/ethlib/udp.c): eleven word
  writes, the payload byte by byte, then the two checksums in place.
 */
module Udp {
  import opened Bytes
  import opened EthBuffer
  import opened Checksum
  import opened EthFrames
  import opened UdpLayout

  /** The arguments of a send, with the destination address resolved. */
  datatype Datagram = Datagram(dstMac: Mac, srcMac: Mac, srcIp: Ip, dstIp: Ip,
                               srcPort: nat, dstPort: nat, id: nat, data: seq<byte>)

  /** Sixteen-bit ports and identification, and a payload whose frame length fits in sixteen bits. */
  ghost predicate ValidDatagram(u: Datagram) {
    u.srcPort < 0x1_0000 && u.dstPort < 0x1_0000 && u.id < 0x1_0000 && |u.data| + 42 < 0x1_0000
  }

  /** Addresses, type, and the IPv4 header up to its checksum. */
  ghost function FrontOf(u: Datagram): Front
    requires ValidDatagram(u)
  {
    EtherPart(u) + IpPart(u)
  }

  /** IP addresses, ports and UDP length. */
  ghost function MiddleOf(u: Datagram): Middle
    requires ValidDatagram(u)
  {
    u.srcIp + u.dstIp + U16(u.srcPort) + U16(u.dstPort) + U16(|u.data| + 8)
  }

  lemma MiddleParts(u: Datagram)
    requires ValidDatagram(u)
    ensures var m := MiddleOf(u);
            && m[..4] == u.srcIp && m[4..8] == u.dstIp
            && Half(m, 8) == u.srcPort && Half(m, 10) == u.dstPort && LengthOk(m, u.data)
  {
    var m := MiddleOf(u);
    assert m[8..10] == U16(u.srcPort) && m[10..12] == U16(u.dstPort) && m[12..14] == U16(|u.data| + 8);
    assert m[8] == U16(u.srcPort)[0] && m[10] == U16(u.dstPort)[0] && m[12] == U16(|u.data| + 8)[0];
    assert m[9] == U16(u.srcPort)[1] && m[11] == U16(u.dstPort)[1] && m[13] == U16(|u.data| + 8)[1];
  }

  /** b is b0 with the finished frame of u at `at`. */
  ghost predicate Holds(b: seq<byte>, b0: seq<byte>, at: nat, u: Datagram) {
    ValidDatagram(u) && Built(b, b0, at, FrontOf(u), IpCheck(FrontOf(u), MiddleOf(u)), MiddleOf(u),
                              UdpCheck(MiddleOf(u), u.data), Body(u.data))
  }

  // ---- The frame is right -----------------------------------------------

  /** Both verifiers accept the frame. */
  lemma ChecksumsGood(b: seq<byte>, b0: seq<byte>, at: nat, u: Datagram)
    requires Holds(b, b0, at, u)
    ensures Good(IpSum(b, at)) && HoldsPayload(b, at) && Good(UdpSum(b, at))
  {
    var f, m := FrontOf(u), MiddleOf(u);
    MiddleParts(u);
    FrontNonZero(u);
    IpSumOf(f, IpCheck(f, m), m, b, at);
    UdpSumOf(m, u.data, UdpCheck(m, u.data), b, at);
  }

  lemma FrontNonZero(u: Datagram)
    requires ValidDatagram(u)
    ensures IpRest(FrontOf(u), MiddleOf(u)) > 0
  {
    var f := FrontOf(u);
    assert f[22] == 0x40 && Sum(f, 14, 5) == Sum(f, 14, 4) + Half(f, 22);
  }

  /** The receiver reads back what was sent. */
  lemma ParsesBack(b: seq<byte>, b0: seq<byte>, at: nat, u: Datagram)
    requires Holds(b, b0, at, u)
    ensures at + 44 <= |b|
    ensures var p := b[at..];
            && Classify(p) == UDP && p[..6] == u.dstMac && p[6..12] == u.srcMac
            && p[26..30] == u.srcIp && p[30..34] == u.dstIp
            && SourcePort(p) == u.srcPort && DestinationPort(p) == u.dstPort && UdpLength(p) == |u.data| + 8
            && b[at + 42..at + 42 + |u.data|] == u.data
  {
    var p := b[at..];
    PayloadBack(b, at, u.data);
    assert p[..24] == b[at..at + 24] && p[26..40] == b[at + 26..at + 40];
    FrontBack(u, p);
    MiddleBack(u, p);
  }

  lemma PayloadBack(b: seq<byte>, at: nat, data: seq<byte>)
    requires at + 42 + |Body(data)| <= |b| && b[at + 42..at + 42 + |Body(data)|] == Body(data)
    ensures at + 44 <= |b| && |data| <= |Body(data)| && b[at + 42..at + 42 + |data|] == data
  {
    SubSlice(b, at + 42, |Body(data)|, 0, |data|);
    assert Body(data)[0..|data|] == data;
  }

  lemma FrontBack(u: Datagram, p: seq<byte>)
    requires ValidDatagram(u) && |p| >= 44 && p[..24] == FrontOf(u)
    ensures Classify(p) == UDP && p[..6] == u.dstMac && p[6..12] == u.srcMac
  {
    var f := p[..24];
    assert f[12] == 0x08 && f[13] == 0x00 && f[23] == 0x11;
    assert f[..6] == u.dstMac && f[6..12] == u.srcMac;
    assert p[..6] == f[..6] && p[6..12] == f[6..12];
  }

  lemma MiddleBack(u: Datagram, p: seq<byte>)
    requires ValidDatagram(u) && |p| >= 44 && p[26..40] == MiddleOf(u)
    ensures p[26..30] == u.srcIp && p[30..34] == u.dstIp
    ensures SourcePort(p) == u.srcPort && DestinationPort(p) == u.dstPort && UdpLength(p) == |u.data| + 8
  {
    MiddleParts(u);
    UdpFields(p);
    var m := p[26..40];
    assert m[..4] == p[26..30] && m[4..8] == p[30..34];
    assert m[8] == p[34] && m[9] == p[35] && m[10] == p[36] && m[11] == p[37] && m[12] == p[38] && m[13] == p[39];
  }

  // ---- Building it in the buffer ----------------------------------------

  /** One more header word after the part h that is already written. */
  method AppendWord(buf: Buffer, tx: nat, ghost b0: seq<byte>, ghost h: seq<byte>, k: nat,
                    a: byte, b: byte, c: byte, d: byte)
    requires buf.Valid() && tx % 4 == 0 && k % 4 == 0 && |h| == k && tx + k + 4 <= |b0|
    requires buf.bytes == Splice(b0, tx, h)
    modifies buf, buf.words
    ensures buf.Valid() && buf.bytes == Splice(b0, tx, h + [a, b, c, d])
  {
    SpliceNext(b0, tx, h, [a, b, c, d]);
    WriteQuad(buf, tx + k, a, b, c, d);
  }

  ghost function EtherPart(u: Datagram): (r: seq<byte>)
    ensures |r| == 12
  {
    u.dstMac + u.srcMac
  }

  lemma EtherWords(u: Datagram)
    ensures var d, m := u.dstMac, u.srcMac;
            [d[0], d[1], d[2], d[3]] + [d[4], d[5], m[0], m[1]] + [m[2], m[3], m[4], m[5]] == EtherPart(u)
  {
  }

  method WriteEther(buf: Buffer, tx: nat, u: Datagram)
    requires Frame(buf, tx, 12)
    modifies buf, buf.words
    ensures buf.Valid() && buf.bytes == Splice(old(buf.bytes), tx, EtherPart(u))
  {
    ghost var b0 := buf.bytes;
    var d, m := u.dstMac, u.srcMac;
    assert b0 == Splice(b0, tx, []);
    AppendWord(buf, tx, b0, [], 0, d[0], d[1], d[2], d[3]);
    ghost var h := [d[0], d[1], d[2], d[3]];
    assert [] + h == h;
    AppendWord(buf, tx, b0, h, 4, d[4], d[5], m[0], m[1]);
    h := h + [d[4], d[5], m[0], m[1]];
    AppendWord(buf, tx, b0, h, 8, m[2], m[3], m[4], m[5]);
    EtherWords(u);
  }

  ghost function IpPart(u: Datagram): (r: seq<byte>)
    requires ValidDatagram(u)
    ensures |r| == 12
  {
    [0x08, 0x00, 0x45, 0x00] + (U16(|u.data| + 28) + U16(u.id)) + [0x40, 0x00, 0x40, 0x11]
  }

  /** Type, version, lengths, identification, flags, lifetime, protocol. */
  method WriteIp(buf: Buffer, tx: nat, ghost b0: seq<byte>, u: Datagram)
    requires Frame(buf, tx, 24) && ValidDatagram(u) && tx + 24 <= |b0| && buf.bytes == Splice(b0, tx, EtherPart(u))
    modifies buf, buf.words
    ensures buf.Valid() && buf.bytes == Splice(b0, tx, EtherPart(u) + IpPart(u))
  {
    var n := |u.data| + 28;
    ghost var h := EtherPart(u);
    AppendWord(buf, tx, b0, h, 12, 0x08, 0x00, 0x45, 0x00);
    h := h + [0x08, 0x00, 0x45, 0x00];
    AppendWord(buf, tx, b0, h, 16, n / 256, n % 256, u.id / 256, u.id % 256);
    h := h + [n / 256, n % 256, u.id / 256, u.id % 256];
    AppendWord(buf, tx, b0, h, 20, 0x40, 0x00, 0x40, 0x11);
    assert h + [0x40, 0x00, 0x40, 0x11] == EtherPart(u) + IpPart(u);
  }

  ghost function TailPart(u: Datagram): (r: seq<byte>)
    requires ValidDatagram(u)
    ensures |r| == 20
  {
    [0, 0] + MiddleOf(u) + [0, 0, 0, 0]
  }

  lemma TailWords(u: Datagram)
    requires ValidDatagram(u)
    ensures var s, d, n := u.srcIp, u.dstIp, |u.data| + 8;
            [0, 0, s[0], s[1]] + [s[2], s[3], d[0], d[1]] + [d[2], d[3], u.srcPort / 256, u.srcPort % 256]
            + [u.dstPort / 256, u.dstPort % 256, n / 256, n % 256] + [0, 0, 0, 0] == TailPart(u)
  {
  }

  /** Addresses, ports and UDP length, with both checksums and the first two payload bytes zero. */
  method WriteTail(buf: Buffer, at: nat, u: Datagram)
    requires Frame(buf, at, 20) && ValidDatagram(u)
    modifies buf, buf.words
    ensures buf.Valid() && buf.bytes == Splice(old(buf.bytes), at, TailPart(u))
  {
    ghost var b0 := buf.bytes;
    var s, d, n := u.srcIp, u.dstIp, |u.data| + 8;
    assert b0 == Splice(b0, at, []);
    AppendWord(buf, at, b0, [], 0, 0, 0, s[0], s[1]);
    ghost var h := [0, 0, s[0], s[1]];
    assert [] + h == h;
    AppendWord(buf, at, b0, h, 4, s[2], s[3], d[0], d[1]);
    h := h + [s[2], s[3], d[0], d[1]];
    AppendWord(buf, at, b0, h, 8, d[2], d[3], u.srcPort / 256, u.srcPort % 256);
    h := h + [d[2], d[3], u.srcPort / 256, u.srcPort % 256];
    AppendWord(buf, at, b0, h, 12, u.dstPort / 256, u.dstPort % 256, n / 256, n % 256);
    h := h + [u.dstPort / 256, u.dstPort % 256, n / 256, n % 256];
    AppendWord(buf, at, b0, h, 16, 0, 0, 0, 0);
    TailWords(u);
  }

  method WriteData(buf: Buffer, at: nat, data: seq<byte>)
    requires buf.Valid() && at + |data| <= |buf.bytes|
    modifies buf, buf.words
    ensures buf.Valid() && buf.bytes == Splice(old(buf.bytes), at, data)
  {
    ghost var b0 := buf.bytes;
    assert b0 == Splice(b0, at, data[..0]);
    for i := 0 to |data|
      invariant buf.Valid() && buf.bytes == Splice(b0, at, data[..i])
    {
      buf.IowrByte(at + i, data[i]);
      SpliceByte(Splice(b0, at, data[..i]), at + i, data[i]);
      SpliceNext(b0, at, data[..i], [data[i]]);
      assert data[..i + 1] == data[..i] + [data[i]];
    }
    assert data[..|data|] == data;
  }

  lemma TailOwn(m: Middle, t: seq<byte>)
    requires t == [0, 0] + m + [0, 0, 0, 0]
    ensures |t| == 20 && t[2..16] == m && t[0] == t[1] == 0 && t[16] == t[17] == t[18] == t[19] == 0
  {
  }

  /** Front and tail written one after the other are a frame with an empty body. */
  lemma HeaderBuilt(b0: seq<byte>, b1: seq<byte>, tx: nat, f: Front, m: Middle, t: seq<byte>)
    requires tx + 44 <= |b0| && b1 == Splice(b0, tx, f)
    requires |t| == 20 && t[2..16] == m && t[0] == t[1] == 0 && t[16] == t[17] == t[18] == t[19] == 0
    ensures Built(Splice(b1, tx + 24, t), b0, tx, f, 0, m, 0, [0, 0])
  {
    var r := Splice(b1, tx + 24, t);
    assert b1[..tx] == b0[..tx] && b1[tx + 44..] == b0[tx + 44..];
    assert r[..tx + 24] == b1[..tx + 24] && r[tx + 44..] == b1[tx + 44..];
    HeaderView(b0, b1, r, tx, f, m, t);
  }

  lemma HeaderView(b0: seq<byte>, b1: seq<byte>, r: seq<byte>, tx: nat, f: Front, m: Middle, t: seq<byte>)
    requires tx + 44 <= |r| == |b1| == |b0|
    requires b1[tx..tx + 24] == f && b1[..tx] == b0[..tx] && b1[tx + 44..] == b0[tx + 44..]
    requires r[..tx + 24] == b1[..tx + 24] && r[tx + 24..tx + 44] == t && r[tx + 44..] == b1[tx + 44..]
    requires |t| == 20 && t[2..16] == m && t[0] == t[1] == 0 && t[16] == t[17] == t[18] == t[19] == 0
    ensures Built(r, b0, tx, f, 0, m, 0, [0, 0])
  {
    HeaderFront(b1, r, tx, f);
    SubSlice(r, tx + 24, 20, 2, 16);
    SubSlice(r, tx + 24, 20, 18, 20);
    assert t[18..20] == [0, 0];
    var u := r[tx + 24..tx + 44];
    assert u[0] == r[tx + 24] && u[1] == r[tx + 25] && u[16] == r[tx + 40] && u[17] == r[tx + 41];
  }

  lemma HeaderFront(b1: seq<byte>, r: seq<byte>, tx: nat, f: Front)
    requires tx + 24 <= |r| == |b1| && b1[tx..tx + 24] == f && r[..tx + 24] == b1[..tx + 24]
    ensures r[tx..tx + 24] == f && r[..tx] == b1[..tx]
  {
    assert r[tx..tx + 24] == r[..tx + 24][tx..];
    assert b1[tx..tx + 24] == b1[..tx + 24][tx..];
    assert r[..tx] == r[..tx + 24][..tx];
  }

  /** The payload goes over the two cleared bytes. */
  lemma DataBuilt(b: seq<byte>, b0: seq<byte>, tx: nat, f: Front, m: Middle, data: seq<byte>)
    requires Built(b, b0, tx, f, 0, m, 0, [0, 0]) && tx + 42 + |data| <= |b|
    ensures Built(Splice(b, tx + 42, data), b0, tx, f, 0, m, 0, Spread(data))
  {
    var r := Splice(b, tx + 42, data);
    assert b[tx + 42..tx + 44][0] == b[tx + 42] == 0 && b[tx + 42..tx + 44][1] == b[tx + 43] == 0;
    if |data| < 2 {
      assert r[tx + 42..tx + 44] == Spread(data);
    } else {
      assert Spread(data) == data;
    }
  }

  /** The eleven header words. */
  method WriteHeader(buf: Buffer, tx: nat, u: Datagram)
    requires ValidDatagram(u) && Frame(buf, tx, 44)
    modifies buf, buf.words
    ensures buf.Valid() && Built(buf.bytes, old(buf.bytes), tx, FrontOf(u), 0, MiddleOf(u), 0, [0, 0])
  {
    ghost var b0 := buf.bytes;
    WriteEther(buf, tx, u);
    WriteIp(buf, tx, b0, u);
    TailOwn(MiddleOf(u), TailPart(u));
    HeaderBuilt(b0, buf.bytes, tx, FrontOf(u), MiddleOf(u), TailPart(u));
    WriteTail(buf, tx + 24, u);
  }

  method WriteDraft(buf: Buffer, tx: nat, u: Datagram)
    requires ValidDatagram(u) && Frame(buf, tx, 44) && Frame(buf, tx, 42 + |u.data|)
    modifies buf, buf.words
    ensures buf.Valid() && Built(buf.bytes, old(buf.bytes), tx, FrontOf(u), 0, MiddleOf(u), 0, Spread(u.data))
  {
    ghost var b0 := buf.bytes;
    WriteHeader(buf, tx, u);
    DataBuilt(buf.bytes, b0, tx, FrontOf(u), MiddleOf(u), u.data);
    WriteData(buf, tx + 42, u.data);
  }

  /** Adding 0x10000 to the sixteen-bit identification leaves it as it was. */
  function NextId(id: nat): (r: nat)
    ensures id < 0x1_0000 ==> r == id
  {
    (id + 0x1_0000) % 0x1_0000
  }

  /** udp_send_mac, and udp_send once the address is resolved: the buffer holds the frame and
      nothing else changed; the identification wraps to itself. */
  method UdpSendMac(buf: Buffer, tx: nat, u: Datagram) returns (frameLength: nat, nextId: nat)
    requires ValidDatagram(u) && Frame(buf, tx, 42 + |Body(u.data)|)
    modifies buf, buf.words
    ensures buf.Valid() && Holds(buf.bytes, old(buf.bytes), tx, u)
    ensures frameLength == 42 + |u.data| && nextId == u.id
  {
    ghost var b0 := buf.bytes;
    LengthInMiddle(u);
    WriteDraft(buf, tx, u);
    WriteChecks(buf, tx, b0, FrontOf(u), MiddleOf(u), u.data);
    return |u.data| + 8 + 20 + 14, NextId(u.id);
  }

  lemma LengthInMiddle(u: Datagram)
    requires ValidDatagram(u)
    ensures LengthOk(MiddleOf(u), u.data)
  {
    MiddleParts(u);
  }

  method WriteChecks(buf: Buffer, tx: nat, ghost b0: seq<byte>, ghost f: Front, ghost m: Middle, ghost data: seq<byte>)
    requires LengthOk(m, data) && Frame(buf, tx, 42 + |Body(data)|) && Built(buf.bytes, b0, tx, f, 0, m, 0, Spread(data))
    modifies buf, buf.words
    ensures buf.Valid() && Built(buf.bytes, b0, tx, f, IpCheck(f, m), m, UdpCheck(m, data), Body(data))
  {
    WriteIpCheck(buf, tx, b0, f, m, Spread(data));
    WriteUdpCheck(buf, tx, b0, f, IpCheck(f, m), m, data);
  }
}
