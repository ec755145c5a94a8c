/**
  The shape of a UDP frame and its two checksum fields, over any header bytes:
  what storing the checksums of a draft frame does to the sums that the
  verifiers form.
 */
module UdpLayout {
  import opened Bytes
  import opened EthBuffer
  import opened Checksum
  import opened EthFrames

  function U16(n: nat): (r: seq<byte>)
    requires n < 0x1_0000
    ensures |r| == 2 && Half(r, 0) == n
  {
    [n / 256, n % 256]
  }

  /** Bytes up to the IPv4 checksum, and between the two checksums. */
  type Front = s: seq<byte> | |s| == 24 witness seq(24, _ => 0)
  type Middle = s: seq<byte> | |s| == 14 witness seq(14, _ => 0)

  /** The last header word clears two payload bytes before the payload is written. */
  ghost function Spread(data: seq<byte>): (r: seq<byte>)
    ensures |data| <= |r| && 2 <= |r|
  {
    data + if |data| == 0 then [0, 0] else if |data| == 1 then [0] else []
  }

  /** Payload and zero padding. */
  ghost function Body(data: seq<byte>): (r: seq<byte>)
    ensures 2 * ((|data| + 1) / 2) <= |r| && |Spread(data)| <= |r|
  {
    data + if |data| == 0 then [0, 0] else if |data| % 2 == 1 then [0] else []
  }

  /** The header sum without its checksum. */
  ghost function IpRest(f: Front, m: Middle): nat { Sum(f, 14, 5) + Sum(m, 0, 4) }

  /** The UDP sum without its checksum. */
  ghost function UdpRest(m: Middle, data: seq<byte>): nat {
    Sum(m, 8, 3) + Sum(Body(data), 0, (|data| + 1) / 2) + Sum(m, 0, 4) + 0x11 + (|data| + 8)
  }

  /** The UDP length field is that of the payload, which fits a frame. */
  ghost predicate LengthOk(m: Middle, data: seq<byte>) { Half(m, 12) == |data| + 8 && |data| + 42 < 0x1_0000 }

  // ---- Sums of a frame --------------------------------------------------

  lemma PartSum(b: seq<byte>, at: nat, len: nat, part: seq<byte>, from: nat, n: nat)
    requires at + len <= |b| && b[at..at + len] == part && from + 2 * n <= len
    ensures Sum(b, at + from, n) == Sum(part, from, n)
  {
    SubSlice(b, at, len, from, from + 2 * n);
    assert at + from + 2 * n == at + (from + 2 * n);
    SumSame(b, at + from, part, from, n);
  }

  lemma IpSumOf(f: Front, c1: nat, m: Middle, b: seq<byte>, at: nat)
    requires at + 42 <= |b| && b[at..at + 24] == f && b[at + 26..at + 40] == m && Half(b, at + 24) == c1
    ensures IpSum(b, at) == IpRest(f, m) + c1
  {
    SumField(b, at + 14, 10, 5);
    PartSum(b, at, 24, f, 14, 5);
    PartSum(b, at + 26, 14, m, 0, 4);
  }

  lemma LengthInPlace(m: Middle, data: seq<byte>, b: seq<byte>, at: nat)
    requires LengthOk(m, data) && at + 42 <= |b| && b[at + 26..at + 40] == m
    ensures Half(b, at + 38) == |data| + 8
  {
    var mid := b[at + 26..at + 40];
    assert mid[12] == b[at + 38] && mid[13] == b[at + 39];
  }

  /** A padded body needs no more padding. */
  lemma UdpPadded(data: seq<byte>, b: seq<byte>, at: nat)
    requires at + 42 + |Body(data)| <= |b| && b[at + 42..at + 42 + |Body(data)|] == Body(data)
    requires Half(b, at + 38) == |data| + 8
    ensures HoldsPayload(b, at) && Padded(b, at) == b
  {
    var n, body := |data|, b[at + 42..at + 42 + |Body(data)|];
    if n % 2 == 1 {
      assert body[n] == 0 && body[n] == b[at + 42 + n];
    }
  }

  lemma UdpSumUnpadded(b: seq<byte>, at: nat, n: nat)
    requires HoldsPayload(b, at) && Half(b, at + 38) == n && Padded(b, at) == b
    ensures UdpSum(b, at) == Sum(b, at + 34, Halves(n)) + Sum(b, at + 26, 4) + 0x11 + n
  {
  }

  lemma HalvesOf(n: nat)
    requires n + 8 < 0xFFFF
    ensures Halves(n + 8) == (n + 1) / 2 + 4
  {
  }

  lemma SumUdp(m: Middle, c2: nat, b: seq<byte>, at: nat, k: nat, body: seq<byte>)
    requires 2 * k <= |body| && at + 42 + |body| <= |b|
    requires b[at + 26..at + 40] == m && Half(b, at + 40) == c2 && b[at + 42..at + 42 + |body|] == body
    ensures Sum(b, at + 34, k + 4) == Sum(m, 8, 3) + c2 + Sum(body, 0, k)
  {
    SumField(b, at + 34, k + 4, 3);
    assert Sum(b, at + 34, 3) == Sum(m, 8, 3) by { PartSum(b, at + 26, 14, m, 8, 3); }
    assert Sum(b, at + 42, k) == Sum(body, 0, k) by { PartSum(b, at + 42, |body|, body, 0, k); }
  }

  lemma UdpSumMiddle(m: Middle, c2: nat, b: seq<byte>, at: nat, n: nat, k: nat, body: seq<byte>)
    requires 2 * k <= |body| && at + 42 + |body| <= |b|
    requires b[at + 26..at + 40] == m && Half(b, at + 40) == c2 && b[at + 42..at + 42 + |body|] == body
    requires HoldsPayload(b, at) && Half(b, at + 38) == n && Padded(b, at) == b && Halves(n) == k + 4
    ensures UdpSum(b, at) == Sum(m, 8, 3) + Sum(body, 0, k) + Sum(m, 0, 4) + 0x11 + n + c2
  {
    UdpSumUnpadded(b, at, n);
    SumUdp(m, c2, b, at, k, body);
    PartSum(b, at + 26, 14, m, 0, 4);
  }

  lemma UdpSumOf(m: Middle, data: seq<byte>, c2: nat, b: seq<byte>, at: nat)
    requires LengthOk(m, data) && at + 42 + |Body(data)| <= |b|
    requires b[at + 26..at + 40] == m && Half(b, at + 40) == c2 && b[at + 42..at + 42 + |Body(data)|] == Body(data)
    ensures HoldsPayload(b, at) && Half(b, at + 38) == |data| + 8 && Padded(b, at) == b
    ensures UdpSum(b, at) == UdpRest(m, data) + c2
  {
    LengthInPlace(m, data, b, at);
    UdpPadded(data, b, at);
    HalvesOf(|data|);
    UdpSumMiddle(m, c2, b, at, |data| + 8, (|data| + 1) / 2, Body(data));
  }

  // ---- Checksums that make the sums good --------------------------------

  lemma RestBounds(f: Front, m: Middle, data: seq<byte>)
    requires |data| + 42 < 0x1_0000
    ensures IpRest(f, m) < U32 && 0 < UdpRest(m, data) < U32
  {
    SumBound(f, 14, 5);
    SumBound(m, 0, 4);
    SumBound(m, 8, 3);
    SumBound(Body(data), 0, (|data| + 1) / 2);
  }

  ghost function IpCheck(f: Front, m: Middle): (c: nat)
    ensures c < 0x1_0000 && (IpRest(f, m) > 0 ==> Good(IpRest(f, m) + c))
  {
    RestBounds(f, m, []);
    FoldCongruent(IpRest(f, m));
    assert IpRest(f, m) > 0 ==> Good(IpRest(f, m) + Complement(IpRest(f, m))) by {
      if IpRest(f, m) > 0 { ComplementMakesGood(IpRest(f, m)); }
    }
    Complement(IpRest(f, m))
  }

  ghost function UdpCheck(m: Middle, data: seq<byte>): (c: nat)
    requires |data| + 42 < 0x1_0000
    ensures c < 0x1_0000 && Good(UdpRest(m, data) + c)
  {
    RestBounds(seq(24, _ => 0), m, data);
    ComplementMakesGood(UdpRest(m, data));
    Complement(UdpRest(m, data))
  }

  // ---- Frames in the buffer ---------------------------------------------

  /** b is b0 with a frame at `at`: header parts, checksums and body. */
  ghost predicate Built(b: seq<byte>, b0: seq<byte>, at: nat, f: Front, c1: nat, m: Middle, c2: nat, body: seq<byte>) {
    && |b| == |b0| && at + 42 + |body| <= |b|
    && b[..at] == b0[..at] && b[at + 42 + |body|..] == b0[at + 42 + |body|..]
    && b[at..at + 24] == f && Half(b, at + 24) == c1
    && b[at + 26..at + 40] == m && Half(b, at + 40) == c2
    && b[at + 42..at + 42 + |body|] == body
  }

  /** Storing a checksum changes that field only. */
  lemma StoreIp(b: seq<byte>, b0: seq<byte>, at: nat, f: Front, c1: nat, m: Middle, c2: nat, body: seq<byte>, hi: byte, lo: byte)
    requires Built(b, b0, at, f, c1, m, c2, body)
    ensures Built(b[at + 24 := hi][at + 25 := lo], b0, at, f, Pair(hi, lo), m, c2, body)
  {
  }

  lemma StoreUdp(b: seq<byte>, b0: seq<byte>, at: nat, f: Front, c1: nat, m: Middle, c2: nat, body: seq<byte>, hi: byte, lo: byte)
    requires Built(b, b0, at, f, c1, m, c2, body)
    ensures Built(b[at + 40 := hi][at + 41 := lo], b0, at, f, c1, m, Pair(hi, lo), body)
  {
  }

  /** The byte after an odd payload completes the body. */
  lemma PadBody(b: seq<byte>, b0: seq<byte>, at: nat, f: Front, c1: nat, m: Middle, c2: nat, data: seq<byte>)
    requires Built(b, b0, at, f, c1, m, c2, Spread(data)) && at + 42 + |Body(data)| <= |b|
    ensures Built(if |data| % 2 == 0 then b else b[at + 42 + |data| := 0], b0, at, f, c1, m, c2, Body(data))
  {
    if |data| % 2 == 1 {
      var n := at + 42 + |data|;
      var b' := b[n := 0];
      assert b'[at + 42..n] == b[at + 42..n] == data by { SubSlice(b, at + 42, |Spread(data)|, 0, |data|); }
      assert b'[at + 42..n + 1] == b'[at + 42..n] + [0];
    }
  }

  /** Store a checksum, high byte first. */
  method StoreCheck(buf: Buffer, at: nat, c: nat)
    requires buf.Valid() && at + 2 <= |buf.bytes| && c < 0x1_0000
    modifies buf, buf.words
    ensures buf.Valid() && buf.bytes == old(buf.bytes)[at := c / 256][at + 1 := c % 256]
  {
    buf.IowrByte(at, c / 256);
    buf.IowrByte(at + 1, c % 256);
  }

  method WriteIpCheck(buf: Buffer, tx: nat, ghost b0: seq<byte>, ghost f: Front, ghost m: Middle, ghost body: seq<byte>)
    requires Frame(buf, tx, 42) && Built(buf.bytes, b0, tx, f, 0, m, 0, body)
    modifies buf, buf.words
    ensures buf.Valid() && Built(buf.bytes, b0, tx, f, IpCheck(f, m), m, 0, body)
  {
    IpSumOf(f, 0, m, buf.bytes, tx);
    var c := Ipv4ComputeChecksum(buf, tx);
    assert c == IpCheck(f, m);
    StoreIp(buf.bytes, b0, tx, f, 0, m, 0, body, c / 256, c % 256);
    StoreCheck(buf, tx + 24, c);
  }

  lemma DraftLength(b: seq<byte>, b0: seq<byte>, at: nat, f: Front, c1: nat, m: Middle, c2: nat, data: seq<byte>)
    requires Built(b, b0, at, f, c1, m, c2, Spread(data)) && at + 42 + |Body(data)| <= |b| && LengthOk(m, data)
    ensures Half(b, at + 38) == |data| + 8 && HoldsPayload(b, at)
    ensures Built(Padded(b, at), b0, at, f, c1, m, c2, Body(data))
  {
    LengthInPlace(m, data, b, at);
    PayloadFits(data, b, at);
    PadBody(b, b0, at, f, c1, m, c2, data);
  }

  lemma PayloadFits(data: seq<byte>, b: seq<byte>, at: nat)
    requires at + 42 + |Body(data)| <= |b| && Half(b, at + 38) == |data| + 8
    ensures HoldsPayload(b, at)
  {
  }

  /** Padding first or not, the sum is that of the padded frame. */
  lemma DraftSum(m: Middle, data: seq<byte>, b: seq<byte>, at: nat, q: seq<byte>)
    requires LengthOk(m, data) && at + 42 + |Body(data)| <= |q|
    requires q[at + 26..at + 40] == m && Half(q, at + 40) == 0 && q[at + 42..at + 42 + |Body(data)|] == Body(data)
    requires HoldsPayload(b, at) && Half(b, at + 38) == |data| + 8 && q == Padded(b, at)
    ensures UdpSum(b, at) == UdpRest(m, data)
  {
    UdpSumOf(m, data, 0, q, at);
    UdpSumUnpadded(q, at, |data| + 8);
  }

  lemma ZeroField(b: seq<byte>, k: nat)
    requires k + 2 <= |b| && Half(b, k) == 0
    ensures b[k] == 0 && b[k + 1] == 0
  {
  }

  lemma CheckOfRest(m: Middle, data: seq<byte>)
    requires |data| + 42 < 0x1_0000
    ensures Complement(Unsigned(WithoutField(UdpRest(m, data), 0, 0))) == UdpCheck(m, data)
  {
    RestBounds(seq(24, _ => 0), m, data);
  }

  /** What udp_compute_checksum finds in a draft frame. */
  lemma DraftFound(b: seq<byte>, b0: seq<byte>, at: nat, f: Front, c1: nat, m: Middle, data: seq<byte>, q: seq<byte>)
    requires LengthOk(m, data) && at + 42 + |Body(data)| <= |b| && Built(b, b0, at, f, c1, m, 0, Spread(data))
    requires HoldsPayload(b, at) && q == Padded(b, at)
    ensures Built(q, b0, at, f, c1, m, 0, Body(data)) && q[at + 40] == 0 && q[at + 41] == 0
    ensures Complement(Unsigned(WithoutField(UdpSum(b, at), 0, 0))) == UdpCheck(m, data)
  {
    DraftLength(b, b0, at, f, c1, m, 0, data);
    DraftSum(m, data, b, at, q);
    ZeroField(q, at + 40);
    CheckOfRest(m, data);
  }

  lemma DraftHolds(b: seq<byte>, b0: seq<byte>, at: nat, f: Front, c1: nat, m: Middle, data: seq<byte>)
    requires LengthOk(m, data) && at + 42 + |Body(data)| <= |b| && Built(b, b0, at, f, c1, m, 0, Spread(data))
    ensures HoldsPayload(b, at)
  {
    DraftLength(b, b0, at, f, c1, m, 0, data);
  }

  method WriteUdpCheck(buf: Buffer, tx: nat, ghost b0: seq<byte>, ghost f: Front, ghost c1: nat, ghost m: Middle,
                       ghost data: seq<byte>)
    requires LengthOk(m, data) && Frame(buf, tx, 42 + |Body(data)|) && Built(buf.bytes, b0, tx, f, c1, m, 0, Spread(data))
    modifies buf, buf.words
    ensures buf.Valid() && Built(buf.bytes, b0, tx, f, c1, m, UdpCheck(m, data), Body(data))
  {
    ghost var b := buf.bytes;
    DraftHolds(b, b0, tx, f, c1, m, data);
    DraftFound(b, b0, tx, f, c1, m, data, Padded(b, tx));
    var c := UdpComputeChecksum(buf, tx);
    StoreUdp(buf.bytes, b0, tx, f, c1, m, 0, Body(data), c / 256, c % 256);
    StoreCheck(buf, tx + 40, c);
  }
}
