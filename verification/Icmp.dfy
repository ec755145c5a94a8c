/**
  Answering a ping (c/ethlib/icmp.c): the request becomes the reply in place or in
  a second buffer, and its checksum is adjusted rather than computed again.
 */
module Icmp {
  import opened Bytes
  import opened EthBuffer
  import opened Checksum
  import opened EthFrames

  /** The adjustment `~((~c) - 0x0800)` of a sixteen-bit checksum. */
  function Adjusted(c: nat): nat { (c + 0x0800) % 0x1_0000 }

  /** b' is b with the frame at `at` turned into a reply. */
  ghost predicate IsReply(b: seq<byte>, b': seq<byte>, at: nat, mac: Mac, ip: Ip) {
    && at + 38 <= |b| == |b'|
    && b'[..at] == b[..at]
    && b'[at..at + 6] == b[at + 6..at + 12] && b'[at + 6..at + 12] == mac
    && b'[at + 12..at + 26] == b[at + 12..at + 26]
    && b'[at + 26..at + 30] == ip && b'[at + 30..at + 34] == b[at + 26..at + 30]
    && b'[at + 34] == 0 && b'[at + 35] == b[at + 35]
    && Half(b', at + 36) == Adjusted(Half(b, at + 36))
    && b'[at + 38..] == b[at + 38..]
  }

  /** Length of the frame by the IPv4 total length. */
  ghost function FrameLength(b: seq<byte>, at: nat): nat
    requires at + 18 <= |b|
  {
    14 + Half(b, at + 16)
  }

  // ---- Checksums of the reply -------------------------------------------

  /** The address half-words are only permuted. */
  lemma IpSumKept(b: seq<byte>, b': seq<byte>, at: nat, mac: Mac, ip: Ip)
    requires IsReply(b, b', at, mac, ip) && b[at + 30..at + 34] == ip
    ensures IpSum(b', at) == IpSum(b, at)
  {
    SumSplit(b, at + 14, 6, 4);
    SumSplit(b', at + 14, 6, 4);
    SameSlice(b, at + 12, b', at + 12, 14, 2, 14);
    SumSame(b', at + 14, b, at + 14, 6);
    FourHalves(b, at + 26);
    FourHalves(b', at + 26);
    HalvesOfSlices(b, b', at + 26, ip);
  }

  lemma HalvesOfSlices(b: seq<byte>, b': seq<byte>, k: nat, ip: Ip)
    requires k + 8 <= |b| == |b'| && b'[k..k + 4] == ip && b'[k + 4..k + 8] == b[k..k + 4] && b[k + 4..k + 8] == ip
    ensures Half(b', k) == Half(b, k + 4) && Half(b', k + 2) == Half(b, k + 6)
    ensures Half(b', k + 4) == Half(b, k) && Half(b', k + 6) == Half(b, k + 2)
  {
    var x, y := b[k + 4..k + 8], b'[k..k + 4];
    assert x[0] == y[0] && x[1] == y[1] && x[2] == y[2] && x[3] == y[3];
    var z, w := b[k..k + 4], b'[k + 4..k + 8];
    assert z[0] == w[0] && z[1] == w[1] && z[2] == w[2] && z[3] == w[3];
  }

  /** The sum over an ICMP message of n bytes, an odd last byte padded with zero. */
  ghost function IcmpSum(b: seq<byte>, at: nat, n: nat): nat
    requires at + 34 + n <= |b|
  {
    Sum(b, at + 34, n / 2) + if n % 2 == 1 then Pair(b[at + 34 + n - 1], 0) else 0
  }

  /** Type and checksum are the two half-words that change. */
  lemma IcmpSumChange(b: seq<byte>, b': seq<byte>, at: nat, mac: Mac, ip: Ip, n: nat)
    requires IsReply(b, b', at, mac, ip) && b[at + 34] == 8 && n >= 4 && at + 34 + n <= |b|
    ensures var c := Half(b, at + 36); IcmpSum(b', at, n) + 0x0800 + c == IcmpSum(b, at, n) + Adjusted(c)
  {
    var m := n / 2;
    FirstTwo(b, at + 34, m);
    FirstTwo(b', at + 34, m);
    var x, y := b[at + 38..], b'[at + 38..];
    assert b[at + 38..at + 34 + 2 * m] == x[..2 * m - 4] == y[..2 * m - 4] == b'[at + 38..at + 34 + 2 * m];
    SumSame(b', at + 38, b, at + 38, m - 2);
    if n % 2 == 1 {
      assert b[at + 34 + n - 1] == x[n - 5] == y[n - 5] == b'[at + 34 + n - 1];
    }
  }

  lemma FirstTwo(b: seq<byte>, from: nat, n: nat)
    requires n >= 2 && from + 2 * n <= |b|
    ensures Sum(b, from, n) == Half(b, from) + Half(b, from + 2) + Sum(b, from + 4, n - 2)
  {
    SumSplit(b, from, 2, n - 2);
    assert Sum(b, from, 0) == 0;
    assert Sum(b, from, 1) == Half(b, from);
  }

  /** The reply to a valid request is valid exactly when its checksum was at most 0xF7FF:
      above that the end-around carry is lost. */
  lemma ReplyValidIff(b: seq<byte>, b': seq<byte>, at: nat, mac: Mac, ip: Ip, n: nat)
    requires IsReply(b, b', at, mac, ip) && b[at + 34] == 8 && n >= 4 && at + 34 + n <= |b|
    requires Good(IcmpSum(b, at, n))
    ensures Good(IcmpSum(b', at, n)) <==> Half(b, at + 36) <= 0xF7FF
  {
    var c, s := Half(b, at + 36), IcmpSum(b, at, n);
    IcmpSumChange(b, b', at, mac, ip, n);
    if c <= 0xF7FF {
      assert Adjusted(c) == c + 0x0800;
    } else {
      assert Adjusted(c) == c + 0x0800 - 0x1_0000;
      CarryLost(s - 0x1_0000);
    }
  }

  lemma CarryLost(x: int)
    requires x >= 0 && (x + 0x1_0000) % 0xFFFF == 0
    ensures x % 0xFFFF != 0
  {
    NoSmallShift(x, 1);
    ModShift(x + 1, 1);
  }

  // ---- Building the reply -----------------------------------------------

  /** Type 0 and the adjusted checksum. */
  method TurnToReply(buf: Buffer, tx: nat)
    requires buf.Valid() && tx + 38 <= |buf.bytes|
    modifies buf, buf.words
    ensures buf.Valid() && var c := Adjusted(Half(old(buf.bytes), tx + 36));
            buf.bytes == old(buf.bytes)[tx + 34 := 0][tx + 36 := c / 256][tx + 37 := c % 256]
  {
    buf.IowrByte(tx + 34, 0);
    var hi := buf.IordByte(tx + 36);
    var lo := buf.IordByte(tx + 37);
    var c := Adjusted(Pair(hi, lo));
    buf.IowrByte(tx + 36, c / 256);
    buf.IowrByte(tx + 37, c % 256);
  }

  lemma ReplyBytes(b: seq<byte>, b1: seq<byte>, b2: seq<byte>, at: nat, mac: Mac, ip: Ip, hi: byte, lo: byte)
    requires at + 38 <= |b| && Swapped(b, b1, at, at + 6, mac) && Swapped(b1, b2, at + 30, at + 26, ip)
    requires Pair(hi, lo) == Adjusted(Half(b, at + 36))
    ensures IsReply(b, b2[at + 34 := 0][at + 36 := hi][at + 37 := lo], at, mac, ip)
  {
    assert b1[at + 26..at + 30] == b[at + 26..at + 30];
  }

  /** icmp_build_ping_reply */
  method BuildPingReply(buf: Buffer, rx: nat, tx: nat, mac: Mac, ip: Ip) returns (n: nat)
    requires buf.Valid() && rx + 18 <= |buf.bytes| && tx + 38 <= |buf.bytes|
    requires var n := FrameLength(buf.bytes, rx);
             rx + n <= |buf.bytes| && tx + n <= |buf.bytes| && (rx == tx || Apart(rx, tx, n))
    modifies buf, buf.words
    ensures buf.Valid() && n == old(FrameLength(buf.bytes, rx))
    ensures IsReply(Copied(old(buf.bytes), rx, tx, n), buf.bytes, tx, mac, ip)
  {
    var hi := buf.IordByte(rx + 16);
    var lo := buf.IordByte(rx + 17);
    n := 14 + Pair(hi, lo);
    CopyFrame(buf, rx, tx, n);
    RewriteReply(buf, tx, mac, ip);
  }

  /** Everything after the copy. */
  method RewriteReply(buf: Buffer, tx: nat, mac: Mac, ip: Ip)
    requires buf.Valid() && tx + 38 <= |buf.bytes|
    modifies buf, buf.words
    ensures buf.Valid() && IsReply(old(buf.bytes), buf.bytes, tx, mac, ip)
  {
    ghost var b := buf.bytes;
    SwapIn(buf, tx, tx + 6, mac);
    ghost var b1 := buf.bytes;
    SwapIn(buf, tx + 30, tx + 26, ip);
    ghost var c := Adjusted(Half(b, tx + 36));
    ReplyBytes(b, b1, buf.bytes, tx, mac, ip, c / 256, c % 256);
    TurnToReply(buf, tx);
  }

  ghost predicate ForUs(b: seq<byte>, at: nat, ip: Ip)
    requires at + 35 <= |b|
  {
    b[at + 34] == 8 && b[at + 30..at + 34] == ip
  }

  /** icmp_process_received: an echo request to our address is answered, anything else leaves the
      buffer alone. */
  method ProcessReceived(buf: Buffer, rx: nat, tx: nat, mac: Mac, ip: Ip) returns (answered: bool, n: nat)
    requires buf.Valid() && rx + 35 <= |buf.bytes|
    requires ForUs(buf.bytes, rx, ip) ==>
               var n := FrameLength(buf.bytes, rx);
               && rx + n <= |buf.bytes| && tx + n <= |buf.bytes| && tx + 38 <= |buf.bytes|
               && (rx == tx || Apart(rx, tx, n))
    modifies buf, buf.words
    ensures buf.Valid() && answered == old(ForUs(buf.bytes, rx, ip))
    ensures !answered ==> buf.bytes == old(buf.bytes)
    ensures answered ==>
              n == old(FrameLength(buf.bytes, rx)) && IsReply(Copied(old(buf.bytes), rx, tx, n), buf.bytes, tx, mac, ip)
  {
    answered, n := false, 0;
    var t := buf.IordByte(rx + 34);
    if t == 0x08 {
      var a := buf.IordByte(rx + 30);
      var b := buf.IordByte(rx + 31);
      var c := buf.IordByte(rx + 32);
      var d := buf.IordByte(rx + 33);
      assert buf.bytes[rx + 30..rx + 34] == [a, b, c, d];
      if a == ip[0] && b == ip[1] && c == ip[2] && d == ip[3] {
        assert ip == [a, b, c, d];
        answered := true;
        n := BuildPingReply(buf, rx, tx, mac, ip);
      }
    }
  }

  /** A valid echo request of n message bytes at `at`, addressed to ip. */
  ghost predicate EchoRequest(b: seq<byte>, at: nat, ip: Ip, n: nat) {
    && n >= 8 && at + 34 + n <= |b| && Half(b, at + 16) == 20 + n
    && b[at + 30..at + 34] == ip && b[at + 34] == 8
    && Good(IpSum(b, at)) && Good(IcmpSum(b, at, n))
  }

  lemma SameSum(b: seq<byte>, rx: nat, c: seq<byte>, tx: nat, len: nat, from: nat, n: nat)
    requires Same(b, rx, c, tx, len) && from + 2 * n <= len
    ensures Sum(c, tx + from, n) == Sum(b, rx + from, n)
  {
    SameSlice(b, rx, c, tx, len, from, from + 2 * n);
    assert tx + from + 2 * n == tx + (from + 2 * n) && rx + from + 2 * n == rx + (from + 2 * n);
    SumSame(c, tx + from, b, rx + from, n);
  }

  lemma SameIcmpSum(b: seq<byte>, rx: nat, c: seq<byte>, tx: nat, n: nat)
    requires Same(b, rx, c, tx, 34 + n)
    ensures IcmpSum(c, tx, n) == IcmpSum(b, rx, n)
  {
    SameSum(b, rx, c, tx, 34 + n, 34, n / 2);
    if n % 2 == 1 { SameByte(b, rx, c, tx, 34 + n, 34 + n - 1); }
  }

  lemma RequestCopied(b: seq<byte>, rx: nat, c: seq<byte>, tx: nat, ip: Ip, n: nat)
    requires EchoRequest(b, rx, ip, n) && Same(b, rx, c, tx, 34 + n)
    ensures EchoRequest(c, tx, ip, n)
  {
    SameSum(b, rx, c, tx, 34 + n, 14, 10);
    SameIcmpSum(b, rx, c, tx, n);
    SameSlice(b, rx, c, tx, 34 + n, 30, 34);
    SameHalf(b, rx, c, tx, 34 + n, 16);
    SameByte(b, rx, c, tx, 34 + n, 34);
  }

  lemma ReplyChecksums(c: seq<byte>, b': seq<byte>, tx: nat, mac: Mac, ip: Ip, n: nat)
    requires EchoRequest(c, tx, ip, n) && IsReply(c, b', tx, mac, ip)
    ensures Good(IpSum(b', tx)) && (Good(IcmpSum(b', tx, n)) <==> Half(c, tx + 36) <= 0xF7FF)
  {
    IpSumKept(c, b', tx, mac, ip);
    ReplyValidIff(c, b', tx, mac, ip, n);
  }

  /** The answer to a valid request, in place or elsewhere: back to the sender, with a good IPv4
      header, and with a good ICMP checksum exactly when the received one is at most 0xF7FF. */
  lemma PingAnswered(b: seq<byte>, b': seq<byte>, rx: nat, tx: nat, mac: Mac, ip: Ip, n: nat)
    requires EchoRequest(b, rx, ip, n) && tx + 34 + n <= |b|
    requires IsReply(Copied(b, rx, tx, 34 + n), b', tx, mac, ip)
    ensures b'[tx..tx + 6] == b[rx + 6..rx + 12] && b'[tx + 30..tx + 34] == b[rx + 26..rx + 30]
    ensures Good(IpSum(b', tx)) && (Good(IcmpSum(b', tx, n)) <==> Half(b, rx + 36) <= 0xF7FF)
  {
    PingAnsweredFrom(b, Copied(b, rx, tx, 34 + n), b', rx, tx, mac, ip, n);
  }

  lemma PingAnsweredFrom(b: seq<byte>, c: seq<byte>, b': seq<byte>, rx: nat, tx: nat, mac: Mac, ip: Ip, n: nat)
    requires EchoRequest(b, rx, ip, n) && Same(b, rx, c, tx, 34 + n) && IsReply(c, b', tx, mac, ip) && |c| == |b|
    ensures b'[tx..tx + 6] == b[rx + 6..rx + 12] && b'[tx + 30..tx + 34] == b[rx + 26..rx + 30]
    ensures Good(IpSum(b', tx)) && (Good(IcmpSum(b', tx, n)) <==> Half(b, rx + 36) <= 0xF7FF)
  {
    RequestCopied(b, rx, c, tx, ip, n);
    SameSlice(b, rx, c, tx, 34 + n, 6, 12);
    SameSlice(b, rx, c, tx, 34 + n, 26, 30);
    SameHalf(b, rx, c, tx, 34 + n, 36);
    ReplyChecksums(c, b', tx, mac, ip, n);
  }
}
