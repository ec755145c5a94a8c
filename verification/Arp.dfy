/**
  ARP requests and replies (c/ethlib/arp.c) and the exchange that fills the
  table.
 */
module Arp {
  import opened Bytes
  import opened EthBuffer
  import opened EthFrames
  import opened ArpTable

  const BROADCAST: Mac := [0xFF, 0xFF, 0xFF, 0xFF, 0xFF, 0xFF]
  const ZERO: Mac := [0, 0, 0, 0, 0, 0]

  /** b' is b with an ARP request at `at`. */
  ghost predicate IsRequest(b: seq<byte>, b': seq<byte>, at: nat, mac: Mac, ip: Ip, target: Ip) {
    && at + 42 <= |b| == |b'| && b'[..at] == b[..at] && b'[at + 42..] == b[at + 42..]
    && b'[at..at + 6] == BROADCAST && b'[at + 6..at + 12] == mac
    && b'[at + 12..at + 16] == [0x08, 0x06, 0x00, 0x01] && b'[at + 16..at + 20] == [0x08, 0x00, 0x06, 0x04]
    && b'[at + 20] == 0 && b'[at + 21] == 1
    && b'[at + 22..at + 28] == mac && b'[at + 28..at + 32] == ip
    && b'[at + 32..at + 38] == ZERO && b'[at + 38..at + 42] == target
  }

  /** b' is b with the request at `at` turned into the reply of a node. */
  ghost predicate IsReply(b: seq<byte>, b': seq<byte>, at: nat, mac: Mac, ip: Ip) {
    && at + 42 <= |b| == |b'| && b'[..at] == b[..at] && b'[at + 42..] == b[at + 42..]
    && b'[at..at + 6] == b[at + 6..at + 12] && b'[at + 6..at + 12] == mac
    && b'[at + 12..at + 21] == b[at + 12..at + 21] && b'[at + 21] == 2
    && b'[at + 22..at + 28] == mac && b'[at + 28..at + 32] == ip
    && b'[at + 32..at + 38] == b[at + 22..at + 28] && b'[at + 38..at + 42] == b[at + 28..at + 32]
  }

  // ---- Building ---------------------------------------------------------

  /** The MAC loop of arp_build_request after i rounds. */
  ghost function MacRounds(b: seq<byte>, tx: nat, mac: Mac, i: nat): (r: seq<byte>)
    requires i <= 6 && tx + 42 <= |b|
    ensures |r| == |b|
  {
    if i == 0 then b
    else
      var c, k := MacRounds(b, tx, mac, i - 1), i - 1;
      c[tx + k := 0xFF][tx + 6 + k := mac[k]][tx + 22 + k := mac[k]][tx + 32 + k := 0]
  }

  ghost function MacByte(b: seq<byte>, tx: nat, mac: Mac, i: nat, k: nat): byte
    requires i <= 6 && k < |b|
  {
    if tx <= k < tx + i then 0xFF
    else if tx + 6 <= k < tx + 6 + i then mac[k - tx - 6]
    else if tx + 22 <= k < tx + 22 + i then mac[k - tx - 22]
    else if tx + 32 <= k < tx + 32 + i then 0
    else b[k]
  }

  lemma {:induction false} MacRoundsAt(b: seq<byte>, tx: nat, mac: Mac, i: nat, k: nat)
    requires i <= 6 && tx + 42 <= |b| && k < |b|
    ensures MacRounds(b, tx, mac, i)[k] == MacByte(b, tx, mac, i, k)
    decreases i
  {
    if i > 0 { MacRoundsAt(b, tx, mac, i - 1, k); }
  }

  /** The IP loop of arp_build_request after i rounds. */
  ghost function IpRounds(b: seq<byte>, tx: nat, ip: Ip, target: Ip, i: nat): (r: seq<byte>)
    requires i <= 4 && tx + 42 <= |b|
    ensures |r| == |b|
  {
    if i == 0 then b
    else
      var c, k := IpRounds(b, tx, ip, target, i - 1), i - 1;
      c[tx + 28 + k := ip[k]][tx + 38 + k := target[k]]
  }

  ghost function IpByte(b: seq<byte>, tx: nat, ip: Ip, target: Ip, i: nat, k: nat): byte
    requires i <= 4 && k < |b|
  {
    if tx + 28 <= k < tx + 28 + i then ip[k - tx - 28]
    else if tx + 38 <= k < tx + 38 + i then target[k - tx - 38]
    else b[k]
  }

  lemma {:induction false} IpRoundsAt(b: seq<byte>, tx: nat, ip: Ip, target: Ip, i: nat, k: nat)
    requires i <= 4 && tx + 42 <= |b| && k < |b|
    ensures IpRounds(b, tx, ip, target, i)[k] == IpByte(b, tx, ip, target, i, k)
    decreases i
  {
    if i > 0 { IpRoundsAt(b, tx, ip, target, i - 1, k); }
  }

  method WriteMacs(buf: Buffer, tx: nat, mac: Mac)
    requires Frame(buf, tx, 42)
    modifies buf, buf.words
    ensures buf.Valid() && |buf.bytes| == old(|buf.bytes|)
    ensures forall k :: 0 <= k < |buf.bytes| ==> buf.bytes[k] == MacByte(old(buf.bytes), tx, mac, 6, k)
  {
    ghost var b := buf.bytes;
    for i := 0 to 6
      invariant buf.Valid() && buf.bytes == MacRounds(b, tx, mac, i)
    {
      buf.IowrByte(tx + i, 0xFF);
      buf.IowrByte(tx + 6 + i, mac[i]);
      buf.IowrByte(tx + 22 + i, mac[i]);
      buf.IowrByte(tx + 32 + i, 0x00);
    }
    forall k | 0 <= k < |b| ensures buf.bytes[k] == MacByte(b, tx, mac, 6, k) { MacRoundsAt(b, tx, mac, 6, k); }
  }

  method WriteIps(buf: Buffer, tx: nat, ip: Ip, target: Ip)
    requires Frame(buf, tx, 42)
    modifies buf, buf.words
    ensures buf.Valid() && |buf.bytes| == old(|buf.bytes|)
    ensures forall k :: 0 <= k < |buf.bytes| ==> buf.bytes[k] == IpByte(old(buf.bytes), tx, ip, target, 4, k)
  {
    ghost var b := buf.bytes;
    for i := 0 to 4
      invariant buf.Valid() && buf.bytes == IpRounds(b, tx, ip, target, i)
    {
      buf.IowrByte(tx + 28 + i, ip[i]);
      buf.IowrByte(tx + 38 + i, target[i]);
    }
    forall k | 0 <= k < |b| ensures buf.bytes[k] == IpByte(b, tx, ip, target, 4, k) { IpRoundsAt(b, tx, ip, target, 4, k); }
  }

  /** Type words and operation. */
  method WriteTypes(buf: Buffer, tx: nat)
    requires Frame(buf, tx, 42)
    modifies buf, buf.words
    ensures buf.Valid() && buf.bytes == Splice(old(buf.bytes), tx + 12, TYPES)
  {
    ghost var b := buf.bytes;
    WriteQuad(buf, tx + 12, 0x08, 0x06, 0x00, 0x01);
    WriteQuad(buf, tx + 16, 0x08, 0x00, 0x06, 0x04);
    buf.IowrByte(tx + 20, 0x00);
    buf.IowrByte(tx + 21, 0x01);
  }

  const TYPES: seq<byte> := [0x08, 0x06, 0x00, 0x01, 0x08, 0x00, 0x06, 0x04, 0, 1]

  lemma RequestBytes(b: seq<byte>, b1: seq<byte>, b2: seq<byte>, at: nat, mac: Mac, ip: Ip, target: Ip)
    requires at + 42 <= |b| == |b1| == |b2|
    requires forall k :: 0 <= k < |b| ==> b1[k] == MacByte(b, at, mac, 6, k)
    requires forall k :: 0 <= k < |b| ==> b2[k] == IpByte(b1, at, ip, target, 4, k)
    ensures IsRequest(b, Splice(b2, at + 12, TYPES), at, mac, ip, target)
  {
    var r := Splice(b2, at + 12, TYPES);
    assert r[..at] == b[..at] && r[at + 42..] == b[at + 42..];
    assert r[at..at + 6] == BROADCAST && r[at + 6..at + 12] == mac;
    assert r[at + 22..at + 28] == mac && r[at + 28..at + 32] == ip;
    assert r[at + 32..at + 38] == ZERO && r[at + 38..at + 42] == target;
    SubSlice(r, at + 12, 10, 0, 4);
    SubSlice(r, at + 12, 10, 4, 8);
    SpliceRead(b2, at + 12, TYPES, 8);
    SpliceRead(b2, at + 12, TYPES, 9);
  }

  /** arp_build_request */
  method BuildRequest(buf: Buffer, tx: nat, mac: Mac, ip: Ip, target: Ip) returns (n: nat)
    requires Frame(buf, tx, 42)
    modifies buf, buf.words
    ensures buf.Valid() && IsRequest(old(buf.bytes), buf.bytes, tx, mac, ip, target) && n == 42
  {
    ghost var b := buf.bytes;
    WriteMacs(buf, tx, mac);
    ghost var b1 := buf.bytes;
    WriteIps(buf, tx, ip, target);
    RequestBytes(b, b1, buf.bytes, tx, mac, ip, target);
    WriteTypes(buf, tx);
    n := 42;
  }

  lemma ReplyBytes(b: seq<byte>, b1: seq<byte>, b2: seq<byte>, b3: seq<byte>, at: nat, mac: Mac, ip: Ip)
    requires at + 42 <= |b| && Swapped(b, b1, at, at + 6, mac)
    requires Swapped(b1[at + 21 := 2], b2, at + 32, at + 22, mac) && Swapped(b2, b3, at + 38, at + 28, ip)
    ensures IsReply(b, b3, at, mac, ip)
  {
    assert b1[at + 21 := 2][at + 22..at + 28] == b[at + 22..at + 28];
    assert b3[at + 32..at + 38] == b2[at + 32..at + 38];
    assert b2[at + 28..at + 32] == b[at + 28..at + 32];
  }

  /** arp_build_reply */
  method BuildReply(buf: Buffer, rx: nat, tx: nat, mac: Mac, ip: Ip) returns (n: nat)
    requires buf.Valid() && rx + 42 <= |buf.bytes| && tx + 42 <= |buf.bytes| && (rx == tx || Apart(rx, tx, 42))
    modifies buf, buf.words
    ensures buf.Valid() && IsReply(Copied(old(buf.bytes), rx, tx, 42), buf.bytes, tx, mac, ip) && n == 42
  {
    CopyFrame(buf, rx, tx, 42);
    ghost var b := buf.bytes;
    SwapIn(buf, tx, tx + 6, mac);
    ghost var b1 := buf.bytes;
    buf.IowrByte(tx + 21, 2);
    SwapIn(buf, tx + 32, tx + 22, mac);
    ghost var b2 := buf.bytes;
    SwapIn(buf, tx + 38, tx + 28, ip);
    ReplyBytes(b, b1, b2, buf.bytes, tx, mac, ip);
    n := 42;
  }

  // ---- Receiving --------------------------------------------------------

  /** What a node does with a received ARP frame: nothing, reply, or learn the sender. */
  ghost function Verdict(b: seq<byte>, rx: nat, mac: Mac, ip: Ip): nat
    requires rx + 42 <= |b|
  {
    if b[rx + 38..rx + 42] != ip then 0
    else if b[rx + 21] == 1 then 1
    else if b[rx + 21] == 2 && b[rx + 32..rx + 38] == mac then 2
    else 0
  }

  /** The field getters. */
  method GetField(buf: Buffer, at: nat, n: nat) returns (f: seq<byte>)
    requires buf.Valid() && at + n <= |buf.bytes|
    ensures f == buf.bytes[at..at + n]
  {
    f := [];
    for i := 0 to n
      invariant f == buf.bytes[at..at + i]
    {
      var v := buf.IordByte(at + i);
      f := f + [v];
    }
  }

  /** arp_process_received */
  method ProcessReceived(buf: Buffer, rx: nat, tx: nat, mac: Mac, ip: Ip, table: Table) returns (code: nat)
    requires buf.Valid() && table.Valid() && rx + 42 <= |buf.bytes|
    requires Verdict(buf.bytes, rx, mac, ip) == 1 ==> tx + 42 <= |buf.bytes| && (rx == tx || Apart(rx, tx, 42))
    modifies buf, buf.words, table.entries
    ensures buf.Valid() && code == old(Verdict(buf.bytes, rx, mac, ip))
    ensures code == 1 ==> IsReply(Copied(old(buf.bytes), rx, tx, 42), buf.bytes, tx, mac, ip)
    ensures code != 1 ==> buf.bytes == old(buf.bytes)
    ensures code == 2 ==>
              table.entries[..] == Inserted(old(table.entries[..]), old(buf.bytes[rx + 28..rx + 32]), old(buf.bytes[rx + 22..rx + 28]))
    ensures code != 2 ==> table.entries[..] == old(table.entries[..])
  {
    code := 0;
    var target := GetField(buf, rx + 38, 4);
    if target == ip {
      var op := buf.IordByte(rx + 21);
      if op == 0x01 {
        var _ := BuildReply(buf, rx, tx, mac, ip);
        return 1;
      } else if op == 0x02 {
        var targetMac := GetField(buf, rx + 32, 6);
        if targetMac == mac {
          var senderIp := GetField(buf, rx + 28, 4);
          var senderMac := GetField(buf, rx + 22, 6);
          table.NewEntry(senderIp, senderMac);
          return 2;
        }
      }
    }
  }

  // ---- The exchange -----------------------------------------------------

  /** A request for an address makes its owner reply. */
  lemma RequestAnswered(b: seq<byte>, b': seq<byte>, tx: nat, c: seq<byte>, rx: nat, mac: Mac, ip: Ip, target: Ip, owner: Mac)
    requires IsRequest(b, b', tx, mac, ip, target) && Same(b', tx, c, rx, 42)
    ensures Classify(c[rx..]) == ARP && Verdict(c, rx, owner, target) == 1
    ensures c[rx + 22..rx + 28] == mac && c[rx + 28..rx + 32] == ip
  {
    SameSlice(b', tx, c, rx, 42, 38, 42);
    SameSlice(b', tx, c, rx, 42, 22, 28);
    SameSlice(b', tx, c, rx, 42, 28, 32);
    SameByte(b', tx, c, rx, 42, 21);
    SameByte(b', tx, c, rx, 42, 12);
    SameByte(b', tx, c, rx, 42, 13);
    assert b'[tx + 12..tx + 16][0] == 0x08 && b'[tx + 12..tx + 16][1] == 0x06;
  }

  /** The reply makes the requester learn the owner's address. */
  lemma ReplyLearned(b: seq<byte>, b': seq<byte>, tx: nat, c: seq<byte>, rx: nat, mac: Mac, ip: Ip, owner: Mac, target: Ip)
    requires IsReply(b, b', tx, owner, target) && b[tx + 22..tx + 28] == mac && b[tx + 28..tx + 32] == ip
    requires Same(b', tx, c, rx, 42)
    ensures Verdict(c, rx, mac, ip) == 2 && c[rx + 28..rx + 32] == target && c[rx + 22..rx + 28] == owner
  {
    SameSlice(b', tx, c, rx, 42, 38, 42);
    SameSlice(b', tx, c, rx, 42, 32, 38);
    SameSlice(b', tx, c, rx, 42, 28, 32);
    SameSlice(b', tx, c, rx, 42, 22, 28);
    SameByte(b', tx, c, rx, 42, 21);
  }

  /** Request at the requester (a0 to a1), reception by the owner (o0), its reply (o1), reception by
      the requester (a2): whatever its table held, it now maps the address to the owner. */
  lemma Exchange(a0: seq<byte>, a1: seq<byte>, aTx: nat, o0: seq<byte>, oRx: nat, oTx: nat, o1: seq<byte>,
                 a2: seq<byte>, aRx: nat, mac: Mac, ip: Ip, owner: Mac, target: Ip, t: seq<Entry>)
    requires IsRequest(a0, a1, aTx, mac, ip, target) && Same(a1, aTx, o0, oRx, 42) && oTx + 42 <= |o0|
    requires IsReply(Copied(o0, oRx, oTx, 42), o1, oTx, owner, target) && Same(o1, oTx, a2, aRx, 42)
    requires Unique(t) && |t| > 0
    ensures Verdict(o0, oRx, owner, target) == 1 && Verdict(a2, aRx, mac, ip) == 2
    ensures var r := Inserted(t, a2[aRx + 28..aRx + 32], a2[aRx + 22..aRx + 28]);
            Lookup(r, target) == Some(owner) && Unique(r)
  {
    RequestAnswered(a0, a1, aTx, o0, oRx, mac, ip, target, owner);
    OwnerCopies(o0, oRx, oTx, Copied(o0, oRx, oTx, 42), mac, ip);
    ReplyLearned(Copied(o0, oRx, oTx, 42), o1, oTx, a2, aRx, mac, ip, owner, target);
    InsertMeans(t, target, owner);
  }

  lemma OwnerCopies(o: seq<byte>, rx: nat, tx: nat, c: seq<byte>, mac: Mac, ip: Ip)
    requires Same(o, rx, c, tx, 42) && o[rx + 22..rx + 28] == mac && o[rx + 28..rx + 32] == ip
    ensures c[tx + 22..tx + 28] == mac && c[tx + 28..tx + 32] == ip
  {
    SameSlice(o, rx, c, tx, 42, 22, 28);
    SameSlice(o, rx, c, tx, 42, 28, 32);
  }
}
