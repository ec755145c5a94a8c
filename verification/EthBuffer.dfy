/**
  The receive/transmit buffer of the Ethernet controller
  (c/ethlib/eth_patmos_io.c): an array of 32-bit words behaves as the big-endian
  byte string that every layer above reads and writes.
 */
module EthBuffer {
  import opened Arith
  import opened Bytes

  function Quad(a: byte, b: byte, c: byte, d: byte): nat { a * 0x100_0000 + b * 0x1_0000 + c * 0x100 + d }

  function Pair(a: byte, b: byte): nat { a * 0x100 + b }

  /** The 32-bit word at byte address k. */
  function Word(b: seq<byte>, k: nat): nat
    requires k + 4 <= |b|
  {
    Quad(b[k], b[k + 1], b[k + 2], b[k + 3])
  }

  /** The 16-bit word at byte address k. */
  function Half(b: seq<byte>, k: nat): nat
    requires k + 2 <= |b|
  {
    Pair(b[k], b[k + 1])
  }

  /** `chunk` written over b from position `at` on. */
  ghost function Splice(b: seq<byte>, at: nat, chunk: seq<byte>): (r: seq<byte>)
    requires at + |chunk| <= |b|
    ensures |r| == |b| && r[at..at + |chunk|] == chunk
    ensures forall k :: 0 <= k < |b| && !(at <= k < at + |chunk|) ==> r[k] == b[k]
  {
    b[..at] + chunk + b[at + |chunk|..]
  }

  lemma SpliceRead(b: seq<byte>, at: nat, chunk: seq<byte>, k: nat)
    requires at + |chunk| <= |b| && k < |chunk|
    ensures Splice(b, at, chunk)[at + k] == chunk[k]
  {
  }

  /** Writes next to each other are one write. */
  lemma SpliceNext(b: seq<byte>, at: nat, x: seq<byte>, y: seq<byte>)
    requires at + |x| + |y| <= |b|
    ensures Splice(Splice(b, at, x), at + |x|, y) == Splice(b, at, x + y)
  {
  }

  lemma SpliceByte(b: seq<byte>, at: nat, v: byte)
    requires at < |b|
    ensures b[at := v] == Splice(b, at, [v])
  {
  }

  lemma SubSlice(b: seq<byte>, at: nat, len: nat, i: nat, j: nat)
    requires i <= j <= len && at + len <= |b|
    ensures b[at..at + len][i..j] == b[at + i..at + j]
  {
    var x, y := b[at..at + len][i..j], b[at + i..at + j];
    assert |x| == |y|;
    assert forall k :: 0 <= k < |x| ==> x[k] == y[k];
  }

  /** c holds at tx the len bytes that b holds at rx. */
  ghost predicate Same(b: seq<byte>, rx: nat, c: seq<byte>, tx: nat, len: nat) {
    rx + len <= |b| && tx + len <= |c| && c[tx..tx + len] == b[rx..rx + len]
  }

  lemma SameSlice(b: seq<byte>, rx: nat, c: seq<byte>, tx: nat, len: nat, i: nat, j: nat)
    requires Same(b, rx, c, tx, len) && i <= j <= len
    ensures c[tx + i..tx + j] == b[rx + i..rx + j]
  {
    SubSlice(b, rx, len, i, j);
    SubSlice(c, tx, len, i, j);
  }

  lemma SameByte(b: seq<byte>, rx: nat, c: seq<byte>, tx: nat, len: nat, k: nat)
    requires Same(b, rx, c, tx, len) && k < len
    ensures c[tx + k] == b[rx + k]
  {
    assert c[tx..tx + len][k] == b[rx..rx + len][k];
  }

  lemma SameHalf(b: seq<byte>, rx: nat, c: seq<byte>, tx: nat, len: nat, k: nat)
    requires Same(b, rx, c, tx, len) && k + 2 <= len
    ensures Half(c, tx + k) == Half(b, rx + k)
  {
    SameByte(b, rx, c, tx, len, k);
    SameByte(b, rx, c, tx, len, k + 1);
  }

  /** Weight of the byte at an address within its word: 2 to the power of the shift factor. */
  function Weight(addr: nat): nat {
    if addr % 4 == 0 then 0x100_0000 else if addr % 4 == 1 then 0x1_0000 else if addr % 4 == 2 then 0x100 else 1
  }

  lemma QuadBytes(a: byte, b: byte, c: byte, d: byte)
    ensures var w := Quad(a, b, c, d);
            w / 0x100_0000 == a && w / 0x1_0000 % 256 == b && w / 0x100 % 256 == c && w % 256 == d && w < U32
  {
    var w := Quad(a, b, c, d);
    var ab, abc := Pair(a, b), Pair(a, b) * 256 + c;
    DivideBy(w, a, b * 0x1_0000 + c * 0x100 + d, 0x100_0000);
    DivideBy(w, ab, c * 0x100 + d, 0x1_0000);
    DivideBy(w, abc, d, 0x100);
    DivideBy(ab, a, b, 0x100);
    DivideBy(abc, ab, c, 0x100);
  }

  lemma ByteOfWord(b: seq<byte>, addr: nat)
    requires addr / 4 * 4 + 4 <= |b|
    ensures addr < |b| && Word(b, addr / 4 * 4) / Weight(addr) % 256 == b[addr]
  {
    var k := addr / 4 * 4;
    QuadBytes(b[k], b[k + 1], b[k + 2], b[k + 3]);
    assert addr == k + addr % 4;
  }

  lemma WordWithByte(b: seq<byte>, addr: nat, v: byte)
    requires addr / 4 * 4 + 4 <= |b|
    ensures addr < |b| && Word(b[addr := v], addr / 4 * 4) == Word(b, addr / 4 * 4) - b[addr] * Weight(addr) + v * Weight(addr)
  {
    assert addr == addr / 4 * 4 + addr % 4;
  }

  /** Four bytes of a word. */
  ghost function Split(w: nat): (r: seq<byte>)
    requires w < U32
    ensures |r| == 4 && Word(r, 0) == w
  {
    [w / 256 / 256 / 256, w / 256 / 256 % 256, w / 256 % 256, w % 256]
  }

  lemma SplitQuad(a: byte, b: byte, c: byte, d: byte)
    ensures Quad(a, b, c, d) < U32 && Split(Quad(a, b, c, d)) == [a, b, c, d]
  {
    var ab, abc := Pair(a, b), Pair(a, b) * 256 + c;
    DivideBy(Quad(a, b, c, d), abc, d, 256);
    DivideBy(abc, ab, c, 256);
    DivideBy(ab, a, b, 256);
  }

  class Buffer {
    const words: array<nat>
    ghost var bytes: seq<byte>

    ghost predicate Valid()
      reads this, words
    {
      |bytes| == 4 * words.Length && forall k :: 0 <= k < words.Length ==> words[k] == Word(bytes, 4 * k)
    }

    constructor (size: nat)
      ensures Valid() && fresh(words) && bytes == seq(4 * size, _ => 0)
    {
      words := new nat[size](_ => 0);
      bytes := seq(4 * size, _ => 0);
    }

    /** mem_iord: the two low address bits do not count. */
    method Iord(addr: nat) returns (w: nat)
      requires Valid() && addr < |bytes|
      ensures w == Word(bytes, addr / 4 * 4)
    {
      w := words[addr / 4];
    }

    method IordByte(addr: nat) returns (b: byte)
      requires Valid() && addr < |bytes|
      ensures b == bytes[addr]
    {
      ByteOfWord(bytes, addr);
      b := words[addr / 4] / Weight(addr) % 256;
    }

    method Iowr(addr: nat, data: nat)
      requires Valid() && addr < |bytes| && data < U32
      modifies this, words
      ensures Valid() && bytes == Splice(old(bytes), addr / 4 * 4, Split(data))
    {
      words[addr / 4] := data;
      bytes := Splice(bytes, addr / 4 * 4, Split(data));
      assert Word(bytes[addr / 4 * 4..addr / 4 * 4 + 4], 0) == data;
    }

    /** mem_iowr_byte: mask the old byte out of the word and add the new one. */
    method IowrByte(addr: nat, data: nat)
      requires Valid() && addr < |bytes|
      modifies this, words
      ensures Valid() && bytes == old(bytes)[addr := data % 256]
    {
      ByteOfWord(bytes, addr);
      WordWithByte(bytes, addr, data % 256);
      var previous := words[addr / 4];
      var masked := previous - previous / Weight(addr) % 256 * Weight(addr);
      words[addr / 4] := masked + data % 256 * Weight(addr);
      bytes := bytes[addr := data % 256];
    }
  }
}
