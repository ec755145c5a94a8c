/** The pull-based decoder over its ring (c/bootloader/decompress.c), proved against the one-pass decoder. */
module Decompress {
  import opened Arith
  import opened Bytes
  import opened Lzss

  /** The ring holds the latest N bytes of the history. */
  ghost predicate Ring(buf: seq<byte>, hist: seq<byte>) {
    && |buf| == N <= |hist|
    && forall h :: |hist| - N <= h < |hist| ==> buf[Slot(h)] == hist[h]
  }

  lemma RingPush(buf: seq<byte>, hist: seq<byte>, c: byte)
    requires Ring(buf, hist)
    ensures Ring(buf[Slot(|hist|) := c], hist + [c])
  {
    var n, buf', hist' := |hist|, buf[Slot(|hist|) := c], hist + [c];
    forall h | n + 1 - N <= h < n + 1 ensures buf'[Slot(h)] == hist'[h] {
      if h < n {
        SlotsDiffer(h, n);
        assert buf[Slot(h)] == hist[h];
      }
    }
  }

  lemma SlotsDiffer(h: nat, n: nat)
    requires h < n < h + N
    ensures Slot(h) != Slot(n)
  {
    var x, d := N - F + h, n - h;
    var q, r := x / N, x % N;
    if r + d < N {
      DivideBy(x + d, q, r + d, N);
    } else {
      DivideBy(x + d, q + 1, r + d - N, N);
    }
  }

  /** Before a flag byte runs out, its unused bits sit under a run of ones that marks how many are left. */
  ghost predicate FlagState(flags: nat, left: nat, bits: nat) {
    && left < 8 && bits < Pow2(left)
    && (if left == 0 then flags / 2 / 256 % 2 == 0 else flags / 2 == bits + 255 * Pow2(left))
  }

  lemma FlagShift(flags: nat, left: nat, bits: nat)
    requires FlagState(flags, left, bits) && 0 < left
    ensures flags / 2 / 256 % 2 == 1 && flags / 2 % 2 == bits % 2
    ensures FlagState(flags / 2, left - 1, bits / 2)
  {
    var p := Pow2(left - 1);
    Pow2Grows(left, 8);
    Pow2Grows(left - 1, 6);
    assert Pow2(6) == 64 by { Pow2Grows(0, 0); assert Pow2(8) == 2 * Pow2(7) == 4 * Pow2(6); }
    ShiftArith(flags / 2, bits, p);
  }

  lemma ShiftArith(g: nat, bits: nat, p: nat)
    requires g == bits + 510 * p && bits < 2 * p && 0 < p <= 64
    ensures g / 256 % 2 == 1 && g % 2 == bits % 2 && g / 2 == bits / 2 + 255 * p && bits / 2 < p
    ensures p == 1 ==> g / 2 / 2 / 256 % 2 == 0
  {
    assert g / 256 == 2 * p - 1;
  }

  lemma FlagLoad(c: byte)
    ensures FlagState(c + 0xFF00, 7, c / 2) && (c + 0xFF00) % 2 == c % 2
  {
    Pow2Grows(0, 0);
    assert Pow2(8) == 2 * Pow2(7);
  }

  /** Where the stream stands after its next token. */
  datatype Step = Step(token: Token, uart: nat, left: nat, bits: nat)

  ghost function NextIn(input: seq<byte>, uart: nat, left: nat, bits: nat): Option<Step>
    requires uart <= |input| && 0 < left
  {
    if bits % 2 == 1 then
      if uart == |input| then None else Some(Step(Literal(input[uart]), uart + 1, left - 1, bits / 2))
    else if uart + 2 > |input| then None
    else Some(Step(MatchOf(input[uart], input[uart + 1]), uart + 2, left - 1, bits / 2))
  }

  /** The next complete token of the stream, if there is one. */
  ghost function Next(input: seq<byte>, uart: nat, left: nat, bits: nat): Option<Step>
    requires uart <= |input|
  {
    if 0 < left then NextIn(input, uart, left, bits)
    else if uart == |input| then None
    else NextIn(input, uart + 1, 8, input[uart])
  }

  lemma ParseNext(input: seq<byte>, uart: nat, left: nat, bits: nat)
    requires uart <= |input|
    ensures match Next(input, uart, left, bits)
            case None => Parse(input[uart..], left, bits) == []
            case Some(n) => n.uart <= |input|
                            && Parse(input[uart..], left, bits) == [n.token] + Parse(input[n.uart..], n.left, n.bits)
  {
    if 0 < left {
      ParseNextIn(input, uart, left, bits);
    } else if uart < |input| {
      assert input[uart..][1..] == input[uart + 1..];
      ParseNextIn(input, uart + 1, 8, input[uart]);
    }
  }

  lemma ParseNextIn(input: seq<byte>, uart: nat, left: nat, bits: nat)
    requires uart <= |input| && 0 < left
    ensures match NextIn(input, uart, left, bits)
            case None => Parse(input[uart..], left, bits) == []
            case Some(n) => n.uart <= |input|
                            && Parse(input[uart..], left, bits) == [n.token] + Parse(input[n.uart..], n.left, n.bits)
  {
    if uart < |input| { assert input[uart..][1..] == input[uart + 1..]; }
    if uart + 1 < |input| { assert input[uart..][2..] == input[uart + 2..]; }
  }

  /** What has been produced and what the rest of the stream yields is the whole decoding. */
  ghost predicate OnTrack(input: seq<byte>, window: seq<byte>, hist: seq<byte>, uart: nat, left: nat, bits: nat)
    requires |window| == N <= |hist| && uart <= |input|
  {
    window + Decoded(window, input) == ExpandAll(hist, Parse(input[uart..], left, bits))
  }

  lemma TrackStep(input: seq<byte>, window: seq<byte>, hist: seq<byte>, uart: nat, left: nat, bits: nat)
    requires |window| == N <= |hist| && uart <= |input| && OnTrack(input, window, hist, uart, left, bits)
    ensures match Next(input, uart, left, bits)
            case None => hist == window + Decoded(window, input)
            case Some(n) => n.uart <= |input| && OnTrack(input, window, Expand(hist, n.token), n.uart, n.left, n.bits)
  {
    ParseNext(input, uart, left, bits);
    match Next(input, uart, left, bits)
    case None =>
    case Some(n) =>
      var ts := Parse(input[n.uart..], n.left, n.bits);
      assert ([n.token] + ts)[1..] == ts;
  }

  class Decompressor {
    const input: seq<byte>
    var uart: nat
    const textBuf: array<byte>
    var writePos: nat
    var readPos: nat
    var flags: nat
    ghost const window: seq<byte>
    ghost var ring: seq<byte>
    ghost var hist: seq<byte>
    ghost var returned: nat
    ghost var left: nat
    ghost var bits: nat

    /** Ring and positions agree with the history; pending bytes never exceed one
        match, so equal positions always mean an empty ring. */
    ghost predicate Buffered()
      reads this, textBuf
    {
      && textBuf.Length == N && |window| == N
      && textBuf[..] == ring && Ring(ring, hist)
      && writePos == Slot(|hist|)
      && readPos == Slot(returned) && returned <= |hist| - N <= returned + F
    }

    ghost predicate Valid()
      reads this, textBuf
    {
      Buffered() && uart <= |input| && FlagState(flags, left, bits)
    }

    /** decompress_init; bytes beyond N - F keep what the static buffer held. */
    constructor (input: seq<byte>, buffer: array<byte>)
      requires buffer.Length == N
      modifies buffer
      ensures Valid() && returned == 0 && this.input == input && textBuf == buffer
      ensures hist == window && uart == left == bits == 0
      ensures window == old(buffer[N - F..]) + seq(N - F, _ => 32)
    {
      this.input, uart := input, 0;
      var write := 0;
      while write < N - F
        invariant write <= N - F
        invariant forall k :: 0 <= k < write ==> buffer[k] == 32
        invariant buffer[N - F..] == old(buffer[N - F..])
      {
        buffer[write] := 32;
        write := write + 1;
      }
      textBuf, writePos, readPos, flags := buffer, write, write, 0;
      ghost var start := buffer[N - F..] + buffer[..N - F];
      ring, window, hist, returned, left, bits := buffer[..], start, start, 0, 0, 0;
      assert buffer[..N - F] == seq(N - F, _ => 32);
    }

    /** Append one byte to the ring. */
    method Put(c: byte)
      requires Buffered() && |hist| - N < returned + F
      modifies this`writePos, this`hist, this`ring, textBuf
      ensures Buffered() && hist == old(hist) + [c]
    {
      RingPush(ring, hist, c);
      SameSlot(|hist|);
      ghost var ring', hist' := ring[writePos := c], hist + [c];
      textBuf[writePos] := c;
      writePos := (writePos + 1) % N;
      ring, hist := ring', hist';
    }

    /** The copy loop of a match token: j + 1 bytes from ring position i on. */
    method CopyMatch(i: nat, j: nat)
      requires Buffered() && |hist| - N == returned && i < N && j < F
      modifies this`writePos, this`hist, this`ring, textBuf
      ensures Buffered() && hist == CopyBack(old(hist), Distance(|old(hist)|, i), j + 1)
    {
      var k := i;
      while k <= i + j
        invariant i <= k <= i + j + 1
        invariant Buffered() && hist == CopyBack(old(hist), Distance(|old(hist)|, i), k - i)
      {
        CopyNext(ring, old(hist), hist, i, k - i);
        var c := textBuf[k % N];
        Put(c);
        k := k + 1;
      }
    }

    /** Inside a refill: the lowest flag bit describes the next token. */
    ghost predicate TokenAhead()
      reads this, textBuf
    {
      && Buffered() && uart <= |input| && 0 < left <= 8
      && flags % 2 == bits % 2 && FlagState(flags, left - 1, bits / 2)
    }

    /** Shift the flags and reload them after eight tokens.  Waiting for a byte that
        never comes is a false result. */
    method NextFlag() returns (ok: bool)
      requires Valid()
      modifies this`flags, this`uart, this`left, this`bits
      ensures ok ==> TokenAhead() && NextIn(input, uart, left, bits) == old(Next(input, uart, left, bits))
      ensures !ok ==> old(Next(input, uart, left, bits)) == None
    {
      ghost var flags0 := flags;
      flags := flags / 2;
      if flags / 256 % 2 == 0 {
        assert left == 0 by { if left > 0 { FlagShift(flags0, left, bits); } }
        if uart == |input| { return false; }
        var c: nat := input[uart];
        FlagLoad(c);
        uart := uart + 1;
        flags := c + 0xFF00;
        left, bits := 8, c;
      } else {
        assert left > 0;
        FlagShift(flags0, left, bits);
      }
      return true;
    }

    ghost predicate At(n: Step)
      reads this
    {
      uart == n.uart && left == n.left && bits == n.bits
    }

    method TakeLiteral() returns (ok: bool)
      requires TokenAhead() && |hist| - N == returned && flags % 2 == 1
      modifies this`uart, this`left, this`bits, this`writePos, this`hist, this`ring, textBuf
      ensures match old(NextIn(input, uart, left, bits))
              case None => !ok
              case Some(n) => ok && Valid() && At(n) && hist == Expand(old(hist), n.token)
    {
      if uart == |input| { return false; }
      var c := input[uart];
      uart, left, bits := uart + 1, left - 1, bits / 2;
      Put(c);
      return true;
    }

    method TakeMatch() returns (ok: bool)
      requires TokenAhead() && |hist| - N == returned && flags % 2 == 0
      modifies this`uart, this`left, this`bits, this`writePos, this`hist, this`ring, textBuf
      ensures match old(NextIn(input, uart, left, bits))
              case None => !ok
              case Some(n) => ok && Valid() && At(n) && hist == Expand(old(hist), n.token)
    {
      if uart == |input| { return false; }
      if uart + 1 == |input| { return false; }
      var i, j := input[uart], input[uart + 1];
      uart, left, bits := uart + 2, left - 1, bits / 2;
      ExpandMatch(i, j);
      return true;
    }

    /** Position and length of a match token, then its copy loop. */
    method ExpandMatch(i: byte, j: byte)
      requires Buffered() && |hist| - N == returned
      modifies this`writePos, this`hist, this`ring, textBuf
      ensures Buffered() && hist == Expand(old(hist), MatchOf(i, j))
    {
      MatchFields(i, j);
      CopyMatch(i + 256 * (j / 64), j % 64 + THRESHOLD);
    }

    /** Decode one token into the empty ring. */
    method Refill() returns (ok: bool)
      requires Valid() && |hist| - N == returned
      modifies this`uart, this`left, this`bits, this`flags, this`writePos, this`hist, this`ring, textBuf
      ensures match old(Next(input, uart, left, bits))
              case None => !ok
              case Some(n) => ok && Valid() && At(n) && hist == Expand(old(hist), n.token)
    {
      ok := NextFlag();
      if ok {
        if flags % 2 == 1 {
          ok := TakeLiteral();
        } else {
          ok := TakeMatch();
        }
      }
    }

    /** Hand out the oldest pending byte. */
    method Take() returns (c: byte)
      requires Valid() && returned < |hist| - N
      modifies this`readPos, this`returned
      ensures Valid() && returned == old(returned) + 1 && c == hist[N + old(returned)]
    {
      SameSlot(returned);
      c := textBuf[readPos];
      assert c == ring[Slot(N + returned)];
      readPos := (readPos + 1) % N;
      returned := returned + 1;
    }

    /** decompress_get_byte: the bytes handed out one at a time are the one-pass
        decoding, and the call blocks exactly when that decoding is used up. */
    method GetByte() returns (r: Option<byte>)
      requires Valid() && OnTrack(input, window, hist, uart, left, bits)
      modifies this, textBuf
      ensures r.Some? ==>
                && Valid() && OnTrack(input, window, hist, uart, left, bits)
                && returned == old(returned) + 1 && returned <= |Decoded(window, input)|
                && r.value == Decoded(window, input)[old(returned)]
      ensures r.None? ==> old(returned) == |Decoded(window, input)|
    {
      RingEmpty(returned, |hist|);
      if readPos == writePos {
        TrackStep(input, window, hist, uart, left, bits);
        ExpandGrows(input, uart, left, bits, hist);
        var ok := Refill();
        if !ok { return None; }
      }
      var c := TakeOnTrack();
      return Some(c);
    }

    method TakeOnTrack() returns (c: byte)
      requires Valid() && OnTrack(input, window, hist, uart, left, bits) && returned < |hist| - N
      modifies this`readPos, this`returned
      ensures Valid() && returned == old(returned) + 1 && returned <= |Decoded(window, input)|
      ensures c == Decoded(window, input)[old(returned)]
    {
      TrackPrefix(input, window, hist, uart, left, bits);
      c := Take();
    }
  }

  /** Ten bits of ring position, six of length. */
  lemma MatchFields(i: byte, j: byte)
    ensures var from, count := i + 256 * (j / 64), j % 64 + THRESHOLD;
            from < N && count < F && MatchOf(i, j) == Match(from, count + 1)
  {
  }

  /** Every token of the stream adds at least one byte. */
  lemma ExpandGrows(input: seq<byte>, uart: nat, left: nat, bits: nat, hist: seq<byte>)
    requires uart <= |input| && N <= |hist|
    ensures match Next(input, uart, left, bits)
            case None => true
            case Some(n) => |hist| < |Expand(hist, n.token)|
  {
  }

  lemma TrackPrefix(input: seq<byte>, window: seq<byte>, hist: seq<byte>, uart: nat, left: nat, bits: nat)
    requires |window| == N <= |hist| && uart <= |input| && OnTrack(input, window, hist, uart, left, bits)
    ensures |hist| - N <= |Decoded(window, input)|
    ensures forall k :: 0 <= k < |hist| - N ==> hist[N + k] == Decoded(window, input)[k]
  {
    var whole := window + Decoded(window, input);
    assert hist <= whole;
    assert forall k :: 0 <= k < |hist| - N ==> whole[N + k] == Decoded(window, input)[k];
  }

  /** With at most F bytes pending, equal positions mean an empty ring. */
  lemma RingEmpty(returned: nat, size: nat)
    requires returned <= size - N <= returned + F
    ensures Slot(returned) == Slot(size) <==> returned == size - N
  {
  }

  lemma SameSlot(n: nat)
    ensures Slot(N + n) == Slot(n) && Slot(n + 1) == (Slot(n) + 1) % N
  {
    var x := N - F + n;
    var q, r := x / N, x % N;
    DivideBy(x + N, q + 1, r, N);
    if r + 1 < N {
      DivideBy(x + 1, q, r + 1, N);
    } else {
      DivideBy(x + 1, q + 1, 0, N);
    }
  }

  /** The byte under the running source position is the one the reference copies next. */
  lemma CopyNext(ring: seq<byte>, start: seq<byte>, hist: seq<byte>, i: nat, n: nat)
    requires Ring(ring, hist) && N <= |start| && i < N && hist == CopyBack(start, Distance(|start|, i), n)
    ensures hist + [ring[(i + n) % N]] == CopyBack(start, Distance(|start|, i), n + 1)
  {
    SourceSlot(|start|, i, n);
  }

  /** The source position of a copy runs along with the write position. */
  lemma SourceSlot(size: nat, i: nat, n: nat)
    requires N <= size && i < N
    ensures var dist := Distance(size, i); dist <= size + n && (i + n) % N == Slot(size + n - dist)
  {
    var q := (N - F + size - i - 1) / N;
    assert Distance(size, i) == N - F + size - i - q * N;
  }
}
