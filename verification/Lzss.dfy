/**
  The LZSS decoder of the boot loader (c/bootloader/decompress.c): a ring of
  1024 bytes that hands out one byte per call.  Its reference is a decoder over
  an unbounded history, in which a match copies from a fixed distance back.
 */
module Lzss {
  import opened Arith
  import opened Bytes

  const N: nat := 1024
  const F: nat := 66
  const THRESHOLD: nat := 2

  // ---- Reference: tokens over an unbounded history ----------------------

  /** A match names a ring position; lengths are 3 to 66. */
  datatype Token = Literal(b: byte) | Match(pos: nat, len: nat)

  ghost predicate ValidToken(t: Token) {
    t.Match? ==> t.pos < N && THRESHOLD < t.len <= F
  }

  /** Ring position of history index h; the first N entries are the initial ring. */
  ghost function Slot(h: nat): nat { (N - F + h) % N }

  /** How far back a ring position lies when `size` bytes of history exist. */
  ghost function Distance(size: nat, pos: nat): nat { (N - F + size - pos - 1) % N + 1 }

  ghost function CopyBack(hist: seq<byte>, dist: nat, len: nat): (r: seq<byte>)
    requires 0 < dist <= |hist|
    ensures |r| == |hist| + len && hist <= r
    decreases len
  {
    if len == 0 then hist
    else
      var r := CopyBack(hist, dist, len - 1);
      r + [r[|r| - dist]]
  }

  ghost function Expand(hist: seq<byte>, t: Token): (r: seq<byte>)
    requires N <= |hist|
    ensures hist <= r
  {
    match t
    case Literal(b) => hist + [b]
    case Match(pos, len) => CopyBack(hist, Distance(|hist|, pos), len)
  }

  ghost function ExpandAll(hist: seq<byte>, ts: seq<Token>): (r: seq<byte>)
    requires N <= |hist|
    ensures hist <= r
    decreases |ts|
  {
    if ts == [] then hist else ExpandAll(Expand(hist, ts[0]), ts[1..])
  }

  // ---- Stream format ----------------------------------------------------

  ghost function MatchOf(lo: byte, hi: byte): Token { Match(lo + 256 * (hi / 64), hi % 64 + THRESHOLD + 1) }

  /** Tokens of a stream: `left` of them are still described by the flag bits `f`. */
  ghost function Parse(input: seq<byte>, left: nat, f: nat): seq<Token>
    decreases |input|
  {
    if input == [] then []
    else if left == 0 then Parse(input[1..], 8, input[0])
    else if f % 2 == 1 then [Literal(input[0])] + Parse(input[1..], left - 1, f / 2)
    else if |input| == 1 then []
    else [MatchOf(input[0], input[1])] + Parse(input[2..], left - 1, f / 2)
  }

  /** One-pass decoding of a whole stream. */
  ghost function Decoded(window: seq<byte>, input: seq<byte>): seq<byte>
    requires |window| == N
  {
    ExpandAll(window, Parse(input, 0, 0))[N..]
  }

  ghost function TokenBytes(t: Token): seq<byte>
    requires ValidToken(t)
  {
    match t
    case Literal(b) => [b]
    case Match(pos, len) => [pos % 256, pos / 256 * 64 + (len - THRESHOLD - 1)]
  }

  ghost function FlagBits(ts: seq<Token>): nat {
    if ts == [] then 0 else (if ts[0].Literal? then 1 else 0) + 2 * FlagBits(ts[1..])
  }

  lemma {:induction false} FlagBitsBound(ts: seq<Token>)
    ensures FlagBits(ts) < Pow2(|ts|)
  {
    if ts != [] { FlagBitsBound(ts[1..]); }
  }

  ghost function AllBytes(ts: seq<Token>): seq<byte>
    requires forall t <- ts :: ValidToken(t)
  {
    if ts == [] then [] else TokenBytes(ts[0]) + AllBytes(ts[1..])
  }

  /** Eight tokens per flag byte, the first in the lowest bit. */
  ghost function Serialize(ts: seq<Token>): seq<byte>
    requires forall t <- ts :: ValidToken(t)
    decreases |ts|
  {
    if ts == [] then []
    else
      var n := if |ts| < 8 then |ts| else 8;
      FlagBitsBound(ts[..n]);
      Pow2Grows(n, 8);
      [FlagBits(ts[..n])] + AllBytes(ts[..n]) + Serialize(ts[n..])
  }

  // ---- Round trip -------------------------------------------------------

  lemma MatchRoundTrip(t: Token)
    requires ValidToken(t) && t.Match?
    ensures MatchOf(TokenBytes(t)[0], TokenBytes(t)[1]) == t
  {
    var q, r := t.pos / 256, t.len - THRESHOLD - 1;
    assert (q * 64 + r) / 64 == q && (q * 64 + r) % 64 == r;
  }

  lemma ConsAppend<T>(a: seq<T>, b: seq<T>)
    requires a != []
    ensures a + b == [a[0]] + (a[1..] + b)
  {
  }

  lemma ParseOne(t: Token, tail: seq<byte>, left: nat, f: nat)
    requires ValidToken(t) && 0 < left
    ensures Parse(TokenBytes(t) + tail, left, (if t.Literal? then 1 else 0) + 2 * f)
            == [t] + Parse(tail, left - 1, f)
  {
    var input := TokenBytes(t) + tail;
    if t.Literal? {
      assert input[1..] == tail;
    } else {
      assert input[2..] == tail && input[0] == TokenBytes(t)[0] && input[1] == TokenBytes(t)[1];
      MatchRoundTrip(t);
    }
  }

  lemma {:induction false} ParseGroup(ts: seq<Token>, left: nat, rest: seq<byte>)
    requires (forall t <- ts :: ValidToken(t)) && |ts| <= left && (|ts| < left ==> rest == [])
    ensures Parse(AllBytes(ts) + rest, left, FlagBits(ts)) == ts + Parse(rest, 0, 0)
    decreases |ts|
  {
    if ts == [] {
      assert AllBytes(ts) + rest == rest;
    } else {
      var tail := AllBytes(ts[1..]) + rest;
      assert AllBytes(ts) + rest == TokenBytes(ts[0]) + tail;
      ParseOne(ts[0], tail, left, FlagBits(ts[1..]));
      ParseGroup(ts[1..], left - 1, rest);
      ConsAppend(ts, Parse(rest, 0, 0));
    }
  }

  /** Serialising and parsing are inverse on every token list. */
  lemma {:induction false} ParseSerialize(ts: seq<Token>)
    requires forall t <- ts :: ValidToken(t)
    ensures Parse(Serialize(ts), 0, 0) == ts
    decreases |ts|
  {
    if ts != [] {
      var n := if |ts| < 8 then |ts| else 8;
      var input, rest := Serialize(ts), Serialize(ts[n..]);
      FlagBitsBound(ts[..n]);
      Pow2Grows(n, 8);
      assert input[1..] == AllBytes(ts[..n]) + rest;
      ParseGroup(ts[..n], 8, rest);
      ParseSerialize(ts[n..]);
      assert ts[..n] + ts[n..] == ts;
    }
  }

  /** `ts` describes the history `h` from index `at` on: every literal is the byte
      there, every match equals the bytes at its distance, overlap included. */
  ghost predicate Describes(ts: seq<Token>, h: seq<byte>, at: nat)
    requires N <= at <= |h|
    decreases |ts|
  {
    if ts == [] then at == |h|
    else match ts[0]
      case Literal(b) => at < |h| && h[at] == b && Describes(ts[1..], h, at + 1)
      case Match(pos, len) =>
        && at + len <= |h|
        && (forall m :: at <= m < at + len ==> h[m] == h[m - Distance(at, pos)])
        && Describes(ts[1..], h, at + len)
  }

  lemma {:induction false} CopyDescribed(h: seq<byte>, at: nat, dist: nat, len: nat)
    requires 0 < dist <= at && at + len <= |h|
    ensures CopyBack(h[..at], dist, len) == h[..at + len] <==> forall m :: at <= m < at + len ==> h[m] == h[m - dist]
    decreases len
  {
    if len > 0 {
      CopyDescribed(h, at, dist, len - 1);
      var r := CopyBack(h[..at], dist, len - 1);
      assert CopyBack(h[..at], dist, len)[..at + len - 1] == r;
      assert h[..at + len][..at + len - 1] == h[..at + len - 1];
    }
  }

  ghost function Size(t: Token): nat { if t.Literal? then 1 else t.len }

  /** Expanding one token yields a prefix of `h` exactly when `h` agrees with the token. */
  lemma HeadDescribed(t: Token, ts: seq<Token>, h: seq<byte>, at: nat)
    requires N <= at && at + Size(t) <= |h|
    ensures Describes([t] + ts, h, at) <==>
              Expand(h[..at], t) == h[..at + Size(t)] && Describes(ts, h, at + Size(t))
  {
    assert ([t] + ts)[1..] == ts;
    match t
    case Literal(b) => assert h[..at + 1] == h[..at] + [h[at]];
    case Match(pos, len) => CopyDescribed(h, at, Distance(at, pos), len);
  }

  /** A token list expands to a history exactly when it describes it. */
  lemma {:induction false} ExpandIffDescribes(ts: seq<Token>, h: seq<byte>, at: nat)
    requires N <= at <= |h|
    ensures ExpandAll(h[..at], ts) == h <==> Describes(ts, h, at)
    decreases |ts|
  {
    if ts == [] {
      assert h[..|h|] == h;
    } else {
      var n, e := Size(ts[0]), Expand(h[..at], ts[0]);
      assert |e| == at + n && e <= ExpandAll(h[..at], ts);
      if at + n <= |h| {
        assert ts == [ts[0]] + ts[1..];
        HeadDescribed(ts[0], ts[1..], h, at);
        if e == h[..at + n] {
          ExpandIffDescribes(ts[1..], h, at + n);
        } else {
          assert !(e <= h);
        }
      }
    }
  }

  /** Any literal/match description of a byte string decodes to that string. */
  lemma EncodingDecodes(window: seq<byte>, s: seq<byte>, ts: seq<Token>)
    requires |window| == N && (forall t <- ts :: ValidToken(t))
    ensures Decoded(window, Serialize(ts)) == s <==> Describes(ts, window + s, N)
  {
    ParseSerialize(ts);
    var h := window + s;
    assert h[..N] == window && h[N..] == s;
    ExpandIffDescribes(ts, h, N);
    var r := ExpandAll(window, ts);
    assert r == r[..N] + r[N..];
  }
}
