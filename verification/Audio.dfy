/**
  The delay lines of the audio library (audio_delay and audio_chorus of
  c/libaudio/audio.c over the comb filters of c/libaudio/dsp_algorithms.c): a ring
  buffer with a falling pointer computes a saturated recurrence over the streams.
 */
module Audio {
  import Arith

  const ONE_16B: int := 0x7FFF
  const DELAY_L: nat := 13020
  const CHORUS_L: nat := 2083

  // ---- Fixed-point arithmetic -------------------------------------------

  predicate Sample(s: int) { -0x8000 <= s <= 0x7FFF }

  predicate Gain(g: int) { 0 <= g <= 0x7FFF }

  predicate Fits32(x: int) { -0x8000_0000 <= x <= 0x7FFF_FFFF }

  /** The digital saturation of the comb filters. */
  function Saturate(acc: int): (r: int)
    ensures -0x800_0000 <= r <= 0x7FF_FFFF
  {
    if acc > 0x7FF_FFFF then 0x7FF_FFFF else if acc < -0x800_0000 then -0x800_0000 else acc
  }

  /** One tap: product of gain and sample, shifted right arithmetically by two. */
  function Tap(g: int, s: int): int { g * s / 4 }

  function Output(acc: int): (y: int)
    ensures -16384 <= y <= 16383
  {
    Saturate(acc) / 8192
  }

  /** Neither the product nor any partial sum of up to three taps leaves 32 bits. */
  lemma TapsFit(g0: int, s0: int, g1: int, s1: int, g2: int, s2: int)
    requires Gain(g0) && Gain(g1) && Gain(g2) && Sample(s0) && Sample(s1) && Sample(s2)
    ensures Fits32(g0 * s0) && Fits32(g1 * s1) && Fits32(g2 * s2)
    ensures Fits32(Tap(g0, s0) + Tap(g1, s1)) && Fits32(Tap(g0, s0) + Tap(g1, s1) + Tap(g2, s2))
  {
    ProductBound(g0, s0);
    ProductBound(g1, s1);
    ProductBound(g2, s2);
  }

  lemma ProductBound(g: int, s: int)
    requires Gain(g) && Sample(s)
    ensures -0x4000_0000 <= g * s <= 0x4000_0000
  {
    if s >= 0 {
      Scale(g, s);
    } else {
      Scale(g, -s);
      assert g * s == -(g * -s);
    }
  }

  lemma Scale(g: int, a: nat)
    requires 0 <= g <= 0x8000
    ensures 0 <= g * a <= 0x8000 * a
  {
    assert (0x8000 - g) * a >= 0;
  }

  // ---- The ring ---------------------------------------------------------

  /** The value written d steps ago, zero before the first one. */
  ghost function Past(hist: seq<int>, d: nat): int
    requires d > 0
  {
    if d <= |hist| then hist[|hist| - d] else 0
  }

  function Wrap(i: nat, size: nat): nat
    requires size > 0 && i < 2 * size
  {
    if i < size then i else i - size
  }

  /** Slot pnt is written next; d slots further on lies the value of d steps ago. */
  ghost predicate Ring(buf: seq<int>, pnt: nat, hist: seq<int>) {
    && pnt < |buf|
    && forall d: nat :: 1 <= d <= |buf| ==> buf[Wrap(pnt + d, |buf|)] == Past(hist, d)
  }

  function Down(pnt: nat, size: nat): nat
    requires pnt < size
  {
    if pnt == 0 then size - 1 else pnt - 1
  }

  lemma RingEmpty(buf: seq<int>)
    requires |buf| > 0 && forall v <- buf :: v == 0
    ensures Ring(buf, |buf| - 1, [])
  {
    forall d: nat | 1 <= d <= |buf| ensures buf[Wrap(|buf| - 1 + d, |buf|)] == Past([], d) {
      assert buf[Wrap(|buf| - 1 + d, |buf|)] in buf;
    }
  }

  /** Writing at the pointer and moving it down adds one value to the history. */
  lemma RingPush(buf: seq<int>, pnt: nat, hist: seq<int>, v: int)
    requires Ring(buf, pnt, hist)
    ensures Ring(buf[pnt := v], Down(pnt, |buf|), hist + [v])
  {
    var n, buf', pnt' := |buf|, buf[pnt := v], Down(pnt, |buf|);
    forall d: nat | 1 <= d <= n ensures buf'[Wrap(pnt' + d, n)] == Past(hist + [v], d) {
      if d == 1 {
        assert Wrap(pnt' + 1, n) == pnt;
      } else {
        assert Wrap(pnt' + d, n) == Wrap(pnt + (d - 1), n) != pnt;
        assert buf[Wrap(pnt + (d - 1), n)] == Past(hist, d - 1);
      }
    }
  }

  /** The index computation of the comb filters, with the new value already in the ring. */
  lemma RingRead(buf: seq<int>, pnt: nat, hist: seq<int>, v: int, d: nat)
    requires Ring(buf, pnt, hist) && d < |buf|
    ensures (pnt + d) % |buf| < |buf| && buf[pnt := v][(pnt + d) % |buf|] == if d == 0 then v else Past(hist, d)
  {
    var n := |buf|;
    assert (pnt + d) % n == Wrap(pnt + d, n) by {
      if pnt + d < n { Arith.DivideBy(pnt + d, 0, pnt + d, n); } else { Arith.DivideBy(pnt + d, 1, pnt + d - n, n); }
    }
    if d > 0 { assert buf[Wrap(pnt + d, n)] == Past(hist, d); }
  }

  ghost predicate Samples(xs: seq<int>) { forall x <- xs :: Sample(x) }

  lemma PastSample(hist: seq<int>, d: nat)
    requires d > 0 && Samples(hist)
    ensures Sample(Past(hist, d))
  {
  }

  // ---- audio_delay ------------------------------------------------------

  const DELAY_GAIN: int := 16383

  /** One output of the delay from the output DELAY_L - 1 steps ago and the input. */
  function Echo(past: int, x: int): int { Output(Tap(DELAY_GAIN, past) + Tap(ONE_16B, x)) }

  /** The outputs for a whole input stream, from silence. */
  ghost function Echoes(xs: seq<int>): (ys: seq<int>)
    ensures |ys| == |xs| && Samples(ys)
  {
    if xs == [] then []
    else
      var ys := Echoes(xs[..|xs| - 1]);
      ys + [Echo(Past(ys, DELAY_L - 1), xs[|xs| - 1])]
  }

  /** The recurrence, index by index, and the range of every output. */
  lemma {:induction false} EchoRecurrence(xs: seq<int>, n: nat)
    requires n < |xs|
    ensures var ys := Echoes(xs);
            && ys[n] == Echo(if n >= DELAY_L - 1 then ys[n - (DELAY_L - 1)] else 0, xs[n])
            && -16384 <= ys[n] <= 16383
    decreases |xs|
  {
    var front := xs[..|xs| - 1];
    var ys := Echoes(front);
    if n < |front| {
      EchoRecurrence(front, n);
      assert Echoes(xs)[n] == ys[n] && xs[n] == front[n];
    }
  }

  class DelayLine {
    const left: array<int>
    const right: array<int>
    var pnt: nat
    ghost var inLeft: seq<int>
    ghost var inRight: seq<int>

    ghost predicate Valid()
      reads this, left, right
    {
      && left != right && left.Length == right.Length == DELAY_L
      && Samples(inLeft) && Samples(inRight)
      && Ring(left[..], pnt, Echoes(inLeft)) && Ring(right[..], pnt, Echoes(inRight))
    }

    /** alloc_delay_vars */
    constructor ()
      ensures Valid() && fresh(left) && fresh(right) && inLeft == [] && inRight == []
    {
      left := new int[DELAY_L](_ => 0);
      right := new int[DELAY_L](_ => 0);
      pnt := DELAY_L - 1;
      inLeft, inRight := [], [];
      new;
      RingEmpty(left[..]);
      RingEmpty(right[..]);
    }

    /** audio_delay: one sample of each channel. */
    method Process(x0: int, x1: int) returns (y0: int, y1: int)
      requires Valid() && Sample(x0) && Sample(x1)
      modifies this, left, right
      ensures Valid() && inLeft == old(inLeft) + [x0] && inRight == old(inRight) + [x1]
      ensures Echoes(inLeft) == Echoes(old(inLeft)) + [y0] && Echoes(inRight) == Echoes(old(inRight)) + [y1]
    {
      ghost var l, r := left[..], right[..];
      Store(left, right, pnt, x0, x1);
      y0, y1 := CombFilter1st(left, right, pnt, DELAY_GAIN, DELAY_L - 1, ONE_16B, 0,
                              l, Echoes(inLeft), x0, r, Echoes(inRight), x1);
      Store(left, right, pnt, y0, y1);
      DelayStep(l, pnt, inLeft, x0, y0, left[..]);
      DelayStep(r, pnt, inRight, x1, y1, right[..]);
      pnt := if pnt == 0 then DELAY_L - 1 else pnt - 1;
      inLeft, inRight := inLeft + [x0], inRight + [x1];
    }
  }

  /** Both channels at the pointer. */
  method Store(left: array<int>, right: array<int>, pnt: nat, v0: int, v1: int)
    requires left != right && pnt < left.Length == right.Length
    modifies left, right
    ensures left[..] == old(left[..])[pnt := v0] && right[..] == old(right[..])[pnt := v1]
  {
    left[pnt] := v0;
    right[pnt] := v1;
  }

  lemma DelayStep(l: seq<int>, pnt: nat, xs: seq<int>, x: int, y: int, l': seq<int>)
    requires Ring(l, pnt, Echoes(xs)) && y == Echo(Past(Echoes(xs), DELAY_L - 1), x) && l' == l[pnt := x][pnt := y]
    ensures Ring(l', Down(pnt, |l|), Echoes(xs + [x])) && Echoes(xs + [x]) == Echoes(xs) + [y]
  {
    assert l' == l[pnt := y];
    RingPush(l, pnt, Echoes(xs), y);
    EchoesNext(xs, x);
  }

  lemma EchoesNext(xs: seq<int>, x: int)
    ensures Echoes(xs + [x]) == Echoes(xs) + [Echo(Past(Echoes(xs), DELAY_L - 1), x)]
  {
    assert (xs + [x])[..|xs|] == xs;
  }

  // ---- The comb filters -------------------------------------------------

  /** The value d steps ago once x is in. */
  ghost function Delayed(hist: seq<int>, x: int, d: nat): int { if d == 0 then x else Past(hist, d) }

  /** A ring buffer before and after x has been written at the pointer. */
  ghost predicate Loaded(buf: seq<int>, pnt: nat, hist: seq<int>, x: int, buf': seq<int>) {
    Ring(buf, pnt, hist) && buf' == buf[pnt := x] && Samples(hist) && Sample(x)
  }

  lemma TapRead(buf: seq<int>, pnt: nat, hist: seq<int>, x: int, buf': seq<int>, d: nat)
    requires Loaded(buf, pnt, hist, x, buf') && d < |buf|
    ensures (pnt + d) % |buf| < |buf'| && buf'[(pnt + d) % |buf|] == Delayed(hist, x, d) && Sample(Delayed(hist, x, d))
  {
    RingRead(buf, pnt, hist, x, d);
    if d > 0 { PastSample(hist, d); }
  }

  /** One tap of the filters, added to both accumulators. */
  method AddTap(left: array<int>, right: array<int>, pnt: nat, g: int, d: nat, a0: int, a1: int,
                ghost l: seq<int>, ghost h0: seq<int>, ghost x0: int, ghost r: seq<int>, ghost h1: seq<int>, ghost x1: int)
    returns (b0: int, b1: int)
    requires d < left.Length == right.Length && Loaded(l, pnt, h0, x0, left[..]) && Loaded(r, pnt, h1, x1, right[..])
    ensures b0 == a0 + Tap(g, Delayed(h0, x0, d)) && b1 == a1 + Tap(g, Delayed(h1, x1, d))
    ensures Sample(Delayed(h0, x0, d)) && Sample(Delayed(h1, x1, d))
  {
    TapRead(l, pnt, h0, x0, left[..], d);
    TapRead(r, pnt, h1, x1, right[..], d);
    var at := (pnt + d) % left.Length;
    b0, b1 := a0 + Tap(g, left[at]), a1 + Tap(g, right[at]);
  }

  /** combFilter_1st, on rings into which the samples have just been written.  The accumulators stay
      within 32 bits. */
  method CombFilter1st(left: array<int>, right: array<int>, pnt: nat, g0: int, d0: nat, g1: int, d1: nat,
                       ghost l: seq<int>, ghost h0: seq<int>, ghost x0: int, ghost r: seq<int>, ghost h1: seq<int>, ghost x1: int)
    returns (y0: int, y1: int)
    requires Loaded(l, pnt, h0, x0, left[..]) && Loaded(r, pnt, h1, x1, right[..])
    requires d0 < left.Length == right.Length && d1 < left.Length && Gain(g0) && Gain(g1)
    ensures y0 == Output(Tap(g0, Delayed(h0, x0, d0)) + Tap(g1, Delayed(h0, x0, d1)))
    ensures y1 == Output(Tap(g0, Delayed(h1, x1, d0)) + Tap(g1, Delayed(h1, x1, d1)))
  {
    var a0, a1 := AddTap(left, right, pnt, g0, d0, 0, 0, l, h0, x0, r, h1, x1);
    a0, a1 := AddTap(left, right, pnt, g1, d1, a0, a1, l, h0, x0, r, h1, x1);
    assert Fits32(a0) && Fits32(a1) by {
      TapsFit(g0, Delayed(h0, x0, d0), g1, Delayed(h0, x0, d1), 0, 0);
      TapsFit(g0, Delayed(h1, x1, d0), g1, Delayed(h1, x1, d1), 0, 0);
    }
    y0, y1 := Output(a0), Output(a1);
  }

  /** combFilter_2nd */
  method CombFilter2nd(left: array<int>, right: array<int>, pnt: nat, g0: int, d0: nat, g1: int, d1: nat, g2: int, d2: nat,
                       ghost l: seq<int>, ghost h0: seq<int>, ghost x0: int, ghost r: seq<int>, ghost h1: seq<int>, ghost x1: int)
    returns (y0: int, y1: int)
    requires Loaded(l, pnt, h0, x0, left[..]) && Loaded(r, pnt, h1, x1, right[..])
    requires d0 < left.Length == right.Length && d1 < left.Length && d2 < left.Length && Gain(g0) && Gain(g1) && Gain(g2)
    ensures y0 == Output(Tap(g0, Delayed(h0, x0, d0)) + Tap(g1, Delayed(h0, x0, d1)) + Tap(g2, Delayed(h0, x0, d2)))
    ensures y1 == Output(Tap(g0, Delayed(h1, x1, d0)) + Tap(g1, Delayed(h1, x1, d1)) + Tap(g2, Delayed(h1, x1, d2)))
  {
    var a0, a1 := AddTap(left, right, pnt, g0, d0, 0, 0, l, h0, x0, r, h1, x1);
    a0, a1 := AddTap(left, right, pnt, g1, d1, a0, a1, l, h0, x0, r, h1, x1);
    a0, a1 := AddTap(left, right, pnt, g2, d2, a0, a1, l, h0, x0, r, h1, x1);
    assert Fits32(a0) && Fits32(a1) by {
      TapsFit(g0, Delayed(h0, x0, d0), g1, Delayed(h0, x0, d1), g2, Delayed(h0, x0, d2));
      TapsFit(g0, Delayed(h1, x1, d0), g1, Delayed(h1, x1, d1), g2, Delayed(h1, x1, d2));
    }
    y0, y1 := Output(a0), Output(a1);
  }

  // ---- audio_chorus -----------------------------------------------------

  const CHORUS_DRY: int := 14745
  const CHORUS_WET: int := 13106

  /** Input n - d, silence before the start. */
  ghost function Input(xs: seq<int>, n: nat, d: nat): int
    requires n < |xs|
  {
    if d <= n then xs[n - d] else 0
  }

  /** Output n of the chorus: the input and two delayed copies, delays d0 and d1. */
  ghost function Chorused(xs: seq<int>, n: nat, d0: nat, d1: nat): int
    requires n < |xs|
  {
    Output(Tap(CHORUS_WET, Input(xs, n, d0)) + Tap(CHORUS_WET, Input(xs, n, d1)) + Tap(CHORUS_DRY, xs[n]))
  }

  lemma ChorusStep(l: seq<int>, pnt: nat, xs: seq<int>, x: int, y: int, d0: nat, d1: nat)
    requires Ring(l, pnt, xs)
    requires y == Output(Tap(CHORUS_WET, Delayed(xs, x, d0)) + Tap(CHORUS_WET, Delayed(xs, x, d1)) + Tap(CHORUS_DRY, x))
    ensures Ring(l[pnt := x], Down(pnt, |l|), xs + [x]) && y == Chorused(xs + [x], |xs|, d0, d1)
  {
    RingPush(l, pnt, xs, x);
    assert Delayed(xs, x, d0) == Input(xs + [x], |xs|, d0) && Delayed(xs, x, d1) == Input(xs + [x], |xs|, d1);
  }

  class Chorus {
    const left: array<int>
    const right: array<int>
    const modulation0: seq<nat>
    const modulation1: seq<nat>
    var pnt: nat
    var c0: nat
    var c1: nat
    ghost var inLeft: seq<int>
    ghost var inRight: seq<int>

    ghost predicate Valid()
      reads this, left, right
    {
      && left != right && left.Length == right.Length == CHORUS_L
      && Modulation(modulation0) && Modulation(modulation1)
      && Position(c0, |inLeft|, |modulation0|) && Position(c1, |inLeft|, |modulation1|)
      && Samples(inLeft) && Samples(inRight) && |inLeft| == |inRight|
      && Ring(left[..], pnt, inLeft) && Ring(right[..], pnt, inRight)
    }

    /** alloc_chorus_vars, with the modulation arrays given. */
    constructor (modulation0: seq<nat>, modulation1: seq<nat>)
      requires Modulation(modulation0) && Modulation(modulation1)
      ensures Valid() && fresh(left) && fresh(right) && inLeft == [] && inRight == []
      ensures this.modulation0 == modulation0 && this.modulation1 == modulation1
    {
      left := new int[CHORUS_L](_ => 0);
      right := new int[CHORUS_L](_ => 0);
      this.modulation0, this.modulation1 := modulation0, modulation1;
      pnt, c0, c1 := CHORUS_L - 1, 0, 0;
      inLeft, inRight := [], [];
      new;
      RingEmpty(left[..]);
      RingEmpty(right[..]);
    }

    /** audio_chorus: one sample of each channel, with the delays the modulation gives for it. */
    method Process(x0: int, x1: int) returns (y0: int, y1: int)
      requires Valid() && Sample(x0) && Sample(x1)
      modifies this, left, right
      ensures Valid() && inLeft == old(inLeft) + [x0] && inRight == old(inRight) + [x1]
      ensures var n := |old(inLeft)|;
              var d0, d1 := modulation0[n % |modulation0|], modulation1[n % |modulation1|];
              y0 == Chorused(inLeft, n, d0, d1) && y1 == Chorused(inRight, n, d0, d1)
    {
      ghost var l, r := left[..], right[..];
      var d0, d1 := modulation0[c0], modulation1[c1];
      assert d0 in modulation0 && d1 in modulation1;
      PositionNext(c0, |inLeft|, |modulation0|);
      PositionNext(c1, |inLeft|, |modulation1|);
      c0, c1 := (c0 + 1) % |modulation0|, (c1 + 1) % |modulation1|;
      Store(left, right, pnt, x0, x1);
      y0, y1 := CombFilter2nd(left, right, pnt, CHORUS_WET, d0, CHORUS_WET, d1, CHORUS_DRY, 0,
                              l, inLeft, x0, r, inRight, x1);
      ChorusStep(l, pnt, inLeft, x0, y0, d0, d1);
      ChorusStep(r, pnt, inRight, x1, y1, d0, d1);
      pnt := if pnt == 0 then CHORUS_L - 1 else pnt - 1;
      inLeft, inRight := inLeft + [x0], inRight + [x1];
    }
  }

  /** A modulation array: at least one delay, all shorter than the buffer. */
  ghost predicate Modulation(m: seq<nat>) { |m| > 0 && forall d <- m :: d < CHORUS_L }

  ghost predicate Position(c: nat, n: nat, period: nat) { period > 0 && c < period && c == n % period }

  lemma PositionNext(c: nat, n: nat, period: nat)
    requires Position(c, n, period)
    ensures Position((c + 1) % period, n + 1, period)
  {
    var q := n / period;
    assert n + 1 == q * period + (c + 1);
    if c + 1 < period {
      Arith.DivideBy(c + 1, 0, c + 1, period);
      Arith.DivideBy(n + 1, q, c + 1, period);
    } else {
      assert (q + 1) * period == q * period + period;
      Arith.DivideBy(c + 1, 1, 0, period);
      Arith.DivideBy(n + 1, q + 1, 0, period);
    }
  }
}
