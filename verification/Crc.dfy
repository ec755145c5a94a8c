/**
  CRC-32 of the boot download (c/bootloader/download.c) and of the RGMII frame
  source (hardware/Patmos-harness.cpp): the same reflected polynomial, once bit
  by bit and once byte by byte without a table.
 */
module Crc {

  const POLY: bv32 := 0xEDB88320

  function Reduce(odd: bool, half: bv32): bv32 { if odd then half ^ POLY else half }

  /** One step of the bitwise loop. */
  function Bit(crc: bv32): bv32 { Reduce(crc & 1 > 0, crc >> 1) }

  function Iterate<T>(step: T -> T, x: T, n: nat): T
    decreases n, x
  {
    if n == 0 then x else Iterate(step, step(x), n - 1)
  }

  function Bits(crc: bv32, n: nat): bv32 { Iterate(Bit, crc, n) }

  /** The register after one more byte. */
  function Absorb(crc: bv32, b: bv32): bv32 {
    Bits(crc ^ b, 8)
  }

  function Fold<S, T>(f: (S, T) -> S, s: S, ts: seq<T>): S {
    if ts == [] then s else f(Fold(f, s, ts[..|ts| - 1]), ts[|ts| - 1])
  }

  function AbsorbByte(crc: bv32, b: bv8): bv32 { Absorb(crc, b as bv32) }

  /** The register after a byte string. */
  function AbsorbAll(crc: bv32, bytes: seq<bv8>): bv32 { Fold(AbsorbByte, crc, bytes) }

  /** CRC-32 with the register complemented before and after. */
  function Crc32(bytes: seq<bv8>, previous: bv32): bv32 { Not(AbsorbAll(Not(previous), bytes)) }

  function Not(x: bv32): bv32 { !x }

  /** The byte-wise update of crc32_1byte_tableless. */
  function Tableless(crc: bv32, b: bv32): bv32 {
    Combine(crc >> 8, (crc & 0xFF) ^ b)
  }

  function Combine(rest: bv32, s: bv32): bv32 {
    rest ^ Products((s ^ (s << 6)) & 0xFF)
  }

  lemma XorShift(x: bv32, y: bv32)
    ensures (x ^ y) >> 1 == (x >> 1) ^ (y >> 1)
  {
  }

  lemma XorOdd(x: bv32, y: bv32)
    ensures ((x ^ y) & 1 > 0) <==> ((x & 1 > 0) != (y & 1 > 0))
  {
  }

  lemma XorRegroup(a: bv32, b: bv32, p: bv32)
    ensures (a ^ b) ^ p == (a ^ p) ^ b == a ^ (b ^ p)
    ensures (a ^ p) ^ (b ^ p) == a ^ b
  {
  }

  lemma BitCase(x: bv32)
    ensures Bit(x) == if x & 1 > 0 then (x >> 1) ^ POLY else x >> 1
  {
  }

  /** The CRC step is linear over exclusive or. */
  lemma BitLinear(x: bv32, y: bv32)
    ensures Bit(x ^ y) == Bit(x) ^ Bit(y)
  {
    if x & 1 > 0 {
      if y & 1 > 0 { BitLinearOdd(x, y); } else { BitLinearMixed(x, y); }
    } else {
      if y & 1 > 0 { BitLinearMixed(y, x); } else { BitLinearEven(x, y); }
    }
  }

  lemma BitLinearOdd(x: bv32, y: bv32)
    requires x & 1 > 0 && y & 1 > 0
    ensures Bit(x ^ y) == Bit(x) ^ Bit(y)
  {
    XorOdd(x, y);
    BitCase(x ^ y);
    BitCase(x);
    BitCase(y);
    XorShift(x, y);
    XorRegroup(x >> 1, y >> 1, POLY);
  }

  lemma BitLinearMixed(x: bv32, y: bv32)
    requires x & 1 > 0 && !(y & 1 > 0)
    ensures Bit(x ^ y) == Bit(x) ^ Bit(y)
  {
    XorOdd(x, y);
    XorShift(x, y);
    XorRegroup(x >> 1, y >> 1, POLY);
  }

  lemma BitLinearEven(x: bv32, y: bv32)
    requires !(x & 1 > 0) && !(y & 1 > 0)
    ensures Bit(x ^ y) == Bit(x) ^ Bit(y)
  {
    XorOdd(x, y);
    BitCase(x ^ y);
    BitCase(x);
    BitCase(y);
    XorShift(x, y);
  }

  ghost predicate Homomorphic<T(!new)>(step: T -> T, op: (T, T) -> T) {
    forall x, y {:trigger step(op(x, y))} :: step(op(x, y)) == op(step(x), step(y))
  }

  lemma {:induction false} IterateHomomorphic<T(!new)>(step: T -> T, op: (T, T) -> T, x: T, y: T, n: nat)
    requires Homomorphic(step, op)
    ensures Iterate(step, op(x, y), n) == op(Iterate(step, x, n), Iterate(step, y, n))
    decreases n
  {
    if n > 0 { IterateHomomorphic(step, op, step(x), step(y), n - 1); }
  }

  function Xor(x: bv32, y: bv32): bv32 { x ^ y }

  lemma BitHomomorphic()
    ensures Homomorphic(Bit, Xor)
  {
    forall u, v ensures Bit(Xor(u, v)) == Xor(Bit(u), Bit(v)) { BitLinear(u, v); }
  }

  lemma XorBits(x: bv32, y: bv32, n: nat)
    ensures Iterate(Bit, Xor(x, y), n) == Xor(Iterate(Bit, x, n), Iterate(Bit, y, n))
  {
    BitHomomorphic();
    IterateHomomorphic(Bit, Xor, x, y, n);
  }

  ghost predicate Halves(step: bv32 -> bv32) {
    forall x :: x & 1 == 0 ==> step(x) == x >> 1
  }

  ghost predicate LowZero(x: bv32, n: nat)
    decreases n
  {
    n == 0 || (x & 1 == 0 && LowZero(x >> 1, n - 1))
  }

  ghost function Shifted(x: bv32, n: nat): bv32
    decreases n
  {
    if n == 0 then x else Shifted(x >> 1, n - 1)
  }

  lemma {:induction false} IterateShifts(step: bv32 -> bv32, x: bv32, n: nat)
    requires Halves(step) && LowZero(x, n)
    ensures Iterate(step, x, n) == Shifted(x, n)
    decreases n
  {
    if n > 0 { IterateShifts(step, x >> 1, n - 1); }
  }

  lemma ByteShift(x: bv32)
    requires x & 0xFF == 0
    ensures LowZero(x, 8) && Shifted(x, 8) == x >> 8
  {
    assert LowZero(x >> 7, 1) && LowZero(x >> 6, 2) && LowZero(x >> 5, 3) && LowZero(x >> 4, 4);
    assert LowZero(x >> 3, 5) && LowZero(x >> 2, 6) && LowZero(x >> 1, 7);
    assert Shifted(x, 8) == Shifted(x >> 2, 6) == Shifted(x >> 4, 4) == Shifted(x >> 6, 2) == x >> 8;
  }

  /** A register whose low byte is zero is only shifted. */
  lemma HighBytes(x: bv32)
    requires x & 0xFF == 0
    ensures Bits(x, 8) == x >> 8
  {
    assert Halves(Bit) by {
      forall z: bv32 | z & 1 == 0 ensures Bit(z) == z >> 1 { BitCase(z); }
    }
    ByteShift(x);
    IterateShifts(Bit, x, 8);
  }

  lemma Unroll(step: bv32 -> bv32, x: bv32)
    ensures Iterate(step, x, 8) == step(step(step(step(step(step(step(step(x))))))))
  {
    var x2 := step(step(x));
    var x4 := step(step(x2));
    var x6 := step(step(x4));
    assert Iterate(step, x, 8) == Iterate(step, x2, 6);
    assert Iterate(step, x2, 6) == Iterate(step, x4, 4);
    assert Iterate(step, x4, 4) == Iterate(step, x6, 2);
    assert Iterate(step, x6, 2) == Iterate(step, step(x6), 1) == Iterate(step, step(step(x6)), 0);
  }

  /** The products of the tableless form, with shifts: their partial sums do not overlap. */
  function Spread(low: bv32): bv32 {
    ((low << 24) ^ (low << 16) ^ (low << 8))
    ^ ((low << 23) ^ (low << 14) ^ (low << 2))
    ^ (((low << 23) ^ (low << 14) ^ (low << 2)) >> 1)
    ^ ((low << 20) ^ (low << 12))
    ^ (low << 19) ^ (low << 17) ^ (low >> 2)
  }

  function Products(low: bv32): bv32 {
    var a: bv32 := low * ((1 << 23) + (1 << 14) + (1 << 2));
    (low * ((1 << 24) + (1 << 16) + (1 << 8)))
    ^ a
    ^ (a >> 1)
    ^ (low * ((1 << 20) + (1 << 12)))
    ^ (low << 19)
    ^ (low << 17)
    ^ (low >> 2)
  }

  lemma ProductA(low: bv32)
    requires low & 0xFF == low
    ensures low * ((1 << 23) + (1 << 14) + (1 << 2)) == (low << 23) ^ (low << 14) ^ (low << 2)
  {
  }

  lemma ProductB(low: bv32)
    requires low & 0xFF == low
    ensures low * ((1 << 24) + (1 << 16) + (1 << 8)) == (low << 24) ^ (low << 16) ^ (low << 8)
  {
  }

  lemma ProductC(low: bv32)
    requires low & 0xFF == low
    ensures low * ((1 << 20) + (1 << 12)) == (low << 20) ^ (low << 12)
  {
  }

  lemma ProductsSpread(low: bv32)
    requires low & 0xFF == low
    ensures Products(low) == Spread(low)
  {
    ProductA(low);
    ProductB(low);
    ProductC(low);
  }

  lemma LowByte(s: bv32)
    requires s & 0xFF == s
    ensures Bit(Bit(Bit(Bit(Bit(Bit(Bit(Bit(s)))))))) == Spread((s ^ (s << 6)) & 0xFF)
  {
  }

  lemma AbsorbParts(x: bv32, hi: bv32, s: bv32, shifted: bv32)
    requires x == hi ^ s && hi & 0xFF == 0 && shifted == hi >> 8
    ensures Bits(x, 8) == shifted ^ Bits(s, 8)
  {
    XorBits(hi, s, 8);
    HighBytes(hi);
  }

  lemma ProductsAreBits(s: bv32)
    requires s & 0xFF == s
    ensures Products((s ^ (s << 6)) & 0xFF) == Bits(s, 8)
  {
    Unroll(Bit, s);
    LowByte(s);
    ProductsSpread((s ^ (s << 6)) & 0xFF);
  }

  /** The parts of a register combine to the register after eight bits. */
  lemma CombineIsBits(rest: bv32, x: bv32, s: bv32, hi: bv32)
    requires x == hi ^ s && hi & 0xFF == 0 && rest == hi >> 8 && s & 0xFF == s
    ensures Combine(rest, s) == Bits(x, 8)
  {
    AbsorbParts(x, hi, s, rest);
    ProductsAreBits(s);
  }

  lemma Parts(crc: bv32, b: bv32) returns (rest: bv32, x: bv32, s: bv32, hi: bv32)
    requires b & 0xFF == b
    ensures x == hi ^ s && hi & 0xFF == 0 && rest == hi >> 8 && s & 0xFF == s
    ensures rest == crc >> 8 && x == crc ^ b && s == (crc & 0xFF) ^ b
  {
    rest, x, s, hi := crc >> 8, crc ^ b, (crc & 0xFF) ^ b, crc & 0xFFFFFF00;
  }

  lemma CombineParts(crc: bv32, b: bv32) returns (rest: bv32, x: bv32, s: bv32)
    requires b & 0xFF == b
    ensures rest == crc >> 8 && x == crc ^ b && s == (crc & 0xFF) ^ b
    ensures Combine(rest, s) == Bits(x, 8)
  {
    var hi;
    rest, x, s, hi := Parts(crc, b);
    CombineIsBits(rest, x, s, hi);
  }

  /** The multiplications compute what eight conditional shifts compute. */
  lemma TablelessIsBitwise(crc: bv32, b: bv32)
    requires b & 0xFF == b
    ensures Tableless(crc, b) == Absorb(crc, b)
  {
    var rest, x, s := CombineParts(crc, b);
  }

  // ---- Byte strings -----------------------------------------------------

  lemma {:induction false} FoldConcat<S, T>(f: (S, T) -> S, s: S, a: seq<T>, b: seq<T>)
    ensures Fold(f, s, a + b) == Fold(f, Fold(f, s, a), b)
  {
    if b == [] {
      assert a + b == a;
    } else {
      assert (a + b)[..|a + b| - 1] == a + b[..|b| - 1];
      FoldConcat(f, s, a, b[..|b| - 1]);
    }
  }

  /** Chaining calls over the pieces of a string is one call over the whole string. */
  lemma Chaining(a: seq<bv8>, b: seq<bv8>, previous: bv32)
    ensures Crc32(a + b, previous) == Crc32(b, Crc32(a, previous))
  {
    assert forall x :: Not(Not(x)) == x;
    ChainWith(AbsorbByte, Not, previous, a, b);
  }

  lemma ChainWith<S(!new), T>(f: (S, T) -> S, neg: S -> S, s: S, a: seq<T>, b: seq<T>)
    requires forall x :: neg(neg(x)) == x
    ensures neg(Fold(f, neg(s), a + b)) == neg(Fold(f, neg(neg(Fold(f, neg(s), a))), b))
  {
    FoldConcat(f, neg(s), a, b);
  }

  /** crc32_1byte_tableless */
  method Crc32Tableless(data: seq<bv8>, previous: bv32) returns (crc: bv32)
    ensures crc == Crc32(data, previous)
  {
    var reg := Not(previous);
    for i := 0 to |data|
      invariant reg == AbsorbAll(Not(previous), data[..i])
    {
      ByteStep(reg, data[i]);
      assert data[..i + 1][..i] == data[..i];
      reg := Tableless(reg, data[i] as bv32);
    }
    assert data[..|data|] == data;
    crc := Not(reg);
  }

  lemma ByteStep(reg: bv32, b: bv8)
    ensures Tableless(reg, b as bv32) == AbsorbByte(reg, b)
  {
    TablelessIsBitwise(reg, b as bv32);
  }

  // ---- Residue ----------------------------------------------------------

  /** The frame check sequence: low byte first. */
  function Fcs(crc: bv32): seq<bv8> {
    [LowLane(crc), LowLane(crc >> 8), LowLane(crc >> 16), LowLane(crc >> 24)]
  }

  function LowLane(w: bv32): bv8 { (w & 0xFF) as bv8 }

  // The register algebra of four check bytes, over any commutative operation:
  // `step` absorbs eight bits, `sh` drops the low byte, `m` is the check byte.

  ghost predicate Regroups<T(!new)>(op: (T, T) -> T) {
    && (forall x, y {:trigger op(x, y)} :: op(x, y) == op(y, x))
    && (forall x, y, z {:trigger op(op(x, y), z)} :: op(op(x, y), z) == op(x, op(y, z)))
  }

  ghost predicate ChecksOut<T(!new)>(step: T -> T, op: (T, T) -> T, sh: T -> T, m: T -> T, k: T) {
    forall r {:trigger m(r)} :: step(op(r, m(r))) == op(sh(r), k)
  }

  ghost predicate Cancels<T(!new)>(step: T -> T, op: (T, T) -> T, sh: T -> T, m: T -> T, k: T) {
    Homomorphic(step, op) && Regroups(op) && ChecksOut(step, op, sh, m, k)
  }

  /** One check byte: what is left of the register moves down and the constant part evolves on its own. */
  lemma CancelRound<T(!new)>(step: T -> T, op: (T, T) -> T, sh: T -> T, m: T -> T, k: T, r: T, c: T)
    requires Cancels(step, op, sh, m, k)
    ensures step(op(op(r, c), m(r))) == op(sh(r), op(k, step(c)))
  {
    assert op(op(r, c), m(r)) == op(r, op(c, m(r))) == op(r, op(m(r), c)) == op(op(r, m(r)), c);
    assert step(op(op(r, m(r)), c)) == op(step(op(r, m(r))), step(c));
  }

  lemma FourRounds<T(!new)>(step: T -> T, op: (T, T) -> T, sh: T -> T, m: T -> T, k: T, r0: T)
    returns (c4: T, regs: seq<T>)
    requires Cancels(step, op, sh, m, k)
    ensures |regs| == 4
    ensures regs[0] == step(op(r0, m(r0)))
    ensures regs[1] == step(op(regs[0], m(sh(r0))))
    ensures regs[2] == step(op(regs[1], m(sh(sh(r0)))))
    ensures regs[3] == step(op(regs[2], m(sh(sh(sh(r0))))))
    ensures c4 == op(k, step(op(k, step(op(k, step(k))))))
    ensures regs[3] == op(sh(sh(sh(sh(r0)))), c4)
  {
    var r1 := sh(r0);
    var r2 := sh(r1);
    var r3 := sh(r2);
    var c2 := op(k, step(k));
    var c3 := op(k, step(c2));
    c4 := op(k, step(c3));
    assert step(op(r0, m(r0))) == op(r1, k);
    CancelRound(step, op, sh, m, k, r1, k);
    CancelRound(step, op, sh, m, k, r2, c2);
    CancelRound(step, op, sh, m, k, r3, c3);
    regs := [op(r1, k), op(r2, c2), op(r3, c3), op(sh(r3), c4)];
  }

  function Step8(x: bv32): bv32 { Bits(x, 8) }
  function Drop(x: bv32): bv32 { x >> 8 }
  function Check(r: bv32): bv32 { !r & 0xFF }

  const LOW_ONES: bv32 := 0x2D02EF8D
  const RESIDUE: bv32 := 0xDEBB20E3

  /** Bits with a literal count, for evaluation on constants. */
  function Evaluate(x: bv32, n: nat): bv32
    decreases n
  {
    if n == 0 then x else Evaluate(Bit(x), n - 1)
  }

  lemma {:induction false} EvaluateIsBits(x: bv32, n: nat)
    ensures Evaluate(x, n) == Bits(x, n)
    decreases n
  {
    if n > 0 { EvaluateIsBits(Bit(x), n - 1); }
  }

  lemma LowOnes()
    ensures Bits(0xFF, 8) == LOW_ONES
  {
    EvaluateIsBits(0xFF, 8);
    assert Evaluate(0xFF, 8) == 0x2D02EF8D;
  }

  lemma CheckXor(r: bv32)
    ensures Xor(r, Check(r)) == (r & 0xFFFFFF00) ^ 0xFF
  {
  }

  lemma CheckHigh(r: bv32)
    ensures (r & 0xFFFFFF00) & 0xFF == 0
  {
  }

  lemma CheckDrop(r: bv32)
    ensures Drop(r) == (r & 0xFFFFFF00) >> 8
  {
  }

  lemma OnesFrom(x: bv32, hi: bv32, rest: bv32)
    requires x == hi ^ 0xFF && hi & 0xFF == 0 && rest == hi >> 8
    ensures Step8(x) == Xor(rest, LOW_ONES)
  {
    LowOnes();
    AbsorbParts(x, hi, 0xFF, rest);
  }

  lemma CheckByte(r: bv32, x: bv32, hi: bv32, rest: bv32)
    requires x == Xor(r, Check(r)) && hi == r & 0xFFFFFF00 && rest == Drop(r)
    ensures Step8(x) == Xor(rest, LOW_ONES)
  {
    CheckXor(r);
    CheckHigh(r);
    CheckDrop(r);
    OnesFrom(x, hi, rest);
  }

  lemma Step8Homomorphic()
    ensures Homomorphic(Step8, Xor)
  {
    forall u, v ensures Step8(Xor(u, v)) == Xor(Step8(u), Step8(v)) { XorBits(u, v, 8); }
  }

  lemma XorRegroups()
    ensures Regroups(Xor)
  {
    forall x, y, z ensures Xor(Xor(x, y), z) == Xor(x, Xor(y, z)) { XorAssoc(x, y, z); }
  }

  lemma XorAssoc(x: bv32, y: bv32, z: bv32)
    ensures Xor(Xor(x, y), z) == Xor(x, Xor(y, z))
  {
  }

  lemma CrcChecksOut()
    ensures ChecksOut(Step8, Xor, Drop, Check, LOW_ONES)
  {
    forall r ensures Step8(Xor(r, Check(r))) == Xor(Drop(r), LOW_ONES) { CheckByte(r, Xor(r, Check(r)), r & 0xFFFFFF00, Drop(r)); }
  }

  lemma ResidueConstant()
    ensures var k := LOW_ONES; Xor(k, Step8(Xor(k, Step8(Xor(k, Step8(k)))))) == RESIDUE
  {
    EvaluateIsBits(0x2D02EF8D, 8);
    EvaluateIsBits(0xBE2612FF, 8);
    EvaluateIsBits(0x00BE2612, 8);
    assert Xor(LOW_ONES, Evaluate(0x2D02EF8D, 8)) == 0xBE2612FF;
    assert Xor(LOW_ONES, Evaluate(0xBE2612FF, 8)) == 0x00BE2612;
    assert Xor(LOW_ONES, Evaluate(0x00BE2612, 8)) == 0xDEBB20E3;
  }

  lemma Lanes(r: bv32)
    ensures LowLane(Not(r)) as bv32 == Check(r)
    ensures LowLane(Not(r) >> 8) as bv32 == Check(Drop(r))
    ensures LowLane(Not(r) >> 16) as bv32 == Check(Drop(Drop(r)))
    ensures LowLane(Not(r) >> 24) as bv32 == Check(Drop(Drop(Drop(r))))
  {
  }

  lemma FoldFour<S, T>(f: (S, T) -> S, s: S, ts: seq<T>)
    requires |ts| == 4
    ensures Fold(f, s, ts) == f(f(f(f(s, ts[0]), ts[1]), ts[2]), ts[3])
  {
    assert ts[..3][..2] == ts[..2] && ts[..2][..1] == ts[..1] && ts[..1][..0] == [];
    assert Fold(f, s, ts[..1]) == f(s, ts[0]);
    assert Fold(f, s, ts[..2]) == f(f(s, ts[0]), ts[1]);
    assert Fold(f, s, ts[..3]) == f(f(f(s, ts[0]), ts[1]), ts[2]);
  }

  lemma AbsorbIsStep(reg: bv32, b: bv8)
    ensures AbsorbByte(reg, b) == Step8(Xor(reg, b as bv32))
  {
  }

  lemma AbsorbLane(reg: bv32, b: bv8, m: bv32)
    requires b as bv32 == m
    ensures AbsorbByte(reg, b) == Step8(Xor(reg, m))
  {
    AbsorbIsStep(reg, b);
  }

  lemma DropAll(r: bv32, c: bv32)
    ensures Xor(Drop(Drop(Drop(Drop(r)))), c) == c
  {
  }

  /** Four absorptions, with the function kept abstract. */
  lemma FoldRounds(f: (bv32, bv8) -> bv32, r: bv32, ts: seq<bv8>, regs: seq<bv32>)
    requires |ts| == 4 && |regs| == 4
    requires f(r, ts[0]) == regs[0] && f(regs[0], ts[1]) == regs[1]
    requires f(regs[1], ts[2]) == regs[2] && f(regs[2], ts[3]) == regs[3]
    ensures Fold(f, r, ts) == regs[3]
  {
    FoldFour(f, r, ts);
  }

  lemma RoundsAre(r: bv32) returns (regs: seq<bv32>)
    ensures |regs| == 4 && regs[3] == RESIDUE
    ensures regs[0] == Step8(Xor(r, Check(r)))
    ensures regs[1] == Step8(Xor(regs[0], Check(Drop(r))))
    ensures regs[2] == Step8(Xor(regs[1], Check(Drop(Drop(r)))))
    ensures regs[3] == Step8(Xor(regs[2], Check(Drop(Drop(Drop(r))))))
  {
    Step8Homomorphic();
    XorRegroups();
    CrcChecksOut();
    var c4;
    c4, regs := FourRounds(Step8, Xor, Drop, Check, LOW_ONES, r);
    ResidueConstant();
    DropAll(r, c4);
  }

  /** A register that absorbs its own check sequence always ends at the same value. */
  lemma RegisterResidue(r: bv32)
    ensures AbsorbAll(r, Fcs(Not(r))) == RESIDUE
  {
    var regs := RoundsAre(r);
    var ts := Fcs(Not(r));
    Lanes(r);
    AbsorbLane(r, ts[0], Check(r));
    AbsorbLane(regs[0], ts[1], Check(Drop(r)));
    AbsorbLane(regs[1], ts[2], Check(Drop(Drop(r))));
    AbsorbLane(regs[2], ts[3], Check(Drop(Drop(Drop(r)))));
    FoldRounds(AbsorbByte, r, ts, regs);
  }

  /** Every frame followed by its own CRC leaves the same value in the receiver. */
  lemma FrameResidue(frame: seq<bv8>, previous: bv32)
    ensures Crc32(frame + Fcs(Crc32(frame, previous)), previous) == Not(RESIDUE)
  {
    var r := AbsorbAll(Not(previous), frame);
    FoldConcat(AbsorbByte, Not(previous), frame, Fcs(Not(r)));
    RegisterResidue(r);
  }

  // ---- The frame source of the emulator ---------------------------------

  /** `>> 8` on a signed int. */
  function SignedShift(c: bv32): bv32 { (c >> 8) | (if c & 0x8000_0000 != 0 then 0xFF00_0000 else 0) }

  function SignedShifts(c: bv32, n: nat): bv32 { if n == 0 then c else SignedShift(SignedShifts(c, n - 1)) }

  /** The sign bits that are shifted in never reach an emitted byte. */
  lemma EmittedLane(c: bv32, n: nat)
    requires n < 4
    ensures LowLane(SignedShifts(c, n)) == Fcs(c)[n]
  {
    assert SignedShifts(c, 1) == SignedShift(SignedShifts(c, 0)) == SignedShift(c);
    assert SignedShifts(c, 2) == SignedShift(SignedShifts(c, 1));
    assert SignedShifts(c, 3) == SignedShift(SignedShifts(c, 2));
    if n == 1 { LaneOne(c); }
    if n == 2 { LaneTwo(c); }
    if n == 3 { LaneThree(c); }
  }

  lemma LaneOne(c: bv32)
    ensures LowLane(SignedShift(c)) == LowLane(c >> 8)
  {
  }

  lemma LaneTwo(c: bv32)
    ensures LowLane(SignedShift(SignedShift(c))) == LowLane(c >> 16)
  {
  }

  lemma LaneThree(c: bv32)
    ensures LowLane(SignedShift(SignedShift(SignedShift(c)))) == LowLane(c >> 24)
  {
  }

  /** emu_RGMII from the first frame byte to the last check byte: the CRC is
      accumulated by one-byte calls and then shifted out low byte first. */
  method SendFrame(frame: seq<bv8>) returns (wire: seq<bv8>)
    ensures wire == frame + Fcs(Crc32(frame, 0))
    ensures Crc32(wire, 0) == 0x2144DF1C
  {
    var crc32, crc32old := 0, 0;
    wire := [];
    for i := 0 to |frame|
      invariant wire == frame[..i]
      invariant crc32 == crc32old == Crc32(frame[..i], 0)
    {
      wire := wire + [frame[i]];
      crc32 := Crc32Tableless([frame[i]], crc32old);
      Chaining(frame[..i], [frame[i]], 0);
      assert frame[..i + 1] == frame[..i] + [frame[i]];
      crc32old := crc32;
    }
    assert frame[..|frame|] == frame;
    ghost var fcs := Fcs(crc32);
    ghost var crc := crc32;
    for counter := 0 to 4
      invariant crc32 == SignedShifts(crc, counter)
      invariant wire == frame + fcs[..counter]
    {
      EmittedLane(crc, counter);
      wire := wire + [LowLane(crc32)];
      crc32 := SignedShift(crc32);
      assert fcs[..counter + 1] == fcs[..counter] + [fcs[counter]];
    }
    assert fcs[..4] == fcs;
    FrameResidue(frame, 0);
  }
}
