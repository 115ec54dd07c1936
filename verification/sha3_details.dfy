/**
 * The Keccak-f[1600] sponge behind SHA3-224, SHA3-256, SHA3-384 and SHA3-512
 * (FIPS 202). The state array is 25 lanes of 64 bits; lane (x, y) lives at
 * index 5y + x. The step mappings theta, rho, pi, chi and iota (the source
 * calls the last one tau) are specified as functions on `seq<bv64>` and
 * implemented by methods of `HashContext` that rewrite its lane arrays in
 * place, as the source does.
 */
module Sha3Details {
  import opened Meta

  /** The four algorithms of the family. */
  datatype Sha3Type = Sha3_224 | Sha3_256 | Sha3_384 | Sha3_512

  /** Rounds of Keccak-p[1600, 24]. */
  const RoundSize: nat := 24
  /** The side of the 5 x 5 lane grid. */
  const CommonFactor: nat := 5
  /** Lanes in the 1600-bit state. */
  const SpongeWords: nat := 25
  /** Bytes in a lane. */
  const WordBytes: nat := 8

  /** The digest length d, in bytes. */
  function FinalHashSize(t: Sha3Type): (r: nat)
    ensures r % 4 == 0 && 28 <= r <= 64
  {
    match t
    case Sha3_224 => 224 / 8
    case Sha3_256 => 256 / 8
    case Sha3_384 => 384 / 8
    case Sha3_512 => 512 / 8
  }

  /**
   * The rate r, in bytes. The capacity is twice the digest length, so the
   * rate is what is left of the 200-byte state (FIPS 202 section 6.1), and
   * it is a whole number of lanes.
   */
  function BlockSize(t: Sha3Type): (r: nat)
    ensures r + 2 * FinalHashSize(t) == 200
    ensures r % WordBytes == 0 && FinalHashSize(t) < r
  {
    match t
    case Sha3_224 => 144
    case Sha3_256 => 136
    case Sha3_384 => 104
    case Sha3_512 => 72
  }

  // ------------------------------------------------------------ state array

  /** calculate_index: the position of lane (x, y), both taken modulo 5. */
  function CalculateIndex(x: nat, y: nat): (r: nat)
    ensures r < SpongeWords
    ensures r % 5 == x % 5 && r / 5 == y % 5
  {
    CommonFactor * (y % CommonFactor) + x % CommonFactor
  }

  /** Every position is the index of exactly one lane of the 5 x 5 grid. */
  lemma CalculateIndexOnto(i: nat)
    requires i < SpongeWords
    ensures CalculateIndex(i % 5, i / 5) == i
    ensures forall x: nat, y: nat :: x < 5 && y < 5 && CalculateIndex(x, y) == i ==> x == i % 5 && y == i / 5
  {
  }

  /** state(x, y): lane (x, y) of a state. */
  function Lane(a: seq<bv64>, x: nat, y: nat): bv64
    requires |a| == SpongeWords
  {
    a[CalculateIndex(x, y)]
  }

  /** Coordinates are read modulo 5. */
  lemma LaneModulo(a: seq<bv64>, x: nat, y: nat)
    requires |a| == SpongeWords
    ensures Lane(a, x, y) == Lane(a, x % 5, y % 5)
  {
  }

  /** Lane (i mod 5, i / 5) of a state is its element i. */
  lemma LaneAtIndex(a: seq<bv64>, x: nat, y: nat, i: nat)
    requires |a| == SpongeWords && x < 5 && y < 5 && i == CalculateIndex(x, y)
    ensures i % 5 == x && i / 5 == y && Lane(a, x, y) == a[i]
  {
  }

  /**
   * A state in the middle of a lane-by-lane pass: columns 0 to x - 1 and lanes (x, 0) to (x, y - 1)
   * already hold `target`, every other lane still holds `base`.
   */
  function UpdatedUpTo(base: seq<bv64>, target: seq<bv64>, x: nat, y: nat): (r: seq<bv64>)
    requires |base| == SpongeWords && |target| == SpongeWords
    ensures |r| == SpongeWords
  {
    seq(SpongeWords, i requires 0 <= i < SpongeWords =>
      if i % 5 < x || (i % 5 == x && i / 5 < y) then target[i] else base[i])
  }

  /** Writing lane (x, y) of the target advances the pass by one lane; that lane held `base` before. */
  lemma UpdatedStep(base: seq<bv64>, target: seq<bv64>, x: nat, y: nat)
    requires |base| == SpongeWords && |target| == SpongeWords && x < 5 && y < 5
    ensures var i := CalculateIndex(x, y);
      UpdatedUpTo(base, target, x, y)[i] == base[i]
      && UpdatedUpTo(base, target, x, y)[i := target[i]] == UpdatedUpTo(base, target, x, y + 1)
  {
    var i := CalculateIndex(x, y);
    LaneAtIndex(base, x, y, i);
  }

  /** A finished column is the start of the next one. */
  lemma UpdatedColumn(base: seq<bv64>, target: seq<bv64>, x: nat)
    requires |base| == SpongeWords && |target| == SpongeWords && x < 5
    ensures UpdatedUpTo(base, target, x, 5) == UpdatedUpTo(base, target, x + 1, 0)
  {
  }

  /** The pass starts from `base` and ends at `target`. */
  lemma UpdatedEnds(base: seq<bv64>, target: seq<bv64>)
    requires |base| == SpongeWords && |target| == SpongeWords
    ensures UpdatedUpTo(base, target, 0, 0) == base && UpdatedUpTo(base, target, 5, 0) == target
  {
  }

  /** Two states with the same 25 lanes (x, y) are equal. */
  lemma LanesDetermineState(a: seq<bv64>, b: seq<bv64>)
    requires |a| == SpongeWords && |b| == SpongeWords
    requires forall x: nat, y: nat :: x < 5 && y < 5 ==> Lane(a, x, y) == Lane(b, x, y)
    ensures a == b
  {
    forall i | 0 <= i < SpongeWords
      ensures a[i] == b[i]
    {
      CalculateIndexOnto(i);
      assert Lane(a, i % 5, i / 5) == Lane(b, i % 5, i / 5);
    }
  }

  /** Bit z of a lane, as FIPS 202 numbers the bits of a lane. */
  predicate Bit(w: bv64, z: bv64)
    requires z < 64
  {
    GetNumberBit(w, z) == 1
  }

  /** A state of 25 zero lanes. */
  function ZeroLanes(): (r: seq<bv64>)
    ensures |r| == SpongeWords && forall i :: 0 <= i < SpongeWords ==> r[i] == 0
  {
    seq(SpongeWords, _ => 0)
  }

  // ------------------------------------------------------------------ theta

  /** The exclusive or of the five lanes of a column, folded as the source folds it. */
  function Parity(l0: bv64, l1: bv64, l2: bv64, l3: bv64, l4: bv64): bv64
  {
    l0 ^ (l1 ^ (l2 ^ (l3 ^ l4)))
  }

  /** C[x]: the parity of column x. */
  function ColumnParity(a: seq<bv64>, x: nat): bv64
    requires |a| == SpongeWords
  {
    Parity(Lane(a, x, 0), Lane(a, x, 1), Lane(a, x, 2), Lane(a, x, 3), Lane(a, x, 4))
  }

  /** A lane absorbing the parity of the column before it and the parity of the column after it rotated left by one. */
  function ThetaMix(lane: bv64, before: bv64, after: bv64): bv64
  {
    lane ^ (before ^ Rotl(after, 1))
  }

  /** Lane (x, y) after theta: it absorbs C[x - 1] and C[x + 1]. */
  function ThetaLane(a: seq<bv64>, x: nat, y: nat): bv64
    requires |a| == SpongeWords
  {
    ThetaMix(Lane(a, x, y), ColumnParity(a, (x + 4) % 5), ColumnParity(a, (x + 1) % 5))
  }

  /** theta (step_mapping_theta) on a whole state. */
  function Theta(a: seq<bv64>): (r: seq<bv64>)
    requires |a| == SpongeWords
    ensures |r| == SpongeWords
  {
    seq(SpongeWords, i requires 0 <= i < SpongeWords => ThetaLane(a, i % 5, i / 5))
  }

  /** Rotating left by one moves bit (z - 1) mod 64 to bit z. */
  lemma RotlOneBit(w: bv64, z: bv64)
    requires z < 64
    ensures Bit(Rotl(w, 1), z) == Bit(w, (z + 63) % 64)
  {
    RotateImplReduced(true, w, 1);
  }

  /** A state whose columns all have even parity is left alone by theta (the column-parity kernel). */
  lemma ThetaKernel(a: seq<bv64>)
    requires |a| == SpongeWords
    requires forall x :: 0 <= x < 5 ==> ColumnParity(a, x) == 0
    ensures Theta(a) == a
  {
    assert Rotl(0, 1) == 0 by {
      RotateImplReduced(true, 0, 1);
    }
    forall i | 0 <= i < SpongeWords
      ensures Theta(a)[i] == a[i]
    {
      CalculateIndexOnto(i);
      assert ColumnParity(a, (i % 5 + 4) % 5) == 0 && ColumnParity(a, (i % 5 + 1) % 5) == 0;
    }
  }

  /** Lane (x, y) of theta(A), read at its index. */
  lemma ThetaAt(a: seq<bv64>, x: nat, y: nat)
    requires |a| == SpongeWords && x < 5 && y < 5
    ensures Theta(a)[CalculateIndex(x, y)] == ThetaLane(a, x, y)
  {
    LaneAtIndex(a, x, y, CalculateIndex(x, y));
  }

  // ----------------------------------------------------- round constants (iota)

  /**
   * One step of the linear feedback shift register of rc(t) (FIPS 202
   * Algorithm 5), bits numbered from the least significant: shift left, feed
   * bit 8 back into bits 0, 4, 5 and 6 (the mask 0x171 also clears bit 8), keep the low eight bits.
   */
  function RcStep(r: bv64): bv64 {
    var shifted := r << 1;
    (shifted ^ (((shifted >> 8) & 1) * 0x171)) & 0xFF
  }

  /** The source's spelling of one step: read bit 8, then flip bits 0, 4, 5 and 6 by it one at a time. */
  lemma RcStepBitwise(r: bv64)
    ensures var shifted := r << 1;
      var bit := GetNumberBit(shifted, 8);
      var r0 := SetNumberBit(shifted, 0, GetNumberBit(shifted, 0) ^ bit);
      var r4 := SetNumberBit(r0, 4, GetNumberBit(r0, 4) ^ bit);
      var r5 := SetNumberBit(r4, 5, GetNumberBit(r4, 5) ^ bit);
      var r6 := SetNumberBit(r5, 6, GetNumberBit(r5, 6) ^ bit);
      r6 & 0xFF == RcStep(r)
  {
  }

  /** The register after n steps from R = 10000000 (bit 0 set). */
  function RcRegister(n: nat): bv64 {
    if n == 0 then 1 else RcStep(RcRegister(n - 1))
  }

  /** Bit 0 of a register. */
  function Low(r: bv64): bv8 {
    (r & 1) as bv8
  }

  /** rc(t): 1 when t mod 255 = 0, otherwise bit 0 of the register after t mod 255 steps. */
  function Rc(t: nat): (r: bv8)
    ensures r <= 1
  {
    var n := t % 255;
    if n == 0 then 1 else Low(RcRegister(n))
  }

  /** step_mapping_helper_rc: runs the register t mod 255 steps and returns its bit 0. */
  method StepMappingHelperRc(number: nat) returns (r: bv8)
    ensures r == Rc(number)
  {
    if number % 0xFF == 0 {
      return 1;
    }
    var bit: bv8 := 0;
    var result: bv64 := 1;
    var i := 1;
    while i <= number % 0xFF
      invariant 1 <= i <= number % 0xFF + 1
      invariant result == RcRegister(i - 1)
    {
      RcStepBitwise(result);
      result := result << 1;
      bit := GetNumberBit(result, 8);
      result := SetNumberBit(result, 0, GetNumberBit(result, 0) ^ bit);
      result := SetNumberBit(result, 4, GetNumberBit(result, 4) ^ bit);
      result := SetNumberBit(result, 5, GetNumberBit(result, 5) ^ bit);
      result := SetNumberBit(result, 6, GetNumberBit(result, 6) ^ bit);
      result := result & 0xFF;
      i := i + 1;
    }
    r := (result & 0x01) as bv8;
  }
  /** l = log2(w) for w = 64. */
  const Log2WordBits: bv64 := 6

  /** The round constant with bits 2^j - 1 for j < `from` already set into `acc`. */
  function RcWordFrom(round: nat, from: bv64, acc: bv64): bv64
    requires from <= Log2WordBits + 1
    decreases Log2WordBits + 1 - from
  {
    if from == Log2WordBits + 1 then acc
    else RcWordFrom(round, from + 1, SetNumberBit(acc, (1 << from) - 1, Rc(from as nat + 7 * round)))
  }

  /** RC for round i_r: bit 2^j - 1 is rc(j + 7 i_r) for j = 0..6, every other bit 0. */
  function RoundConstant(round: nat): bv64 {
    RcWordFrom(round, 0, 0)
  }

  /** The entry `round` of step_mapping_tau_rc_table, computed as func_rc computes it. */
  method FuncRc(round: nat) returns (result: bv64)
    ensures result == RoundConstant(round)
  {
    result := 0;
    var i: bv64 := 0;
    while i <= Log2WordBits
      invariant i <= Log2WordBits + 1
      invariant RcWordFrom(round, i, result) == RoundConstant(round)
    {
      var bit := StepMappingHelperRc(i as nat + 7 * round);
      result := SetNumberBit(result, (1 << i) - 1, bit);
      i := i + 1;
    }
  }

  /** A word with bit 2^j - 1 set to b_j. */
  function Assemble(b0: bv8, b1: bv8, b2: bv8, b3: bv8, b4: bv8, b5: bv8, b6: bv8): bv64 {
    SetNumberBit(SetNumberBit(SetNumberBit(SetNumberBit(SetNumberBit(SetNumberBit(SetNumberBit(
      0, 0, b0), 1, b1), 3, b2), 7, b3), 15, b4), 31, b5), 63, b6)
  }

  lemma RoundConstantOfBits(round: nat)
    ensures RoundConstant(round) == Assemble(Rc(7 * round), Rc(7 * round + 1), Rc(7 * round + 2),
      Rc(7 * round + 3), Rc(7 * round + 4), Rc(7 * round + 5), Rc(7 * round + 6))
  {
    var r := 7 * round;
    var a1 := SetNumberBit(0, 0, Rc(r));
    var a2 := SetNumberBit(a1, 1, Rc(r + 1));
    var a3 := SetNumberBit(a2, 3, Rc(r + 2));
    var a4 := SetNumberBit(a3, 7, Rc(r + 3));
    var a5 := SetNumberBit(a4, 15, Rc(r + 4));
    var a6 := SetNumberBit(a5, 31, Rc(r + 5));
    var a7 := SetNumberBit(a6, 63, Rc(r + 6));
    assert RcWordFrom(round, 6, a6) == a7;
    assert RcWordFrom(round, 5, a5) == a7;
    assert RcWordFrom(round, 4, a4) == a7;
    assert RcWordFrom(round, 3, a3) == a7;
    assert RcWordFrom(round, 2, a2) == a7;
    assert RcWordFrom(round, 1, a1) == a7;
  }

  lemma RcAt(t: nat, v: bv64)
    requires t < 255 && RcRegister(t) == v
    ensures Rc(t) == Low(v)
  {
    assert t % 255 == t;
  }

  /** A round constant from the seven register values it reads. */
  lemma RoundConstantFromRegisters(round: nat, v0: bv64, v1: bv64, v2: bv64, v3: bv64, v4: bv64, v5: bv64, v6: bv64)
    requires 7 * round + 6 < 255
    requires RcRegister(7 * round) == v0 && RcRegister(7 * round + 1) == v1 && RcRegister(7 * round + 2) == v2
    requires RcRegister(7 * round + 3) == v3 && RcRegister(7 * round + 4) == v4 && RcRegister(7 * round + 5) == v5
    requires RcRegister(7 * round + 6) == v6
    ensures RoundConstant(round) == Assemble(Low(v0), Low(v1), Low(v2), Low(v3), Low(v4), Low(v5), Low(v6))
  {
    RoundConstantOfBits(round);
    RcAt(7 * round, v0);
    RcAt(7 * round + 1, v1);
    RcAt(7 * round + 2, v2);
    RcAt(7 * round + 3, v3);
    RcAt(7 * round + 4, v4);
    RcAt(7 * round + 5, v5);
    RcAt(7 * round + 6, v6);
  }

  /** One more step of the register. */
  lemma RcRegisterNext(n: nat, v: bv64)
    requires RcRegister(n) == v
    ensures RcRegister(n + 1) == RcStep(v)
  {
  }

  /** The 24 round constants as FIPS 202 section 3.2.5 and the Keccak reference list them. */
  const RoundConstants: seq<bv64> := [
    0x0000000000000001, 0x0000000000008082, 0x800000000000808A, 0x8000000080008000,
    0x000000000000808B, 0x0000000080000001, 0x8000000080008081, 0x8000000000008009,
    0x000000000000008A, 0x0000000000000088, 0x0000000080008009, 0x000000008000000A,
    0x000000008000808B, 0x800000000000008B, 0x8000000000008089, 0x8000000000008003,
    0x8000000000008002, 0x8000000000000080, 0x000000000000800A, 0x800000008000000A,
    0x8000000080008081, 0x8000000000008080, 0x0000000080000001, 0x8000000080008008]

  /** The register at the start of each round, RcRegister(7 i_r). */
  const RoundStartRegisters: seq<bv64> := [0x1, 0x80, 0xd8, 0x1a, 0xdf, 0x9, 0x35, 0x4f, 0xca, 0x70, 0x41, 0xec, 0xd5, 0xcd, 0x63, 0xab, 0xaa, 0x2a, 0xf2, 0xe8, 0x37, 0x3e, 0xb, 0x44]

  /** Round 0: the register values rc(7 * 0 + j) reads and the constant they give. */
  lemma RoundConstantRow0(round: nat)
    requires round == 0 && RcRegister(7 * round) == RoundStartRegisters[round]
    ensures round + 1 < RoundSize ==> RcRegister(7 * round + 7) == RoundStartRegisters[round + 1]
    ensures RoundConstant(round) == RoundConstants[round]
  {
    assert RoundStartRegisters[round] == 0x1 && RoundStartRegisters[round + 1] == 0x80;
    RcRegisterNext(7 * round, 0x1);
    RcRegisterNext(7 * round + 1, 0x2);
    RcRegisterNext(7 * round + 2, 0x4);
    RcRegisterNext(7 * round + 3, 0x8);
    RcRegisterNext(7 * round + 4, 0x10);
    RcRegisterNext(7 * round + 5, 0x20);
    RcRegisterNext(7 * round + 6, 0x40);
    assert RoundConstants[round] == 0x0000000000000001;
    RoundConstantFromRegisters(round, 0x1, 0x2, 0x4, 0x8, 0x10, 0x20, 0x40);
  }

  /** Round 1: the register values rc(7 * 1 + j) reads and the constant they give. */
  lemma RoundConstantRow1(round: nat)
    requires round == 1 && RcRegister(7 * round) == RoundStartRegisters[round]
    ensures round + 1 < RoundSize ==> RcRegister(7 * round + 7) == RoundStartRegisters[round + 1]
    ensures RoundConstant(round) == RoundConstants[round]
  {
    assert RoundStartRegisters[round] == 0x80 && RoundStartRegisters[round + 1] == 0xd8;
    RcRegisterNext(7 * round, 0x80);
    RcRegisterNext(7 * round + 1, 0x71);
    RcRegisterNext(7 * round + 2, 0xe2);
    RcRegisterNext(7 * round + 3, 0xb5);
    RcRegisterNext(7 * round + 4, 0x1b);
    RcRegisterNext(7 * round + 5, 0x36);
    RcRegisterNext(7 * round + 6, 0x6c);
    assert RoundConstants[round] == 0x0000000000008082;
    RoundConstantFromRegisters(round, 0x80, 0x71, 0xe2, 0xb5, 0x1b, 0x36, 0x6c);
  }

  /** Round 2: the register values rc(7 * 2 + j) reads and the constant they give. */
  lemma RoundConstantRow2(round: nat)
    requires round == 2 && RcRegister(7 * round) == RoundStartRegisters[round]
    ensures round + 1 < RoundSize ==> RcRegister(7 * round + 7) == RoundStartRegisters[round + 1]
    ensures RoundConstant(round) == RoundConstants[round]
  {
    assert RoundStartRegisters[round] == 0xd8 && RoundStartRegisters[round + 1] == 0x1a;
    RcRegisterNext(7 * round, 0xd8);
    RcRegisterNext(7 * round + 1, 0xc1);
    RcRegisterNext(7 * round + 2, 0xf3);
    RcRegisterNext(7 * round + 3, 0x97);
    RcRegisterNext(7 * round + 4, 0x5f);
    RcRegisterNext(7 * round + 5, 0xbe);
    RcRegisterNext(7 * round + 6, 0xd);
    assert RoundConstants[round] == 0x800000000000808A;
    RoundConstantFromRegisters(round, 0xd8, 0xc1, 0xf3, 0x97, 0x5f, 0xbe, 0xd);
  }

  /** Round 3: the register values rc(7 * 3 + j) reads and the constant they give. */
  lemma RoundConstantRow3(round: nat)
    requires round == 3 && RcRegister(7 * round) == RoundStartRegisters[round]
    ensures round + 1 < RoundSize ==> RcRegister(7 * round + 7) == RoundStartRegisters[round + 1]
    ensures RoundConstant(round) == RoundConstants[round]
  {
    assert RoundStartRegisters[round] == 0x1a && RoundStartRegisters[round + 1] == 0xdf;
    RcRegisterNext(7 * round, 0x1a);
    RcRegisterNext(7 * round + 1, 0x34);
    RcRegisterNext(7 * round + 2, 0x68);
    RcRegisterNext(7 * round + 3, 0xd0);
    RcRegisterNext(7 * round + 4, 0xd1);
    RcRegisterNext(7 * round + 5, 0xd3);
    RcRegisterNext(7 * round + 6, 0xd7);
    assert RoundConstants[round] == 0x8000000080008000;
    RoundConstantFromRegisters(round, 0x1a, 0x34, 0x68, 0xd0, 0xd1, 0xd3, 0xd7);
  }

  /** Round 4: the register values rc(7 * 4 + j) reads and the constant they give. */
  lemma RoundConstantRow4(round: nat)
    requires round == 4 && RcRegister(7 * round) == RoundStartRegisters[round]
    ensures round + 1 < RoundSize ==> RcRegister(7 * round + 7) == RoundStartRegisters[round + 1]
    ensures RoundConstant(round) == RoundConstants[round]
  {
    assert RoundStartRegisters[round] == 0xdf && RoundStartRegisters[round + 1] == 0x9;
    RcRegisterNext(7 * round, 0xdf);
    RcRegisterNext(7 * round + 1, 0xcf);
    RcRegisterNext(7 * round + 2, 0xef);
    RcRegisterNext(7 * round + 3, 0xaf);
    RcRegisterNext(7 * round + 4, 0x2f);
    RcRegisterNext(7 * round + 5, 0x5e);
    RcRegisterNext(7 * round + 6, 0xbc);
    assert RoundConstants[round] == 0x000000000000808B;
    RoundConstantFromRegisters(round, 0xdf, 0xcf, 0xef, 0xaf, 0x2f, 0x5e, 0xbc);
  }

  /** Round 5: the register values rc(7 * 5 + j) reads and the constant they give. */
  lemma RoundConstantRow5(round: nat)
    requires round == 5 && RcRegister(7 * round) == RoundStartRegisters[round]
    ensures round + 1 < RoundSize ==> RcRegister(7 * round + 7) == RoundStartRegisters[round + 1]
    ensures RoundConstant(round) == RoundConstants[round]
  {
    assert RoundStartRegisters[round] == 0x9 && RoundStartRegisters[round + 1] == 0x35;
    RcRegisterNext(7 * round, 0x9);
    RcRegisterNext(7 * round + 1, 0x12);
    RcRegisterNext(7 * round + 2, 0x24);
    RcRegisterNext(7 * round + 3, 0x48);
    RcRegisterNext(7 * round + 4, 0x90);
    RcRegisterNext(7 * round + 5, 0x51);
    RcRegisterNext(7 * round + 6, 0xa2);
    assert RoundConstants[round] == 0x0000000080000001;
    RoundConstantFromRegisters(round, 0x9, 0x12, 0x24, 0x48, 0x90, 0x51, 0xa2);
  }

  /** Round 6: the register values rc(7 * 6 + j) reads and the constant they give. */
  lemma RoundConstantRow6(round: nat)
    requires round == 6 && RcRegister(7 * round) == RoundStartRegisters[round]
    ensures round + 1 < RoundSize ==> RcRegister(7 * round + 7) == RoundStartRegisters[round + 1]
    ensures RoundConstant(round) == RoundConstants[round]
  {
    assert RoundStartRegisters[round] == 0x35 && RoundStartRegisters[round + 1] == 0x4f;
    RcRegisterNext(7 * round, 0x35);
    RcRegisterNext(7 * round + 1, 0x6a);
    RcRegisterNext(7 * round + 2, 0xd4);
    RcRegisterNext(7 * round + 3, 0xd9);
    RcRegisterNext(7 * round + 4, 0xc3);
    RcRegisterNext(7 * round + 5, 0xf7);
    RcRegisterNext(7 * round + 6, 0x9f);
    assert RoundConstants[round] == 0x8000000080008081;
    RoundConstantFromRegisters(round, 0x35, 0x6a, 0xd4, 0xd9, 0xc3, 0xf7, 0x9f);
  }

  /** Round 7: the register values rc(7 * 7 + j) reads and the constant they give. */
  lemma RoundConstantRow7(round: nat)
    requires round == 7 && RcRegister(7 * round) == RoundStartRegisters[round]
    ensures round + 1 < RoundSize ==> RcRegister(7 * round + 7) == RoundStartRegisters[round + 1]
    ensures RoundConstant(round) == RoundConstants[round]
  {
    assert RoundStartRegisters[round] == 0x4f && RoundStartRegisters[round + 1] == 0xca;
    RcRegisterNext(7 * round, 0x4f);
    RcRegisterNext(7 * round + 1, 0x9e);
    RcRegisterNext(7 * round + 2, 0x4d);
    RcRegisterNext(7 * round + 3, 0x9a);
    RcRegisterNext(7 * round + 4, 0x45);
    RcRegisterNext(7 * round + 5, 0x8a);
    RcRegisterNext(7 * round + 6, 0x65);
    assert RoundConstants[round] == 0x8000000000008009;
    RoundConstantFromRegisters(round, 0x4f, 0x9e, 0x4d, 0x9a, 0x45, 0x8a, 0x65);
  }

  /** Round 8: the register values rc(7 * 8 + j) reads and the constant they give. */
  lemma RoundConstantRow8(round: nat)
    requires round == 8 && RcRegister(7 * round) == RoundStartRegisters[round]
    ensures round + 1 < RoundSize ==> RcRegister(7 * round + 7) == RoundStartRegisters[round + 1]
    ensures RoundConstant(round) == RoundConstants[round]
  {
    assert RoundStartRegisters[round] == 0xca && RoundStartRegisters[round + 1] == 0x70;
    RcRegisterNext(7 * round, 0xca);
    RcRegisterNext(7 * round + 1, 0xe5);
    RcRegisterNext(7 * round + 2, 0xbb);
    RcRegisterNext(7 * round + 3, 0x7);
    RcRegisterNext(7 * round + 4, 0xe);
    RcRegisterNext(7 * round + 5, 0x1c);
    RcRegisterNext(7 * round + 6, 0x38);
    assert RoundConstants[round] == 0x000000000000008A;
    RoundConstantFromRegisters(round, 0xca, 0xe5, 0xbb, 0x7, 0xe, 0x1c, 0x38);
  }

  /** Round 9: the register values rc(7 * 9 + j) reads and the constant they give. */
  lemma RoundConstantRow9(round: nat)
    requires round == 9 && RcRegister(7 * round) == RoundStartRegisters[round]
    ensures round + 1 < RoundSize ==> RcRegister(7 * round + 7) == RoundStartRegisters[round + 1]
    ensures RoundConstant(round) == RoundConstants[round]
  {
    assert RoundStartRegisters[round] == 0x70 && RoundStartRegisters[round + 1] == 0x41;
    RcRegisterNext(7 * round, 0x70);
    RcRegisterNext(7 * round + 1, 0xe0);
    RcRegisterNext(7 * round + 2, 0xb1);
    RcRegisterNext(7 * round + 3, 0x13);
    RcRegisterNext(7 * round + 4, 0x26);
    RcRegisterNext(7 * round + 5, 0x4c);
    RcRegisterNext(7 * round + 6, 0x98);
    assert RoundConstants[round] == 0x0000000000000088;
    RoundConstantFromRegisters(round, 0x70, 0xe0, 0xb1, 0x13, 0x26, 0x4c, 0x98);
  }

  /** Round 10: the register values rc(7 * 10 + j) reads and the constant they give. */
  lemma RoundConstantRow10(round: nat)
    requires round == 10 && RcRegister(7 * round) == RoundStartRegisters[round]
    ensures round + 1 < RoundSize ==> RcRegister(7 * round + 7) == RoundStartRegisters[round + 1]
    ensures RoundConstant(round) == RoundConstants[round]
  {
    assert RoundStartRegisters[round] == 0x41 && RoundStartRegisters[round + 1] == 0xec;
    RcRegisterNext(7 * round, 0x41);
    RcRegisterNext(7 * round + 1, 0x82);
    RcRegisterNext(7 * round + 2, 0x75);
    RcRegisterNext(7 * round + 3, 0xea);
    RcRegisterNext(7 * round + 4, 0xa5);
    RcRegisterNext(7 * round + 5, 0x3b);
    RcRegisterNext(7 * round + 6, 0x76);
    assert RoundConstants[round] == 0x0000000080008009;
    RoundConstantFromRegisters(round, 0x41, 0x82, 0x75, 0xea, 0xa5, 0x3b, 0x76);
  }

  /** Round 11: the register values rc(7 * 11 + j) reads and the constant they give. */
  lemma RoundConstantRow11(round: nat)
    requires round == 11 && RcRegister(7 * round) == RoundStartRegisters[round]
    ensures round + 1 < RoundSize ==> RcRegister(7 * round + 7) == RoundStartRegisters[round + 1]
    ensures RoundConstant(round) == RoundConstants[round]
  {
    assert RoundStartRegisters[round] == 0xec && RoundStartRegisters[round + 1] == 0xd5;
    RcRegisterNext(7 * round, 0xec);
    RcRegisterNext(7 * round + 1, 0xa9);
    RcRegisterNext(7 * round + 2, 0x23);
    RcRegisterNext(7 * round + 3, 0x46);
    RcRegisterNext(7 * round + 4, 0x8c);
    RcRegisterNext(7 * round + 5, 0x69);
    RcRegisterNext(7 * round + 6, 0xd2);
    assert RoundConstants[round] == 0x000000008000000A;
    RoundConstantFromRegisters(round, 0xec, 0xa9, 0x23, 0x46, 0x8c, 0x69, 0xd2);
  }

  /** Round 12: the register values rc(7 * 12 + j) reads and the constant they give. */
  lemma RoundConstantRow12(round: nat)
    requires round == 12 && RcRegister(7 * round) == RoundStartRegisters[round]
    ensures round + 1 < RoundSize ==> RcRegister(7 * round + 7) == RoundStartRegisters[round + 1]
    ensures RoundConstant(round) == RoundConstants[round]
  {
    assert RoundStartRegisters[round] == 0xd5 && RoundStartRegisters[round + 1] == 0xcd;
    RcRegisterNext(7 * round, 0xd5);
    RcRegisterNext(7 * round + 1, 0xdb);
    RcRegisterNext(7 * round + 2, 0xc7);
    RcRegisterNext(7 * round + 3, 0xff);
    RcRegisterNext(7 * round + 4, 0x8f);
    RcRegisterNext(7 * round + 5, 0x6f);
    RcRegisterNext(7 * round + 6, 0xde);
    assert RoundConstants[round] == 0x000000008000808B;
    RoundConstantFromRegisters(round, 0xd5, 0xdb, 0xc7, 0xff, 0x8f, 0x6f, 0xde);
  }

  /** Round 13: the register values rc(7 * 13 + j) reads and the constant they give. */
  lemma RoundConstantRow13(round: nat)
    requires round == 13 && RcRegister(7 * round) == RoundStartRegisters[round]
    ensures round + 1 < RoundSize ==> RcRegister(7 * round + 7) == RoundStartRegisters[round + 1]
    ensures RoundConstant(round) == RoundConstants[round]
  {
    assert RoundStartRegisters[round] == 0xcd && RoundStartRegisters[round + 1] == 0x63;
    RcRegisterNext(7 * round, 0xcd);
    RcRegisterNext(7 * round + 1, 0xeb);
    RcRegisterNext(7 * round + 2, 0xa7);
    RcRegisterNext(7 * round + 3, 0x3f);
    RcRegisterNext(7 * round + 4, 0x7e);
    RcRegisterNext(7 * round + 5, 0xfc);
    RcRegisterNext(7 * round + 6, 0x89);
    assert RoundConstants[round] == 0x800000000000008B;
    RoundConstantFromRegisters(round, 0xcd, 0xeb, 0xa7, 0x3f, 0x7e, 0xfc, 0x89);
  }

  /** Round 14: the register values rc(7 * 14 + j) reads and the constant they give. */
  lemma RoundConstantRow14(round: nat)
    requires round == 14 && RcRegister(7 * round) == RoundStartRegisters[round]
    ensures round + 1 < RoundSize ==> RcRegister(7 * round + 7) == RoundStartRegisters[round + 1]
    ensures RoundConstant(round) == RoundConstants[round]
  {
    assert RoundStartRegisters[round] == 0x63 && RoundStartRegisters[round + 1] == 0xab;
    RcRegisterNext(7 * round, 0x63);
    RcRegisterNext(7 * round + 1, 0xc6);
    RcRegisterNext(7 * round + 2, 0xfd);
    RcRegisterNext(7 * round + 3, 0x8b);
    RcRegisterNext(7 * round + 4, 0x67);
    RcRegisterNext(7 * round + 5, 0xce);
    RcRegisterNext(7 * round + 6, 0xed);
    assert RoundConstants[round] == 0x8000000000008089;
    RoundConstantFromRegisters(round, 0x63, 0xc6, 0xfd, 0x8b, 0x67, 0xce, 0xed);
  }

  /** Round 15: the register values rc(7 * 15 + j) reads and the constant they give. */
  lemma RoundConstantRow15(round: nat)
    requires round == 15 && RcRegister(7 * round) == RoundStartRegisters[round]
    ensures round + 1 < RoundSize ==> RcRegister(7 * round + 7) == RoundStartRegisters[round + 1]
    ensures RoundConstant(round) == RoundConstants[round]
  {
    assert RoundStartRegisters[round] == 0xab && RoundStartRegisters[round + 1] == 0xaa;
    RcRegisterNext(7 * round, 0xab);
    RcRegisterNext(7 * round + 1, 0x27);
    RcRegisterNext(7 * round + 2, 0x4e);
    RcRegisterNext(7 * round + 3, 0x9c);
    RcRegisterNext(7 * round + 4, 0x49);
    RcRegisterNext(7 * round + 5, 0x92);
    RcRegisterNext(7 * round + 6, 0x55);
    assert RoundConstants[round] == 0x8000000000008003;
    RoundConstantFromRegisters(round, 0xab, 0x27, 0x4e, 0x9c, 0x49, 0x92, 0x55);
  }

  /** Round 16: the register values rc(7 * 16 + j) reads and the constant they give. */
  lemma RoundConstantRow16(round: nat)
    requires round == 16 && RcRegister(7 * round) == RoundStartRegisters[round]
    ensures round + 1 < RoundSize ==> RcRegister(7 * round + 7) == RoundStartRegisters[round + 1]
    ensures RoundConstant(round) == RoundConstants[round]
  {
    assert RoundStartRegisters[round] == 0xaa && RoundStartRegisters[round + 1] == 0x2a;
    RcRegisterNext(7 * round, 0xaa);
    RcRegisterNext(7 * round + 1, 0x25);
    RcRegisterNext(7 * round + 2, 0x4a);
    RcRegisterNext(7 * round + 3, 0x94);
    RcRegisterNext(7 * round + 4, 0x59);
    RcRegisterNext(7 * round + 5, 0xb2);
    RcRegisterNext(7 * round + 6, 0x15);
    assert RoundConstants[round] == 0x8000000000008002;
    RoundConstantFromRegisters(round, 0xaa, 0x25, 0x4a, 0x94, 0x59, 0xb2, 0x15);
  }

  /** Round 17: the register values rc(7 * 17 + j) reads and the constant they give. */
  lemma RoundConstantRow17(round: nat)
    requires round == 17 && RcRegister(7 * round) == RoundStartRegisters[round]
    ensures round + 1 < RoundSize ==> RcRegister(7 * round + 7) == RoundStartRegisters[round + 1]
    ensures RoundConstant(round) == RoundConstants[round]
  {
    assert RoundStartRegisters[round] == 0x2a && RoundStartRegisters[round + 1] == 0xf2;
    RcRegisterNext(7 * round, 0x2a);
    RcRegisterNext(7 * round + 1, 0x54);
    RcRegisterNext(7 * round + 2, 0xa8);
    RcRegisterNext(7 * round + 3, 0x21);
    RcRegisterNext(7 * round + 4, 0x42);
    RcRegisterNext(7 * round + 5, 0x84);
    RcRegisterNext(7 * round + 6, 0x79);
    assert RoundConstants[round] == 0x8000000000000080;
    RoundConstantFromRegisters(round, 0x2a, 0x54, 0xa8, 0x21, 0x42, 0x84, 0x79);
  }

  /** Round 18: the register values rc(7 * 18 + j) reads and the constant they give. */
  lemma RoundConstantRow18(round: nat)
    requires round == 18 && RcRegister(7 * round) == RoundStartRegisters[round]
    ensures round + 1 < RoundSize ==> RcRegister(7 * round + 7) == RoundStartRegisters[round + 1]
    ensures RoundConstant(round) == RoundConstants[round]
  {
    assert RoundStartRegisters[round] == 0xf2 && RoundStartRegisters[round + 1] == 0xe8;
    RcRegisterNext(7 * round, 0xf2);
    RcRegisterNext(7 * round + 1, 0x95);
    RcRegisterNext(7 * round + 2, 0x5b);
    RcRegisterNext(7 * round + 3, 0xb6);
    RcRegisterNext(7 * round + 4, 0x1d);
    RcRegisterNext(7 * round + 5, 0x3a);
    RcRegisterNext(7 * round + 6, 0x74);
    assert RoundConstants[round] == 0x000000000000800A;
    RoundConstantFromRegisters(round, 0xf2, 0x95, 0x5b, 0xb6, 0x1d, 0x3a, 0x74);
  }

  /** Round 19: the register values rc(7 * 19 + j) reads and the constant they give. */
  lemma RoundConstantRow19(round: nat)
    requires round == 19 && RcRegister(7 * round) == RoundStartRegisters[round]
    ensures round + 1 < RoundSize ==> RcRegister(7 * round + 7) == RoundStartRegisters[round + 1]
    ensures RoundConstant(round) == RoundConstants[round]
  {
    assert RoundStartRegisters[round] == 0xe8 && RoundStartRegisters[round + 1] == 0x37;
    RcRegisterNext(7 * round, 0xe8);
    RcRegisterNext(7 * round + 1, 0xa1);
    RcRegisterNext(7 * round + 2, 0x33);
    RcRegisterNext(7 * round + 3, 0x66);
    RcRegisterNext(7 * round + 4, 0xcc);
    RcRegisterNext(7 * round + 5, 0xe9);
    RcRegisterNext(7 * round + 6, 0xa3);
    assert RoundConstants[round] == 0x800000008000000A;
    RoundConstantFromRegisters(round, 0xe8, 0xa1, 0x33, 0x66, 0xcc, 0xe9, 0xa3);
  }

  /** Round 20: the register values rc(7 * 20 + j) reads and the constant they give. */
  lemma RoundConstantRow20(round: nat)
    requires round == 20 && RcRegister(7 * round) == RoundStartRegisters[round]
    ensures round + 1 < RoundSize ==> RcRegister(7 * round + 7) == RoundStartRegisters[round + 1]
    ensures RoundConstant(round) == RoundConstants[round]
  {
    assert RoundStartRegisters[round] == 0x37 && RoundStartRegisters[round + 1] == 0x3e;
    RcRegisterNext(7 * round, 0x37);
    RcRegisterNext(7 * round + 1, 0x6e);
    RcRegisterNext(7 * round + 2, 0xdc);
    RcRegisterNext(7 * round + 3, 0xc9);
    RcRegisterNext(7 * round + 4, 0xe3);
    RcRegisterNext(7 * round + 5, 0xb7);
    RcRegisterNext(7 * round + 6, 0x1f);
    assert RoundConstants[round] == 0x8000000080008081;
    RoundConstantFromRegisters(round, 0x37, 0x6e, 0xdc, 0xc9, 0xe3, 0xb7, 0x1f);
  }

  /** Round 21: the register values rc(7 * 21 + j) reads and the constant they give. */
  lemma RoundConstantRow21(round: nat)
    requires round == 21 && RcRegister(7 * round) == RoundStartRegisters[round]
    ensures round + 1 < RoundSize ==> RcRegister(7 * round + 7) == RoundStartRegisters[round + 1]
    ensures RoundConstant(round) == RoundConstants[round]
  {
    assert RoundStartRegisters[round] == 0x3e && RoundStartRegisters[round + 1] == 0xb;
    RcRegisterNext(7 * round, 0x3e);
    RcRegisterNext(7 * round + 1, 0x7c);
    RcRegisterNext(7 * round + 2, 0xf8);
    RcRegisterNext(7 * round + 3, 0x81);
    RcRegisterNext(7 * round + 4, 0x73);
    RcRegisterNext(7 * round + 5, 0xe6);
    RcRegisterNext(7 * round + 6, 0xbd);
    assert RoundConstants[round] == 0x8000000000008080;
    RoundConstantFromRegisters(round, 0x3e, 0x7c, 0xf8, 0x81, 0x73, 0xe6, 0xbd);
  }

  /** Round 22: the register values rc(7 * 22 + j) reads and the constant they give. */
  lemma RoundConstantRow22(round: nat)
    requires round == 22 && RcRegister(7 * round) == RoundStartRegisters[round]
    ensures round + 1 < RoundSize ==> RcRegister(7 * round + 7) == RoundStartRegisters[round + 1]
    ensures RoundConstant(round) == RoundConstants[round]
  {
    assert RoundStartRegisters[round] == 0xb && RoundStartRegisters[round + 1] == 0x44;
    RcRegisterNext(7 * round, 0xb);
    RcRegisterNext(7 * round + 1, 0x16);
    RcRegisterNext(7 * round + 2, 0x2c);
    RcRegisterNext(7 * round + 3, 0x58);
    RcRegisterNext(7 * round + 4, 0xb0);
    RcRegisterNext(7 * round + 5, 0x11);
    RcRegisterNext(7 * round + 6, 0x22);
    assert RoundConstants[round] == 0x0000000080000001;
    RoundConstantFromRegisters(round, 0xb, 0x16, 0x2c, 0x58, 0xb0, 0x11, 0x22);
  }

  /** Round 23: the register values rc(7 * 23 + j) reads and the constant they give. */
  lemma RoundConstantRow23(round: nat)
    requires round == 23 && RcRegister(7 * round) == RoundStartRegisters[round]
    ensures RoundConstant(round) == RoundConstants[round]
  {
    assert RoundStartRegisters[round] == 0x44;
    RcRegisterNext(7 * round, 0x44);
    RcRegisterNext(7 * round + 1, 0x88);
    RcRegisterNext(7 * round + 2, 0x61);
    RcRegisterNext(7 * round + 3, 0xc2);
    RcRegisterNext(7 * round + 4, 0xf5);
    RcRegisterNext(7 * round + 5, 0x9b);
    RcRegisterNext(7 * round + 6, 0x47);
    assert RoundConstants[round] == 0x8000000080008008;
    RoundConstantFromRegisters(round, 0x44, 0x88, 0x61, 0xc2, 0xf5, 0x9b, 0x47);
  }

  /** One round of the register walk, by the row lemma for that round. */
  lemma RoundConstantRow(round: nat)
    requires round < RoundSize
    requires RcRegister(7 * round) == RoundStartRegisters[round]
    ensures round + 1 < RoundSize ==> RcRegister(7 * round + 7) == RoundStartRegisters[round + 1]
    ensures RoundConstant(round) == RoundConstants[round]
  {
    if round == 0 { RoundConstantRow0(round); }
    else if round == 1 { RoundConstantRow1(round); }
    else if round == 2 { RoundConstantRow2(round); }
    else if round == 3 { RoundConstantRow3(round); }
    else if round == 4 { RoundConstantRow4(round); }
    else if round == 5 { RoundConstantRow5(round); }
    else if round == 6 { RoundConstantRow6(round); }
    else if round == 7 { RoundConstantRow7(round); }
    else if round == 8 { RoundConstantRow8(round); }
    else if round == 9 { RoundConstantRow9(round); }
    else if round == 10 { RoundConstantRow10(round); }
    else if round == 11 { RoundConstantRow11(round); }
    else if round == 12 { RoundConstantRow12(round); }
    else if round == 13 { RoundConstantRow13(round); }
    else if round == 14 { RoundConstantRow14(round); }
    else if round == 15 { RoundConstantRow15(round); }
    else if round == 16 { RoundConstantRow16(round); }
    else if round == 17 { RoundConstantRow17(round); }
    else if round == 18 { RoundConstantRow18(round); }
    else if round == 19 { RoundConstantRow19(round); }
    else if round == 20 { RoundConstantRow20(round); }
    else if round == 21 { RoundConstantRow21(round); }
    else if round == 22 { RoundConstantRow22(round); }
    else { RoundConstantRow23(round); }
  }

  /** The register reaches the tabulated value at the start of every round. */
  lemma {:induction false} RoundStartRegister(round: nat)
    requires round < RoundSize
    ensures RcRegister(7 * round) == RoundStartRegisters[round]
  {
    if round > 0 {
      var previous := round - 1;
      RoundStartRegister(previous);
      RoundConstantRow(previous);
      assert 7 * previous + 7 == 7 * round;
    }
  }

  /** The table the source computes at compile time is the published one. */
  lemma RoundConstantsPublished(round: nat)
    requires round < RoundSize
    ensures RoundConstant(round) == RoundConstants[round]
  {
    RoundStartRegister(round);
    RoundConstantRow(round);
  }

  // -------------------------------------------------------------------- rho

  /** (x, y) at step t of the walk of FIPS 202 Algorithm 2: from (1, 0), (x, y) becomes (y, (2x + 3y) mod 5). */
  function Walk(t: nat): (p: (nat, nat))
    ensures p.0 < 5 && p.1 < 5
  {
    if t == 0 then (1, 0) else var q := Walk(t - 1); (q.1, (2 * q.0 + 3 * q.1) % 5)
  }

  /** One step of the walk from the pair it is at. */
  lemma WalkNextPair(t: nat, x: nat, y: nat)
    requires (x, y) == Walk(t)
    ensures Walk(t + 1) == (y, (2 * x + 3 * y) % CommonFactor)
  {
  }

  /** The offset of step t: (t + 1)(t + 2) / 2 mod w. */
  function RhoOffset(t: nat): nat {
    ((t + 1) * (t + 2) / 2) % 64
  }

  /** The lane the walk visits at each step t < 24. */
  const WalkOrder: seq<nat> := [1, 10, 7, 11, 17, 18, 3, 5, 16, 8, 21, 24, 4, 15, 23, 19, 13, 12, 2, 20, 14, 22, 9, 6]
  /** The step at which the walk visits each lane; lane 0 is never visited. */
  const WalkStep: seq<nat> := [0, 0, 18, 6, 12, 7, 23, 2, 9, 22, 1, 3, 17, 16, 20, 13, 8, 4, 5, 15, 19, 10, 21, 14, 11]

  /** The rotation offsets of FIPS 202 Table 2, indexed by 5y + x. */
  const RhoOffsets: seq<int> := [0, 1, 62, 28, 27, 36, 44, 6, 55, 20, 3, 10, 43, 25, 39, 41, 45, 15, 21, 8, 18, 2, 61, 56, 14]

  /** Where the walk goes from (x, y): the index of (y, (2x + 3y) mod 5). */
  function WalkNext(x: nat, y: nat): nat {
    5 * ((2 * x + 3 * y) % 5) + y
  }

  /** Each entry of WalkOrder is where the walk goes from the lane of the entry before it. */
  lemma WalkOrderStep(s: nat)
    requires s < 23
    ensures WalkNext(WalkOrder[s] % 5, WalkOrder[s] / 5) == WalkOrder[s + 1]
  {
    if s < 8 {
      WalkOrderStepFrom(s, 0);
    } else if s < 16 {
      WalkOrderStepFrom(s, 8);
    } else {
      WalkOrderStepFrom(s, 16);
    }
  }

  /** WalkOrderStep for up to eight consecutive steps from `lo`. */
  lemma WalkOrderStepFrom(s: nat, lo: nat)
    requires lo == 0 || lo == 8 || lo == 16
    requires lo <= s < lo + 8 && s < 23
    ensures WalkNext(WalkOrder[s] % 5, WalkOrder[s] / 5) == WalkOrder[s + 1]
  {
    var k := s - lo;
    assert k == 0 || k == 1 || k == 2 || k == 3 || k == 4 || k == 5 || k == 6 || k == 7;
  }

  /** The walk visits the lanes in the order `WalkOrder`. */
  lemma {:induction false} WalkAt(t: nat)
    requires t < 24
    ensures CalculateIndex(Walk(t).0, Walk(t).1) == WalkOrder[t]
  {
    if t > 0 {
      WalkAt(t - 1);
      WalkAtNext(t - 1);
    }
  }

  /** If step s is at lane WalkOrder[s], step s + 1 is at lane WalkOrder[s + 1]. */
  lemma WalkAtNext(s: nat)
    requires s < 23 && CalculateIndex(Walk(s).0, Walk(s).1) == WalkOrder[s]
    ensures CalculateIndex(Walk(s + 1).0, Walk(s + 1).1) == WalkOrder[s + 1]
  {
    var p := Walk(s);
    var i := CalculateIndex(p.0, p.1);
    IndexOfSmall(p.0, p.1);
    DivModUnique(i, 5, p.1, p.0);
    WalkOrderStep(s);
    IndexOfMove(p.0, p.1);
    assert Walk(s + 1) == (p.1, (2 * p.0 + 3 * p.1) % 5);
    assert WalkNext(i % 5, i / 5) == WalkOrder[s + 1];
  }

  /** The index of the lane the walk moves to from (x, y). */
  lemma IndexOfMove(x: nat, y: nat)
    requires x < 5 && y < 5
    ensures CalculateIndex(y, (2 * x + 3 * y) % 5) == WalkNext(x, y)
  {
    IndexOfSmall(y, (2 * x + 3 * y) % 5);
  }

  /** For coordinates below 5 the lane index is 5y + x. */
  lemma IndexOfSmall(x: nat, y: nat)
    requires x < 5 && y < 5
    ensures CalculateIndex(x, y) == 5 * y + x
  {
    ModFiveShift(x, 0);
    ModFiveShift(y, 0);
  }

  /** Step t visits a lane other than (0, 0), whose step is t and whose published offset is that of step t. */
  lemma WalkStepInverse(t: nat)
    requires t < 24
    ensures WalkOrder[t] != 0 && WalkStep[WalkOrder[t]] == t && RhoOffsets[WalkOrder[t]] == RhoOffset(t)
  {
    if t < 8 {
      WalkStepInverseFrom(t, 0);
    } else if t < 16 {
      WalkStepInverseFrom(t, 8);
    } else {
      WalkStepInverseFrom(t, 16);
    }
  }

  /** WalkStepInverse for eight consecutive steps from `lo`. */
  lemma WalkStepInverseFrom(t: nat, lo: nat)
    requires lo == 0 || lo == 8 || lo == 16
    requires lo <= t < lo + 8
    ensures WalkOrder[t] != 0 && WalkStep[WalkOrder[t]] == t && RhoOffsets[WalkOrder[t]] == RhoOffset(t)
  {
    var k := t - lo;
    assert k == 0 || k == 1 || k == 2 || k == 3 || k == 4 || k == 5 || k == 6 || k == 7;
  }

  /** Every lane other than (0, 0) is visited, at step WalkStep[i]. */
  lemma WalkOnto(i: nat)
    requires 0 < i < SpongeWords
    ensures WalkStep[i] < 24 && WalkOrder[WalkStep[i]] == i
  {
  }

  /** The offsets table after the first t steps of the walk: visited lanes hold their offset, the rest 0. */
  function RhoOffsetsAfter(t: nat): (r: seq<int>)
    ensures |r| == SpongeWords
  {
    seq(SpongeWords, i requires 0 <= i < SpongeWords => if i != 0 && WalkStep[i] < t then RhoOffset(WalkStep[i]) else 0)
  }

  /** Step t of the walk writes the offset of step t into the lane it visits. */
  lemma RhoOffsetsStep(t: nat)
    requires t < 24
    ensures RhoOffsetsAfter(t)[WalkOrder[t] := RhoOffset(t)] == RhoOffsetsAfter(t + 1)
  {
    WalkStepInverse(t);
    var written := RhoOffsetsAfter(t)[WalkOrder[t] := RhoOffset(t)];
    forall i | 0 <= i < SpongeWords
      ensures written[i] == RhoOffsetsAfter(t + 1)[i]
    {
      if i != 0 {
        WalkOnto(i);
      }
    }
  }

  /** After all 24 steps the table is the published one. */
  lemma RhoOffsetsComplete()
    ensures RhoOffsetsAfter(24) == RhoOffsets
  {
    forall i | 0 <= i < SpongeWords
      ensures RhoOffsetsAfter(24)[i] == RhoOffsets[i]
    {
      if i != 0 {
        WalkOnto(i);
        WalkStepInverse(WalkStep[i]);
      }
    }
  }

  /** step_mapping_rho_rotation_bits: the offsets computed by walking the 24 lanes; (0, 0) keeps offset 0. */
  method StepMappingRhoRotationBits() returns (result: seq<int>)
    ensures result == RhoOffsets
  {
    var bits := new int[SpongeWords](_ => 0);
    var x, y, t := 1, 0, 0;
    while t < 24
      invariant t <= 24 && (x, y) == Walk(t)
      invariant bits[..] == RhoOffsetsAfter(t)
    {
      WalkAt(t);
      RhoOffsetsStep(t);
      bits[CalculateIndex(x, y)] := ((t + 1) * (t + 2) / 2) % 64;
      WalkNextPair(t, x, y);
      var tmp := y;
      y := (2 * x + 3 * y) % CommonFactor;
      x := tmp;
      t := t + 1;
    }
    RhoOffsetsComplete();
    result := bits[..];
  }

  /** Lane i after rho: rotated left by its offset; the offset of lane (0, 0) is 0. */
  function Rho(a: seq<bv64>): (r: seq<bv64>)
    requires |a| == SpongeWords
    ensures |r| == SpongeWords
  {
    seq(SpongeWords, i requires 0 <= i < SpongeWords => Rotl(a[i], RhoOffsets[i]))
  }

  /** Lane (0, 0) is not rotated, which is why the source may also copy it first. */
  lemma RhoKeepsOrigin(a: seq<bv64>)
    requires |a| == SpongeWords
    ensures Rho(a)[0] == a[0]
  {
  }

  /** Lane i of rho is lane i rotated by the offset FIPS 202 Algorithm 2 gives the step that reaches it. */
  lemma RhoAlongWalk(a: seq<bv64>, t: nat)
    requires |a| == SpongeWords && t < 24
    ensures var i := CalculateIndex(Walk(t).0, Walk(t).1);
      Rho(a)[i] == Rotl(a[i], RhoOffset(t))
  {
    WalkAt(t);
    WalkStepInverse(t);
  }

  // --------------------------------------------------------------------- pi

  /** Lane (x, y) after pi: lane (x + 3y, x) of the input. */
  function PiLane(a: seq<bv64>, x: nat, y: nat): bv64
    requires |a| == SpongeWords
  {
    Lane(a, x + 3 * y, x)
  }

  function Pi(a: seq<bv64>): (r: seq<bv64>)
    requires |a| == SpongeWords
    ensures |r| == SpongeWords
  {
    seq(SpongeWords, i requires 0 <= i < SpongeWords => PiLane(a, i % 5, i / 5))
  }

  /** Lane (x, y) of pi(A), read at its index. */
  lemma PiAt(a: seq<bv64>, x: nat, y: nat)
    requires |a| == SpongeWords && x < 5 && y < 5
    ensures Pi(a)[CalculateIndex(x, y)] == a[CalculateIndex(x + 3 * y, x)]
  {
    LaneAtIndex(a, x, y, CalculateIndex(x, y));
  }

  /** Lane (x, y) after undoing pi: lane (y, 2x + 3y) of the input. */
  function PiInverseLane(a: seq<bv64>, x: nat, y: nat): bv64
    requires |a| == SpongeWords
  {
    Lane(a, y, 2 * x + 3 * y)
  }

  function PiInverse(a: seq<bv64>): (r: seq<bv64>)
    requires |a| == SpongeWords
    ensures |r| == SpongeWords
  {
    seq(SpongeWords, i requires 0 <= i < SpongeWords => PiInverseLane(a, i % 5, i / 5))
  }

  /** x + 5k is x modulo 5, for x < 5. */
  lemma ModFiveShift(x: nat, k: int)
    requires x < 5 && x + 5 * k >= 0
    ensures (x + 5 * k) % 5 == x
  {
    DivModUnique(x + 5 * k, 5, k, x);
  }

  /** The coordinate maps of pi and of its inverse undo each other. */
  lemma PiCoordinates(x: nat, y: nat)
    requires x < 5 && y < 5
    ensures (y + 3 * ((2 * x + 3 * y) % 5)) % 5 == x
    ensures (2 * ((x + 3 * y) % 5) + 3 * x) % 5 == y
  {
    var q, m := (2 * x + 3 * y) / 5, (2 * x + 3 * y) % 5;
    assert y + 3 * m == x + 5 * (x + 2 * y - 3 * q);
    ModFiveShift(x, x + 2 * y - 3 * q);
    var q', m' := (x + 3 * y) / 5, (x + 3 * y) % 5;
    assert 2 * m' + 3 * x == y + 5 * (x + y - 2 * q');
    ModFiveShift(y, x + y - 2 * q');
  }

  /** Lane (x, y) survives pi followed by its inverse. */
  lemma PiInverseOfPiLane(a: seq<bv64>, x: nat, y: nat)
    requires |a| == SpongeWords && x < 5 && y < 5
    ensures Lane(PiInverse(Pi(a)), x, y) == Lane(a, x, y)
  {
    var p := Pi(a);
    LaneAtIndex(PiInverse(p), x, y, CalculateIndex(x, y));
    var v := (2 * x + 3 * y) % 5;
    LaneModulo(p, y, 2 * x + 3 * y);
    LaneAtIndex(p, y, v, CalculateIndex(y, v));
    PiCoordinates(x, y);
    LaneModulo(a, y + 3 * v, y);
  }

  /** pi only moves lanes: undoing it gives the input back. */
  lemma PiInverseOfPi(a: seq<bv64>)
    requires |a| == SpongeWords
    ensures PiInverse(Pi(a)) == a
  {
    forall x: nat, y: nat | x < 5 && y < 5
      ensures Lane(PiInverse(Pi(a)), x, y) == Lane(a, x, y)
    {
      PiInverseOfPiLane(a, x, y);
    }
    LanesDetermineState(PiInverse(Pi(a)), a);
  }

  /** Lane (x, y) survives the inverse of pi followed by pi. */
  lemma PiOfPiInverseLane(a: seq<bv64>, x: nat, y: nat)
    requires |a| == SpongeWords && x < 5 && y < 5
    ensures Lane(Pi(PiInverse(a)), x, y) == Lane(a, x, y)
  {
    var p := PiInverse(a);
    LaneAtIndex(Pi(p), x, y, CalculateIndex(x, y));
    var u := (x + 3 * y) % 5;
    LaneModulo(p, x + 3 * y, x);
    LaneAtIndex(p, u, x, CalculateIndex(u, x));
    PiCoordinates(x, y);
    LaneModulo(a, x, 2 * u + 3 * x);
  }

  /** ... and pi undoes its inverse, so pi is a permutation of the lanes. */
  lemma PiOfPiInverse(a: seq<bv64>)
    requires |a| == SpongeWords
    ensures Pi(PiInverse(a)) == a
  {
    forall x: nat, y: nat | x < 5 && y < 5
      ensures Lane(Pi(PiInverse(a)), x, y) == Lane(a, x, y)
    {
      PiOfPiInverseLane(a, x, y);
    }
    LanesDetermineState(Pi(PiInverse(a)), a);
  }

  // -------------------------------------------------------------------- chi

  /** A lane XORed with the complement of the next lane ANDed with the lane after it. */
  function ChiMix(lane: bv64, next: bv64, afterNext: bv64): bv64
  {
    lane ^ (!next & afterNext)
  }

  /** Lane (x, y) after chi, mixed with lanes (x + 1, y) and (x + 2, y). */
  function ChiLane(a: seq<bv64>, x: nat, y: nat): bv64
    requires |a| == SpongeWords
  {
    ChiMix(Lane(a, x, y), Lane(a, x + 1, y), Lane(a, x + 2, y))
  }

  function Chi(a: seq<bv64>): (r: seq<bv64>)
    requires |a| == SpongeWords
    ensures |r| == SpongeWords
  {
    seq(SpongeWords, i requires 0 <= i < SpongeWords => ChiLane(a, i % 5, i / 5))
  }

  /** Lane (x, y) of chi(A), read at its index. */
  lemma ChiAt(a: seq<bv64>, x: nat, y: nat)
    requires |a| == SpongeWords && x < 5 && y < 5
    ensures Chi(a)[CalculateIndex(x, y)] == ChiMix(a[CalculateIndex(x, y)], a[CalculateIndex(x + 1, y)], a[CalculateIndex(x + 2, y)])
  {
    var k := CalculateIndex(x, y);
    LaneAtIndex(a, x, y, k);
    assert Chi(a)[k] == ChiLane(a, x, y);
  }

  /** Lane (x, y) of chi(A) is the chi lane computed from A at (x, y). */
  lemma LaneOfChi(a: seq<bv64>, x: nat, y: nat)
    requires |a| == SpongeWords && x < 5 && y < 5
    ensures Lane(Chi(a), x, y) == ChiLane(a, x, y)
  {
    LaneAtIndex(Chi(a), x, y, CalculateIndex(x, y));
  }

  /** A chi lane reads only its own lane and the next two lanes of its row. */
  lemma ChiLaneReads(a: seq<bv64>, b: seq<bv64>, x: nat, y: nat)
    requires |a| == SpongeWords && |b| == SpongeWords && x < 5 && y < 5
    requires Lane(a, x, y) == Lane(b, x, y)
    requires Lane(a, (x + 1) % 5, y) == Lane(b, (x + 1) % 5, y)
    requires Lane(a, (x + 2) % 5, y) == Lane(b, (x + 2) % 5, y)
    ensures ChiLane(a, x, y) == ChiLane(b, x, y)
  {
    assert y % 5 == y;
    assert Lane(a, x + 1, y) == Lane(b, x + 1, y) by {
      LaneModulo(a, x + 1, y);
      LaneModulo(b, x + 1, y);
    }
    assert Lane(a, x + 2, y) == Lane(b, x + 2, y) by {
      LaneModulo(a, x + 2, y);
      LaneModulo(b, x + 2, y);
    }
  }

  /** chi works row by row: the lanes of row y depend only on row y. */
  lemma ChiRowLocal(a: seq<bv64>, b: seq<bv64>, y: nat)
    requires |a| == SpongeWords && |b| == SpongeWords && y < 5
    requires forall x :: 0 <= x < 5 ==> Lane(a, x, y) == Lane(b, x, y)
    ensures forall x :: 0 <= x < 5 ==> Lane(Chi(a), x, y) == Lane(Chi(b), x, y)
  {
    forall x | 0 <= x < 5
      ensures Lane(Chi(a), x, y) == Lane(Chi(b), x, y)
    {
      LaneOfChi(a, x, y);
      LaneOfChi(b, x, y);
      ChiLaneReads(a, b, x, y);
    }
  }

  // ------------------------------------------------------------ iota (tau)

  /** tau: lane (0, 0) is XORed with entry `round` of the round-constant table; no other lane changes. */
  function Iota(a: seq<bv64>, round: nat): (r: seq<bv64>)
    requires |a| == SpongeWords && round < RoundSize
    ensures |r| == SpongeWords
  {
    seq(SpongeWords, i requires 0 <= i < SpongeWords => if i == 0 then a[i] ^ RoundConstants[round] else a[i])
  }

  /** The same round's tau twice is the identity, and it touches lane (0, 0) only. */
  lemma IotaInvolution(a: seq<bv64>, round: nat)
    requires |a| == SpongeWords && round < RoundSize
    ensures Iota(Iota(a, round), round) == a
    ensures forall i :: 0 < i < SpongeWords ==> Iota(a, round)[i] == a[i]
  {
  }

  /** tau as an update of lane (0, 0) alone. */
  lemma IotaUpdatesOrigin(a: seq<bv64>, round: nat)
    requires |a| == SpongeWords && round < RoundSize
    ensures Iota(a, round) == a[0 := a[0] ^ RoundConstants[round]]
  {
  }

  // ----------------------------------------------------------------- rounds

  /** One round of Keccak-p: tau(chi(pi(rho(theta(A))))). */
  function Round(a: seq<bv64>, round: nat): (r: seq<bv64>)
    requires |a| == SpongeWords && round < RoundSize
    ensures |r| == SpongeWords
  {
    Iota(Chi(Pi(Rho(Theta(a)))), round)
  }

  /** Rounds `first` to 23 applied in order. */
  function RoundsFrom(a: seq<bv64>, first: nat): (r: seq<bv64>)
    requires |a| == SpongeWords && first <= RoundSize
    ensures |r| == SpongeWords
    decreases RoundSize - first
  {
    if first == RoundSize then a else RoundsFrom(Round(a, first), first + 1)
  }

  /** With no rounds left, nothing happens. */
  lemma RoundsFromEnd(a: seq<bv64>, first: nat)
    requires |a| == SpongeWords && first == RoundSize
    ensures RoundsFrom(a, first) == a
  {
  }

  /**
   * Keccak-p[1600, 24], the 24 rounds numbered 0 to 23, as the f of SPONGE[f, pad, r]; it is
   * written total over lane strings, and only 25-lane states ever reach it.
   */
  function KeccakPermutation(a: seq<bv64>): (r: seq<bv64>)
    ensures |a| == SpongeWords ==> |r| == SpongeWords
  {
    if |a| == SpongeWords then RoundsFrom(a, 0) else a
  }

  // ----------------------------------------------------------------- sponge

  /** 2^64, the number of values of a lane. */
  lemma Pow256Eight()
    ensures Pow256(8) == 0x1_0000_0000_0000_0000
  {
  }

  /** make_number for a 64-bit lane: eight bytes, least significant first. */
  function LaneOfBytes(bytes: seq<byte>): bv64
    requires |bytes| == WordBytes
  {
    var n := MakeNumber(bytes, false);
    Pow256Eight();
    n as bv64
  }

  /** Lane i of a block: bytes 8i to 8i + 7, least significant first, as FIPS 202 orders the bits of a string. */
  function BlockWord(block: seq<byte>, i: nat): bv64
    requires WordBytes * i + WordBytes <= |block|
  {
    LaneOfBytes(block[WordBytes * i .. WordBytes * i + WordBytes])
  }

  /** The lanes of a block, one per eight bytes. */
  function BlockWords(block: seq<byte>): (r: seq<bv64>)
    ensures |r| == |block| / WordBytes
  {
    seq(|block| / WordBytes, i requires 0 <= i < |block| / WordBytes => BlockWord(block, i))
  }

  /** The state after lanes 0 to n - 1 have absorbed their words. */
  function XorPrefix(a: seq<bv64>, words: seq<bv64>, n: nat): (r: seq<bv64>)
    requires |a| == SpongeWords && n <= |words|
    ensures |r| == SpongeWords
  {
    seq(SpongeWords, i requires 0 <= i < SpongeWords => if i < n then a[i] ^ words[i] else a[i])
  }

  /** Absorbing the word of lane n advances the prefix by one lane. */
  lemma XorPrefixStep(a: seq<bv64>, words: seq<bv64>, n: nat)
    requires |a| == SpongeWords && n < |words| && n < SpongeWords
    ensures XorPrefix(a, words, n)[n] == a[n]
    ensures XorPrefix(a, words, n)[n := a[n] ^ words[n]] == XorPrefix(a, words, n + 1)
  {
  }

  /** S xor (P_i || 0^c): the lanes the block covers absorb it, the capacity lanes are untouched. */
  function XorBlock(a: seq<bv64>, block: seq<byte>): (r: seq<bv64>)
    requires |a| == SpongeWords && |block| % WordBytes == 0 && |block| <= SpongeWords * WordBytes
    ensures |r| == SpongeWords
    ensures forall i :: |block| / WordBytes <= i < SpongeWords ==> r[i] == a[i]
  {
    XorPrefix(a, BlockWords(block), |block| / WordBytes)
  }

  /** One iteration of step 6 of SPONGE (FIPS 202 Algorithm 8): S = f(S xor (P_i || 0^c)). */
  function Absorb(f: seq<bv64> -> seq<bv64>, a: seq<bv64>, block: seq<byte>): (r: seq<bv64>)
    requires |a| == SpongeWords && |block| % WordBytes == 0 && |block| <= SpongeWords * WordBytes
  {
    f(XorBlock(a, block))
  }

  /** Step 6 with Keccak-p as f. */
  lemma AbsorbPermutation(a: seq<bv64>, block: seq<byte>)
    requires |a| == SpongeWords && |block| % WordBytes == 0 && |block| <= SpongeWords * WordBytes
    ensures Absorb(KeccakPermutation, a, block) == KeccakPermutation(XorBlock(a, block))
  {
  }

  /** A valid rate in bytes: a positive whole number of lanes that fits in the state. */
  predicate ValidRate(rate: nat) {
    0 < rate <= SpongeWords * WordBytes && rate % WordBytes == 0
  }

  /** f maps 25-lane states to 25-lane states. */
  ghost predicate KeepsWidth(f: seq<bv64> -> seq<bv64>) {
    forall a :: |a| == SpongeWords ==> |f(a)| == SpongeWords
  }

  /** A positive multiple of the rate is at least the rate, and one block less is still a multiple. */
  lemma MultipleLessOne(n: nat, rate: nat)
    requires rate > 0 && n > 0 && n % rate == 0
    ensures n >= rate && (n - rate) % rate == 0
  {
    var q := n / rate;
    assert n == rate * q;
    if q == 0 {
      assert false;
    }
    DivModUnique(n - rate, rate, q - 1, 0);
  }

  /** One block more keeps a multiple of the rate. */
  lemma MultiplePlusOne(n: nat, rate: nat)
    requires rate > 0 && n % rate == 0
    ensures (n + rate) % rate == 0
  {
    DivModUnique(n + rate, rate, n / rate + 1, 0);
  }

  /** Step 6 over a whole padded string: the blocks P_0 ... P_{n-1} absorbed in order. */
  function AbsorbBlocks(f: seq<bv64> -> seq<bv64>, a: seq<bv64>, p: seq<byte>, rate: nat): (r: seq<bv64>)
    requires KeepsWidth(f) && |a| == SpongeWords && ValidRate(rate) && |p| % rate == 0
    ensures |r| == SpongeWords
    decreases |p|
  {
    if |p| == 0 then a
    else
      MultipleLessOne(|p|, rate);
      AbsorbBlocks(f, Absorb(f, a, p[..rate]), p[rate..], rate)
  }

  /** Absorbing a string block by block: absorbing p then one more block is absorbing p followed by that block. */
  lemma {:induction false} AbsorbBlocksAppend(f: seq<bv64> -> seq<bv64>, a: seq<bv64>, p: seq<byte>, block: seq<byte>, rate: nat)
    requires KeepsWidth(f) && |a| == SpongeWords && ValidRate(rate) && |p| % rate == 0 && |block| == rate
    ensures |p + block| % rate == 0
    ensures AbsorbBlocks(f, a, p + block, rate) == Absorb(f, AbsorbBlocks(f, a, p, rate), block)
    decreases |p|
  {
    MultiplePlusOne(|p|, rate);
    if |p| == 0 {
      assert p + block == block && block[..rate] == block && block[rate..] == [];
      assert AbsorbBlocks(f, a, block, rate) == AbsorbBlocks(f, Absorb(f, a, block), [], rate);
    } else {
      MultipleLessOne(|p|, rate);
      var head, rest := p[..rate], p[rate..];
      assert (p + block)[..rate] == head;
      assert (p + block)[rate..] == rest + block;
      var b := Absorb(f, a, head);
      AbsorbBlocksAppend(f, b, rest, block, rate);
      assert AbsorbBlocks(f, a, p + block, rate) == AbsorbBlocks(f, b, rest + block, rate);
    }
  }

  /** The lanes of a state as a string of 200 bytes, each lane least significant byte first. */
  function StateBytes(a: seq<bv64>): (r: seq<byte>)
    requires |a| == SpongeWords
    ensures |r| == SpongeWords * WordBytes
  {
    seq(SpongeWords * WordBytes, j requires 0 <= j < SpongeWords * WordBytes => BytesLE(a[j / 8] as nat, 8)[j % 8])
  }

  /** Bytes 8i to 8i + 7 of the string are lane i, least significant first. */
  lemma StateBytesLane(a: seq<bv64>, i: nat)
    requires |a| == SpongeWords && i < SpongeWords
    ensures StateBytes(a)[8 * i .. 8 * i + 8] == BytesLE(a[i] as nat, 8)
  {
    var lane, word := StateBytes(a)[8 * i .. 8 * i + 8], BytesLE(a[i] as nat, 8);
    forall j | 0 <= j < 8
      ensures lane[j] == word[j]
    {
      DivModUnique(8 * i + j, 8, i, j);
    }
    assert lane == word;
  }

  /** Reading lane i back from the string gives lane i: the string determines the state. */
  lemma StateBytesRoundTrip(a: seq<bv64>, i: nat)
    requires |a| == SpongeWords && i < SpongeWords
    ensures BlockWord(StateBytes(a), i) == a[i]
  {
    StateBytesLane(a, i);
    Pow256Eight();
    ValueLEBytesLE(a[i] as nat, 8);
  }

  /** Trunc_d(S): the first d bytes of the state string (FIPS 202 Algorithm 8, steps 8 and 9). */
  function Trunc(a: seq<bv64>, d: nat): (r: seq<byte>)
    requires |a| == SpongeWords && d <= SpongeWords * WordBytes
    ensures |r| == d
  {
    StateBytes(a)[..d]
  }

  /** Bytes 8i to 8i + t - 1 of the string, for t up to 8, are the first t bytes of lane i as split_number gives them. */
  lemma StateBytesSplit(a: seq<bv64>, i: nat, index: nat, t: nat)
    requires |a| == SpongeWords && i < SpongeWords && index == WordBytes * i && t <= WordBytes
    ensures index + t <= |StateBytes(a)|
    ensures StateBytes(a)[index .. index + t] == SplitNumberTruncated(a[i] as nat, WordBytes, false, t)
    ensures t == WordBytes ==> StateBytes(a)[index .. index + t] == ToArray(a[i] as nat, WordBytes, false)
  {
    var s := StateBytes(a);
    StateBytesLane(a, i);
    SlicePrefix(s, index, index + 8, t);
  }

  /** The first t elements of a slice are the slice of length t at the same start. */
  lemma SlicePrefix<T>(s: seq<T>, lo: nat, hi: nat, t: nat)
    requires lo + t <= hi <= |s|
    ensures s[lo .. lo + t] == s[lo .. hi][..t]
  {
  }

  /** Copying the next `size` bytes of s after a prefix of s extends the prefix. */
  lemma PrefixExtended(before: seq<byte>, after: seq<byte>, s: seq<byte>, index: nat, bytes: seq<byte>, size: nat)
    requires index + size <= |before| && index + size <= |s| && size == |bytes|
    requires before[..index] == s[..index]
    requires after == before[..index] + bytes[..size] + before[index + size..]
    requires bytes == s[index .. index + size]
    ensures after[..index + size] == s[..index + size]
  {
    assert bytes[..size] == bytes;
    assert after[..index + size] == before[..index] + bytes[..size];
    assert s[..index + size] == s[..index] + s[index .. index + size];
  }

  // ---------------------------------------------------------------- padding

  /** Filling the last block up to the rate gives a multiple of the rate. */
  lemma PadFills(rate: nat, n: nat)
    requires rate > 0
    ensures (n + (rate - n % rate)) % rate == 0
  {
    DivModUnique(n + (rate - n % rate), rate, n / rate + 1, 0);
  }

  /** The padding bytes after an n-byte message: the suffix 01 of SHA-3 and pad10*1, packed into bytes. */
  function PadBytes(rate: nat, n: nat): (r: seq<byte>)
    requires rate > 0
    ensures 1 <= |r| <= rate && (n + |r|) % rate == 0
  {
    var k := rate - n % rate;
    PadFills(rate, n);
    if k == 1 then [0x86] else [0x06] + seq(k - 2, _ => 0) + [0x80]
  }

  /** Padding a tail shorter than the rate fills exactly the rest of the block. */
  lemma PadBytesLength(rate: nat, n: nat)
    requires n < rate
    ensures |PadBytes(rate, n)| == rate - n
  {
    DivModUnique(n, rate, 0, n);
  }

  /** The last block of a message whose unabsorbed tail is `tail`: the tail followed by its padding. */
  function LastBlock(tail: seq<byte>, rate: nat): (r: seq<byte>)
    requires |tail| < rate
    ensures |r| == rate && r[..|tail|] == tail
  {
    PadBytesLength(rate, |tail|);
    tail + PadBytes(rate, |tail|)
  }

  /** The bits of a byte, least significant first (FIPS 202 Appendix B.1). */
  function ByteBits(b: byte): (r: seq<int>)
    ensures |r| == 8
    ensures forall i :: 0 <= i < 8 ==> r[i] == (b / Pow2(i)) % 2
  {
    assert Pow2(1) == 2 && Pow2(2) == 4 && Pow2(3) == 8 && Pow2(4) == 16 && Pow2(5) == 32 && Pow2(6) == 64 && Pow2(7) == 128;
    [b % 2, b / 2 % 2, b / 4 % 2, b / 8 % 2, b / 16 % 2, b / 32 % 2, b / 64 % 2, b / 128 % 2]
  }

  /** The bit string of a byte string. */
  function BitsOf(d: seq<byte>): (r: seq<int>)
    ensures |r| == 8 * |d|
  {
    if d == [] then [] else ByteBits(d[0]) + BitsOf(d[1..])
  }

  /** A run of n zero bits. */
  function Zeros(n: nat): (r: seq<int>)
    ensures |r| == n
  {
    seq(n, _ => 0)
  }

  lemma {:induction false} BitsOfAppend(d: seq<byte>, e: seq<byte>)
    ensures BitsOf(d + e) == BitsOf(d) + BitsOf(e)
    decreases |d|
  {
    if d == [] {
      assert d + e == e;
    } else {
      assert (d + e)[1..] == d[1..] + e;
      BitsOfAppend(d[1..], e);
    }
  }

  lemma {:induction false} BitsOfZeroBytes(m: nat)
    ensures BitsOf(seq(m, _ => 0)) == Zeros(8 * m)
  {
    if m > 0 {
      var z: seq<byte> := seq(m, _ => 0);
      assert z[1..] == seq(m - 1, _ => 0);
      BitsOfZeroBytes(m - 1);
      assert ByteBits(0) == Zeros(8);
    }
  }

  lemma ZerosAppend(m: nat, n: nat)
    ensures Zeros(m) + Zeros(n) == Zeros(m + n)
  {
  }

  /** The bits of the three padding bytes, least significant first. */
  lemma PaddingByteBits()
    ensures ByteBits(0x06) == [0, 1, 1, 0, 0, 0, 0, 0]
    ensures ByteBits(0x80) == [0, 0, 0, 0, 0, 0, 0, 1]
    ensures ByteBits(0x86) == [0, 1, 1, 0, 0, 0, 0, 1]
  {
  }

  lemma ShortZeros()
    ensures Zeros(4) == [0, 0, 0, 0] && Zeros(5) == [0, 0, 0, 0, 0] && Zeros(7) == [0, 0, 0, 0, 0, 0, 0]
  {
  }

  /** A single padding byte 0x86 is the bits 01, 1, 0000, 1. */
  lemma PadBitsSingle()
    ensures BitsOf([0x86]) == [0, 1] + [1] + Zeros(4) + [1]
  {
    PaddingByteBits();
    ShortZeros();
    assert BitsOf([0x86]) == ByteBits(0x86);
  }

  /** Padding bytes 0x06, k - 2 zero bytes, 0x80 are the bits 01, 1, 8k - 4 zeros, 1. */
  lemma PadBitsLong(k: nat)
    requires k >= 2
    ensures BitsOf([0x06] + seq(k - 2, _ => 0) + [0x80]) == [0, 1] + [1] + Zeros(8 * k - 4) + [1]
  {
    var z: seq<byte> := seq(k - 2, _ => 0);
    BitsOfAppend([0x06] + z, [0x80]);
    BitsOfAppend([0x06], z);
    BitsOfZeroBytes(k - 2);
    PaddingByteBits();
    ShortZeros();
    assert BitsOf([0x06]) == ByteBits(0x06) == [0, 1, 1] + Zeros(5);
    assert BitsOf([0x80]) == ByteBits(0x80) == Zeros(7) + [1];
    ZerosAppend(5, 8 * (k - 2));
    ZerosAppend(5 + 8 * (k - 2), 7);
  }

  /** The padding bytes as bits: 01, then 1, then 8k - 4 zeros, then 1, where k is the number of padding bytes. */
  lemma PadBytesBits(rate: nat, n: nat)
    requires rate > 0
    ensures BitsOf(PadBytes(rate, n)) == [0, 1] + [1] + Zeros(8 * (rate - n % rate) - 4) + [1]
  {
    var k := rate - n % rate;
    if k == 1 {
      PadBitsSingle();
    } else {
      PadBitsLong(k);
    }
  }

  /** The j of pad10*1(8r, 8n + 2): (-(8n + 2) - 2) mod 8r is 8k - 4 for the k padding bytes. */
  lemma PadZeroCount(rate: nat, n: nat)
    requires rate > 0
    ensures (-(8 * n + 2) - 2) % (8 * rate) == 8 * (rate - n % rate) - 4
  {
    DivModUnique(-(8 * n + 2) - 2, 8 * rate, -(n / rate) - 1, 8 * (rate - n % rate) - 4);
  }

  /**
   * The padding is M || 01 followed by pad10*1(8r, 8n + 2) = 1 || 0^j || 1 with
   * j = (-(8n + 2) - 2) mod 8r (FIPS 202 sections 5.1 and 6.1), bits numbered as in Appendix B.1.
   */
  lemma PadBytesAreFips(rate: nat, n: nat)
    requires rate > 0
    ensures BitsOf(PadBytes(rate, n)) == [0, 1] + [1] + Zeros((-(8 * n + 2) - 2) % (8 * rate)) + [1]
  {
    PadBytesBits(rate, n);
    PadZeroCount(rate, n);
  }

  // ------------------------------------------------------------------ SHA-3

  /** Keccak-p keeps the width of a state. */
  lemma PermutationKeepsWidth()
    ensures KeepsWidth(KeccakPermutation)
  {
  }

  /** SHA3-d(M): absorb M || pad with the rate of the algorithm, then the first d bytes of the state. */
  function Sha3(t: Sha3Type, message: seq<byte>): (r: seq<byte>)
    ensures |r| == FinalHashSize(t)
  {
    var rate := BlockSize(t);
    PermutationKeepsWidth();
    Trunc(AbsorbBlocks(KeccakPermutation, ZeroLanes(), message + PadBytes(rate, |message|), rate), FinalHashSize(t))
  }

  // ---------------------------------------------------------- hash context

  /**
   * hash_context: the two lane arrays the step mappings pass the state between,
   * the column parities theta needs, and the block of input being collected;
   * the first `blockIndex` bytes of `block` are filled.
   */
  class HashContext {
    const kind: Sha3Type
    const state: array<bv64>
    const intermediate: array<bv64>
    const tmp: array<bv64>
    const block: array<byte>
    var blockIndex: nat

    predicate Valid()
      reads this
    {
      state.Length == SpongeWords && intermediate.Length == SpongeWords && tmp.Length == CommonFactor
      && block.Length == BlockSize(kind)
      && state != intermediate && state != tmp && intermediate != tmp
      && block as object != state as object && block as object != intermediate as object && block as object != tmp as object
      && blockIndex <= BlockSize(kind)
    }

    /** A context with every lane and byte zero: S = 0^b, step 5 of SPONGE. */
    constructor(kind: Sha3Type)
      ensures Valid() && this.kind == kind && blockIndex == 0
      ensures state[..] == ZeroLanes() && intermediate[..] == ZeroLanes()
      ensures tmp[..] == seq(CommonFactor, _ => 0) && block[..] == seq(BlockSize(kind), _ => 0)
      ensures fresh(state) && fresh(intermediate) && fresh(tmp) && fresh(block)
    {
      this.kind := kind;
      state := new bv64[SpongeWords](_ => 0);
      intermediate := new bv64[SpongeWords](_ => 0);
      tmp := new bv64[CommonFactor](_ => 0);
      block := new byte[BlockSize(kind)](_ => 0);
      blockIndex := 0;
    }

    /** block_remaining_size: how many more bytes the block takes before it is full. */
    function BlockRemainingSize(): (r: nat)
      reads this
      requires Valid()
      ensures blockIndex + r == block.Length
      ensures r == 0 <==> blockIndex == BlockSize(kind)
    {
      BlockSize(kind) - blockIndex
    }

    /** reset: every lane, parity and block byte back to zero and the block empty. */
    method Reset()
      requires Valid()
      modifies this, state, intermediate, tmp, block
      ensures Valid() && blockIndex == 0
      ensures state[..] == ZeroLanes() && intermediate[..] == ZeroLanes()
      ensures tmp[..] == seq(CommonFactor, _ => 0) && block[..] == seq(BlockSize(kind), _ => 0)
    {
      forall i | 0 <= i < tmp.Length {
        tmp[i] := 0;
      }
      forall i | 0 <= i < block.Length {
        block[i] := 0;
      }
      forall i | 0 <= i < state.Length {
        state[i] := 0;
      }
      forall i | 0 <= i < intermediate.Length {
        intermediate[i] := 0;
      }
      blockIndex := 0;
    }

    /** step_mapping_theta: the parities of the columns go to `tmp`, then every lane absorbs its two neighbouring columns. */
    method StepMappingTheta()
      requires Valid()
      modifies state, tmp
      ensures state[..] == Theta(old(state[..]))
      ensures forall x :: 0 <= x < CommonFactor ==> tmp[x] == ColumnParity(old(state[..]), x)
    {
      ghost var a := state[..];
      for x := 0 to CommonFactor
        invariant state[..] == a
        invariant forall k :: 0 <= k < x ==> tmp[k] == ColumnParity(a, k)
      {
        tmp[x] := Parity(state[CalculateIndex(x, 0)], state[CalculateIndex(x, 1)], state[CalculateIndex(x, 2)],
          state[CalculateIndex(x, 3)], state[CalculateIndex(x, 4)]);
      }
      for x := 0 to CommonFactor
        invariant forall k :: 0 <= k < CommonFactor ==> tmp[k] == ColumnParity(a, k)
        invariant state[..] == UpdatedUpTo(a, Theta(a), x, 0)
      {
        MinusModUnsignedAsWrittenOnFive(x);
        for y := 0 to CommonFactor
          invariant forall k :: 0 <= k < CommonFactor ==> tmp[k] == ColumnParity(a, k)
          invariant state[..] == UpdatedUpTo(a, Theta(a), x, y)
        {
          UpdatedStep(a, Theta(a), x, y);
          ThetaAt(a, x, y);
          state[CalculateIndex(x, y)] := ThetaMix(state[CalculateIndex(x, y)],
            tmp[MinusModUnsignedAsWritten(x, 1, CommonFactor)], tmp[(x + 1) % CommonFactor]);
        }
        UpdatedColumn(a, Theta(a), x);
      }
      UpdatedEnds(a, Theta(a));
    }

    /** step_mapping_rho: every lane of `state` rotated by its offset into `intermediate`, lane (0, 0) first. */
    method StepMappingRho()
      requires Valid()
      modifies intermediate
      ensures intermediate[..] == Rho(state[..])
    {
      intermediate[CalculateIndex(0, 0)] := state[CalculateIndex(0, 0)];
      forall i | 0 <= i < SpongeWords {
        intermediate[i] := Rotl(state[i], RhoOffsets[i]);
      }
    }

    /** step_mapping_pi: lane (x, y) of `state` becomes lane (x + 3y, x) of `intermediate`. */
    method StepMappingPi()
      requires Valid()
      modifies state
      ensures state[..] == Pi(intermediate[..])
    {
      ghost var a, b := state[..], intermediate[..];
      UpdatedEnds(a, Pi(b));
      for x := 0 to CommonFactor
        invariant state[..] == UpdatedUpTo(a, Pi(b), x, 0)
      {
        for y := 0 to CommonFactor
          invariant state[..] == UpdatedUpTo(a, Pi(b), x, y)
        {
          UpdatedStep(a, Pi(b), x, y);
          PiAt(b, x, y);
          state[CalculateIndex(x, y)] := intermediate[CalculateIndex(x + 3 * y, x)];
        }
        UpdatedColumn(a, Pi(b), x);
      }
    }

    /** step_mapping_chi: lane (x, y) of `intermediate` is computed from row y of `state`. */
    method StepMappingChi()
      requires Valid()
      modifies intermediate
      ensures intermediate[..] == Chi(state[..])
    {
      ghost var a, b := state[..], intermediate[..];
      UpdatedEnds(b, Chi(a));
      for x := 0 to CommonFactor
        invariant intermediate[..] == UpdatedUpTo(b, Chi(a), x, 0)
      {
        for y := 0 to CommonFactor
          invariant intermediate[..] == UpdatedUpTo(b, Chi(a), x, y)
        {
          UpdatedStep(b, Chi(a), x, y);
          ChiAt(a, x, y);
          intermediate[CalculateIndex(x, y)] := ChiMix(state[CalculateIndex(x, y)], state[CalculateIndex(x + 1, y)], state[CalculateIndex(x + 2, y)]);
        }
        UpdatedColumn(b, Chi(a), x);
      }
    }

    /** step_mapping_tau: `intermediate` copied back to `state`, then lane (0, 0) XORed with the round constant. */
    method StepMappingTau(round: nat)
      requires Valid() && round < RoundSize
      modifies state
      ensures state[..] == Iota(intermediate[..], round)
    {
      forall i | 0 <= i < SpongeWords {
        state[i] := intermediate[i];
      }
      state[CalculateIndex(0, 0)] := state[CalculateIndex(0, 0)] ^ RoundConstants[round];
      ghost var b := intermediate[..];
      assert state[..] == b[0 := b[0] ^ RoundConstants[round]];
      IotaUpdatesOrigin(b, round);
    }

    /** keccak_p: the 24 rounds applied to `state` in place. */
    method KeccakP()
      requires Valid()
      modifies state, intermediate, tmp
      ensures state[..] == KeccakPermutation(old(state[..]))
    {
      ghost var a := state[..];
      var round: nat := 0;
      while round < RoundSize
        invariant round <= RoundSize
        invariant RoundsFrom(a, 0) == RoundsFrom(state[..], round)
      {
        ghost var s := state[..];
        KeccakRound(round);
        round := round + 1;
        assert RoundsFrom(s, round - 1) == RoundsFrom(state[..], round);
      }
      RoundsFromEnd(state[..], round);
    }

    /** One pass of the keccak_p loop: theta, rho, pi, chi and tau in order. */
    method KeccakRound(round: nat)
      requires Valid() && round < RoundSize
      modifies state, intermediate, tmp
      ensures state[..] == Round(old(state[..]), round)
    {
      StepMappingTheta();
      StepMappingRho();
      StepMappingPi();
      StepMappingChi();
      StepMappingTau(round);
    }

    /**
     * pad10_1_and_append_01: the rest of the block, from `blockIndex` on, becomes the SHA-3
     * suffix 01 and pad10*1; `blockIndex` itself stays where it was.
     */
    method PadAndAppend01()
      requires Valid() && blockIndex < BlockSize(kind)
      modifies block
      ensures block[..] == LastBlock(old(block[..blockIndex]), BlockSize(kind))
    {
      ghost var prefix := block[..blockIndex];
      if blockIndex + 1 == BlockSize(kind) {
        block[blockIndex] := 0x86;
      } else {
        block[blockIndex] := 0x06;
        for i := blockIndex + 1 to BlockSize(kind) - 1
          invariant block[..blockIndex] == prefix && block[blockIndex] == 0x06
          invariant forall k :: blockIndex < k < i ==> block[k] == 0
        {
          block[i] := 0;
        }
        block[block.Length - 1] := 0x80;
      }
      assert block[..] == LastBlock(prefix, BlockSize(kind));
    }

    /** sponge_step_6: the full block XORed into the rate lanes, least significant byte first, then Keccak-p; the block is emptied. */
    method SpongeStep6()
      requires Valid()
      modifies this, state, intermediate, tmp
      ensures Valid() && blockIndex == 0
      ensures state[..] == KeccakPermutation(XorBlock(old(state[..]), block[..]))
    {
      ghost var a, w := state[..], BlockWords(block[..]);
      var blockWords := BlockSize(kind) / WordBytes;
      assert state[..] == XorPrefix(a, w, 0);
      for i := 0 to blockWords
        invariant state[..] == XorPrefix(a, w, i)
        modifies state
      {
        var word := LaneOfBytes(block[WordBytes * i .. WordBytes * i + WordBytes]);
        assert word == w[i];
        XorPrefixStep(a, w, i);
        state[i] := state[i] ^ word;
      }
      assert state[..] == XorBlock(a, block[..]);
      KeccakP();
      blockIndex := 0;
    }

    /** truncate_as_bytes: the first buffer.Length bytes of the state, lane by lane, least significant byte first. */
    method TruncateAsBytes(buffer: array<byte>)
      requires Valid() && buffer.Length <= SpongeWords * WordBytes
      requires buffer as object != state as object
      modifies buffer
      ensures buffer[..] == Trunc(state[..], buffer.Length)
    {
      ghost var a := state[..];
      ghost var s := StateBytes(a);
      var bufferWords := buffer.Length / WordBytes;
      var remainingBytes := buffer.Length % WordBytes;
      var index := 0;
      for i := 0 to bufferWords
        invariant index == WordBytes * i
        invariant buffer[..index] == s[..index]
      {
        var bytes := ToArray(state[i] as nat, WordBytes, false);
        StateBytesSplit(a, i, index, WordBytes);
        ghost var before := buffer[..];
        CopyBytes(buffer, index, bytes, WordBytes);
        PrefixExtended(before, buffer[..], s, index, bytes, WordBytes);
        index := index + WordBytes;
      }
      if remainingBytes != 0 {
        var bytes := SplitNumberTruncated(state[bufferWords] as nat, WordBytes, false, remainingBytes);
        StateBytesSplit(a, bufferWords, index, remainingBytes);
        ghost var before := buffer[..];
        CopyBytes(buffer, index, bytes, remainingBytes);
        PrefixExtended(before, buffer[..], s, index, bytes, remainingBytes);
        index := index + remainingBytes;
      }
      assert buffer[..] == buffer[..index];
    }

    /**
     * sponge_finalize: pad the block, absorb it, read off the digest, and reset the context
     * for reuse; the digest is Trunc_d of the state after the last block (d is below the rate,
     * so no further permutation is needed).
     */
    method SpongeFinalize() returns (result: seq<byte>)
      requires Valid() && blockIndex < BlockSize(kind)
      modifies this, state, intermediate, tmp, block
      ensures result == Trunc(KeccakPermutation(XorBlock(old(state[..]),
        LastBlock(old(block[..blockIndex]), BlockSize(kind)))), FinalHashSize(kind))
      ensures Valid() && blockIndex == 0
      ensures state[..] == ZeroLanes() && intermediate[..] == ZeroLanes()
      ensures tmp[..] == seq(CommonFactor, _ => 0) && block[..] == seq(BlockSize(kind), _ => 0)
    {
      PadAndAppend01();
      SpongeStep6();
      var buffer := new byte[FinalHashSize(kind)];
      TruncateAsBytes(buffer);
      result := buffer[..];
      Reset();
    }
  }
}
