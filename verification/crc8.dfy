/**
  The CRC-8 of the cef168 protocol: MSB first, polynomial 0xA8 (168),
  initial value 0xFF. The userspace tool computes it bit by bit
  (`I2CDev::crc8_msb`); the kernel driver looks every byte up in a
  256-entry table filled by `crc8_populate_msb`. Both are modelled here and
  proved to agree, and the checksum is proved to detect every single-bit
  error.
 */
module Crc8 {
  import opened Bytes

  /** The 8-bit CRC register (`uint8_t crc`); bytes of data enter it by XOR. */
  type reg = bv8

  /** `CEF_CRC8_POLYNOMIAL`. */
  const Polynomial: reg := 168

  /** The seed used by both sides: the default argument of `crc8_msb` and `CRC8_INIT_VALUE`. */
  const InitValue: reg := 0xFF

  /** The number of register shifts per byte. */
  const BitsPerByte: nat := 8

  /** Bitwise exclusive or of two register values: how data bytes and error patterns combine with the register. */
  function Xor(a: reg, b: reg): reg {
    a ^ b
  }

  /** One shift of the register: shift left, folding in the polynomial when the top bit falls out. */
  function Step(c: reg): reg {
    if c & 0x80 != 0 then (c << 1) ^ Polynomial else c << 1
  }

  /** `n` register shifts, as the inner loop of `crc8_msb` performs them. */
  function Shift(c: reg, n: nat): reg
    decreases n
  {
    if n == 0 then c else Shift(Step(c), n - 1)
  }

  /**
    The register after absorbing `data` from `crc`, shifting `n` times per
    byte. The protocol shifts eight times (`Crc`); the algebra below holds
    for every `n`, and keeping `n` symbolic keeps the proofs small.
   */
  function CrcBits(crc: reg, data: seq<reg>, n: nat): reg
    decreases |data|
  {
    if |data| == 0 then crc else CrcBits(Shift(Xor(crc, data[0]), n), data[1..], n)
  }

  /** The CRC register after absorbing `data`, starting from `crc`: XOR each byte in, then shift eight times. */
  function Crc(crc: reg, data: seq<reg>): reg {
    CrcBits(crc, data, BitsPerByte)
  }

  /** Bytes as the register sees them. */
  function Regs(data: seq<byte>): (r: seq<reg>)
    ensures |r| == |data|
    ensures forall i :: 0 <= i < |data| ==> r[i] == data[i] as reg
  {
    seq(|data|, i requires 0 <= i < |data| => data[i] as reg)
  }

  /** The CRC byte of `data` with the protocol's seed. */
  function Checksum(data: seq<byte>): byte {
    Crc(InitValue, Regs(data)) as int
  }

  /** `I2CDev::crc8_msb`: the bit-by-bit loop of the userspace tool. */
  method Crc8Msb(data: seq<byte>, seed: reg) returns (crc: reg)
    ensures crc == Crc(seed, Regs(data))
  {
    crc := seed;
    var i := 0;
    ghost var regs := Regs(data);
    while i < |data|
      invariant 0 <= i <= |data|
      invariant CrcBits(crc, regs[i..], 8) == Crc(seed, regs)
    {
      crc := Xor(crc, data[i] as reg);
      ghost var absorbed := crc;
      var j := 0;
      while j < 8
        invariant 0 <= j <= 8
        invariant Shift(crc, 8 - j) == Shift(absorbed, 8)
      {
        if crc & 0x80 != 0 {
          crc := (crc << 1) ^ Polynomial;
        } else {
          crc := crc << 1;
        }
        j := j + 1;
      }
      assert regs[i..][1..] == regs[i + 1..];
      i := i + 1;
    }
  }

  /**
    The kernel's lookup table: entry `i` is the register after eight shifts
    of `i`, which is what `crc8_populate_msb` stores for an MSB-first CRC.
   */
  function Table(): (t: seq<reg>)
    ensures |t| == 256
  {
    seq(256, TableEntry)
  }

  /** Entry `i` of the kernel's table. */
  function TableEntry(i: int): reg {
    if 0 <= i < 256 then Shift(i as reg, BitsPerByte) else 0
  }

  /**
    The kernel's `crc8()`: one table lookup per byte, `crc = table[crc ^ byte]`.
    It equals the userspace bit-by-bit CRC for every seed and input.
   */
  function TableCrc(crc: reg, data: seq<reg>): (r: reg)
    ensures r == Crc(crc, data)
    decreases |data|
  {
    if |data| == 0 then crc
    else
      assert Table()[Xor(crc, data[0]) as int] == Shift(Xor(crc, data[0]), BitsPerByte);
      TableCrc(Table()[Xor(crc, data[0]) as int], data[1..])
  }

  /** Absorbing a concatenation is absorbing its parts in turn. */
  lemma {:induction false} CrcAppend(crc: reg, a: seq<reg>, b: seq<reg>, n: nat)
    ensures CrcBits(crc, a + b, n) == CrcBits(CrcBits(crc, a, n), b, n)
    decreases |a|
  {
    if |a| > 0 {
      assert (a + b)[0] == a[0];
      assert (a + b)[1..] == a[1..] + b;
      CrcAppend(Shift(Xor(crc, a[0]), n), a[1..], b, n);
    } else {
      assert a + b == b;
    }
  }

  /** A register shift is linear over XOR. */
  lemma StepLinear(a: reg, b: reg)
    ensures Step(Xor(a, b)) == Xor(Step(a), Step(b))
  {
    assert (a ^ b) << 1 == (a << 1) ^ (b << 1);
    assert (a ^ b) & 0x80 == (a & 0x80) ^ (b & 0x80);
    if a & 0x80 != 0 {
      if b & 0x80 != 0 {
        assert (a ^ b) & 0x80 == 0;
      } else {
        assert (a ^ b) & 0x80 != 0;
      }
    } else {
      if b & 0x80 != 0 {
        assert (a ^ b) & 0x80 != 0;
      } else {
        assert (a ^ b) & 0x80 == 0;
      }
    }
  }

  /** Any number of register shifts is linear over XOR. */
  lemma {:induction false} ShiftLinear(a: reg, b: reg, n: nat)
    ensures Shift(Xor(a, b), n) == Xor(Shift(a, n), Shift(b, n))
    decreases n
  {
    if n > 0 {
      StepLinear(a, b);
      ShiftLinear(Step(a), Step(b), n - 1);
    }
  }

  /** `k` rounds of `n` shifts each: what a register difference becomes after `k` bytes. */
  function ShiftRounds(c: reg, k: nat, n: nat): reg
    decreases k
  {
    if k == 0 then c else ShiftRounds(Shift(c, n), k - 1, n)
  }

  /** Mixing the same value into two registers leaves the difference of their shifts unchanged. */
  lemma XorShiftDifference(c1: reg, c2: reg, b: reg, n: nat)
    ensures Xor(Shift(Xor(c1, b), n), Shift(Xor(c2, b), n)) == Shift(Xor(c1, c2), n)
  {
    assert Xor(Xor(c1, b), Xor(c2, b)) == Xor(c1, c2);
    ShiftLinear(Xor(c1, b), Xor(c2, b), n);
  }

  /**
    Two registers that absorb the same data keep their difference, shifted
    once per byte.
   */
  lemma {:induction false} CrcSeedDifference(c1: reg, c2: reg, data: seq<reg>, n: nat)
    ensures Xor(CrcBits(c1, data, n), CrcBits(c2, data, n)) == ShiftRounds(Xor(c1, c2), |data|, n)
    decreases |data|
  {
    if |data| > 0 {
      CrcSeedDifference(Shift(Xor(c1, data[0]), n), Shift(Xor(c2, data[0]), n), data[1..], n);
      XorShiftDifference(c1, c2, data[0], n);
    }
  }

  /**
    The register values whose shifts can reach zero: the multiples of
    x^5 + x^4 + x^2 + 1 (0x35) of degree below 8. The polynomial 0xA8 has
    no constant term, so a shift is not injective (0xD4 shifts to 0), and
    only these eight values are lost.
   */
  const Undetectable: set<reg> := {0x00, 0x35, 0x6A, 0x5F, 0xD4, 0xE1, 0xBE, 0x8B}

  /** A shift never carries a register from outside `Undetectable` into it. */
  lemma StepAvoidsUndetectable(c: reg)
    requires c !in Undetectable
    ensures Step(c) !in Undetectable
  {
  }

  /** Nor do any number of shifts. */
  lemma {:induction false} ShiftAvoidsUndetectable(c: reg, n: nat)
    requires c !in Undetectable
    ensures Shift(c, n) !in Undetectable
    decreases n
  {
    if n > 0 {
      StepAvoidsUndetectable(c);
      ShiftAvoidsUndetectable(Step(c), n - 1);
    }
  }

  /** Nor do any number of rounds of shifts. */
  lemma {:induction false} ShiftRoundsAvoidsUndetectable(c: reg, k: nat, n: nat)
    requires c !in Undetectable
    ensures ShiftRounds(c, k, n) !in Undetectable
    decreases k
  {
    if k > 0 {
      ShiftAvoidsUndetectable(c, n);
      ShiftRoundsAvoidsUndetectable(Shift(c, n), k - 1, n);
    }
  }

  /** `data` with bit `k` of byte `i` inverted. */
  function FlipBit(data: seq<byte>, i: nat, k: nat): (r: seq<byte>)
    requires i < |data| && k < 8
    ensures |r| == |data|
    ensures r[i] as reg == Xor(data[i] as reg, 1 << k)
    ensures forall j :: 0 <= j < |data| && j != i ==> r[j] == data[j]
  {
    data[i := Xor(data[i] as reg, 1 << k) as int]
  }

  /** Inverting a bit of a byte inverts the same bit of the register input. */
  lemma RegsOfFlipBit(data: seq<byte>, i: nat, k: nat)
    requires i < |data| && k < 8
    ensures Regs(FlipBit(data, i, k)) == Regs(data)[i := Xor(Regs(data)[i], 1 << k)]
  {
  }

  /** A single inverted bit is an error pattern the CRC cannot lose. */
  lemma SingleBitDetectable(k: nat)
    requires k < 8
    ensures (1 as reg) << k !in Undetectable
  {
  }

  /**
    The CRC detects every single-bit error: inverting any one bit of the
    data changes the CRC, whatever the seed.
   */
  lemma CrcDetectsSingleBitError(seed: reg, data: seq<byte>, i: nat, k: nat)
    requires i < |data| && k < 8
    ensures Crc(seed, Regs(FlipBit(data, i, k))) != Crc(seed, Regs(data))
  {
    RegsOfFlipBit(data, i, k);
    SingleBitDetectable(k);
    RegisterDetectsError(seed, Regs(data), i, 1 << k, BitsPerByte);
  }

  /** Two registers that absorb different first bytes and the same rest differ by the shifted byte difference. */
  lemma FirstByteDifference(c: reg, x: reg, y: reg, rest: seq<reg>, n: nat)
    ensures Xor(CrcBits(c, [x] + rest, n), CrcBits(c, [y] + rest, n))
         == ShiftRounds(Shift(Xor(x, y), n), |rest|, n)
  {
    assert ([x] + rest)[1..] == rest;
    assert ([y] + rest)[1..] == rest;
    CrcSeedDifference(Shift(Xor(c, x), n), Shift(Xor(c, y), n), rest, n);
    ShiftLinear(Xor(c, x), Xor(c, y), n);
    assert Xor(Xor(c, x), Xor(c, y)) == Xor(x, y);
  }

  /**
    An error pattern outside `Undetectable` in one register input, in
    particular any single inverted bit, changes the CRC.
   */
  lemma RegisterDetectsError(seed: reg, data: seq<reg>, i: nat, e: reg, n: nat)
    requires i < |data| && e !in Undetectable
    ensures CrcBits(seed, data[i := Xor(data[i], e)], n) != CrcBits(seed, data, n)
  {
    var flipped := data[i := Xor(data[i], e)];
    var prefix, rest := data[..i], data[i + 1..];
    assert data == prefix + ([data[i]] + rest);
    assert flipped == prefix + ([flipped[i]] + rest);
    CrcAppend(seed, prefix, [data[i]] + rest, n);
    CrcAppend(seed, prefix, [flipped[i]] + rest, n);
    var c := CrcBits(seed, prefix, n);
    FirstByteDifference(c, data[i], flipped[i], rest, n);
    assert Xor(data[i], flipped[i]) == e;
    ShiftAvoidsUndetectable(e, n);
    ShiftRoundsAvoidsUndetectable(Shift(e, n), |rest|, n);
  }
}
