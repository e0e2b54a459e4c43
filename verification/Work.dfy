/** Compact difficulty bits and the work they stand for, on 256-bit integers: the decoding of
    mantissa, sign and exponent with its overflow test, and the fixed-width division that gives
    the work of a target. Both are held to exact arithmetic on unbounded numbers. */
module Work {
  import opened Digits

  const TWO_256: nat := 0x1_0000000000000000_0000000000000000_0000000000000000_0000000000000000

  type Bits = b: nat | b < 0x1_0000_0000

  function Mantissa(bits: Bits): nat
  {
    bits % 0x80_0000
  }

  predicate SignBit(bits: Bits)
  {
    bits / 0x80_0000 % 2 == 1
  }

  function Exponent(bits: Bits): nat
  {
    bits / 0x100_0000
  }

  /** A right shift by k bytes. */
  function ShiftRight(m: nat, k: nat): (r: nat)
    requires k <= 3
    ensures r <= m
  {
    if k == 0 then m else if k == 1 then m / 0x100 else if k == 2 then m / 0x1_0000 else m / 0x100_0000
  }

  /** A left shift by k bytes, before it is cut to 256 bits. */
  function ShiftLeft(m: nat, k: nat): nat
  {
    m * Pow(256, k)
  }

  function Quotient(a: nat, b: nat): nat
    requires b > 0
  {
    a / b
  }

  /** The decoded magnitude, the sign flag and the overflow flag. */
  datatype Diff = Diff(n: nat, isNegative: bool, overflows: bool)

  /** `diff_bits_to_uint256`. */
  function DiffBitsToUint256(bits: Bits): Diff
  {
    var mantissa := Mantissa(bits);
    var exponent := Exponent(bits);
    if mantissa == 0 then Diff(0, false, false)
    else if exponent <= 3 then Diff(ShiftRight(mantissa, 3 - exponent), SignBit(bits), false)
    else if exponent >= 35 || (exponent >= 34 && mantissa > 0xff) || (exponent >= 33 && mantissa > 0xffff) then
      Diff(0, SignBit(bits), true)
    else Diff(ShiftLeft(mantissa, exponent - 3) % TWO_256, SignBit(bits), false)
  }

  /** `calc_work_uint256`: (~d) / (d + 1) + 1 in wrapping 256-bit arithmetic. */
  function CalcWork(bits: Bits): (w: nat)
    ensures w < TWO_256
  {
    var d := DiffBitsToUint256(bits);
    if d.isNegative || d.overflows || d.n == 0 then 0
    else
      var divisor := (1 + d.n) % TWO_256;
      if divisor == 0 then 0
      else (Quotient(TWO_256 - 1 - d.n % TWO_256, divisor) + 1) % TWO_256
  }

  // ------------------------------------------------------------------
  // The exact target and work, in unbounded integers.

  /** mantissa * 256^(exponent - 3), rounded down. */
  function ExactMagnitude(bits: Bits): nat
  {
    if Exponent(bits) <= 3 then ShiftRight(Mantissa(bits), 3 - Exponent(bits))
    else ShiftLeft(Mantissa(bits), Exponent(bits) - 3)
  }

  function ExactWork(bits: Bits): nat
  {
    if SignBit(bits) || ExactMagnitude(bits) == 0 || ExactMagnitude(bits) >= TWO_256 then 0
    else Quotient(TWO_256, ExactMagnitude(bits) + 1)
  }

  lemma PowersOf256()
    ensures Pow(256, 1) == 0x100 && Pow(256, 2) == 0x1_0000
    ensures 0x100 * Pow(256, 31) == TWO_256
    ensures 0x1_0000 * Pow(256, 30) == TWO_256
    ensures Pow(256, 32) == TWO_256
    ensures 0x100_0000 * Pow(256, 29) == TWO_256
  {
    hide Pow;
    PowSucc(256, 0);
    PowSucc(256, 1);
    PowAdd(256, 2, 2);
    PowAdd(256, 4, 4);
    PowAdd(256, 8, 8);
    PowAdd(256, 16, 16);
    PowSucc(256, 31);
    PowSucc(256, 30);
    PowSucc(256, 29);
  }

  /** A shifted mantissa reaches 2^256 exactly when the decoder says so. */
  lemma ShiftOverflows(m: nat, e: nat)
    requires 0 < m < 0x80_0000 && e > 3
    ensures (e >= 35 || (e >= 34 && m > 0xff) || (e >= 33 && m > 0xffff)) <==> ShiftLeft(m, e - 3) >= TWO_256
  {
    hide Pow;
    PowersOf256();
    if e >= 35 {
      PowExpMono(256, 32, e - 3);
      MulMono(1, m, TWO_256, Pow(256, e - 3));
    } else if e == 34 {
      Compare(m, 0x100, Pow(256, 31));
    } else if e == 33 {
      Compare(m, 0x1_0000, Pow(256, 30));
    } else {
      PowExpMono(256, e - 3, 29);
      MulMono(m, m, Pow(256, e - 3), Pow(256, 29));
      Compare(m, 0x100_0000, Pow(256, 29));
    }
  }

  lemma Compare(a: nat, b: nat, c: nat)
    requires c > 0
    ensures a * c < b * c <==> a < b
  {
    if a < b {
      MulStrict(a, b, c);
    } else {
      MulMono(b, a, c, c);
    }
  }

  /** The overflow flag is exact, and a magnitude that is not flagged is. */
  lemma DecodeExact(bits: Bits)
    ensures var d := DiffBitsToUint256(bits);
            && (d.overflows <==> ExactMagnitude(bits) >= TWO_256)
            && (!d.overflows ==> d.n == ExactMagnitude(bits))
  {
    hide ShiftLeft, ShiftRight;
    var m, e := Mantissa(bits), Exponent(bits);
    if m == 0 {
      ZeroMagnitude(bits);
    } else if e <= 3 {
      SmallMagnitude(bits);
    } else {
      ShiftOverflows(m, e);
    }
  }

  lemma ZeroMagnitude(bits: Bits)
    requires Mantissa(bits) == 0
    ensures ExactMagnitude(bits) == 0
  {
    if Exponent(bits) > 3 {
      assert 0 * Pow(256, Exponent(bits) - 3) == 0;
    }
  }

  lemma SmallMagnitude(bits: Bits)
    requires Exponent(bits) <= 3
    ensures ExactMagnitude(bits) <= Mantissa(bits) < TWO_256
  {}

  /** No target is 2^256 - 1, so d + 1 never wraps to zero. */
  lemma NeverAllOnes(bits: Bits)
    requires ExactMagnitude(bits) < TWO_256
    ensures ExactMagnitude(bits) + 1 < TWO_256
  {
    if Exponent(bits) <= 3 {
      SmallMagnitude(bits);
    } else {
      var p := Pow(256, Exponent(bits) - 4);
      assert ExactMagnitude(bits) == Mantissa(bits) * (256 * p) == 256 * (Mantissa(bits) * p);
    }
  }

  lemma DivPlusOne(a: nat, b: nat)
    requires b > 0
    ensures Quotient(a, b) + 1 == Quotient(a + b, b)
  {
    var q, r := a / b, a % b;
    assert a == b * q + r;
    assert a + b == b * (q + 1) + r;
    DivUnique(a + b, b, q + 1, r);
  }

  lemma DivUnique(n: nat, b: nat, q: nat, r: nat)
    requires b > 0 && n == b * q + r && r < b
    ensures n / b == q
  {
    var q', r' := n / b, n % b;
    assert n == b * q' + r';
    assert b * (q + 1) == b * q + b;
    assert b * (q' + 1) == b * q' + b;
    if q' < q {
      MulMono(b, b, q' + 1, q);
    } else if q < q' {
      MulMono(b, b, q + 1, q');
    }
  }

  /** The fixed-width work equals floor(2^256 / (target + 1)) for every bits. */
  lemma CalcWorkExact(bits: Bits)
    ensures CalcWork(bits) == ExactWork(bits)
  {
    hide DiffBitsToUint256, ExactMagnitude, Quotient;
    DecodeExact(bits);
    var d := DiffBitsToUint256(bits);
    var m := ExactMagnitude(bits);
    SignOfZero(bits);
    if !d.overflows && m > 0 {
      NeverAllOnes(bits);
      DivPlusOne(TWO_256 - 1 - m, m + 1);
      QuotientSmall(m);
    }
  }

  lemma SignOfZero(bits: Bits)
    ensures DiffBitsToUint256(bits).isNegative <==> SignBit(bits) && Mantissa(bits) != 0
    ensures Mantissa(bits) == 0 ==> ExactMagnitude(bits) == 0
  {
    if Mantissa(bits) == 0 {
      ZeroMagnitude(bits);
    }
  }

  lemma QuotientSmall(m: nat)
    requires 0 < m
    ensures Quotient(TWO_256, m + 1) < TWO_256
  {
    var q := TWO_256 / (m + 1);
    assert TWO_256 == (m + 1) * q + TWO_256 % (m + 1);
    MulMono(2, m + 1, q, q);
  }
}
