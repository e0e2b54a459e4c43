/** Positional notation, shared by the conversions between bytes, base-58 and base-32 digits,
    hashes and work: powers and their laws, the value of a digit string with the least
    significant digit first, strings of one length or without leading zeros determined by their
    value, and reversal for strings written with the most significant digit first. The value is
    the reference that every conversion is held to. */
module Digits {

  function Pow(b: nat, e: nat): (p: nat)
    ensures b > 0 ==> p > 0
  {
    if e == 0 then 1 else b * Pow(b, e - 1)
  }

  lemma PowSucc(b: nat, e: nat)
    ensures Pow(b, 0) == 1
    ensures Pow(b, e + 1) == b * Pow(b, e)
  {}

  lemma MulMono(a: nat, b: nat, c: nat, d: nat)
    requires a <= b && c <= d
    ensures a * c <= b * d
  {
    assert b * d - a * c == (b - a) * d + a * (d - c);
  }

  lemma MulStrict(a: nat, b: nat, c: nat)
    requires a < b && c > 0
    ensures a * c < b * c
    ensures c * a < c * b
  {
    assert b * c - a * c == (b - a) * c;
  }

  lemma {:induction false} PowAdd(b: nat, x: nat, y: nat)
    ensures Pow(b, x + y) == Pow(b, x) * Pow(b, y)
  {
    if x == 0 {
    } else {
      PowAdd(b, x - 1, y);
      assert Pow(b, x + y) == b * Pow(b, x - 1 + y);
      assert b * (Pow(b, x - 1) * Pow(b, y)) == (b * Pow(b, x - 1)) * Pow(b, y);
    }
  }

  lemma {:induction false} PowProduct(b: nat, x: nat, y: nat)
    ensures Pow(b, x * y) == Pow(Pow(b, x), y)
  {
    if y == 0 {
      assert x * y == 0;
    } else {
      PowProduct(b, x, y - 1);
      assert x * y == x + x * (y - 1);
      PowAdd(b, x, x * (y - 1));
    }
  }

  lemma {:induction false} PowBaseMono(a: nat, b: nat, e: nat)
    requires a <= b
    ensures Pow(a, e) <= Pow(b, e)
  {
    if e > 0 {
      PowBaseMono(a, b, e - 1);
      MulMono(a, b, Pow(a, e - 1), Pow(b, e - 1));
    }
  }

  lemma {:induction false} PowBaseStrict(a: nat, b: nat, e: nat)
    requires a < b && e > 0
    ensures Pow(a, e) < Pow(b, e)
  {
    if e > 1 {
      PowBaseStrict(a, b, e - 1);
      MulMono(a, b, Pow(a, e - 1), Pow(a, e - 1));
      MulStrict(Pow(a, e - 1), Pow(b, e - 1), b);
    } else {
      assert Pow(a, 1) == a * Pow(a, 0);
      assert Pow(b, 1) == b * Pow(b, 0);
    }
  }

  lemma {:induction false} PowExpMono(b: nat, x: nat, y: nat)
    requires b > 0 && x <= y
    ensures Pow(b, x) <= Pow(b, y)
  {
    PowAdd(b, x, y - x);
    MulMono(Pow(b, x), Pow(b, x), 1, Pow(b, y - x));
  }

  /** Every digit is below the base. */
  predicate Below(s: seq<nat>, base: nat)
  {
    forall i :: 0 <= i < |s| ==> s[i] < base
  }

  /** A byte string. */
  type Bytes = s: seq<nat> | Below(s, 256) witness []

  /** The number a digit string stands for, least significant digit first. */
  function Value(s: seq<nat>, base: nat): nat
  {
    if s == [] then 0 else s[0] + base * Value(s[1..], base)
  }

  lemma ValueEmpty(base: nat)
    ensures Value([], base) == 0
  {}

  lemma MulDistribute(a: nat, v: nat, p: nat, w: nat)
    ensures a * (v + p * w) == a * v + (a * p) * w
  {}

  lemma {:induction false} ValueConcat(s: seq<nat>, t: seq<nat>, base: nat)
    ensures Value(s + t, base) == Value(s, base) + Pow(base, |s|) * Value(t, base)
  {
    if s == [] {
      assert s + t == t;
    } else {
      ValueConcat(s[1..], t, base);
      assert (s + t)[1..] == s[1..] + t;
      MulDistribute(base, Value(s[1..], base), Pow(base, |s| - 1), Value(t, base));
    }
  }

  lemma ValueSnoc(s: seq<nat>, d: nat, base: nat)
    ensures Value(s + [d], base) == Value(s, base) + Pow(base, |s|) * d
  {
    ValueConcat(s, [d], base);
    assert [d][1..] == [];
    assert base * Value([], base) == 0;
  }

  lemma {:induction false} ValueBound(s: seq<nat>, base: nat)
    requires Below(s, base)
    ensures Value(s, base) < Pow(base, |s|)
  {
    if s != [] {
      ValueBound(s[1..], base);
      MulMono(base, base, Value(s[1..], base) + 1, Pow(base, |s| - 1));
      assert base * (Value(s[1..], base) + 1) == base * Value(s[1..], base) + base;
    }
  }

  /** Canonical: digits below the base and no leading zero, which is to say
      the last digit, the most significant one, is not zero. */
  ghost predicate Canonical(s: seq<nat>, base: nat)
  {
    Below(s, base) && (s != [] ==> s[|s| - 1] != 0)
  }

  lemma CanonicalLowerBound(s: seq<nat>, base: nat)
    requires Canonical(s, base) && s != []
    ensures Value(s, base) >= Pow(base, |s| - 1)
  {
    var k := |s| - 1;
    assert s == s[..k] + [s[k]];
    ValueSnoc(s[..k], s[k], base);
    MulMono(Pow(base, k), Pow(base, k), 1, s[k]);
  }

  /** A canonical digit string is no longer than any power above its value. */
  lemma CanonicalLength(s: seq<nat>, base: nat, k: nat)
    requires base > 0 && Canonical(s, base) && Value(s, base) < Pow(base, k)
    ensures |s| <= k
  {
    if |s| > k {
      CanonicalLowerBound(s, base);
      PowExpMono(base, k, |s| - 1);
    }
  }

  lemma DivModUnique(base: nat, q1: nat, r1: nat, q2: nat, r2: nat)
    requires r1 < base && r2 < base
    requires base * q1 + r1 == base * q2 + r2
    ensures q1 == q2 && r1 == r2
  {
    assert base * (q1 + 1) == base * q1 + base;
    assert base * (q2 + 1) == base * q2 + base;
    if q1 < q2 {
      MulMono(base, base, q1 + 1, q2);
    } else if q2 < q1 {
      MulMono(base, base, q2 + 1, q1);
    }
  }

  /** Digit strings of equal length and equal value are equal. */
  lemma {:induction false} ValueInjective(s: seq<nat>, t: seq<nat>, base: nat)
    requires Below(s, base) && Below(t, base) && |s| == |t|
    requires Value(s, base) == Value(t, base)
    ensures s == t
  {
    if s != [] {
      DivModUnique(base, Value(s[1..], base), s[0], Value(t[1..], base), t[0]);
      ValueInjective(s[1..], t[1..], base);
      assert s == [s[0]] + s[1..];
      assert t == [t[0]] + t[1..];
    }
  }

  /** A number has one canonical digit string. */
  lemma CanonicalUnique(s: seq<nat>, t: seq<nat>, base: nat)
    requires base > 0 && Canonical(s, base) && Canonical(t, base)
    requires Value(s, base) == Value(t, base)
    ensures s == t
  {
    ValueBound(s, base);
    ValueBound(t, base);
    CanonicalLength(s, base, |t|);
    CanonicalLength(t, base, |s|);
    ValueInjective(s, t, base);
  }

  ghost function Zeros(n: nat): (z: seq<nat>)
    ensures |z| == n && forall i :: 0 <= i < n ==> z[i] == 0
  {
    seq(n, i => 0)
  }

  lemma {:induction false} ZerosValue(n: nat, base: nat)
    ensures Value(Zeros(n), base) == 0
  {
    if n > 0 {
      ZerosValue(n - 1, base);
      assert Zeros(n)[1..] == Zeros(n - 1);
      assert base * 0 == 0;
    }
  }

  ghost function Reverse<T>(s: seq<T>): (r: seq<T>)
    ensures |r| == |s|
    ensures forall i :: 0 <= i < |s| ==> r[i] == s[|s| - 1 - i]
  {
    seq(|s|, i requires 0 <= i < |s| => s[|s| - 1 - i])
  }

  lemma ReverseTwice<T>(s: seq<T>)
    ensures Reverse(Reverse(s)) == s
  {}

  lemma ReverseConcat<T>(s: seq<T>, t: seq<T>)
    ensures Reverse(s + t) == Reverse(t) + Reverse(s)
  {}
}
