/** The deterministic skip list over block heights: which height a node links back to, and how
    many links a walk to a lower height follows. A skip link clears the two lowest one bits of
    the height, so walks are counted by the bits of the height they start from. */
module SkipList {
  import opened Digits

  // ------------------------------------------------------------------
  // Clearing the lowest set bit.

  /** Bitwise and of two naturals. */
  function And(a: nat, b: nat): nat
  {
    if a == 0 || b == 0 then 0
    else 2 * And(a / 2, b / 2) + (if a % 2 == 1 && b % 2 == 1 then 1 else 0)
  }

  /** n & (n - 1); for zero the right operand is all ones, and the result zero. */
  function ClearLowestOneBit(n: nat): nat
  {
    if n == 0 then 0 else And(n, n - 1)
  }

  /** The height of the ancestor a node's skip link points to. */
  function CalcSkipListHeight(height: int): nat
  {
    if height < 0 then 0 else ClearLowestOneBit(ClearLowestOneBit(height))
  }

  lemma {:induction false} AndSelf(n: nat)
    ensures And(n, n) == n
  {
    if n > 0 {
      AndSelf(n / 2);
    }
  }

  lemma ClearOdd(n: nat)
    requires n % 2 == 1
    ensures ClearLowestOneBit(n) == n - 1
  {
    if n > 1 {
      assert (n - 1) / 2 == n / 2;
      AndSelf(n / 2);
    }
  }

  lemma ClearEven(n: nat)
    requires n % 2 == 0 && n > 0
    ensures ClearLowestOneBit(n) == 2 * ClearLowestOneBit(n / 2)
  {
    assert (n - 1) / 2 == n / 2 - 1;
  }

  lemma {:induction false} ClearBelow(n: nat)
    requires n > 0
    ensures ClearLowestOneBit(n) < n
  {
    if n % 2 == 1 {
      ClearOdd(n);
    } else {
      ClearEven(n);
      ClearBelow(n / 2);
    }
  }

  /** The skip link of a node above the root leads strictly lower. */
  lemma SkipFalls(h: nat)
    requires h > 0
    ensures CalcSkipListHeight(h) < h
  {
    ClearBelow(h);
    if ClearLowestOneBit(h) > 0 {
      ClearBelow(ClearLowestOneBit(h));
    } else {
      assert ClearLowestOneBit(0) == 0;
    }
  }

  // ------------------------------------------------------------------
  // Powers of two, one bits and the top bit.

  /** The number of one bits. */
  function Ones(n: nat): (k: nat)
    ensures n > 0 ==> k > 0
  {
    if n == 0 then 0 else n % 2 + Ones(n / 2)
  }

  /** The highest power of two in a number, 0 for zero. */
  function Top(n: nat): (t: nat)
    ensures t <= n && (n > 0 ==> t > 0)
  {
    if n < 2 then n else 2 * Top(n / 2)
  }

  function BitLength(n: nat): nat
  {
    if n == 0 then 0 else 1 + BitLength(n / 2)
  }

  lemma {:induction false} BelowBitLength(n: nat)
    ensures n < Pow(2, BitLength(n))
  {
    if n > 0 {
      BelowBitLength(n / 2);
    }
  }

  lemma {:induction false} OnesAtMost(n: nat, k: nat)
    requires n < Pow(2, k)
    ensures Ones(n) <= k
  {
    if n > 0 {
      OnesAtMost(n / 2, k - 1);
    }
  }

  lemma {:induction false} ClearOnes(n: nat)
    requires n > 0
    ensures Ones(ClearLowestOneBit(n)) == Ones(n) - 1
    ensures ClearLowestOneBit(n) > 0 ==> Top(ClearLowestOneBit(n)) == Top(n)
  {
    if n % 2 == 1 {
      ClearOdd(n);
      assert (n - 1) / 2 == n / 2;
    } else {
      ClearEven(n);
      ClearOnes(n / 2);
      assert (2 * ClearLowestOneBit(n / 2)) / 2 == ClearLowestOneBit(n / 2);
    }
  }

  lemma {:induction false} TopIsPower(n: nat, k: nat) returns (a: nat)
    requires 0 < n < Pow(2, k)
    ensures a < k && Top(n) == Pow(2, a)
  {
    if n < 2 {
      a := 0;
    } else {
      a := TopIsPower(n / 2, k - 1);
      a := a + 1;
    }
  }

  /** 2^a - 1 is a one bits. */
  lemma {:induction false} AllOnes(a: nat)
    ensures Ones(Pow(2, a) - 1) == a
    ensures a > 0 ==> Top(Pow(2, a) - 1) == Pow(2, a - 1)
    ensures a > 0 ==> Ones(Pow(2, a)) == 1 && Top(Pow(2, a)) == Pow(2, a) && ClearLowestOneBit(Pow(2, a)) == 0
    ensures a == 0 ==> ClearLowestOneBit(Pow(2, a)) == 0
  {
    if a > 0 {
      AllOnes(a - 1);
      assert (Pow(2, a) - 1) / 2 == Pow(2, a - 1) - 1;
      assert (Pow(2, a) - 1) % 2 == 1;
      assert Pow(2, a) / 2 == Pow(2, a - 1);
      ClearEven(Pow(2, a));
    } else {
      ClearOdd(1);
    }
  }

  // ------------------------------------------------------------------
  // The walk.

  /** The number of links `ancestor` follows from one height down to another:
      the skip link when it does not overshoot, else the parent link. */
  function LinkCount(from: nat, to: nat): nat
    requires to <= from
    decreases from
  {
    if from == to then 0
    else
      SkipFalls(from);
      if CalcSkipListHeight(from) >= to then 1 + LinkCount(CalcSkipListHeight(from), to)
      else 1 + LinkCount(from - 1, to)
  }

  /** The links that walk off the bits below a higher bit: pairs of bits by
      skip links, a last single bit by its parent link. */
  function Descent(y: nat): nat
    decreases y
  {
    if y == 0 then 0
    else
      SkipFalls(y);
      if ClearLowestOneBit(y) == 0 then 1 + Descent(y - 1)
      else 1 + Descent(CalcSkipListHeight(y))
  }

  /** Divisible by 2^k: the low k bits are zero. */
  predicate Aligned(b: nat, k: nat)
  {
    k == 0 || (b % 2 == 0 && Aligned(b / 2, k - 1))
  }

  lemma {:induction false} AlignedLess(b: nat, k: nat)
    requires Aligned(b, k + 1)
    ensures Aligned(b, k)
  {
    if k > 0 {
      AlignedLess(b / 2, k - 1);
    }
  }

  lemma {:induction false} AlignedAdd(b: nat, k: nat)
    requires Aligned(b, k)
    ensures Aligned(b + Pow(2, k), k)
  {
    if k > 0 {
      AlignedAdd(b / 2, k - 1);
      assert (b + Pow(2, k)) / 2 == b / 2 + Pow(2, k - 1);
    }
  }

  lemma {:induction false} AlignedZero(k: nat)
    ensures Aligned(0, k)
  {
    if k > 0 {
      AlignedZero(k - 1);
    }
  }

  /** Bits above the lowest one do not matter to it. */
  lemma {:induction false} ClearUnder(b: nat, k: nat, y: nat)
    requires Aligned(b, k) && 0 < y < Pow(2, k)
    ensures ClearLowestOneBit(b + y) == b + ClearLowestOneBit(y)
  {
    hide ClearLowestOneBit;
    if y % 2 == 1 {
      ClearOdd(y);
      ClearOdd(b + y);
    } else {
      ClearEven(y);
      ClearEven(b + y);
      assert (b + y) / 2 == b / 2 + y / 2;
      ClearUnder(b / 2, k - 1, y / 2);
    }
  }

  /** An even number of one bits goes by skip links alone; an odd number leaves
      the top bit. */
  lemma {:induction false} DescentOfOnes(y: nat)
    ensures Ones(y) % 2 == 0 ==> Descent(y) == Ones(y) / 2
    ensures Ones(y) % 2 == 1 ==> Descent(y) == Ones(y) / 2 + Descent(Top(y))
    decreases y
  {
    if y > 0 {
      var c := ClearLowestOneBit(y);
      ClearOnes(y);
      if c == 0 {
        SingleBit(y);
      } else {
        var s := CalcSkipListHeight(y);
        ClearOnes(c);
        SkipFalls(y);
        DescentOfOnes(s);
        if s == 0 {
          assert Ones(s) == 0;
        }
      }
    }
  }

  lemma {:induction false} SingleBit(y: nat)
    requires y > 0 && ClearLowestOneBit(y) == 0
    ensures Top(y) == y && Ones(y) == 1
  {
    if y % 2 == 1 {
      ClearOdd(y);
    } else {
      ClearEven(y);
      SingleBit(y / 2);
    }
  }

  lemma DescentOfPower(a: nat)
    ensures Descent(Pow(2, a)) == 1 + Descent(Pow(2, a) - 1)
  {
    AllOnes(a);
  }

  /** Walking off 2^a - 1 takes at most a links. */
  lemma DescentOfAllOnes(a: nat)
    ensures Descent(Pow(2, a) - 1) <= a
  {
    hide Descent, Ones, Top;
    AllOnes(a);
    DescentOfOnes(Pow(2, a) - 1);
    if a % 2 == 1 {
      AllOnes(a - 1);
      DescentOfPower(a - 1);
      DescentOfOnes(Pow(2, a - 1) - 1);
    }
  }

  lemma DescentLinear(y: nat, k: nat)
    requires y < Pow(2, k)
    ensures Descent(y) <= 2 * k
  {
    hide Descent, Top;
    DescentOfOnes(y);
    OnesAtMost(y, k);
    if Ones(y) % 2 == 1 {
      var a := TopIsPower(y, k);
      DescentOfAllOnes(a);
      DescentOfPower(a);
    }
  }

  lemma LinksJump(from: nat, to: nat)
    requires to < from && to <= CalcSkipListHeight(from)
    ensures CalcSkipListHeight(from) < from && LinkCount(from, to) == 1 + LinkCount(CalcSkipListHeight(from), to)
  {
    SkipFalls(from);
  }

  lemma LinksStep(from: nat, to: nat)
    requires to < from && CalcSkipListHeight(from) < to
    ensures LinkCount(from, to) == 1 + LinkCount(from - 1, to)
  {}

  lemma ClearPower(b: nat, k: nat)
    requires Aligned(b, k + 1)
    ensures ClearLowestOneBit(b + Pow(2, k)) == b
  {
    ClearUnder(b, k + 1, Pow(2, k));
    AllOnes(k);
  }

  /** From above the height b + 2^k, a walk into [b, b + 2^k) first walks off
      the bits below 2^k. */
  lemma {:induction false} WalkOff(b: nat, k: nat, y: nat, to: nat)
    requires Aligned(b, k + 1) && y < Pow(2, k) && b <= to < b + Pow(2, k)
    ensures LinkCount(b + Pow(2, k) + y, to) <= Descent(y) + LinkCount(b + Pow(2, k), to)
    decreases y
  {
    hide LinkCount, ClearLowestOneBit, Aligned, Pow;
    if y > 0 {
      var base := b + Pow(2, k);
      var c := ClearLowestOneBit(y);
      AlignedLess(b, k);
      AlignedAdd(b, k);
      ClearUnder(base, k, y);
      ClearPower(b, k);
      if c == 0 {
        if to <= b {
          LinksJump(base + y, to);
          LinksSelf(b);
        } else {
          LinksStep(base + y, to);
          WalkOff(b, k, y - 1, to);
        }
      } else {
        ClearBelow(y);
        ClearUnder(base, k, c);
        SkipFalls(y);
        LinksJump(base + y, to);
        WalkOff(b, k, CalcSkipListHeight(y), to);
      }
    }
  }

  lemma LinksSelf(h: nat)
    ensures LinkCount(h, h) == 0
  {}

  /** Within an aligned block of 2^k heights a walk follows at most k * (k + 1)
      links. */
  lemma {:induction false} LinksInBlock(b: nat, k: nat, from: nat, to: nat)
    requires Aligned(b, k) && b <= to <= from < b + Pow(2, k)
    ensures LinkCount(from, to) <= k * (k + 1)
    decreases k
  {
    hide LinkCount, ClearLowestOneBit, Descent, Aligned;
    LinksSelf(to);
    if k > 0 && to < from {
      var m := Pow(2, k - 1);
      AlignedLess(b, k - 1);
      AlignedAdd(b, k - 1);
      assert (k - 1) * k + 2 * k == k * (k + 1);
      if from < b + m {
        LinksInBlock(b, k - 1, from, to);
      } else if to >= b + m {
        LinksInBlock(b + m, k - 1, from, to);
      } else {
        WalkOff(b, k - 1, from - (b + m), to);
        DescentLinear(from - (b + m), k - 1);
        ClearPower(b, k - 1);
        ClearAtMost(b);
        if to <= CalcSkipListHeight(b + m) {
          LinksJump(b + m, to);
        } else {
          LinksStep(b + m, to);
          LinksInBlock(b, k - 1, b + m - 1, to);
        }
      }
    }
  }

  lemma ClearAtMost(n: nat)
    ensures ClearLowestOneBit(n) <= n
  {
    if n > 0 {
      ClearBelow(n);
    }
  }

  /** The walk from any height to any lower one follows at most b * (b + 1)
      links, for b the bit length of the height it starts from. */
  lemma LinksQuadratic(from: nat, to: nat)
    requires to <= from
    ensures LinkCount(from, to) <= BitLength(from) * (BitLength(from) + 1)
  {
    BelowBitLength(from);
    AlignedZero(BitLength(from));
    LinksInBlock(0, BitLength(from), from, to);
  }
}
