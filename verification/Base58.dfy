/** Modified base58 and base58check, in place on arrays: bytes to digits with a carry through the digits,
    and digits to bytes through 32-bit limbs. Both are held to one statement of base change that
    keeps leading zeros, from which the round trips follow, and the sizes of their buffers to the
    rational bounds on the logarithms of 256 and 58 that the code takes them from. */
module Base58 {
  import opened Digits

  /** The digits 1 to 9 and the letters, without I, O and l. */
  const ALPHABET: string :=
    Run('1', 9) + Run('A', 8) + Run('J', 5) + Run('P', 11) + Run('a', 11) + Run('m', 14)
  const INVALID: nat := 255

  // ------------------------------------------------------------------
  // The alphabet.

  /** Consecutive ASCII characters. */
  function Run(first: char, count: nat): (s: string)
    requires first as int + count <= 128
    ensures |s| == count
    ensures forall i :: 0 <= i < count ==> s[i] as int == first as int + i
  {
    seq(count, i requires 0 <= i < count => (first as int + i) as char)
  }

  lemma AlphabetText()
    ensures ALPHABET ==
            "123456789" + "ABCDEFGH" + "JKLMN" + "PQRSTUVWXYZ" + "abcdefghijk" + "mnopqrstuvwxyz"
  {
    assert Run('1', 9) == "123456789" && Run('A', 8) == "ABCDEFGH" && Run('J', 5) == "JKLMN";
    assert Run('P', 11) == "PQRSTUVWXYZ" && Run('a', 11) == "abcdefghijk" && Run('m', 14) == "mnopqrstuvwxyz";
  }

  lemma {:induction false} AlphabetIncreasing(i: nat, j: nat)
    requires i < j < 58
    ensures |ALPHABET| == 58
    ensures ALPHABET[i] < ALPHABET[j]
  {
    AlphabetStep(j - 1);
    if i + 1 < j {
      AlphabetIncreasing(i, j - 1);
    }
  }

  lemma AlphabetStep(i: nat)
    requires i < 57
    ensures |ALPHABET| == 58
    ensures ALPHABET[i] < ALPHABET[i + 1]
  {
    assert |ALPHABET| == 58;
  }

  function Position(c: char, from: nat): (d: nat)
    requires from <= 58
    ensures d == INVALID || from <= d < 58
    ensures |ALPHABET| == 58
    ensures d != INVALID ==> ALPHABET[d] == c
    ensures d == INVALID ==> forall i :: from <= i < 58 ==> ALPHABET[i] != c
    decreases 58 - from
  {
    if from == 58 then INVALID
    else if ALPHABET[from] == c then from
    else Position(c, from + 1)
  }

  /** The base58 digit a character stands for, 255 for any other character. */
  function DigitOf(c: char): (d: nat)
    ensures d == INVALID || d < 58
  {
    Position(c, 0)
  }

  lemma DigitOfAlphabet(d: nat)
    requires d < 58
    ensures |ALPHABET| == 58 && DigitOf(ALPHABET[d]) == d
  {
    var p := DigitOf(ALPHABET[d]);
    if p < d {
      AlphabetIncreasing(p, d);
    } else if d < p < 58 {
      AlphabetIncreasing(d, p);
    }
  }

  lemma DigitOfIsPosition(c: char)
    requires DigitOf(c) != INVALID
    ensures |ALPHABET| == 58 && ALPHABET[DigitOf(c)] == c
  {}

  ghost predicate IsBase58(s: string)
  {
    forall i :: 0 <= i < |s| ==> DigitOf(s[i]) != INVALID
  }

  ghost function DigitsOf(s: string): (d: seq<nat>)
    ensures |d| == |s|
    ensures IsBase58(s) ==> Below(d, 58)
  {
    seq(|s|, i requires 0 <= i < |s| => DigitOf(s[i]))
  }

  ghost function TextOf(d: seq<nat>): (s: string)
    requires Below(d, 58)
    ensures |s| == |d|
    ensures |ALPHABET| == 58 && forall i :: 0 <= i < |d| ==> s[i] == ALPHABET[d[i]]
  {
    seq(|d|, i requires 0 <= i < |d| => ALPHABET[d[i]])
  }

  lemma DigitsOfTextOf(d: seq<nat>)
    requires Below(d, 58)
    ensures IsBase58(TextOf(d)) && DigitsOf(TextOf(d)) == d
  {
    forall i | 0 <= i < |d|
      ensures DigitOf(TextOf(d)[i]) == d[i]
    {
      DigitOfAlphabet(d[i]);
    }
  }

  lemma TextOfDigitsOf(s: string)
    requires IsBase58(s)
    ensures TextOf(DigitsOf(s)) == s
  {
    forall i | 0 <= i < |s|
      ensures TextOf(DigitsOf(s))[i] == s[i]
    {
      DigitOfIsPosition(s[i]);
    }
  }

  // ------------------------------------------------------------------
  // The specification: a big-endian digit string in one base becomes the
  // canonical one in the other base, with as many leading zeros.

  /** How many zero digits a big-endian digit string starts with. */
  ghost function LeadingZeros(d: seq<nat>): (n: nat)
    ensures n <= |d|
    ensures forall i :: 0 <= i < n ==> d[i] == 0
    ensures n < |d| ==> d[n] != 0
  {
    if d == [] || d[0] != 0 then 0 else 1 + LeadingZeros(d[1..])
  }

  /** The canonical digits of a number, least significant first. */
  ghost function DigitsFor(n: nat, base: nat): (d: seq<nat>)
    requires base > 1
    ensures Canonical(d, base) && Value(d, base) == n
  {
    if n == 0 then []
    else
      assert n == base * (n / base) + n % base;
      assert n / base < n by { DivShrinks(n, base); }
      [n % base] + DigitsFor(n / base, base)
  }

  lemma DivShrinks(n: nat, base: nat)
    requires base > 1 && n > 0
    ensures n / base < n
  {
    var q := n / base;
    assert n == base * q + n % base;
    if q >= n {
      MulMono(2, base, n, q);
    }
  }

  /** Big-endian digits in base `from` rewritten in base `to`. */
  ghost function Rebase(d: seq<nat>, from: nat, to: nat): (r: seq<nat>)
    requires from > 1 && to > 1
    ensures Below(r, to)
  {
    Zeros(LeadingZeros(d)) + Reverse(DigitsFor(Value(Reverse(d), from), to))
  }

  /** Zeros then a big-endian canonical string: the shape of every big-endian
      digit string. */
  lemma BigEndianShape(d: seq<nat>, base: nat)
    requires base > 0 && Below(d, base)
    ensures var z := LeadingZeros(d);
            && d == Zeros(z) + d[z..]
            && Canonical(Reverse(d[z..]), base)
            && Value(Reverse(d), base) == Value(Reverse(d[z..]), base)
  {
    var z := LeadingZeros(d);
    ReverseConcat(Zeros(z), d[z..]);
    assert d == Zeros(z) + d[z..];
    assert Reverse(Zeros(z)) == Zeros(z);
    ValueConcat(Reverse(d[z..]), Zeros(z), base);
    ZerosValue(z, base);
    assert Pow(base, |Reverse(d[z..])|) * 0 == 0;
  }

  lemma LeadingZerosOf(z: nat, c: seq<nat>)
    requires c != [] ==> c[0] != 0
    ensures LeadingZeros(Zeros(z) + c) == z
  {
    var d := Zeros(z) + c;
    var n := LeadingZeros(d);
    assert forall i :: 0 <= i < z ==> d[i] == 0;
    assert c != [] ==> d[z] == c[0];
  }

  /** Rewriting in another base and back gives the same digits. */
  lemma RebaseInverse(d: seq<nat>, from: nat, to: nat)
    requires from > 1 && to > 1 && Below(d, from)
    ensures Rebase(Rebase(d, from, to), to, from) == d
  {
    var z := LeadingZeros(d);
    var v := Value(Reverse(d), from);
    var c := Reverse(DigitsFor(v, to));
    var e := Rebase(d, from, to);
    BigEndianShape(d, from);
    LeadingZerosOf(z, c);
    BigEndianShape(e, to);
    assert e[z..] == c;
    ReverseTwice(DigitsFor(v, to));
    CanonicalUnique(DigitsFor(v, from), Reverse(d[z..]), from);
    ReverseTwice(d[z..]);
  }

  /** The text `encode` must produce. */
  ghost function Encoded(b: Bytes): string
  {
    TextOf(Rebase(b, 256, 58))
  }

  /** The bytes `decode` must produce: none for a text with a character
      outside the alphabet. */
  ghost function Decoded(s: string): (b: Bytes)
  {
    if IsBase58(s) then Rebase(DigitsOf(s), 58, 256) else []
  }

  lemma EncodeThenDecode(b: Bytes)
    ensures IsBase58(Encoded(b)) && Decoded(Encoded(b)) == b
  {
    DigitsOfTextOf(Rebase(b, 256, 58));
    RebaseInverse(b, 256, 58);
  }

  lemma DecodeThenEncode(s: string)
    requires IsBase58(s)
    ensures Encoded(Decoded(s)) == s
  {
    RebaseInverse(DigitsOf(s), 58, 256);
    TextOfDigitsOf(s);
  }

  // ------------------------------------------------------------------
  // The buffer sizes: rational approximations of the logarithms.

  lemma PowSquare(b: nat, e: nat, v: nat)
    requires Pow(b, e) == v
    ensures Pow(b, 2 * e) == v * v
  {
    PowAdd(b, e, e);
  }

  lemma PowersOf58()
    ensures Pow(58, 16) == 128063081718016 * 128063081718016
    ensures Pow(58, 34) == (58 * Pow(58, 16)) * (58 * Pow(58, 16))
  {
    assert Pow(58, 1) == 58 * Pow(58, 0);
    PowSquare(58, 1, 58);
    PowSquare(58, 2, 3364);
    PowSquare(58, 4, 11316496);
    PowSquare(58, 8, 128063081718016);
    assert Pow(58, 17) == 58 * Pow(58, 16);
    PowSquare(58, 17, 58 * Pow(58, 16));
  }

  lemma PowersOf2()
    ensures Pow(2, 8) == 0x100
    ensures Pow(2, 94) == 0x8000_0000_0000 * 0x8000_0000_0000
    ensures Pow(2, 199) == 32 * Pow(2, 94) * (64 * Pow(2, 94)) * 1
  {
    assert Pow(2, 1) == 2 * Pow(2, 0);
    PowSquare(2, 1, 2);
    PowSquare(2, 2, 4);
    PowSquare(2, 4, 16);
    PowSquare(2, 8, 0x100);
    PowSquare(2, 16, 0x1_0000);
    assert Pow(2, 15) * 2 == Pow(2, 16);
    PowAdd(2, 15, 32);
    PowSquare(2, 47, 0x8000_0000_0000);
    assert Pow(2, 5) == 2 * Pow(2, 4);
    assert Pow(2, 6) == 2 * Pow(2, 5);
    PowAdd(2, 5, 94);
    PowAdd(2, 6, 94);
    PowAdd(2, 99, 100);
  }

  lemma Log58Of256()
    ensures Pow(256, 100) <= Pow(58, 137)
  {
    PowersOf58();
    PowersOf2();
    assert Pow(2, 199) <= Pow(58, 34);
    PowBaseMono(Pow(2, 199), Pow(58, 34), 4);
    PowProduct(2, 199, 4);
    PowProduct(58, 34, 4);
    assert Pow(58, 137) == 58 * Pow(58, 136);
    assert Pow(2, 4) == 16;
    PowAdd(2, 4, 796);
    PowProduct(2, 8, 100);
  }

  lemma Log256Of58()
    ensures Pow(58, 64) <= Pow(256, 47)
  {
    PowersOf58();
    PowersOf2();
    assert Pow(58, 16) <= Pow(2, 94);
    PowBaseMono(Pow(58, 16), Pow(2, 94), 4);
    PowProduct(58, 16, 4);
    PowProduct(2, 94, 4);
    PowProduct(2, 8, 47);
  }

  lemma PowSwap(b: nat, x: nat, y: nat)
    ensures Pow(Pow(b, x), y) == Pow(Pow(b, y), x)
  {
    PowProduct(b, x, y);
    PowProduct(b, y, x);
    assert x * y == y * x;
  }

  lemma ScaledUp(a: nat, x: nat, b: nat, y: nat, m: nat)
    requires Pow(a, x) <= Pow(b, y)
    ensures Pow(Pow(a, m), x) <= Pow(b, m * y)
  {
    PowSwap(a, m, x);
    PowBaseMono(Pow(a, x), Pow(b, y), m);
    PowSwap(b, y, m);
    PowProduct(b, m, y);
  }

  lemma RootBelow(p: nat, b: nat, e: nat, k: nat, x: nat)
    requires b > 0 && x > 0 && Pow(p, x) <= Pow(b, e) && e <= k * x
    ensures p <= Pow(b, k)
  {
    PowExpMono(b, e, k * x);
    PowProduct(b, k, x);
    if Pow(b, k) < p {
      PowBaseStrict(Pow(b, k), p, x);
    }
  }

  /** From a^x <= b^y to a^m <= b^k for every k at least m * y / x. */
  lemma ScaledPower(a: nat, x: nat, b: nat, y: nat, m: nat, k: nat)
    requires b > 0 && x > 0 && Pow(a, x) <= Pow(b, y)
    requires m * y <= k * x
    ensures Pow(a, m) <= Pow(b, k)
  {
    hide Pow;
    ScaledUp(a, x, b, y, m);
    RootBelow(Pow(a, m), b, m * y, k, x);
  }

  /** n bytes never need more base58 digits than `encode` makes room for. */
  lemma EncodeRoom(n: nat)
    ensures Pow(256, n) <= Pow(58, n * 137 / 100 + 1)
  {
    Log58Of256();
    ScaledPower(256, 100, 58, 137, n, n * 137 / 100 + 1);
  }

  /** n base58 digits never need more bytes than `decode` makes room for. */
  lemma DecodeRoom(n: nat)
    ensures Pow(58, n) <= Pow(256, n * 47 / 64 + 1)
  {
    Log256Of58();
    ScaledPower(58, 64, 256, 47, n, n * 47 / 64 + 1);
  }

  // ------------------------------------------------------------------
  // The in-place conversions.

  /** One limb of a scaled number: the new limb and the carry. */
  function ScaleLimb(carry: nat, limb: nat, factor: nat, base: nat): (nat, nat)
    requires base > 0
  {
    ((carry + limb * factor) % base, (carry + limb * factor) / base)
  }

  lemma ScaleLimbBounds(carry: nat, limb: nat, factor: nat, base: nat)
    requires carry < factor && limb < base
    ensures carry + limb * factor < base * factor
    ensures ScaleLimb(carry, limb, factor, base).0 < base
    ensures ScaleLimb(carry, limb, factor, base).1 < factor
  {
    MulMono(limb, base - 1, factor, factor);
    assert (base - 1) * factor == base * factor - factor;
    var t := carry + limb * factor;
    assert t == base * (t / base) + t % base;
    if t / base >= factor {
      MulMono(base, base, factor, t / base);
    }
  }

  /** Scaling one more limb keeps the running equation between the digits
      written, the carry and the digits read. */
  lemma CarryStep(v': nat, p: nat, carry: nat, factor: nat, v: nat, add: nat, limb: nat, base: nat)
    requires base > 0 && v' + p * carry == factor * v + add
    ensures var s := ScaleLimb(carry, limb, factor, base);
            (v' + p * s.0) + (base * p) * s.1 == factor * (v + p * limb) + add
  {
    var t := carry + limb * factor;
    var q, r := t / base, t % base;
    assert t == base * q + r;
    assert p * t == p * (base * q + r) == (base * p) * q + p * r;
    assert p * (limb * factor) == factor * (p * limb);
    assert p * t == p * carry + p * (limb * factor);
    assert factor * (v + p * limb) == factor * v + factor * (p * limb);
  }

  /** The inner loop of both conversions: multiply the little-endian number in
      the first n limbs by a factor and add a small number, leaving the carry.
      Every intermediate value stays below base * factor, so `encode`'s 32-bit
      and `decode`'s 64-bit accumulators never overflow. */
  method ScaleAndAdd(limbs: array<nat>, n: nat, base: nat, factor: nat, add: nat) returns (carry: nat)
    requires n <= limbs.Length && base > 0 && add < factor
    requires Below(limbs[..n], base)
    modifies limbs
    ensures Below(limbs[..n], base)
    ensures carry < factor
    ensures forall k :: n <= k < limbs.Length ==> limbs[k] == old(limbs[k])
    ensures Value(limbs[..n], base) + Pow(base, n) * carry == factor * Value(old(limbs[..n]), base) + add
  {
    hide Pow, Value, ScaleLimb;
    carry := add;
    ghost var was := limbs[..n];
    ValueEmpty(base);
    PowSucc(base, 0);
    assert limbs[..0] == was[..0] == [];
    for j := 0 to n
      invariant carry < factor
      invariant Below(limbs[..j], base)
      invariant forall k :: j <= k < limbs.Length ==> limbs[k] == old(limbs[k])
      invariant Value(limbs[..j], base) + Pow(base, j) * carry == factor * Value(was[..j], base) + add
    {
      var limb := limbs[j];
      assert limb == was[j];
      ScaleLimbBounds(carry, limb, factor, base);
      CarryStep(Value(limbs[..j], base), Pow(base, j), carry, factor, Value(was[..j], base), add, limb, base);
      ghost var done := limbs[..j];
      var scaled := ScaleLimb(carry, limb, factor, base);
      limbs[j], carry := scaled.0, scaled.1;
      assert limbs[..j + 1] == done + [limbs[j]];
      assert was[..j + 1] == was[..j] + [limb];
      ValueSnoc(done, limbs[j], base);
      ValueSnoc(was[..j], limb, base);
      PowSucc(base, j);
    }
    assert was[..n] == was;
  }

  lemma TopDigitNonzero(s: seq<nat>, base: nat)
    requires Below(s, base) && (s != [] ==> Value(s, base) >= Pow(base, |s| - 1))
    ensures Canonical(s, base)
  {
    if s != [] {
      var k := |s| - 1;
      ValueBound(s[..k], base);
      assert s == s[..k] + [s[k]];
      assert Pow(base, k) * 0 == 0;
      ValueSnoc(s[..k], s[k], base);
    }
  }

  /** A number scaled by a factor and increased keeps its limbs' top digit
      nonzero when nothing is carried out. */
  lemma ScaledCanonical(was: seq<nat>, now: seq<nat>, base: nat, factor: nat, add: nat)
    requires Canonical(was, base) && Below(now, base) && |now| == |was| && factor > 0
    requires Value(now, base) == factor * Value(was, base) + add
    ensures Canonical(now, base)
  {
    if was != [] {
      CanonicalLowerBound(was, base);
      MulMono(1, factor, Value(was, base), Value(was, base));
    }
    TopDigitNonzero(now, base);
  }

  lemma RoomForCarry(v: nat, base: nat, index: nat, carry: nat, room: nat)
    requires base > 0 && carry > 0 && v + Pow(base, index) * carry < Pow(base, room)
    ensures index < room
  {
    if index >= room {
      PowExpMono(base, room, index);
      MulMono(Pow(base, index), Pow(base, index), 1, carry);
    }
  }

  /** The tail of `encode`'s outer loop: append the carry's base58 digits. */
  method PushCarry(output: array<nat>, start: nat, carry: nat) returns (index: nat)
    requires start <= output.Length && Below(output[..start], 58)
    requires Value(output[..start], 58) + Pow(58, start) * carry < Pow(58, output.Length)
    requires carry == 0 ==> Canonical(output[..start], 58)
    modifies output
    ensures index <= output.Length && Canonical(output[..index], 58)
    ensures Value(output[..index], 58) == Value(old(output[..start]), 58) + Pow(58, start) * carry
  {
    hide Pow, Value;
    index := start;
    var val := carry;
    ghost var total := Value(output[..start], 58) + Pow(58, start) * carry;
    while val > 0
      invariant index <= output.Length && Below(output[..index], 58)
      invariant Value(output[..index], 58) + Pow(58, index) * val == total
      invariant val == 0 ==> Canonical(output[..index], 58)
    {
      RoomForCarry(Value(output[..index], 58), 58, index, val, output.Length);
      CarryStep(Value(output[..index], 58), Pow(58, index), val, 1, 0, total, 0, 58);
      ghost var done := output[..index];
      output[index] := val % 58;
      assert output[..index + 1] == done + [output[index]];
      ValueSnoc(done, output[index], 58);
      PowSucc(58, index);
      index := index + 1;
      val := val / 58;
    }
  }

  lemma ReverseStep(input: seq<nat>, i: nat, base: nat)
    requires i < |input|
    ensures Value(Reverse(input[..i + 1]), base) == base * Value(Reverse(input[..i]), base) + input[i]
  {
    var r := Reverse(input[..i + 1]);
    assert r[0] == input[i];
    assert r[1..] == Reverse(input[..i]);
  }

  lemma PrefixRoom(input: seq<nat>, i: nat, from: nat, to: nat, room: nat)
    requires from > 0 && i <= |input| && Below(input, from) && Pow(from, |input|) <= Pow(to, room)
    ensures Value(Reverse(input[..i]), from) < Pow(to, room)
  {
    ValueBound(Reverse(input[..i]), from);
    PowExpMono(from, i, |input|);
  }

  /** `encode`'s conversion loop: the base58 digits of the input, least
      significant first, in the front of a buffer that always has room. */
  method EncodeDigits(input: Bytes) returns (output: array<nat>, index: nat)
    ensures fresh(output) && output.Length == |input| * 137 / 100 + 1
    ensures index <= output.Length && Canonical(output[..index], 58)
    ensures Value(output[..index], 58) == Value(Reverse(input), 256)
  {
    output := new nat[|input| * 137 / 100 + 1];
    index := 0;
    EncodeRoom(|input|);
    assert output[..0] == [];
    for i := 0 to |input|
      invariant index <= output.Length && Canonical(output[..index], 58)
      invariant Value(output[..index], 58) == Value(Reverse(input[..i]), 256)
    {
      ReverseStep(input, i, 256);
      PrefixRoom(input, i + 1, 256, 58, output.Length);
      ghost var was := output[..index];
      var val := ScaleAndAdd(output, index, 58, 256, input[i]);
      if val == 0 {
        assert Pow(58, index) * val == 0;
        ScaledCanonical(was, output[..index], 58, 256, input[i]);
      }
      ghost var total := Value(output[..index], 58) + Pow(58, index) * val;
      assert total == Value(Reverse(input[..i + 1]), 256);
      index := PushCarry(output, index, val);
    }
    assert input[..|input|] == input;
  }

  lemma SignificantLength(input: Bytes, digits: seq<nat>)
    requires Canonical(digits, 58) && Value(digits, 58) == Value(Reverse(input), 256)
    ensures |digits| <= (|input| - LeadingZeros(input)) * 137 / 100 + 1
  {
    var significant := input[LeadingZeros(input)..];
    BigEndianShape(input, 256);
    ValueBound(Reverse(significant), 256);
    EncodeRoom(|significant|);
    CanonicalLength(digits, 58, |significant| * 137 / 100 + 1);
  }

  lemma LeadingZerosRoom(input: Bytes, digits: seq<nat>)
    requires Canonical(digits, 58) && Value(digits, 58) == Value(Reverse(input), 256)
    ensures |digits| + LeadingZeros(input) <= |input| * 137 / 100 + 1
  {
    SignificantLength(input, digits);
  }

  lemma FinishedText(input: Bytes, digits: seq<nat>, text: seq<nat>)
    requires digits == DigitsFor(Value(Reverse(input), 256), 58)
    requires |text| == |digits| + LeadingZeros(input)
    requires |ALPHABET| == 58 && forall k :: 0 <= k < |digits| ==>
               digits[k] < 58 && text[k] == ALPHABET[digits[k]] as int
    requires forall k :: |digits| <= k < |text| ==> text[k] == ALPHABET[0] as int
    ensures |Encoded(input)| == |text|
    ensures forall i :: 0 <= i < |text| ==> Encoded(input)[i] as int == text[|text| - 1 - i]
  {
    hide Value, DigitsFor, LeadingZeros;
    var e := Rebase(input, 256, 58);
    var z := LeadingZeros(input);
    forall i | 0 <= i < |text|
      ensures Encoded(input)[i] as int == text[|text| - 1 - i]
    {
      assert Encoded(input)[i] == ALPHABET[e[i]];
      if i < z {
        assert e[i] == 0;
      } else {
        assert e[i] == Reverse(digits)[i - z] == digits[|text| - 1 - i];
      }
    }
  }

  /** `encode`: the digits become characters in place, one `1` follows for
      each leading zero byte, and the used part of the buffer is reversed. */
  method Encode(input: Bytes) returns (s: string)
    ensures s == Encoded(input)
  {
    var output, count := EncodeDigits(input);
    ghost var digits := output[..count];
    CanonicalUnique(digits, DigitsFor(Value(Reverse(input), 256), 58), 58);
    LeadingZerosRoom(input, digits);
    DigitsToCharacters(output, count);
    var index := StoreLeadingZeros(input, output, count);
    OneIsZero('1');
    FinishedText(input, digits, output[..index]);
    s := TakeReversed(output, index, Encoded(input));
  }

  /** The first characters of the buffer, in reverse order. */
  method TakeReversed(output: array<nat>, count: nat, ghost expected: string) returns (s: string)
    requires |expected| == count <= output.Length
    requires forall i :: 0 <= i < count ==> expected[i] as int == output[..count][count - 1 - i]
    ensures s == expected
  {
    s := "";
    for i := 0 to count
      invariant s == expected[..i]
    {
      assert output[count - 1 - i] == output[..count][count - 1 - i] == expected[i] as int;
      s := s + [output[count - 1 - i] as char];
    }
  }

  /** `encode`'s loop that replaces digits by characters. */
  method DigitsToCharacters(output: array<nat>, count: nat)
    requires count <= output.Length && Below(output[..count], 58)
    modifies output
    ensures |ALPHABET| == 58
    ensures forall k :: 0 <= k < count ==> old(output[k]) < 58 && output[k] == ALPHABET[old(output[k])] as int
  {
    assert |ALPHABET| == 58;
    ghost var digits := output[..count];
    for j := 0 to count
      invariant forall k :: 0 <= k < j ==> output[k] == ALPHABET[digits[k]] as int
      invariant forall k :: j <= k < count ==> output[k] == digits[k]
    {
      output[j] := ALPHABET[output[j]] as int;
    }
  }

  /** `encode`'s loop that stores a `1` for each leading zero byte. */
  method StoreLeadingZeros(input: Bytes, output: array<nat>, count: nat) returns (index: nat)
    requires count + LeadingZeros(input) <= output.Length
    modifies output
    ensures index == count + LeadingZeros(input)
    ensures forall k :: 0 <= k < count ==> output[k] == old(output[k])
    ensures forall k :: count <= k < index ==> output[k] == '1' as int
  {
    index := count;
    var i := 0;
    while i < |input| && input[i] == 0
      invariant i <= LeadingZeros(input) && index == count + i
      invariant forall k :: 0 <= k < count ==> output[k] == old(output[k])
      invariant forall k :: count <= k < index ==> output[k] == '1' as int
      decreases |input| - i
    {
      output[index] := '1' as int;
      index := index + 1;
      i := i + 1;
    }
  }

  // ------------------------------------------------------------------
  // Decoding.

  const LIMB: nat := 0x1_0000_0000

  lemma PowersOf256()
    ensures Pow(256, 1) == 0x100 && Pow(256, 2) == 0x1_0000
    ensures Pow(256, 3) == 0x100_0000 && Pow(256, 4) == LIMB
  {
    assert Pow(256, 1) == 256 * Pow(256, 0);
    assert Pow(256, 2) == 256 * Pow(256, 1);
    assert Pow(256, 3) == 256 * Pow(256, 2);
    assert Pow(256, 4) == 256 * Pow(256, 3);
  }

  lemma LimbPower(k: nat)
    ensures Pow(LIMB, k) == Pow(256, 4 * k)
  {
    PowersOf256();
    PowProduct(256, 4, k);
  }

  lemma OneIsZero(c: char)
    ensures |ALPHABET| == 58 && ALPHABET[0] == '1'
    ensures DigitOf(c) == 0 <==> c == '1'
  {
    assert |ALPHABET| == 58 && ALPHABET[0] == '1';
  }

  /** Room in 32-bit limbs: the byte count rounded up to whole limbs. */
  lemma LimbRoom(n: nat, limbs: nat)
    requires limbs == (n * 47 / 64 + 1 + 3) / 4
    ensures Pow(58, n) <= Pow(LIMB, limbs)
  {
    DecodeRoom(n);
    LimbPower(limbs);
    PowExpMono(256, n * 47 / 64 + 1, 4 * limbs);
  }

  /** `decode`'s conversion loop: the 32-bit limbs of the number the digits
      stand for, least significant first, or failure at the first character
      outside the alphabet. */
  method DecodeLimbs(rest: string) returns (ok: bool, limbs: array<nat>, index: nat)
    ensures ok <==> IsBase58(rest)
    ensures ok ==> index <= limbs.Length && Canonical(limbs[..index], LIMB)
    ensures ok ==> Value(limbs[..index], LIMB) == Value(Reverse(DigitsOf(rest)), 58)
  {
    var size := (|rest| * 47 / 64 + 1 + 3) / 4;
    limbs := new nat[size];
    index := 0;
    LimbRoom(|rest|, size);
    ghost var digits := DigitsOf(rest);
    assert limbs[..0] == [];
    for i := 0 to |rest|
      invariant forall k :: 0 <= k < i ==> digits[k] < 58
      invariant index <= limbs.Length && Canonical(limbs[..index], LIMB)
      invariant Value(limbs[..index], LIMB) == Value(Reverse(digits[..i]), 58)
    {
      var digit := DigitOf(rest[i]);
      if digit == INVALID {
        return false, limbs, index;
      }
      DigitStep(digits, i, limbs.Length);
      index := AddDigit(limbs, index, digit);
    }
    assert digits[..|rest|] == digits;
    ValidDigits(rest);
    ok := true;
  }

  lemma ValidDigits(s: string)
    requires forall k :: 0 <= k < |s| ==> DigitsOf(s)[k] < 58
    ensures IsBase58(s)
  {
    forall k | 0 <= k < |s|
      ensures DigitOf(s[k]) != INVALID
    {
      assert DigitsOf(s)[k] == DigitOf(s[k]);
    }
  }

  lemma DigitStep(digits: seq<nat>, i: nat, room: nat)
    requires i < |digits| && forall k :: 0 <= k <= i ==> digits[k] < 58
    requires Pow(58, |digits|) <= Pow(LIMB, room)
    ensures Value(Reverse(digits[..i + 1]), 58) == 58 * Value(Reverse(digits[..i]), 58) + digits[i]
    ensures 58 * Value(Reverse(digits[..i]), 58) + digits[i] < Pow(LIMB, room)
  {
    ReverseStep(digits, i, 58);
    ValueBound(Reverse(digits[..i + 1]), 58);
    PowExpMono(58, i + 1, |digits|);
  }

  /** The body of `decode`'s loop for one digit. */
  method AddDigit(limbs: array<nat>, start: nat, digit: nat) returns (index: nat)
    requires start <= limbs.Length && digit < 58 && Canonical(limbs[..start], LIMB)
    requires 58 * Value(limbs[..start], LIMB) + digit < Pow(LIMB, limbs.Length)
    modifies limbs
    ensures index <= limbs.Length && Canonical(limbs[..index], LIMB)
    ensures Value(limbs[..index], LIMB) == 58 * Value(old(limbs[..start]), LIMB) + digit
  {
    index := start;
    ghost var was := limbs[..start];
    var val := ScaleAndAdd(limbs, start, LIMB, 58, digit);
    ghost var now := limbs[..start];
    if val > 0 {
      RoomForCarry(Value(now, LIMB), LIMB, index, val, limbs.Length);
      limbs[index] := val;
      index := index + 1;
      assert limbs[..index] == now + [val];
      ValueSnoc(now, val, LIMB);
    } else {
      assert Pow(LIMB, start) * val == 0;
      ScaledCanonical(was, now, LIMB, 58, digit);
    }
  }

  function LittleEndian(u: nat): (b: seq<nat>)
    requires u < LIMB
    ensures |b| == 4 && Below(b, 256)
  {
    [u % 256, u / 256 % 256, u / 0x1_0000 % 256, u / 0x100_0000]
  }

  lemma LittleEndianValue(u: nat)
    requires u < LIMB
    ensures Value(LittleEndian(u), 256) == u
  {
    hide Value;
    FourDigits(u % 256, u / 256 % 256, u / 0x1_0000 % 256, u / 0x100_0000);
    FourBytes(u);
  }

  lemma FourBytes(u: nat)
    ensures u == u % 256 + 256 * (u / 256 % 256) + 0x1_0000 * (u / 0x1_0000 % 256) + 0x100_0000 * (u / 0x100_0000)
  {
    var v := u / 256;
    var w := v / 256;
    assert u / 0x1_0000 == w && u / 0x100_0000 == w / 256;
  }

  lemma FourDigits(a: nat, b: nat, c: nat, d: nat)
    ensures Value([a, b, c, d], 256) == a + 256 * b + 0x1_0000 * c + 0x100_0000 * d
  {
    var s := [a, b, c, d];
    assert s[1..][1..] == s[2..];
    assert s[2..][1..] == s[3..];
    assert s[3..][1..] == [];
    assert Value(s[3..], 256) == d + 256 * Value([], 256);
    assert Value(s[2..], 256) == c + 256 * Value(s[3..], 256);
    assert Value(s[1..], 256) == b + 256 * Value(s[2..], 256);
  }

  /** `decode`'s conversion of limbs to bytes. */
  method LimbBytes(limbs: array<nat>, count: nat) returns (output: Bytes)
    requires count <= limbs.Length && Below(limbs[..count], LIMB)
    ensures |output| == 4 * count
    ensures Value(output, 256) == Value(limbs[..count], LIMB)
    ensures count > 0 ==> output[4 * count - 4..] == LittleEndian(limbs[count - 1])
  {
    output := [];
    assert limbs[..0] == [];
    for j := 0 to count
      invariant |output| == 4 * j && Value(output, 256) == Value(limbs[..j], LIMB)
      invariant j > 0 ==> output[4 * j - 4..] == LittleEndian(limbs[j - 1])
    {
      var b := LittleEndian(limbs[j]);
      LittleEndianValue(limbs[j]);
      ValueConcat(output, b, 256);
      LimbPower(j);
      assert limbs[..j + 1] == limbs[..j] + [limbs[j]];
      ValueSnoc(limbs[..j], limbs[j], LIMB);
      output := output + b;
    }
  }

  /** The number of leading zero bits of a 32-bit word. */
  function LeadingZeroBits(u: nat): (n: nat)
    requires u < LIMB
    ensures n <= 32
    ensures u > 0 ==> 0x8000_0000 <= u * Pow(2, n) < LIMB
    decreases LIMB - u
  {
    if u == 0 then 32
    else if u >= 0x8000_0000 then 0
    else
      var n := LeadingZeroBits(2 * u);
      assert n < 32 by { ShiftRoom(2 * u, n); }
      assert u * Pow(2, n + 1) == (2 * u) * Pow(2, n) by { ShiftOnce(u, n); }
      n + 1
  }

  lemma ShiftOnce(u: nat, n: nat)
    ensures u * Pow(2, n + 1) == (2 * u) * Pow(2, n)
  {
    assert u * (2 * Pow(2, n)) == (2 * u) * Pow(2, n);
  }

  lemma ShiftRoom(u: nat, n: nat)
    requires u > 0 && u * Pow(2, n) < LIMB
    ensures n < 32
  {
    if n >= 32 {
      PowTwo(32);
      PowExpMono(2, 32, n);
      MulMono(1, u, LIMB, Pow(2, n));
    }
  }

  lemma TopByteRange(u: nat)
    requires 0 < u < LIMB
    ensures LeadingZeroBits(u) / 8 < 4
    ensures match LeadingZeroBits(u) / 8
            case 0 => 0x100_0000 <= u
            case 1 => 0x1_0000 <= u < 0x100_0000
            case 2 => 0x100 <= u < 0x1_0000
            case _ => u < 0x100
  {
    var n := LeadingZeroBits(u);
    if n < 8 {
      PowTwoBound(u, n, 7, 128);
    } else if n < 16 {
      PowTwoBelow(u, n, 8, 0x100);
      PowTwoBound(u, n, 15, 0x8000);
    } else if n < 24 {
      PowTwoBelow(u, n, 16, 0x1_0000);
      PowTwoBound(u, n, 23, 0x80_0000);
    } else {
      PowTwoBelow(u, n, 24, 0x100_0000);
      if n == 32 {
        PowTwoBelow(u, n, 32, LIMB);
      }
    }
  }

  lemma TopByte(u: nat)
    requires 0 < u < LIMB
    ensures LeadingZeroBits(u) / 8 < 4
    ensures var q := LeadingZeroBits(u) / 8;
            LittleEndian(u)[3 - q] != 0 && forall i :: 4 - q <= i < 4 ==> LittleEndian(u)[i] == 0
  {
    TopByteRange(u);
    TopByteIn(u, LeadingZeroBits(u) / 8);
  }

  lemma TopByteIn(u: nat, q: nat)
    requires 0 < u < LIMB && q < 4
    requires match q
             case 0 => 0x100_0000 <= u
             case 1 => 0x1_0000 <= u < 0x100_0000
             case 2 => 0x100 <= u < 0x1_0000
             case _ => u < 0x100
    ensures LittleEndian(u)[3 - q] != 0 && forall i :: 4 - q <= i < 4 ==> LittleEndian(u)[i] == 0
  {}

  lemma PowTwo(e: nat)
    requires e == 7 || e == 8 || e == 15 || e == 16 || e == 23 || e == 24 || e == 32
    ensures Pow(2, e) == match e case 7 => 128 case 8 => 0x100 case 15 => 0x8000 case 16 => 0x1_0000
                               case 23 => 0x80_0000 case 24 => 0x100_0000 case _ => LIMB
  {
    PowersOf2();
    assert Pow(2, 8) == 2 * Pow(2, 7);
    PowSquare(2, 8, 0x100);
    assert Pow(2, 16) == 2 * Pow(2, 15);
    PowSquare(2, 16, 0x1_0000);
    PowAdd(2, 16, 7);
    assert Pow(2, 24) == 2 * Pow(2, 23);
  }

  lemma PowTwoBound(u: nat, n: nat, e: nat, p: nat)
    requires u < LIMB && n <= e && 0x8000_0000 <= u * Pow(2, n)
    requires (e == 7 && p == 128) || (e == 15 && p == 0x8000) || (e == 23 && p == 0x80_0000)
    ensures 0x8000_0000 <= u * p
  {
    PowTwo(e);
    PowExpMono(2, n, e);
    MulMono(u, u, Pow(2, n), p);
  }

  lemma PowTwoBelow(u: nat, n: nat, e: nat, p: nat)
    requires e <= n && u * Pow(2, n) < LIMB
    requires || (e == 8 && p == 0x100) || (e == 16 && p == 0x1_0000)
             || (e == 24 && p == 0x100_0000) || (e == 32 && p == LIMB)
    ensures u * p < LIMB
  {
    PowTwo(e);
    PowExpMono(2, e, n);
    MulMono(u, u, p, Pow(2, n));
  }

  lemma TrimmedCanonical(output: seq<nat>, index: nat)
    requires index <= |output| && Below(output, 256)
    requires forall i :: index <= i < |output| ==> output[i] == 0
    requires index > 0 ==> output[index - 1] != 0
    ensures Canonical(output[..index], 256) && Value(output[..index], 256) == Value(output, 256)
  {
    hide Value, Pow;
    var z := |output| - index;
    assert output == output[..index] + Zeros(z);
    ValueConcat(output[..index], Zeros(z), 256);
    ZerosValue(z, 256);
    assert Pow(256, index) * 0 == 0;
  }

  /** `decode`'s cut of the bytes after the most significant one. */
  method TrimBytes(limbs: array<nat>, count: nat, output: Bytes) returns (index: nat)
    requires count <= limbs.Length && Canonical(limbs[..count], LIMB)
    requires |output| == 4 * count
    requires count > 0 ==> limbs[count - 1] < LIMB && output[4 * count - 4..] == LittleEndian(limbs[count - 1])
    ensures index <= |output|
    ensures Canonical(output[..index], 256) && Value(output[..index], 256) == Value(output, 256)
  {
    index := |output|;
    if count > 0 {
      var top := limbs[count - 1];
      assert top == limbs[..count][count - 1];
      TopByte(top);
      index := index - LeadingZeroBits(top) / 8;
      assert output[index - 1] == LittleEndian(top)[index - 1 - (4 * count - 4)];
      forall i | index <= i < |output|
        ensures output[i] == 0
      {
        assert output[i] == LittleEndian(top)[i - (4 * count - 4)];
      }
    }
    TrimmedCanonical(output, index);
  }

  lemma LeadingZerosCount(d: seq<nat>, n: nat)
    requires n <= |d| && (forall i :: 0 <= i < n ==> d[i] == 0) && (n < |d| ==> d[n] != 0)
    ensures LeadingZeros(d) == n
  {}

  method CountLeadingOnes(input: string) returns (nlz: nat)
    ensures nlz == LeadingZeros(DigitsOf(input))
  {
    nlz := 0;
    ghost var digits := DigitsOf(input);
    while nlz < |input| && input[nlz] == '1'
      invariant nlz <= |input|
      invariant forall i :: 0 <= i < nlz ==> digits[i] == 0
    {
      OneIsZero(input[nlz]);
      nlz := nlz + 1;
    }
    if nlz < |input| {
      OneIsZero(input[nlz]);
    }
    LeadingZerosCount(digits, nlz);
  }

  lemma SignificantDigits(input: string, nlz: nat)
    requires nlz == LeadingZeros(DigitsOf(input))
    ensures DigitsOf(input[nlz..]) == DigitsOf(input)[nlz..]
    ensures IsBase58(input) <==> IsBase58(input[nlz..])
    ensures IsBase58(input) ==>
              Value(Reverse(DigitsOf(input)), 58) == Value(Reverse(DigitsOf(input[nlz..])), 58)
  {
    assert DigitsOf(input[nlz..]) == DigitsOf(input)[nlz..];
    if IsBase58(input[nlz..]) {
      forall k | 0 <= k < |input|
        ensures DigitsOf(input)[k] < 58
      {
        if k >= nlz {
          assert DigitsOf(input)[k] == DigitsOf(input[nlz..])[k - nlz];
        }
      }
      ValidDigits(input);
      BigEndianShape(DigitsOf(input), 58);
    }
  }

  /** `decode`: the bytes a base58 text stands for, and no bytes at all for a
      text with any character outside the alphabet. */
  method Decode(input: string) returns (b: Bytes)
    ensures b == Decoded(input)
  {
    if input == "" {
      assert DigitsOf(input) == [];
      assert Decoded(input) == Zeros(0) + Reverse(DigitsFor(0, 256));
      return [];
    }
    var nlz := CountLeadingOnes(input);
    SignificantDigits(input, nlz);
    var ok, limbs, count := DecodeLimbs(input[nlz..]);
    if !ok {
      return [];
    }
    assert count > 0 ==> limbs[..count][count - 1] < LIMB;
    var output := LimbBytes(limbs, count);
    var index := TrimBytes(limbs, count, output);
    CanonicalUnique(output[..index], DigitsFor(Value(Reverse(DigitsOf(input)), 58), 256), 256);
    b := LastFirst(output[..index], nlz);
  }

  /** `decode`'s last steps: append the zeros and reverse. */
  method LastFirst(digits: Bytes, zeros: nat) returns (b: Bytes)
    ensures b == Zeros(zeros) + Reverse(digits)
  {
    var output := digits + seq(zeros, i => 0);
    b := seq(|output|, i requires 0 <= i < |output| => output[|output| - 1 - i]);
  }

  // ------------------------------------------------------------------
  // base58check, for any checksum function.

  datatype CheckError = Checksum | InvalidFormat
  datatype CheckResult = Ok(payload: Bytes, version: Bytes) | Err(error: CheckError)

  /** A checksum function: four bytes for every byte string. */
  ghost predicate IsChecksum(checksum: Bytes -> Bytes)
  {
    forall b: Bytes :: |checksum(b)| == 4
  }

  ghost function CheckEncoded(checksum: Bytes -> Bytes, input: Bytes, version: Bytes): string
    requires |version| == 2
  {
    Encoded(version + input + checksum(version + input))
  }

  ghost function CheckDecoded(checksum: Bytes -> Bytes, input: string): CheckResult
  {
    var decoded := Decoded(input);
    if |decoded| < 6 then Err(InvalidFormat)
    else
      var n := |decoded| - 4;
      if decoded[n..] != checksum(decoded[..n]) then Err(Checksum)
      else Ok(decoded[2..n], decoded[..2])
  }

  method CheckEncode(checksum: Bytes -> Bytes, input: Bytes, version: Bytes) returns (s: string)
    requires |version| == 2
    ensures s == CheckEncoded(checksum, input, version)
  {
    var b: Bytes := version;
    b := b + input;
    var calculated := checksum(b);
    b := b + calculated;
    s := Encode(b);
  }

  method CheckDecode(checksum: Bytes -> Bytes, input: string) returns (r: CheckResult)
    ensures r == CheckDecoded(checksum, input)
  {
    var decoded := Decode(input);
    if |decoded| < 6 {
      return Err(InvalidFormat);
    }
    var version := [decoded[0], decoded[1]];
    assert version == decoded[..2];
    var n := |decoded| - 4;
    var calculated := checksum(decoded[..n]);
    if decoded[n..] != calculated {
      return Err(Checksum);
    }
    r := Ok(decoded[2..n], version);
  }

  lemma CheckEncodeThenDecode(checksum: Bytes -> Bytes, input: Bytes, version: Bytes)
    requires IsChecksum(checksum) && |version| == 2
    ensures CheckDecoded(checksum, CheckEncoded(checksum, input, version)) == Ok(input, version)
  {
    var body: Bytes := version + input;
    var b: Bytes := body + checksum(body);
    EncodeThenDecode(b);
    assert b[..|b| - 4] == body;
    assert b[|b| - 4..] == checksum(body);
    assert b[2..|b| - 4] == input;
    assert b[..2] == version;
  }

  /** The other direction: only the text `check_encode` makes decodes to a
      payload and version. */
  lemma CheckDecodeThenEncode(checksum: Bytes -> Bytes, s: string)
    requires CheckDecoded(checksum, s).Ok?
    ensures var r := CheckDecoded(checksum, s);
            |r.version| == 2 && CheckEncoded(checksum, r.payload, r.version) == s
  {
    var b := Decoded(s);
    var r := CheckDecoded(checksum, s);
    var n := |b| - 4;
    assert r.version + r.payload == b[..n];
    assert b == b[..n] + b[n..];
    DecodeThenEncode(s);
  }
}
