/** Base32 text as onion addresses use it (section 6 of RFC 4648). */
module Base32 {
  import opened Digits
  import opened Options

  // Five bytes and eight characters are the same 40-bit number, so a whole text and its bytes are
  // the same number too; that is what the two conversions are held to.

  // ------------------------------------------------------------------
  // Characters.

  function LowerChar(d: nat): char
    requires d < 32
  {
    if d < 26 then ('a' as int + d) as char else ('2' as int + d - 26) as char
  }

  /** A character's position in the upper-case alphabet, -1 for none. */
  function UpperValue(c: char): (v: int)
    ensures -1 <= v < 32
  {
    if 'A' <= c <= 'Z' then c as int - 'A' as int
    else if '2' <= c <= '7' then c as int - '2' as int + 26
    else -1
  }

  /** ASCII upper case. */
  function Upper(c: char): char
  {
    if 'a' <= c <= 'z' then (c as int - 'a' as int + 'A' as int) as char else c
  }

  function UpperText(s: string): (r: string)
    ensures |r| == |s|
  {
    seq(|s|, i requires 0 <= i < |s| => Upper(s[i]))
  }

  predicate InAlphabet(s: string)
  {
    forall i :: 0 <= i < |s| ==> UpperValue(s[i]) >= 0
  }

  ghost function ValuesOf(s: string): (d: seq<nat>)
    requires InAlphabet(s)
    ensures |d| == |s| && Below(d, 32)
  {
    seq(|s|, i requires 0 <= i < |s| => UpperValue(s[i]))
  }

  ghost function LowerText(d: seq<nat>): (s: string)
    requires Below(d, 32)
    ensures |s| == |d|
  {
    seq(|d|, i requires 0 <= i < |d| => LowerChar(d[i]))
  }

  lemma LowerTextValues(d: seq<nat>)
    requires Below(d, 32)
    ensures InAlphabet(UpperText(LowerText(d))) && ValuesOf(UpperText(LowerText(d))) == d
  {}

  /** Upper-casing forgets only case: a text whose upper case is in the alphabet prints back
      as its values' lower-case text. */
  lemma ValuesLowerText(s: string)
    requires InAlphabet(UpperText(s))
    ensures UpperText(LowerText(ValuesOf(UpperText(s)))) == UpperText(s)
  {
    var d := ValuesOf(UpperText(s));
    forall i | 0 <= i < |s|
      ensures Upper(LowerChar(d[i])) == Upper(s[i])
    {
      assert d[i] == UpperValue(UpperText(s)[i]);
    }
  }

  // ------------------------------------------------------------------
  // Numbers, most significant digit first.

  ghost function Number(s: seq<nat>, base: nat): nat
  {
    Value(Reverse(s), base)
  }

  /** Bytes and base-32 digits that are the same 40-bit groups. */
  ghost predicate SameNumber(bytes: seq<nat>, digits: seq<nat>)
  {
    && Below(bytes, 256) && Below(digits, 32) && 8 * |bytes| == 5 * |digits|
    && Number(bytes, 256) == Number(digits, 32)
  }

  lemma NumberConcat(s: seq<nat>, t: seq<nat>, base: nat)
    ensures Number(s + t, base) == Number(t, base) + Pow(base, |t|) * Number(s, base)
  {
    ReverseConcat(s, t);
    ValueConcat(Reverse(t), Reverse(s), base);
  }

  lemma NumberInjective(s: seq<nat>, t: seq<nat>, base: nat)
    requires Below(s, base) && Below(t, base) && |s| == |t| && Number(s, base) == Number(t, base)
    ensures s == t
  {
    ValueInjective(Reverse(s), Reverse(t), base);
    ReverseTwice(s);
    ReverseTwice(t);
  }

  /** Each side determines the other. */
  lemma SameNumberUnique(a: seq<nat>, d: seq<nat>, b: seq<nat>, e: seq<nat>)
    requires SameNumber(a, d) && SameNumber(b, e)
    ensures a == b <==> d == e
  {
    if a == b {
      NumberInjective(d, e, 32);
    }
    if d == e {
      NumberInjective(a, b, 256);
    }
  }

  lemma GroupPowers()
    ensures Pow(256, 5) == Pow(32, 8) == 0x100_0000_0000
  {
    assert Pow(256, 2) == 65536;
    PowAdd(256, 2, 2);
    PowAdd(256, 4, 1);
    assert Pow(32, 2) == 1024;
    PowAdd(32, 2, 2);
    PowAdd(32, 4, 4);
  }

  lemma SameNumberConcat(a: seq<nat>, d: seq<nat>, b: seq<nat>, e: seq<nat>)
    requires SameNumber(a, d) && SameNumber(b, e) && |b| == 5
    ensures SameNumber(a + b, d + e)
  {
    NumberConcat(a, b, 256);
    NumberConcat(d, e, 32);
    GroupPowers();
  }

  /** A number without its k lowest digits; for base 2^w, shifted right by wk bits. */
  function Drop(x: nat, base: nat, k: nat): nat
    requires base > 0
  {
    if k == 0 then x else Drop(x, base, k - 1) / base
  }

  lemma {:induction false} DropFirst(x: nat, base: nat, k: nat)
    requires base > 0
    ensures Drop(x, base, k + 1) == Drop(x / base, base, k)
  {
    if k > 0 {
      DropFirst(x, base, k - 1);
    }
  }

  ghost function LowDigits(x: nat, base: nat, n: nat): (d: seq<nat>)
    requires base > 0
    ensures |d| == n
  {
    seq(n, k requires 0 <= k < n => Drop(x, base, k) % base)
  }

  lemma {:induction false} LowDigitsValue(x: nat, base: nat, n: nat)
    requires base > 0 && x < Pow(base, n)
    ensures Below(LowDigits(x, base, n), base) && Value(LowDigits(x, base, n), base) == x
    decreases n
  {
    var d := LowDigits(x, base, n);
    forall k | 0 <= k < n
      ensures d[k] < base
    {
      ModBound(Drop(x, base, k), base);
    }
    if n > 0 {
      QuotientBound(x, base, Pow(base, n - 1));
      LowDigitsValue(x / base, base, n - 1);
      forall k | 0 <= k < n - 1
        ensures d[1..][k] == LowDigits(x / base, base, n - 1)[k]
      {
        DropFirst(x, base, k);
      }
      assert d[1..] == LowDigits(x / base, base, n - 1);
    }
  }

  lemma ModBound(x: nat, m: nat)
    requires m > 0
    ensures x % m < m
  {}

  lemma QuotientBound(x: nat, base: nat, p: nat)
    requires base > 0 && x < base * p
    ensures x / base < p && x == x % base + base * (x / base)
  {
    assert x == x % base + base * (x / base);
    if x / base >= p {
      MulMono(base, base, p, x / base);
    }
  }

  // ------------------------------------------------------------------
  // Encoding.

  /** Five bytes as one number. */
  function Bits(b: seq<nat>): nat
    requires |b| == 5
  {
    b[0] * 0x1_0000_0000 + b[1] * 0x100_0000 + b[2] * 0x1_0000 + b[3] * 0x100 + b[4]
  }

  lemma BitsNumber(b: seq<nat>)
    requires |b| == 5 && Below(b, 256)
    ensures Bits(b) == Number(b, 256) < Pow(256, 5)
  {
    var r := Reverse(b);
    assert r == [b[4]] + ([b[3]] + ([b[2]] + ([b[1]] + ([b[0]] + []))));
    ValueCons(b[0], []);
    ValueCons(b[1], [b[0]] + []);
    ValueCons(b[2], [b[1]] + ([b[0]] + []));
    ValueCons(b[3], [b[2]] + ([b[1]] + ([b[0]] + [])));
    ValueCons(b[4], [b[3]] + ([b[2]] + ([b[1]] + ([b[0]] + []))));
    ValueBound(r, 256);
  }

  lemma ValueCons(x: nat, t: seq<nat>)
    ensures Value([x] + t, 256) == x + 256 * Value(t, 256)
  {
    assert ([x] + t)[1..] == t;
  }

  /** The group's eight base-32 digits, most significant first. */
  ghost function GroupDigits(bits: nat): (d: seq<nat>)
    ensures |d| == 8
  {
    Reverse(LowDigits(bits, 32, 8))
  }

  lemma GroupDigitsNumber(b: seq<nat>)
    requires |b| == 5 && Below(b, 256)
    ensures SameNumber(b, GroupDigits(Bits(b)))
  {
    BitsNumber(b);
    GroupPowers();
    LowDigitsValue(Bits(b), 32, 8);
    ReverseTwice(LowDigits(Bits(b), 32, 8));
  }

  /** How many characters a group of 1 to 5 bytes takes. */
  function GroupChars(n: nat): nat
    requires 1 <= n <= 5
  {
    [2, 4, 5, 7, 8][n - 1]
  }

  /** Bytes missing from the last group, and the padding that stands for them. */
  function Missing(n: nat): nat
  {
    (5 - n % 5) % 5
  }

  function Padding(n: nat): nat
  {
    if n % 5 == 0 then 0 else 8 - GroupChars(n % 5)
  }

  ghost function Equals(n: nat): (s: string)
    ensures |s| == n
  {
    seq(n, i => '=')
  }

  /** A text for these bytes: the digits of the bytes filled up with zero bytes to whole
      groups, the digits past the data replaced by padding. */
  ghost predicate PrintsAs(data: seq<nat>, text: string)
  {
    exists d :: PrintedDigits(data, text, d)
  }

  ghost predicate PrintedDigits(data: seq<nat>, text: string, d: seq<nat>)
  {
    && Below(d, 32) && text == LowerText(d) + Equals(Padding(|data|))
    && SameNumber(data + Zeros(Missing(|data|)), d + Zeros(Padding(|data|)))
  }

  /** For whole groups there is no padding. */
  lemma WholeGroups(data: seq<nat>, text: string, d: seq<nat>)
    requires |data| % 5 == 0
    ensures PrintedDigits(data, text, d) <==> Below(d, 32) && text == LowerText(d) && SameNumber(data, d)
  {
    assert data + Zeros(0) == data && d + Zeros(0) == d;
    assert Below(d, 32) ==> LowerText(d) + Equals(0) == LowerText(d);
  }

  /** One group's characters and padding. */
  method EncodeGroup(chunk: seq<nat>) returns (out: string)
    requires 1 <= |chunk| <= 5 && Below(chunk, 256)
    ensures GroupText(chunk, out)
  {
    hide Drop;
    var buf := chunk + seq(5 - |chunk|, i => 0);
    assert buf == chunk + Zeros(5 - |chunk|);
    var bits := Bits(buf);
    ghost var d := GroupDigits(bits);
    GroupDigitsNumber(buf);
    var n := GroupChars(|chunk|);
    out := "";
    for i := 0 to n
      invariant |out| == i && out == LowerText(d[..i])
    {
      assert d[i] == LowDigits(bits, 32, 8)[7 - i] == Drop(bits, 32, 7 - i) % 32;
      out := out + [LowerChar(Drop(bits, 32, 7 - i) % 32)];
    }
    for i := n to 8
      invariant out == LowerText(d[..n]) + Equals(i - n)
    {
      out := out + ['='];
    }
  }

  lemma {:induction false} DropMultiple(y: nat, m: nat, k: nat)
    requires k < m
    ensures Drop(y * Pow(32, m), 32, k) == y * Pow(32, m - k)
    ensures Drop(y * Pow(32, m), 32, k) % 32 == 0
  {
    if k > 0 {
      DropMultiple(y, m, k - 1);
      assert y * Pow(32, m - k + 1) == 32 * (y * Pow(32, m - k)) by { Rearrange(y, Pow(32, m - k)); }
    }
    assert y * Pow(32, m - k) == 32 * (y * Pow(32, m - k - 1)) by { Rearrange(y, Pow(32, m - k - 1)); }
  }

  lemma Rearrange(y: nat, p: nat)
    ensures y * (32 * p) == 32 * (y * p)
  {}

  /** The digits that padding replaces are zeros. */
  lemma PaddedDigitsZero(chunk: seq<nat>, i: nat)
    requires 1 <= |chunk| <= 5 && GroupChars(|chunk|) <= i < 8
    ensures GroupDigits(Bits(chunk + Zeros(5 - |chunk|)))[i] == 0
  {
    var bits := Bits(chunk + Zeros(5 - |chunk|));
    var m := 8 - GroupChars(|chunk|);
    SmallPowers();
    var y := if |chunk| == 1 then chunk[0] * 4
             else if |chunk| == 2 then (chunk[0] * 256 + chunk[1]) * 16
             else if |chunk| == 3 then (chunk[0] * 0x1_0000 + chunk[1] * 256 + chunk[2]) * 2
             else (chunk[0] * 0x100_0000 + chunk[1] * 0x1_0000 + chunk[2] * 256 + chunk[3]) * 8;
    assert bits == y * Pow(32, m);
    DropMultiple(y, m, 7 - i);
  }

  lemma SmallPowers()
    ensures Pow(32, 1) == 32 && Pow(32, 3) == 0x8000 && Pow(32, 4) == 0x10_0000 && Pow(32, 6) == 0x4000_0000
  {
    assert Pow(32, 2) == 1024;
    PowAdd(32, 2, 2);
    PowAdd(32, 4, 2);
  }

  ghost predicate GroupText(chunk: seq<nat>, out: string)
    requires 1 <= |chunk| <= 5
  {
    var n := GroupChars(|chunk|);
    var d := GroupDigits(Bits(chunk + Zeros(5 - |chunk|)));
    Below(d, 32) && out == LowerText(d[..n]) + Equals(8 - n)
  }

  /** The digits of one more group: those shown, then zeros. */
  lemma MoreDigits(a: seq<nat>, d: seq<nat>, chunk: seq<nat>)
    requires SameNumber(a, d) && 1 <= |chunk| <= 5 && Below(chunk, 256)
    ensures var n, g := GroupChars(|chunk|), GroupDigits(Bits(chunk + Zeros(5 - |chunk|)));
            && Below(d + g[..n], 32)
            && SameNumber((a + chunk) + Zeros(5 - |chunk|), (d + g[..n]) + Zeros(8 - n))
  {
    hide GroupDigits, Bits, Number;
    var n := GroupChars(|chunk|);
    var group := chunk + Zeros(5 - |chunk|);
    var g := GroupDigits(Bits(group));
    GroupDigitsNumber(group);
    SameNumberConcat(a, d, group, g);
    forall i | n <= i < 8
      ensures g[i] == 0
    {
      PaddedDigitsZero(chunk, i);
    }
    assert g == g[..n] + Zeros(8 - n);
    assert (a + chunk) + Zeros(5 - |chunk|) == a + group;
    assert (d + g[..n]) + Zeros(8 - n) == d + g;
  }

  lemma LowerTextConcat(d: seq<nat>, e: seq<nat>)
    requires Below(d, 32) && Below(e, 32) && Below(d + e, 32)
    ensures LowerText(d + e) == LowerText(d) + LowerText(e)
  {}

  lemma PrintMore(a: seq<nat>, text: string, chunk: seq<nat>, out: string)
    requires |a| % 5 == 0 && PrintsAs(a, text)
    requires 1 <= |chunk| <= 5 && Below(chunk, 256) && GroupText(chunk, out)
    ensures PrintsAs(a + chunk, text + out)
  {
    hide GroupDigits, SameNumber, Bits, LowerText, GroupChars, Equals;
    var n := GroupChars(|chunk|);
    var d :| PrintedDigits(a, text, d);
    WholeGroups(a, text, d);
    var g := GroupDigits(Bits(chunk + Zeros(5 - |chunk|)));
    MoreDigits(a, d, chunk);
    LowerTextConcat(d, g[..n]);
    Lengths(|a|, |chunk|);
    assert |a + chunk| == |a| + |chunk|;
    assert text + out == LowerText(d + g[..n]) + Equals(8 - n);
    assert PrintedDigits(a + chunk, text + out, d + g[..n]);
  }

  lemma Lengths(a: nat, len: nat)
    requires a % 5 == 0 && 1 <= len <= 5
    ensures Missing(a + len) == 5 - len && Padding(a + len) == 8 - GroupChars(len)
  {
    assert (a + len) % 5 == len % 5;
  }

  method Base32Lower(data: Bytes) returns (out: string)
    ensures PrintsAs(data, out)
  {
    hide PrintsAs, GroupText;
    out := "";
    PrintNothing();
    var at := 0;
    while at < |data|
      invariant at <= |data| && (at < |data| ==> at % 5 == 0)
      invariant PrintsAs(data[..at], out)
    {
      var len := if |data| - at < 5 then |data| - at else 5;
      var chunk := data[at..at + len];
      var group := EncodeGroup(chunk);
      PrintMore(data[..at], out, chunk, group);
      assert data[..at] + chunk == data[..at + len];
      out := out + group;
      at := at + len;
    }
    assert data[..at] == data;
  }

  lemma PrintNothing()
    ensures PrintsAs([], "")
  {
    SameNumberNone();
    WholeGroups([], "", []);
    assert PrintedDigits([], "", []);
  }

  // ------------------------------------------------------------------
  // Decoding.

  lemma GroupBytesNumber(d: seq<nat>)
    requires |d| == 8 && Below(d, 32)
    ensures SameNumber(Reverse(LowDigits(Number(d, 32), 256, 5)), d)
  {
    ValueBound(Reverse(d), 32);
    GroupPowers();
    LowDigitsValue(Number(d, 32), 256, 5);
    ReverseTwice(LowDigits(Number(d, 32), 256, 5));
  }

  lemma NumberSnoc(d: seq<nat>, v: nat, base: nat)
    ensures Number(d + [v], base) == Number(d, base) * base + v
  {
    NumberConcat(d, [v], base);
    assert Reverse([v]) == [v];
    assert [v][1..] == [];
    assert base * Value([], base) == 0;
    assert Pow(base, 1) == base * Pow(base, 0) == base;
  }

  /** One group of eight characters: its five bytes, unless a character is outside the alphabet. */
  method DecodeGroup(chunk: string) returns (r: Option<Bytes>)
    requires |chunk| == 8
    ensures r.Some? <==> InAlphabet(chunk)
    ensures r.Some? ==> SameNumber(r.value, ValuesOf(chunk))
  {
    hide Drop, Number;
    var bits := 0;
    assert Number([], 32) == 0 by { NumberNone(32); }
    for i := 0 to 8
      invariant InAlphabet(chunk[..i]) && bits == Number(ValuesOf(chunk[..i]), 32)
    {
      var value := UpperValue(chunk[i]);
      if value < 0 {
        return None;
      }
      assert chunk[..i + 1] == chunk[..i] + [chunk[i]];
      assert ValuesOf(chunk[..i + 1]) == ValuesOf(chunk[..i]) + [value];
      NumberSnoc(ValuesOf(chunk[..i]), value, 32);
      bits := bits * 32 + value;
    }
    assert chunk[..8] == chunk;
    GroupBytesNumber(ValuesOf(chunk));
    ghost var group := Reverse(LowDigits(bits, 256, 5));
    var out: seq<nat> := [];
    for i := 0 to 5
      invariant |out| == i && out == group[..i]
    {
      assert group[i] == LowDigits(bits, 256, 5)[4 - i] == Drop(bits, 256, 4 - i) % 256;
      out := out + [Drop(bits, 256, 4 - i) % 256];
    }
    assert out == group;
    r := Some(out);
  }

  lemma NumberNone(base: nat)
    ensures Number([], base) == 0
  {}

  method Base32StdDecode(input: string) returns (r: Option<Bytes>)
    ensures r.Some? <==> |input| % 8 == 0 && InAlphabet(input)
    ensures r.Some? ==> SameNumber(r.value, ValuesOf(input))
  {
    hide SameNumber, UpperValue;
    if |input| % 8 != 0 {
      return None;
    }
    var out: Bytes := [];
    SameNumberNone();
    var at := 0;
    while at < |input|
      invariant at <= |input| && at % 8 == 0 && InAlphabet(input[..at])
      invariant SameNumber(out, ValuesOf(input[..at]))
    {
      var chunk := input[at..at + 8];
      var group := DecodeGroup(chunk);
      assert input[..at + 8] == input[..at] + chunk;
      if group.None? {
        assert !InAlphabet(chunk);
        return None;
      }
      assert ValuesOf(input[..at + 8]) == ValuesOf(input[..at]) + ValuesOf(chunk);
      assert |group.value| == 5 by { FiveBytes(group.value, ValuesOf(chunk)); }
      SameNumberConcat(out, ValuesOf(input[..at]), group.value, ValuesOf(chunk));
      out := out + group.value;
      at := at + 8;
    }
    assert input[..at] == input;
    r := Some(out);
  }

  lemma FiveBytes(b: seq<nat>, d: seq<nat>)
    requires SameNumber(b, d) && |d| == 8
    ensures |b| == 5
  {}

  lemma SameNumberNone()
    ensures SameNumber([], [])
  {
    NumberNone(256);
    NumberNone(32);
  }

  lemma WholeLength(bytes: seq<nat>, d: seq<nat>)
    requires SameNumber(bytes, d)
    ensures 8 * |bytes| == 5 * |d|
  {}

  /** Whole groups decode to what was encoded. */
  lemma PrintThenRead(data: seq<nat>, text: string, back: seq<nat>)
    requires PrintsAs(data, text) && |data| % 5 == 0
    requires InAlphabet(UpperText(text)) ==> SameNumber(back, ValuesOf(UpperText(text)))
    ensures InAlphabet(UpperText(text)) && |text| % 8 == 0 && back == data
  {
    hide SameNumber, InAlphabet, ValuesOf, LowerText, UpperText;
    var d :| PrintedDigits(data, text, d);
    WholeGroups(data, text, d);
    WholeLength(data, d);
    LowerTextValues(d);
    SameNumberUnique(data, d, back, d);
  }

  /** And a text that decodes is, up to case, what its bytes print as. */
  lemma ReadThenPrint(text: string, bytes: seq<nat>, printed: string)
    requires InAlphabet(UpperText(text)) && SameNumber(bytes, ValuesOf(UpperText(text)))
    requires |bytes| % 5 == 0 && PrintsAs(bytes, printed)
    ensures UpperText(printed) == UpperText(text)
  {
    hide SameNumber, InAlphabet, ValuesOf, LowerText, UpperText;
    var d :| PrintedDigits(bytes, printed, d);
    WholeGroups(bytes, printed, d);
    SameNumberUnique(bytes, d, bytes, ValuesOf(UpperText(text)));
    ValuesLowerText(text);
  }
}
