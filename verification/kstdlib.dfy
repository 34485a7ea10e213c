/** itoa: a printer of numbers, against a parser. */
module KStdlib {
  import opened Words
  import opened Arithmetic
  import opened KString

  const U32 := MEMORY_LIMIT
  const ZERO: Byte := 48        // '0'
  const UPPER_A: Byte := 65     // 'A'

  // ---------------------------------------------------------------------------
  // Digits and their value
  // ---------------------------------------------------------------------------

  /** The digits of v, most significant first; none for zero. */
  function Digits(v: nat, b: nat): (ds: seq<nat>)
    requires b >= 2
    ensures forall k :: 0 <= k < |ds| ==> ds[k] < b
    ensures v > 0 ==> |ds| > 0 && ds[0] > 0
    ensures v == 0 ==> ds == []
  {
    if v == 0 then [] else DivSmaller(v, b); Digits(v / b, b) + [v % b]
  }

  lemma DivSmaller(v: nat, b: nat)
    requires v > 0 && b >= 2
    ensures v / b < v
  {
  }

  function CharOf(d: nat): Byte
    requires d < 36
  {
    if d < 10 then ZERO + d else UPPER_A + d - 10
  }

  function DigitOf(c: Byte): nat {
    if ZERO <= c < ZERO + 10 then c - ZERO
    else if UPPER_A <= c < UPPER_A + 26 then c - UPPER_A + 10
    else 0
  }

  function Chars(ds: seq<nat>): (t: seq<Byte>)
    requires forall k :: 0 <= k < |ds| ==> ds[k] < 36
    ensures |t| == |ds| && forall k :: 0 <= k < |ds| ==> t[k] == CharOf(ds[k])
  {
    seq(|ds|, k requires 0 <= k < |ds| => CharOf(ds[k]))
  }

  /** The value of a numeral in base b. */
  function Parse(t: seq<Byte>, b: nat): nat {
    if t == [] then 0 else Parse(t[..|t| - 1], b) * b + DigitOf(t[|t| - 1])
  }

  function Pow(b: nat, n: nat): nat {
    if n == 0 then 1 else b * Pow(b, n - 1)
  }

  /** What itoa prints: the digits of the upper half and then those of the lower half, without padding. */
  function Text(value: nat, b: nat): seq<Byte>
    requires 2 <= b <= 36
  {
    if value == 0 then [ZERO]
    else Chars(Digits(value / U32, b)) + Chars(Digits(value % U32, b))
  }

  lemma {:induction false} ParseDigits(v: nat, b: nat)
    requires 2 <= b <= 36
    ensures Parse(Chars(Digits(v, b)), b) == v
  {
    if v > 0 {
      var t, w := Chars(Digits(v, b)), Chars(Digits(v / b, b));
      DivSmaller(v, b);
      assert t == w + [CharOf(v % b)];
      assert t[..|t| - 1] == w && t[|t| - 1] == CharOf(v % b);
      ParseDigits(v / b, b);
      CharDigit(v % b);
      DivMod(v, b);
    }
  }

  /** The digits 0 to 9 are the bytes 48 to 57, and 10 to 35 the bytes 65 to 90. */
  lemma CharsAre(d: nat)
    requires d < 36
    ensures CharOf(d) == if d < 10 then 48 + d else 55 + d
  {
  }

  /** Zero prints as the byte 48; every value prints as digits of its base only. */
  lemma TextDigits(value: nat, b: nat, k: nat) returns (d: nat)
    requires 2 <= b <= 36 && k < |Text(value, b)|
    ensures value == 0 ==> Text(value, b) == [48]
    ensures d < b && Text(value, b)[k] == CharOf(d)
  {
    if value == 0 {
      d := 0;
    } else {
      var up, low := Digits(value / U32, b), Digits(value % U32, b);
      hide Digits, CharOf;
      d := if k < |up| then up[k] else low[k - |up|];
    }
  }

  lemma CharDigit(d: nat)
    requires d < 36
    ensures DigitOf(CharOf(d)) == d
  {
  }

  lemma DivMod(v: nat, b: nat)
    requires b > 0
    ensures v / b * b + v % b == v && v % b < b
  {
  }

  lemma {:induction false} ParseConcat(s: seq<Byte>, t: seq<Byte>, b: nat)
    ensures Parse(s + t, b) == Parse(s, b) * Pow(b, |t|) + Parse(t, b)
  {
    if t == [] {
      assert s + t == s;
    } else {
      var n := |t| - 1;
      assert (s + t)[..|s + t| - 1] == s + t[..n];
      ParseConcat(s, t[..n], b);
      MulRearrange(Parse(s, b), Pow(b, n), Parse(t[..n], b), b);
    }
  }

  lemma MulRearrange(x: nat, p: nat, y: nat, b: nat)
    ensures (x * p + y) * b == x * (b * p) + y * b
  {
  }

  /** Parsing what itoa prints. */
  lemma ParseText(value: nat, b: nat)
    requires 2 <= b <= 36
    ensures Parse(Text(value, b), b) == value / U32 * Pow(b, |Digits(value % U32, b)|) + value % U32
  {
    ParseDigits(value / U32, b);
    ParseDigits(value % U32, b);
    if value == 0 {
      assert [ZERO][..0] == [];
    } else {
      ParseConcat(Chars(Digits(value / U32, b)), Chars(Digits(value % U32, b)), b);
    }
  }

  /** itoa is inverted by the parser for every value below 2^32, and prints no leading zero. */
  lemma RoundTrip32(value: nat, b: nat)
    requires 2 <= b <= 36 && value < U32
    ensures Parse(Text(value, b), b) == value
    ensures value > 0 ==> Text(value, b)[0] != ZERO
  {
    hide Pow, Parse;
    ParseText(value, b);
    assert value / U32 == 0 && value % U32 == value;
    if value > 0 {
      var ds := Digits(value, b);
      assert Chars(Digits(0, b)) == [];
      assert Text(value, b) == Chars(ds);
    }
  }

  /** For wider values the missing padding shows: it is right only if the lower half fills all its digits. */
  lemma RoundTrip64(value: nat, b: nat)
    requires 2 <= b <= 36
    ensures Parse(Text(value, b), b) == value <==> value < U32 || Pow(b, |Digits(value % U32, b)|) == U32
  {
    ParseText(value, b);
    var u, p := value / U32, Pow(b, |Digits(value % U32, b)|);
    assert value == u * U32 + value % U32;
    SameProduct(u, p, U32);
  }

  lemma SameProduct(u: nat, p: nat, q: nat)
    ensures u * p == u * q <==> u == 0 || p == q
  {
    if u != 0 && p != q {
      if p < q {
        assert u * (q - p) > 0;
      } else {
        assert u * (p - q) > 0;
      }
      assert u * p - u * q == u * (p - q);
    }
  }

  // ---------------------------------------------------------------------------
  // How many digits
  // ---------------------------------------------------------------------------

  lemma {:induction false} DigitsAtMost(v: nat, b: nat, n: nat)
    requires b >= 2
    ensures |Digits(v, b)| <= n <==> v < Pow(b, n)
  {
    if n == 0 {
    } else if v == 0 {
      PowPositive(b, n);
    } else {
      DigitsAtMost(v / b, b, n - 1);
      DivBound(v, b, Pow(b, n - 1));
    }
  }

  lemma {:induction false} PowPositive(b: nat, n: nat)
    requires b >= 1
    ensures Pow(b, n) > 0
  {
    if n > 0 {
      PowPositive(b, n - 1);
    }
  }

  lemma DivBound(v: nat, b: nat, p: nat)
    requires b >= 1
    ensures v / b < p <==> v < b * p
  {
    var q := v / b;
    assert b * q <= v < b * q + b;
    if q < p {
      assert b * (q + 1) <= b * p;
    } else {
      assert b * p <= b * q;
    }
  }

  lemma {:induction false} PowMonotone(b: nat, m: nat, n: nat)
    requires b >= 1 && m <= n
    ensures Pow(b, m) <= Pow(b, n)
  {
    if m < n {
      PowMonotone(b, m, n - 1);
      PowPositive(b, n - 1);
      assert Pow(b, n - 1) <= b * Pow(b, n - 1);
    }
  }

  /** The bases whose powers include 2^32, and the exponent. */
  function FullDigits(b: nat): nat {
    if b == 2 then 32 else if b == 4 then 16 else if b == 16 then 8 else 0
  }

  /** A power of b that is 2^32 makes b a divisor of it. */
  lemma PowDivides(b: nat, n: nat)
    requires 2 <= b <= 36 && Pow(b, n) == U32
    ensures b == 2 || b == 4 || b == 8 || b == 16 || b == 32
  {
    assert n > 0;
    ModUnique(U32, b, Pow(b, n - 1), 0);
    Divisors(b);
  }

  lemma Divisors(b: nat)
    requires 2 <= b <= 36 && U32 % b == 0
    ensures b == 2 || b == 4 || b == 8 || b == 16 || b == 32
  {
  }

  /** The powers of 8 and of 32 step over 2^32. */
  lemma StepsOver(b: nat, n: nat)
    requires b == 8 || b == 32
    ensures Pow(b, n) != U32
  {
    var k := if b == 8 then 10 else 6;
    BigPowers();
    if n <= k {
      PowMonotone(b, n, k);
    } else {
      PowMonotone(b, k + 1, n);
    }
  }

  lemma BigPowers()
    ensures Pow(8, 10) == 0x4000_0000 && Pow(8, 11) == 0x2_0000_0000
    ensures Pow(32, 6) == 0x4000_0000 && Pow(32, 7) == 0x8_0000_0000
  {
    PowSquare(8, 5);
    PowSquare(32, 3);
    assert Pow(8, 2) == 64 && Pow(8, 3) == 512 && Pow(8, 5) == 0x8000;
    assert Pow(32, 3) == 0x8000;
  }

  lemma FullPowers(b: nat)
    requires b == 2 || b == 4 || b == 16
    ensures Pow(b, FullDigits(b)) == U32 && Pow(b, FullDigits(b) - 1) == U32 / b
  {
    TwoPowers();
    FourPowers();
    PowSquare(16, 4);
    assert Pow(16, 4) == 0x1_0000;
    assert b * Pow(b, FullDigits(b) - 1) == U32;
  }

  /** The lower half fills 2^32 exactly when its first digit is the last that fits. */
  lemma FullHalf(lower: nat, b: nat)
    requires (b == 2 || b == 4 || b == 16) && lower < U32
    ensures Pow(b, |Digits(lower, b)|) == U32 <==> lower >= U32 / b
  {
    hide Digits;
    var m, n := FullDigits(b), |Digits(lower, b)|;
    FullPowers(b);
    DigitsAtMost(lower, b, m - 1);
    DigitsAtMost(lower, b, m);
    if n < m {
      PowMonotone(b, n, m - 1);
    }
  }

  /**
   * Printing is right for every value below 2^32.  Beyond, it is right in bases 2, 4 and 16 exactly when
   * the lower half needs no padding, and in every other base never.
   */
  lemma RoundTrip(value: nat, b: nat)
    requires 2 <= b <= 36
    ensures Parse(Text(value, b), b) == value <==>
            value < U32 || ((b == 2 || b == 4 || b == 16) && value % U32 >= U32 / b)
  {
    hide Digits, Pow, Parse, Text;
    RoundTrip64(value, b);
    var lower := value % U32;
    if b == 2 || b == 4 || b == 16 {
      FullHalf(lower, b);
    } else if Pow(b, |Digits(lower, b)|) == U32 {
      PowDivides(b, |Digits(lower, b)|);
      StepsOver(b, |Digits(lower, b)|);
    }
  }

  /** In base 16: exactly when the upper half is zero or the lower one has all eight digits. */
  lemma RoundTripHex(value: nat)
    ensures Parse(Text(value, 16), 16) == value <==> value / U32 == 0 || value % U32 >= 0x1000_0000
  {
    RoundTrip(value, 16);
  }

  /** In base 10: for the values below 2^32 and for no other. */
  lemma RoundTripDecimal(value: nat)
    ensures Parse(Text(value, 10), 10) == value <==> value < U32
  {
    RoundTrip(value, 10);
  }

  /** 4294967296 prints as "1" in base 10. */
  lemma DecimalCounterexample()
    ensures Text(U32, 10) == [ZERO + 1] && Parse(Text(U32, 10), 10) == 1
  {
    assert Digits(1, 10) == [1];
    ParseText(U32, 10);
    assert Chars(Digits(0, 10)) == [];
    assert Chars(Digits(1, 10)) == [ZERO + 1];
  }

  // ---------------------------------------------------------------------------
  // itoa
  // ---------------------------------------------------------------------------

  /** The digits fit the buffer: always below 2^32, and for every 64-bit value from base 4 on. */
  lemma DigitsFit(value: nat, b: nat)
    requires 2 <= b <= 36 && value < U32 * U32 && (value < U32 || b >= 4)
    ensures |Digits(value / U32, b)| + |Digits(value % U32, b)| <= 32
  {
    hide Digits;
    if value < U32 {
      TwoPowers();
      PowBase(2, b, 32);
      DigitsAtMost(value, b, 32);
      DigitsAtMost(0, b, 0);
    } else {
      FourPowers();
      PowBase(4, b, 16);
      DigitsAtMost(value / U32, b, 16);
      DigitsAtMost(value % U32, b, 16);
    }
  }

  lemma TwoPowers()
    ensures Pow(2, 32) == U32
  {
    PowSquare(2, 16);
    PowSquare(2, 8);
    assert Pow(2, 8) == 256;
  }

  lemma FourPowers()
    ensures Pow(4, 16) == U32
  {
    PowSquare(4, 8);
    PowSquare(4, 4);
    assert Pow(4, 4) == 256;
  }

  lemma PowSquare(b: nat, n: nat)
    ensures Pow(b, 2 * n) == Pow(b, n) * Pow(b, n)
  {
    PowSum(b, n, n);
  }

  lemma {:induction false} PowSum(b: nat, m: nat, n: nat)
    ensures Pow(b, m + n) == Pow(b, m) * Pow(b, n)
  {
    if m > 0 {
      PowSum(b, m - 1, n);
      MulAssoc(b, Pow(b, m - 1), Pow(b, n));
    }
  }

  lemma MulAssoc(x: nat, y: nat, z: nat)
    ensures x * (y * z) == (x * y) * z
  {
  }

  lemma {:induction false} PowBase(a: nat, b: nat, n: nat)
    requires a <= b
    ensures Pow(a, n) <= Pow(b, n)
  {
    if n > 0 {
      PowBase(a, b, n - 1);
      MulMonotone(a, b, Pow(a, n - 1), Pow(b, n - 1));
    }
  }

  lemma MulMonotone(a: nat, b: nat, x: nat, y: nat)
    requires a <= b && x <= y
    ensures a * x <= b * y
  {
    assert a * x <= b * x <= b * y;
  }

  // The two operators of the digit loop, named so that its proof need not look into them.
  function Quotient(v: nat, b: nat): nat
    requires b > 0
  {
    v / b
  }

  function Remainder(v: nat, b: nat): nat
    requires b > 0
  {
    v % b
  }

  /** The digit loop: it fills the buffer backwards, least significant digit first. */
  method FillDigits(s: array<Byte>, start: nat, value: nat, base: nat) returns (i: nat)
    requires 2 <= base <= 36 && s.Length == 33 && start + |Digits(value, base)| <= 32
    modifies s
    ensures i == start + |Digits(value, base)|
    ensures s[32 - i..32] == Chars(Digits(value, base)) + old(s[32 - start..32])
    ensures s[32] == old(s[32])
  {
    hide Digits, Chars, CharOf, Quotient, Remainder;
    i := start;
    var val: nat := value;
    ghost var tail := s[32 - start..32];
    NoDigits(base);
    ghost var goal := Chars(Digits(value, base)) + tail;
    while val > 0
      invariant start <= i <= 32 && i + |Digits(val, base)| == start + |Digits(value, base)|
      invariant Chars(Digits(val, base)) + s[32 - i..32] == goal
      invariant s[32] == old(s[32])
      decreases val
    {
      DigitStep(val, base);
      ghost var done := s[32 - i..32];
      var digit := Remainder(val, base);
      val := Quotient(val, base);
      s[31 - i] := CharOf(digit);
      i := i + 1;
      Prepended(Chars(Digits(val, base)), CharOf(digit), done, s[32 - i..32]);
    }
  }

  lemma Prepended(a: seq<Byte>, x: Byte, done: seq<Byte>, now: seq<Byte>)
    requires |now| == |done| + 1 && now[0] == x && now[1..] == done
    ensures a + now == (a + [x]) + done
  {
  }

  lemma NoDigits(b: nat)
    requires b >= 2
    ensures Digits(0, b) == [] && Chars([]) == []
  {
  }

  lemma DigitStep(v: nat, b: nat)
    requires v > 0 && 2 <= b <= 36
    ensures Quotient(v, b) < v && Remainder(v, b) < b && |Digits(v, b)| == |Digits(Quotient(v, b), b)| + 1
    ensures Chars(Digits(v, b)) == Chars(Digits(Quotient(v, b), b)) + [CharOf(Remainder(v, b))]
  {
    DivSmaller(v, b);
    DivMod(v, b);
  }

  /** The C string in s is t. */
  ghost predicate IsCString(s: seq<Byte>, t: seq<Byte>) {
    |t| < |s| && s[..|t|] == t && s[|t|] == 0 && 0 !in t
  }

  method Itoa(value: nat, base: nat) returns (s: array<Byte>)
    requires value < U32 * U32 && 2 <= base <= 36
    requires |Digits(value / U32, base)| + |Digits(value % U32, base)| <= 32
    ensures fresh(s) && IsCString(s[..], Text(value, base))
  {
    hide Digits, Chars;
    if value == 0 {
      s := new Byte[2];
      s[0] := ZERO;
      s[1] := 0;
      return;
    }
    s := new Byte[33];
    for k := 0 to 33
      invariant forall j :: 0 <= j < k ==> s[j] == 0
    {
      s[k] := 0;
    }
    s[32] := 0;
    var lower := value % U32;
    var upper := value / U32;
    var i := FillDigits(s, 0, lower, base);
    i := FillDigits(s, i, upper, base);
    ghost var t := Text(value, base);
    assert s[32 - i..32] == t;
    TextHasNoNul(value, base);
    ToFront(s, i, t);
    s[i] := 0;
    assert s[..][..i] == s[..i] == t;
  }

  /** The final shift: the regions overlap when there are more than 16 digits, and memcpy copies them right all the same. */
  method ToFront(s: array<Byte>, i: nat, ghost t: seq<Byte>)
    requires s.Length == 33 && i <= 32 && s[32 - i..32] == t
    modifies s
    ensures s[..i] == t
  {
    ForwardCopyExact(0, 32 - i, i);
    ghost var s0 := s[..];
    Memcpy(s, 0, 32 - i, i);
    forall k: nat | k < i
      ensures s[..i][k] == t[k]
    {
      assert s[0 + k] == s0[ForwardSource(0, 32 - i, k)];
      assert t[k] == s0[32 - i..32][k];
    }
  }

  lemma TextHasNoNul(value: nat, b: nat)
    requires 2 <= b <= 36
    ensures 0 !in Text(value, b)
  {
    CharsNotNul(Digits(value / U32, b));
    CharsNotNul(Digits(value % U32, b));
  }

  lemma CharsNotNul(ds: seq<nat>)
    requires forall k :: 0 <= k < |ds| ==> ds[k] < 36
    ensures 0 !in Chars(ds)
  {
  }
}
