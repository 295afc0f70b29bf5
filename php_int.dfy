/**
 * The two PHP casts the continuation check relies on, for 64-bit PHP:
 * `(int)$s` (string to integer) and `(string)$n` (integer to decimal string).
 */
module PhpInt {
  import opened Bytes

  const INT_MIN: int := -0x8000_0000_0000_0000
  const INT_MAX: int := 0x7FFF_FFFF_FFFF_FFFF

  predicate InRange(n: int) { INT_MIN <= n <= INT_MAX }

  const ZERO: byte := 48   // '0'
  const MINUS: byte := 45  // '-'
  const PLUS: byte := 43   // '+'

  predicate IsDigit(b: byte) { ZERO <= b <= ZERO + 9 }

  /** The whitespace PHP skips in front of a numeric string: space, \t, \n, \r, \v, \f. */
  predicate IsSpace(b: byte) { b == 32 || 9 <= b <= 13 }

  /** Decimal digits of a natural number, most significant first, without leading zeros. */
  function Digits(n: nat): (r: Bytes)
    ensures |r| >= 1
    ensures forall k :: 0 <= k < |r| ==> IsDigit(r[k])
    ensures n >= 10 ==> r[0] != ZERO
  {
    if n < 10 then [ZERO + n as byte] else Digits(n / 10) + [ZERO + (n % 10) as byte]
  }

  /** PHP `(string)$n`. */
  function IntToString(n: int): (r: Bytes)
    ensures |r| >= 1
  {
    if n < 0 then [MINUS] + Digits(-n) else Digits(n)
  }

  /** The value of a run of decimal digits. */
  function DigitValue(ds: Bytes): nat
    requires forall k :: 0 <= k < |ds| ==> IsDigit(ds[k])
  {
    if ds == [] then 0
    else
      var last := ds[|ds| - 1];
      assert IsDigit(last);
      10 * DigitValue(ds[..|ds| - 1]) + (last as int - ZERO as int)
  }

  /** The longest prefix of decimal digits. */
  function LeadingDigits(s: Bytes): (r: Bytes)
    ensures |r| <= |s| && r == s[..|r|]
    ensures forall k :: 0 <= k < |r| ==> IsDigit(r[k])
  {
    if s != [] && IsDigit(s[0]) then [s[0]] + LeadingDigits(s[1..]) else []
  }

  function SkipSpace(s: Bytes): Bytes
  {
    if s != [] && IsSpace(s[0]) then SkipSpace(s[1..]) else s
  }

  function Clamp(n: int): (r: int)
    ensures InRange(r)
    ensures InRange(n) ==> r == n
  {
    if n < INT_MIN then INT_MIN else if n > INT_MAX then INT_MAX else n
  }

  /** `t` without its sign byte, if it starts with one. */
  function Unsigned(t: Bytes): (r: Bytes)
    ensures |r| <= |t|
  {
    if t != [] && (t[0] == MINUS || t[0] == PLUS) then t[1..] else t
  }

  /**
   * The integer spelled by leading whitespace, an optional sign and the leading
   * digits of `s`, without any bound; no digits read as 0.
   */
  function LeadingInteger(s: Bytes): int
  {
    var t := SkipSpace(s);
    var v := DigitValue(LeadingDigits(Unsigned(t)));
    if t != [] && t[0] == MINUS then 0 - v else v
  }

  /**
   * PHP `(int)$s`: leading whitespace, an optional sign and the leading digits; anything
   * else ends the number, no digits give 0 and out-of-range values saturate.
   */
  function StringToInt(s: Bytes): (n: int)
    ensures InRange(n)
    ensures InRange(LeadingInteger(s)) ==> n == LeadingInteger(s)
  {
    Clamp(LeadingInteger(s))
  }

  /** `$s === (string)(int)$s`: the test the API modules apply to each cursor part. */
  predicate IsCanonicalInt(s: Bytes)
  {
    s == IntToString(StringToInt(s))
  }

  lemma {:induction false} DigitValueOfDigits(n: nat)
    ensures DigitValue(Digits(n)) == n
  {
    if n >= 10 {
      var ds := Digits(n);
      assert ds[..|ds| - 1] == Digits(n / 10);
      DigitValueOfDigits(n / 10);
    }
  }

  lemma {:induction false} LeadingDigitsOfDigits(ds: Bytes)
    requires forall k :: 0 <= k < |ds| ==> IsDigit(ds[k])
    ensures LeadingDigits(ds) == ds
  {
    if ds != [] {
      LeadingDigitsOfDigits(ds[1..]);
    }
  }

  /** Reading back the decimal string of a 64-bit integer gives the integer. */
  lemma StringToIntOfIntToString(n: int)
    requires InRange(n)
    ensures StringToInt(IntToString(n)) == n
  {
    var m: nat := if n < 0 then -n else n;
    var ds := Digits(m);
    ReadDigits(m);
    assert IsDigit(ds[0]);
    if n < 0 {
      var s := IntToString(n);
      assert s[0] == MINUS && s[1..] == ds;
      assert SkipSpace(s) == s;
    } else {
      assert SkipSpace(ds) == ds;
    }
  }

  /** The leading digits of a decimal string are all of it, and their value is the number. */
  lemma ReadDigits(m: nat)
    ensures DigitValue(LeadingDigits(Digits(m))) == m
  {
    DigitValueOfDigits(m);
    LeadingDigitsOfDigits(Digits(m));
  }

  /**
   * The cursor check accepts exactly the decimal strings of 64-bit integers: no leading
   * zeros, no `+`, no `-0`, no whitespace, nothing after the digits and nothing out of range.
   */
  lemma CanonicalIntIff(s: Bytes)
    ensures IsCanonicalInt(s) <==> exists n :: InRange(n) && s == IntToString(n)
  {
    if exists n :: InRange(n) && s == IntToString(n) {
      var n :| InRange(n) && s == IntToString(n);
      StringToIntOfIntToString(n);
    }
  }

  /** A canonical string denotes the integer it is read as. */
  lemma CanonicalIntValue(s: Bytes, n: int)
    requires InRange(n)
    ensures IsCanonicalInt(s) && StringToInt(s) == n <==> s == IntToString(n)
  {
    if s == IntToString(n) {
      StringToIntOfIntToString(n);
    }
  }

  /**
   * A numeric string of integer form as PHP 8 defines it: optional leading whitespace,
   * an optional sign, at least one decimal digit, then nothing but whitespace.
   */
  predicate IsIntegerString(s: Bytes)
  {
    var u := Unsigned(SkipSpace(s));
    var ds := LeadingDigits(u);
    ds != [] && SkipSpace(u[|ds|..]) == []
  }

  /** An integer string whose value fits in 64 bits, which PHP compares as an integer. */
  predicate IsInt64String(s: Bytes)
  {
    IsIntegerString(s) && InRange(LeadingInteger(s))
  }

  /**
   * PHP 8 `$x == $y` on two strings: two numeric strings compare by value, any other
   * pair byte by byte. The numeric strings modelled are the 64-bit integer strings.
   */
  predicate LooseEq(x: Bytes, y: Bytes)
  {
    if IsInt64String(x) && IsInt64String(y) then LeadingInteger(x) == LeadingInteger(y) else x == y
  }

  /** Loose equality of strings is an equivalence: reflexive, symmetric and transitive. */
  lemma LooseEqEquivalence(x: Bytes, y: Bytes, z: Bytes)
    ensures LooseEq(x, x)
    ensures LooseEq(x, y) ==> LooseEq(y, x)
    ensures LooseEq(x, y) && LooseEq(y, z) ==> LooseEq(x, z)
  {
  }

  /** Byte-equal strings are loosely equal, and a string that is not numeric is loosely equal only to itself. */
  lemma LooseEqOfNonNumeric(x: Bytes, y: Bytes)
    ensures x == y ==> LooseEq(x, y)
    ensures !IsInt64String(x) ==> (LooseEq(x, y) <==> x == y)
  {
  }

  /** Two 64-bit integer strings are loosely equal exactly when their `(int)` casts agree. */
  lemma LooseEqOfIntegers(x: Bytes, y: Bytes)
    requires IsInt64String(x) && IsInt64String(y)
    ensures LooseEq(x, y) <==> StringToInt(x) == StringToInt(y)
  {
  }

  /** The decimal string of a 64-bit integer is an integer string with that value. */
  lemma IntToStringIsInt64String(n: int)
    requires InRange(n)
    ensures IsInt64String(IntToString(n)) && LeadingInteger(IntToString(n)) == n
  {
    var m: nat := if n < 0 then -n else n;
    var ds := Digits(m);
    DigitValueOfDigits(m);
    DigitRunIsIntegerString(ds);
    if n < 0 {
      SignedDigitRun(ds);
      assert SkipSpace(ds) == ds && Unsigned(ds) == ds;
    }
  }

  /** A non-empty run of digits is an integer string whose value is the run's value. */
  lemma DigitRunIsIntegerString(ds: Bytes)
    requires ds != [] && forall k :: 0 <= k < |ds| ==> IsDigit(ds[k])
    ensures IsIntegerString(ds) && LeadingInteger(ds) == DigitValue(ds)
  {
    LeadingDigitsOfDigits(ds);
    assert IsDigit(ds[0]);
    assert SkipSpace(ds) == ds && Unsigned(ds) == ds;
    assert ds[|ds|..] == [];
  }

  /** A minus sign in front of a run of digits is not whitespace, and Unsigned drops it. */
  lemma SignedDigitRun(ds: Bytes)
    requires ds != [] && IsDigit(ds[0])
    ensures SkipSpace([MINUS] + ds) == [MINUS] + ds
    ensures Unsigned([MINUS] + ds) == ds
  {
    var s := [MINUS] + ds;
    assert s[0] == MINUS && s[1..] == ds;
  }

  /**
   * A zero in front of the decimal string of a natural number leaves it loosely
   * equal: "01" == "1" holds in PHP.
   */
  lemma LooseEqZeroPadded(n: nat)
    requires n <= INT_MAX
    ensures LooseEq([ZERO] + IntToString(n), IntToString(n))
    ensures [ZERO] + IntToString(n) != IntToString(n)
  {
    var ds := Digits(n);
    var s := [ZERO] + ds;
    assert IntToString(n) == ds;
    IntToStringIsInt64String(n);
    assert forall k :: 0 <= k < |s| ==> IsDigit(s[k]) by {
      forall k | 0 <= k < |s| ensures IsDigit(s[k]) {
        if k > 0 {
          assert s[k] == ds[k - 1];
        }
      }
    }
    DigitRunIsIntegerString(s);
    ZeroPaddedValue(ds);
    DigitValueOfDigits(n);
    assert |s| != |ds|;
  }

  /** A leading zero does not change the value of a run of digits. */
  lemma {:induction false} ZeroPaddedValue(ds: Bytes)
    requires forall k :: 0 <= k < |ds| ==> IsDigit(ds[k])
    ensures DigitValue([ZERO] + ds) == DigitValue(ds)
  {
    if ds != [] {
      var s := [ZERO] + ds;
      assert s[..|s| - 1] == [ZERO] + ds[..|ds| - 1];
      ZeroPaddedValue(ds[..|ds| - 1]);
    } else {
      assert [ZERO][..0] == [];
    }
  }

  /** "007" is read as 7, whose string is "7": rejected. */
  lemma RejectsLeadingZeros()
    ensures !IsCanonicalInt(Ascii("007"))
  {
    var s := Ascii("007");
    assert s == [ZERO, ZERO, ZERO + 7];
    assert LeadingDigits(s) == s;
    assert DigitValue([ZERO]) == 0;
    assert DigitValue([ZERO, ZERO]) == 0 by { assert [ZERO, ZERO][..1] == [ZERO]; }
    assert DigitValue(s) == 7 by { assert s[..2] == [ZERO, ZERO]; }
    assert IntToString(7) == [ZERO + 7];
  }

  /** "x" is read as 0, whose string is "0": rejected. */
  lemma RejectsLetters()
    ensures !IsCanonicalInt(Ascii("x"))
  {
    var s := Ascii("x");
    assert s == [120];
    assert LeadingDigits(s) == [];
    assert IntToString(0) == [ZERO];
  }

  /** The empty string is read as 0: rejected. */
  lemma RejectsEmpty()
    ensures !IsCanonicalInt([])
  {
    assert IntToString(0) == [ZERO];
  }
}
