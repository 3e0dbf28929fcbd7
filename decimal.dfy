/** Decimal text: the parts of Go's `strconv` (Itoa, Atoi) and of the fixed-width
    numeric fields of `time` layouts that the core uses. */
module Decimal {
  import opened Results

  predicate IsDigit(c: char) { '0' <= c <= '9' }

  predicate AllDigits(s: string) { forall i | 0 <= i < |s| :: IsDigit(s[i]) }

  function DigitValue(c: char): (d: nat)
    requires IsDigit(c)
    ensures d < 10
  {
    c as int - '0' as int
  }

  function DigitChar(d: nat): (c: char)
    requires d < 10
    ensures IsDigit(c) && DigitValue(c) == d
  {
    ('0' as int + d) as char
  }

  function Pow10(k: nat): (p: nat)
    ensures p >= 1
  {
    if k == 0 then 1 else 10 * Pow10(k - 1)
  }

  /** The value of a string of decimal digits, most significant digit first. */
  function DigitsValue(s: string): (n: nat)
    requires AllDigits(s)
    ensures n < Pow10(|s|)
  {
    if s == [] then 0 else DigitsValue(s[..|s| - 1]) * 10 + DigitValue(s[|s| - 1])
  }

  /** `n` written with exactly `width` digits, padded on the left with zeros, as
      the fixed-width fields `2006`, `01`, `02`, `15`, `04`, `05` of a Go layout print it. */
  function Pad(n: nat, width: nat): (s: string)
    requires n < Pow10(width)
    ensures |s| == width && AllDigits(s)
  {
    if width == 0 then [] else Pad(n / 10, width - 1) + [DigitChar(n % 10)]
  }

  /** Reading back a padded field gives the number that was written. */
  lemma {:induction false} PadThenRead(n: nat, width: nat)
    requires n < Pow10(width)
    ensures DigitsValue(Pad(n, width)) == n
  {
    if width > 0 {
      var p := Pad(n / 10, width - 1);
      PadThenRead(n / 10, width - 1);
      assert (p + [DigitChar(n % 10)])[..width - 1] == p;
    }
  }

  /** Writing back the value of a digit string at its own width gives the string. */
  lemma {:induction false} ReadThenPad(s: string)
    requires AllDigits(s)
    ensures Pad(DigitsValue(s), |s|) == s
  {
    if s != [] {
      var p := s[..|s| - 1];
      ReadThenPad(p);
      var v := DigitsValue(s);
      assert v / 10 == DigitsValue(p) && v % 10 == DigitValue(s[|s| - 1]);
      assert DigitChar(DigitValue(s[|s| - 1])) == s[|s| - 1];
      assert s == p + [s[|s| - 1]];
    }
  }

  /** The canonical decimal form of a natural number (no leading zeros). */
  function NatToString(n: nat): (s: string)
    ensures |s| >= 1 && AllDigits(s)
    ensures |s| > 1 ==> s[0] != '0'
  {
    if n < 10 then [DigitChar(n)] else NatToString(n / 10) + [DigitChar(n % 10)]
  }

  lemma {:induction false} NatToStringValue(n: nat)
    ensures DigitsValue(NatToString(n)) == n
  {
    if n >= 10 {
      var p := NatToString(n / 10);
      NatToStringValue(n / 10);
      assert (p + [DigitChar(n % 10)])[..|p|] == p;
    }
  }

  /** `strconv.Itoa`: decimal text with a leading `-` for negative numbers. */
  function IntToString(n: int): string
  {
    if n < 0 then "-" + NatToString(-n) else NatToString(n)
  }

  /** Bounds of Go's 64-bit `int`. */
  const MinInt: int := -0x8000_0000_0000_0000
  const MaxInt: int := 0x7FFF_FFFF_FFFF_FFFF

  /** The largest `uint64`, where `strconv.ParseUint` stops reading digits. */
  const MaxUint: int := 0xFFFF_FFFF_FFFF_FFFF

  /** The text after one leading `+` or `-`, if there is one. */
  function Unsigned(s: string): (u: string)
    ensures |u| <= |s|
  {
    if |s| > 0 && (s[0] == '-' || s[0] == '+') then s[1..] else s
  }

  /** The texts `strconv.Atoi` reads as numbers: an optional sign, then one or
      more decimal digits. */
  predicate IsDecimal(s: string)
  {
    Unsigned(s) != [] && AllDigits(Unsigned(s))
  }

  /** The number a decimal text denotes. */
  function DecimalValue(s: string): int
    requires IsDecimal(s)
  {
    var magnitude: int := DigitsValue(Unsigned(s));
    if s[0] == '-' then -magnitude else magnitude
  }

  /** The length of the run of digits at the start of `s`. */
  function LeadingRun(s: string): (k: nat)
    ensures k <= |s| && AllDigits(s[..k])
    ensures k < |s| ==> !IsDigit(s[k])
  {
    if s == [] || !IsDigit(s[0]) then 0
    else
      var k := 1 + LeadingRun(s[1..]);
      assert forall i | 1 <= i < k :: s[..k][i] == s[1..][..k - 1][i - 1];
      k
  }

  /** The digits after the sign already exceed 64 unsigned bits before the
      first character that is not a digit. */
  predicate RunOverflows(s: string)
  {
    var u := Unsigned(s);
    DigitsValue(u[..LeadingRun(u)]) > MaxUint
  }

  /** The loop of `strconv.ParseUint` in base 10 over `digits` from position
      `i`, with `n` the value read so far. A character that is not a digit is
      a syntax error. A digit that takes the value past 64 unsigned bits is a
      range error at once, whatever follows (Go's `n >= cutoff` and `n1 > maxVal`
      tests together). Both errors name the whole text `s`, as `ParseInt`
      and `Atoi` report it. */
  function ScanUint(s: string, digits: string, i: nat, n: nat): Result<nat>
    requires i <= |digits|
    decreases |digits| - i
  {
    if i == |digits| then Ok(n)
    else if !IsDigit(digits[i]) then Err(SyntaxError(s))
    else if n * 10 + DigitValue(digits[i]) > MaxUint then Err(RangeError(s))
    else ScanUint(s, digits, i + 1, n * 10 + DigitValue(digits[i]))
  }

  /** `strconv.Atoi`: the sign, then `ParseUint`'s scan of the digits, then
      the 64-bit range check of `ParseInt`. Go's fast path for texts shorter
      than 19 characters gives the same results, as no such text overflows.
      A decimal text in range reads as its value. Every other text fails: with
      a range error when it is decimal, or when its leading digits overflow
      before a character that is not a digit; otherwise with a syntax error. */
  function Atoi(s: string): (r: Result<int>)
    ensures r.Ok? <==> IsDecimal(s) && MinInt <= DecimalValue(s) <= MaxInt
    ensures r.Ok? ==> r.value == DecimalValue(s)
    ensures r.Err? ==> r.error == if IsDecimal(s) || RunOverflows(s) then RangeError(s) else SyntaxError(s)
  {
    var digits := Unsigned(s);
    if digits == [] then Err(SyntaxError(s))
    else
      assert digits[..0] == [];
      ScanUintReads(s, digits, 0, 0);
      assert digits[..LeadingRun(digits)] == digits <== LeadingRun(digits) == |digits|;
      match ScanUint(s, digits, 0, 0)
      case Err(e) => Err(e)
      case Ok(un) =>
        var magnitude: int := un;
        var v := if s[0] == '-' then -magnitude else magnitude;
        if v < MinInt || MaxInt < v then Err(RangeError(s)) else Ok(v)
  }

  /** What the scan returns: a range error when the leading digits overflow,
      a syntax error when a character that is not a digit follows them, and
      otherwise the value of all the digits. */
  lemma {:induction false} ScanUintReads(s: string, digits: string, i: nat, n: nat)
    requires i <= |digits| && AllDigits(digits[..i])
    requires n == DigitsValue(digits[..i]) && n <= MaxUint
    ensures var k := LeadingRun(digits);
      ScanUint(s, digits, i, n)
      == if DigitsValue(digits[..k]) > MaxUint then Err(RangeError(s))
         else if k < |digits| then Err(SyntaxError(s))
         else Ok(DigitsValue(digits))
    decreases |digits| - i
  {
    var k := LeadingRun(digits);
    RunCoversDigits(digits, i);
    if i == |digits| {
      assert digits[..i] == digits;
    } else if IsDigit(digits[i]) {
      var m := n * 10 + DigitValue(digits[i]);
      DigitStep(digits, i);
      RunCoversDigits(digits, i + 1);
      if m > MaxUint {
        assert digits[..k][..i + 1] == digits[..i + 1];
        PrefixValueAtMost(digits[..k], i + 1);
      } else {
        ScanUintReads(s, digits, i + 1, m);
      }
    }
  }

  /** The run of leading digits reaches past any all-digit prefix. */
  lemma RunCoversDigits(digits: string, i: nat)
    requires i <= |digits| && AllDigits(digits[..i])
    ensures i <= LeadingRun(digits)
  {
    assert forall j | 0 <= j < i :: digits[..i][j] == digits[j];
  }

  /** One more digit: the prefix stays all digits and its value grows tenfold
      plus that digit. */
  lemma DigitStep(digits: string, i: nat)
    requires i < |digits| && AllDigits(digits[..i]) && IsDigit(digits[i])
    ensures AllDigits(digits[..i + 1])
    ensures DigitsValue(digits[..i + 1]) == DigitsValue(digits[..i]) * 10 + DigitValue(digits[i])
  {
    assert digits[..i + 1] == digits[..i] + [digits[i]];
    assert digits[..i + 1][..i] == digits[..i];
  }

  /** A prefix of a digit string is worth no more than the whole. */
  lemma {:induction false} PrefixValueAtMost(s: string, j: nat)
    requires AllDigits(s) && j <= |s|
    ensures DigitsValue(s[..j]) <= DigitsValue(s)
  {
    if j < |s| {
      var p := s[..|s| - 1];
      assert p[..j] == s[..j];
      PrefixValueAtMost(p, j);
    } else {
      assert s[..j] == s;
    }
  }

  /** Atoi reads back what Itoa writes, for every 64-bit value. */
  lemma AtoiAfterItoa(n: int)
    requires MinInt <= n <= MaxInt
    ensures Atoi(IntToString(n)) == Ok(n)
  {
    var digits := NatToString(if n < 0 then -n else n);
    NatToStringValue(if n < 0 then -n else n);
    assert IsDigit(digits[0]);
    if n < 0 {
      var s := "-" + digits;
      assert IntToString(n) == s;
      assert s[0] == '-' && s[1..] == digits;
      assert Atoi(s) == Ok(0 - DigitsValue(digits) as int);
    } else {
      assert IntToString(n) == digits;
      assert Atoi(digits) == Ok(DigitsValue(digits));
    }
  }

  /** The texts `strconv.Itoa` writes: no `+`, and no leading zero except in
      `0` itself. */
  predicate IsCanonical(s: string)
  {
    IsDecimal(s) && s[0] != '+' && (Unsigned(s)[0] != '0' || s == "0")
  }

  /** Every canonical text that `Atoi` accepts prints back as itself. */
  lemma ItoaAfterAtoi(s: string)
    requires IsCanonical(s) && Atoi(s).Ok?
    ensures IntToString(Atoi(s).value) == s
  {
    var u := Unsigned(s);
    if s[0] == '-' {
      assert u == s[1..] && u[0] != '0';
      LeadingNonZeroPositive(u);
      NatToStringOfDigits(u);
      assert s == "-" + u;
    } else {
      assert u == s;
      assert u[0] != '0' || |u| == 1;
      NatToStringOfDigits(u);
    }
  }

  /** A digit string with no leading zero is the canonical form of its value. */
  lemma {:induction false} NatToStringOfDigits(u: string)
    requires u != [] && AllDigits(u) && (u[0] != '0' || |u| == 1)
    ensures NatToString(DigitsValue(u)) == u
  {
    var m := DigitsValue(u);
    if |u| == 1 {
      assert u[..0] == [];
      assert DigitChar(DigitValue(u[0])) == u[0];
    } else {
      var p := u[..|u| - 1];
      assert p[0] == u[0];
      LeadingNonZeroPositive(p);
      assert m / 10 == DigitsValue(p) && m % 10 == DigitValue(u[|u| - 1]);
      NatToStringOfDigits(p);
      assert DigitChar(DigitValue(u[|u| - 1])) == u[|u| - 1];
      assert u == p + [u[|u| - 1]];
    }
  }

  /** A digit string that does not start with `0` is worth at least 1. */
  lemma {:induction false} LeadingNonZeroPositive(u: string)
    requires u != [] && AllDigits(u) && u[0] != '0'
    ensures DigitsValue(u) >= 1
  {
    if |u| > 1 {
      var p := u[..|u| - 1];
      assert p[0] == u[0];
      LeadingNonZeroPositive(p);
    } else {
      assert u[..0] == [];
    }
  }

  /** A digit string is worth at least its first digit times its place. */
  lemma {:induction false} LeadingDigitBound(u: string)
    requires u != [] && AllDigits(u)
    ensures DigitsValue(u) >= DigitValue(u[0]) * Pow10(|u| - 1)
  {
    if |u| == 1 {
      assert u[..0] == [];
    } else {
      var p := u[..|u| - 1];
      assert p[0] == u[0];
      LeadingDigitBound(p);
      var d0, q := DigitValue(u[0]), Pow10(|p| - 1);
      var b := d0 * q;
      assert DigitsValue(u) >= DigitsValue(p) * 10;
      assert DigitsValue(p) * 10 >= b * 10;
      assert Pow10(|u| - 1) == 10 * q;
      TimesTenInside(d0, q);
    }
  }

  lemma TimesTenInside(d: int, q: int)
    ensures d * (10 * q) == (d * q) * 10
  {
  }

  /** The run of digits ends at the first character that is not a digit. */
  lemma {:induction false} LeadingRunIs(s: string, k: nat)
    requires k <= |s| && (forall j | 0 <= j < k :: IsDigit(s[j]))
    requires k < |s| ==> !IsDigit(s[k])
    ensures LeadingRun(s) == k
  {
    if k > 0 {
      assert forall j | 0 <= j < k - 1 :: s[1..][j] == s[j + 1];
      LeadingRunIs(s[1..], k - 1);
    }
  }

  /** Twenty nines and a letter: the digits overflow 64 bits before the letter
      is reached, so Go reports a range error, not a syntax error. */
  lemma AtoiOverflowBeforeLetter(s: string)
    requires s == "99999999999999999999x"
    ensures Atoi(s) == Err(RangeError(s))
  {
    NinesThenLetter(s);
    NinesOverflow(s);
    OverflowIsRangeError(s);
  }

  /** A text whose leading digits already exceed 64 bits is a range error,
      whatever follows them. */
  lemma OverflowIsRangeError(s: string)
    requires RunOverflows(s)
    ensures Atoi(s) == Err(RangeError(s))
  {
    var u := Unsigned(s);
    if IsDecimal(s) {
      assert u[..LeadingRun(u)] == u;
      assert DecimalValue(s) > MaxInt || DecimalValue(s) < MinInt;
    }
  }

  lemma NinesOverflow(s: string)
    requires |s| == 21 && s[20] == 'x' && forall j | 0 <= j < 20 :: s[j] == '9'
    ensures RunOverflows(s)
  {
    LeadingRunIs(s, 20);
    assert Unsigned(s) == s;
    RunOfNines(s[..20]);
  }

  lemma RunOfNines(run: string)
    requires |run| == 20 && forall j | 0 <= j < 20 :: run[j] == '9'
    ensures AllDigits(run) && DigitsValue(run) > MaxUint
  {
    LeadingDigitBound(run);
    NineteenZeros();
  }

  lemma NinesThenLetter(s: string)
    requires s == "99999999999999999999x"
    ensures |s| == 21 && s[20] == 'x' && forall j | 0 <= j < 20 :: s[j] == '9'
  {
  }

  lemma NineteenZeros()
    ensures Pow10(19) == 10_000_000_000_000_000_000
  {
    assert Pow10(4) == 10_000;
    assert Pow10(8) == 100_000_000 by { assert Pow10(8) == Pow10(7) * 10; }
    assert Pow10(12) == 1_000_000_000_000 by { assert Pow10(12) == Pow10(11) * 10; }
    assert Pow10(16) == 10_000_000_000_000_000 by { assert Pow10(16) == Pow10(15) * 10; }
  }

  /** Go's `strconv` behaviour on the inputs its tests use. */
  lemma AtoiExamples()
    ensures Atoi("1") == Ok(1)
    ensures Atoi("A").Err?
    ensures Atoi("-30") == Ok(-30)
    ensures Atoi("") == Err(SyntaxError(""))
    ensures Atoi("+7") == Ok(7)
    ensures Atoi("1A") == Err(SyntaxError("1A"))
  {
    assert "+7"[1..] == "7";
    assert "1A"[1..] == "A";
    assert "-30"[1..] == "30";
    assert "30"[..1] == "3";
  }
}
