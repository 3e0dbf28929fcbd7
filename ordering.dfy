/** Go's `<` on strings: lexicographic order, one character at a time, where a
    proper prefix comes first. The period keys are ASCII, so comparing characters
    is comparing bytes. */
module Ordering {
  import opened Decimal

  predicate Less(a: string, b: string)
  {
    if a == [] then b != []
    else if b == [] then false
    else if a[0] != b[0] then a[0] < b[0]
    else Less(a[1..], b[1..])
  }

  lemma {:induction false} Irreflexive(a: string)
    ensures !Less(a, a)
  {
    if a != [] { Irreflexive(a[1..]); }
  }

  lemma {:induction false} Asymmetric(a: string, b: string)
    requires Less(a, b)
    ensures !Less(b, a)
  {
    if a != [] && b != [] && a[0] == b[0] { Asymmetric(a[1..], b[1..]); }
  }

  lemma {:induction false} Transitive(a: string, b: string, c: string)
    requires Less(a, b) && Less(b, c)
    ensures Less(a, c)
  {
    if a != [] && a[0] == b[0] && b[0] == c[0] { Transitive(a[1..], b[1..], c[1..]); }
  }

  /** Any two different strings are ordered one way or the other. */
  lemma {:induction false} Connected(a: string, b: string)
    requires a != b
    ensures Less(a, b) || Less(b, a)
  {
    if a != [] && b != [] && a[0] == b[0] {
      assert a == [a[0]] + a[1..] && b == [b[0]] + b[1..];
      Connected(a[1..], b[1..]);
    }
  }

  /** "Not greater than" chains: the order `!Less(b, a)` is transitive. */
  lemma NotLessTransitive(a: string, b: string, c: string)
    requires !Less(b, a) && !Less(c, b)
    ensures !Less(c, a)
  {
    if Less(c, a) {
      if a == b {
        assert false;
      } else {
        Connected(a, b);
        Transitive(c, a, b);
      }
    }
  }

  /** The value of a digit string read from its first digit. */
  lemma {:induction false} DigitsValueFront(s: string)
    requires AllDigits(s) && s != []
    ensures DigitsValue(s) == DigitValue(s[0]) * Pow10(|s| - 1) + DigitsValue(s[1..])
  {
    if |s| == 1 {
      assert s[..0] == [] && s[1..] == [];
    } else {
      var p := s[..|s| - 1];
      DigitsValueFront(p);
      assert s[1..][..|s| - 2] == p[1..];
      ShiftDigit(DigitValue(s[0]), Pow10(|s| - 2), DigitsValue(p[1..]), DigitValue(s[|s| - 1]));
    }
  }

  /** Appending a digit on the right multiplies the leading digit's weight by ten. */
  lemma ShiftDigit(d: nat, q: nat, x: nat, last: nat)
    ensures (d * q + x) * 10 + last == d * (10 * q) + (x * 10 + last)
  {
  }

  /** A smaller leading digit decides, whatever follows it. */
  lemma LeadingDigitDecides(da: nat, db: nat, p: nat, ra: nat, rb: nat)
    requires da < db && ra < p
    ensures da * p + ra < db * p + rb
  {
    var k := db - da;
    AtLeastOnce(k, p);
    assert db * p == da * p + k * p;
  }

  lemma {:induction false} AtLeastOnce(k: nat, p: nat)
    requires k >= 1
    ensures k * p >= p
  {
    if k > 1 {
      AtLeastOnce(k - 1, p);
      assert k * p == (k - 1) * p + p;
    }
  }

  /** Fixed-width digit strings compare as strings exactly as their values
      compare as numbers; this is why sorting period keys as strings sorts them
      in calendar order. */
  lemma {:induction false} LessDigitsIsLessValue(a: string, b: string)
    requires AllDigits(a) && AllDigits(b) && |a| == |b|
    ensures Less(a, b) <==> DigitsValue(a) < DigitsValue(b)
  {
    if a != [] {
      var p := Pow10(|a| - 1);
      DigitsValueFront(a);
      DigitsValueFront(b);
      var da, db := DigitValue(a[0]), DigitValue(b[0]);
      var ra, rb := DigitsValue(a[1..]), DigitsValue(b[1..]);
      if a[0] == b[0] {
        LessDigitsIsLessValue(a[1..], b[1..]);
      } else if da < db {
        LeadingDigitDecides(da, db, p, ra, rb);
      } else {
        LeadingDigitDecides(db, da, p, rb, ra);
      }
    }
  }
}
