/** PHP's `(int)` cast of a string: skip leading white space, read an optional
    sign and the longest run of decimal digits after it; no digits gives 0.
    Also the canonical decimal spelling of an integer, which the cast reads
    back, and the integer-numeric strings that PHP 8 compares numerically
    against an integer. Integers are unbounded. */
module PhpIntCast {
  import opened PhpStrings

  predicate AllDigits(s: string) {
    forall i :: 0 <= i < |s| ==> IsDigit(s[i])
  }

  predicate AllNumericSpace(s: string) {
    forall i :: 0 <= i < |s| ==> IsNumericSpace(s[i])
  }

  predicate IsSign(c: char) {
    c == '-' || c == '+'
  }

  function DigitValue(c: char): (d: nat)
    requires IsDigit(c)
    ensures d < 10
  {
    c as int - '0' as int
  }

  function DigitChar(d: nat): (c: char)
    requires d < 10
    ensures IsDigit(c) && DigitValue(c) == d
  {
    ('0' as int + d) as char
  }

  function Pow10(k: nat): (p: nat)
    ensures p >= 1
  {
    if k == 0 then 1 else 10 * Pow10(k - 1)
  }

  /** The value of a run of decimal digits, most significant first. */
  function DigitsValue(ds: string): (v: nat)
    requires AllDigits(ds)
    ensures v < Pow10(|ds|)
  {
    if ds == [] then 0
    else
      var prefix := DigitsValue(ds[..|ds| - 1]);
      assert prefix + 1 <= Pow10(|ds| - 1);
      prefix * 10 + DigitValue(ds[|ds| - 1])
  }

  /** The input without its leading white space. */
  function SkipSpace(s: string): (r: string)
    ensures |r| <= |s|
  {
    if |s| > 0 && IsNumericSpace(s[0]) then SkipSpace(s[1..]) else s
  }

  /** What SkipSpace drops is white space and what it keeps is a suffix that
      does not start with white space. */
  lemma {:induction false} SkipSpaceSpec(s: string)
    ensures SkipSpace(s) == s[|s| - |SkipSpace(s)|..]
    ensures SkipSpace(s) == [] || !IsNumericSpace(SkipSpace(s)[0])
    ensures AllNumericSpace(s[..|s| - |SkipSpace(s)|])
    decreases |s|
  {
    if |s| > 0 && IsNumericSpace(s[0]) {
      SkipSpaceSpec(s[1..]);
      var r := SkipSpace(s[1..]);
      assert s[..|s| - |r|] == [s[0]] + s[1..][..|s| - 1 - |r|];
    }
  }

  lemma SkipSpaceNoop(s: string)
    requires s == [] || !IsNumericSpace(s[0])
    ensures SkipSpace(s) == s
  {
  }

  /** The longest prefix made of decimal digits. */
  function DigitPrefix(s: string): (r: string)
    ensures |r| <= |s|
    ensures AllDigits(r)
  {
    if |s| > 0 && IsDigit(s[0]) then [s[0]] + DigitPrefix(s[1..]) else []
  }

  /** DigitPrefix is a prefix and it stops at the first character that is not
      a digit. */
  lemma {:induction false} DigitPrefixSpec(s: string)
    ensures DigitPrefix(s) == s[..|DigitPrefix(s)|]
    ensures |DigitPrefix(s)| == |s| || !IsDigit(s[|DigitPrefix(s)|])
    decreases |s|
  {
    if |s| > 0 && IsDigit(s[0]) {
      DigitPrefixSpec(s[1..]);
    }
  }

  /** The input after leading white space and an optional sign. */
  function Unsigned(s: string): (u: string)
    ensures |u| <= |s|
  {
    AfterSign(SkipSpace(s))
  }

  /** The input without a leading sign. */
  function AfterSign(t: string): (u: string)
    ensures |u| <= |t|
  {
    if |t| > 0 && IsSign(t[0]) then t[1..] else t
  }

  predicate IsNegative(s: string) {
    var t := SkipSpace(s);
    |t| > 0 && t[0] == '-'
  }

  /** `(int) $value` for a string value. */
  function LeadingInt(s: string): int {
    var v: int := DigitsValue(DigitPrefix(Unsigned(s)));
    if IsNegative(s) then -v else v
  }

  /** A string PHP 8 treats as an integer-valued numeric string: optional white
      space, an optional sign, at least one digit, then only white space. */
  predicate IsIntegerNumeric(s: string) {
    var u := Unsigned(s);
    var d := DigitPrefix(u);
    |d| > 0 && AllNumericSpace(u[|d|..])
  }

  /** PHP 8's loose `$s == -1` for a string `$s`: a numeric string is compared
      by value, any other string is compared with "-1" as a string, which is
      itself numeric, so only numeric spellings of minus one are equal. */
  predicate LooselyEqualsMinusOne(s: string) {
    IsIntegerNumeric(s) && LeadingInt(s) == -1
  }

  /** The canonical decimal spelling of a natural number. */
  function Decimal(n: nat): (s: string)
    ensures |s| >= 1 && AllDigits(s)
    ensures s[0] == '0' ==> n == 0
  {
    if n < 10 then [DigitChar(n)] else Decimal(n / 10) + [DigitChar(n % 10)]
  }

  /** The canonical decimal spelling of an integer, with a `-` when negative. */
  function Literal(n: int): (s: string)
    ensures |s| >= 1 && (IsDigit(s[0]) || s[0] == '-')
  {
    if n < 0 then "-" + Decimal(-n) else Decimal(n)
  }

  lemma {:induction false} DigitsValueOfDecimal(n: nat)
    ensures DigitsValue(Decimal(n)) == n
    decreases n
  {
    var s := Decimal(n);
    if n >= 10 {
      assert s[..|s| - 1] == Decimal(n / 10);
      DigitsValueOfDecimal(n / 10);
    }
  }

  lemma {:induction false} DigitPrefixOfDigitsThen(ds: string, tail: string)
    requires AllDigits(ds)
    requires tail == [] || !IsDigit(tail[0])
    ensures DigitPrefix(ds + tail) == ds
    decreases |ds|
  {
    if ds == [] {
      assert ds + tail == tail;
    } else {
      assert (ds + tail)[1..] == ds[1..] + tail;
      DigitPrefixOfDigitsThen(ds[1..], tail);
    }
  }

  lemma {:induction false} DigitPrefixAppendNonDigit(s: string, c: char)
    requires !IsDigit(c)
    ensures DigitPrefix(s + [c]) == DigitPrefix(s)
    decreases |s|
  {
    if s != [] {
      assert (s + [c])[1..] == s[1..] + [c];
      DigitPrefixAppendNonDigit(s[1..], c);
    }
  }

  lemma {:induction false} SkipSpaceAppend(s: string, c: char)
    ensures SkipSpace(s + [c]) == if SkipSpace(s) == [] then SkipSpace([c]) else SkipSpace(s) + [c]
    decreases |s|
  {
    if s == [] {
      assert s + [c] == [c];
    } else if IsNumericSpace(s[0]) {
      assert (s + [c])[1..] == s[1..] + [c];
      SkipSpaceAppend(s[1..], c);
    }
  }

  function Magnitude(n: int): nat {
    if n < 0 then -n else n
  }

  /** The spelling of a signed run of digits followed by some tail. */
  function SignedDigits(negative: bool, ds: string, tail: string): string {
    (if negative then "-" else "") + ds + tail
  }

  lemma LiteralParts(n: int, tail: string)
    ensures Literal(n) + tail == SignedDigits(n < 0, Decimal(Magnitude(n)), tail)
  {
  }

  /** Past the sign, a signed run of digits is the digits and the tail. */
  lemma UnsignedOfSignedDigits(negative: bool, ds: string, tail: string)
    requires |ds| >= 1 && AllDigits(ds)
    ensures Unsigned(SignedDigits(negative, ds, tail)) == ds + tail
    ensures IsNegative(SignedDigits(negative, ds, tail)) == negative
  {
    var x := ds + tail;
    assert x[0] == ds[0];
    if negative {
      assert SignedDigits(negative, ds, tail) == "-" + x;
      UnsignedAfterMinus(x);
    } else {
      assert SignedDigits(negative, ds, tail) == x;
      UnsignedOfDigitFirst(x);
    }
  }

  lemma UnsignedAfterMinus(x: string)
    requires |x| >= 1 && IsDigit(x[0])
    ensures Unsigned("-" + x) == x && IsNegative("-" + x)
  {
    var s := "-" + x;
    SkipSpaceNoop(s);
    assert s[1..] == x;
  }

  lemma UnsignedOfDigitFirst(x: string)
    requires |x| >= 1 && IsDigit(x[0])
    ensures Unsigned(x) == x && !IsNegative(x)
  {
    SkipSpaceNoop(x);
  }

  /** Reading a signed run of digits, followed by anything that does not
      continue the digits, gives the signed value of the digits. */
  lemma LeadingIntOfSignedDigits(negative: bool, ds: string, tail: string)
    requires |ds| >= 1 && AllDigits(ds)
    requires tail == [] || !IsDigit(tail[0])
    ensures LeadingInt(SignedDigits(negative, ds, tail))
         == if negative then -(DigitsValue(ds) as int) else DigitsValue(ds)
  {
    UnsignedOfSignedDigits(negative, ds, tail);
    DigitPrefixOfDigitsThen(ds, tail);
  }

  /** Reading the canonical spelling of `n` back, followed by anything that does
      not continue the digits, gives `n`. */
  lemma LeadingIntOfLiteral(n: int, tail: string)
    requires tail == [] || !IsDigit(tail[0])
    ensures LeadingInt(Literal(n) + tail) == n
  {
    var m := Magnitude(n);
    LiteralParts(n, tail);
    LeadingIntOfSignedDigits(n < 0, Decimal(m), tail);
    DigitsValueOfDecimal(m);
  }

  /** The cast reads the canonical spelling of `n` back as `n`. */
  lemma ReadLiteral(n: int)
    ensures LeadingInt(Literal(n)) == n
  {
    assert Literal(n) + [] == Literal(n);
    LeadingIntOfLiteral(n, []);
  }

  /** A value without any digit is read as 0. */
  lemma LeadingIntWithoutDigits(s: string)
    requires forall i :: 0 <= i < |s| ==> !IsDigit(s[i])
    ensures LeadingInt(s) == 0
  {
    SkipSpaceSpec(s);
    var t := SkipSpace(s);
    var u := Unsigned(s);
    assert u == [] || !IsDigit(u[0]) by {
      if u != [] {
        if |t| > 0 && IsSign(t[0]) {
          assert u[0] == t[1] == s[|s| - |t| + 1];
        } else {
          assert u[0] == t[0] == s[|s| - |t|];
        }
      }
    }
  }

  /** A character that is not a digit, appended at the end, never changes the
      integer the cast reads. */
  lemma LeadingIntAppendNonDigit(s: string, c: char)
    requires !IsDigit(c)
    ensures LeadingInt(s + [c]) == LeadingInt(s)
  {
    UnsignedAppend(s, c);
    if SkipSpace(s) == [] {
      assert DigitPrefix(Unsigned(s)) == [];
      assert DigitPrefix(Unsigned(s + [c])) == [];
    } else {
      DigitPrefixAppendNonDigit(Unsigned(s), c);
    }
  }

  /** How appending one character changes what follows the white space and the
      sign. */
  lemma UnsignedAppend(s: string, c: char)
    ensures SkipSpace(s) != [] ==>
      Unsigned(s + [c]) == Unsigned(s) + [c] && IsNegative(s + [c]) == IsNegative(s)
    ensures SkipSpace(s) == [] ==>
      Unsigned(s) == [] && (Unsigned(s + [c]) == [] || Unsigned(s + [c]) == [c])
  {
    SkipSpaceAppend(s, c);
    if SkipSpace(s) == [] {
      BlankThen(c);
    } else {
      NonBlankThen(SkipSpace(s), c);
    }
  }

  lemma BlankThen(c: char)
    ensures AfterSign(SkipSpace([c])) == [] || AfterSign(SkipSpace([c])) == [c]
  {
    var t := SkipSpace([c]);
    assert t == [] || t == [c];
  }

  lemma NonBlankThen(t: string, c: char)
    requires t != []
    ensures (t + [c])[0] == t[0]
    ensures AfterSign(t + [c]) == AfterSign(t) + [c]
  {
    var t' := t + [c];
    assert t'[0] == t[0];
    if IsSign(t[0]) {
      assert t'[1..] == t[1..] + [c];
    }
  }

  /** The canonical spelling of an integer is an integer-numeric string, so it
      is loosely equal to -1 exactly when the integer is -1. */
  lemma LiteralLooselyEqualsMinusOne(n: int)
    ensures IsIntegerNumeric(Literal(n))
    ensures LooselyEqualsMinusOne(Literal(n)) <==> n == -1
  {
    var d := Decimal(Magnitude(n));
    LiteralParts(n, []);
    assert Literal(n) + [] == Literal(n);
    UnsignedOfSignedDigits(n < 0, d, []);
    assert d + [] == d;
    DigitPrefixOfDigitsThen(d, []);
    ReadLiteral(n);
  }

  /** The spelling of an integer followed by a character that is neither a digit
      nor white space (a unit letter, say) is not a numeric string. */
  lemma LiteralWithSuffixNotNumeric(n: int, c: char)
    requires !IsDigit(c) && !IsNumericSpace(c)
    ensures !IsIntegerNumeric(Literal(n) + [c])
    ensures !LooselyEqualsMinusOne(Literal(n) + [c])
  {
    var d := Decimal(Magnitude(n));
    LiteralParts(n, [c]);
    UnsignedOfSignedDigits(n < 0, d, [c]);
    DigitPrefixOfDigitsThen(d, [c]);
    assert (d + [c])[|d|..] == [c];
  }
}
