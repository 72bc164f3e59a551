/**
 * The text conversions the query pipeline relies on: `String.Split` on one
 * separator character, `Int32.TryParse`, and the conversions between numbers
 * and text done by `Convert.ToString` and `Convert.ToDouble`.
 *
 * A .NET double is modelled as a finite decimal `Decimal(mantissa, scale)`,
 * whose value is mantissa * 10^-scale. Decimals are compared by the number they
 * denote (`SameValue`), and a number is written in lowest terms in plain
 * decimal notation, so that the same number always gives the same text.
 */
module Text {
  import opened Wrappers

  const Int32Min: int := -0x8000_0000
  const Int32Max: int := 0x7fff_ffff

  // ---------------------------------------------------------------------------
  // Splitting on a separator

  /** `s.Split(sep)`: the maximal separator-free pieces of s, left to right.
      The empty string gives one empty piece. */
  function Split(s: string, sep: char): (parts: seq<string>)
    ensures |parts| >= 1
    ensures forall i :: 0 <= i < |parts| ==> sep !in parts[i]
    decreases |s|
  {
    if s == [] then [""]
    else
      var rest := Split(s[1..], sep);
      if s[0] == sep then [""] + rest
      else [[s[0]] + rest[0]] + rest[1..]
  }

  /** `String.Join(sep, parts)`: the partner of Split. */
  function Join(parts: seq<string>, sep: char): string
    decreases |parts|
  {
    if parts == [] then ""
    else if |parts| == 1 then parts[0]
    else parts[0] + [sep] + Join(parts[1..], sep)
  }

  /** Splitting and joining again gives back the original text. */
  lemma {:induction false} JoinSplit(s: string, sep: char)
    ensures Join(Split(s, sep), sep) == s
    decreases |s|
  {
    if s != [] {
      var rest := Split(s[1..], sep);
      JoinSplit(s[1..], sep);
      if s[0] == sep {
        assert ([""] + rest)[1..] == rest;
        assert s == [sep] + s[1..];
      } else if |rest| == 1 {
        assert s == [s[0]] + s[1..];
      } else {
        var parts := [[s[0]] + rest[0]] + rest[1..];
        assert parts[1..] == rest[1..];
        assert s == [s[0]] + s[1..];
      }
    }
  }

  /** Text without the separator is a single piece. */
  lemma {:induction false} SplitWithoutSeparator(s: string, sep: char)
    requires sep !in s
    ensures Split(s, sep) == [s]
    decreases |s|
  {
    if s != [] {
      SplitWithoutSeparator(s[1..], sep);
      assert s == [s[0]] + s[1..];
    }
  }

  /** A separator after a separator-free prefix ends the first piece. */
  lemma {:induction false} SplitAtSeparator(a: string, b: string, sep: char)
    requires sep !in a
    ensures Split(a + [sep] + b, sep) == [a] + Split(b, sep)
    decreases |a|
  {
    var s := a + [sep] + b;
    if a == [] {
      assert s[1..] == b;
    } else {
      assert s[1..] == a[1..] + [sep] + b;
      SplitAtSeparator(a[1..], b, sep);
      assert [s[0]] + a[1..] == a;
    }
  }

  // ---------------------------------------------------------------------------
  // Digits

  predicate IsDigit(c: char) {
    '0' <= c <= '9'
  }

  predicate AllDigits(s: string) {
    forall i :: 0 <= i < |s| ==> IsDigit(s[i])
  }

  /** One or more decimal digits. */
  predicate IsNumeral(s: string) {
    |s| > 0 && AllDigits(s)
  }

  function Pow10(n: nat): (r: nat)
    ensures r >= 1
  {
    if n == 0 then 1 else 10 * Pow10(n - 1)
  }

  /** The number a string of decimal digits denotes, most significant digit first. */
  function DigitsValue(s: string): nat
    requires AllDigits(s)
    decreases |s|
  {
    if s == [] then 0
    else DigitsValue(s[..|s| - 1]) * 10 + (s[|s| - 1] as int - '0' as int)
  }

  /** The shortest decimal digits of n. */
  function NatToDigits(n: nat): (s: string)
    ensures IsNumeral(s)
    decreases n
  {
    (if n < 10 then "" else NatToDigits(n / 10)) + [('0' as int + n % 10) as char]
  }

  /** n written out in `width` digits at least, padded with leading zeros. */
  function PadLeft(s: string, width: nat): (r: string)
    requires AllDigits(s)
    ensures AllDigits(r)
    ensures |r| == if |s| < width then width else |s|
  {
    if |s| < width then seq(width - |s|, _ => '0') + s else s
  }

  lemma {:induction false} NatToDigitsValue(n: nat)
    ensures DigitsValue(NatToDigits(n)) == n
    decreases n
  {
    var s := NatToDigits(n);
    assert s[..|s| - 1] == if n < 10 then "" else NatToDigits(n / 10);
    if n >= 10 {
      NatToDigitsValue(n / 10);
    }
  }

  /** Digits appended on the right shift the left part by a power of ten. */
  lemma {:induction false} DigitsValueAppend(a: string, b: string)
    requires AllDigits(a) && AllDigits(b)
    ensures AllDigits(a + b)
    ensures DigitsValue(a + b) == DigitsValue(a) * Pow10(|b|) + DigitsValue(b)
    decreases |b|
  {
    if b == [] {
      assert a + b == a;
    } else {
      var b' := b[..|b| - 1];
      var last := b[|b| - 1] as int - '0' as int;
      assert (a + b)[..|a + b| - 1] == a + b';
      assert (a + b)[|a + b| - 1] == b[|b| - 1];
      DigitsValueAppend(a, b');
      ShiftByTen(DigitsValue(a), Pow10(|b'|), DigitsValue(b'), last);
    }
  }

  /** One digit more on the right of x * p + y multiplies both parts by ten. */
  lemma ShiftByTen(x: int, p: int, y: int, last: int)
    ensures (x * p + y) * 10 + last == x * (10 * p) + (y * 10 + last)
  {
  }

  lemma {:induction false} ZerosValue(n: nat)
    ensures AllDigits(seq(n, _ => '0'))
    ensures DigitsValue(seq(n, _ => '0')) == 0
    decreases n
  {
    var z := seq(n, _ => '0');
    if n > 0 {
      assert z[..n - 1] == seq(n - 1, _ => '0');
      ZerosValue(n - 1);
    }
  }

  /** Leading zeros do not change the value. */
  lemma PadLeftValue(s: string, width: nat)
    requires AllDigits(s)
    ensures DigitsValue(PadLeft(s, width)) == DigitsValue(s)
  {
    if |s| < width {
      ZerosValue(width - |s|);
      DigitsValueAppend(seq(width - |s|, _ => '0'), s);
    }
  }

  // ---------------------------------------------------------------------------
  // Signed integers: Int32.TryParse

  function Abs(x: int): nat {
    if x < 0 then -x else x
  }

  function Signed(negative: bool, n: nat): int {
    if negative then -(n as int) else n
  }

  /** A leading sign character, if any, and the text after it. */
  function StripSign(s: string): (bool, string) {
    if |s| > 0 && s[0] == '-' then (true, s[1..])
    else if |s| > 0 && s[0] == '+' then (false, s[1..])
    else (false, s)
  }

  /** `Int32.TryParse(s, out n)`: an optional sign and decimal digits whose
      value fits in 32 bits. */
  function ParseInt32(s: string): (r: Option<int>)
    ensures r.Some? ==> Int32Min <= r.value <= Int32Max
  {
    var (negative, body) := StripSign(s);
    if IsNumeral(body) && Int32Min <= Signed(negative, DigitsValue(body)) <= Int32Max
    then Some(Signed(negative, DigitsValue(body)))
    else None
  }

  // ---------------------------------------------------------------------------
  // Decimal numbers: Convert.ToString and Convert.ToDouble

  /** mantissa * 10^-scale */
  datatype Decimal = Decimal(mantissa: int, scale: nat)

  /** `a.Equals(b)` on the numbers the two decimals denote. */
  predicate SameValue(a: Decimal, b: Decimal) {
    a.mantissa * Pow10(b.scale) == b.mantissa * Pow10(a.scale)
  }

  /** The number -1, in any number of decimal places. */
  predicate IsMinusOne(d: Decimal) {
    d.mantissa == -(Pow10(d.scale) as int)
  }

  /** In lowest terms: the last fractional digit, if any, is not a zero. */
  predicate IsNormal(d: Decimal) {
    d.scale == 0 || d.mantissa % 10 != 0
  }

  /** The same number with its trailing fractional zeros dropped. */
  function Normalize(d: Decimal): (n: Decimal)
    ensures IsNormal(n) && SameValue(n, d)
    decreases d.scale
  {
    if d.scale > 0 && d.mantissa % 10 == 0 then
      var shorter := Decimal(d.mantissa / 10, d.scale - 1);
      DropZero(d);
      SameValueTransitive(Normalize(shorter), shorter, d);
      Normalize(shorter)
    else d
  }

  /** `Convert.ToString` of a number: the number in lowest terms, in plain
      decimal notation, so that equal numbers are written alike. */
  function FormatDecimal(d: Decimal): string {
    PlainText(Normalize(d))
  }

  /** A minus sign when negative, the integer digits, then exactly `scale`
      fractional digits after a point. */
  function PlainText(d: Decimal): string {
    SignText(d) + BodyText(d)
  }

  function SignText(d: Decimal): string {
    if d.mantissa < 0 then "-" else ""
  }

  /** The digits of |d| with the point placed `scale` digits from the right. */
  function BodyText(d: Decimal): string {
    var digits := DigitsOf(d);
    if d.scale == 0 then digits
    else digits[..|digits| - d.scale] + "." + digits[|digits| - d.scale..]
  }

  /** `Convert.ToDouble` of a text: an optional sign, digits, and optionally a
      point followed by digits. Anything else is a format error (None). */
  function ParseDouble(s: string): Option<Decimal>
  {
    var (negative, body) := StripSign(s);
    var parts := Split(body, '.');
    if |parts| == 1 && IsNumeral(parts[0]) then
      Some(Decimal(Signed(negative, DigitsValue(parts[0])), 0))
    else if |parts| == 2 && IsNumeral(parts[0]) && IsNumeral(parts[1]) then
      Some(Decimal(Signed(negative, DigitsValue(parts[0]) * Pow10(|parts[1]|) + DigitsValue(parts[1])), |parts[1]|))
    else None
  }

  lemma DigitsHaveNoSeparator(s: string, sep: char)
    requires AllDigits(s) && !IsDigit(sep)
    ensures sep !in s
  {
  }

  /** A leading minus sign, or none, before a digit is read back as the sign. */
  lemma StripSignOfDigits(negative: bool, body: string)
    requires |body| > 0 && IsDigit(body[0])
    ensures StripSign((if negative then "-" else "") + body) == (negative, body)
  {
    if negative {
      assert ("-" + body)[1..] == body;
    } else {
      assert "" + body == body;
    }
  }

  /** Digits, a point and digits split into the two numerals. */
  lemma SplitAtPoint(intPart: string, fracPart: string)
    requires AllDigits(intPart) && AllDigits(fracPart)
    ensures Split(intPart + "." + fracPart, '.') == [intPart, fracPart]
  {
    DigitsHaveNoSeparator(intPart, '.');
    DigitsHaveNoSeparator(fracPart, '.');
    SplitAtSeparator(intPart, fracPart, '.');
    SplitWithoutSeparator(fracPart, '.');
  }

  /** How ParseDouble reads a sign and a body whose pieces around the point are known. */
  lemma ParseDoubleOfPieces(s: string, negative: bool, body: string, pieces: seq<string>)
    requires StripSign(s) == (negative, body) && Split(body, '.') == pieces
    requires |pieces| == 1 || |pieces| == 2
    requires IsNumeral(pieces[0]) && (|pieces| == 2 ==> IsNumeral(pieces[1]))
    ensures |pieces| == 1 ==> ParseDouble(s) == Some(Decimal(Signed(negative, DigitsValue(pieces[0])), 0))
    ensures |pieces| == 2 ==> ParseDouble(s) == Some(Decimal(Signed(negative, DigitsValue(pieces[0]) * Pow10(|pieces[1]|) + DigitsValue(pieces[1])), |pieces[1]|))
  {
  }

  /** The digits PlainText writes for d, before the point is placed. */
  function DigitsOf(d: Decimal): (digits: string)
    ensures AllDigits(digits) && |digits| >= d.scale + 1
    ensures DigitsValue(digits) == Abs(d.mantissa)
  {
    NatToDigitsValue(Abs(d.mantissa));
    PadLeftValue(NatToDigits(Abs(d.mantissa)), d.scale + 1);
    PadLeft(NatToDigits(Abs(d.mantissa)), d.scale + 1)
  }

  /** Reading back the plain text of d gives d, with the same number of
      decimal places. */
  lemma PlainTextRoundTrip(d: Decimal)
    ensures ParseDouble(PlainText(d)) == Some(d)
  {
    var body := BodyText(d);
    BodyStartsWithDigit(d);
    StripSignOfDigits(d.mantissa < 0, body);
    if d.scale == 0 {
      RoundTripWhole(d, PlainText(d));
    } else {
      RoundTripFraction(d, PlainText(d), body);
    }
  }

  lemma RoundTripWhole(d: Decimal, s: string)
    requires d.scale == 0
    requires StripSign(s) == (d.mantissa < 0, DigitsOf(d))
    ensures ParseDouble(s) == Some(d)
  {
    var digits := DigitsOf(d);
    DigitsHaveNoSeparator(digits, '.');
    SplitWithoutSeparator(digits, '.');
    ParseDoubleOfPieces(s, d.mantissa < 0, digits, [digits]);
  }

  lemma RoundTripFraction(d: Decimal, s: string, body: string)
    requires d.scale > 0
    requires StripSign(s) == (d.mantissa < 0, body)
    requires body == BodyText(d)
    ensures ParseDouble(s) == Some(d)
  {
    var digits := DigitsOf(d);
    var point := |digits| - d.scale;
    FractionBodyPieces(digits, d.scale, body);
    ParseDoubleOfPieces(s, d.mantissa < 0, body, [digits[..point], digits[point..]]);
    assert Signed(d.mantissa < 0, DigitsValue(digits)) == d.mantissa;
  }

  lemma FractionBodyPieces(digits: string, scale: nat, body: string)
    requires AllDigits(digits) && 0 < scale < |digits|
    requires body == digits[..|digits| - scale] + "." + digits[|digits| - scale..]
    ensures Split(body, '.') == [digits[..|digits| - scale], digits[|digits| - scale..]]
    ensures DigitsValue(digits[..|digits| - scale]) * Pow10(scale) + DigitsValue(digits[|digits| - scale..]) == DigitsValue(digits)
  {
    var intPart, fracPart := digits[..|digits| - scale], digits[|digits| - scale..];
    assert intPart + fracPart == digits;
    DigitsValueAppend(intPart, fracPart);
    SplitAtPoint(intPart, fracPart);
  }

  /** Reading back a formatted number gives the same number, in lowest terms. */
  lemma FormatParseRoundTrip(d: Decimal)
    ensures ParseDouble(FormatDecimal(d)) == Some(Normalize(d))
    ensures SameValue(Normalize(d), d)
  {
    PlainTextRoundTrip(Normalize(d));
  }

  /** Two numbers are written alike exactly when they are the same number. */
  lemma FormatSameValue(a: Decimal, b: Decimal)
    ensures FormatDecimal(a) == FormatDecimal(b) <==> SameValue(a, b)
  {
    NormalizeSameValue(a, b);
    if FormatDecimal(a) == FormatDecimal(b) {
      PlainTextRoundTrip(Normalize(a));
      PlainTextRoundTrip(Normalize(b));
    }
  }

  /** A formatted number is not empty and starts with a minus sign or a digit. */
  lemma FormatDecimalStart(d: Decimal)
    ensures |FormatDecimal(d)| > 0
    ensures FormatDecimal(d)[0] == '-' || IsDigit(FormatDecimal(d)[0])
  {
    var n := Normalize(d);
    BodyStartsWithDigit(n);
    if SignText(n) == "" {
      assert PlainText(n)[0] == BodyText(n)[0];
    }
  }

  /** The body always has an integer digit before any point. */
  lemma BodyStartsWithDigit(d: Decimal)
    ensures |BodyText(d)| > 0 && IsDigit(BodyText(d)[0])
  {
    PointedStartsWithDigit(DigitsOf(d), d.scale);
  }

  lemma PointedStartsWithDigit(digits: string, scale: nat)
    requires AllDigits(digits) && |digits| > scale
    ensures var body := if scale == 0 then digits else digits[..|digits| - scale] + "." + digits[|digits| - scale..];
            |body| > 0 && IsDigit(body[0])
  {
    if scale > 0 {
      assert (digits[..|digits| - scale] + "." + digits[|digits| - scale..])[0] == digits[0];
    }
  }

  // ---------------------------------------------------------------------------
  // Lowest terms

  lemma {:induction false} Pow10Add(a: nat, b: nat)
    ensures Pow10(a + b) == Pow10(a) * Pow10(b)
    decreases b
  {
    if b > 0 {
      Pow10Add(a, b - 1);
      assert Pow10(a + b) == 10 * Pow10(a + b - 1);
      MultiplyAssociates(10, Pow10(a), Pow10(b - 1));
    }
  }

  lemma MultiplyAssociates(x: int, y: int, z: int)
    ensures x * (y * z) == y * (x * z)
  {
  }

  /** A positive common factor cancels. */
  lemma CancelFactor(x: int, y: int, p: int)
    requires p > 0 && x * p == y * p
    ensures x == y
  {
  }

  lemma SameValueTransitive(a: Decimal, b: Decimal, c: Decimal)
    requires SameValue(a, b) && SameValue(b, c)
    ensures SameValue(a, c)
  {
    CrossMultiply(a.mantissa, b.mantissa, c.mantissa, Pow10(a.scale), Pow10(b.scale), Pow10(c.scale));
  }

  /** The arithmetic behind SameValueTransitive: a/pa == b/pb and b/pb == c/pc
      give a/pa == c/pc. */
  lemma CrossMultiply(am: int, bm: int, cm: int, pa: int, pb: int, pc: int)
    requires pb > 0 && am * pb == bm * pa && bm * pc == cm * pb
    ensures am * pc == cm * pa
  {
    assert (am * pc) * pb == (am * pb) * pc;
    assert (bm * pa) * pc == (bm * pc) * pa;
    assert (cm * pb) * pa == (cm * pa) * pb;
    CancelFactor(am * pc, cm * pa, pb);
  }

  /** Dropping one trailing fractional zero keeps the number. */
  lemma DropZero(d: Decimal)
    requires d.scale > 0 && d.mantissa % 10 == 0
    ensures SameValue(Decimal(d.mantissa / 10, d.scale - 1), d)
  {
    var q, p := d.mantissa / 10, Pow10(d.scale - 1) as int;
    assert d.mantissa == q * 10;
    MultiplyAssociates(10, q, p);
  }

  /** am / pa == bm / (pa * pk) means bm == am * pk. */
  lemma CommonFactor(am: int, bm: int, pa: int, pk: int)
    requires pa > 0 && am * (pa * pk) == bm * pa
    ensures bm == am * pk
  {
    assert am * (pa * pk) == (am * pk) * pa;
    CancelFactor(am * pk, bm, pa);
  }

  /** A multiple of a positive power of ten ends in the digit zero. */
  lemma ScaledEndsInZero(q: int, k: nat)
    requires k > 0
    ensures (q * Pow10(k)) % 10 == 0
  {
    var m := q * Pow10(k - 1);
    MultiplyAssociates(10, q, Pow10(k - 1));
    assert q * Pow10(k) == m * 10;
  }

  /** A number has only one representation in lowest terms. */
  lemma NormalUnique(a: Decimal, b: Decimal)
    requires IsNormal(a) && IsNormal(b) && SameValue(a, b)
    ensures a == b
  {
    if a.scale <= b.scale {
      NormalUniqueOrdered(a, b);
    } else {
      NormalUniqueOrdered(b, a);
    }
  }

  lemma NormalUniqueOrdered(a: Decimal, b: Decimal)
    requires IsNormal(b) && SameValue(a, b) && a.scale <= b.scale
    ensures a == b
  {
    var k := b.scale - a.scale;
    Pow10Add(a.scale, k);
    CommonFactor(a.mantissa, b.mantissa, Pow10(a.scale), Pow10(k));
    if k > 0 {
      ScaledEndsInZero(a.mantissa, k);
      assert false;
    }
  }

  /** Two decimals denote the same number exactly when their lowest terms agree. */
  lemma NormalizeSameValue(a: Decimal, b: Decimal)
    ensures SameValue(a, b) <==> Normalize(a) == Normalize(b)
  {
    var na, nb := Normalize(a), Normalize(b);
    if SameValue(a, b) {
      SameValueTransitive(na, a, b);
      SameValueTransitive(na, b, nb);
      NormalUnique(na, nb);
    }
    if na == nb {
      SameValueTransitive(a, na, b);
    }
  }

  // ---------------------------------------------------------------------------
  // Whole numbers and the sentinel

  /** A whole number is in lowest terms and written as its sign and its
      shortest digits. */
  lemma FormatWhole(n: int)
    ensures FormatDecimal(Decimal(n, 0)) == SignText(Decimal(n, 0)) + BodyText(Decimal(n, 0))
    ensures IsNumeral(BodyText(Decimal(n, 0)))
    ensures BodyText(Decimal(n, 0)) == NatToDigits(Abs(n))
  {
    assert PadLeft(NatToDigits(Abs(n)), 1) == NatToDigits(Abs(n));
  }

  /** An Int32 written out by Convert.ToString is accepted back by Int32.TryParse. */
  lemma Int32RoundTrip(n: int)
    requires Int32Min <= n <= Int32Max
    ensures ParseInt32(FormatDecimal(Decimal(n, 0))) == Some(n)
  {
    var body := BodyText(Decimal(n, 0));
    FormatWhole(n);
    assert IsDigit(body[0]);
    StripSignOfDigits(n < 0, body);
    NatToDigitsValue(Abs(n));
    ParseInt32OfPieces(FormatDecimal(Decimal(n, 0)), n < 0, body);
  }

  /** How ParseInt32 reads a sign and a numeral. */
  lemma ParseInt32OfPieces(s: string, negative: bool, body: string)
    requires StripSign(s) == (negative, body) && IsNumeral(body)
    ensures Int32Min <= Signed(negative, DigitsValue(body)) <= Int32Max ==>
              ParseInt32(s) == Some(Signed(negative, DigitsValue(body)))
  {
  }

  /** A number is written "-1" exactly when it is -1, in whatever number of
      decimal places it comes; and the text "-1" reads as -1. */
  lemma MinusOneText(d: Decimal)
    ensures FormatDecimal(d) == "-1" <==> IsMinusOne(d)
    ensures ParseDouble("-1") == Some(Decimal(-1, 0))
  {
    var one := Decimal(-1, 0);
    FormatWhole(-1);
    assert NatToDigits(1) == "1";
    assert FormatDecimal(one) == "-1";
    FormatSameValue(d, one);
    assert SameValue(d, one) <==> IsMinusOne(d);
    FormatParseRoundTrip(one);
  }
}
