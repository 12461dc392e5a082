/** Floating-point map keys, rendered as Go's `%v` renders a `float64`. */
module GoFloats {
  import Json
  import opened Decimals

  /** A float: its shortest digits `d.ddd` and decimal exponent, or one of the values that have none. */
  datatype Float = NotANumber | Infinite(negative: bool) | Finite(negative: bool, digits: string, exponent: int)

  function Abs(n: int): nat {
    if n < 0 then -n else n
  }

  /** A number in decimal with at least two digits. */
  function AtLeastTwo(n: nat): string {
    if |Text(n)| < 2 then "0" + Text(n) else Text(n)
  }

  /** The digits with a point after the first. */
  function Mantissa(digits: string): string
    requires digits != ""
  {
    if |digits| == 1 then digits else digits[..1] + "." + digits[1..]
  }

  function ExponentText(exponent: int): string {
    (if exponent < 0 then "-" else "+") + AtLeastTwo(Abs(exponent))
  }

  function Body(digits: string, exponent: int): string
    requires digits != ""
  {
    if !(-4 <= exponent < 6) then Mantissa(digits) + "e" + ExponentText(exponent)
    else if exponent < 0 then "0" + "." + (Zeros(-exponent - 1) + digits)
    else
      var whole := exponent + 1;
      if |digits| <= whole then digits + Zeros(whole - |digits|)
      else digits[..whole] + "." + digits[whole..]
  }

  function GoFloat(v: Float): string
    requires v.Finite? ==> v.digits != ""
  {
    match v
    case NotANumber => "NaN"
    case Infinite(negative) => if negative then "-Inf" else "+Inf"
    case Finite(negative, digits, exponent) => (if negative then "-" else "") + Body(digits, exponent)
  }

  // ---------- what decimal text denotes ----------

  /** `x` with its decimal point moved `n` places to the right. */
  function Shift(x: real, n: int): real
    decreases Abs(n)
  {
    if n == 0 then x
    else if n > 0 then 10.0 * Shift(x, n - 1)
    else Shift(x, n + 1) / 10.0
  }

  /** Digits with an optional point among them. */
  function Plain(m: string): real {
    if '.' in m then
      var i := Json.IndexOf(m, '.');
      Shift(NatOf(m[..i] + m[i + 1..]) as real, -(|m| - i - 1))
    else NatOf(m) as real
  }

  function SignedInt(t: string): int {
    if t == "" then 0 else if t[0] == '-' then 0 - NatOf(t[1..]) else NatOf(t[1..])
  }

  /** Digits with an optional point, and an optional exponent. */
  function Unsigned(body: string): real {
    if 'e' in body then
      var i := Json.IndexOf(body, 'e');
      Shift(Plain(body[..i]), SignedInt(body[i + 1..]))
    else Plain(body)
  }

  function Denoted(text: string): real {
    if text != "" && text[0] == '-' then -Unsigned(text[1..]) else Unsigned(text)
  }

  /** The number `d.ddd` times ten to the `exponent`. */
  function Scientific(digits: string, exponent: int): real
    requires digits != ""
  {
    Shift(Shift(NatOf(digits) as real, 1 - |digits|), exponent)
  }

  /** The same number, its digits read as a whole number first. */
  lemma ScientificIs(digits: string, exponent: int, n: int)
    requires digits != "" && n == exponent + 1 - |digits|
    ensures Scientific(digits, exponent) == Shift(NatOf(digits) as real, n)
  {
    ShiftTwice(NatOf(digits) as real, 1 - |digits|, exponent);
  }

  // ---------- every layout denotes the number ----------

  lemma {:induction false} ShiftUp(x: real, n: int)
    ensures Shift(10.0 * x, n) == Shift(x, n + 1)
    decreases Abs(n)
  {
    if n > 0 {
      ShiftUp(x, n - 1);
    } else if n < 0 {
      ShiftUp(x, n + 1);
    }
  }

  lemma {:induction false} ShiftTwice(x: real, a: int, b: int)
    ensures Shift(Shift(x, a), b) == Shift(x, a + b)
    decreases Abs(a)
  {
    if a > 0 {
      ShiftTwice(x, a - 1, b + 1);
      ShiftUp(Shift(x, a - 1), b);
    } else if a < 0 {
      ShiftTwice(x, a + 1, b - 1);
      ShiftUp(Shift(x, a + 1) / 10.0, b - 1);
    }
  }

  lemma {:induction false} ShiftNat(n: nat, k: nat)
    ensures (n * Pow10(k)) as real == Shift(n as real, k)
  {
    if k > 0 {
      ShiftNat(n, k - 1);
      assert n * Pow10(k) == 10 * (n * Pow10(k - 1));
    }
  }

  lemma {:induction false} IndexIs(s: string, c: char, i: nat)
    requires i < |s| && s[i] == c && forall j :: 0 <= j < i ==> s[j] != c
    ensures c in s && Json.IndexOf(s, c) == i
  {}

  lemma DigitsOnly(s: string)
    requires AllDigits(s)
    ensures '.' !in s && 'e' !in s && '-' !in s
  {}

  lemma WholeNumber(s: string)
    requires AllDigits(s)
    ensures Plain(s) == NatOf(s) as real && 'e' !in s && Unsigned(s) == Plain(s)
  {}

  /** Digits on both sides of a point. */
  lemma PointInside(a: string, b: string)
    requires AllDigits(a) && AllDigits(b)
    ensures Plain(a + "." + b) == Shift(NatOf(a + b) as real, -|b|) && 'e' !in a + "." + b
  {
    var m := a + "." + b;
    DigitsOnly(a);
    DigitsOnly(b);
    IndexIs(m, '.', |a|);
    assert m[..|a|] == a && m[|a| + 1..] == b;
  }

  lemma ZeroInFront(s: string)
    ensures NatOf("0" + s) == NatOf(s)
  {
    NatOfConcat("0", s);
    assert "0"[..0] == "";
    assert NatOf("0") == 0;
  }

  lemma ExponentReadsBack(n: int)
    ensures SignedInt(ExponentText(n)) == n
  {
    var t := AtLeastTwo(Abs(n));
    TextReadsBack(Abs(n));
    ZeroInFront(Text(Abs(n)));
    assert NatOf(t) == Abs(n);
    var s := if n < 0 then "-" else "+";
    assert (s + t)[1..] == t && (s + t)[0] == s[0];
  }

  /** Digits with a point after the first `i` of them. */
  lemma PointAt(digits: string, i: nat, n: int)
    requires AllDigits(digits) && i <= |digits| && n == i - |digits|
    ensures Plain(digits[..i] + "." + digits[i..]) == Shift(NatOf(digits) as real, n)
    ensures 'e' !in digits[..i] + "." + digits[i..]
  {
    PointInside(digits[..i], digits[i..]);
    assert digits[..i] + digits[i..] == digits;
  }

  lemma MantissaDenotes(digits: string)
    requires digits != "" && AllDigits(digits)
    ensures Plain(Mantissa(digits)) == Shift(NatOf(digits) as real, 1 - |digits|)
  {
    if |digits| == 1 {
      WholeNumber(digits);
      assert Mantissa(digits) == digits;
    } else {
      PointAt(digits, 1, 1 - |digits|);
      assert Mantissa(digits) == digits[..1] + "." + digits[1..];
    }
  }

  lemma MantissaPlain(digits: string)
    requires digits != "" && AllDigits(digits)
    ensures 'e' !in Mantissa(digits)
  {}

  lemma WithExponent(m: string, x: string)
    requires 'e' !in m
    ensures Unsigned(m + "e" + x) == Shift(Plain(m), SignedInt(x))
  {
    var body := m + "e" + x;
    assert forall j :: 0 <= j < |m| ==> body[j] == m[j] && m[j] in m;
    IndexIs(body, 'e', |m|);
    assert body[..|m|] == m && body[|m| + 1..] == x;
  }

  lemma ExponentForm(digits: string, exponent: int)
    requires digits != "" && AllDigits(digits) && !(-4 <= exponent < 6)
    ensures Unsigned(Body(digits, exponent)) == Scientific(digits, exponent)
  {
    MantissaDenotes(digits);
    MantissaPlain(digits);
    ExponentReadsBack(exponent);
    WithExponent(Mantissa(digits), ExponentText(exponent));
  }

  lemma NoExponent(m: string)
    requires 'e' !in m
    ensures Unsigned(m) == Plain(m)
  {}

  lemma {:induction false} LeadingZeros(digits: string, exponent: int)
    requires digits != "" && AllDigits(digits) && -4 <= exponent < 0
    ensures Unsigned(Body(digits, exponent)) == Scientific(digits, exponent)
  {
    var zeros := Zeros(-exponent - 1);
    var after := zeros + digits;
    ZerosAreZero(-exponent - 1);
    PointInside("0", after);
    NoExponent("0" + "." + after);
    ZeroInFront(after);
    NatOfConcat(zeros, digits);
    ScientificIs(digits, exponent, -|after|);
  }

  lemma TrailingZeros(digits: string, k: nat)
    requires AllDigits(digits)
    ensures Unsigned(digits + Zeros(k)) == Shift(NatOf(digits) as real, k)
  {
    ZerosAreZero(k);
    WholeNumber(digits + Zeros(k));
    NatOfConcat(digits, Zeros(k));
    ShiftNat(NatOf(digits), k);
  }

  lemma PlainForm(digits: string, exponent: int)
    requires digits != "" && AllDigits(digits) && 0 <= exponent < 6
    ensures Unsigned(Body(digits, exponent)) == Scientific(digits, exponent)
  {
    var whole := exponent + 1;
    ScientificIs(digits, exponent, whole - |digits|);
    if |digits| <= whole {
      TrailingZeros(digits, whole - |digits|);
    } else {
      PointAt(digits, whole, whole - |digits|);
    }
  }

  lemma BodyDenotes(digits: string, exponent: int)
    requires digits != "" && AllDigits(digits)
    ensures Unsigned(Body(digits, exponent)) == Scientific(digits, exponent)
  {
    if !(-4 <= exponent < 6) {
      ExponentForm(digits, exponent);
    } else if exponent < 0 {
      LeadingZeros(digits, exponent);
    } else {
      PlainForm(digits, exponent);
    }
  }

  lemma BodyStart(digits: string, exponent: int)
    requires digits != "" && AllDigits(digits)
    ensures Body(digits, exponent) != "" && IsDigit(Body(digits, exponent)[0])
  {}

  lemma WithSign(negative: bool, body: string)
    requires body != "" && IsDigit(body[0])
    ensures Denoted((if negative then "-" else "") + body) == if negative then -Unsigned(body) else Unsigned(body)
  {
    assert ("-" + body)[1..] == body && "" + body == body;
  }

  /** Whatever layout is chosen, the text denotes the number it was made from. */
  lemma GoFloatDenotes(negative: bool, digits: string, exponent: int)
    requires digits != "" && AllDigits(digits)
    ensures Denoted(GoFloat(Finite(negative, digits, exponent))) ==
            if negative then -Scientific(digits, exponent) else Scientific(digits, exponent)
  {
    BodyDenotes(digits, exponent);
    BodyStart(digits, exponent);
    WithSign(negative, Body(digits, exponent));
  }

  // ---------- which layout it is ----------

  lemma {:induction false} NoLeadingZero(n: nat)
    ensures |Text(n)| > 1 ==> Text(n)[0] != '0'
    ensures n > 0 ==> Text(n)[0] != '0'
  {
    if n >= 10 {
      NoLeadingZero(n / 10);
    } else if n > 0 {
      assert DigitValue(DigitChar(n)) == n;
    }
  }

  /** An exponent has a sign and two digits, or more if it takes more. */
  lemma {:induction false} ExponentDigits(exponent: int) returns (t: string)
    ensures ExponentText(exponent) == (if exponent < 0 then "-" else "+") + t
    ensures AllDigits(t) && NatOf(t) == Abs(exponent) && |t| >= 2 && (|t| > 2 ==> t[0] != '0')
  {
    var n := Abs(exponent);
    t := AtLeastTwo(n);
    TextReadsBack(n);
    ZeroInFront(Text(n));
    NoLeadingZero(n);
  }

  lemma {:induction false} ExponentShown(digits: string, exponent: int)
    requires digits != "" && AllDigits(digits)
    ensures 'e' in Body(digits, exponent) <==> exponent < -4 || exponent >= 6
  {
    var body := Body(digits, exponent);
    if exponent < -4 || exponent >= 6 {
      assert body[|Mantissa(digits)|] == 'e';
    } else if exponent < 0 {
      DigitsOnly(digits);
      DigitsOnly(Zeros(-exponent - 1));
    } else {
      DigitsOnly(digits);
      DigitsOnly(Zeros(if |digits| <= exponent + 1 then exponent + 1 - |digits| else 0));
    }
  }

  /** Exponent form: the digits with a point behind the first, a sign, and at least two digits of exponent. */
  ghost predicate InExponentForm(body: string, digits: string, exponent: int)
    requires digits != ""
  {
    exists t: string ::
      && AllDigits(t) && NatOf(t) == Abs(exponent) && |t| >= 2 && (|t| > 2 ==> t[0] != '0')
      && body == digits[..1] + (if |digits| == 1 then "" else "." + digits[1..]) + "e" + ((if exponent < 0 then "-" else "+") + t)
  }

  lemma MantissaIs(digits: string)
    requires digits != ""
    ensures Mantissa(digits) == digits[..1] + (if |digits| == 1 then "" else "." + digits[1..])
  {
    if |digits| == 1 {
      assert digits == digits[..1] + "";
    } else {
      assert digits[..1] + "." + digits[1..] == digits[..1] + ("." + digits[1..]);
    }
  }

  lemma {:induction false} IsExponentForm(body: string, digits: string, exponent: int, mantissa: string, sign: string, t: string)
    requires digits != "" && AllDigits(t) && NatOf(t) == Abs(exponent) && |t| >= 2 && (|t| > 2 ==> t[0] != '0')
    requires mantissa == digits[..1] + (if |digits| == 1 then "" else "." + digits[1..])
    requires sign == (if exponent < 0 then "-" else "+") && body == mantissa + "e" + (sign + t)
    ensures InExponentForm(body, digits, exponent)
  {}

  lemma {:induction false} ExponentLaidOut(digits: string, exponent: int)
    requires digits != "" && AllDigits(digits) && (exponent < -4 || exponent >= 6)
    ensures InExponentForm(Body(digits, exponent), digits, exponent)
  {
    var t := ExponentDigits(exponent);
    MantissaIs(digits);
    IsExponentForm(Body(digits, exponent), digits, exponent, Mantissa(digits), if exponent < 0 then "-" else "+", t);
  }

  /** The layout: an exponent is written exactly if it is below -4 or at least 6; otherwise there is a point exactly if
      some digit is worth less than one. */
  lemma {:induction false} GoFloatLayout(negative: bool, digits: string, exponent: int) returns (body: string)
    requires digits != "" && AllDigits(digits)
    ensures GoFloat(Finite(negative, digits, exponent)) == (if negative then "-" else "") + body
    ensures 'e' in body <==> exponent < -4 || exponent >= 6
    ensures exponent < -4 || exponent >= 6 ==> InExponentForm(body, digits, exponent)
    ensures -4 <= exponent < 6 ==> ('.' in body <==> |digits| > exponent + 1)
  {
    body := Body(digits, exponent);
    ExponentShown(digits, exponent);
    if exponent < -4 || exponent >= 6 {
      ExponentLaidOut(digits, exponent);
    } else {
      PointShown(digits, exponent);
    }
  }

  lemma {:induction false} PointShown(digits: string, exponent: int)
    requires digits != "" && AllDigits(digits) && -4 <= exponent < 6
    ensures '.' in Body(digits, exponent) <==> |digits| > exponent + 1
  {
    var body := Body(digits, exponent);
    DigitsOnly(digits);
    if exponent < 0 {
      assert body[1] == '.';
    } else if |digits| <= exponent + 1 {
      DigitsOnly(Zeros(exponent + 1 - |digits|));
    } else {
      assert body[exponent + 1] == '.';
    }
  }

  /** The values without digits have texts of their own, which no number shares. */
  lemma {:induction false} SpecialTexts(negative: bool, digits: string, exponent: int)
    requires digits != "" && AllDigits(digits)
    ensures GoFloat(NotANumber) == "NaN" && GoFloat(Infinite(true)) == "-Inf" && GoFloat(Infinite(false)) == "+Inf"
    ensures GoFloat(Finite(negative, digits, exponent)) !in ["NaN", "-Inf", "+Inf"]
  {
    BodyStart(digits, exponent);
    var text, body := GoFloat(Finite(negative, digits, exponent)), Body(digits, exponent);
    assert if negative then text[1] == body[0] else text[0] == body[0];
  }
}
