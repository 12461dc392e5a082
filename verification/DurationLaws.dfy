/** What duration strings mean: how close the parsed value is to the written one, and how strings combine. */
module DurationLaws {
  import opened Wrappers
  import opened Decimals
  import opened GoDuration

  // ---------- accuracy ----------

  /** Digits after a decimal point, as the number they stand for. */
  function Fractional(digits: string): real {
    if digits == [] then 0.0 else (DigitValue(digits[0]) as real + Fractional(digits[1..])) / 10.0
  }

  lemma {:induction false} FractionalIs(digits: string)
    ensures Fractional(digits) == NatOf(digits) as real / Pow10(|digits|) as real
  {
    if digits != [] {
      FractionalIs(digits[1..]);
      assert digits == digits[..1] + digits[1..];
      assert digits[..1][..0] == [] && NatOf(digits[..1]) == DigitValue(digits[0]);
      NatOfConcat(digits[..1], digits[1..]);
      PushDigit(DigitValue(digits[0]), NatOf(digits[1..]), Pow10(|digits| - 1));
    }
  }

  lemma PushDigit(d: nat, n: nat, p: nat)
    requires p > 0
    ensures (d as real + n as real / p as real) / 10.0 == (d * p + n) as real / (10 * p) as real
  {}

  /** `n` times `x`. */
  function Scaled(x: real, n: nat): real {
    if n == 0 then 0.0 else x + Scaled(x, n - 1)
  }

  lemma {:induction false} ScaledIs(x: real, n: nat)
    ensures Scaled(x, n) == x * n as real
  {
    if n > 0 {
      ScaledIs(x, n - 1);
    }
  }

  lemma {:induction false} ScaledAdd(x: real, y: real, n: nat)
    ensures Scaled(x + y, n) == Scaled(x, n) + Scaled(y, n)
  {
    if n > 0 {
      ScaledAdd(x, y, n - 1);
    }
  }

  /** The exact length of a component as written. */
  function Exact(c: Component): real {
    Scaled(NatOf(c.whole) as real + Fractional(c.frac), c.unit)
  }

  function ExactSum(cs: seq<Component>): real {
    if cs == [] then 0.0 else Exact(cs[0]) + ExactSum(cs[1..])
  }

  lemma QuotientReal(a: nat, b: nat)
    requires b > 0
    ensures 0.0 <= a as real / b as real - Quotient(a, b) as real < 1.0
  {
    var q, r := a / b, a % b;
    assert a == b * q + r;
    DivideSum(b, q, r);
  }

  lemma DivideSum(b: nat, q: nat, r: nat)
    requires r < b
    ensures (b * q + r) as real / b as real == q as real + r as real / b as real
    ensures 0.0 <= r as real / b as real < 1.0
  {
    var x, y := b as real, r as real;
    assert (b * q + r) as real == x * q as real + y;
    assert (x * q as real + y) / x == q as real + y / x;
  }

  lemma TailSmall(k: nat, s: nat, tail: nat, m: nat)
    requires s > 0 && tail < m
    ensures 0.0 <= (k * m + tail) as real / (s * m) as real - k as real / s as real < 1.0 / s as real
  {}

  /** Cutting a fraction to 18 digits loses less than one part in 10^18. */
  lemma CutFraction(frac: string)
    ensures 0.0 <= Fractional(frac) - Fractional(Kept(frac)) < 1.0 / 1_000_000_000_000_000_000.0
    ensures |frac| <= 18 ==> Fractional(frac) == Fractional(Kept(frac))
  {
    if |frac| > 18 {
      var tail := frac[18..];
      assert frac == Kept(frac) + tail;
      NatOfConcat(Kept(frac), tail);
      NatOfBound(tail);
      Pow10Sum(18, |tail|);
      Pow18();
      TailSmall(NatOf(Kept(frac)), Pow10(18), NatOf(tail), Pow10(|tail|));
      FractionalIs(frac);
      FractionalIs(Kept(frac));
    }
  }

  lemma {:induction false} ScaledSmall(d: real, n: nat)
    requires 0.0 <= d < 1.0 / 1_000_000_000_000_000_000.0
    ensures 0.0 <= Scaled(d, n) <= n as real / 1_000_000_000_000_000_000.0
  {
    if n > 0 {
      ScaledSmall(d, n - 1);
    }
  }

  lemma QuotientScaled(k: nat, u: nat, s: nat)
    requires s > 0
    ensures 0.0 <= Scaled(k as real / s as real, u) - Quotient(Times(k, u), s) as real < 1.0
  {
    QuotientReal(Times(k, u), s);
    MoveFactor(k, u, s);
    ScaledIs(k as real / s as real, u);
  }

  lemma FractionAccuracy(frac: string, unit: nat)
    ensures 0.0 <= Scaled(Fractional(Kept(frac)), unit) - FractionNanos(frac, unit) as real < 1.0
  {
    FractionalIs(Kept(frac));
    QuotientScaled(NatOf(Kept(frac)), unit, Pow10(|Kept(frac)|));
  }

  lemma TimesReal(w: nat, u: nat)
    ensures Times(w, u) as real == Scaled(w as real, u)
  {
    TimesIs(w, u);
    ScaledIs(w as real, u);
  }

  /** A component's value falls short of what is written by less than 1.0000036 ns, and not at all without a
      fraction. */
  lemma ComponentAccuracy(c: Component)
    requires c.unit <= 3_600_000_000_000
    ensures 0.0 <= Exact(c) - Nanos(c) as real < 1.0000036
    ensures c.frac == "" ==> Exact(c) == Nanos(c) as real
  {
    var w, f, g := NatOf(c.whole) as real, Fractional(c.frac), Fractional(Kept(c.frac));
    CutFraction(c.frac);
    ScaledSmall(f - g, c.unit);
    FractionAccuracy(c.frac, c.unit);
    ScaledAdd(w, f, c.unit);
    ScaledAdd(f - g, g, c.unit);
    assert f - g + g == f;
    TimesReal(NatOf(c.whole), c.unit);
    if c.frac == "" {
      NoFraction(c.unit);
    }
  }

  lemma {:induction false} NoFraction(unit: nat)
    ensures Scaled(0.0, unit) == 0.0 && FractionNanos("", unit) == 0
  {
    ScaledIs(0.0, unit);
    assert NatOf(Kept("")) == 0;
  }

  lemma MoveFactor(k: nat, u: nat, s: nat)
    requires s > 0
    ensures Times(k, u) as real / s as real == (k as real / s as real) * u as real
  {}

  /** The value of accepted components falls short of what is written by less than 1.0000036 ns for each, and
      not at all when there are no fractions. */
  lemma {:induction false} SumAccuracy(cs: seq<Component>)
    requires forall i :: 0 <= i < |cs| ==> cs[i].unit <= 3_600_000_000_000
    ensures 0.0 <= ExactSum(cs) - TotalNanos(cs) as real
    ensures cs != [] ==> ExactSum(cs) - TotalNanos(cs) as real < |cs| as real * 1.0000036
    ensures (forall i :: 0 <= i < |cs| ==> cs[i].frac == "") ==> ExactSum(cs) == TotalNanos(cs) as real
  {
    if cs != [] {
      ComponentAccuracy(cs[0]);
      SumAccuracy(cs[1..]);
      assert |cs| as real * 1.0000036 == 1.0000036 + |cs[1..]| as real * 1.0000036;
    }
  }

  lemma {:induction false} PiecesUnits(s: string)
    requires Components(s).Some?
    ensures forall i :: 0 <= i < |Components(s).value| ==> 0 < Components(s).value[i].unit <= 3_600_000_000_000
    ensures s != "" ==> Components(s).value != []
    decreases |s|
  {
    if s != "" {
      UnitOfComponent(s);
      PiecesUnits(ReadComponent(s).value.1);
    }
  }

  /** Every accepted string, other than a bare zero, is a sum of components, and the value is within
      1.0000036 ns for each of them of the exact sum, never above it, and equal to it without fractions. A
      minus sign is accepted only on zero. */
  lemma ParseAccuracy(s: string)
    requires Parse(s).Ok? && Unsigned(s) != "0"
    ensures Components(Unsigned(s)).Some?
    ensures
      var cs, t := Components(Unsigned(s)).value, Parse(s).value;
      && 0.0 <= ExactSum(cs) - t as real < |cs| as real * 1.0000036
      && ((forall i :: 0 <= i < |cs| ==> cs[i].frac == "") ==> ExactSum(cs) == t as real)
      && t <= MAX_DURATION_NANOS
      && (IsNegative(s) ==> t == 0)
  {
    AcceptedExactly(s, Parse(s).value);
    PiecesUnits(Unsigned(s));
    SumAccuracy(Components(Unsigned(s)).value);
  }

  // ---------- strings one after the other ----------

  lemma {:induction false} DigitEndLocal(s: string, b: string, from: nat)
    requires from <= |s| && DigitEnd(s, from) < |s|
    ensures DigitEnd(s + b, from) == DigitEnd(s, from)
    decreases |s| - from
  {
    assert (s + b)[from] == s[from];
    if IsDigit(s[from]) {
      DigitEndLocal(s, b, from + 1);
    }
  }

  lemma {:induction false} UnitEndLocal(s: string, b: string, from: nat)
    requires from <= |s| && (b == "" || !IsUnitChar(b[0]))
    ensures UnitEnd(s + b, from) == UnitEnd(s, from)
    decreases |s| - from
  {
    if from < |s| {
      assert (s + b)[from] == s[from];
      if IsUnitChar(s[from]) {
        UnitEndLocal(s, b, from + 1);
      }
    } else if b != "" {
      assert (s + b)[from] == b[0];
    }
  }

  lemma CutLocal(s: string, b: string)
    requires CutComponent(s).frac < CutComponent(s).unit && (b == "" || !IsUnitChar(b[0]))
    ensures CutComponent(s + b) == CutComponent(s)
  {
    var c := CutComponent(s);
    DigitEndLocal(s, b, 0);
    assert (s + b)[c.whole] == s[c.whole];
    if c.point != c.whole {
      DigitEndLocal(s, b, c.point);
    }
    UnitEndLocal(s, b, c.frac);
  }

  /** A component reads the same whatever follows it, as long as that cannot be more of its unit. */
  lemma ReadLocal(s: string, b: string)
    requires ReadComponent(s).Ok? && (b == "" || !IsUnitChar(b[0]))
    ensures ReadComponent(s + b) == Ok((ReadComponent(s).value.0, ReadComponent(s).value.1 + b))
  {
    var c := CutComponent(s);
    CutLocal(s, b);
    assert (s + b)[..c.whole] == s[..c.whole];
    assert (s + b)[c.point..c.frac] == s[c.point..c.frac];
    assert (s + b)[c.frac..c.unit] == s[c.frac..c.unit];
    assert (s + b)[c.unit..] == s[c.unit..] + b;
  }

  /** Reading a component off the front does not look into a following `b`. */
  ghost predicate Local<T(!new)>(read: Reader<T>, b: string) {
    forall s {:trigger read(s + b)} :: read(s).Ok? ==> read(s + b) == Ok((read(s).value.0, read(s).value.1 + b))
  }

  lemma {:induction false} PiecesConcat<T(!new)>(read: Reader<T>, a: string, b: string)
    requires Shrinks(read) && Pieces(read, a).Some? && Pieces(read, b).Some?
    requires Local(read, b)
    ensures Pieces(read, a + b) == Some(Pieces(read, a).value + Pieces(read, b).value)
    decreases |a|
  {
    if a == "" {
      assert a + b == b;
      assert [] + Pieces(read, b).value == Pieces(read, b).value;
    } else {
      var (c, next) := read(a).value;
      PiecesConcat(read, next, b);
      var more, rest := Pieces(read, next).value, Pieces(read, b).value;
      assert read(a + b) == Ok((c, next + b));
      assert [c] + (more + rest) == ([c] + more) + rest;
    }
  }

  lemma {:induction false} SumConcat<T>(weigh: T -> nat, a: seq<T>, b: seq<T>)
    ensures Sum(weigh, a + b) == Sum(weigh, a) + Sum(weigh, b)
    decreases |a|
  {
    if a == [] {
      assert a + b == b;
    } else {
      assert (a + b)[1..] == a[1..] + b;
      SumConcat(weigh, a[1..], b);
    }
  }

  /** A component starts with a digit or a point. */
  lemma ComponentStart(s: string)
    requires ReadComponent(s).Ok?
    ensures s != "" && (IsDigit(s[0]) || s[0] == '.')
  {}

  lemma ComponentsConcat(a: string, b: string)
    requires Components(a).Some? && Components(b).Some?
    ensures Components(a + b) == Some(Components(a).value + Components(b).value)
  {
    if b != "" {
      ComponentStart(b);
    }
    assert Local(ReadComponent, b) by {
      forall s | ReadComponent(s).Ok?
        ensures ReadComponent(s + b) == Ok((ReadComponent(s).value.0, ReadComponent(s).value.1 + b))
      {
        ReadLocal(s, b);
      }
    }
    PiecesConcat(ReadComponent, a, b);
  }

  lemma AcceptedUnsigned(s: string, t: nat)
    requires !Signed(s) && s != "0" && s != ""
    ensures Parse(s) == Ok(t) <==> Components(s).Some? && t == TotalNanos(Components(s).value) && t <= MAX_DURATION_NANOS
  {
    AcceptedExactly(s, t);
  }

  lemma JoinedUnsigned(a: string, b: string)
    requires !Signed(a) && a != "" && b != ""
    ensures !Signed(a + b) && a + b != "0" && a + b != ""
  {}

  lemma TotalConcat(a: string, b: string)
    requires Components(a).Some? && Components(b).Some?
    ensures Components(a + b).Some?
    ensures TotalNanos(Components(a + b).value) == TotalNanos(Components(a).value) + TotalNanos(Components(b).value)
  {
    ComponentsConcat(a, b);
    SumConcat(Nanos, Components(a).value, Components(b).value);
  }

  /** Two accepted unsigned strings with units, written one after the other, are accepted as the sum. */
  lemma ParseConcat(a: string, b: string)
    requires !Signed(a) && a != "" && a != "0" && Parse(a).Ok?
    requires !Signed(b) && b != "" && b != "0" && Parse(b).Ok?
    requires Parse(a).value + Parse(b).value <= MAX_DURATION_NANOS
    ensures Parse(a + b) == Ok(Parse(a).value + Parse(b).value)
  {
    AcceptedUnsigned(a, Parse(a).value);
    AcceptedUnsigned(b, Parse(b).value);
    TotalConcat(a, b);
    JoinedUnsigned(a, b);
    AcceptedUnsigned(a + b, Parse(a).value + Parse(b).value);
  }

  // ---------- the printed form ----------

  /** A duration as it is printed: whole seconds, then nanoseconds. */
  function Display(d: nat): string {
    Text(d / 1_000_000_000) + "s" + (Text(d % 1_000_000_000) + "ns")
  }

  lemma DigitsThenUnit(n: nat, unit: string)
    requires 1 <= |unit| <= 2 && IsUnitChar(unit[0]) && (|unit| == 2 ==> IsUnitChar(unit[1]))
    ensures CutComponent(Text(n) + unit) == Cuts(|Text(n)|, |Text(n)|, |Text(n)|, |Text(n) + unit|)
  {
    var s, k := Text(n) + unit, |Text(n)|;
    assert s[k] == unit[0] && (forall i :: 0 <= i < k ==> s[i] == Text(n)[i]);
    DigitEndIs(s, 0, k);
    if |unit| == 2 {
      assert s[k + 1] == unit[1];
      assert UnitEnd(s, k + 2) == k + 2;
    }
    assert UnitEnd(s, k + 1) == |s|;
  }

  lemma ReadOne(n: nat, unit: string)
    requires unit == "s" || unit == "ns"
    ensures ReadComponent(Text(n) + unit) == Ok((Component(Text(n), "", UnitNanos(unit)), ""))
  {
    var s, k := Text(n) + unit, |Text(n)|;
    DigitsThenUnit(n, unit);
    assert s[..k] == Text(n) && s[k..|s|] == unit && s[k..k] == "" && s[|s|..] == "";
  }

  lemma OnePiece<T(!new)>(read: Reader<T>, weigh: T -> nat, s: string, c: T)
    requires Shrinks(read) && s != "" && read(s) == Ok((c, ""))
    ensures Pieces(read, s) == Some([c]) && Sum(weigh, [c]) == weigh(c)
  {
    assert Pieces(read, "") == Some([]);
    assert [c] + [] == [c] && [c][1..] == [];
    assert Sum(weigh, []) == 0;
  }

  lemma WholeNanos(n: nat, unit: nat)
    ensures Nanos(Component(Text(n), "", unit)) == Times(n, unit)
  {
    NoFraction(unit);
    TextReadsBack(n);
  }

  /** A number with a unit is parsed as that many of the unit. */
  lemma ParseOne(n: nat, unit: string)
    requires unit == "s" || unit == "ns"
    requires Times(n, UnitNanos(unit)) <= MAX_DURATION_NANOS
    ensures !Signed(Text(n) + unit) && Text(n) + unit != "0"
    ensures Parse(Text(n) + unit) == Ok(Times(n, UnitNanos(unit)))
  {
    var s, c := Text(n) + unit, Component(Text(n), "", UnitNanos(unit));
    assert s[0] == Text(n)[0] && |s| >= 2;
    ReadOne(n, unit);
    OnePiece(ReadComponent, Nanos, s, c);
    WholeNanos(n, UnitNanos(unit));
    AcceptedUnsigned(s, Times(n, UnitNanos(unit)));
  }

  /** Every duration in range parses back from its printed form. */
  lemma DisplayRoundTrip(d: nat)
    requires d <= MAX_DURATION_NANOS
    ensures Parse(Display(d)) == Ok(d)
  {
    var secs, nanos := d / 1_000_000_000, d % 1_000_000_000;
    TimesIs(secs, 1_000_000_000);
    TimesIs(nanos, 1);
    ParseOne(secs, "s");
    ParseOne(nanos, "ns");
    ParseConcat(Text(secs) + "s", Text(nanos) + "ns");
  }
}
