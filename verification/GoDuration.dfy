/** Duration strings in the format of Go's `time.ParseDuration`, restricted to values that are not negative. */
module GoDuration {
  import opened Wrappers
  import opened Decimals

  const U128_LIMIT: nat := 0x1_0000_0000_0000_0000_0000_0000_0000_0000
  const MAX_DURATION_NANOS: nat := 0x7FFF_FFFF_FFFF_FFFF

  datatype Reason = Empty | ExpectedDigits | MissingUnit | UnknownUnit | IntegerOverflow | MathOverflow
  datatype Error = Invalid(reason: Reason) | Negative | TooLong

  // ---------- one component ----------

  predicate IsUnitChar(c: char) {
    'a' <= c <= 'z' || 'A' <= c <= 'Z' || c == '\U{00B5}' || c == '\U{03BC}'
  }

  /** Where the run of unit characters from `from` ends. */
  function UnitEnd(s: string, from: nat): (end: nat)
    requires from <= |s|
    ensures from <= end <= |s|
    decreases |s| - from
  {
    if from < |s| && IsUnitChar(s[from]) then UnitEnd(s, from + 1) else from
  }

  /** The length of a unit in nanoseconds, or zero if there is no such unit. */
  function UnitNanos(unit: string): (ns: nat)
    ensures ns <= 3_600_000_000_000
  {
    if |unit| == 1 then
      match unit[0]
      case 's' => 1_000_000_000
      case 'm' => 60 * 1_000_000_000
      case 'h' => 3_600 * 1_000_000_000
      case _ => 0
    else if |unit| == 2 && unit[1] == 's' then
      match unit[0]
      case 'n' => 1
      case 'u' => 1_000
      case '\U{00B5}' => 1_000
      case '\U{03BC}' => 1_000
      case 'm' => 1_000_000
      case _ => 0
    else 0
  }

  /** A number with a unit, as written: digits before and after the point, and the unit's length. */
  datatype Component = Component(whole: string, frac: string, unit: nat)

  /** Where the parts of the component that `s` starts with end: the whole digits, the point if there is one,
      the digits after it, and the unit. */
  datatype Cuts = Cuts(whole: nat, point: nat, frac: nat, unit: nat)

  function CutComponent(s: string): (c: Cuts)
    ensures c.whole <= c.point <= c.frac <= c.unit <= |s|
  {
    var whole := DigitEnd(s, 0);
    var point := if whole < |s| && s[whole] == '.' then whole + 1 else whole;
    var frac := if point == whole then point else DigitEnd(s, point);
    Cuts(whole, point, frac, UnitEnd(s, frac))
  }

  /** The component `s` starts with and what follows it. */
  function ReadComponent(s: string): (r: Result<(Component, string), Error>)
    ensures r.Ok? ==> |r.value.1| < |s|
  {
    var c := CutComponent(s);
    var unit := UnitNanos(s[c.frac..c.unit]);
    if c.whole == 0 && c.point == c.frac then Err(Invalid(ExpectedDigits))
    else if c.frac == c.unit then Err(Invalid(MissingUnit))
    else if unit == 0 then Err(Invalid(UnknownUnit))
    else Ok((Component(s[..c.whole], s[c.point..c.frac], unit), s[c.unit..]))
  }

  /** The digits of a fraction that count: at most 18. */
  function Kept(frac: string): (s: string)
    ensures |s| <= 18
  {
    if |frac| <= 18 then frac else frac[..18]
  }

  function Quotient(a: nat, b: nat): nat
    requires b > 0
  {
    a / b
  }

  /** The product, by recursion, so that a proof meets the nonlinear form only where it asks for it. */
  function Times(a: nat, b: nat): nat {
    if a == 0 then 0 else b + Times(a - 1, b)
  }

  lemma {:induction false} TimesIs(a: nat, b: nat)
    ensures Times(a, b) == a * b
  {
    if a > 0 {
      TimesIs(a - 1, b);
    }
  }

  method Multiply(a: nat, b: nat) returns (product: nat)
    ensures product == Times(a, b)
  {
    TimesIs(a, b);
    product := a * b;
  }

  /** The nanoseconds of a fraction, cut to a whole number. */
  function FractionNanos(frac: string, unit: nat): nat {
    Quotient(Times(NatOf(Kept(frac)), unit), Pow10(|Kept(frac)|))
  }

  function Nanos(c: Component): nat {
    Times(NatOf(c.whole), c.unit) + FractionNanos(c.frac, c.unit)
  }

  /** The nanoseconds of a component in checked 128-bit arithmetic. */
  function CheckedNanos(c: Component): Result<nat, Error> {
    if NatOf(c.whole) >= U128_LIMIT then Err(Invalid(IntegerOverflow))
    else if Times(NatOf(c.whole), c.unit) >= U128_LIMIT then Err(Invalid(MathOverflow))
    else if Times(NatOf(Kept(c.frac)), c.unit) >= U128_LIMIT then Err(Invalid(MathOverflow))
    else if Nanos(c) >= U128_LIMIT then Err(Invalid(MathOverflow))
    else Ok(Nanos(c))
  }

  // ---------- the whole string ----------

  /** The nanoseconds of the component `s` starts with, and what follows it. */
  function NextNanos(s: string): (r: Result<(nat, string), Error>)
    ensures r.Ok? ==> |r.value.1| < |s|
  {
    match ReadComponent(s)
    case Err(error) => Err(error)
    case Ok((c, rest)) =>
      match CheckedNanos(c)
      case Err(error) => Err(error)
      case Ok(ns) => Ok((ns, rest))
  }

  /** Reads one component off the front of a string: what it is and what follows it. */
  type Reader<!T> = string -> Result<(T, string), Error>

  ghost predicate Shrinks<T(!new)>(read: Reader<T>) {
    forall s :: read(s).Ok? ==> |read(s).value.1| < |s|
  }

  /** The sum of the components of `rest`, on top of `total`. */
  function Scan(read: Reader<nat>, rest: string, total: nat): Result<nat, Error>
    requires Shrinks(read)
    decreases |rest|
  {
    if rest == "" then Ok(total)
    else
      match read(rest)
      case Err(error) => Err(error)
      case Ok((ns, next)) => if total + ns >= U128_LIMIT then Err(Invalid(MathOverflow)) else Scan(read, next, total + ns)
  }

  /** One component's checked arithmetic: the whole part, the scale of the fraction, and the two together. */
  method ComponentNanos(c: Component) returns (r: Result<nat, Error>)
    ensures r == CheckedNanos(c)
  {
    if NatOf(c.whole) >= U128_LIMIT {
      return Err(Invalid(IntegerOverflow));
    }
    var ns := Multiply(NatOf(c.whole), c.unit);
    if ns >= U128_LIMIT {
      return Err(Invalid(MathOverflow));
    }
    var keep := Kept(c.frac);
    var scale := 1;
    for i := 0 to |keep|
      invariant scale == Pow10(i)
    {
      scale := scale * 10;
    }
    var product := Multiply(NatOf(keep), c.unit);
    if product >= U128_LIMIT {
      return Err(Invalid(MathOverflow));
    }
    ns := ns + Quotient(product, scale);
    if ns >= U128_LIMIT {
      return Err(Invalid(MathOverflow));
    }
    return Ok(ns);
  }

  /** A name for `NextNanos` that a proof need not look behind. */
  ghost predicate ReadsNanos(read: Reader<nat>) {
    forall s {:trigger NextNanos(s)} :: read(s) == NextNanos(s)
  }

  /** The loop's step: one component off the front. */
  method NextComponent(ghost read: Reader<nat>, rest: string) returns (r: Result<(nat, string), Error>)
    requires ReadsNanos(read)
    ensures r == read(rest)
  {
    assert read(rest) == NextNanos(rest);
    match ReadComponent(rest) {
      case Err(error) =>
        r := Err(error);
      case Ok((c, next)) =>
        var ns := ComponentNanos(c);
        match ns {
          case Err(error) =>
            r := Err(error);
          case Ok(value) =>
            r := Ok((value, next));
        }
    }
  }

  /** The loop over components. */
  method SumComponents(ghost read: Reader<nat>, body: string) returns (r: Result<nat, Error>)
    requires Shrinks(read) && ReadsNanos(read)
    ensures r == Scan(read, body, 0)
  {
    var rest := body;
    var total: nat := 0;
    while rest != ""
      invariant Scan(read, body, 0) == Scan(read, rest, total)
      decreases |rest|
    {
      var step := NextComponent(read, rest);
      match step {
        case Err(error) =>
          return Err(error);
        case Ok((ns, next)) =>
          if total + ns >= U128_LIMIT {
            return Err(Invalid(MathOverflow));
          }
          rest, total := next, total + ns;
      }
    }
    return Ok(total);
  }

  predicate Signed(s: string) {
    s != "" && (s[0] == '+' || s[0] == '-')
  }

  function Unsigned(s: string): string {
    if Signed(s) then s[1..] else s
  }

  predicate IsNegative(s: string) {
    s != "" && s[0] == '-'
  }

  function Finish(negative: bool, total: nat): Result<nat, Error> {
    if negative && total != 0 then Err(Negative)
    else if total > MAX_DURATION_NANOS then Err(TooLong)
    else Ok(total)
  }

  function Parse(s: string): Result<nat, Error> {
    var body := Unsigned(s);
    if body == "0" then Ok(0)
    else if body == "" then Err(Invalid(Empty))
    else
      match Scan(NextNanos, body, 0)
      case Err(error) => Err(error)
      case Ok(total) => Finish(IsNegative(s), total)
  }

  /** `parse_duration`: the sign, the bare zero, the loop over components, and the range. */
  method ParseDuration(s: string) returns (r: Result<nat, Error>)
    ensures r == Parse(s)
  {
    var rest, negative := s, false;
    if rest != "" && (rest[0] == '+' || rest[0] == '-') {
      negative := rest[0] == '-';
      rest := rest[1..];
    }
    if rest == "0" {
      return Ok(0);
    }
    if rest == "" {
      return Err(Invalid(Empty));
    }
    var sum := SumComponents(NextNanos, rest);
    match sum {
      case Err(error) =>
        r := Err(error);
      case Ok(total) =>
        if negative && total != 0 {
          r := Err(Negative);
        } else if total > MAX_DURATION_NANOS {
          r := Err(TooLong);
        } else {
          r := Ok(total);
        }
    }
  }

  // ---------- what is accepted ----------

  /** The components of a string that is nothing but components. */
  function Pieces<T(!new)>(read: Reader<T>, s: string): Option<seq<T>>
    requires Shrinks(read)
    decreases |s|
  {
    if s == "" then Some([])
    else
      match read(s)
      case Err(_) => None
      case Ok((c, next)) =>
        match Pieces(read, next)
        case None => None
        case Some(more) => Some([c] + more)
  }

  function Sum<T>(weigh: T -> nat, cs: seq<T>): nat {
    if cs == [] then 0 else weigh(cs[0]) + Sum(weigh, cs[1..])
  }

  lemma {:induction false} ScanSound<T(!new)>(read: Reader<nat>, parts: Reader<T>, weigh: T -> nat, rest: string, total: nat)
    requires Shrinks(read) && Shrinks(parts) && Scan(read, rest, total).Ok?
    requires forall s :: read(s).Ok? ==> parts(s).Ok? && read(s).value == (weigh(parts(s).value.0), parts(s).value.1)
    ensures Pieces(parts, rest).Some? && Scan(read, rest, total) == Ok(total + Sum(weigh, Pieces(parts, rest).value))
    decreases |rest|
  {
    if rest != "" {
      var (ns, next) := read(rest).value;
      ScanSound(read, parts, weigh, next, total + ns);
      var more := Pieces(parts, next).value;
      assert ([parts(rest).value.0] + more)[1..] == more;
    }
  }

  lemma {:induction false} ScanComplete<T(!new)>(read: Reader<nat>, parts: Reader<T>, weigh: T -> nat, rest: string, total: nat)
    requires Shrinks(read) && Shrinks(parts) && Pieces(parts, rest).Some?
    requires forall s :: parts(s).Ok? && weigh(parts(s).value.0) < U128_LIMIT ==>
               read(s) == Ok((weigh(parts(s).value.0), parts(s).value.1))
    requires total + Sum(weigh, Pieces(parts, rest).value) < U128_LIMIT
    ensures Scan(read, rest, total) == Ok(total + Sum(weigh, Pieces(parts, rest).value))
    decreases |rest|
  {
    if rest != "" {
      var (c, next) := parts(rest).value;
      var more := Pieces(parts, next).value;
      assert ([c] + more)[1..] == more;
      ScanComplete(read, parts, weigh, next, total + weigh(c));
    }
  }

  lemma Pow18()
    ensures Pow10(18) == 1_000_000_000_000_000_000
  {
    assert Pow10(6) == 1_000_000;
    Pow10Sum(6, 6);
    Pow10Sum(12, 6);
  }

  lemma Pow10Grows(a: nat, b: nat)
    requires a <= b
    ensures Pow10(a) <= Pow10(b)
    decreases b
  {}

  lemma ProductBelow(a: nat, x: nat, b: nat, y: nat)
    requires a < x && b <= y && 0 < y
    ensures Times(a, b) < Times(x, y)
  {}

  lemma ProductAbove(a: nat, b: nat)
    requires b > 0
    ensures a <= Times(a, b)
  {}

  /** The product of a fraction's digits and its unit always fits in 128 bits. */
  lemma FractionNeverOverflows(frac: string, unit: nat)
    requires unit <= 3_600_000_000_000
    ensures Times(NatOf(Kept(frac)), unit) < U128_LIMIT
  {
    NatOfBound(Kept(frac));
    Pow10Grows(|Kept(frac)|, 18);
    Pow18();
    ProductBelow(NatOf(Kept(frac)), 1_000_000_000_000_000_000, unit, 3_600_000_000_000);
    TimesIs(1_000_000_000_000_000_000, 3_600_000_000_000);
  }

  /** A component is accepted exactly when its nanoseconds fit in 128 bits. */
  lemma CheckedIsNanos(c: Component)
    requires 0 < c.unit <= 3_600_000_000_000
    ensures CheckedNanos(c).Ok? <==> Nanos(c) < U128_LIMIT
    ensures CheckedNanos(c).Ok? ==> CheckedNanos(c).value == Nanos(c)
  {
    FractionNeverOverflows(c.frac, c.unit);
    ProductAbove(NatOf(c.whole), c.unit);
  }

  lemma UnitOfComponent(s: string)
    requires ReadComponent(s).Ok?
    ensures 0 < ReadComponent(s).value.0.unit <= 3_600_000_000_000
  {}

  function Components(s: string): Option<seq<Component>> {
    Pieces(ReadComponent, s)
  }

  function TotalNanos(cs: seq<Component>): nat {
    Sum(Nanos, cs)
  }

  /** A string is accepted as `t` nanoseconds exactly when it is a bare zero, or nothing but components that
      add up to `t`, within range and not negative. */
  lemma AcceptedExactly(s: string, t: nat)
    ensures
      var body := Unsigned(s);
      Parse(s) == Ok(t) <==>
        || (body == "0" && t == 0)
        || (body != "" && body != "0" && Components(body).Some? && t == TotalNanos(Components(body).value) &&
            t <= MAX_DURATION_NANOS && (IsNegative(s) ==> t == 0))
  {
    var body := Unsigned(s);
    if body != "" && body != "0" {
      NextNanosReads();
      if Scan(NextNanos, body, 0).Ok? {
        ScanSound(NextNanos, ReadComponent, Nanos, body, 0);
      }
      if Components(body).Some? && TotalNanos(Components(body).value) < U128_LIMIT {
        ScanComplete(NextNanos, ReadComponent, Nanos, body, 0);
      }
    }
  }

  lemma NextNanosReads()
    ensures forall s :: NextNanos(s).Ok? ==>
              ReadComponent(s).Ok? && NextNanos(s).value == (Nanos(ReadComponent(s).value.0), ReadComponent(s).value.1)
    ensures forall s :: ReadComponent(s).Ok? && Nanos(ReadComponent(s).value.0) < U128_LIMIT ==>
              NextNanos(s) == Ok((Nanos(ReadComponent(s).value.0), ReadComponent(s).value.1))
  {
    forall s | ReadComponent(s).Ok?
      ensures NextNanos(s).Ok? <==> Nanos(ReadComponent(s).value.0) < U128_LIMIT
      ensures NextNanos(s).Ok? ==> NextNanos(s).value == (Nanos(ReadComponent(s).value.0), ReadComponent(s).value.1)
    {
      UnitOfComponent(s);
      CheckedIsNanos(ReadComponent(s).value.0);
    }
  }
}
