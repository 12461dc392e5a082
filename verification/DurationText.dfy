/** Durations as they are written: which strings are accepted, and what the digits and unit names in them stand for. */
module DurationText {
  import opened Wrappers
  import opened Decimals
  import opened GoDuration
  import opened DurationLaws

  /** Every unit name, with its length in nanoseconds. */
  const UNITS: map<string, nat> := map[
    "ns" := 1,
    "us" := 1_000,
    "\U{00B5}s" := 1_000,
    "\U{03BC}s" := 1_000,
    "ms" := 1_000_000,
    "s" := 1_000_000_000,
    "m" := 60_000_000_000,
    "h" := 3_600_000_000_000]

  /** The characters a unit may be spelled with: the ASCII letters, the micro sign and the Greek mu. */
  predicate IsLetter(c: char) {
    var n := c as int;
    0x41 <= n <= 0x5A || 0x61 <= n <= 0x7A || n == 0xB5 || n == 0x3BC
  }

  lemma UnitLetters(c: char)
    ensures IsUnitChar(c) <==> IsLetter(c)
  {}

  lemma UnitsKnown(name: string)
    ensures UnitNanos(name) != 0 <==> name in UNITS
    ensures name in UNITS ==> UnitNanos(name) == UNITS[name]
    ensures name in UNITS ==> 1 <= |name| <= 2 && IsUnitChar(name[0]) && (|name| == 2 ==> IsUnitChar(name[1]))
  {
    assert |name| == 1 ==> name == [name[0]];
    assert |name| == 2 ==> name == [name[0], name[1]];
  }

  /** A number with a unit: digits, perhaps a point and digits after it, and the name of the unit. */
  datatype Part = Part(whole: string, point: bool, frac: string, unit: string) {
    predicate Valid() {
      && AllDigits(whole) && AllDigits(frac)
      && (whole != "" || frac != "")
      && (!point ==> frac == "")
      && unit in UNITS
    }

    function Number(): string {
      whole + (if point then "." else "") + frac
    }

    function Written(): string {
      Number() + unit
    }

    /** What is written, in nanoseconds. */
    function Length(): real
      requires unit in UNITS
    {
      (NatOf(whole) as real + Fractional(frac)) * UNITS[unit] as real
    }
  }

  ghost predicate AllValid(parts: seq<Part>) {
    forall i :: 0 <= i < |parts| ==> parts[i].Valid()
  }

  function Written(parts: seq<Part>): string {
    if parts == [] then "" else parts[0].Written() + Written(parts[1..])
  }

  ghost function Length(parts: seq<Part>): real
    requires AllValid(parts)
  {
    if parts == [] then 0.0 else parts[0].Length() + Length(parts[1..])
  }

  // ---------- reading one part ----------

  lemma {:induction false} UnitEndIs(s: string, from: nat, end: nat)
    requires from <= end <= |s| && (forall i :: from <= i < end ==> IsUnitChar(s[i])) && (end < |s| ==> !IsUnitChar(s[end]))
    ensures UnitEnd(s, from) == end
    decreases |s| - from
  {
    if from < end {
      UnitEndIs(s, from + 1, end);
    }
  }

  /** Where the pieces of a number end, whatever follows that is not more of it. */
  lemma {:induction false} CutNumber(p: Part, after: string)
    requires AllDigits(p.whole) && AllDigits(p.frac) && (!p.point ==> p.frac == "")
    requires after == "" || (!IsDigit(after[0]) && (p.point || after[0] != '.'))
    ensures
      var c, n := CutComponent(p.Number() + after), |p.whole|;
      && c.whole == n && c.point == (if p.point then n + 1 else n) && c.frac == |p.Number()|
      && c.unit == UnitEnd(p.Number() + after, |p.Number()|)
  {
    var s, n, m := p.Number() + after, |p.whole|, |p.Number()|;
    assert forall i :: 0 <= i < n ==> s[i] == p.whole[i];
    assert m < |s| ==> s[m] == after[0];
    if p.point {
      assert s[n] == '.';
      assert forall i :: n + 1 <= i < m ==> s[i] == p.frac[i - n - 1];
      DigitEndIs(s, n + 1, m);
    }
    DigitEndIs(s, 0, n);
  }

  lemma NumberSlices(p: Part, after: string)
    ensures
      var s, n := p.Number() + after, |p.whole|;
      && s[..n] == p.whole
      && s[if p.point then n + 1 else n..|p.Number()|] == p.frac
      && s[|p.Number()|..] == after
  {}

  lemma {:induction false} UnitAtEnd(number: string, unit: string)
    requires unit in UNITS
    ensures UnitEnd(number + unit, |number|) == |number + unit|
    ensures (number + unit)[|number|..] == unit
  {
    UnitsKnown(unit);
    UnitEndIs(number + unit, |number|, |number + unit|);
  }

  /** A part is read as what it is. */
  lemma {:induction false} ReadPart(p: Part)
    requires p.Valid()
    ensures ReadComponent(p.Written()) == Ok((Component(p.whole, p.frac, UNITS[p.unit]), ""))
  {
    UnitsKnown(p.unit);
    CutNumber(p, p.unit);
    NumberSlices(p, p.unit);
    UnitAtEnd(p.Number(), p.unit);
    assert p.Written()[|p.Written()|..] == "";
  }

  function AsComponent(p: Part): Component
    requires p.unit in UNITS
  {
    Component(p.whole, p.frac, UNITS[p.unit])
  }

  ghost function AsComponents(parts: seq<Part>): seq<Component>
    requires AllValid(parts)
  {
    if parts == [] then [] else [AsComponent(parts[0])] + AsComponents(parts[1..])
  }

  /** A text of parts is read as those parts. */
  lemma {:induction false} ReadParts(parts: seq<Part>)
    requires AllValid(parts)
    ensures Components(Written(parts)) == Some(AsComponents(parts))
  {
    if parts != [] {
      var p := parts[0];
      ReadPart(p);
      OnePiece(ReadComponent, Nanos, p.Written(), AsComponent(p));
      ReadParts(parts[1..]);
      ComponentsConcat(p.Written(), Written(parts[1..]));
    }
  }

  // ---------- what a text is worth ----------

  lemma {:induction false} PartLength(p: Part)
    requires p.unit in UNITS
    ensures Exact(AsComponent(p)) == p.Length()
  {
    ScaledIs(NatOf(p.whole) as real + Fractional(p.frac), UNITS[p.unit]);
  }

  lemma {:induction false} SameLength(parts: seq<Part>)
    requires AllValid(parts)
    ensures ExactSum(AsComponents(parts)) == Length(parts) && |AsComponents(parts)| == |parts|
    ensures forall i :: 0 <= i < |parts| ==> AsComponents(parts)[i] == AsComponent(parts[i])
  {
    if parts != [] {
      SameLength(parts[1..]);
      PartLength(parts[0]);
      assert AsComponents(parts)[1..] == AsComponents(parts[1..]);
    }
  }

  lemma TextStart(parts: seq<Part>)
    requires parts != [] && AllValid(parts)
    ensures Written(parts) != "" && Written(parts) != "0" && !Signed(Written(parts)) && !IsUnitChar(Written(parts)[0])
  {
    var p := parts[0];
    UnitsKnown(p.unit);
    var s := Written(parts);
    assert p.Number() != "" && s[0] == p.Number()[0] && s[|p.Number()|] == p.unit[0];
    assert p.whole != "" ==> s[0] == p.whole[0];
    assert p.whole == "" ==> s[0] == '.';
  }

  lemma {:induction false} AcceptsTotal(s: string, body: string, cs: seq<Component>)
    requires Unsigned(s) == body && body != "" && body != "0" && Components(body) == Some(cs)
    ensures
      var t := TotalNanos(cs);
      && (t < U128_LIMIT ==> Parse(s) == Finish(IsNegative(s), t))
      && (t >= U128_LIMIT ==> Parse(s).Err?)
  {
    if TotalNanos(cs) < U128_LIMIT {
      NextNanosReads();
      ScanComplete(NextNanos, ReadComponent, Nanos, body, 0);
    } else if Parse(s).Ok? {
      AcceptedExactly(s, Parse(s).value);
    }
  }

  /** What any text of parts is worth: a whole number of nanoseconds that falls short of the written length by less
      than 1.0000036 ns for each part, and not at all without fractions. The text is accepted as that exactly if it
      is in range, with a plus sign as without, and with a minus sign exactly if it is zero. */
  lemma {:induction false} TextAccuracy(parts: seq<Part>) returns (t: nat)
    requires parts != [] && AllValid(parts)
    ensures 0.0 <= Length(parts) - t as real < |parts| as real * 1.0000036
    ensures (forall i :: 0 <= i < |parts| ==> parts[i].frac == "") ==> Length(parts) == t as real
    ensures t <= MAX_DURATION_NANOS ==> Parse(Written(parts)) == Ok(t)
    ensures MAX_DURATION_NANOS < t < U128_LIMIT ==> Parse(Written(parts)) == Err(TooLong)
    ensures t >= U128_LIMIT ==> Parse(Written(parts)).Err?
    ensures Parse("+" + Written(parts)).Ok? <==> t <= MAX_DURATION_NANOS
    ensures Parse("+" + Written(parts)).Ok? ==> Parse("+" + Written(parts)) == Ok(t)
    ensures Parse("-" + Written(parts)).Ok? <==> t == 0
    ensures 0 < t < U128_LIMIT ==> Parse("-" + Written(parts)) == Err(Negative)
  {
    var s, cs := Written(parts), AsComponents(parts);
    ReadParts(parts);
    SameLength(parts);
    SumAccuracy(cs);
    TextStart(parts);
    t := TotalNanos(cs);
    AcceptsTotal(s, s, cs);
    AcceptsTotal("+" + s, s, cs);
    AcceptsTotal("-" + s, s, cs);
  }

  // ---------- what is accepted ----------

  lemma {:induction false} DigitRun(s: string, from: nat)
    requires from <= |s|
    ensures AllDigits(s[from..DigitEnd(s, from)])
    decreases |s| - from
  {
    if from < |s| && IsDigit(s[from]) {
      DigitRun(s, from + 1);
      assert s[from..DigitEnd(s, from)] == [s[from]] + s[from + 1..DigitEnd(s, from)];
    }
  }

  /** What is read as a component is written as a part. */
  lemma {:induction false} WrittenPart(s: string) returns (p: Part)
    requires ReadComponent(s).Ok?
    ensures p.Valid() && s == p.Written() + ReadComponent(s).value.1
  {
    var c := CutComponent(s);
    p := Part(s[..c.whole], c.point != c.whole, s[c.point..c.frac], s[c.frac..c.unit]);
    DigitRun(s, 0);
    DigitRun(s, c.point);
    assert s[0..c.whole] == s[..c.whole];
    UnitsKnown(p.unit);
    assert p.point ==> s[c.whole..c.point] == ".";
    assert s == s[..c.whole] + s[c.whole..c.point] + s[c.point..c.frac] + s[c.frac..c.unit] + s[c.unit..];
  }

  lemma {:induction false} WrittenParts(s: string) returns (parts: seq<Part>)
    requires Components(s).Some?
    ensures AllValid(parts) && s == Written(parts)
    decreases |s|
  {
    if s == "" {
      parts := [];
    } else {
      var p := WrittenPart(s);
      var more := WrittenParts(ReadComponent(s).value.1);
      parts := [p] + more;
      assert parts[1..] == more;
    }
  }

  predicate WithSign(s: string, body: string) {
    s == body || s == "+" + body || s == "-" + body
  }

  lemma SignStripped(s: string)
    ensures WithSign(s, Unsigned(s))
  {
    if Signed(s) {
      assert s == [s[0]] + s[1..];
    }
  }

  /** Every accepted string is, after an optional sign, a bare zero or parts one after the other. */
  lemma {:induction false} AcceptedIsText(s: string) returns (parts: seq<Part>)
    requires Parse(s).Ok?
    ensures AllValid(parts)
    ensures WithSign(s, if parts == [] then "0" else Written(parts))
  {
    var body := Unsigned(s);
    SignStripped(s);
    if body == "0" {
      parts := [];
    } else {
      AcceptedExactly(s, Parse(s).value);
      parts := WrittenParts(body);
    }
  }

  // ---------- what is refused, and why ----------

  /** A number needs a digit, before its point or after it. */
  lemma NeedsDigits(s: string)
    requires s == "" || !IsDigit(s[0])
    requires |s| >= 2 && s[0] == '.' ==> !IsDigit(s[1])
    ensures NextNanos(s) == Err(Invalid(ExpectedDigits))
  {}

  /** A number needs a unit. */
  lemma {:induction false} NeedsUnit(p: Part, after: string)
    requires AllDigits(p.whole) && AllDigits(p.frac) && (p.whole != "" || p.frac != "") && (!p.point ==> p.frac == "")
    requires after == "" || (!IsDigit(after[0]) && (p.point || after[0] != '.') && !IsLetter(after[0]))
    ensures NextNanos(p.Number() + after) == Err(Invalid(MissingUnit))
  {
    CutNumber(p, after);
    var s, m := p.Number() + after, |p.Number()|;
    if m < |s| {
      assert s[m] == after[0];
      UnitLetters(s[m]);
    }
    UnitEndIs(s, m, m);
    assert ReadComponent(s) == Err(Invalid(MissingUnit));
  }

  lemma {:induction false} CutUnit(number: string, unit: string, after: string)
    requires (forall i :: 0 <= i < |unit| ==> IsLetter(unit[i])) && (after == "" || !IsLetter(after[0]))
    ensures
      var s, m := number + (unit + after), |number|;
      UnitEnd(s, m) == m + |unit| && s[m..m + |unit|] == unit
  {
    var s, m, e := number + (unit + after), |number|, |number| + |unit|;
    forall i | m <= i < e ensures IsUnitChar(s[i]) {
      assert s[i] == unit[i - m];
      UnitLetters(s[i]);
    }
    if e < |s| {
      assert s[e] == after[0];
      UnitLetters(s[e]);
    }
    UnitEndIs(s, m, e);
  }

  /** The letters after a number must be the name of a unit. */
  lemma {:induction false} NeedsKnownUnit(p: Part, after: string)
    requires AllDigits(p.whole) && AllDigits(p.frac) && (p.whole != "" || p.frac != "") && (!p.point ==> p.frac == "")
    requires p.unit != "" && (forall i :: 0 <= i < |p.unit| ==> IsLetter(p.unit[i])) && p.unit !in UNITS
    requires after == "" || !IsLetter(after[0])
    ensures NextNanos(p.Number() + (p.unit + after)) == Err(Invalid(UnknownUnit))
  {
    UnitLetters(p.unit[0]);
    CutNumber(p, p.unit + after);
    CutUnit(p.Number(), p.unit, after);
    UnitsKnown(p.unit);
    assert ReadComponent(p.Number() + (p.unit + after)) == Err(Invalid(UnknownUnit));
  }

  /** A number must fit in 128 bits, before and after it is counted in nanoseconds. */
  lemma {:induction false} NeedsRoom(p: Part, after: string)
    requires p.Valid() && (after == "" || !IsLetter(after[0]))
    ensures NatOf(p.whole) >= U128_LIMIT ==> NextNanos(p.Written() + after) == Err(Invalid(IntegerOverflow))
    ensures NatOf(p.whole) < U128_LIMIT && Nanos(AsComponent(p)) >= U128_LIMIT ==>
              NextNanos(p.Written() + after) == Err(Invalid(MathOverflow))
  {
    ReadPart(p);
    if after != "" {
      UnitLetters(after[0]);
    }
    ReadLocal(p.Written(), after);
    UnitsKnown(p.unit);
    CheckedIsNanos(AsComponent(p));
  }

  lemma {:induction false} NextPart(p: Part, tail: string)
    requires p.Valid() && Nanos(AsComponent(p)) < U128_LIMIT && (tail == "" || !IsUnitChar(tail[0]))
    ensures NextNanos(p.Written() + tail) == Ok((Nanos(AsComponent(p)), tail))
  {
    ReadPart(p);
    ReadLocal(p.Written(), tail);
    assert "" + tail == tail;
    UnitsKnown(p.unit);
    CheckedIsNanos(AsComponent(p));
  }

  /** The parts can be added to `total` in 128 bits. */
  ghost predicate Fits(total: nat, parts: seq<Part>) {
    AllValid(parts) && total + TotalNanos(AsComponents(parts)) < U128_LIMIT
  }

  lemma {:induction false} FitsRest(total: nat, parts: seq<Part>)
    requires parts != [] && Fits(total, parts)
    ensures total + Nanos(AsComponent(parts[0])) < U128_LIMIT
    ensures Fits(total + Nanos(AsComponent(parts[0])), parts[1..])
    ensures TotalNanos(AsComponents(parts)) == Nanos(AsComponent(parts[0])) + TotalNanos(AsComponents(parts[1..]))
  {
    assert AsComponents(parts)[1..] == AsComponents(parts[1..]);
  }

  lemma {:induction false} UnitEnds(parts: seq<Part>, bad: string)
    requires AllValid(parts) && bad != "" && !IsUnitChar(bad[0])
    ensures !IsUnitChar((Written(parts) + bad)[0])
  {
    if parts != [] {
      TextStart(parts);
      assert (Written(parts) + bad)[0] == Written(parts)[0];
    }
  }

  lemma {:induction false} NextWritten(parts: seq<Part>, bad: string)
    requires parts != [] && AllValid(parts) && Nanos(AsComponent(parts[0])) < U128_LIMIT && bad != "" && !IsUnitChar(bad[0])
    ensures NextNanos(Written(parts) + bad) == Ok((Nanos(AsComponent(parts[0])), Written(parts[1..]) + bad))
  {
    UnitEnds(parts[1..], bad);
    NextPart(parts[0], Written(parts[1..]) + bad);
    assert Written(parts) + bad == parts[0].Written() + (Written(parts[1..]) + bad);
  }

  lemma {:induction false} ScanOn(read: Reader<nat>, s: string, total: nat)
    requires Shrinks(read) && s != "" && read(s).Ok? && total + read(s).value.0 < U128_LIMIT
    ensures Scan(read, s, total) == Scan(read, read(s).value.1, total + read(s).value.0)
  {}

  /** What `bad` starts with cannot be read, or cannot be added to `total`. */
  ghost predicate Faulty(total: nat, bad: string, error: Error) {
    match NextNanos(bad)
    case Err(e) => e == error
    case Ok((ns, _)) => total + ns >= U128_LIMIT && error == Invalid(MathOverflow)
  }

  lemma {:induction false} ScanFaults(read: Reader<nat>, bad: string, total: nat, error: Error)
    requires Shrinks(read) && ReadsNanos(read) && bad != "" && Faulty(total, bad, error)
    ensures Scan(read, bad, total) == Err(error)
  {
    assert read(bad) == NextNanos(bad);
  }

  lemma {:induction false} ScanPast(read: Reader<nat>, parts: seq<Part>, bad: string, total: nat)
    requires Shrinks(read) && ReadsNanos(read) && parts != [] && Fits(total, parts) && bad != "" && !IsUnitChar(bad[0])
    ensures Scan(read, Written(parts) + bad, total) ==
            Scan(read, Written(parts[1..]) + bad, total + Nanos(AsComponent(parts[0])))
  {
    FitsRest(total, parts);
    NextWritten(parts, bad);
    UnitEnds(parts, bad);
    assert read(Written(parts) + bad) == NextNanos(Written(parts) + bad);
    ScanOn(read, Written(parts) + bad, total);
  }

  lemma {:induction false} ScanStops(read: Reader<nat>, parts: seq<Part>, bad: string, total: nat, error: Error)
    requires Shrinks(read) && ReadsNanos(read) && Fits(total, parts)
    requires bad != "" && (parts != [] ==> !IsUnitChar(bad[0]))
    requires Faulty(total + TotalNanos(AsComponents(parts)), bad, error)
    ensures Scan(read, Written(parts) + bad, total) == Err(error)
    decreases |parts|
  {
    if parts == [] {
      assert Written(parts) + bad == bad;
      ScanFaults(read, bad, total, error);
    } else {
      FitsRest(total, parts);
      ScanPast(read, parts, bad, total);
      ScanStops(read, parts[1..], bad, total + Nanos(AsComponent(parts[0])), error);
    }
  }

  /** A string is refused for the first thing in it that cannot be read or added up. */
  lemma {:induction false} FirstFault(s: string, parts: seq<Part>, bad: string, error: Error)
    requires AllValid(parts) && Length(parts) < U128_LIMIT as real
    requires Unsigned(s) == Written(parts) + bad && Unsigned(s) != "0" && bad != "" && (parts != [] ==> !IsLetter(bad[0]))
    requires Faulty(TotalNanos(AsComponents(parts)), bad, error)
    ensures Parse(s) == Err(error)
  {
    SameLength(parts);
    SumAccuracy(AsComponents(parts));
    NextNanosReads();
    UnitLetters(bad[0]);
    ScanStops(NextNanos, parts, bad, 0, error);
  }
}
