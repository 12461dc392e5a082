/** Duration settings: a Go duration, or a bare integer count of nanoseconds, with blanks around it. */
module DurationStrings {
  import opened Wrappers
  import opened Decimals
  import opened GoDuration
  import opened DurationLaws

  predicate IsBlank(c: char) {
    c == ' ' || '\U{0009}' <= c <= '\U{000D}' || c == '\U{0085}' || c == '\U{00A0}' || c == '\U{1680}' ||
    '\U{2000}' <= c <= '\U{200A}' || c == '\U{2028}' || c == '\U{2029}' || c == '\U{202F}' || c == '\U{205F}' ||
    c == '\U{3000}'
  }

  /** The code points with the Unicode property White_Space. */
  const WHITE_SPACE := {
    0x0009, 0x000A, 0x000B, 0x000C, 0x000D, 0x0020, 0x0085, 0x00A0, 0x1680,
    0x2000, 0x2001, 0x2002, 0x2003, 0x2004, 0x2005, 0x2006, 0x2007, 0x2008, 0x2009, 0x200A,
    0x2028, 0x2029, 0x202F, 0x205F, 0x3000}

  lemma BlanksAre(c: char)
    ensures IsBlank(c) <==> c as int in WHITE_SPACE
  {}

  function TrimStart(s: string): string {
    if s != "" && IsBlank(s[0]) then TrimStart(s[1..]) else s
  }

  function TrimEnd(s: string): string {
    if s != "" && IsBlank(s[|s| - 1]) then TrimEnd(s[..|s| - 1]) else s
  }

  function Trim(s: string): string {
    TrimEnd(TrimStart(s))
  }

  const I128_LIMIT: nat := 0x8000_0000_0000_0000_0000_0000_0000_0000

  /** A signed 128-bit integer: an optional sign and at least one digit. */
  function ParseI128(s: string): Option<int> {
    var digits := Unsigned(s);
    if digits == "" || !AllDigits(digits) then None
    else if IsNegative(s) then (if NatOf(digits) > I128_LIMIT then None else Some(0 - NatOf(digits)))
    else if NatOf(digits) >= I128_LIMIT then None
    else Some(NatOf(digits))
  }

  function ParseOrNanos(s: string): Result<nat, Error> {
    var trimmed := Trim(s);
    match Parse(trimmed)
    case Ok(d) => Ok(d)
    case Err(error) =>
      match ParseI128(trimmed)
      case None => Err(error)
      case Some(n) =>
        if n < 0 then Err(Negative)
        else if n > MAX_DURATION_NANOS then Err(TooLong)
        else Ok(n)
  }

  lemma TrimKeeps(s: string)
    requires s != "" && !IsBlank(s[0]) && !IsBlank(s[|s| - 1])
    ensures Trim(s) == s
  {}

  lemma {:induction false} TrimBlanks(before: string, s: string, after: string)
    requires (forall i :: 0 <= i < |before| ==> IsBlank(before[i])) && (forall i :: 0 <= i < |after| ==> IsBlank(after[i]))
    ensures Trim(before + s + after) == Trim(s)
  {
    assert before + s + after == before + (s + after);
    BlanksBefore(before, s + after);
    if exists i :: 0 <= i < |s| && !IsBlank(s[i]) {
      TrimInside(s, after);
      BlanksAfter(TrimStart(s), after);
    } else {
      AllBlank(s);
      AllBlank(s + after);
    }
  }

  lemma {:induction false} TrimInside(s: string, after: string)
    requires exists i :: 0 <= i < |s| && !IsBlank(s[i])
    ensures TrimStart(s + after) == TrimStart(s) + after
  {
    assert (s + after)[0] == s[0];
    if IsBlank(s[0]) {
      assert (s + after)[1..] == s[1..] + after;
      var i :| 0 <= i < |s| && !IsBlank(s[i]);
      assert !IsBlank(s[1..][i - 1]);
      TrimInside(s[1..], after);
    }
  }

  lemma {:induction false} AllBlank(s: string)
    requires forall i :: 0 <= i < |s| ==> IsBlank(s[i])
    ensures Trim(s) == "" && TrimStart(s) == ""
  {
    if s != "" {
      AllBlank(s[1..]);
    }
  }

  /** Blanks around a setting make no difference to what it is read as, whatever the setting. */
  lemma BlanksIgnored(before: string, s: string, after: string)
    requires forall i :: 0 <= i < |before| ==> before[i] as int in WHITE_SPACE
    requires forall i :: 0 <= i < |after| ==> after[i] as int in WHITE_SPACE
    ensures ParseOrNanos(before + s + after) == ParseOrNanos(s)
  {
    forall i | 0 <= i < |before| ensures IsBlank(before[i]) { BlanksAre(before[i]); }
    forall i | 0 <= i < |after| ensures IsBlank(after[i]) { BlanksAre(after[i]); }
    TrimBlanks(before, s, after);
  }

  lemma {:induction false} BlanksBefore(before: string, s: string)
    requires forall i :: 0 <= i < |before| ==> IsBlank(before[i])
    ensures TrimStart(before + s) == TrimStart(s)
  {
    if before == "" {
      assert before + s == s;
    } else {
      assert (before + s)[0] == before[0] && (before + s)[1..] == before[1..] + s;
      BlanksBefore(before[1..], s);
    }
  }

  lemma {:induction false} BlanksAfter(s: string, after: string)
    requires forall i :: 0 <= i < |after| ==> IsBlank(after[i])
    ensures TrimEnd(s + after) == TrimEnd(s)
  {
    if after == "" {
      assert s + after == s;
    } else {
      var n := |after| - 1;
      assert (s + after)[|s + after| - 1] == after[n] && (s + after)[..|s + after| - 1] == s + after[..n];
      BlanksAfter(s, after[..n]);
    }
  }

  /** A setting prints as text that reads back as the same duration. */
  lemma SettingRoundTrip(d: nat)
    requires d <= MAX_DURATION_NANOS
    ensures ParseOrNanos(Display(d)) == Ok(d)
  {
    DisplayRoundTrip(d);
    var s := Display(d);
    assert s[0] == Text(d / 1_000_000_000)[0] && s[|s| - 1] == 's';
    TrimKeeps(s);
  }

  lemma {:induction false} DigitsHaveNoUnit(s: string)
    requires AllDigits(Unsigned(s)) && Unsigned(s) != "" && Unsigned(s) != "0"
    ensures Parse(s) == Err(Invalid(MissingUnit))
  {
    var digits := Unsigned(s);
    DigitEndIs(digits, 0, |digits|);
    assert CutComponent(digits) == Cuts(|digits|, |digits|, |digits|, |digits|);
    assert ReadComponent(digits) == Err(Invalid(MissingUnit));
    assert NextNanos(digits) == Err(Invalid(MissingUnit));
  }

  lemma {:induction false} SignedDigits(sign: string, digits: string)
    requires sign in ["", "+", "-"] && AllDigits(digits) && digits != ""
    ensures Trim(sign + digits) == sign + digits && Unsigned(sign + digits) == digits
    ensures IsNegative(sign + digits) <==> sign == "-"
  {
    var s := sign + digits;
    assert s[|s| - 1] == digits[|digits| - 1] && s[|sign|] == digits[0];
    assert sign == "" ==> s == digits;
    TrimKeeps(s);
  }

  lemma {:induction false} ZeroDigit()
    ensures NatOf("0") == 0
  {
    assert "0"[..0] == "";
  }

  /** A bare integer, signed or not, is that many nanoseconds, up to the longest duration there is; below zero it is
      refused as negative, and one too long for 128 bits is refused for want of a unit. */
  lemma {:induction false} BareInteger(sign: string, digits: string)
    requires sign in ["", "+", "-"] && AllDigits(digits) && digits != ""
    ensures
      var n := NatOf(digits);
      ParseOrNanos(sign + digits) ==
        if n == 0 then Ok(0)
        else if sign == "-" then (if n <= I128_LIMIT then Err(Negative) else Err(Invalid(MissingUnit)))
        else if n <= MAX_DURATION_NANOS then Ok(n)
        else if n < I128_LIMIT then Err(TooLong) else Err(Invalid(MissingUnit))
  {
    SignedDigits(sign, digits);
    ZeroDigit();
    if digits != "0" {
      DigitsHaveNoUnit(sign + digits);
    }
  }

  ghost predicate IsInteger(s: string) {
    exists sign, digits :: sign in ["", "+", "-"] && AllDigits(digits) && digits != "" && s == sign + digits
  }

  lemma {:induction false} OnlyIntegers(s: string)
    requires ParseI128(s).Some?
    ensures IsInteger(s)
  {
    var sign := if Signed(s) then [s[0]] else "";
    assert s == sign + Unsigned(s);
    assert sign == "" || sign == "+" || sign == "-";
  }

  /** Anything else is read as a Go duration, or refused for the reason it is none. Only blanks around it are left off. */
  lemma {:induction false} OtherwiseDuration(s: string)
    requires s != "" && s[0] as int !in WHITE_SPACE && s[|s| - 1] as int !in WHITE_SPACE && !IsInteger(s)
    ensures ParseOrNanos(s) == Parse(s)
  {
    BlanksAre(s[0]);
    BlanksAre(s[|s| - 1]);
    TrimKeeps(s);
    if ParseI128(s).Some? {
      OnlyIntegers(s);
    }
  }
}
