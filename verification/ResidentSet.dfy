/** Resident set size out of `smaps` and `smaps_rollup`. */
module ResidentSet {
  import opened Wrappers
  import opened LineScanner
  import Decimals

  const SPACE: Byte := 32
  const PLUS: Byte := 43
  const RSS_LINE_PREFIX: Bytes := [82, 115, 115, 58, 32]

  /** One past the largest `usize`. */
  const USIZE_LIMIT := 0x1_0000_0000_0000_0000

  predicate IsDigit(b: Byte) {
    48 <= b <= 57
  }

  predicate AllDigits(b: Bytes) {
    forall i :: 0 <= i < |b| ==> IsDigit(b[i])
  }

  /** A line from its first digit on. */
  function SkipToLineValue(line: Bytes): Option<Bytes> {
    if line == [] then None
    else if IsDigit(line[0]) then Some(line)
    else SkipToLineValue(line[1..])
  }

  function Chars(b: Bytes): string {
    seq(|b|, i requires 0 <= i < |b| => (b[i] as int) as char)
  }

  function ParseUsize(raw: Bytes): Option<nat> {
    var digits := if raw != [] && raw[0] == PLUS then raw[1..] else raw;
    if digits == [] || !AllDigits(digits) then None
    else
      var n := Decimals.NatOf(Chars(digits));
      if n < USIZE_LIMIT then Some(n) else None
  }

  /** The number before the first space, in kibibytes; its size in bytes wraps. */
  function ParseKb(value: Bytes): Option<nat> {
    var i := Find(value, SPACE);
    if i == |value| then None
    else
      match ParseUsize(value[..i])
      case None => None
      case Some(n) => Some(n * 1024 % USIZE_LIMIT)
  }

  // ---------- over the plain lines ----------

  /** The size a value states, without wrapping; nothing for one that is not a number of kibibytes. */
  function Stated(value: Bytes): nat {
    var i := Find(value, SPACE);
    if i == |value| then 0
    else
      match ParseUsize(value[..i])
      case None => 0
      case Some(n) => n * 1024
  }

  function Plus(n: nat, total: Option<nat>): Option<nat> {
    if total.Some? then Some(n + total.value) else None
  }

  /** The exact total of the lines, unless one of them has no digit in it. */
  function Total(lines: seq<Bytes>): Option<nat> {
    if lines == [] then Some(0)
    else
      match SkipToLineValue(lines[0])
      case None => None
      case Some(value) => Plus(Stated(value), Total(lines[1..]))
  }

  /** What is reported for a total: the total as far as a `usize` holds it, and nothing if that is zero. */
  function Reported(total: Option<nat>): Option<nat> {
    if total.Some? && total.value % USIZE_LIMIT > 0 then Some(total.value % USIZE_LIMIT) else None
  }

  /** The first line that states a size, unless a line before it has no digit in it. */
  function First(lines: seq<Bytes>): Option<nat> {
    if lines == [] then None
    else
      match SkipToLineValue(lines[0])
      case None => None
      case Some(value) => if ParseKb(value).Some? then ParseKb(value) else First(lines[1..])
  }

  /** Wrapping at every step is wrapping once. */
  lemma WrappedSum(a: nat, b: nat)
    ensures (a % USIZE_LIMIT + b % USIZE_LIMIT) % USIZE_LIMIT == (a + b) % USIZE_LIMIT
  {}

  /** The running total after one more value. */
  function AddWrapping(total: nat, value: Bytes): nat {
    match ParseKb(value)
    case None => total
    case Some(bytes) => (total + bytes) % USIZE_LIMIT
  }

  function RunningTotal(total: nat, lines: seq<Bytes>): Option<nat>
    decreases |lines|
  {
    if lines == [] then Some(total)
    else
      match SkipToLineValue(lines[0])
      case None => None
      case Some(value) => RunningTotal(AddWrapping(total, value), lines[1..])
  }

  lemma AddsStated(exact: nat, value: Bytes)
    ensures AddWrapping(exact % USIZE_LIMIT, value) == (exact + Stated(value)) % USIZE_LIMIT
  {
    WrappedSum(exact, Stated(value));
  }

  /** The running total is the exact one, as far as a `usize` holds it. */
  lemma {:induction false} RunningIsTotal(exact: nat, lines: seq<Bytes>)
    ensures RunningTotal(exact % USIZE_LIMIT, lines) ==
            if Total(lines).Some? then Some((exact + Total(lines).value) % USIZE_LIMIT) else None
    decreases |lines|
  {
    if lines != [] && SkipToLineValue(lines[0]).Some? {
      var value := SkipToLineValue(lines[0]).value;
      AddsStated(exact, value);
      RunningIsTotal(exact + Stated(value), lines[1..]);
    }
  }

  // ---------- over the scanner ----------

  /** The scan of the `Rss:` lines still ahead. */
  ghost function RssScan(scanner: Scanner): Scan
    requires scanner.Valid()
    reads scanner
  {
    if scanner.io.Some? then ScanOf(scanner.capacity, RSS_LINE_PREFIX, scanner.Ahead()) else Scan([], true)
  }

  /** A line with no digit in it, at which either query gives up. */
  predicate GivesUp(lines: seq<Bytes>) {
    lines != [] && (SkipToLineValue(lines[0]).None? || GivesUp(lines[1..]))
  }

  /** A line that decides what the first size is. */
  predicate Decides(lines: seq<Bytes>) {
    lines != [] &&
    (SkipToLineValue(lines[0]).None? || ParseKb(SkipToLineValue(lines[0]).value).Some? || Decides(lines[1..]))
  }

  /** The first size stated. The scan needs to come to an end only if no line decides it. */
  method FirstRssValue(scanner: Scanner) returns (r: Option<nat>)
    requires scanner.Valid() && (RssScan(scanner).ends || Decides(RssScan(scanner).lines))
    modifies scanner
    ensures scanner.Valid() && r == old(First(RssScan(scanner).lines))
  {
    while true
      invariant scanner.Valid() && (RssScan(scanner).ends || Decides(RssScan(scanner).lines))
      invariant First(RssScan(scanner).lines) == old(First(RssScan(scanner).lines))
      decreases |RssScan(scanner).lines|
    {
      var found := scanner.NextMatchingLine(RSS_LINE_PREFIX);
      if found.Err? || found.value.None? {
        return None;
      }
      var value := SkipToLineValue(found.value.value);
      if value.None? {
        return None;
      }
      var bytes := ParseKb(value.value);
      if bytes.Some? {
        return bytes;
      }
    }
  }

  /** The sum of all sizes. The scan needs to come to an end unless a line makes the query give up. */
  method SumRssValues(scanner: Scanner) returns (r: Option<nat>)
    requires scanner.Valid() && (RssScan(scanner).ends || GivesUp(RssScan(scanner).lines))
    modifies scanner
    ensures scanner.Valid() && r == Reported(old(Total(RssScan(scanner).lines)))
  {
    var total: nat := 0;
    RunningIsTotal(0, RssScan(scanner).lines);
    while true
      invariant scanner.Valid() && (RssScan(scanner).ends || GivesUp(RssScan(scanner).lines))
      invariant RunningTotal(total, RssScan(scanner).lines) == old(RunningTotal(0, RssScan(scanner).lines))
      decreases |RssScan(scanner).lines|
    {
      var found := scanner.NextMatchingLine(RSS_LINE_PREFIX);
      if found.Err? || found.value.None? {
        break;
      }
      var value := SkipToLineValue(found.value.value);
      if value.None? {
        return None;
      }
      total := AddWrapping(total, value.value);
    }
    r := if total > 0 then Some(total) else None;
  }

  // ---------- the two queries ----------

  /** A query of `smaps`, whatever the scanner read before: the total over the plain lines of the file, if the
      file splits. */
  method SmapsResidentSet(scanner: Scanner, input: Bytes) returns (r: Option<nat>)
    requires scanner.Valid()
    requires
      var scan := ScanOf(scanner.capacity, RSS_LINE_PREFIX, input);
      scan.ends || GivesUp(scan.lines)
    modifies scanner
    ensures scanner.Valid() && r == Reported(Total(ScanOf(scanner.capacity, RSS_LINE_PREFIX, input).lines))
    ensures Splits(scanner.capacity, RSS_LINE_PREFIX, input) ==> r == Reported(Total(Matching(RSS_LINE_PREFIX, Lines(input))))
  {
    SplitsIff(scanner.capacity, RSS_LINE_PREFIX, input);
    scanner.Reset(input);
    r := SumRssValues(scanner);
  }

  /** A query of `smaps_rollup`: the first size its plain lines state, if the file splits. */
  method RollupResidentSet(scanner: Scanner, input: Bytes) returns (r: Option<nat>)
    requires scanner.Valid()
    requires
      var scan := ScanOf(scanner.capacity, RSS_LINE_PREFIX, input);
      scan.ends || Decides(scan.lines)
    modifies scanner
    ensures scanner.Valid() && r == First(ScanOf(scanner.capacity, RSS_LINE_PREFIX, input).lines)
    ensures Splits(scanner.capacity, RSS_LINE_PREFIX, input) ==> r == First(Matching(RSS_LINE_PREFIX, Lines(input)))
  {
    SplitsIff(scanner.capacity, RSS_LINE_PREFIX, input);
    scanner.Reset(input);
    r := FirstRssValue(scanner);
  }

  lemma {:induction false} FirstDecided(a: seq<Bytes>, b: seq<Bytes>)
    requires Decides(a)
    ensures Decides(a + b) && First(a + b) == First(a)
  {
    assert (a + b)[0] == a[0] && (a + b)[1..] == a[1..] + b;
    if SkipToLineValue(a[0]).Some? && ParseKb(SkipToLineValue(a[0]).value).None? {
      FirstDecided(a[1..], b);
    }
  }

  lemma {:induction false} MatchingConcat(prefix: Bytes, a: seq<Bytes>, b: seq<Bytes>)
    ensures Matching(prefix, a + b) == Matching(prefix, a) + Matching(prefix, b)
  {
    if a == [] {
      assert a + b == b;
    } else {
      assert (a + b)[1..] == a[1..] + b;
      MatchingConcat(prefix, a[1..], b);
    }
  }

  /** Once lines that fit the buffer decide the first size, what follows them makes no difference: the scan finds
      that size, and so does splitting the whole file. */
  lemma {:induction false} RollupHead(capacity: nat, lines: seq<Bytes>, rest: Bytes)
    requires 0 < capacity && (forall l :: l in lines ==> |l| < capacity && NEWLINE !in l)
    requires Decides(Matching(RSS_LINE_PREFIX, lines))
    ensures
      var input := Unlines(lines) + rest;
      && Decides(ScanOf(capacity, RSS_LINE_PREFIX, input).lines)
      && First(ScanOf(capacity, RSS_LINE_PREFIX, input).lines) == First(Matching(RSS_LINE_PREFIX, lines))
      && First(Matching(RSS_LINE_PREFIX, Lines(input))) == First(Matching(RSS_LINE_PREFIX, lines))
  {
    var wanted := Matching(RSS_LINE_PREFIX, lines);
    HeadScans(capacity, RSS_LINE_PREFIX, lines, rest);
    FirstDecided(wanted, ScanOf(capacity, RSS_LINE_PREFIX, rest).lines);
    HeadSplits(lines, rest);
    MatchingConcat(RSS_LINE_PREFIX, lines, Lines(rest));
    FirstDecided(wanted, Matching(RSS_LINE_PREFIX, Lines(rest)));
  }

  lemma {:induction false} TotalFirst(line: Bytes, rest: seq<Bytes>)
    ensures Total([line] + rest) ==
            if SkipToLineValue(line).Some? then Plus(Stated(SkipToLineValue(line).value), Total(rest)) else None
  {
    assert ([line] + rest)[1..] == rest;
  }

  ghost function Both(a: Option<nat>, b: Option<nat>): Option<nat> {
    if a.Some? then Plus(a.value, b) else None
  }

  lemma PlusBoth(n: nat, a: Option<nat>, b: Option<nat>)
    ensures Both(Plus(n, a), b) == Plus(n, Both(a, b))
  {}

  lemma {:induction false} TotalConcatFirst(line: Bytes, rest: seq<Bytes>, b: seq<Bytes>, all: seq<Bytes>)
    requires Total(rest + b) == Both(Total(rest), Total(b)) && all == [line] + (rest + b)
    ensures Total(all) == Both(Total([line] + rest), Total(b))
  {
    TotalFirst(line, rest);
    TotalFirst(line, rest + b);
    if SkipToLineValue(line).Some? {
      PlusBoth(Stated(SkipToLineValue(line).value), Total(rest), Total(b));
    }
  }

  /** Totals add up over any way of cutting the lines in two. */
  lemma {:induction false} TotalConcat(a: seq<Bytes>, b: seq<Bytes>)
    ensures Total(a + b) == Both(Total(a), Total(b))
    decreases |a|
  {
    if a == [] {
      assert a + b == b;
    } else {
      var line, rest := a[0], a[1..];
      assert a == [line] + rest && a + b == [line] + (rest + b);
      TotalConcat(rest, b);
      TotalConcatFirst(line, rest, b, a + b);
    }
  }

  // ---------- lines as the kernel writes them ----------

  function Repeat(b: Byte, k: nat): Bytes {
    seq(k, _ => b)
  }

  /** Decimal digits as bytes. */
  function Digits(s: string): (b: Bytes)
    requires Decimals.AllDigits(s)
    ensures |b| == |s| && AllDigits(b)
  {
    seq(|s|, i requires 0 <= i < |s| => s[i] as int as Byte)
  }

  /** `Rss:`, any number of blanks, a number, and ` kB`. */
  function KbLine(blanks: nat, n: nat): Bytes {
    RSS_LINE_PREFIX + Repeat(SPACE, blanks) + (Digits(Decimals.Text(n)) + [SPACE, 107, 66])
  }

  lemma {:induction false} SkipTo(before: Bytes, value: Bytes)
    requires (forall i :: 0 <= i < |before| ==> !IsDigit(before[i])) && value != [] && IsDigit(value[0])
    ensures SkipToLineValue(before + value) == Some(value)
    decreases |before|
  {
    if before == [] {
      assert before + value == value;
    } else {
      assert (before + value)[0] == before[0] && (before + value)[1..] == before[1..] + value;
      SkipTo(before[1..], value);
    }
  }

  lemma CharsOfDigits(s: string)
    requires Decimals.AllDigits(s)
    ensures Chars(Digits(s)) == s
  {}

  /** A number in decimal, with a plus sign or without, is read as that number if it fits a word. */
  lemma {:induction false} ParseDigits(n: nat)
    ensures ParseUsize(Digits(Decimals.Text(n))) == if n < USIZE_LIMIT then Some(n) else None
    ensures ParseUsize([PLUS] + Digits(Decimals.Text(n))) == if n < USIZE_LIMIT then Some(n) else None
  {
    Decimals.TextReadsBack(n);
    CharsOfDigits(Decimals.Text(n));
    var digits := Digits(Decimals.Text(n));
    assert ([PLUS] + digits)[1..] == digits;
  }

  /** And nothing else is read as a number. */
  lemma OnlyDigits(raw: Bytes)
    requires ParseUsize(raw).Some?
    ensures raw != [] && (raw[0] == PLUS ==> |raw| > 1)
    ensures forall i :: 0 <= i < |raw| ==> IsDigit(raw[i]) || (i == 0 && raw[i] == PLUS)
  {
    if raw[0] == PLUS {
      assert forall i :: 0 < i < |raw| ==> raw[i] == raw[1..][i - 1];
    }
  }

  lemma {:induction false} SpaceAfter(word: Bytes, after: Bytes)
    requires (forall i :: 0 <= i < |word| ==> word[i] != SPACE) && (after == [] || after[0] == SPACE)
    ensures Find(word + after, SPACE) == |word|
    decreases |word|
  {
    if word == [] {
      assert word + after == after;
    } else {
      assert (word + after)[1..] == word[1..] + after;
      SpaceAfter(word[1..], after);
    }
  }

  /** A line states nothing if its first digit begins a word that has anything but digits in it, or if no blank ends
      that word. */
  lemma {:induction false} StatesNothing(before: Bytes, word: Bytes, after: Bytes)
    requires forall i :: 0 <= i < |before| ==> !IsDigit(before[i])
    requires word != [] && IsDigit(word[0]) && (forall i :: 0 <= i < |word| ==> word[i] != SPACE)
    requires after == [] || (after[0] == SPACE && !AllDigits(word))
    ensures SkipToLineValue(before + (word + after)) == Some(word + after)
    ensures ParseKb(word + after) == None && Stated(word + after) == 0
  {
    SkipTo(before, word + after);
    SpaceAfter(word, after);
    assert (word + after)[..|word|] == word;
    assert word[0] != PLUS;
  }

  /** A line of `n` kB states `n` times 1024 bytes, modulo the size of a word, if `n` itself fits one. */
  lemma {:induction false} KbLineStates(blanks: nat, n: nat)
    ensures SkipToLineValue(KbLine(blanks, n)).Some?
    ensures
      var value := SkipToLineValue(KbLine(blanks, n)).value;
      && ParseKb(value) == (if n < USIZE_LIMIT then Some(n * 1024 % USIZE_LIMIT) else None)
      && Stated(value) == (if n < USIZE_LIMIT then n * 1024 else 0)
  {
    var before, digits := RSS_LINE_PREFIX + Repeat(SPACE, blanks), Digits(Decimals.Text(n));
    var value := digits + [SPACE, 107, 66];
    SkipTo(before, value);
    SpaceAfter(digits, [SPACE, 107, 66]);
    assert value[..|digits|] == digits;
    ParseDigits(n);
  }

  /** A line, by its blanks and its size. */
  datatype Size = Size(blanks: nat, kb: nat)

  function KbLines(sizes: seq<Size>): seq<Bytes> {
    seq(|sizes|, i requires 0 <= i < |sizes| => KbLine(sizes[i].blanks, sizes[i].kb))
  }

  function SumKb(sizes: seq<Size>): nat {
    if sizes == [] then 0 else (if sizes[0].kb < USIZE_LIMIT then sizes[0].kb else 0) + SumKb(sizes[1..])
  }

  lemma KbLinesFirst(sizes: seq<Size>)
    requires sizes != []
    ensures KbLines(sizes) == [KbLine(sizes[0].blanks, sizes[0].kb)] + KbLines(sizes[1..])
  {}

  /** The total of such lines is the sum of their sizes. */
  lemma {:induction false} KbTotal(sizes: seq<Size>)
    ensures Total(KbLines(sizes)) == Some(SumKb(sizes) * 1024)
  {
    if sizes != [] {
      KbTotal(sizes[1..]);
      KbLineStates(sizes[0].blanks, sizes[0].kb);
      KbLinesFirst(sizes);
      TotalFirst(KbLine(sizes[0].blanks, sizes[0].kb), KbLines(sizes[1..]));
    }
  }

  /** The first of them that fits a word is the first size. */
  lemma {:induction false} KbFirst(sizes: seq<Size>)
    requires sizes != [] && sizes[0].kb < USIZE_LIMIT
    ensures First(KbLines(sizes)) == Some(sizes[0].kb * 1024 % USIZE_LIMIT)
  {
    KbLineStates(sizes[0].blanks, sizes[0].kb);
    assert KbLines(sizes)[0] == KbLine(sizes[0].blanks, sizes[0].kb);
  }

  /** The sum is given up exactly if a line has no digit in it, and that is exactly when there is no total. */
  lemma {:induction false} GivesUpIff(lines: seq<Bytes>)
    ensures GivesUp(lines) <==> exists i :: 0 <= i < |lines| && SkipToLineValue(lines[i]).None?
    ensures GivesUp(lines) <==> Total(lines).None?
  {
    if lines != [] {
      GivesUpIff(lines[1..]);
      assert forall i :: 0 < i < |lines| ==> lines[i] == lines[1..][i - 1];
      if GivesUp(lines[1..]) {
        var i :| 0 <= i < |lines[1..]| && SkipToLineValue(lines[1..][i]).None?;
        assert lines[i + 1] == lines[1..][i];
      }
    }
  }

  /** The first size is decided exactly if a line states one or has no digit in it, and by the first such line. */
  lemma {:induction false} DecidesIff(lines: seq<Bytes>)
    ensures Decides(lines) <==> exists i :: 0 <= i < |lines| && Decides([lines[i]])
    ensures !Decides(lines) ==> First(lines) == None
  {
    if lines != [] {
      DecidesIff(lines[1..]);
      assert forall i :: 0 < i < |lines| ==> lines[i] == lines[1..][i - 1];
      assert Decides([lines[0]]) <==> SkipToLineValue(lines[0]).None? || ParseKb(SkipToLineValue(lines[0]).value).Some? by {
        assert [lines[0]][1..] == [];
      }
      if Decides(lines[1..]) {
        var i :| 0 <= i < |lines[1..]| && Decides([lines[1..][i]]);
        assert lines[i + 1] == lines[1..][i];
      }
    }
  }
}
