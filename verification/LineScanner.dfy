/** The procfs scanner: a fixed buffer over a reader, out of which it hands the lines that start with a
    prefix. The reader fills the space it is offered until its input ends. */
module LineScanner {
  import opened Wrappers

  newtype Byte = x: int | 0 <= x < 256
  type Bytes = seq<Byte>

  const NEWLINE: Byte := 10

  /** The position of the first `c`, or the length if there is none. */
  function Find(b: Bytes, c: Byte): (i: nat)
    ensures i <= |b| && (i < |b| ==> b[i] == c)
    ensures forall j :: 0 <= j < i ==> b[j] != c
  {
    if b == [] || b[0] == c then 0 else 1 + Find(b[1..], c)
  }

  // ---------- plain line splitting ----------

  /** The newline-terminated lines of a text. */
  function Lines(text: Bytes): seq<Bytes> {
    var i := Find(text, NEWLINE);
    if i == |text| then [] else [text[..i]] + Lines(text[i + 1..])
  }

  /** What follows the last newline. */
  function Tail(text: Bytes): Bytes {
    var i := Find(text, NEWLINE);
    if i == |text| then text else Tail(text[i + 1..])
  }

  function Unlines(lines: seq<Bytes>): Bytes {
    if lines == [] then [] else lines[0] + [NEWLINE] + Unlines(lines[1..])
  }

  function Matching(prefix: Bytes, lines: seq<Bytes>): seq<Bytes> {
    if lines == [] then []
    else (if prefix <= lines[0] then [lines[0]] else []) + Matching(prefix, lines[1..])
  }

  lemma FindIs(b: Bytes, c: Byte, i: nat)
    requires i <= |b| && (i < |b| ==> b[i] == c) && forall j :: 0 <= j < i ==> b[j] != c
    ensures Find(b, c) == i
  {}

  lemma CutAt(text: Bytes, i: nat)
    requires i < |text|
    ensures text == text[..i] + [text[i]] + text[i + 1..]
  {}

  lemma UnlinesCons(l: Bytes, lines: seq<Bytes>, tail: Bytes, rest: Bytes, text: Bytes)
    requires Unlines(lines) + tail == rest && text == l + [NEWLINE] + rest
    ensures Unlines([l] + lines) + tail == text
  {}

  /** Splitting loses nothing and adds nothing: the lines and the tail make up the text. */
  lemma {:induction false} SplitIsWhole(text: Bytes)
    ensures Unlines(Lines(text)) + Tail(text) == text
  {
    var i := Find(text, NEWLINE);
    if i < |text| {
      var rest := text[i + 1..];
      SplitIsWhole(rest);
      CutAt(text, i);
      UnlinesCons(text[..i], Lines(rest), Tail(rest), rest, text);
    }
  }

  /** No line has a newline in it, and neither does the tail. */
  lemma {:induction false} SplitHasNoNewline(text: Bytes)
    ensures NEWLINE !in Tail(text) && forall l :: l in Lines(text) ==> NEWLINE !in l
  {
    var i := Find(text, NEWLINE);
    if i < |text| {
      SplitHasNoNewline(text[i + 1..]);
    }
  }

  lemma {:induction false} SplitCons(l: Bytes, rest: Bytes, text: Bytes)
    requires NEWLINE !in l && text == l + [NEWLINE] + rest
    ensures Lines(text) == [l] + Lines(rest) && Tail(text) == Tail(rest)
  {
    FindIs(text, NEWLINE, |l|);
    assert text[..|l|] == l && text[|l| + 1..] == rest;
  }

  /** Any newline-free lines, written out, split back into themselves. */
  lemma {:induction false} SplitBack(lines: seq<Bytes>, tail: Bytes)
    requires NEWLINE !in tail && forall l :: l in lines ==> NEWLINE !in l
    ensures Lines(Unlines(lines) + tail) == lines && Tail(Unlines(lines) + tail) == tail
  {
    if lines == [] {
      assert Unlines(lines) + tail == tail;
      FindIs(tail, NEWLINE, |tail|);
    } else {
      var rest := Unlines(lines[1..]) + tail;
      SplitBack(lines[1..], tail);
      assert Unlines(lines) + tail == lines[0] + [NEWLINE] + rest;
      SplitCons(lines[0], rest, Unlines(lines) + tail);
    }
  }

  lemma Regroup(l: Bytes, a: seq<Bytes>, b: seq<Bytes>)
    ensures [l] + (a + b) == [l] + a + b && [] + a == a
  {}

  /** Newline-terminated lines split off the front of whatever follows them. */
  lemma {:induction false} HeadSplits(lines: seq<Bytes>, rest: Bytes)
    requires forall l :: l in lines ==> NEWLINE !in l
    ensures Lines(Unlines(lines) + rest) == lines + Lines(rest)
  {
    if lines == [] {
      assert Unlines(lines) + rest == rest && lines + Lines(rest) == Lines(rest);
    } else {
      var more := Unlines(lines[1..]) + rest;
      HeadSplits(lines[1..], rest);
      assert Unlines(lines) + rest == lines[0] + [NEWLINE] + more;
      SplitCons(lines[0], more, Unlines(lines) + rest);
      Regroup(lines[0], lines[1..], Lines(rest));
      assert [lines[0]] + lines[1..] == lines;
    }
  }

  // ---------- one turn of the scanning loop ----------

  /** What the reader still has, whether it has said that it is done, the bytes buffered, and how many of
      them the next turn drops. */
  datatype State = State(rest: Bytes, eof: bool, buf: Bytes, pending: Option<nat>)

  datatype Turn = Exhausted | Found(line: Bytes, next: State) | Again(next: State)

  predicate Sound(capacity: nat, s: State) {
    && |s.buf| <= capacity && 0 < capacity
    && (s.pending.Some? ==> 0 < s.pending.value <= |s.buf|)
    && (s.eof ==> s.rest == [])
  }

  function Drained(capacity: nat, s: State): (d: State)
    requires Sound(capacity, s)
    ensures Sound(capacity, d)
  {
    if s.pending.Some? then s.(buf := s.buf[s.pending.value..], pending := None) else s
  }

  function Filled(capacity: nat, s: State): (f: State)
    requires Sound(capacity, s) && s.pending.None?
    ensures Sound(capacity, f) && f.pending.None? && f.buf + f.rest == s.buf + s.rest
    ensures |f.buf| < capacity ==> f.rest == []
    ensures f.buf == [] ==> f.eof
  {
    if s.eof || |s.buf| == capacity then s
    else
      var space := capacity - |s.buf|;
      var n := if |s.rest| < space then |s.rest| else space;
      s.(eof := n == 0, buf := s.buf + s.rest[..n], rest := s.rest[n..])
  }

  /** What becomes of a filled buffer. */
  function FromBuffer(prefix: Bytes, f: State): Turn {
    var i := Find(f.buf, NEWLINE);
    if prefix <= f.buf then
      if i < |f.buf| then Found(f.buf[..i], f.(pending := Some(i + 1))) else Again(f)
    else
      if i < |f.buf| then Again(f.(pending := Some(i + 1))) else Again(f.(buf := []))
  }

  function TurnOf(capacity: nat, prefix: Bytes, s: State): (t: Turn)
    requires Sound(capacity, s)
    ensures t.Found? || t.Again? ==> Sound(capacity, t.next)
  {
    if s.eof && s.buf == [] then Exhausted else FromBuffer(prefix, Filled(capacity, Drained(capacity, s)))
  }

  /** The bytes no turn has passed over yet. */
  function Unread(capacity: nat, s: State): Bytes
    requires Sound(capacity, s)
  {
    Drained(capacity, s).buf + s.rest
  }

  // ---------- what one turn does ----------

  /** The buffer between turns: nothing, or what is left behind a line about to be dropped. */
  predicate Between(s: State) {
    s.pending.None? ==> s.buf == []
  }

  /** A whole line, with its newline, fits the buffer. */
  predicate LineFirst(capacity: nat, text: Bytes) {
    Find(text, NEWLINE) < |text| && Find(text, NEWLINE) < capacity
  }

  /** How much of the text fits the buffer. */
  function Fill(capacity: nat, text: Bytes): (n: nat)
    ensures n <= |text| && n <= capacity && (n < capacity ==> n == |text|)
  {
    if |text| < capacity then |text| else capacity
  }

  /** The buffer, once filled, starts with the prefix. */
  predicate Starts(capacity: nat, prefix: Bytes, text: Bytes) {
    prefix <= text[..Fill(capacity, text)]
  }

  /** The buffer starts with the prefix and holds no newline: there is no line to hand out, and none to drop. */
  predicate Stuck(capacity: nat, prefix: Bytes, text: Bytes) {
    text != [] && !LineFirst(capacity, text) && Starts(capacity, prefix, text)
  }

  lemma FoundInBuffer(capacity: nat, f: State)
    requires Sound(capacity, f) && (|f.buf| < capacity ==> f.rest == [])
    ensures
      var i, text := Find(f.buf, NEWLINE), f.buf + f.rest;
      && text[..Fill(capacity, text)] == f.buf && text[Fill(capacity, text)..] == f.rest
      && (i < |f.buf| <==> LineFirst(capacity, text))
      && (i < |f.buf| ==> Find(text, NEWLINE) == i && text[..i] == f.buf[..i] && text[i + 1..] == f.buf[i + 1..] + f.rest)
  {
    var i, text := Find(f.buf, NEWLINE), f.buf + f.rest;
    assert Fill(capacity, text) == |f.buf|;
    assert forall j :: 0 <= j < i ==> text[j] == f.buf[j];
    if i < |f.buf| {
      FindIs(text, NEWLINE, i);
    }
  }

  /** What a turn passes over: the first line, if the buffer has all of it, and else everything in the buffer. */
  function Left(capacity: nat, text: Bytes): Bytes {
    if LineFirst(capacity, text) then text[Find(text, NEWLINE) + 1..] else text[Fill(capacity, text)..]
  }

  /** The turn went past the front of `text`, handing out a line exactly if it had one and the buffer started with
      the prefix. */
  ghost predicate Passes(capacity: nat, prefix: Bytes, text: Bytes, t: Turn, left: Bytes) {
    && left == Left(capacity, text)
    && (if LineFirst(capacity, text) && Starts(capacity, prefix, text) then t.Found? && t.line == text[..Find(text, NEWLINE)]
        else t.Again?)
  }

  ghost predicate Smaller(capacity: nat, next: State, s: State)
    requires Sound(capacity, s) && Sound(capacity, next)
  {
    || |Unread(capacity, next)| < |Unread(capacity, s)|
    || (|Unread(capacity, next)| == |Unread(capacity, s)| && next.eof && (!s.eof || |next.buf| < |s.buf|))
  }

  lemma {:induction false} LinePassed(capacity: nat, prefix: Bytes, f: State)
    requires Sound(capacity, f) && (|f.buf| < capacity ==> f.rest == []) && Find(f.buf, NEWLINE) < |f.buf|
    ensures
      var t := FromBuffer(prefix, f);
      && Sound(capacity, t.next) && Between(t.next)
      && Passes(capacity, prefix, f.buf + f.rest, t, Unread(capacity, t.next)) && |Unread(capacity, t.next)| < |f.buf + f.rest|
  {
    var i, text, t := Find(f.buf, NEWLINE), f.buf + f.rest, FromBuffer(prefix, f);
    FoundInBuffer(capacity, f);
    assert t.next == f.(pending := Some(i + 1));
    assert Unread(capacity, t.next) == text[i + 1..];
  }

  lemma ChunkPassed(capacity: nat, prefix: Bytes, f: State)
    requires Sound(capacity, f) && f.pending.None? && !Stuck(capacity, prefix, f.buf + f.rest)
    requires (|f.buf| < capacity ==> f.rest == []) && (f.buf == [] ==> f.eof) && Find(f.buf, NEWLINE) == |f.buf|
    ensures
      var t := FromBuffer(prefix, f);
      && Sound(capacity, t.next) && Between(t.next)
      && Passes(capacity, prefix, f.buf + f.rest, t, Unread(capacity, t.next))
      && t.next.buf == [] && t.next.rest == f.rest && (f.buf == [] ==> t.next.eof)
  {
    FoundInBuffer(capacity, f);
  }

  lemma BufferPasses(capacity: nat, prefix: Bytes, s: State, f: State)
    requires Sound(capacity, s) && Sound(capacity, f) && f.pending.None?
    requires Unread(capacity, s) == f.buf + f.rest && !Stuck(capacity, prefix, f.buf + f.rest)
    requires (|f.buf| < capacity ==> f.rest == []) && (f.buf == [] ==> f.eof) && !(s.eof && s.buf == [])
    ensures
      var t := FromBuffer(prefix, f);
      && Sound(capacity, t.next) && Between(t.next)
      && Passes(capacity, prefix, Unread(capacity, s), t, Unread(capacity, t.next)) && Smaller(capacity, t.next, s)
  {
    if Find(f.buf, NEWLINE) < |f.buf| {
      LinePassed(capacity, prefix, f);
    } else {
      ChunkPassed(capacity, prefix, f);
    }
  }

  /** Unless it is stuck, a turn goes past the front of the text and leaves less to do. */
  lemma TurnPasses(capacity: nat, prefix: Bytes, s: State)
    requires Sound(capacity, s) && Between(s) && !Stuck(capacity, prefix, Unread(capacity, s))
    ensures
      var t := TurnOf(capacity, prefix, s);
      if t.Exhausted? then Unread(capacity, s) == []
      else Between(t.next) && Passes(capacity, prefix, Unread(capacity, s), t, Unread(capacity, t.next)) && Smaller(capacity, t.next, s)
  {
    if s.eof && s.buf == [] {
      assert Unread(capacity, s) == [];
    } else {
      BufferPasses(capacity, prefix, s, Filled(capacity, Drained(capacity, s)));
    }
  }

  // ---------- what a scan does, for every text ----------

  /** The lines a scan hands out, and whether it comes to an end. */
  datatype Scan = Scan(lines: seq<Bytes>, ends: bool)

  function Handing(line: Bytes, scan: Scan): Scan {
    Scan([line] + scan.lines, scan.ends)
  }

  /** The scan of a text, line by line where the buffer has a whole line, and bufferful by bufferful where it has
      none. */
  function ScanOf(capacity: nat, prefix: Bytes, text: Bytes): Scan
    requires 0 < capacity
    decreases |text|
  {
    if text == [] then Scan([], true)
    else if Stuck(capacity, prefix, text) then Scan([], false)
    else if LineFirst(capacity, text) && Starts(capacity, prefix, text) then
      Handing(text[..Find(text, NEWLINE)], ScanOf(capacity, prefix, Left(capacity, text)))
    else ScanOf(capacity, prefix, Left(capacity, text))
  }

  lemma {:induction false} PassesScan(capacity: nat, prefix: Bytes, text: Bytes, t: Turn, left: Bytes)
    requires 0 < capacity && !Stuck(capacity, prefix, text) && Passes(capacity, prefix, text, t, left)
    ensures ScanOf(capacity, prefix, text) ==
            if t.Found? then Handing(t.line, ScanOf(capacity, prefix, left)) else ScanOf(capacity, prefix, left)
  {
    if text == [] {
      assert left == [];
    }
  }

  lemma {:induction false} StuckScan(capacity: nat, prefix: Bytes, text: Bytes)
    requires 0 < capacity && Stuck(capacity, prefix, text)
    ensures ScanOf(capacity, prefix, text) == Scan([], false)
  {}

  /** A turn hands out what the scan of the text hands out next. */
  lemma {:induction false} TurnScans(capacity: nat, prefix: Bytes, s: State, t: Turn)
    requires Sound(capacity, s) && Between(s) && !Stuck(capacity, prefix, Unread(capacity, s))
    requires t == TurnOf(capacity, prefix, s) && !t.Exhausted?
    ensures Between(t.next) && Smaller(capacity, t.next, s)
    ensures ScanOf(capacity, prefix, Unread(capacity, s)) ==
            if t.Found? then Handing(t.line, ScanOf(capacity, prefix, Unread(capacity, t.next)))
            else ScanOf(capacity, prefix, Unread(capacity, t.next))
  {
    TurnPasses(capacity, prefix, s);
    PassesScan(capacity, prefix, Unread(capacity, s), t, Unread(capacity, t.next));
  }

  lemma {:induction false} ScanEnds(capacity: nat, prefix: Bytes, s: State)
    requires Sound(capacity, s) && TurnOf(capacity, prefix, s).Exhausted?
    ensures Unread(capacity, s) == [] && ScanOf(capacity, prefix, Unread(capacity, s)) == Scan([], true)
  {}

  // ---------- when a call returns ----------

  /** The loop of the calls on one input. */
  function Turns(capacity: nat, prefix: Bytes): State -> Turn {
    (s: State) => if Sound(capacity, s) then TurnOf(capacity, prefix, s) else Exhausted
  }

  /** Where a call is after `n` more turns than its first, if it takes them. */
  function After(turn: State -> Turn, s: State, n: nat): Turn
    decreases n
  {
    if n == 0 || !turn(s).Again? then turn(s) else After(turn, turn(s).next, n - 1)
  }

  ghost predicate Returns(turn: State -> Turn, s: State) {
    exists n: nat :: !After(turn, s, n).Again?
  }

  lemma ReturnsNext(turn: State -> Turn, s: State)
    requires turn(s).Again?
    ensures Returns(turn, s) <==> Returns(turn, turn(s).next)
  {
    if n: nat :| !After(turn, s, n).Again? {
      assert !After(turn, turn(s).next, n - 1).Again?;
    }
    if n: nat :| !After(turn, turn(s).next, n).Again? {
      assert !After(turn, s, n + 1).Again?;
    }
  }

  ghost predicate StaysJammed(turn: State -> Turn, jam: State -> bool) {
    forall s :: jam(s) ==> turn(s).Again? && jam(turn(s).next)
  }

  lemma {:induction false} JamGoesOn(turn: State -> Turn, jam: State -> bool, s: State, n: nat)
    requires StaysJammed(turn, jam) && jam(s)
    ensures After(turn, s, n).Again?
    decreases n
  {
    if n > 0 {
      JamGoesOn(turn, jam, turn(s).next, n - 1);
    }
  }

  lemma JamNeverReturns(turn: State -> Turn, jam: State -> bool, s: State)
    requires StaysJammed(turn, jam) && jam(s)
    ensures !Returns(turn, s)
  {
    forall n: nat ensures After(turn, s, n).Again? {
      JamGoesOn(turn, jam, s, n);
    }
  }

  /** The buffer holds the start of a line that is wanted, and no more of it can be read. */
  predicate Jammed(capacity: nat, prefix: Bytes, s: State) {
    && Sound(capacity, s) && s.pending.None? && s.buf != [] && prefix <= s.buf
    && Find(s.buf, NEWLINE) == |s.buf| && (s.rest == [] || |s.buf| == capacity)
  }

  lemma {:induction false} JammedTurn(capacity: nat, prefix: Bytes, s: State)
    requires Jammed(capacity, prefix, s)
    ensures TurnOf(capacity, prefix, s).Again? && Jammed(capacity, prefix, TurnOf(capacity, prefix, s).next)
  {
    var t := TurnOf(capacity, prefix, s);
    assert s.rest == [] ==> t.next.buf == s.buf && t.next.rest == [];
  }

  lemma StuckBuffer(capacity: nat, prefix: Bytes, f: State)
    requires Sound(capacity, f) && f.pending.None? && Stuck(capacity, prefix, f.buf + f.rest)
    requires |f.buf| < capacity ==> f.rest == []
    ensures FromBuffer(prefix, f) == Again(f) && Jammed(capacity, prefix, f)
  {
    FoundInBuffer(capacity, f);
  }

  /** Stuck text jams the scanner. */
  lemma Jams(capacity: nat, prefix: Bytes, s: State)
    requires Sound(capacity, s) && Stuck(capacity, prefix, Unread(capacity, s))
    ensures TurnOf(capacity, prefix, s).Again? && Jammed(capacity, prefix, TurnOf(capacity, prefix, s).next)
  {
    StuckBuffer(capacity, prefix, Filled(capacity, Drained(capacity, s)));
  }

  lemma JammedStays(capacity: nat, prefix: Bytes)
    ensures StaysJammed(Turns(capacity, prefix), s => Jammed(capacity, prefix, s))
  {
    forall s | Jammed(capacity, prefix, s)
      ensures TurnOf(capacity, prefix, s).Again? && Jammed(capacity, prefix, TurnOf(capacity, prefix, s).next)
    {
      JammedTurn(capacity, prefix, s);
    }
  }

  lemma StuckNeverReturns(capacity: nat, prefix: Bytes, s: State)
    requires Sound(capacity, s) && Stuck(capacity, prefix, Unread(capacity, s))
    ensures !Returns(Turns(capacity, prefix), s)
  {
    Jams(capacity, prefix, s);
    JammedStays(capacity, prefix);
    JamNeverReturns(Turns(capacity, prefix), x => Jammed(capacity, prefix, x), TurnOf(capacity, prefix, s).next);
    ReturnsNext(Turns(capacity, prefix), s);
  }

  /** The scan of the text has a line to hand out, or comes to an end. */
  predicate Answers(capacity: nat, prefix: Bytes, text: Bytes)
    requires 0 < capacity
  {
    ScanOf(capacity, prefix, text).lines != [] || ScanOf(capacity, prefix, text).ends
  }

  lemma {:induction false} AnswersIsNotStuck(capacity: nat, prefix: Bytes, text: Bytes)
    requires 0 < capacity && Answers(capacity, prefix, text)
    ensures !Stuck(capacity, prefix, text)
  {}

  lemma {:induction false} StopsAnswers(capacity: nat, prefix: Bytes, s: State)
    requires Sound(capacity, s) && Between(s) && !Stuck(capacity, prefix, Unread(capacity, s))
    requires !TurnOf(capacity, prefix, s).Again?
    ensures Returns(Turns(capacity, prefix), s) && Answers(capacity, prefix, Unread(capacity, s))
  {
    assert !After(Turns(capacity, prefix), s, 0).Again?;
    if TurnOf(capacity, prefix, s).Exhausted? {
      ScanEnds(capacity, prefix, s);
    } else {
      TurnScans(capacity, prefix, s, TurnOf(capacity, prefix, s));
    }
  }

  /** On every text, a call returns exactly when the scan of what is ahead has a line to hand out or comes to an
      end. */
  lemma {:induction false} ReturnsIff(capacity: nat, prefix: Bytes, s: State)
    requires Sound(capacity, s) && Between(s)
    ensures Returns(Turns(capacity, prefix), s) <==> Answers(capacity, prefix, Unread(capacity, s))
    decreases |Unread(capacity, s)|, if s.eof then 0 else 1, |s.buf|
  {
    if Stuck(capacity, prefix, Unread(capacity, s)) {
      StuckScan(capacity, prefix, Unread(capacity, s));
      StuckNeverReturns(capacity, prefix, s);
    } else {
      var t := TurnOf(capacity, prefix, s);
      if t.Again? {
        TurnScans(capacity, prefix, s, t);
        ReturnsIff(capacity, prefix, t.next);
        ReturnsNext(Turns(capacity, prefix), s);
      } else {
        StopsAnswers(capacity, prefix, s);
      }
    }
  }

  // ---------- whole scans ----------

  /** What `n` turns in all hand out, over as many calls as it takes, and whether they reach the end. */
  function Drive(turn: State -> Turn, s: State, n: nat): Scan
    decreases n
  {
    if n == 0 then Scan([], false)
    else
      match turn(s)
      case Exhausted => Scan([], true)
      case Found(line, next) => Handing(line, Drive(turn, next, n - 1))
      case Again(next) => Drive(turn, next, n - 1)
  }

  /** Where a turn from `s` goes, and what is then left of the scan. */
  ghost predicate FollowsAt(turn: State -> Turn, fit: State -> bool, jam: State -> bool, scan: State -> Scan, s: State) {
    match turn(s)
    case Exhausted => scan(s) == Scan([], true)
    case Found(line, next) => fit(next) && scan(s) == Handing(line, scan(next))
    case Again(next) => jam(next) || (fit(next) && scan(s) == scan(next))
  }

  lemma {:induction false} JamNeverEnds(turn: State -> Turn, jam: State -> bool, s: State, n: nat)
    requires StaysJammed(turn, jam) && jam(s)
    ensures !Drive(turn, s, n).ends
    decreases n
  {
    if n > 0 {
      JamNeverEnds(turn, jam, turn(s).next, n - 1);
    }
  }

  lemma {:induction false} DriveEnded(turn: State -> Turn, fit: State -> bool, jam: State -> bool, scan: State -> Scan, s: State, n: nat)
    requires StaysJammed(turn, jam) && forall x :: fit(x) ==> FollowsAt(turn, fit, jam, scan, x)
    requires fit(s) && Drive(turn, s, n).ends
    ensures Drive(turn, s, n) == scan(s)
    decreases n
  {
    if !turn(s).Exhausted? {
      var next := turn(s).next;
      if jam(next) {
        JamNeverEnds(turn, jam, next, n - 1);
      }
      if fit(next) {
        DriveEnded(turn, fit, jam, scan, next, n - 1);
      }
    }
  }

  function Driven(capacity: nat, prefix: Bytes, s: State, n: nat): Scan {
    Drive(Turns(capacity, prefix), s, n)
  }

  function Scans(capacity: nat, prefix: Bytes): State -> Scan {
    (s: State) => if Sound(capacity, s) then ScanOf(capacity, prefix, Unread(capacity, s)) else Scan([], true)
  }

  lemma TurnFollows(capacity: nat, prefix: Bytes, s: State)
    requires Sound(capacity, s) && Between(s)
    ensures FollowsAt(Turns(capacity, prefix), x => Sound(capacity, x) && Between(x), x => Jammed(capacity, prefix, x), Scans(capacity, prefix), s)
  {
    var t := TurnOf(capacity, prefix, s);
    if t.Exhausted? {
      ScanEnds(capacity, prefix, s);
    } else if Stuck(capacity, prefix, Unread(capacity, s)) {
      Jams(capacity, prefix, s);
    } else {
      TurnScans(capacity, prefix, s, t);
    }
  }

  /** Turns that reach the end have handed out the scan of the text. */
  lemma EndedIsScan(capacity: nat, prefix: Bytes, s: State, n: nat)
    requires Sound(capacity, s) && Between(s) && Driven(capacity, prefix, s, n).ends
    ensures Driven(capacity, prefix, s, n) == ScanOf(capacity, prefix, Unread(capacity, s))
  {
    var fit := (x: State) => Sound(capacity, x) && Between(x);
    var jam := (x: State) => Jammed(capacity, prefix, x);
    JammedStays(capacity, prefix);
    forall x | fit(x) ensures FollowsAt(Turns(capacity, prefix), fit, jam, Scans(capacity, prefix), x) {
      TurnFollows(capacity, prefix, x);
    }
    DriveEnded(Turns(capacity, prefix), fit, jam, Scans(capacity, prefix), s, n);
  }

  lemma {:induction false} DriveOn(turn: State -> Turn, s: State, n: nat)
    requires !turn(s).Exhausted? && 0 < n
    ensures Drive(turn, s, n).ends == Drive(turn, turn(s).next, n - 1).ends
  {}

  /** A scan that comes to an end does so in finitely many turns. */
  lemma {:induction false} ScanIsReached(capacity: nat, prefix: Bytes, s: State) returns (n: nat)
    requires Sound(capacity, s) && Between(s) && ScanOf(capacity, prefix, Unread(capacity, s)).ends
    ensures Driven(capacity, prefix, s, n).ends
    decreases |Unread(capacity, s)|, if s.eof then 0 else 1, |s.buf|
  {
    if TurnOf(capacity, prefix, s).Exhausted? {
      n := 1;
    } else {
      AnswersIsNotStuck(capacity, prefix, Unread(capacity, s));
      var t := TurnOf(capacity, prefix, s);
      TurnScans(capacity, prefix, s, t);
      n := ScanIsReached(capacity, prefix, t.next);
      n := n + 1;
      DriveOn(Turns(capacity, prefix), s, n);
    }
  }

  // ---------- when scanning is line splitting ----------

  /** The lines a scan of `text` should hand out. */
  function Wanted(prefix: Bytes, text: Bytes): seq<Bytes> {
    Matching(prefix, Lines(text))
  }

  /** Scanning can tell the lines as splitting does: a line too long for the buffer is not wanted, and neither
      is any part of it that the buffer comes to start at; and nor is an unterminated line. */
  predicate Scannable(capacity: nat, prefix: Bytes, text: Bytes)
    requires 0 < capacity
    decreases |text|
  {
    var i, n := Find(text, NEWLINE), Fill(capacity, text);
    || text == []
    || (&& (LineFirst(capacity, text) || (n <= i && !(prefix <= text[..i]) && !(prefix <= text[n..i])))
        && Scannable(capacity, prefix, Left(capacity, text)))
  }

  /** A line and the buffer it heads start with the same prefix. */
  lemma PrefixOfLine(prefix: Bytes, buf: Bytes, i: nat)
    requires NEWLINE !in prefix && i < |buf| && buf[i] == NEWLINE
    ensures prefix <= buf <==> prefix <= buf[..i]
  {}

  lemma {:induction false} StartsLine(capacity: nat, prefix: Bytes, text: Bytes, i: nat)
    requires NEWLINE !in prefix && i == Find(text, NEWLINE) && LineFirst(capacity, text)
    ensures Starts(capacity, prefix, text) <==> prefix <= text[..i]
  {
    var buf := text[..Fill(capacity, text)];
    assert buf[i] == NEWLINE && buf[..i] == text[..i];
    PrefixOfLine(prefix, buf, i);
  }

  lemma {:induction false} WantedStep(prefix: Bytes, text: Bytes, i: nat)
    requires i == Find(text, NEWLINE)
    ensures i < |text| ==> Wanted(prefix, text) == (if prefix <= text[..i] then [text[..i]] else []) + Wanted(prefix, text[i + 1..])
    ensures i == |text| ==> Wanted(prefix, text) == []
  {}

  lemma {:induction false} FindPast(text: Bytes, n: nat, i: nat)
    requires i == Find(text, NEWLINE) && n <= i
    ensures Find(text[n..], NEWLINE) == i - n
  {
    FindIs(text[n..], NEWLINE, i - n);
  }

  lemma SlicePast(text: Bytes, n: nat, i: nat)
    requires n <= i < |text|
    ensures text[n..][..i - n] == text[n..i] && text[n..][i - n + 1..] == text[i + 1..]
  {}

  /** Passing the front of a line that is not wanted passes no line that is, and may uncover one. */
  lemma {:induction false} WantedChunk(prefix: Bytes, text: Bytes, n: nat, i: nat)
    requires i == Find(text, NEWLINE) && n <= i && !(prefix <= text[..i])
    ensures i == |text| ==> Wanted(prefix, text) == Wanted(prefix, text[n..]) == []
    ensures i < |text| ==> Wanted(prefix, text[n..]) == (if prefix <= text[n..i] then [text[n..i]] else []) + Wanted(prefix, text)
  {
    FindPast(text, n, i);
    if i < |text| {
      SlicePast(text, n, i);
      WantedLine(prefix, text, text[..i], text[i + 1..]);
      WantedLine(prefix, text[n..], text[n..i], text[i + 1..]);
      assert [] + Wanted(prefix, text[i + 1..]) == Wanted(prefix, text[i + 1..]);
    }
  }

  lemma {:induction false} WantedLine(prefix: Bytes, text: Bytes, line: Bytes, rest: Bytes)
    requires Find(text, NEWLINE) < |text| && line == text[..Find(text, NEWLINE)] && rest == text[Find(text, NEWLINE) + 1..]
    ensures Wanted(prefix, text) == (if prefix <= line then [line] else []) + Wanted(prefix, rest)
  {}

  /** Text that can be scanned is scanned to its end, and hands out the wanted lines. */
  lemma {:induction false} ScannableScans(capacity: nat, prefix: Bytes, text: Bytes)
    requires 0 < capacity && NEWLINE !in prefix && Scannable(capacity, prefix, text)
    ensures ScanOf(capacity, prefix, text) == Scan(Wanted(prefix, text), true)
    decreases |text|
  {
    var i, n := Find(text, NEWLINE), Fill(capacity, text);
    if LineFirst(capacity, text) {
      StartsLine(capacity, prefix, text, i);
      WantedStep(prefix, text, i);
      ScannableScans(capacity, prefix, text[i + 1..]);
    } else if text != [] {
      WantedChunk(prefix, text, n, i);
      ScannableScans(capacity, prefix, text[n..]);
    } else {
      WantedStep(prefix, text, 0);
    }
  }

  lemma PrefixOfPart(prefix: Bytes, text: Bytes, n: nat, i: nat)
    requires |prefix| <= n <= i <= |text|
    ensures prefix <= text[..i] <==> prefix <= text[..n]
  {
    assert text[..i][..n] == text[..n];
  }

  lemma {:induction false} ChunkMiscounts(capacity: nat, prefix: Bytes, text: Bytes, n: nat, i: nat)
    requires 0 < capacity && |prefix| <= capacity && n == Fill(capacity, text) && i == Find(text, NEWLINE)
    requires text != [] && !LineFirst(capacity, text) && !Stuck(capacity, prefix, text)
    ensures n <= i && !(prefix <= text[..i])
    ensures i == |text| && prefix <= text[n..i] ==> !ScanOf(capacity, prefix, text[n..]).ends
  {
    if n == capacity {
      PrefixOfPart(prefix, text, n, i);
    }
    if i == |text| && prefix <= text[n..i] {
      FindIs(text[n..], NEWLINE, i - n);
      assert text[n..] == text[n..i];
    }
  }

  /** A scan that comes to an end hands out no fewer lines than are wanted, and more if the text cannot be
      scanned. */
  lemma {:induction false} EndedHandsOut(capacity: nat, prefix: Bytes, text: Bytes)
    requires 0 < capacity && |prefix| <= capacity && NEWLINE !in prefix && ScanOf(capacity, prefix, text).ends
    ensures |ScanOf(capacity, prefix, text).lines| >= |Wanted(prefix, text)|
    ensures !Scannable(capacity, prefix, text) ==> |ScanOf(capacity, prefix, text).lines| > |Wanted(prefix, text)|
    decreases |text|
  {
    var i, n := Find(text, NEWLINE), Fill(capacity, text);
    if LineFirst(capacity, text) {
      StartsLine(capacity, prefix, text, i);
      WantedStep(prefix, text, i);
      EndedHandsOut(capacity, prefix, text[i + 1..]);
    } else if text != [] {
      ChunkMiscounts(capacity, prefix, text, n, i);
      WantedChunk(prefix, text, n, i);
      EndedHandsOut(capacity, prefix, text[n..]);
    } else {
      WantedStep(prefix, text, 0);
    }
  }

  /** The buffer never comes to start with the prefix. */
  predicate Quiet(capacity: nat, prefix: Bytes, text: Bytes)
    requires 0 < capacity
    decreases |text|
  {
    text == [] || (!Starts(capacity, prefix, text) && Quiet(capacity, prefix, Left(capacity, text)))
  }

  /** A scan comes to an end having handed out nothing exactly if the buffer never starts with the prefix. */
  lemma {:induction false} QuietIff(capacity: nat, prefix: Bytes, text: Bytes)
    requires 0 < capacity
    ensures ScanOf(capacity, prefix, text) == Scan([], true) <==> Quiet(capacity, prefix, text)
    decreases |text|
  {
    if text != [] {
      QuietIff(capacity, prefix, Left(capacity, text));
    }
  }

  lemma {:induction false} LongIsQuiet(capacity: nat, prefix: Bytes, text: Bytes)
    requires 0 < capacity < |prefix|
    ensures Quiet(capacity, prefix, text)
    decreases |text|
  {
    if text != [] {
      LongIsQuiet(capacity, prefix, Left(capacity, text));
    }
  }

  lemma PrefixKeeps(prefix: Bytes, line: Bytes, c: Byte)
    requires c in prefix
    ensures prefix <= line ==> c in line
  {
    var j :| 0 <= j < |prefix| && prefix[j] == c;
    assert prefix <= line ==> line[j] == c;
  }

  lemma {:induction false} NothingMatches(prefix: Bytes, lines: seq<Bytes>)
    requires NEWLINE in prefix && forall l :: l in lines ==> NEWLINE !in l
    ensures Matching(prefix, lines) == []
  {
    if lines != [] {
      assert lines[0] in lines;
      PrefixKeeps(prefix, lines[0], NEWLINE);
      NothingMatches(prefix, lines[1..]);
    }
  }

  /** The exact condition for scanning to be line splitting. No line starts with a prefix that has a newline in it,
      but the buffer can; and the buffer never starts with a prefix that is longer, but a line can. */
  predicate Splits(capacity: nat, prefix: Bytes, text: Bytes)
    requires 0 < capacity
  {
    if NEWLINE in prefix then Quiet(capacity, prefix, text)
    else if |prefix| <= capacity then Scannable(capacity, prefix, text)
    else Wanted(prefix, text) == []
  }

  lemma {:induction false} SplitsIff(capacity: nat, prefix: Bytes, text: Bytes)
    requires 0 < capacity
    ensures ScanOf(capacity, prefix, text) == Scan(Wanted(prefix, text), true) <==> Splits(capacity, prefix, text)
  {
    QuietIff(capacity, prefix, text);
    if NEWLINE in prefix {
      SplitHasNoNewline(text);
      NothingMatches(prefix, Lines(text));
    } else if capacity < |prefix| {
      LongIsQuiet(capacity, prefix, text);
    } else if Scannable(capacity, prefix, text) {
      ScannableScans(capacity, prefix, text);
    } else if ScanOf(capacity, prefix, text).ends {
      EndedHandsOut(capacity, prefix, text);
    }
  }

  /** Some number of turns hands out exactly the lines splitting keeps, and reaches the end, if and only if the text
      splits. */
  lemma {:induction false} ScanningIsSplittingIff(capacity: nat, prefix: Bytes, s: State)
    requires Sound(capacity, s) && Between(s)
    ensures (exists n: nat :: Driven(capacity, prefix, s, n) == Scan(Wanted(prefix, Unread(capacity, s)), true)) <==>
            Splits(capacity, prefix, Unread(capacity, s))
  {
    SplitsIff(capacity, prefix, Unread(capacity, s));
    if n: nat :| Driven(capacity, prefix, s, n) == Scan(Wanted(prefix, Unread(capacity, s)), true) {
      EndedIsScan(capacity, prefix, s, n);
    }
    if Splits(capacity, prefix, Unread(capacity, s)) {
      var n := ScanIsReached(capacity, prefix, s);
      EndedIsScan(capacity, prefix, s, n);
    }
  }

  /** Every line fits the buffer with its newline, and so does the tail. */
  predicate Fits(capacity: nat, text: Bytes) {
    |Tail(text)| <= capacity && forall l :: l in Lines(text) ==> |l| < capacity
  }

  /** An unterminated line that starts with the prefix. */
  predicate Dangling(prefix: Bytes, text: Bytes) {
    Tail(text) != [] && prefix <= Tail(text)
  }

  lemma FitsCons(capacity: nat, l: Bytes, lines: seq<Bytes>)
    requires forall m :: m in [l] + lines ==> |m| < capacity
    ensures |l| < capacity && forall m :: m in lines ==> |m| < capacity
  {
    assert l in [l] + lines && forall m :: m in lines ==> m in [l] + lines;
  }

  lemma {:induction false} FitsStep(capacity: nat, prefix: Bytes, text: Bytes, i: nat)
    requires Fits(capacity, text) && i == Find(text, NEWLINE) && i < |text|
    ensures i < capacity && Fits(capacity, text[i + 1..]) && (Dangling(prefix, text) == Dangling(prefix, text[i + 1..]))
    ensures LineFirst(capacity, text) && Left(capacity, text) == text[i + 1..]
  {
    FitsCons(capacity, text[..i], Lines(text[i + 1..]));
  }

  lemma {:induction false} ScannableStep(capacity: nat, prefix: Bytes, text: Bytes, rest: Bytes)
    requires 0 < capacity && LineFirst(capacity, text) && rest == Left(capacity, text)
    ensures Scannable(capacity, prefix, text) <==> Scannable(capacity, prefix, rest)
  {}

  lemma {:induction false} TailScannable(capacity: nat, prefix: Bytes, text: Bytes)
    requires 0 < capacity && Find(text, NEWLINE) == |text| <= capacity
    ensures Scannable(capacity, prefix, text) <==> text == [] || !(prefix <= text)
  {
    var n := |text|;
    assert Fill(capacity, text) == n;
    assert text[..n] == text && text[n..] == [] && text[n..n] == [];
    assert Scannable(capacity, prefix, []);
  }

  /** What fits the buffer can be scanned, unless it ends in an unterminated line that starts with the prefix. */
  lemma {:induction false} FitsScannable(capacity: nat, prefix: Bytes, text: Bytes)
    requires 0 < capacity && Fits(capacity, text)
    ensures Scannable(capacity, prefix, text) <==> !Dangling(prefix, text)
    decreases |text|
  {
    var i := Find(text, NEWLINE);
    if i < |text| {
      var rest := text[i + 1..];
      FitsStep(capacity, prefix, text, i);
      ScannableStep(capacity, prefix, text, rest);
      FitsScannable(capacity, prefix, rest);
    } else {
      TailScannable(capacity, prefix, text);
    }
  }

  /** Lines that fit the buffer are scanned as they split, whatever follows them. */
  lemma {:induction false} HeadScans(capacity: nat, prefix: Bytes, lines: seq<Bytes>, tail: Bytes)
    requires 0 < capacity && NEWLINE !in prefix && forall l :: l in lines ==> |l| < capacity && NEWLINE !in l
    ensures ScanOf(capacity, prefix, Unlines(lines) + tail) ==
            Scan(Matching(prefix, lines) + ScanOf(capacity, prefix, tail).lines, ScanOf(capacity, prefix, tail).ends)
    decreases |lines|
  {
    if lines == [] {
      assert Unlines(lines) + tail == tail;
    } else {
      var l, rest := lines[0], Unlines(lines[1..]) + tail;
      var text := Unlines(lines) + tail;
      assert text == l + [NEWLINE] + rest;
      HeadScans(capacity, prefix, lines[1..], tail);
      LineScans(capacity, prefix, l, rest, text);
      Regroup(l, Matching(prefix, lines[1..]), ScanOf(capacity, prefix, tail).lines);
    }
  }

  lemma {:induction false} LineScans(capacity: nat, prefix: Bytes, l: Bytes, rest: Bytes, text: Bytes)
    requires |l| < capacity && NEWLINE !in prefix && NEWLINE !in l && text == l + [NEWLINE] + rest
    ensures ScanOf(capacity, prefix, text) ==
            if prefix <= l then Handing(l, ScanOf(capacity, prefix, rest)) else ScanOf(capacity, prefix, rest)
  {
    FindIs(text, NEWLINE, |l|);
    assert text[..|l|] == l && text[|l| + 1..] == rest;
    StartsLine(capacity, prefix, text, |l|);
  }

  /** A line too long for the buffer can be taken for another: what is left of it once the buffer has been emptied
      is read as a line of its own. */
  lemma {:induction false} LongLineMisread(capacity: nat, prefix: Bytes, filler: Bytes)
    requires |filler| == capacity && |prefix| < capacity && NEWLINE !in filler && NEWLINE !in prefix && !(prefix <= filler)
    ensures Wanted(prefix, filler + prefix + [NEWLINE]) == []
    ensures ScanOf(capacity, prefix, filler + prefix + [NEWLINE]) == Scan([prefix], true)
  {
    var line, text, rest := filler + prefix, filler + prefix + [NEWLINE], prefix + [NEWLINE];
    FindIs(text, NEWLINE, |line|);
    assert text[..|line|] == line && text[|line| + 1..] == [];
    assert line[..|filler|] == filler && text[..capacity] == filler && text[capacity..] == rest;
    WantedStep(prefix, text, |line|);
    WantedStep(prefix, [], 0);
    assert Left(capacity, text) == rest;
    assert rest == prefix + [NEWLINE] + [];
    LineScans(capacity, prefix, prefix, [], rest);
  }

  // ---------- the scanner ----------

  /** The one way a call fails: no input was set. */
  datatype Failure = NoInput

  function ResultOf(t: Turn): Option<Result<Option<Bytes>, Failure>> {
    match t
    case Exhausted => Some(Ok(None))
    case Found(line, _) => Some(Ok(Some(line)))
    case Again(_) => None
  }

  class Scanner {
    const capacity: nat
    var io: Option<Bytes>
    var eof: bool
    var buf: Bytes
    var pending: Option<nat>

    ghost predicate Valid()
      reads this
    {
      && 0 < capacity
      && (io.None? ==> !eof && buf == [] && pending.None?)
      && (io.Some? ==> Sound(capacity, Now()) && Between(Now()))
    }

    function Now(): State
      requires io.Some?
      reads this
    {
      State(io.value, eof, buf, pending)
    }

    /** The input no line of which has been handed out or passed over. */
    ghost function Ahead(): Bytes
      requires Valid() && io.Some?
      reads this
    {
      Unread(capacity, Now())
    }

    constructor (capacity: nat)
      requires 0 < capacity
      ensures Valid() && this.capacity == capacity && io.None?
    {
      this.capacity := capacity;
      io, eof, buf, pending := None, false, [], None;
    }

    method Reset(input: Bytes)
      requires Valid()
      modifies this
      ensures Valid() && io == Some(input) && Ahead() == input
    {
      buf, eof, pending, io := [], false, None, Some(input);
    }

    /** Reads into the spare capacity, unless the input has ended. */
    method FillBuf() returns (ok: bool)
      requires |buf| <= capacity && pending.None? && (io.Some? ==> Sound(capacity, Now())) && (io.None? ==> !eof && |buf| < capacity)
      modifies this
      ensures ok == old(io).Some?
      ensures if ok then io.Some? && Now() == Filled(capacity, old(Now())) else unchanged(this)
    {
      if eof {
        return true;
      }
      if |buf| < capacity {
        if io.None? {
          return false;
        }
        var space := capacity - |buf|;
        var n := if |io.value| < space then |io.value| else space;
        if n == 0 {
          eof := true;
        }
        buf, io := buf + io.value[..n], Some(io.value[n..]);
      }
      return true;
    }

    /** Looks for a line at the front of the filled buffer. */
    method TakeLine(prefix: Bytes) returns (r: Option<Result<Option<Bytes>, Failure>>)
      requires io.Some?
      modifies this
      ensures io.Some? && Now() == FromBuffer(prefix, old(Now())).next && r == ResultOf(FromBuffer(prefix, old(Now())))
    {
      var i := Find(buf, NEWLINE);
      if prefix <= buf {
        if i < |buf| {
          pending := Some(i + 1);
          return Some(Ok(Some(buf[..i])));
        }
      } else {
        if i < |buf| {
          pending := Some(i + 1);
        } else {
          buf := [];
        }
      }
      return None;
    }

    /** One turn of the loop. Without a result, it is taken again. */
    method Round(prefix: Bytes) returns (r: Option<Result<Option<Bytes>, Failure>>)
      requires Valid()
      modifies this
      ensures io.Some? == old(io).Some?
      ensures io.None? ==> r == Some(Err(NoInput)) && unchanged(this)
      ensures io.Some? ==> r == ResultOf(TurnOf(capacity, prefix, old(Now())))
      ensures io.Some? ==>
                Now() == if r == Some(Ok(None)) then old(Now()) else TurnOf(capacity, prefix, old(Now())).next
    {
      if eof && buf == [] {
        return Some(Ok(None));
      }
      if pending.Some? {
        buf, pending := buf[pending.value..], None;
      }
      var filled := FillBuf();
      if !filled {
        return Some(Err(NoInput));
      }
      r := TakeLine(prefix);
    }

    /** Hands out the next line of the scan of what is ahead. It is called only where it returns. */
    method NextMatchingLine(prefix: Bytes) returns (r: Result<Option<Bytes>, Failure>)
      requires Valid() && (io.Some? ==> Answers(capacity, prefix, Ahead()))
      modifies this
      ensures Valid() && io.Some? == old(io).Some? && r.Ok? == io.Some?
      ensures io.Some? && r.value.Some? ==>
                old(ScanOf(capacity, prefix, Ahead())) == Handing(r.value.value, ScanOf(capacity, prefix, Ahead()))
      ensures io.Some? && r.value.None? ==> old(ScanOf(capacity, prefix, Ahead())) == Scan([], true) && Ahead() == []
    {
      while true
        invariant Valid() && io.Some? == old(io).Some?
        invariant io.Some? ==> ScanOf(capacity, prefix, Ahead()) == old(ScanOf(capacity, prefix, Ahead()))
        decreases if io.Some? then |Ahead()| else 0, if eof then 0 else 1, |buf|
      {
        if io.Some? {
          AnswersIsNotStuck(capacity, prefix, Ahead());
          if TurnOf(capacity, prefix, Now()).Exhausted? {
            ScanEnds(capacity, prefix, Now());
          } else {
            TurnScans(capacity, prefix, Now(), TurnOf(capacity, prefix, Now()));
          }
        }
        var round := Round(prefix);
        if round.Some? {
          return round.value;
        }
      }
    }
  }
}
