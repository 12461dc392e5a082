/** Prometheus text exposition: label lists, metric names, series lines and groups. */
module Prometheus {
  import opened Wrappers
  import opened Json

  datatype Label = Label(key: string, value: string)

  // ---------- labels ----------

  function EscapeChar(c: char): string {
    if c == '\\' then "\\\\" else if c == '"' then "\\\"" else if c == '\n' then "\\n" else [c]
  }

  function Escape(value: string): string {
    if value == "" then "" else EscapeChar(value[0]) + Escape(value[1..])
  }

  function LabelText(l: Label): string {
    l.key + "=\"" + (Escape(l.value) + "\"")
  }

  /** The labels, each after a comma but the first. */
  function LabelsText(labels: seq<Label>): string {
    if labels == [] then ""
    else if |labels| == 1 then LabelText(labels[0])
    else LabelText(labels[0]) + "," + LabelsText(labels[1..])
  }

  lemma {:induction false} EscapeConcat(a: string, b: string)
    ensures Escape(a + b) == Escape(a) + Escape(b)
  {
    if a == "" {
      assert a + b == b;
    } else {
      assert (a + b)[1..] == a[1..] + b;
      EscapeConcat(a[1..], b);
    }
  }

  lemma {:induction false} LabelsTextSnoc(labels: seq<Label>, l: Label)
    ensures LabelsText(labels + [l]) == LabelsText(labels) + (if labels == [] then "" else ",") + LabelText(l)
  {
    if labels == [] {
      assert labels + [l] == [l];
    } else {
      assert (labels + [l])[1..] == labels[1..] + [l];
      LabelsTextSnoc(labels[1..], l);
    }
  }

  // ---------- reading labels back ----------

  /** A quoted value and what follows its closing quote. */
  function ReadValue(text: string): Option<(string, string)> {
    if text == "" then None
    else if text[0] == '"' then Some(("", text[1..]))
    else if text[0] == '\\' then
      if |text| == 1 then None
      else Prepend(if text[1] == 'n' then '\n' else text[1], ReadValue(text[2..]))
    else Prepend(text[0], ReadValue(text[1..]))
  }

  function Prepend(c: char, read: Option<(string, string)>): Option<(string, string)> {
    if read.None? then None else Some(([c] + read.value.0, read.value.1))
  }

  /** A label and what follows it. The key runs to the first equals sign. */
  function ReadLabel(text: string): Option<(Label, string)> {
    if '=' !in text then None
    else
      var i := IndexOf(text, '=');
      if i + 1 == |text| || text[i + 1] != '"' || ReadValue(text[i + 2..]).None? then None
      else
        var (value, rest) := ReadValue(text[i + 2..]).value;
        Some((Label(text[..i], value), rest))
  }

  lemma {:induction false} ReadValueShrinks(text: string)
    ensures ReadValue(text).Some? ==> |ReadValue(text).value.1| < |text|
    decreases |text|
  {
    if text != "" && text[0] != '"' {
      if text[0] == '\\' {
        if |text| > 1 {
          ReadValueShrinks(text[2..]);
        }
      } else {
        ReadValueShrinks(text[1..]);
      }
    }
  }

  lemma {:induction false} ReadLabelShrinks(text: string)
    ensures ReadLabel(text).Some? ==> |ReadLabel(text).value.1| < |text|
  {
    if '=' in text && IndexOf(text, '=') + 2 <= |text| {
      ReadValueShrinks(text[IndexOf(text, '=') + 2..]);
    }
  }

  /** A label, and another for as long as a comma follows. */
  function ReadLabels(text: string): Option<(seq<Label>, string)>
    decreases |text|
  {
    ReadLabelShrinks(text);
    match ReadLabel(text)
    case None => None
    case Some((l, rest)) =>
      if rest == "" || rest[0] != ',' then Some(([l], rest))
      else
        match ReadLabels(rest[1..])
        case None => None
        case Some((more, end)) => Some(([l] + more, end))
  }

  lemma ValueChar(c: char, text: string)
    ensures ReadValue(EscapeChar(c) + text) == Prepend(c, ReadValue(text))
  {}

  lemma {:induction false} ValueReadsBack(value: string, rest: string)
    ensures ReadValue(Escape(value) + "\"" + rest) == Some((value, rest))
  {
    if value == "" {
      assert Escape(value) + "\"" + rest == "\"" + rest;
    } else {
      var tail := Escape(value[1..]) + "\"" + rest;
      assert Escape(value) + "\"" + rest == EscapeChar(value[0]) + tail;
      ValueReadsBack(value[1..], rest);
      ValueChar(value[0], tail);
      assert [value[0]] + value[1..] == value;
    }
  }

  lemma IndexAfter(a: string, c: char, b: string)
    requires c !in a
    ensures c in a + [c] + b && IndexOf(a + [c] + b, c) == |a|
  {
    var s := a + [c] + b;
    assert s[|a|] == c;
    var i := IndexOf(s, c);
    assert forall j :: 0 <= j < |a| ==> s[j] == a[j] && a[j] in a;
    assert forall j :: 0 <= j < i ==> s[j] in s[..i];
  }

  lemma LabelAt(text: string, i: nat, value: string, rest: string)
    requires i + 1 < |text| && '=' in text && IndexOf(text, '=') == i && text[i + 1] == '"'
    requires ReadValue(text[i + 2..]) == Some((value, rest))
    ensures ReadLabel(text) == Some((Label(text[..i], value), rest))
  {}

  lemma LabelCut(key: string, quoted: string, rest: string)
    ensures
      var text := key + "=\"" + (quoted + "\"") + rest;
      && text == key + ['='] + ("\"" + (quoted + "\"" + rest))
      && text[..|key|] == key && text[|key| + 1] == '"' && text[|key| + 2..] == quoted + "\"" + rest
  {}

  lemma {:induction false} LabelReadsBack(l: Label, rest: string)
    requires '=' !in l.key
    ensures ReadLabel(LabelText(l) + rest) == Some((l, rest))
  {
    var quoted := Escape(l.value);
    LabelCut(l.key, quoted, rest);
    IndexAfter(l.key, '=', "\"" + (quoted + "\"" + rest));
    ValueReadsBack(l.value, rest);
    LabelAt(LabelText(l) + rest, |l.key|, l.value, rest);
  }

  lemma {:induction false} LastLabel(text: string, l: Label, rest: string)
    requires ReadLabel(text) == Some((l, rest)) && (rest == "" || rest[0] != ',')
    ensures ReadLabels(text) == Some(([l], rest))
  {}

  lemma {:induction false} AnotherLabel(text: string, l: Label, rest: string, more: seq<Label>, end: string)
    requires ReadLabel(text) == Some((l, rest)) && rest != "" && rest[0] == ','
    requires ReadLabels(rest[1..]) == Some((more, end))
    ensures ReadLabels(text) == Some(([l] + more, end))
  {
    ReadLabelShrinks(text);
  }

  /** A rendered label list reads back, whatever the values hold, up to the brace that closes it. */
  lemma {:induction false} LabelsReadBack(labels: seq<Label>, rest: string)
    requires labels != [] && (forall l :: l in labels ==> '=' !in l.key) && (rest == "" || rest[0] != ',')
    ensures ReadLabels(LabelsText(labels) + rest) == Some((labels, rest))
    decreases |labels|
  {
    var l := labels[0];
    assert l in labels;
    if |labels| == 1 {
      LabelReadsBack(l, rest);
      LastLabel(LabelText(l) + rest, l, rest);
      assert labels == [l];
    } else {
      var more := labels[1..];
      var tail := LabelsText(more) + rest;
      LabelsReadBack(more, rest);
      LabelReadsBack(l, "," + tail);
      assert ("," + tail)[1..] == tail;
      AnotherLabel(LabelText(l) + ("," + tail), l, "," + tail, more, rest);
      LabelsTextCut(labels, rest);
      assert labels == [l] + more;
    }
  }

  lemma {:induction false} LabelsTextCut(labels: seq<Label>, rest: string)
    requires |labels| > 1
    ensures LabelsText(labels) + rest == LabelText(labels[0]) + ("," + (LabelsText(labels[1..]) + rest))
  {}

  /** Two label lists with the same text are the same list. */
  lemma LabelsInjective(a: seq<Label>, b: seq<Label>)
    requires forall l :: l in a || l in b ==> '=' !in l.key
    requires LabelsText(a) == LabelsText(b)
    ensures a == b
  {
    if a != [] && b != [] {
      LabelsReadBack(a, "");
      LabelsReadBack(b, "");
      assert LabelsText(a) + "" == LabelsText(a) && LabelsText(b) + "" == LabelsText(b);
    } else {
      LabelsNotEmpty(a);
      LabelsNotEmpty(b);
    }
  }

  lemma {:induction false} LabelsNotEmpty(labels: seq<Label>)
    ensures labels != [] <==> LabelsText(labels) != ""
  {}

  // ---------- names ----------

  predicate IsLetter(c: char) {
    'a' <= c <= 'z' || 'A' <= c <= 'Z'
  }

  predicate IsNameStart(c: char) {
    IsLetter(c) || c == '_' || c == ':'
  }

  predicate IsNameChar(c: char) {
    IsNameStart(c) || '0' <= c <= '9'
  }

  predicate IsName(s: string) {
    s != "" && IsNameStart(s[0]) && forall i :: 0 <= i < |s| ==> IsNameChar(s[i])
  }

  predicate IsAllowed(first: bool, c: char) {
    if first then IsNameStart(c) else IsNameChar(c)
  }

  function NormalizeChar(first: bool, c: char): string {
    if IsAllowed(first, c) then [c] else if c == '.' then "__" else "_"
  }

  function Normalized(name: string): string {
    if name == "" then ""
    else
      var n := |name| - 1;
      Normalized(name[..n]) + NormalizeChar(n == 0, name[n])
  }

  /** Normalizing makes a valid name out of every name but the empty one. */
  lemma {:induction false} NormalizedIsName(name: string)
    ensures IsName(Normalized(name)) <==> name != ""
    decreases |name|
  {
    if |name| > 1 {
      NormalizedIsName(name[..|name| - 1]);
    }
  }

  lemma {:induction false} NameIsNormalized(name: string)
    requires name == "" || IsName(name)
    ensures Normalized(name) == name
    decreases |name|
  {
    if name != "" {
      var n := |name| - 1;
      NameIsNormalized(name[..n]);
      assert name == name[..n] + [name[n]];
    }
  }

  /** Normalizing twice is normalizing once. */
  lemma {:induction false} NormalizedTwice(name: string)
    ensures Normalized(Normalized(name)) == Normalized(name)
  {
    NormalizedIsName(name);
    NameIsNormalized(Normalized(name));
  }

  /** Pairs of underscores read as periods, from the left. */
  function Restored(s: string): string {
    if s == "" then ""
    else if |s| >= 2 && s[0] == '_' && s[1] == '_' then "." + Restored(s[2..])
    else [s[0]] + Restored(s[1..])
  }

  /** Only periods need converting, and no underscore stands before an underscore or a period. */
  predicate Separable(first: bool, name: string) {
    name == "" ||
    (&& (name[0] == '.' || IsAllowed(first, name[0]))
     && (name[0] == '_' && |name| > 1 ==> name[1] != '_' && name[1] != '.')
     && Separable(false, name[1..]))
  }

  /** Normalizing, front first. */
  function FromFront(first: bool, name: string): string {
    if name == "" then "" else NormalizeChar(first, name[0]) + FromFront(false, name[1..])
  }

  lemma {:induction false} FromFrontSnoc(first: bool, name: string, c: char)
    ensures FromFront(first, name + [c]) == FromFront(first, name) + NormalizeChar(first && name == "", c)
    decreases |name|
  {
    if name == "" {
      assert name + [c] == [c] && [c][1..] == "";
    } else {
      assert (name + [c])[1..] == name[1..] + [c];
      FromFrontSnoc(false, name[1..], c);
    }
  }

  lemma {:induction false} NormalizedFromFront(name: string)
    ensures Normalized(name) == FromFront(true, name)
    decreases |name|
  {
    if name != "" {
      var n := |name| - 1;
      NormalizedFromFront(name[..n]);
      FromFrontSnoc(true, name[..n], name[n]);
      assert name == name[..n] + [name[n]];
    }
  }

  /** What normalizing starts with. */
  lemma {:induction false} FrontStarts(name: string)
    requires name != ""
    ensures FromFront(false, name) != ""
    ensures FromFront(false, name)[0] == '_' <==> (name[0] == '_' || !IsNameChar(name[0]))
  {}

  lemma {:induction false} RestoredFromFront(first: bool, name: string)
    ensures Restored(FromFront(first, name)) == name <==> Separable(first, name)
    decreases |name|
  {
    if name != "" {
      var c, rest := name[0], name[1..];
      var text, tail := FromFront(first, name), FromFront(false, rest);
      RestoredFromFront(false, rest);
      assert name == [c] + rest;
      if rest != "" {
        FrontStarts(rest);
      }
      if NormalizeChar(first, c) == "__" {
        assert text[2..] == tail;
      } else {
        assert text[1..] == tail;
      }
    }
  }

  /** The periods of a name can be told from its normalized form exactly if it is separable. */
  lemma {:induction false} PeriodsRestoredIff(name: string)
    ensures Restored(Normalized(name)) == name <==> Separable(true, name)
  {
    NormalizedFromFront(name);
    RestoredFromFront(true, name);
  }

  /** A name with every period written as two underscores. */
  function DotsDoubled(name: string): string {
    if name == "" then "" else (if name[0] == '.' then "__" else [name[0]]) + DotsDoubled(name[1..])
  }

  lemma {:induction false} DoubledFromFront(first: bool, name: string)
    ensures FromFront(first, DotsDoubled(name)) == FromFront(first, name)
    decreases |name|
  {
    if name != "" {
      var tail := DotsDoubled(name[1..]);
      DoubledFromFront(false, name[1..]);
      if name[0] == '.' {
        var text := "__" + tail;
        assert text[1..] == "_" + tail && text[1..][1..] == tail;
        assert FromFront(first, text) == "_" + FromFront(false, text[1..]);
        assert FromFront(false, text[1..]) == "_" + FromFront(false, tail);
      } else {
        assert ([name[0]] + tail)[1..] == tail;
      }
    }
  }

  /** The characters a name may have at position `i`. */
  predicate Keepable(i: nat, c: char) {
    'a' <= c <= 'z' || 'A' <= c <= 'Z' || c == '_' || c == ':' || (i > 0 && '0' <= c <= '9')
  }

  lemma {:induction false} NormalizedEach(name: string)
    requires '.' !in name
    ensures |Normalized(name)| == |name|
    ensures forall i :: 0 <= i < |name| ==> Normalized(name)[i] == if Keepable(i, name[i]) then name[i] else '_'
    decreases |name|
  {
    if name != "" {
      NormalizedEach(name[..|name| - 1]);
    }
  }

  /** What normalizing does to each character: a period becomes two underscores; after that, whatever cannot stand where
      it stands becomes one, and everything else is kept. */
  lemma {:induction false} NormalizedCharacters(name: string)
    ensures
      var doubled := DotsDoubled(name);
      && |Normalized(name)| == |doubled|
      && forall i :: 0 <= i < |doubled| ==> Normalized(name)[i] == if Keepable(i, doubled[i]) then doubled[i] else '_'
  {
    NormalizedFromFront(name);
    NormalizedFromFront(DotsDoubled(name));
    DoubledFromFront(true, name);
    NoDots(name);
    NormalizedEach(DotsDoubled(name));
  }

  lemma {:induction false} NoDots(name: string)
    ensures '.' !in DotsDoubled(name)
  {
    if name != "" {
      NoDots(name[1..]);
    }
  }

  // ---------- series lines ----------

  function Braced(labels: seq<Label>): string {
    if labels == [] then "" else "{" + LabelsText(labels) + "}"
  }

  /** One line of a counter or a gauge, up to its newline. */
  function Series(name: string, labels: seq<Label>, value: string): string {
    name + Braced(labels) + " " + value
  }

  /** A line's name, labels and value. */
  function ReadSeries(line: string): Option<(string, seq<Label>, string)> {
    var i := NameEnd(line);
    if i == |line| then None
    else if line[i] == ' ' then Some((line[..i], [], line[i + 1..]))
    else if line[i] != '{' then None
    else AfterLabels(line[..i], ReadLabels(line[i + 1..]))
  }

  function AfterLabels(name: string, read: Option<(seq<Label>, string)>): Option<(string, seq<Label>, string)> {
    match read
    case None => None
    case Some((labels, rest)) =>
      if |rest| >= 2 && rest[0] == '}' && rest[1] == ' ' then Some((name, labels, rest[2..])) else None
  }

  function NameEnd(line: string): (i: nat)
    ensures i <= |line| && (i < |line| ==> !IsNameChar(line[i])) && forall j :: 0 <= j < i ==> IsNameChar(line[j])
  {
    if line == "" || !IsNameChar(line[0]) then 0 else 1 + NameEnd(line[1..])
  }

  lemma NameEndIs(name: string, rest: string)
    requires IsName(name) && rest != "" && !IsNameChar(rest[0])
    ensures NameEnd(name + rest) == |name|
  {
    var line, i := name + rest, NameEnd(name + rest);
    assert line[|name|] == rest[0];
    assert forall j :: 0 <= j < |name| ==> line[j] == name[j];
  }

  lemma ReadsBare(name: string, value: string)
    requires IsName(name)
    ensures ReadSeries(name + (" " + value)) == Some((name, [], value))
  {
    var line := name + (" " + value);
    NameEndIs(name, " " + value);
    assert line[..|name|] == name && line[|name| + 1..] == value;
  }

  lemma {:induction false} ReadsLabelled(name: string, text: string, labels: seq<Label>, rest: string, value: string)
    requires IsName(name) && rest == "} " + value && ReadLabels(text) == Some((labels, rest))
    ensures ReadSeries(name + ("{" + text)) == Some((name, labels, value))
  {
    var line := name + ("{" + text);
    NameEndIs(name, "{" + text);
    assert line[..|name|] == name && line[|name| + 1..] == text;
    assert rest[2..] == value && rest[0] == '}' && rest[1] == ' ';
    assert ReadSeries(line) == AfterLabels(name, ReadLabels(text));
  }

  /** A series line determines its name, its labels and its value. */
  lemma {:induction false} SeriesReadsBack(name: string, labels: seq<Label>, value: string)
    requires IsName(name) && forall l :: l in labels ==> '=' !in l.key
    ensures ReadSeries(Series(name, labels, value)) == Some((name, labels, value))
  {
    if labels == [] {
      ReadsBare(name, value);
      assert Series(name, labels, value) == name + (" " + value);
    } else {
      var rest := "} " + value;
      LabelsReadBack(labels, rest);
      ReadsLabelled(name, LabelsText(labels) + rest, labels, rest, value);
      SeriesCut(name, LabelsText(labels), value);
    }
  }

  lemma SeriesCut(name: string, text: string, value: string)
    ensures name + ("{" + text + "}") + " " + value == name + ("{" + (text + ("} " + value)))
  {}

  // ---------- the renderer ----------

  /** The finished groups, a blank line between any two. */
  function Output(groups: seq<string>): string {
    if groups == [] then ""
    else
      var n := |groups| - 1;
      Output(groups[..n]) + (if n == 0 then "" else "\n") + groups[n]
  }

  class Renderer {
    var output: string
    var metricBuffer: string
    var labelsBuffer: string
    var nameBuffer: string
    var groupsWritten: nat

    /** What the renderer has put out so far. */
    ghost predicate Wrote(groups: seq<string>)
      reads this
    {
      groupsWritten == |groups| && output == Output(groups)
    }

    constructor ()
      ensures Wrote([])
    {
      output, metricBuffer, labelsBuffer, nameBuffer, groupsWritten := "", "", "", "", 0;
    }

    method FinishGroup(ghost groups: seq<string>)
      requires Wrote(groups)
      modifies `output, `groupsWritten
      ensures Wrote(groups + [metricBuffer])
    {
      if groupsWritten > 0 {
        output := output + "\n";
      }
      output := output + metricBuffer;
      groupsWritten := groupsWritten + 1;
      assert (groups + [metricBuffer])[..|groups|] == groups;
    }

    method NormalizeName(name: string)
      modifies `nameBuffer
      ensures nameBuffer == Normalized(name)
    {
      nameBuffer := "";
      for i := 0 to |name|
        invariant nameBuffer == Normalized(name[..i])
      {
        assert name[..i + 1][..i] == name[..i];
        var c := name[i];
        if (i == 0 && IsNameStart(c)) || (i != 0 && IsNameChar(c)) {
          nameBuffer := nameBuffer + [c];
        } else {
          nameBuffer := nameBuffer + if c == '.' then "__" else "_";
        }
      }
      assert name[..|name|] == name;
    }

    /** Appends a label value, escaped. */
    method PushEscaped(value: string)
      modifies `labelsBuffer
      ensures labelsBuffer == old(labelsBuffer) + Escape(value)
    {
      for i := 0 to |value|
        invariant labelsBuffer == old(labelsBuffer) + Escape(value[..i])
      {
        assert value[..i + 1] == value[..i] + [value[i]];
        EscapeConcat(value[..i], [value[i]]);
        assert [value[i]][1..] == "";
        match value[i]
        case '\\' => labelsBuffer := labelsBuffer + "\\\\";
        case '"' => labelsBuffer := labelsBuffer + "\\\"";
        case '\n' => labelsBuffer := labelsBuffer + "\\n";
        case c => labelsBuffer := labelsBuffer + [c];
      }
      assert value[..|value|] == value;
    }

    method PushLabel(l: Label)
      modifies `labelsBuffer
      ensures labelsBuffer == old(labelsBuffer) + LabelText(l)
    {
      labelsBuffer := labelsBuffer + (l.key + "=\"");
      PushEscaped(l.value);
      labelsBuffer := labelsBuffer + "\"";
    }

    method FormatLabels(labels: seq<Label>) returns (hasLabels: bool)
      modifies `labelsBuffer
      ensures labelsBuffer == LabelsText(labels) && hasLabels == (labels != [])
    {
      labelsBuffer, hasLabels := "", false;
      for i := 0 to |labels|
        invariant labelsBuffer == LabelsText(labels[..i]) && hasLabels == (i > 0)
      {
        assert labels[..i + 1] == labels[..i] + [labels[i]];
        LabelsTextSnoc(labels[..i], labels[i]);
        if hasLabels {
          labelsBuffer := labelsBuffer + ",";
        }
        PushLabel(labels[i]);
        hasLabels := true;
      }
      assert labels[..|labels|] == labels;
    }

    method PushBraced()
      modifies `metricBuffer
      ensures metricBuffer == old(metricBuffer) + ("{" + labelsBuffer + "}")
    {
      metricBuffer := metricBuffer + "{";
      metricBuffer := metricBuffer + labelsBuffer;
      metricBuffer := metricBuffer + "}";
    }

    /** Appends a series line to the group. */
    method WriteSeries(labels: seq<Label>, value: string)
      modifies `labelsBuffer, `metricBuffer
      ensures metricBuffer == old(metricBuffer) + (Series(nameBuffer, labels, value) + "\n")
    {
      var hasLabels := FormatLabels(labels);
      ghost var before := metricBuffer;
      metricBuffer := metricBuffer + nameBuffer;
      if hasLabels {
        PushBraced();
      } else {
        AppendNothing(metricBuffer);
      }
      assert metricBuffer == before + nameBuffer + Braced(labels);
      AppendLine(before, nameBuffer, Braced(labels), " ", value, "\n");
      metricBuffer := metricBuffer + (" " + value + "\n");
    }
  }

  lemma AppendNothing(a: string)
    ensures a + "" == a
  {}

  lemma AppendLine(a: string, b: string, c: string, d: string, e: string, f: string)
    ensures a + b + c + (d + e + f) == a + (b + c + d + e + f)
  {}
}
