/** `load_config` and `save_config`: the two settings file, read as the
    lines `readlines` gives and written as two labelled lines. The file
    system is a parameter: the text of the file, or `None` when it does not
    exist. */
module Config {
  import opened Wrappers
  import opened Text

  /** The labels `save_config` writes, and the lower-case prefixes
      `load_config` looks for. */
  const NameLabel: string := "Food Bank Name:"
  const CsvLabel: string := "Inventory CSV:"
  const NamePrefix: string := "food bank name:"
  const CsvPrefix: string := "inventory csv:"

  /** The food bank name and the inventory file, either possibly unset. */
  datatype Settings = Settings(name: Option<string>, csv: Option<string>)

  // Reading lines

  function Concat(lines: seq<string>): string {
    if lines == [] then "" else lines[0] + Concat(lines[1..])
  }

  /** Length of the first line of `text`, its newline included. */
  function LineLength(text: string): (n: nat)
    requires text != []
    ensures 0 < n <= |text|
    ensures '\n' !in text[..n - 1]
    ensures n < |text| ==> text[n - 1] == '\n'
  {
    match IndexOf(text, '\n')
    case Some(i) => i + 1
    case None => |text|
  }

  /** `f.readlines()`: the text cut after each newline. */
  function ReadLines(text: string): seq<string>
    decreases |text|
  {
    if text == [] then []
    else
      var n := LineLength(text);
      [text[..n]] + ReadLines(text[n..])
  }

  /** The first line, then the lines of the rest. */
  lemma ReadLinesCons(text: string)
    requires text != []
    ensures ReadLines(text) == [text[..LineLength(text)]] + ReadLines(text[LineLength(text)..])
  {
  }

  /** Joined together, the lines give back the text. */
  lemma {:induction false} ReadLinesConcat(text: string)
    ensures Concat(ReadLines(text)) == text
    decreases |text|
  {
    if text != [] {
      var n := LineLength(text);
      ReadLinesConcat(text[n..]);
      ConcatCons(text[..n], ReadLines(text[n..]));
      ReadLinesCons(text);
      SplitAt(text, n);
    }
  }

  lemma ConcatCons(line: string, rest: seq<string>)
    ensures Concat([line] + rest) == line + Concat(rest)
  {
    assert ([line] + rest)[1..] == rest;
  }

  /** No line is empty, a newline can only be a line's last character, and
      every line but the last ends with one. */
  lemma {:induction false} ReadLinesShape(text: string)
    ensures var r := ReadLines(text);
            forall i :: 0 <= i < |r| ==>
              && r[i] != [] && '\n' !in r[i][..|r[i]| - 1]
              && (i < |r| - 1 ==> r[i][|r[i]| - 1] == '\n')
    decreases |text|
  {
    if text != [] {
      var n := LineLength(text);
      var rest := ReadLines(text[n..]);
      ReadLinesShape(text[n..]);
      ReadLinesCons(text);
      FirstLineShape(text);
      var r := [text[..n]] + rest;
      forall i | 1 <= i < |r| ensures r[i] == rest[i - 1] { }
    }
  }

  /** The first line is not empty, holds a newline only at its end, and
      ends with one when text follows it. */
  lemma FirstLineShape(text: string)
    requires text != []
    ensures var n := LineLength(text);
            && '\n' !in text[..n][..n - 1]
            && (n < |text| ==> text[..n][n - 1] == '\n')
  {
    var n := LineLength(text);
    assert text[..n][..n - 1] == text[..n - 1];
  }

  /** The lines after `strip()`, without the empty ones: `non_empty`. */
  function ConfigLines(lines: seq<string>): (r: seq<string>)
    ensures forall i :: 0 <= i < |r| ==> r[i] != [] && IsStripped(r[i])
    ensures |r| <= |lines|
  {
    if lines == [] then []
    else
      var l := Strip(lines[0]);
      StripSpec(lines[0]);
      if l == [] then ConfigLines(lines[1..]) else [l] + ConfigLines(lines[1..])
  }

  /** Dropping blank lines works line by line: the kept lines of a
      concatenation are the kept lines of each part, in order, and a single
      line is kept, stripped, exactly when it is not blank. */
  lemma {:induction false} ConfigLinesInOrder(a: seq<string>, b: seq<string>)
    ensures ConfigLines(a + b) == ConfigLines(a) + ConfigLines(b)
    ensures |a| == 1 ==> ConfigLines(a) == if Strip(a[0]) == [] then [] else [Strip(a[0])]
    decreases |a|
  {
    if a == [] {
      assert a + b == b;
    } else {
      assert (a + b)[0] == a[0];
      assert (a + b)[1..] == a[1..] + b;
      ConfigLinesInOrder(a[1..], b);
      if |a| == 1 {
        assert a[1..] == [];
      }
    }
  }

  /** A line is kept exactly when it is the stripped form of some line and
      is not empty. */
  lemma {:induction false} ConfigLinesMembers(lines: seq<string>)
    ensures forall l :: l in ConfigLines(lines) <==>
                          l != [] && exists i :: 0 <= i < |lines| && Strip(lines[i]) == l
    decreases |lines|
  {
    if lines != [] {
      var t := lines[1..];
      ConfigLinesMembers(t);
      forall l
        ensures l in ConfigLines(lines) <==> l != [] && exists i :: 0 <= i < |lines| && Strip(lines[i]) == l
      {
        if l != [] && exists i :: 0 <= i < |lines| && Strip(lines[i]) == l {
          var i :| 0 <= i < |lines| && Strip(lines[i]) == l;
          if i > 0 {
            assert t[i - 1] == lines[i];
          }
        }
        if l in ConfigLines(t) {
          var i :| 0 <= i < |t| && Strip(t[i]) == l;
          assert lines[i + 1] == t[i];
        }
      }
    }
  }

  // One line

  /** `line.lower().startswith(prefix)`. */
  predicate IsSettingLine(line: string, prefix: string) {
    StartsWith(Lower(line), prefix)
  }

  /** A line that matches a prefix ending in ':' has a colon. */
  lemma SettingLineColon(line: string, prefix: string)
    requires prefix != [] && prefix[|prefix| - 1] == ':'
    requires IsSettingLine(line, prefix)
    ensures ':' in line
  {
    var k := |prefix| - 1;
    assert Lower(line)[k] == ':';
    assert line[k] == ':';
  }

  /** `line.split(":", 1)[1]`: what follows the first colon. */
  function AfterColon(line: string): (r: string)
    requires ':' in line
    ensures |r| < |line| && line[|line| - |r| - 1] == ':'
    ensures ':' !in line[..|line| - |r| - 1]
    ensures r == line[|line| - |r|..]
  {
    var i := IndexOf(line, ':').value;
    line[i + 1..]
  }

  /** The stripped text after the first colon. */
  function ValueOf(line: string): (r: string)
    requires ':' in line
    ensures IsStripped(r)
  {
    StripSpec(AfterColon(line));
    Strip(AfterColon(line))
  }

  /** No line is both a name line and a file line. */
  lemma PrefixesExclusive(line: string)
    ensures !(IsSettingLine(line, NamePrefix) && IsSettingLine(line, CsvPrefix))
  {
  }

  /** One pass of the loop: a name line sets the name, otherwise a file
      line sets the file; each overrides what an earlier line gave. */
  function Apply(s: Settings, line: string): (r: Settings)
    ensures IsSettingLine(line, NamePrefix) ==> ':' in line && r == s.(name := Some(ValueOf(line)))
    ensures IsSettingLine(line, CsvPrefix) ==> ':' in line && r == s.(csv := Some(ValueOf(line)))
    ensures !IsSettingLine(line, NamePrefix) && !IsSettingLine(line, CsvPrefix) ==> r == s
  {
    PrefixesExclusive(line);
    if IsSettingLine(line, NamePrefix) then
      SettingLineColon(line, NamePrefix);
      s.(name := Some(ValueOf(line)))
    else if IsSettingLine(line, CsvPrefix) then
      SettingLineColon(line, CsvPrefix);
      s.(csv := Some(ValueOf(line)))
    else s
  }

  /** `for line in non_empty`. */
  function Scan(s: Settings, lines: seq<string>): Settings
    decreases |lines|
  {
    if lines == [] then s else Scan(Apply(s, lines[0]), lines[1..])
  }

  /** An empty value counts as unset. */
  function NoneIfEmpty(v: Option<string>): (r: Option<string>)
    ensures r.Some? <==> v.Some? && v.value != ""
    ensures r.Some? ==> r == v
  {
    if v == Some("") then None else v
  }

  /** `load_config`: a missing file or one with no non-blank line gives
      neither setting; otherwise the lines are scanned and an empty value
      becomes unset. */
  function LoadConfig(file: Option<string>): (r: Settings)
    ensures file.None? ==> r == Settings(None, None)
    ensures r.name.Some? ==> r.name.value != "" && IsStripped(r.name.value)
    ensures r.csv.Some? ==> r.csv.value != "" && IsStripped(r.csv.value)
  {
    match file
    case None => Settings(None, None)
    case Some(text) =>
      var lines := ConfigLines(ReadLines(text));
      if lines == [] then Settings(None, None)
      else
        var s := Scan(Settings(None, None), lines);
        ScanValues(Settings(None, None), lines);
        Settings(NoneIfEmpty(s.name), NoneIfEmpty(s.csv))
  }

  /** Every value the loop keeps came from `ValueOf`, so it is stripped. */
  lemma {:induction false} ScanValues(s: Settings, lines: seq<string>)
    requires s.name.Some? ==> IsStripped(s.name.value)
    requires s.csv.Some? ==> IsStripped(s.csv.value)
    ensures Scan(s, lines).name.Some? ==> IsStripped(Scan(s, lines).name.value)
    ensures Scan(s, lines).csv.Some? ==> IsStripped(Scan(s, lines).csv.value)
    decreases |lines|
  {
    if lines != [] {
      ScanValues(Apply(s, lines[0]), lines[1..]);
    }
  }

  // The last matching line wins

  /** Index of the last line matching `prefix`, searched from the end. */
  function LastMatch(lines: seq<string>, prefix: string): (r: Option<nat>)
    ensures r.Some? ==> r.value < |lines| && IsSettingLine(lines[r.value], prefix)
                        && forall j :: r.value < j < |lines| ==> !IsSettingLine(lines[j], prefix)
    ensures r.None? ==> forall j :: 0 <= j < |lines| ==> !IsSettingLine(lines[j], prefix)
    decreases |lines|
  {
    if lines == [] then None
    else if IsSettingLine(lines[|lines| - 1], prefix) then Some(|lines| - 1)
    else LastMatch(lines[..|lines| - 1], prefix)
  }

  /** The value on the last line matching `prefix`, if any. */
  function LastValue(lines: seq<string>, prefix: string): Option<string>
    requires prefix == NamePrefix || prefix == CsvPrefix
  {
    match LastMatch(lines, prefix)
    case None => None
    case Some(i) =>
      SettingLineColon(lines[i], prefix);
      Some(ValueOf(lines[i]))
  }

  /** The last match is the only index with the properties `LastMatch`
      promises. */
  lemma LastMatchUnique(lines: seq<string>, prefix: string, r: Option<nat>)
    requires r.Some? ==> r.value < |lines| && IsSettingLine(lines[r.value], prefix)
                         && forall j :: r.value < j < |lines| ==> !IsSettingLine(lines[j], prefix)
    requires r.None? ==> forall j :: 0 <= j < |lines| ==> !IsSettingLine(lines[j], prefix)
    ensures LastMatch(lines, prefix) == r
  {
    var m := LastMatch(lines, prefix);
  }

  /** The last match in a list is the last match in its tail, or else its
      head when that matches. */
  lemma LastMatchCons(lines: seq<string>, prefix: string)
    requires lines != []
    ensures LastMatch(lines, prefix)
            == match LastMatch(lines[1..], prefix)
               case Some(j) => Some(j + 1)
               case None => if IsSettingLine(lines[0], prefix) then Some(0) else None
  {
    var t := lines[1..];
    var r := match LastMatch(t, prefix)
             case Some(j) => Some(j + 1)
             case None => if IsSettingLine(lines[0], prefix) then Some(0) else None;
    assert forall j :: 0 < j < |lines| ==> lines[j] == t[j - 1];
    LastMatchUnique(lines, prefix, r);
  }

  /** The loop leaves each setting at the value of the last line that sets
      it, or as it was when no line does. */
  lemma {:induction false} ScanFindsLast(s: Settings, lines: seq<string>)
    ensures Scan(s, lines).name == (if LastMatch(lines, NamePrefix).Some? then LastValue(lines, NamePrefix) else s.name)
    ensures Scan(s, lines).csv == (if LastMatch(lines, CsvPrefix).Some? then LastValue(lines, CsvPrefix) else s.csv)
    decreases |lines|
  {
    if lines != [] {
      var t := lines[1..];
      ScanFindsLast(Apply(s, lines[0]), t);
      LastMatchCons(lines, NamePrefix);
      LastMatchCons(lines, CsvPrefix);
      if LastMatch(t, NamePrefix).Some? {
        assert lines[LastMatch(t, NamePrefix).value + 1] == t[LastMatch(t, NamePrefix).value];
      }
      if LastMatch(t, CsvPrefix).Some? {
        assert lines[LastMatch(t, CsvPrefix).value + 1] == t[LastMatch(t, CsvPrefix).value];
      }
    }
  }

  /** What `load_config` returns for an existing file: for each setting,
      the value on the last non-blank line carrying its lead (matched
      without regard to case), unset when no line carries it or its value
      is empty. */
  lemma LoadConfigLastWins(text: string)
    ensures var lines := ConfigLines(ReadLines(text));
            LoadConfig(Some(text))
            == Settings(NoneIfEmpty(LastValue(lines, NamePrefix)), NoneIfEmpty(LastValue(lines, CsvPrefix)))
  {
    ScanFindsLast(Settings(None, None), ConfigLines(ReadLines(text)));
  }

  /** A file of whitespace only sets nothing. */
  lemma {:induction false} BlankFile(text: string)
    requires forall k :: 0 <= k < |text| ==> IsSpace(text[k])
    ensures ConfigLines(ReadLines(text)) == []
    ensures LoadConfig(Some(text)) == Settings(None, None)
    decreases |text|
  {
    if text != [] {
      var n := LineLength(text);
      var r := ReadLines(text);
      assert r[0] == text[..n] && r[1..] == ReadLines(text[n..]);
      StripAllSpace(text[..n]);
      BlankFile(text[n..]);
    }
  }

  // Writing

  /** `value.strip() if value else ""`: an unset or empty value is written
      as nothing. */
  function Written(v: Option<string>): (r: string)
    ensures IsStripped(r)
    ensures v.None? ==> r == ""
    ensures v.Some? ==> forall c :: c in r ==> c in v.value
    ensures v.Some? ==> r == Strip(v.value)
  {
    if v.Some? && v.value != "" then
      StripSpec(v.value);
      Strip(v.value)
    else ""
  }

  /** `save_config`: the text written, the name line ending in a newline and
      the file line not. */
  function SaveConfig(name: Option<string>, csv: Option<string>): string {
    NameLabel + " " + Written(name) + "\n" + CsvLabel + " " + Written(csv)
  }

  /** What a later `load_config` makes of a written value. */
  function Reread(v: Option<string>): (r: Option<string>)
    ensures r.None? <==> Written(v) == ""
  {
    if Written(v) == "" then None else Some(Written(v))
  }

  /** Loading what `save_config` wrote gives back each value stripped, an
      empty one as unset, when neither value holds a line break (`\n`, or
      a `\r`, which reading in text mode also ends a line at). */
  lemma SaveLoadRoundTrip(name: Option<string>, csv: Option<string>)
    requires name.Some? ==> '\n' !in name.value && '\r' !in name.value
    requires csv.Some? ==> '\n' !in csv.value && '\r' !in csv.value
    ensures LoadConfig(Some(SaveConfig(name, csv))) == Settings(Reread(name), Reread(csv))
  {
    var a, b := Written(name), Written(csv);
    var s1 := NameLabel + TrimRight(" " + a + "\n");
    var s2 := CsvLabel + TrimRight(" " + b);
    SavedLines(name, csv);
    NameLine(TrimRight(" " + a + "\n"));
    CsvLine(TrimRight(" " + b));
    PaddedValue(a, "\n");
    assert " " + b == " " + b + "";
    PaddedValue(b, "");
    ScanTwo(s1, s2);
  }

  /** The non-blank lines of a saved file: the two labelled lines,
      stripped. */
  lemma SavedLines(name: Option<string>, csv: Option<string>)
    requires name.Some? ==> '\n' !in name.value
    requires csv.Some? ==> '\n' !in csv.value
    ensures ConfigLines(ReadLines(SaveConfig(name, csv)))
            == [NameLabel + TrimRight(" " + Written(name) + "\n"), CsvLabel + TrimRight(" " + Written(csv))]
  {
    var a, b := Written(name), Written(csv);
    var v1 := " " + a + "\n";
    var v2 := " " + b;
    var l1 := NameLabel + (" " + a);
    var l2 := CsvLabel + v2;
    assert ReadLines(SaveConfig(name, csv)) == [NameLabel + v1, l2] by {
      NoNewlineInLabels();
      assert '\n' !in l1 && '\n' !in l2;
      SaveConfigShape(a, b);
      ReadTwoLines(l1, l2);
    }
    assert ConfigLines([NameLabel + v1, l2]) == [NameLabel + TrimRight(v1), CsvLabel + TrimRight(v2)] by {
      NameLabelShape();
      CsvLabelShape();
      StripAfterLabel(NameLabel, v1);
      StripAfterLabel(CsvLabel, v2);
      TwoConfigLines(NameLabel + v1, l2, NameLabel + TrimRight(v1), CsvLabel + TrimRight(v2));
    }
  }

  /** `save_config` writes two lines: the name label, a space and the
      written name, ending in a line break, then the file label, a space
      and the written file name, when neither value holds a line break. */
  lemma SaveConfigLines(name: Option<string>, csv: Option<string>)
    requires name.Some? ==> '\n' !in name.value
    requires csv.Some? ==> '\n' !in csv.value
    ensures ReadLines(SaveConfig(name, csv))
            == [NameLabel + " " + Written(name) + "\n", CsvLabel + " " + Written(csv)]
  {
    var a, b := Written(name), Written(csv);
    var l1 := NameLabel + (" " + a);
    var l2 := CsvLabel + (" " + b);
    NoNewlineInLabels();
    assert '\n' !in l1 && '\n' !in l2;
    SaveConfigShape(a, b);
    ReadTwoLines(l1, l2);
    assert l1 + "\n" == NameLabel + " " + a + "\n";
    assert l2 == CsvLabel + " " + b;
  }

  /** The written text is the two lines joined by a line break. */
  lemma SaveConfigShape(a: string, b: string)
    ensures NameLabel + " " + a + "\n" + CsvLabel + " " + b
            == (NameLabel + (" " + a)) + "\n" + (CsvLabel + (" " + b))
    ensures (NameLabel + (" " + a)) + "\n" == NameLabel + (" " + a + "\n")
  {
  }

  lemma NoNewlineInLabels()
    ensures '\n' !in NameLabel && '\n' !in CsvLabel
  {
  }

  /** Lower-casing the labels gives the prefixes. */
  lemma LowerNameLabel()
    ensures Lower(NameLabel) == NamePrefix
  {
    LowerPointwise(NameLabel, NamePrefix);
  }

  lemma LowerCsvLabel()
    ensures Lower(CsvLabel) == CsvPrefix
  {
    LowerPointwise(CsvLabel, CsvPrefix);
  }

  /** Each label's only colon ends it, and it starts and ends with a
      non-space. */
  lemma NameLabelShape()
    ensures ':' !in NameLabel[..|NameLabel| - 1] && NameLabel[|NameLabel| - 1] == ':'
    ensures !IsSpace(NameLabel[0]) && !IsSpace(NameLabel[|NameLabel| - 1])
  {
  }

  lemma CsvLabelShape()
    ensures ':' !in CsvLabel[..|CsvLabel| - 1] && CsvLabel[|CsvLabel| - 1] == ':'
    ensures !IsSpace(CsvLabel[0]) && !IsSpace(CsvLabel[|CsvLabel| - 1])
  {
  }

  /** Text with one newline, between two lines, reads as those two lines. */
  lemma ReadTwoLines(l1: string, l2: string)
    requires '\n' !in l1 && '\n' !in l2 && l2 != []
    ensures ReadLines(l1 + "\n" + l2) == [l1 + "\n", l2]
  {
    var text := l1 + "\n" + l2;
    FirstLine(l1, l2);
    assert text[..|l1| + 1] == l1 + "\n";
    assert text[|l1| + 1..] == l2;
    OneLine(l2);
  }

  /** The first line of `l1 + "\n" + l2` runs up to and including the
      newline. */
  lemma FirstLine(l1: string, l2: string)
    requires '\n' !in l1
    ensures LineLength(l1 + "\n" + l2) == |l1| + 1
  {
    var text := l1 + "\n" + l2;
    assert text[|l1|] == '\n';
    assert text[..|l1|] == l1;
    var r := IndexOf(text, '\n');
    assert r.Some?;
  }

  /** Text without a newline is a single line. */
  lemma OneLine(l: string)
    requires '\n' !in l && l != []
    ensures ReadLines(l) == [l]
  {
    assert LineLength(l) == |l|;
    assert l[..|l|] == l;
    assert l[|l|..] == [];
  }

  /** Stripping a line that starts with a lead only trims the end of what
      follows the lead. */
  lemma StripAfterLabel(lead: string, v: string)
    requires lead != [] && !IsSpace(lead[0]) && !IsSpace(lead[|lead| - 1])
    ensures Strip(lead + v) == lead + TrimRight(v)
  {
    assert TrimLeft(lead + v) == lead + v;
    TrimRightAfter(lead, v);
  }

  /** `TrimRight` stops at a non-space and never reaches into `p`. */
  lemma {:induction false} TrimRightAfter(p: string, v: string)
    requires p != [] && !IsSpace(p[|p| - 1])
    ensures TrimRight(p + v) == p + TrimRight(v)
    decreases |v|
  {
    if v == [] {
      assert p + v == p;
    } else if IsSpace(v[|v| - 1]) {
      assert (p + v)[..|p + v| - 1] == p + v[..|v| - 1];
      TrimRightAfter(p, v[..|v| - 1]);
    }
  }

  /** The padded value " " + a + w, with `w` whitespace, reads as `a`. */
  lemma PaddedValue(a: string, w: string)
    requires IsStripped(a)
    requires forall k :: 0 <= k < |w| ==> IsSpace(w[k])
    ensures Strip(TrimRight(" " + a + w)) == a
  {
    if a == [] {
      PaddedNothing(w);
    } else {
      PaddedWord(a, w);
    }
  }

  lemma PaddedNothing(w: string)
    requires forall k :: 0 <= k < |w| ==> IsSpace(w[k])
    ensures TrimRight(" " + "" + w) == []
  {
    assert " " + "" + w == " " + w;
    StripAllSpace(" " + w);
    TrimRightSpec(" " + w);
  }

  lemma PaddedWord(a: string, w: string)
    requires IsStripped(a) && a != []
    requires forall k :: 0 <= k < |w| ==> IsSpace(w[k])
    ensures Strip(TrimRight(" " + a + w)) == a
  {
    TrimRightPadded(a, w);
    StripSpaced(a);
  }

  /** Whitespace after a word ending in a non-space is trimmed away. */
  lemma TrimRightPadded(a: string, w: string)
    requires a != [] && !IsSpace(a[|a| - 1])
    requires forall k :: 0 <= k < |w| ==> IsSpace(w[k])
    ensures TrimRight(" " + a + w) == " " + a
  {
    TrimRightTrailing(" " + a, w);
    assert (" " + a)[|a|] == a[|a| - 1];
    TrimRightKeeps(" " + a);
  }

  /** One leading space before stripped text is stripped away. */
  lemma StripSpaced(a: string)
    requires IsStripped(a)
    ensures Strip(" " + a) == a
  {
    StripLeadingSpace(" ", a);
    StripOfStripped(a);
  }

  /** Trailing whitespace makes no difference to `TrimRight`. */
  lemma {:induction false} TrimRightTrailing(s: string, w: string)
    requires forall k :: 0 <= k < |w| ==> IsSpace(w[k])
    ensures TrimRight(s + w) == TrimRight(s)
    decreases |w|
  {
    if w == [] {
      assert s + w == s;
    } else {
      assert (s + w)[..|s + w| - 1] == s + w[..|w| - 1];
      TrimRightTrailing(s, w[..|w| - 1]);
    }
  }

  lemma TwoConfigLines(r1: string, r2: string, s1: string, s2: string)
    requires Strip(r1) == s1 && Strip(r2) == s2 && s1 != [] && s2 != []
    ensures ConfigLines([r1, r2]) == [s1, s2]
  {
    assert [r1, r2][1..] == [r2];
    assert [r2][1..] == [];
  }

  /** A line made of the name lead and `t` is a name line whose value is
      `t` stripped. */
  lemma NameLine(t: string)
    ensures IsSettingLine(NameLabel + t, NamePrefix) && !IsSettingLine(NameLabel + t, CsvPrefix)
    ensures ':' in NameLabel + t && ValueOf(NameLabel + t) == Strip(t)
  {
    assert IsSettingLine(NameLabel + t, NamePrefix) by {
      LowerNameLabel();
      LoweredLead(NameLabel, NamePrefix, t);
    }
    PrefixesExclusive(NameLabel + t);
    assert ':' in NameLabel + t && AfterColon(NameLabel + t) == t by {
      NameLabelShape();
      AfterLabel(NameLabel, t);
    }
  }

  /** A line made of the file lead and `t` is a file line, not a name
      line, whose value is `t` stripped. */
  lemma CsvLine(t: string)
    ensures IsSettingLine(CsvLabel + t, CsvPrefix) && !IsSettingLine(CsvLabel + t, NamePrefix)
    ensures ':' in CsvLabel + t && ValueOf(CsvLabel + t) == Strip(t)
  {
    assert IsSettingLine(CsvLabel + t, CsvPrefix) by {
      LowerCsvLabel();
      LoweredLead(CsvLabel, CsvPrefix, t);
    }
    PrefixesExclusive(CsvLabel + t);
    assert ':' in CsvLabel + t && AfterColon(CsvLabel + t) == t by {
      CsvLabelShape();
      AfterLabel(CsvLabel, t);
    }
  }

  /** A line that begins with a lead lower-casing to `prefix` matches it. */
  lemma LoweredLead(lead: string, prefix: string, t: string)
    requires Lower(lead) == prefix
    ensures IsSettingLine(lead + t, prefix)
  {
    LowerAppend(lead, t);
    AppendParts(prefix, Lower(t));
  }

  /** After a lead whose only colon ends it comes exactly what follows. */
  lemma AfterLabel(lead: string, t: string)
    requires lead != [] && ':' !in lead[..|lead| - 1] && lead[|lead| - 1] == ':'
    ensures ':' in lead + t && AfterColon(lead + t) == t
  {
    var line := lead + t;
    assert line[|lead| - 1] == ':';
    assert line[..|lead| - 1] == lead[..|lead| - 1];
  }

  lemma ScanTwo(s1: string, s2: string)
    requires IsSettingLine(s1, NamePrefix) && !IsSettingLine(s2, NamePrefix) && IsSettingLine(s2, CsvPrefix)
    ensures ':' in s1 && ':' in s2
    ensures Scan(Settings(None, None), [s1, s2]) == Settings(Some(ValueOf(s1)), Some(ValueOf(s2)))
  {
    SettingLineColon(s1, NamePrefix);
    SettingLineColon(s2, CsvPrefix);
    var a := Apply(Settings(None, None), s1);
    assert a == Settings(Some(ValueOf(s1)), None);
    var b := Apply(a, s2);
    assert b == Settings(Some(ValueOf(s1)), Some(ValueOf(s2)));
    ScanCons(Settings(None, None), s1, [s2]);
    ScanCons(a, s2, []);
    assert [s1] + [s2] == [s1, s2];
    assert [s2] + [] == [s2];
  }

  lemma ScanCons(s: Settings, line: string, rest: seq<string>)
    ensures Scan(s, [line] + rest) == Scan(Apply(s, line), rest)
  {
    assert ([line] + rest)[1..] == rest;
  }
}
