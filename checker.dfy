/**
 * `check_line_lengths`: split the contents into lines, expand each line's
 * leading tabs, and report every line whose expanded length exceeds the limit.
 * The violations are first stated as records, in line order; the report
 * string is their presentation, one entry per violation.
 */
module Checker {
  import opened Text
  import opened Tabs
  import opened Config

  /** One reported line: its 1-based number, its text as read and as expanded. */
  datatype Violation = Violation(number: nat, original: string, expanded: string)

  /**
   * The length a line is measured by: characters after leading-tab
   * expansion. A line without leading tabs measures its own length, and with
   * a tab width of at least 1 no line measures less than its own length.
   * `ExpandShape` gives the exact length.
   */
  function VisualLength(line: string, tw: nat): (n: nat)
    ensures LeadingTabs(line) == 0 ==> n == |line|
    ensures tw >= 1 ==> n >= |line|
  {
    ExpandShape(line, tw);
    |ExpandLeadingTabs(line, tw)|
  }

  /** A line is long when its visual length is strictly greater than the limit. */
  predicate IsLong(line: string, o: Options)
  {
    VisualLength(line, o.tw) > o.lm
  }

  /**
   * The violation the line at index `i` gives rise to, when it is long:
   * numbered `i + 1`, with the line as read and as expanded, the latter of
   * the line's visual length.
   */
  function ViolationAt(lines: seq<string>, i: nat, o: Options): (v: Violation)
    requires i < |lines|
    ensures v.number == i + 1 && v.original == lines[i]
    ensures |v.expanded| == VisualLength(lines[i], o.tw)
  {
    Violation(i + 1, lines[i], ExpandLeadingTabs(lines[i], o.tw))
  }

  /** The violations of `lines`, in line order: one record per long line. */
  function Violations(lines: seq<string>, o: Options): (vs: seq<Violation>)
    ensures |vs| <= |lines|
  {
    if |lines| == 0 then []
    else
      var n := |lines| - 1;
      Violations(lines[..n], o) + (if IsLong(lines[n], o) then [ViolationAt(lines, n, o)] else [])
  }

  /** Each record of `vs` is the one of a long line of `lines`, under that line's 1-based number. */
  predicate OnlyLongLines(lines: seq<string>, vs: seq<Violation>, o: Options)
  {
    forall j :: 0 <= j < |vs| ==>
      1 <= vs[j].number <= |lines| &&
      IsLong(lines[vs[j].number - 1], o) &&
      vs[j] == ViolationAt(lines, vs[j].number - 1, o)
  }

  /** The line numbers of `vs` strictly increase. */
  predicate InLineOrder(vs: seq<Violation>)
  {
    forall j, j' :: 0 <= j < j' < |vs| ==> vs[j].number < vs[j'].number
  }

  /** Every reported record is the one of a long line, and the records are in line order. */
  lemma {:induction false} ViolationsSound(lines: seq<string>, o: Options)
    ensures OnlyLongLines(lines, Violations(lines, o), o)
    ensures InLineOrder(Violations(lines, o))
  {
    if |lines| > 0 {
      var n := |lines| - 1;
      var prior := Violations(lines[..n], o);
      ViolationsSound(lines[..n], o);
      var vs := Violations(lines, o);
      var last := if IsLong(lines[n], o) then [ViolationAt(lines, n, o)] else [];
      assert vs == prior + last;
      forall j | 0 <= j < |vs|
        ensures 1 <= vs[j].number <= |lines|
        ensures IsLong(lines[vs[j].number - 1], o)
        ensures vs[j] == ViolationAt(lines, vs[j].number - 1, o)
      {
        if j < |prior| {
          assert vs[j] == prior[j];
          assert lines[..n][prior[j].number - 1] == lines[prior[j].number - 1];
        }
      }
      forall j, j' | 0 <= j < j' < |vs|
        ensures vs[j].number < vs[j'].number
      {
        if j' >= |prior| {
          assert vs[j] == prior[j] && prior[j].number <= n;
        }
      }
    }
  }

  /** Every long line is reported. */
  lemma {:induction false} ViolationsComplete(lines: seq<string>, o: Options, i: nat)
    requires i < |lines| && IsLong(lines[i], o)
    ensures ViolationAt(lines, i, o) in Violations(lines, o)
  {
    var n := |lines| - 1;
    if i < n {
      ViolationsComplete(lines[..n], o, i);
    }
  }

  /** A line is reported, under its own 1-based number, if and only if it is long. */
  lemma ReportedIff(lines: seq<string>, o: Options, i: nat)
    requires i < |lines|
    ensures ViolationAt(lines, i, o) in Violations(lines, o) <==> IsLong(lines[i], o)
    ensures (exists v :: v in Violations(lines, o) && v.number == i + 1) <==> IsLong(lines[i], o)
  {
    if IsLong(lines[i], o) {
      ViolationsComplete(lines, o, i);
    }
    ViolationsSound(lines, o);
  }

  /** There are no violations exactly when no line is long. */
  lemma NoViolationsIff(lines: seq<string>, o: Options)
    ensures Violations(lines, o) == [] <==> forall i :: 0 <= i < |lines| ==> !IsLong(lines[i], o)
  {
    if exists i :: 0 <= i < |lines| && IsLong(lines[i], o) {
      var i :| 0 <= i < |lines| && IsLong(lines[i], o);
      ViolationsComplete(lines, o, i);
    }
  }

  /**
   * One entry of the report without its terminating "\n": the optional
   * "filename:", the optional line number and a space, the line (expanded
   * when `tr`), and the optional space and length.
   */
  function EntryBody(filename: string, v: Violation, o: Options): (r: string)
    ensures '\n' !in filename && '\n' !in v.original && '\n' !in v.expanded ==> '\n' !in r
    ensures !o.fn && !o.ln && !o.sl ==> r == (if o.tr then v.expanded else v.original)
  {
    (if o.fn then filename + ":" else "")
    + (if o.ln then NatToString(v.number) + " " else "")
    + (if o.tr then v.expanded else v.original)
    + (if o.sl then " " + NatToString(|v.expanded|) else "")
  }

  /**
   * The report: each violation's entry followed by "\n", in order, and
   * nothing else. It is empty exactly when there is nothing to report, and
   * otherwise ends with "\n".
   */
  function Format(filename: string, vs: seq<Violation>, o: Options): (r: string)
    ensures r == "" <==> vs == []
    ensures vs != [] ==> r[|r| - 1] == '\n'
  {
    if |vs| == 0 then ""
    else Format(filename, vs[..|vs| - 1], o) + EntryBody(filename, vs[|vs| - 1], o) + "\n"
  }

  /**
   * With line numbers and lengths shown, both can be read back from an
   * entry: after the optional "filename:", the number is the first word and
   * the length the last word, whatever the line holds.
   */
  lemma EntryReadBack(filename: string, v: Violation, o: Options)
    requires o.ln && o.sl
    ensures var body := EntryBody(filename, v, o);
            var skip := if o.fn then |filename| + 1 else 0;
            skip <= |body| && ' ' in body[skip..] &&
            IsDigits(FirstWord(body[skip..])) && ParseDecimal(FirstWord(body[skip..])) == v.number &&
            IsDigits(LastWord(body[skip..])) && ParseDecimal(LastWord(body[skip..])) == |v.expanded|
  {
    var head := if o.fn then filename + ":" else "";
    var number, length := NatToString(v.number), NatToString(|v.expanded|);
    var text := if o.tr then v.expanded else v.original;
    var rest := number + " " + text + " " + length;
    var body := EntryBody(filename, v, o);
    var skip := if o.fn then |filename| + 1 else 0;
    assert skip <= |body| && body[skip..] == rest by {
      EntryParts(filename, v, o);
      assert body == head + rest && skip == |head|;
    }
    assert ' ' in rest && FirstWord(rest) == number && LastWord(rest) == length by {
      FirstAndLastWords(number, text, length);
    }
    assert ParseDecimal(number) == v.number by {
      DecimalRoundTrip(v.number);
    }
    assert ParseDecimal(length) == |v.expanded| by {
      DecimalRoundTrip(|v.expanded|);
    }
  }

  /** With number and length shown, an entry is the optional head, then the number, text and length. */
  lemma EntryParts(filename: string, v: Violation, o: Options)
    requires o.ln && o.sl
    ensures EntryBody(filename, v, o)
            == (if o.fn then filename + ":" else "")
               + (NatToString(v.number) + " " + (if o.tr then v.expanded else v.original)
                  + " " + NatToString(|v.expanded|))
  {
  }

  /** The entry bodies of `vs`, in order. */
  function Bodies(filename: string, vs: seq<Violation>, o: Options): (bs: seq<string>)
    ensures |bs| == |vs|
  {
    if |vs| == 0 then []
    else Bodies(filename, vs[..|vs| - 1], o) + [EntryBody(filename, vs[|vs| - 1], o)]
  }

  /** The report is the entry bodies joined by "\n", with a final "\n" after the last. */
  lemma {:induction false} FormatIsJoin(filename: string, vs: seq<Violation>, o: Options)
    ensures Format(filename, vs, o) == Join(Bodies(filename, vs, o) + [""])
  {
    if |vs| > 0 {
      var n := |vs| - 1;
      var b := EntryBody(filename, vs[n], o);
      var prior := Bodies(filename, vs[..n], o);
      calc {
        Format(filename, vs, o);
        Format(filename, vs[..n], o) + b + "\n";
        { FormatIsJoin(filename, vs[..n], o); }
        Join(prior + [""]) + b + "\n";
        { JoinTerminatedSnoc(prior, b); }
        Join(prior + [b] + [""]);
        Join(Bodies(filename, vs, o) + [""]);
      }
    }
  }

  /** Every violation's text, as read and as expanded, is a single line. */
  predicate SingleLineViolations(vs: seq<Violation>)
  {
    forall j :: 0 <= j < |vs| ==> '\n' !in vs[j].original && '\n' !in vs[j].expanded
  }

  lemma {:induction false} BodiesSingleLine(filename: string, vs: seq<Violation>, o: Options)
    requires '\n' !in filename && SingleLineViolations(vs)
    ensures NoNewlines(Bodies(filename, vs, o) + [""])
  {
    if |vs| > 0 {
      var n := |vs| - 1;
      var prior := Bodies(filename, vs[..n], o);
      assert SingleLineViolations(vs[..n]) by {
        forall j | 0 <= j < n
          ensures '\n' !in vs[..n][j].original && '\n' !in vs[..n][j].expanded
        {
          assert vs[..n][j] == vs[j];
        }
      }
      BodiesSingleLine(filename, vs[..n], o);
      var b := EntryBody(filename, vs[n], o);
      assert '\n' !in b;
      assert Bodies(filename, vs, o) + [""] == prior + [b] + [""];
      forall k | 0 <= k < |prior| + 2
        ensures '\n' !in (prior + [b] + [""])[k]
      {
        if k < |prior| {
          assert (prior + [b] + [""])[k] == (prior + [""])[k];
        }
      }
    }
  }

  /**
   * When the file name has no '\n', the report read back as lines is exactly
   * one line per violation followed by the empty piece after the last "\n".
   */
  lemma ReportLines(filename: string, vs: seq<Violation>, o: Options)
    requires '\n' !in filename && SingleLineViolations(vs)
    ensures Split(Format(filename, vs, o)) == Bodies(filename, vs, o) + [""]
    ensures CountNewlines(Format(filename, vs, o)) == |vs|
  {
    var bs := Bodies(filename, vs, o) + [""];
    var report := Format(filename, vs, o);
    BodiesSingleLine(filename, vs, o);
    FormatIsJoin(filename, vs, o);
    SplitJoin(bs);
    SplitCount(report);
  }

  /** An expanded line of a split text carries no '\n' either. */
  lemma ExpandedSingleLine(line: string, tw: nat)
    requires '\n' !in line
    ensures '\n' !in ExpandLeadingTabs(line, tw)
  {
    var k := LeadingTabs(line);
    assert ExpandLeadingTabs(line, tw) == Spaces(tw * k) + line[k..];
  }

  /** The violations of one more line: those of the lines before, then its own if it is long. */
  lemma ViolationsStep(lines: seq<string>, i: nat, o: Options)
    requires i < |lines|
    ensures Violations(lines[..i + 1], o) ==
            Violations(lines[..i], o) + (if IsLong(lines[i], o) then [ViolationAt(lines, i, o)] else [])
  {
    assert lines[..i + 1][..i] == lines[..i];
  }

  /** Formatting one more violation appends its entry. */
  lemma FormatSnoc(filename: string, vs: seq<Violation>, v: Violation, o: Options)
    ensures Format(filename, vs + [v], o) == Format(filename, vs, o) + EntryBody(filename, v, o) + "\n"
  {
    assert (vs + [v])[..|vs|] == vs;
  }

  /** The report is empty exactly when no line is long. */
  lemma ReportEmptyIff(filename: string, lines: seq<string>, o: Options)
    ensures Format(filename, Violations(lines, o), o) == ""
            <==> forall i :: 0 <= i < |lines| ==> !IsLong(lines[i], o)
  {
    NoViolationsIff(lines, o);
  }

  /** Empty contents are one empty line, which is long only under a negative limit. */
  lemma EmptyContentsReport(filename: string, o: Options)
    ensures Format(filename, Violations(Split(""), o), o) == "" <==> o.lm >= 0
  {
    assert Split("") == [""];
    ReportEmptyIff(filename, [""], o);
  }

  /**
   * When the file name has no '\n', the report of a text has one line per
   * long line of the text, in order, then the empty piece after the last "\n".
   */
  lemma ReportOfContentsLines(filename: string, contents: string, o: Options)
    requires '\n' !in filename
    ensures Split(Format(filename, Violations(Split(contents), o), o))
            == Bodies(filename, Violations(Split(contents), o), o) + [""]
    ensures CountNewlines(Format(filename, Violations(Split(contents), o), o))
            == |Violations(Split(contents), o)|
  {
    ViolationsSingleLine(Split(contents), o);
    ReportLines(filename, Violations(Split(contents), o), o);
  }

  /** The violations of single lines are single lines, as read and as expanded. */
  lemma {:induction false} ViolationsSingleLine(lines: seq<string>, o: Options)
    requires NoNewlines(lines)
    ensures SingleLineViolations(Violations(lines, o))
  {
    if |lines| > 0 {
      var n := |lines| - 1;
      ViolationsSingleLine(lines[..n], o);
      ExpandedSingleLine(lines[n], o.tw);
    }
  }

  /** "short\n" + xs + "\n" splits into "short", xs and a trailing empty line. */
  lemma SplitExample(xs: string)
    requires '\n' !in xs
    ensures Split("short\n" + xs + "\n") == ["short", xs, ""]
  {
    var lines := ["short", xs, ""];
    assert lines[1..] == [xs, ""] && [xs, ""][1..] == [""];
    assert Join([""]) == "";
    assert Join([xs, ""]) == xs + "\n" + "";
    assert Join(lines) == "short" + "\n" + Join([xs, ""]);
    assert "short\n" + xs + "\n" == Join(lines);
    SplitJoin(lines);
  }

  /** Of "short", a 90-character line and "", only the second is long under the defaults. */
  lemma ViolationsExample(xs: string)
    requires |xs| == 90 && xs[0] != '\t'
    ensures Violations(["short", xs, ""], Defaults) == [Violation(2, xs, xs)]
  {
    var lines := ["short", xs, ""];
    assert LeadingTabs(xs) == 0;
    assert ExpandLeadingTabs(xs, 4) == xs by {
      assert xs[0..] == xs;
    }
    assert lines[..2] == ["short", xs] && lines[..2][..1] == ["short"] && ["short"][..0] == [];
    assert !IsLong("short", Defaults) && IsLong(xs, Defaults) && !IsLong("", Defaults);
    assert Violations(["short"], Defaults) == [];
    assert Violations(lines[..2], Defaults) == [Violation(2, xs, xs)];
  }

  /**
   * A 90-character second line that starts with no tab, under the default
   * options, gives the one entry "2 <line> 90".
   */
  lemma LongSecondLineExample(xs: string)
    requires |xs| == 90 && '\n' !in xs && xs[0] != '\t'
    ensures var o := Merge(NoOverrides);
            Format("f", Violations(Split("short\n" + xs + "\n"), o), o) == "2 " + xs + " 90\n"
  {
    var v := Violation(2, xs, xs);
    assert Merge(NoOverrides) == Defaults;
    SplitExample(xs);
    ViolationsExample(xs);
    assert Violations(Split("short\n" + xs + "\n"), Defaults) == [v];
    FormatSnoc("f", [], v, Defaults);
    assert [] + [v] == [v];
    assert Format("f", [v], Defaults) == EntryBody("f", v, Defaults) + "\n";
    EntryExample(v);
  }

  /** The default entry of line 2 with a 90-character text. */
  lemma EntryExample(v: Violation)
    requires v.number == 2 && |v.expanded| == 90 && v.original == v.expanded
    ensures EntryBody("f", v, Defaults) == "2 " + v.expanded + " 90"
  {
    assert NatToString(90) == "90";
    assert NatToString(2) == "2";
  }

  /** Two leading tabs of width 4 before 75 characters measure 83, over the default limit. */
  lemma TabbedLineExample(text: string)
    requires |text| == 75 && text[0] != '\t'
    ensures VisualLength("\t\t" + text, 4) == 83
    ensures IsLong("\t\t" + text, Merge(NoOverrides))
  {
    var line := "\t\t" + text;
    assert line[1..][1..] == text;
    assert LeadingTabs(text) == 0;
    assert LeadingTabs(line[1..]) == 1;
    assert LeadingTabs(line) == 2;
  }

  /**
   * The line-by-line loop of `check_line_lengths`: after the lines before
   * index `i`, `out` holds exactly the report of those lines.
   */
  method CheckLineLengths(filename: string, contents: string, overrides: Overrides) returns (out: string)
    ensures out == Format(filename, Violations(Split(contents), Merge(overrides)), Merge(overrides))
  {
    var options := Merge(overrides);
    var lines := Split(contents);
    out := "";
    assert lines[..|lines|] == lines;
    for i := 0 to |lines|
      invariant out == Format(filename, Violations(lines[..i], options), options)
    {
      var line := lines[i];
      var lineTr := ExpandLeadingTabs(line, options.tw);
      var len := |lineTr|;
      ViolationsStep(lines, i, options);
      if len > options.lm {
        var v := ViolationAt(lines, i, options);
        FormatSnoc(filename, Violations(lines[..i], options), v, options);
        var entry := (if options.fn then filename + ":" else "")
                     + (if options.ln then NatToString(i + 1) + " " else "")
                     + (if options.tr then lineTr else line)
                     + (if options.sl then " " + NatToString(len) else "");
        assert entry == EntryBody(filename, v, options);
        out := out + entry + "\n";
      } else {
        assert Violations(lines[..i + 1], options) == Violations(lines[..i], options);
      }
    }
  }
}
