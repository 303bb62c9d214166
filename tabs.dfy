/**
 * Leading-tab expansion: the callback of `preg_replace_callback('/^\t+/', ...)`
 * in `check_line_lengths`, stated directly on the leading run of tabs instead
 * of through a regular-expression engine.
 */
module Tabs {

  /** Length of the maximal run of '\t' at the start of `line`. */
  function LeadingTabs(line: string): (k: nat)
    ensures k <= |line|
    ensures forall j :: 0 <= j < k ==> line[j] == '\t'
    ensures k < |line| ==> line[k] != '\t'
  {
    if |line| > 0 && line[0] == '\t' then 1 + LeadingTabs(line[1..]) else 0
  }

  /** `str_repeat(' ', n)`. */
  function Spaces(n: nat): (s: string)
    ensures |s| == n
    ensures forall j :: 0 <= j < n ==> s[j] == ' '
  {
    seq(n, _ => ' ')
  }

  /**
   * The line with its leading run of `k` tabs replaced by `tw * k` spaces;
   * a line with no leading tab is returned as it is. `ExpandShape` gives the
   * full shape.
   */
  function ExpandLeadingTabs(line: string, tw: nat): (r: string)
    ensures LeadingTabs(line) == 0 ==> r == line
  {
    var k := LeadingTabs(line);
    Spaces(tw * k) + line[k..]
  }

  /**
   * Reference definition, one tab at a time: each tab at the front of the
   * line becomes `tw` spaces, and the first other character stops the rewrite.
   */
  function ExpandEachTab(line: string, tw: nat): string
  {
    if |line| > 0 && line[0] == '\t' then Spaces(tw) + ExpandEachTab(line[1..], tw) else line
  }

  lemma SpacesAdd(a: nat, b: nat)
    ensures Spaces(a + b) == Spaces(a) + Spaces(b)
  {
  }

  lemma MulSucc(tw: nat, k: nat)
    ensures tw * (1 + k) == tw + tw * k
  {
  }

  /** A line starting with a tab expands to `tw` spaces, then the expansion of the rest. */
  lemma ExpandStep(line: string, tw: nat)
    requires |line| > 0 && line[0] == '\t'
    ensures ExpandLeadingTabs(line, tw) == Spaces(tw) + ExpandLeadingTabs(line[1..], tw)
  {
    var rest := line[1..];
    var k := LeadingTabs(rest);
    assert LeadingTabs(line) == 1 + k;
    MulSucc(tw, k);
    SpacesAdd(tw, tw * k);
    var head, tabs, tail := Spaces(tw), Spaces(tw * k), rest[k..];
    assert line[1 + k..] == tail;
    assert (head + tabs) + tail == head + (tabs + tail);
  }

  /** The run-at-once replacement agrees with the tab-by-tab reference. */
  lemma {:induction false} ExpandMatchesReference(line: string, tw: nat)
    ensures ExpandLeadingTabs(line, tw) == ExpandEachTab(line, tw)
  {
    if |line| > 0 && line[0] == '\t' {
      ExpandMatchesReference(line[1..], tw);
      ExpandStep(line, tw);
    }
  }

  /**
   * The shape of an expanded line: `tw * k` spaces where the `k` leading tabs
   * were, then the rest of the line (later tabs included) unchanged.
   */
  lemma ExpandShape(line: string, tw: nat)
    ensures var k := LeadingTabs(line);
            var r := ExpandLeadingTabs(line, tw);
            |r| == |line| - k + tw * k &&
            (forall j :: 0 <= j < tw * k ==> r[j] == ' ') &&
            r[tw * k..] == line[k..]
  {
    var k := LeadingTabs(line);
    var m := tw * k;
    var r := ExpandLeadingTabs(line, tw);
    assert r == Spaces(m) + line[k..];
    assert r[m..] == line[k..];
  }

  /** An expanded line keeps its text in place exactly when it had no leading tab. */
  lemma ExpandIdentityIff(line: string, tw: nat)
    ensures ExpandLeadingTabs(line, tw) == line <==> LeadingTabs(line) == 0
  {
    var k := LeadingTabs(line);
    var r := ExpandLeadingTabs(line, tw);
    if k > 0 && tw > 0 {
      assert tw * k > 0;
      assert r[0] == ' ' && line[0] == '\t';
    }
    if k == 0 {
      assert line[0..] == line;
    }
  }

  /** With a tab width of zero the leading tabs are removed. */
  lemma ExpandZeroWidth(line: string)
    ensures ExpandLeadingTabs(line, 0) == line[LeadingTabs(line)..]
  {
  }

  /** Expanding an already expanded line changes nothing. */
  lemma ExpandIdempotent(line: string, tw: nat)
    ensures ExpandLeadingTabs(ExpandLeadingTabs(line, tw), tw) == ExpandLeadingTabs(line, tw)
  {
    var k := LeadingTabs(line);
    var r := ExpandLeadingTabs(line, tw);
    if tw * k > 0 {
      assert r[0] == ' ';
    } else if k < |line| {
      assert r == line[k..];
      assert r[0] == line[k];
    }
    ExpandIdentityIff(r, tw);
  }

  /** Only the leading run is rewritten: "\t\tfoo\tbar" with width 2. */
  lemma ExpandExample()
    ensures ExpandLeadingTabs("\t\tfoo\tbar", 2) == "    foo\tbar"
  {
    var line := "\t\tfoo\tbar";
    assert line[1..][1..] == "foo\tbar" == line[2..];
    assert LeadingTabs("foo\tbar") == 0;
    assert LeadingTabs(line[1..]) == 1;
    assert LeadingTabs(line) == 2;
    assert Spaces(4) == "    ";
  }
}
