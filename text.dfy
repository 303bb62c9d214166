/**
 * Text as sequences of characters: splitting on the line separator (PHP's
 * `explode("\n", ...)`), joining back (`implode`), and the decimal rendering of
 * a natural number used when an integer is concatenated into a string.
 */
module Text {

  /** Number of line separators in `s`. */
  function CountNewlines(s: string): nat
  {
    multiset(s)['\n']
  }

  /** Position of the first `c` in `s`, or `|s|` when there is none. */
  function IndexOf(s: string, c: char): (i: nat)
    ensures i <= |s|
    ensures c !in s[..i]
    ensures i < |s| ==> s[i] == c
  {
    if |s| == 0 || s[0] == c then 0
    else
      var j := IndexOf(s[1..], c);
      assert s[..1 + j] == [s[0]] + s[1..][..j];
      1 + j
  }

  /** The first `c` of `a + [c] + b`, when `a` has none, is the one after `a`. */
  lemma {:induction false} IndexOfAfter(a: string, c: char, b: string)
    requires c !in a
    ensures IndexOf(a + [c] + b, c) == |a|
  {
    if |a| > 0 {
      assert a[0] in a;
      assert (a + [c] + b)[1..] == a[1..] + [c] + b;
      IndexOfAfter(a[1..], c, b);
    }
  }

  /** Position of the last `c` in `s`, which has one. */
  function LastIndexOf(s: string, c: char): (i: nat)
    requires c in s
    ensures i < |s| && s[i] == c
    ensures c !in s[i + 1..]
  {
    var n := |s| - 1;
    if s[n] == c then n
    else
      assert s == s[..n] + [s[n]];
      var j := LastIndexOf(s[..n], c);
      assert s[j + 1..] == s[..n][j + 1..] + [s[n]];
      j
  }

  /** The last `c` of `a + [c] + b`, when `b` has none, is the one before `b`. */
  lemma {:induction false} LastIndexOfBefore(a: string, c: char, b: string)
    requires c !in b
    ensures LastIndexOf(a + [c] + b, c) == |a|
    decreases |b|
  {
    var s := a + [c] + b;
    if |b| > 0 {
      var n := |b| - 1;
      assert b[n] in b;
      assert s[..|s| - 1] == a + [c] + b[..n];
      LastIndexOfBefore(a, c, b[..n]);
    }
  }

  /** No line of `lines` contains a separator. */
  predicate NoNewlines(lines: seq<string>)
  {
    forall k :: 0 <= k < |lines| ==> '\n' !in lines[k]
  }

  /** `explode("\n", s)`: the pieces between separators, in order, never empty. */
  function Split(s: string): (lines: seq<string>)
    ensures |lines| >= 1
    ensures NoNewlines(lines)
    decreases |s|
  {
    var i := IndexOf(s, '\n');
    if i == |s| then [s] else [s[..i]] + Split(s[i + 1..])
  }

  /** `implode("\n", lines)`: the pieces with one separator between neighbours. */
  function Join(lines: seq<string>): string
  {
    if |lines| == 0 then ""
    else if |lines| == 1 then lines[0]
    else lines[0] + "\n" + Join(lines[1..])
  }

  /** Putting one more line in front of a non-empty list of lines. */
  lemma JoinCons(first: string, lines: seq<string>)
    requires |lines| >= 1
    ensures Join([first] + lines) == first + "\n" + Join(lines)
  {
    assert ([first] + lines)[1..] == lines;
  }

  /** A text is the part before a separator, the separator, and the part after it. */
  lemma AroundSeparator(s: string, i: nat)
    requires i < |s| && s[i] == '\n'
    ensures s == s[..i] + "\n" + s[i + 1..]
  {
  }

  /** Joining the pieces of a split gives the text back. */
  lemma {:induction false} JoinSplit(s: string)
    ensures Join(Split(s)) == s
    decreases |s|
  {
    var i := IndexOf(s, '\n');
    if i < |s| {
      var rest := Split(s[i + 1..]);
      JoinSplit(s[i + 1..]);
      assert Split(s) == [s[..i]] + rest;
      JoinCons(s[..i], rest);
      AroundSeparator(s, i);
    }
  }

  /** A text with `n` separators splits into `n + 1` lines. */
  lemma {:induction false} SplitCount(s: string)
    ensures |Split(s)| == CountNewlines(s) + 1
    decreases |s|
  {
    var i := IndexOf(s, '\n');
    if i == |s| {
      assert '\n' !in s;
    } else {
      SplitCount(s[i + 1..]);
      AroundSeparator(s, i);
      assert '\n' !in s[..i];
      assert multiset(s) == multiset(s[..i]) + multiset("\n") + multiset(s[i + 1..]);
    }
  }

  /** Splitting a join of separator-free lines gives the same lines back. */
  lemma {:induction false} SplitJoin(lines: seq<string>)
    requires |lines| >= 1
    requires NoNewlines(lines)
    ensures Split(Join(lines)) == lines
  {
    if |lines| > 1 {
      var rest := Join(lines[1..]);
      assert Join(lines) == lines[0] + "\n" + rest;
      IndexOfAfter(lines[0], '\n', rest);
      var s := Join(lines);
      var n := |lines[0]|;
      assert s[..n] == lines[0];
      assert s[n + 1..] == rest;
      SplitJoin(lines[1..]);
    }
  }

  /** Appending one more line to a non-empty list of lines. */
  lemma {:induction false} JoinSnoc(lines: seq<string>, last: string)
    requires |lines| >= 1
    ensures Join(lines + [last]) == Join(lines) + "\n" + last
  {
    if |lines| == 1 {
      assert Join(lines + [last]) == lines[0] + "\n" + Join([last]);
    } else {
      assert (lines + [last])[1..] == lines[1..] + [last];
      JoinSnoc(lines[1..], last);
    }
  }

  /** Lines each followed by "\n": one more line adds its text and a "\n" at the end. */
  lemma JoinTerminatedSnoc(lines: seq<string>, last: string)
    ensures Join(lines + [last] + [""]) == Join(lines + [""]) + last + "\n"
  {
    if |lines| == 0 {
      assert Join([last] + [""]) == last + "\n" + Join([""]);
    } else {
      JoinSnoc(lines, "");
      JoinSnoc(lines, last);
      JoinSnoc(lines + [last], "");
    }
  }

  /** The decimal digit character for `d`. */
  function DigitChar(d: nat): (c: char)
    requires d < 10
    ensures '0' <= c <= '9'
    ensures c as int - '0' as int == d
  {
    ('0' as int + d) as char
  }

  /** The decimal notation PHP produces for a non-negative integer. */
  function NatToString(n: nat): (s: string)
    ensures |s| >= 1
    ensures IsDigits(s)
    ensures s[0] == '0' ==> n == 0
  {
    if n < 10 then [DigitChar(n)] else NatToString(n / 10) + [DigitChar(n % 10)]
  }

  predicate IsDigits(s: string)
  {
    forall k :: 0 <= k < |s| ==> '0' <= s[k] <= '9'
  }

  /** The value of a string of decimal digits. */
  function ParseDecimal(s: string): nat
    requires IsDigits(s)
  {
    if |s| == 0 then 0
    else 10 * ParseDecimal(s[..|s| - 1]) + (s[|s| - 1] as int - '0' as int)
  }

  /** The text before the first space (all of `s` when there is none). */
  function FirstWord(s: string): string
  {
    s[..IndexOf(s, ' ')]
  }

  /** The text after the last space. */
  function LastWord(s: string): string
    requires ' ' in s
  {
    s[LastIndexOf(s, ' ') + 1..]
  }

  /**
   * In `first + " " + middle + " " + last` with digit-only ends, the first
   * word is `first` and the last word is `last`, whatever `middle` holds.
   */
  lemma FirstAndLastWords(first: string, middle: string, last: string)
    requires IsDigits(first) && IsDigits(last)
    ensures var s := first + " " + middle + " " + last;
            ' ' in s && FirstWord(s) == first && LastWord(s) == last
  {
    var s := first + " " + middle + " " + last;
    assert ' ' !in first && ' ' !in last;
    assert s == first + [' '] + (middle + " " + last);
    IndexOfAfter(first, ' ', middle + " " + last);
    assert s[..|first|] == first;
    assert s == (first + " " + middle) + [' '] + last;
    LastIndexOfBefore(first + " " + middle, ' ', last);
    assert s[|first + " " + middle| + 1..] == last;
  }

  /** Reading back the decimal notation of `n` gives `n`. */
  lemma {:induction false} DecimalRoundTrip(n: nat)
    ensures ParseDecimal(NatToString(n)) == n
  {
    var s := NatToString(n);
    if n >= 10 {
      assert s[..|s| - 1] == NatToString(n / 10);
      DecimalRoundTrip(n / 10);
    } else {
      assert s[..0] == "";
    }
  }

  /** Distinct numbers are printed differently. */
  lemma DecimalInjective(m: nat, n: nat)
    requires NatToString(m) == NatToString(n)
    ensures m == n
  {
    DecimalRoundTrip(m);
    DecimalRoundTrip(n);
  }
}
