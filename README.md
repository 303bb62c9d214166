# lingth in Dafny

A model of `check_line_lengths` from lingth, a line-length linter written in PHP.
The function takes a file name, the file's contents and an options array. It
splits the contents on `"\n"` and replaces each line's leading run of tabs by
`tw` spaces per tab. It reports every line whose expanded length is strictly
greater than the limit `lm`. The report is a string with one entry per long
line, in line order. An entry is an optional `filename:`, an optional 1-based
line number and a space, the line (expanded when `tr`, as read otherwise), an
optional space and the length, and a final `"\n"`.

The model has five modules, one per file:

- `Wrappers` (wrappers.dfy): `Option`, for option keys the caller may leave out.
- `Text` (text.dfy): `explode("\n", ...)` as `Split`, its inverse `Join`, the
  decimal notation PHP uses when an integer is concatenated into a string
  (`NatToString`), and a decimal reader used to read a report back.
- `Tabs` (tabs.dfy): the leading-tab callback of `preg_replace_callback('/^\t+/', ...)`.
  It is stated directly on the leading run of tabs, and proved equal to an
  independent tab-by-tab definition (`ExpandMatchesReference`).
- `Config` (config.dfy): the six options, their defaults, and
  `array_merge($defaults, $options)` field by field.
- `Checker` (checker.dfy): the violations as records in line order, the report
  string built from them, and `CheckLineLengths`, the `foreach` loop of the
  source. The loop appends to `out`, and its invariant says that `out` is the
  report of the lines seen so far.

Text is `seq<char>`, one element per character, and a line's length is the
length of that sequence.

The model follows the code on these points, where a reader of the function's
purpose might expect otherwise:

- The code returns only the formatted string. The structured records
  (`Violation`) are the model's own intermediate form, and the string is
  defined from them.
- The code accepts a negative limit, and then every line is reported, even an
  empty one (`EmptyContentsReport`). It also accepts a tab width of 0, which
  removes leading tabs (`ExpandZeroWidth`).
- The code validates no option.

## Model

| member | source | states |
|---|---|---|
| Config.Merge | lingth.php:23-32 | each effective option is the caller's value when that key is present, otherwise the default held in the constant `Defaults` (lines 23-30): tw 4, fn false, ln true, sl true, lm 80, tr true |
| Config.MergeExtremes | lingth.php:23-32 | an empty options array gives exactly the defaults; an array with all six keys gives exactly the caller's values |
| Text.Split | lingth.php:33 | explode gives at least one line, and no line contains "\n" |
| Text.JoinSplit | lingth.php:33 | joining the exploded lines with "\n" gives the contents back, so a trailing "\n" gives a trailing empty line |
| Text.SplitJoin | lingth.php:33 | exploding a "\n"-join of separator-free lines gives those lines back |
| Text.SplitCount | lingth.php:33 | contents with n separators explode into n + 1 lines |
| Text.NatToString | lingth.php:49 | the printed line number is a non-empty string of decimal digits with no leading zero |
| Text.DecimalRoundTrip | lingth.php:49-51 | reading back the printed decimal gives the number |
| Text.DecimalInjective | lingth.php:49-51 | different numbers print differently |
| Tabs.LeadingTabs | lingth.php:40 | the match of `^\t+` has length k: the first k characters are tabs, and the character after them, if any, is not a tab |
| Tabs.Spaces | lingth.php:42 | `str_repeat(' ', n)` is exactly n characters, all of them spaces |
| Tabs.ExpandLeadingTabs | lingth.php:39-45 | defines `$line_tr`: the leading run of k tabs replaced by `Spaces(tw * k)`, the rest of the line kept; its contract states that a line with no leading tab is returned unchanged, and ExpandShape, ExpandMatchesReference, ExpandIdentityIff and ExpandIdempotent carry the rest |
| Tabs.ExpandShape | lingth.php:39-45 | the expanded line has length len - k + tw * k; it starts with tw * k spaces, followed by everything after the leading run, later tabs included, unchanged |
| Tabs.ExpandStep | lingth.php:42 | a line that starts with a tab expands to tw spaces followed by the expansion of the rest of the line |
| Tabs.ExpandMatchesReference | lingth.php:39-45 | replacing the whole run at once equals rewriting each leading tab as tw spaces, one tab at a time |
| Tabs.ExpandIdentityIff | lingth.php:39-45 | expansion leaves a line unchanged if and only if the line has no leading tab |
| Tabs.ExpandZeroWidth | lingth.php:42 | with tw = 0 the leading tabs are removed |
| Tabs.ExpandIdempotent | lingth.php:39-45 | expanding an expanded line changes nothing |
| Tabs.ExpandExample | lingth.php:39-45 | "\t\tfoo\tbar" with width 2 becomes "    foo\tbar" |
| Checker.VisualLength | lingth.php:47 | defines `$len`, the length of the expanded line; a line with no leading tab measures its own length, and with tw >= 1 no line measures less than its own length (ExpandShape gives the exact length). `IsLong`, the test `$len > lm`, is defined from it; ReportedIff, NoViolationsIff and TabbedLineExample carry its properties |
| Checker.ViolationAt | lingth.php:37-51 | the record of the line at index i: numbered i + 1, holding the line as read, and an expanded text whose length is the visual length of that line |
| Checker.Violations | lingth.php:37-53 | the records of the long lines, built from the first line to the last, at most one per line; ViolationsSound, ViolationsComplete and ReportedIff state which lines they are and in what order |
| Checker.ViolationsSound | lingth.php:37-53 | every record is the one of a long line, numbered i + 1 for index i, with the expanded and original text of that line; the numbers strictly increase |
| Checker.ViolationsComplete | lingth.php:47 | every line whose expanded length exceeds lm is reported |
| Checker.ReportedIff | lingth.php:47-49 | line i is reported, under number i + 1, if and only if its expanded length is strictly greater than lm |
| Checker.NoViolationsIff | lingth.php:47 | there are no violations exactly when no line is long |
| Checker.EntryBody | lingth.php:48-51 | one entry without its "\n": it has no "\n" when the file name and the line have none, and with fn, ln and sl all off it is the line itself, expanded when tr; EntryReadBack gives its layout with number and length shown |
| Checker.Format | lingth.php:35-56 | the report of a list of records, starting from `''`: it is "" exactly when there are no records, and otherwise ends with "\n"; FormatIsJoin and ReportLines give its lines |
| Checker.FormatIsJoin | lingth.php:48-52 | the report is the entry bodies joined by "\n", with a final "\n", and nothing else |
| Checker.ReportLines | lingth.php:48-52 | when the file name and the violations' texts, as read and as expanded, have no "\n", exploding the report gives one entry per violation, in order, then one empty piece; the report holds as many "\n" as there are violations |
| Checker.ReportOfContentsLines | lingth.php:33-56 | the same for the report of any contents: the entries never spill across lines |
| Checker.EntryReadBack | lingth.php:48-52 | with ln and sl set, the line number is the first word of an entry after the optional "filename:", and the length is its last word |
| Checker.ReportEmptyIff | lingth.php:35-56 | the report is "" if and only if no line's expanded length exceeds lm |
| Checker.EmptyContentsReport | lingth.php:33-56 | empty contents give an empty report if and only if lm >= 0 |
| Checker.LongSecondLineExample | lingth.php:21-57 | "short\n" + a 90-character line without a leading tab + "\n", under the defaults, reports exactly "2 <line> 90\n" |
| Checker.TabbedLineExample | lingth.php:39-47 | two leading tabs at width 4 before 75 characters measure 83, which is over the default limit |
| Checker.CheckLineLengths | lingth.php:21-57 | the loop returns exactly the report of the violations of the exploded contents under the merged options |

## Left out

- Encoding detection (`mb_detect_encoding`) and `mb_strlen`: the contents are taken as already decoded characters, and a line's length is the number of characters. The model cannot represent a failed detection: when `mb_detect_encoding` returns false, `mb_strlen` throws under PHP 8, and under PHP 7 it returns false, so no line is reported.
- The PCRE engine: the effect of `/^\t+/` and its callback is modelled directly on the leading run of tabs.
- `array_merge` with keys other than the six named options, or with values of other PHP types: options are a typed record.
- Negative tab widths: `str_repeat` fails at run time on a negative count, so `tw` is a `nat`. The source calls `str_repeat` only for a line that starts with a tab, so with a negative `tw` it still reports normally on contents with no leading tab; the type `nat` leaves those inputs out of the model too.
- The closure's capture of `$line_number`: it is unused and changes nothing.
- Reading the file and printing the report: callers do this.
