/**
 * The options of `check_line_lengths`: a record of defaults that the caller's
 * array overrides key by key (`array_merge($defaults, $options)`).
 */
module Config {
  import opened Wrappers

  /**
   * tw: spaces per leading tab; fn: prefix the file name; ln: prefix the
   * 1-based line number; sl: append the length; lm: the largest length that
   * is not reported; tr: print the expanded line rather than the original.
   */
  datatype Options = Options(tw: nat, fn: bool, ln: bool, sl: bool, lm: int, tr: bool)

  /** What the caller passed: each of the six keys present or absent. */
  datatype Overrides = Overrides(
    tw: Option<nat>, fn: Option<bool>, ln: Option<bool>,
    sl: Option<bool>, lm: Option<int>, tr: Option<bool>)

  const Defaults := Options(4, false, true, true, 80, true)

  /** An empty options array. */
  const NoOverrides := Overrides(None, None, None, None, None, None)

  /** Every key present, with the values of `o`. */
  function AllOf(o: Options): Overrides
  {
    Overrides(Some(o.tw), Some(o.fn), Some(o.ln), Some(o.sl), Some(o.lm), Some(o.tr))
  }

  /** The effective options: the caller's value for each present key, else the default. */
  function Merge(ov: Overrides): (o: Options)
    ensures o.tw == (if ov.tw.Some? then ov.tw.value else 4)
    ensures o.fn == (if ov.fn.Some? then ov.fn.value else false)
    ensures o.ln == (if ov.ln.Some? then ov.ln.value else true)
    ensures o.sl == (if ov.sl.Some? then ov.sl.value else true)
    ensures o.lm == (if ov.lm.Some? then ov.lm.value else 80)
    ensures o.tr == (if ov.tr.Some? then ov.tr.value else true)
  {
    Options(GetOr(ov.tw, Defaults.tw), GetOr(ov.fn, Defaults.fn), GetOr(ov.ln, Defaults.ln),
            GetOr(ov.sl, Defaults.sl), GetOr(ov.lm, Defaults.lm), GetOr(ov.tr, Defaults.tr))
  }

  /** An empty options array leaves the defaults; a full one replaces them all. */
  lemma MergeExtremes(o: Options)
    ensures Merge(NoOverrides) == Defaults
    ensures Merge(AllOf(o)) == o
  {
  }
}
