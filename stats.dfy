/** The per-location aggregate records of the analysis programs and the rule
    that folds one more temperature into a record, together with the
    reference definition they are measured against: the minimum, maximum,
    sum and count of every temperature seen for a location. Temperatures are
    real numbers; the programs' `double` rounding is not modelled. */
module Stats {
  import opened Wrappers

  /** One parsed input line: a location and its temperature (`DataRow`,
      `SADataRow`, or the pair `parse_single_row` returns in analyze.cpp). */
  datatype Row<K> = Row(location: K, temperature: real)

  /** The record of analyze_improved.c, analyze_v1.c and analyze.cpp:
      running minimum, maximum and mean, and the number of lines folded in. */
  datatype Stats = Stats(min: real, max: real, mean: real, numLines: nat)

  /** The record of analyze_v4.c, which keeps the sum instead of the mean. */
  datatype SumStats = SumStats(min: real, max: real, sum: real, numLines: nat)

  /** `stats_init` of analyze_improved.c and analyze_v1.c, and the
      constructor `Stats(a_min, a_max, a_mean)` of analyze.cpp: a record
      holding the given fields and a count of 1. It satisfies the record
      invariant exactly when `min <= mean <= max`. */
  function Init(min: real, max: real, mean: real): (s: Stats)
    ensures s.numLines == 1 && s.min == min && s.max == max && s.mean == mean
    ensures Bounded(s) <==> min <= mean <= max
  {
    Stats(min, max, mean, 1)
  }

  /** `datarow_to_statsnode`: the record seeded by a first temperature. */
  function Seed(t: real): Stats {
    Init(t, t, t)
  }

  /** The in-place update of the record of a location seen before:
      `min = min > t ? t : min`, `max = max < t ? t : max`,
      `mean = (mean * num_lines + t) / (num_lines + 1)`, `num_lines++`. */
  function Update(s: Stats, t: real): Stats {
    Stats(if s.min > t then t else s.min,
          if s.max < t then t else s.max,
          (s.mean * (s.numLines as real) + t) / ((s.numLines + 1) as real),
          s.numLines + 1)
  }

  /** The record invariant: at least one line and `min <= mean <= max`. */
  ghost predicate Bounded(s: Stats) {
    s.numLines >= 1 && s.min <= s.mean <= s.max
  }

  /** `stats_init` in analyze_v4.c: the sum variant, count 1. */
  function SumInit(min: real, max: real, sum: real): (s: SumStats)
    ensures s.numLines == 1 && s.min == min && s.max == max && s.sum == sum
    ensures Mean(s) == sum
  {
    SumStats(min, max, sum, 1)
  }

  function SumSeed(t: real): SumStats {
    SumInit(t, t, t)
  }

  /** The update of analyze_v4.c: `min`/`max` as above, `sum += t`, `num_lines++`. */
  function SumUpdate(s: SumStats, t: real): SumStats {
    SumStats(if s.min > t then t else s.min,
             if s.max < t then t else s.max,
             s.sum + t,
             s.numLines + 1)
  }

  /** The mean analyze_v4.c reports: `sum / num_lines`. */
  function Mean(s: SumStats): real
    requires s.numLines > 0
  {
    s.sum / (s.numLines as real)
  }

  // ---------------------------------------------------------------------
  // Reference definition: what a record should hold after a history of
  // temperatures.

  function MinOf(s: seq<real>): real
    requires |s| > 0
  {
    if |s| == 1 then s[0]
    else var m := MinOf(s[..|s| - 1]); if m > s[|s| - 1] then s[|s| - 1] else m
  }

  function MaxOf(s: seq<real>): real
    requires |s| > 0
  {
    if |s| == 1 then s[0]
    else var m := MaxOf(s[..|s| - 1]); if m < s[|s| - 1] then s[|s| - 1] else m
  }

  function SumOf(s: seq<real>): real {
    if s == [] then 0.0 else SumOf(s[..|s| - 1]) + s[|s| - 1]
  }

  /** The record a history of temperatures should produce. */
  function Summary(s: seq<real>): Stats
    requires |s| > 0
  {
    Stats(MinOf(s), MaxOf(s), SumOf(s) / (|s| as real), |s|)
  }

  /** The sum-variant record a history of temperatures should produce. */
  function SumSummary(s: seq<real>): SumStats
    requires |s| > 0
  {
    SumStats(MinOf(s), MaxOf(s), SumOf(s), |s|)
  }

  /** The minimum and maximum are samples of the history and bound all of it. */
  lemma {:induction false} MinMaxBound(s: seq<real>)
    requires |s| > 0
    ensures MinOf(s) in s && MaxOf(s) in s
    ensures forall i :: 0 <= i < |s| ==> MinOf(s) <= s[i] <= MaxOf(s)
  {
    if |s| > 1 {
      var p := s[..|s| - 1];
      MinMaxBound(p);
      assert s == p + [s[|s| - 1]];
      forall i | 0 <= i < |s| - 1 ensures s[i] == p[i] { }
    }
  }

  /** `n` copies of `x` added up. */
  function Times(x: real, n: nat): real {
    if n == 0 then 0.0 else Times(x, n - 1) + x
  }

  lemma {:induction false} TimesIsProduct(x: real, n: nat)
    ensures Times(x, n) == x * (n as real)
  {
    if n > 0 {
      TimesIsProduct(x, n - 1);
      assert x * (n as real) == x * ((n - 1) as real) + x;
    }
  }

  lemma {:induction false} TimesMonotone(x: real, y: real, n: nat)
    requires x <= y
    ensures Times(x, n) <= Times(y, n)
  {
    if n > 0 {
      TimesMonotone(x, y, n - 1);
    }
  }

  /** The sum of a history lies between `|s|` copies of its minimum and
      `|s|` copies of its maximum. */
  lemma {:induction false} SumBetween(s: seq<real>)
    requires |s| > 0
    ensures Times(MinOf(s), |s|) <= SumOf(s) <= Times(MaxOf(s), |s|)
  {
    if |s| == 1 {
      assert s[..0] == [];
    } else {
      var p := s[..|s| - 1];
      SumBetween(p);
      LastStep(s);
      TimesMonotone(MinOf(s), MinOf(p), |p|);
      TimesMonotone(MaxOf(p), MaxOf(s), |p|);
    }
  }

  /** How the minimum, maximum and sum of a history relate to those of the
      history without its last sample. */
  lemma LastStep(s: seq<real>)
    requires |s| > 1
    ensures var p, t := s[..|s| - 1], s[|s| - 1];
      MinOf(s) <= MinOf(p) && MinOf(s) <= t && MaxOf(p) <= MaxOf(s) && t <= MaxOf(s) &&
      SumOf(s) == SumOf(p) + t
  {
  }

  lemma MulMonotone(a: real, b: real, n: real)
    requires a <= b && n >= 0.0
    ensures a * n <= b * n
  {
    assert b * n - a * n == (b - a) * n;
  }

  /** With `lo <= m <= hi` and `lo <= t <= hi`, folding `t` into `n` copies
      of `m` stays within `n + 1` copies of the bounds. */
  lemma AffineBetween(lo: real, m: real, hi: real, n: real, t: real, n': real)
    requires lo <= m <= hi && lo <= t <= hi && n >= 0.0 && n' == n + 1.0
    ensures lo * n' <= m * n + t <= hi * n'
  {
    MulMonotone(lo, m, n);
    MulMonotone(m, hi, n);
    assert lo * n' == lo * n + lo;
    assert hi * n' == hi * n + hi;
    assert lo * n + lo <= m * n + t;
    assert m * n + t <= hi * n + hi;
  }

  /** Dividing bounds `lo * n <= x <= hi * n` by a positive `n`. */
  lemma DivBetween(lo: real, x: real, hi: real, n: real)
    requires n > 0.0 && lo * n <= x <= hi * n
    ensures lo <= x / n <= hi
  {
    var q := x / n;
    assert q * n == x;
    assert (q - lo) * n == x - lo * n;
    assert (hi - q) * n == hi * n - x;
    if q < lo {
      NegativeProduct(q - lo, n);
    }
    if hi < q {
      NegativeProduct(hi - q, n);
    }
  }

  lemma NegativeProduct(d: real, n: real)
    requires d < 0.0 && n > 0.0
    ensures d * n < 0.0
  {
  }

  /** The mean of a history lies between its minimum and its maximum. */
  lemma MeanBetween(s: seq<real>)
    requires |s| > 0
    ensures MinOf(s) <= SumOf(s) / (|s| as real) <= MaxOf(s)
  {
    SumBetween(s);
    DivTimes(MinOf(s), SumOf(s), MaxOf(s), |s|);
  }

  /** Dividing bounds `k` copies of `lo` `<= x <=` `k` copies of `hi` by `k`. */
  lemma DivTimes(lo: real, x: real, hi: real, k: nat)
    requires k > 0 && Times(lo, k) <= x <= Times(hi, k)
    ensures lo <= x / (k as real) <= hi
  {
    TimesIsProduct(lo, k);
    TimesIsProduct(hi, k);
    DivBetween(lo, x, hi, k as real);
  }

  /** Every record that summarises a history satisfies the record invariant. */
  lemma SummaryBounded(s: seq<real>)
    requires |s| > 0
    ensures Bounded(Summary(s))
  {
    MeanBetween(s);
  }

  /** A seeded record summarises the one-sample history. */
  lemma SeedIsSummary(t: real)
    ensures Seed(t) == Summary([t]) && SumSeed(t) == SumSummary([t])
  {
    assert [t][..0] == [];
    assert SumOf([t]) == t;
  }

  /** Folding a temperature into the summary of a history gives the summary
      of the extended history: the running-mean recurrence is exact. */
  lemma UpdateIsSummary(s: seq<real>, t: real)
    requires |s| > 0
    ensures Update(Summary(s), t) == Summary(s + [t])
    ensures SumUpdate(SumSummary(s), t) == SumSummary(s + [t])
  {
    var s' := s + [t];
    assert s'[..|s'| - 1] == s;
    var n := |s| as real;
    var S := SumOf(s);
    assert SumOf(s') == S + t;
    assert (|s'| as real) == n + 1.0;
    MeanStep(S, n, t);
    var u := Update(Summary(s), t);
    assert u.mean == ((S / n) * n + t) / (n + 1.0);
    assert u.mean == SumOf(s') / (|s'| as real);
  }

  /** The running-mean recurrence on one step: the old mean times the old
      count, plus the new reading, over the new count, is the new mean. */
  lemma MeanStep(sum: real, n: real, t: real)
    requires n > 0.0
    ensures ((sum / n) * n + t) / (n + 1.0) == (sum + t) / (n + 1.0)
  {
    assert (sum / n) * n == sum;
  }

  /** The update preserves the record invariant of any record, and the new
      temperature lies between the new minimum and maximum. */
  lemma UpdateKeepsBounds(s: Stats, t: real)
    requires Bounded(s)
    ensures Bounded(Update(s, t))
    ensures Update(s, t).min <= t <= Update(s, t).max
  {
    var lo := if s.min > t then t else s.min;
    var hi := if s.max < t then t else s.max;
    UpdateBetween(lo, s.mean, hi, t, s.numLines as real, (s.numLines + 1) as real, Update(s, t).mean);
  }

  /** Folding `t` into the mean `m` of `k` samples stays within any bounds
      that hold both. */
  lemma UpdateBetween(lo: real, m: real, hi: real, t: real, n: real, n': real, x: real)
    requires lo <= m <= hi && lo <= t <= hi && n >= 0.0 && n' == n + 1.0
    requires x == (m * n + t) / n'
    ensures lo <= x <= hi
  {
    AffineBetween(lo, m, hi, n, t, n');
    DivBetween(lo, m * n + t, hi, n');
  }

  /** The mean analyze_v4.c prints from a record lies between its minimum and
      maximum, whenever the record summarises a history. */
  lemma SumMeanBetween(s: seq<real>)
    requires |s| > 0
    ensures SumSummary(s).min <= Mean(SumSummary(s)) <= SumSummary(s).max
  {
    MeanBetween(s);
  }

  /** `datarow_to_statsnode` (and `sa_datarow_to_statsnode`) of
      analyze_improved.c and analyze_v1.c: NULL for a NULL row, otherwise the
      record `stats_init` seeds from its temperature, which is the summary of
      that one reading. */
  function DatarowToStatsnode<K>(row: Option<Row<K>>): (r: Option<Stats>)
    ensures r.None? <==> row.None?
    ensures r.Some? ==> r.value == Summary([row.value.temperature]) && Bounded(r.value)
  {
    if row.None? then None
    else
      SeedIsSummary(row.value.temperature);
      Some(Seed(row.value.temperature))
  }

  // ---------------------------------------------------------------------
  // Histories per location.

  /** The temperatures of the rows for location `k`, in input order. */
  function Samples<K(==)>(rows: seq<Row<K>>, k: K): seq<real> {
    if rows == [] then []
    else
      var r := rows[|rows| - 1];
      Samples(rows[..|rows| - 1], k) + (if r.location == k then [r.temperature] else [])
  }

  /** The set of locations the rows mention. */
  function Locations<K>(rows: seq<Row<K>>): set<K> {
    set i | 0 <= i < |rows| :: rows[i].location
  }

  /** A location has a non-empty history exactly when some row mentions it,
      and its history has one sample per such row. */
  lemma {:induction false} SamplesNonEmpty<K>(rows: seq<Row<K>>, k: K)
    ensures Samples(rows, k) != [] <==> k in Locations(rows)
  {
    if rows != [] {
      var p := rows[..|rows| - 1];
      SamplesNonEmpty(p, k);
      assert Locations(rows) == Locations(p) + {rows[|rows| - 1].location} by {
        forall i | 0 <= i < |p| ensures rows[i] == p[i] { }
      }
    }
  }

  /** Appending a row extends its location's history and no other. */
  lemma SamplesAppend<K>(rows: seq<Row<K>>, r: Row<K>, k: K)
    ensures Samples(rows + [r], k) == Samples(rows, k) + (if r.location == k then [r.temperature] else [])
    ensures Locations(rows + [r]) == Locations(rows) + {r.location}
  {
    var rows' := rows + [r];
    assert rows'[..|rows'| - 1] == rows;
    forall i | 0 <= i < |rows| ensures rows'[i] == rows[i] { }
    assert rows'[|rows|] == r;
  }
}
