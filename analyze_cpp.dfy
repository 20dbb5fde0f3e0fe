/** analyze.cpp: lines are split at the first `;` with `std::string::find`
    and `substr`, and folded into an unbounded `std::unordered_map` from
    city to record. */
module AnalyzeCpp {
  import opened Bytes
  import opened Seqs
  import opened Hashing
  import opened Stats

  /** `std::string::npos`, the largest `size_t`. */
  const NPOS: nat := WORD - 1

  /** `row.find(';')`: the index of the first `;`, or `npos`. */
  function Find(row: seq<byte>, c: byte): (pos: nat)
    ensures c in row ==> pos == FirstIndex(row, c)
    ensures c !in row ==> pos == NPOS
  {
    if c in row then FirstIndex(row, c) else NPOS
  }

  /** `row.substr(pos, count)`: at most `count` bytes from `pos`
      (`pos` past the end throws in C++, which the callers never cause). */
  function Substr(row: seq<byte>, pos: nat, count: nat): (r: seq<byte>)
    requires pos <= |row|
    ensures |r| <= count && |r| <= |row| - pos
    ensures r == row[pos..pos + |r|]
    ensures pos + count <= |row| ==> |r| == count
    ensures pos + count > |row| ==> |r| == |row| - pos
  {
    if pos + count <= |row| then row[pos..pos + count] else row[pos..]
  }

  /** `parse_single_row`: the city is `row.substr(0, find)`; the temperature
      is `stod` of `row.substr(find + 1, length)`, where `find + 1` is
      computed in `size_t`, so that `npos + 1` wraps to 0. With a `;` the
      city is the text before the first `;` and the temperature text is
      everything after it; without one, the city and the temperature text
      are both the whole row. */
  function ParseSingleRow(row: seq<byte>, stod: seq<byte> -> real): (r: (seq<byte>, real))
    requires |row| < NPOS
    ensures SEMICOLON in row ==> r.0 == row[..FirstIndex(row, SEMICOLON)] && r.1 == stod(row[FirstIndex(row, SEMICOLON) + 1..])
    ensures SEMICOLON !in row ==> r.0 == row && r.1 == stod(row)
  {
    var pos := Find(row, SEMICOLON);
    (Substr(row, 0, pos), stod(After(row, pos)))
  }

  /** `row.substr(pos + 1, row.length())`, with `pos + 1` computed in
      `size_t`: everything after `pos`, or the whole row when `pos` is
      `npos`. */
  function After(row: seq<byte>, pos: nat): (r: seq<byte>)
    requires |row| < NPOS && (pos < |row| || pos == NPOS)
    ensures pos < |row| ==> r == row[pos + 1..]
    ensures pos == NPOS ==> r == row
  {
    var start := (pos + 1) % WORD;
    assert pos == NPOS ==> start == 0;
    Substr(row, start, |row|)
  }

  /** A well-formed line `city;text` splits back into its two parts. */
  lemma ParseRoundTrip(city: seq<byte>, text: seq<byte>, stod: seq<byte> -> real)
    requires SEMICOLON !in city && |city| + 1 + |text| < NPOS
    ensures ParseSingleRow(city + [SEMICOLON] + text, stod) == (city, stod(text))
  {
    var row := city + [SEMICOLON] + text;
    assert row == city + ([SEMICOLON] + text);
    FirstIndexAppend(city, [SEMICOLON] + text, SEMICOLON);
    assert FirstIndex([SEMICOLON] + text, SEMICOLON) == 0;
    assert row[..|city|] == city;
    assert row[|city| + 1..] == text;
  }

  /** The default constructor `Stats()`: all fields 0 and a count of 1. It is
      the record of a single reading of 0. */
  function DefaultStats(): (s: Stats)
    ensures s == Summary([0.0]) && Bounded(s)
  {
    SeedIsSummary(0.0);
    Stats(0.0, 0.0, 0.0, 1)
  }

  /** The parsed rows of the lines. */
  function Parsed(lines: seq<seq<byte>>, stod: seq<byte> -> real): (rows: seq<Row<seq<byte>>>)
    requires forall i :: 0 <= i < |lines| ==> |lines[i]| < NPOS
    ensures |rows| == |lines|
  {
    seq(|lines|, i requires 0 <= i < |lines| =>
      var p := ParseSingleRow(lines[i], stod); Row(p.0, p.1))
  }

  /** The map agrees with the rows: it holds exactly the cities seen, each
      with the summary of that city's readings. */
  ghost predicate Exact(cities: map<seq<byte>, Stats>, rows: seq<Row<seq<byte>>>) {
    cities.Keys == Locations(rows) &&
    forall k :: k in cities ==> Samples(rows, k) != [] && cities[k] == Summary(Samples(rows, k))
  }

  /** One more row keeps the map exact, whether it updates the found record
      or inserts `Stats(t, t, t)`. */
  lemma {:induction false} ExactStep(cities: map<seq<byte>, Stats>, rows: seq<Row<seq<byte>>>, r: Row<seq<byte>>)
    requires Exact(cities, rows)
    ensures r.location in cities ==> Exact(cities[r.location := Update(cities[r.location], r.temperature)], rows + [r])
    ensures r.location !in cities ==> Exact(cities[r.location := Init(r.temperature, r.temperature, r.temperature)], rows + [r])
  {
    var k0, rows' := r.location, rows + [r];
    var v := if k0 in cities then Update(cities[k0], r.temperature) else Seed(r.temperature);
    var c' := cities[k0 := v];
    SamplesAppend(rows, r, k0);
    if k0 in cities {
      UpdateIsSummary(Samples(rows, k0), r.temperature);
    } else {
      SamplesNonEmpty(rows, k0);
      SeedIsSummary(r.temperature);
      assert Samples(rows', k0) == [r.temperature];
    }
    forall k | k in c'
      ensures Samples(rows', k) != [] && c'[k] == Summary(Samples(rows', k))
    {
      if k != k0 {
        SamplesAppend(rows, r, k);
        assert Samples(rows', k) == Samples(rows, k);
      }
    }
  }

  /** The main loop: after it the map holds exactly the cities seen, each
      record summarises that city's readings (so its count is the number of
      lines for the city and `min <= mean <= max`). */
  method Aggregate(lines: seq<seq<byte>>, stod: seq<byte> -> real) returns (cities: map<seq<byte>, Stats>)
    requires forall i :: 0 <= i < |lines| ==> |lines[i]| < NPOS
    ensures Exact(cities, Parsed(lines, stod))
  {
    cities := map[];
    var rows := Parsed(lines, stod);
    var i := 0;
    while i < |lines|
      invariant i <= |lines|
      invariant Exact(cities, rows[..i])
    {
      var res := ParseSingleRow(lines[i], stod);
      var row := Row(res.0, res.1);
      assert row == rows[i];
      assert rows[..i + 1] == rows[..i] + [row];
      ExactStep(cities, rows[..i], row);
      if res.0 in cities {
        var it := cities[res.0];
        cities := cities[res.0 := Update(it, res.1)];
        i := i + 1;
        continue;
      }
      cities := cities[res.0 := Init(res.1, res.1, res.1)];
      i := i + 1;
    }
    assert rows[..i] == rows;
  }

  /** Every record of an exact map satisfies the record invariant and counts
      one line per reading of its city. */
  lemma ExactBounded(cities: map<seq<byte>, Stats>, rows: seq<Row<seq<byte>>>, k: seq<byte>)
    requires Exact(cities, rows) && k in cities
    ensures Bounded(cities[k]) && cities[k].numLines == |Samples(rows, k)|
  {
    SummaryBounded(Samples(rows, k));
  }
}
