/** analyze_v4.c: a power-of-two table (`ht_twos_pow_*`) whose keys are
    copies of the location in an arena, hashed with `myhash` (or `djb2`)
    reduced by the mask `capacity - 1` and compared with `keycmp`; records
    keep a running sum, and the main loop reads every line. */
module AnalyzeV4 {
  import opened Wrappers
  import opened Bytes
  import opened CString
  import opened Hashing
  import opened Stats
  import opened AbstractTable
  import opened Aggregation

  /** `MAX_TBL_SIZE` = 65536 = 2^16. */
  const MAX_TBL_SIZE: nat := 65536

  lemma MaxTableSizeIsPowerOfTwo()
    ensures MAX_TBL_SIZE == Pow2(16) && Pow2(16) < WORD
  {
    Pow2Add(2, 2);
    Pow2Add(4, 4);
    Pow2Add(8, 8);
  }

  /** `myhash(key, table)` with the mask reduction: exits with status 1 on a
      NULL table or key; the index is below any non-zero capacity and, for a
      power-of-two capacity, is the hash modulo the capacity. */
  method MyHash(key: Option<seq<byte>>, capacity: Option<Word>) returns (r: Outcome<nat>)
    requires key.Some? ==> NUL in key.value
    ensures r.Exits? <==> capacity.None? || key.None?
    ensures r.Exits? ==> r.status == 1
    ensures r.Returns? ==> r.value == MaskIndex(Poly(98, 0, Contents(key.value)) % WORD, capacity.value)
    ensures r.Returns? && capacity.value > 0 ==> r.value < capacity.value
    ensures r.Returns? && capacity.value == MAX_TBL_SIZE ==> r.value == (Poly(98, 0, Contents(key.value)) % WORD) % MAX_TBL_SIZE
  {
    if capacity.None? {
      return Exits(1);
    }
    if key.None? {
      return Exits(1);
    }
    var hash := MyHashLoop(Contents(key.value));
    MyHashIsPolynomial(Contents(key.value));
    MaxTableSizeIsPowerOfTwo();
    MaskIsModulo(hash, 16);
    return Returns(MaskIndex(hash, capacity.value));
  }

  /** `djb2(key, table)` with the mask reduction. */
  method Djb2(key: Option<seq<byte>>, capacity: Option<Word>) returns (r: Outcome<nat>)
    requires key.Some? ==> NUL in key.value
    ensures r.Exits? <==> capacity.None? || key.None?
    ensures r.Exits? ==> r.status == 1
    ensures r.Returns? ==> r.value == MaskIndex(Poly(33, DJB2_SEED, Contents(key.value)) % WORD, capacity.value)
    ensures r.Returns? && capacity.value > 0 ==> r.value < capacity.value
    ensures r.Returns? && capacity.value == MAX_TBL_SIZE ==> r.value == (Poly(33, DJB2_SEED, Contents(key.value)) % WORD) % MAX_TBL_SIZE
  {
    if capacity.None? {
      return Exits(1);
    }
    if key.None? {
      return Exits(1);
    }
    var hash := Djb2Loop(Contents(key.value));
    Djb2IsPolynomial(Contents(key.value));
    MaxTableSizeIsPowerOfTwo();
    MaskIsModulo(hash, 16);
    return Returns(MaskIndex(hash, capacity.value));
  }

  /** `keycmp`: exits with status 1 on a NULL argument; otherwise the sign
      of `strcmp`, which is zero exactly when the strings are equal. */
  function Keycmp(dictkey: Option<seq<byte>>, extkey: Option<seq<byte>>): (r: Outcome<int>)
    requires dictkey.Some? ==> NUL in dictkey.value
    requires extkey.Some? ==> NUL in extkey.value
    ensures r.Exits? <==> dictkey.None? || extkey.None?
    ensures r.Exits? ==> r.status == 1
    ensures r.Returns? ==> -1 <= r.value <= 1
    ensures r.Returns? ==> (r.value == 0 <==> Contents(dictkey.value) == Contents(extkey.value))
  {
    if dictkey.None? || extkey.None? then Exits(1)
    else
      StrcmpZeroIff(dictkey.value, extkey.value);
      Returns(Strcmp(dictkey.value, extkey.value))
  }

  /** `keycmp` is a consistent three-way comparison: swapping its arguments
      negates the result. */
  lemma KeycmpAntisymmetric(a: seq<byte>, b: seq<byte>)
    requires NUL in a && NUL in b
    ensures Keycmp(Some(a), Some(b)).value == -Keycmp(Some(b), Some(a)).value
  {
    StrcmpAntisymmetric(a, b);
  }

  /** `sa_datarow_to_statsnode` (and `datarow_to_statsnode`): NULL for a NULL
      row, otherwise the sum record seeded from its temperature. */
  function DatarowToStatsnode<K>(row: Option<Row<K>>): (r: Option<SumStats>)
    ensures r.None? <==> row.None?
    ensures r.Some? ==> r.value == SumSummary([row.value.temperature])
  {
    if row.None? then None
    else
      SeedIsSummary(row.value.temperature);
      Some(SumSeed(row.value.temperature))
  }

  /** The main loop: every line is read; each record summarises the
      readings of its location and the mean `stats_print` reports lies
      between its minimum and maximum; a location is missing only when the table is
      full. */
  method Ingest(rows: seq<Row<seq<byte>>>) returns (cities: Table<seq<byte>, SumStats>, numLines: nat)
    ensures numLines == |rows| && cities.capacity == MAX_TBL_SIZE
    ensures SumAgrees(cities, rows)
    ensures forall k :: k in cities.entries ==>
      (cities.entries[k].numLines > 0 && cities.entries[k].min <= Mean(cities.entries[k]) <= cities.entries[k].max)
  {
    cities := Empty(MAX_TBL_SIZE);
    numLines := 0;
    AgreesEmpty<seq<byte>>(MAX_TBL_SIZE);
    while numLines < |rows|
      invariant numLines <= |rows| && cities.capacity == MAX_TBL_SIZE
      invariant SumAgrees(cities, rows[..numLines])
    {
      cities := IngestLine(cities, rows, numLines);
      numLines := numLines + 1;
    }
    assert rows[..numLines] == rows;
    SumAgreesMeans(cities, rows);
  }

  /** One pass of the main loop: a line whose location is present is folded
      into its record; any other line is offered to `ht_insert` with a
      freshly seeded record. */
  method IngestLine(cities: Table<seq<byte>, SumStats>, rows: seq<Row<seq<byte>>>, n: nat)
    returns (cities': Table<seq<byte>, SumStats>)
    requires n < |rows| && SumAgrees(cities, rows[..n]) && cities.capacity == MAX_TBL_SIZE
    ensures SumAgrees(cities', rows[..n + 1]) && cities'.capacity == MAX_TBL_SIZE
  {
    var row := rows[n];
    ghost var seen := rows[..n];
    assert rows[..n + 1] == seen + [row];
    if Contains(cities, row.location) {
      var stats := At(cities, row.location).value;
      assert stats == cities.entries[row.location];
      SumAgreesAfterUpdate(cities, seen, row);
      cities' := Put(cities, row.location, SumUpdate(stats, row.temperature));
    } else {
      var seed := DatarowToStatsnode(Some(row)).value;
      assert seed == SumSeed(row.temperature);
      SumAgreesAfterInsert(cities, seen, row);
      cities' := Insert(cities, row.location, seed).0;
    }
  }
}
