/** analyze_improved.c: the keys of the table are NUL-terminated copies of
    the location, hashed with `myhash` (or `djb2`) reduced modulo the
    capacity and compared with `key_equal`; the main loop folds every line
    into the record of its location and stops after the first line whose
    location is present while the table is full. */
module AnalyzeImproved {
  import opened Wrappers
  import opened Bytes
  import opened CString
  import opened Hashing
  import opened Stats
  import opened AbstractTable
  import opened Aggregation

  /** `MAX_TBL_SIZE`, the capacity the table is initialised with. */
  const MAX_TBL_SIZE: nat := 50000

  /** `myhash(key, table)`: exits with status 1 on a NULL table or key;
      otherwise hashes the key's string and reduces it modulo the capacity.
      `capacity` stands for the table pointer, `None` for NULL. */
  method MyHash(key: Option<seq<byte>>, capacity: Option<nat>) returns (r: Outcome<nat>)
    requires key.Some? ==> NUL in key.value
    requires capacity.Some? ==> capacity.value > 0
    ensures r.Exits? <==> capacity.None? || key.None?
    ensures r.Exits? ==> r.status == 1
    ensures r.Returns? ==> r.value < capacity.value
    ensures r.Returns? ==> r.value == (Poly(98, 0, Contents(key.value)) % WORD) % capacity.value
  {
    if capacity.None? {
      return Exits(1);
    }
    if key.None? {
      return Exits(1);
    }
    var hash := MyHashLoop(Contents(key.value));
    MyHashIsPolynomial(Contents(key.value));
    return Returns(ModuloIndex(hash, capacity.value));
  }

  /** `djb2(key, table)`, with the same NULL handling and reduction. */
  method Djb2(key: Option<seq<byte>>, capacity: Option<nat>) returns (r: Outcome<nat>)
    requires key.Some? ==> NUL in key.value
    requires capacity.Some? ==> capacity.value > 0
    ensures r.Exits? <==> capacity.None? || key.None?
    ensures r.Exits? ==> r.status == 1
    ensures r.Returns? ==> r.value < capacity.value
    ensures r.Returns? ==> r.value == (Poly(33, DJB2_SEED, Contents(key.value)) % WORD) % capacity.value
  {
    if capacity.None? {
      return Exits(1);
    }
    if key.None? {
      return Exits(1);
    }
    var hash := Djb2Loop(Contents(key.value));
    Djb2IsPolynomial(Contents(key.value));
    return Returns(ModuloIndex(hash, capacity.value));
  }

  /** `key_equal`: exits with status 1 on a NULL argument; otherwise the two
      keys are equal exactly when their strings are. */
  function KeyEqual(dictkey: Option<seq<byte>>, extkey: Option<seq<byte>>): (r: Outcome<bool>)
    requires dictkey.Some? ==> NUL in dictkey.value
    requires extkey.Some? ==> NUL in extkey.value
    ensures r.Exits? <==> dictkey.None? || extkey.None?
    ensures r.Exits? ==> r.status == 1
    ensures r.Returns? ==> (r.value <==> Contents(dictkey.value) == Contents(extkey.value))
  {
    if dictkey.None? || extkey.None? then Exits(1)
    else
      StrcmpZeroIff(dictkey.value, extkey.value);
      Returns(Strcmp(dictkey.value, extkey.value) == 0)
  }

  /** The main loop over the parsed lines. `numLines` counts the lines read;
      the table agrees with them (every record summarises its location's
      readings; a location is missing only if the table is full); a stop
      before the end of input happens exactly after a line whose location
      was present while the table was full, and that line was still folded
      in. The table holds the first `MAX_TBL_SIZE` distinct locations. */
  method Ingest(rows: seq<Row<seq<byte>>>) returns (cities: Table<seq<byte>, Stats>, numLines: nat, tableFull: bool)
    ensures numLines <= |rows| && cities.capacity == MAX_TBL_SIZE
    ensures Agrees(cities, rows[..numLines])
    ensures !tableFull ==> numLines == |rows|
    ensures tableFull ==> numLines > 0 && rows[numLines - 1].location in cities.entries
    ensures tableFull ==> Size(cities) == MAX_TBL_SIZE
    ensures Size(cities) == if |Locations(rows[..numLines])| < MAX_TBL_SIZE then |Locations(rows[..numLines])| else MAX_TBL_SIZE
  {
    cities := Empty(MAX_TBL_SIZE);
    numLines := 0;
    tableFull := false;
    AgreesEmpty<seq<byte>>(MAX_TBL_SIZE);
    while numLines < |rows| && !tableFull
      invariant numLines <= |rows| && cities.capacity == MAX_TBL_SIZE
      invariant Agrees(cities, rows[..numLines])
      invariant tableFull ==> numLines > 0 && rows[numLines - 1].location in cities.entries
      invariant tableFull ==> Size(cities) == MAX_TBL_SIZE
    {
      cities, tableFull := IngestLine(cities, rows, numLines);
      numLines := numLines + 1;
    }
    AgreesSize(cities, rows[..numLines]);
  }

  /** One pass of the main loop: a line whose location is present is folded
      into its record (and stops the loop if the table is full); any other
      line is offered to `ht_insert` with a freshly seeded record. */
  method IngestLine(cities: Table<seq<byte>, Stats>, rows: seq<Row<seq<byte>>>, n: nat)
    returns (cities': Table<seq<byte>, Stats>, full: bool)
    requires n < |rows| && Agrees(cities, rows[..n]) && cities.capacity == MAX_TBL_SIZE
    ensures Agrees(cities', rows[..n + 1]) && cities'.capacity == MAX_TBL_SIZE
    ensures full <==> rows[n].location in cities.entries && Size(cities) >= MAX_TBL_SIZE
    ensures full ==> rows[n].location in cities'.entries && Size(cities') == MAX_TBL_SIZE
  {
    var row := rows[n];
    ghost var seen := rows[..n];
    assert rows[..n + 1] == seen + [row];
    full := false;
    if Contains(cities, row.location) {
      if Size(cities) >= cities.capacity {
        full := true;
      }
      var stats := At(cities, row.location).value;
      assert stats == cities.entries[row.location];
      AgreesAfterUpdate(cities, seen, row);
      cities' := Put(cities, row.location, Update(stats, row.temperature));
    } else {
      var seed := DatarowToStatsnode(Some(row)).value;
      assert seed == Seed(row.temperature);
      AgreesAfterInsert(cities, seen, row);
      cities' := Insert(cities, row.location, seed).0;
    }
  }
}
