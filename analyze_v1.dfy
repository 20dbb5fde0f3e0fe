/** analyze_v1.c: the keys of the table are `String` structs (a NUL-
    terminated buffer and a length) built by `parse_single_row`, hashed over
    their `length` bytes and compared with `keycmp`; the table is sorted
    with `qsort_comparer` before printing. The main loop offers every line
    to `ht_insert` first and, when that fails, folds the line into the
    record the table holds. */
module AnalyzeV1 {
  import opened Wrappers
  import opened Bytes
  import opened CString
  import opened Hashing
  import opened Stats
  import opened AbstractTable
  import opened Aggregation

  /** The capacity `ht_init` is given. */
  const TABLE_CAPACITY: nat := 50000

  /** A `String` built by `string_create` holds its bytes before the NUL. */
  lemma TerminatedContents(s: Str)
    requires Terminated(s)
    ensures NUL in s.data && Strlen(s.data) == s.length && Contents(s.data) == s.data[..s.length]
  {
    assert s.data[s.length] == NUL;
    assert forall j :: 0 <= j < s.length ==> s.data[j] == s.data[..s.length][j];
  }

  /** `myhash(key, table)`: exits with status 1 on a NULL table or key;
      otherwise hashes the first `length` bytes of the key's buffer and
      reduces the hash modulo the capacity. */
  method MyHash(key: Option<Str>, capacity: Option<nat>) returns (r: Outcome<nat>)
    requires key.Some? ==> key.value.length <= |key.value.data|
    requires capacity.Some? ==> capacity.value > 0
    ensures r.Exits? <==> capacity.None? || key.None?
    ensures r.Exits? ==> r.status == 1
    ensures r.Returns? ==> r.value < capacity.value
    ensures r.Returns? ==> r.value == (Poly(98, 0, key.value.data[..key.value.length]) % WORD) % capacity.value
  {
    if capacity.None? {
      return Exits(1);
    }
    if key.None? {
      return Exits(1);
    }
    var bytes := key.value.data[..key.value.length];
    var hash := MyHashLoop(bytes);
    MyHashIsPolynomial(bytes);
    return Returns(ModuloIndex(hash, capacity.value));
  }

  /** `djb2(key, table)` over the first `length` bytes, reduced modulo the
      capacity. */
  method Djb2(key: Option<Str>, capacity: Option<nat>) returns (r: Outcome<nat>)
    requires key.Some? ==> key.value.length <= |key.value.data|
    requires capacity.Some? ==> capacity.value > 0
    ensures r.Exits? <==> capacity.None? || key.None?
    ensures r.Exits? ==> r.status == 1
    ensures r.Returns? ==> r.value < capacity.value
    ensures r.Returns? ==> r.value == (Poly(33, DJB2_SEED, key.value.data[..key.value.length]) % WORD) % capacity.value
  {
    if capacity.None? {
      return Exits(1);
    }
    if key.None? {
      return Exits(1);
    }
    var bytes := key.value.data[..key.value.length];
    var hash := Djb2Loop(bytes);
    Djb2IsPolynomial(bytes);
    return Returns(ModuloIndex(hash, capacity.value));
  }

  /** `keycmp` as written: exits with status 1 on a NULL argument, otherwise
      `strncmp` over `key1`'s length. It reports zero exactly when `key1` is
      a prefix of `key2`, not only when the two are equal. */
  function Keycmp(key1: Option<Str>, key2: Option<Str>): (r: Outcome<int>)
    requires key1.Some? ==> Terminated(key1.value)
    requires key2.Some? ==> Terminated(key2.value)
    ensures r.Exits? <==> key1.None? || key2.None?
    ensures r.Exits? ==> r.status == 1
    ensures r.Returns? ==> -1 <= r.value <= 1
    ensures r.Returns? ==> (r.value == 0 <==>
      key1.value.length <= key2.value.length &&
      key1.value.data[..key1.value.length] == key2.value.data[..key1.value.length])
  {
    if key1.None? || key2.None? then Exits(1)
    else
      var a, b := key1.value, key2.value;
      TerminatedContents(a);
      TerminatedContents(b);
      StrncmpPrefix(a.data, b.data, a.length);
      Returns(Strncmp(a.data, b.data, a.length))
  }

  /** A key that is a proper prefix of another compares equal to it. */
  lemma KeycmpPrefixCounterexample()
    ensures Terminated(Str([65, 0], 1)) && Terminated(Str([65, 66, 0], 2))
    ensures Keycmp(Some(Str([65, 0], 1)), Some(Str([65, 66, 0], 2))) == Returns(0)
    ensures Str([65, 0], 1).data[..1] != Str([65, 66, 0], 2).data[..2]
  {
    var a, b := Str([65, 0], 1), Str([65, 66, 0], 2);
    assert a.data[..1] == [65];
    assert b.data[..1] == [65];
    assert b.data[..2] == [65, 66];
  }

  /** `keycmp` as evidently intended: `strcmp` over the two strings, zero
      exactly when they are equal. The main loop's table compares keys this
      way. */
  function KeycmpCorrected(key1: Option<Str>, key2: Option<Str>): (r: Outcome<int>)
    requires key1.Some? ==> Terminated(key1.value)
    requires key2.Some? ==> Terminated(key2.value)
    ensures r.Exits? <==> key1.None? || key2.None?
    ensures r.Exits? ==> r.status == 1
    ensures r.Returns? ==> -1 <= r.value <= 1
    ensures r.Returns? ==> (r.value == 0 <==>
      key1.value.data[..key1.value.length] == key2.value.data[..key2.value.length])
  {
    if key1.None? || key2.None? then Exits(1)
    else
      var a, b := key1.value, key2.value;
      TerminatedContents(a);
      TerminatedContents(b);
      StrcmpZeroIff(a.data, b.data);
      Returns(Strcmp(a.data, b.data))
  }

  /** On keys of the same length the written and the intended comparison
      agree about equality. */
  lemma KeycmpSameLength(a: Str, b: Str)
    requires Terminated(a) && Terminated(b) && a.length == b.length
    ensures (Keycmp(Some(a), Some(b)).value == 0) == (KeycmpCorrected(Some(a), Some(b)).value == 0)
  {
  }

  /** An entry of the table as `ht_sort_by_key` hands it to the comparer:
      a slot's key, `None` for an empty slot. */
  datatype KeyValuePair = KeyValuePair(key: Option<Str>)

  ghost predicate Keyed(kv: Option<KeyValuePair>) {
    kv.Some? && kv.value.key.Some? ==> Terminated(kv.value.key.value)
  }

  /** `qsort_comparer` as written: 0 for a NULL entry pointer, -1 when the
      first key is NULL, 1 when only the second is, otherwise `strncmp` over
      the first key's length. */
  function QsortComparer(kv1: Option<KeyValuePair>, kv2: Option<KeyValuePair>): (r: int)
    requires Keyed(kv1) && Keyed(kv2)
    ensures -1 <= r <= 1
    ensures kv1.None? || kv2.None? ==> r == 0
    ensures kv1.Some? && kv2.Some? && kv1.value.key.None? ==> r == -1
    ensures kv1.Some? && kv2.Some? && kv1.value.key.Some? && kv2.value.key.None? ==> r == 1
    ensures kv1.Some? && kv2.Some? && kv1.value.key.Some? && kv2.value.key.Some? ==>
      r == Keycmp(kv1.value.key, kv2.value.key).value
  {
    if kv1.None? || kv2.None? then 0
    else if kv1.value.key.None? then -1
    else if kv2.value.key.None? then 1
    else
      var a, b := kv1.value.key.value, kv2.value.key.value;
      Strncmp(a.data, b.data, a.length)
  }

  /** The written comparer is not a consistent order: an empty slot compares
      below itself (so two empty slots each compare below the other), and a
      key compares equal to a longer key that it prefixes while the longer
      one compares above it. */
  lemma QsortComparerInconsistent()
    ensures QsortComparer(Some(KeyValuePair(None)), Some(KeyValuePair(None))) == -1
    ensures Keyed(Some(KeyValuePair(Some(Str([65, 0], 1))))) && Keyed(Some(KeyValuePair(Some(Str([65, 66, 0], 2)))))
    ensures QsortComparer(Some(KeyValuePair(Some(Str([65, 0], 1)))), Some(KeyValuePair(Some(Str([65, 66, 0], 2))))) == 0
    ensures QsortComparer(Some(KeyValuePair(Some(Str([65, 66, 0], 2)))), Some(KeyValuePair(Some(Str([65, 0], 1))))) == 1
  {
    KeycmpPrefixCounterexample();
    var b, a := Str([65, 66, 0], 2), Str([65, 0], 1);
    assert Strncmp(b.data, a.data, 2) == Strncmp(b.data[1..], a.data[1..], 1);
  }

  /** `qsort_comparer` as evidently intended: empty slots compare equal to
      each other and before every key, keys compare by `strcmp`. */
  function QsortComparerCorrected(kv1: Option<KeyValuePair>, kv2: Option<KeyValuePair>): (r: int)
    requires Keyed(kv1) && Keyed(kv2)
    ensures -1 <= r <= 1
    ensures kv1.None? || kv2.None? ==> r == 0
    ensures kv1.Some? && kv2.Some? && kv1.value.key.None? && kv2.value.key.Some? ==> r == -1
    ensures kv1.Some? && kv2.Some? && kv1.value.key.Some? && kv2.value.key.Some? ==>
      r == KeycmpCorrected(kv1.value.key, kv2.value.key).value
  {
    if kv1.None? || kv2.None? then 0
    else if kv1.value.key.None? && kv2.value.key.None? then 0
    else if kv1.value.key.None? then -1
    else if kv2.value.key.None? then 1
    else Strcmp(kv1.value.key.value.data, kv2.value.key.value.data)
  }

  /** The intended comparer is antisymmetric and treats every entry as
      equal to itself, as `qsort` requires of its comparison function. */
  lemma QsortComparerCorrectedConsistent(kv1: Option<KeyValuePair>, kv2: Option<KeyValuePair>)
    requires Keyed(kv1) && Keyed(kv2)
    ensures QsortComparerCorrected(kv2, kv1) == -QsortComparerCorrected(kv1, kv2)
    ensures QsortComparerCorrected(kv1, kv1) == 0
  {
    if kv1.Some? && kv2.Some? && kv1.value.key.Some? && kv2.value.key.Some? {
      StrcmpAntisymmetric(kv1.value.key.value.data, kv2.value.key.value.data);
    }
    if kv1.Some? && kv1.value.key.Some? {
      StrcmpZeroIff(kv1.value.key.value.data, kv1.value.key.value.data);
    }
  }

  /** The intended comparer is transitive on the entries `qsort` hands it
      (pointers to slots, never NULL), so with antisymmetry and
      reflexivity it is the total preorder `qsort` needs. */
  lemma QsortComparerCorrectedTransitive(kv1: Option<KeyValuePair>, kv2: Option<KeyValuePair>, kv3: Option<KeyValuePair>)
    requires kv1.Some? && kv2.Some? && kv3.Some?
    requires Keyed(kv1) && Keyed(kv2) && Keyed(kv3)
    requires QsortComparerCorrected(kv1, kv2) <= 0 && QsortComparerCorrected(kv2, kv3) <= 0
    ensures QsortComparerCorrected(kv1, kv3) <= 0
  {
    var k1, k2, k3 := kv1.value.key, kv2.value.key, kv3.value.key;
    if k1.Some? && k2.Some? && k3.Some? {
      StrcmpTransitive(k1.value.data, k2.value.data, k3.value.data);
    }
  }

  /** The main loop over the parsed lines. Each line is offered to
      `ht_insert` with a freshly seeded record; a refused line whose
      location is present is folded into the stored record. A refusal while
      the table is full sets `table_full` and ends the loop after this line.
      When the refused location is not in the full table, `ht_at` yields no
      record and the program dereferences it: the model reports `faulted`,
      and the table agrees with the lines before the fatal one. */
  method Ingest(rows: seq<Row<seq<byte>>>) returns (cities: Table<seq<byte>, Stats>, numLines: nat, tableFull: bool, faulted: bool)
    ensures numLines <= |rows| && (rows != [] ==> numLines > 0)
    ensures cities.capacity == TABLE_CAPACITY
    ensures !tableFull ==> numLines == |rows| && !faulted
    ensures faulted ==> tableFull && numLines > 0 && rows[numLines - 1].location !in cities.entries
    ensures tableFull ==> Size(cities) == TABLE_CAPACITY
    ensures tableFull && !faulted ==> numLines > 0 && rows[numLines - 1].location in cities.entries
    ensures Agrees(cities, rows[..if faulted then numLines - 1 else numLines])
  {
    cities := Empty(TABLE_CAPACITY);
    numLines := 0;
    tableFull := false;
    faulted := false;
    AgreesEmpty<seq<byte>>(TABLE_CAPACITY);
    while numLines < |rows| && !tableFull
      invariant numLines <= |rows| && cities.capacity == TABLE_CAPACITY
      invariant Agrees(cities, rows[..numLines])
      invariant tableFull ==> numLines > 0 && rows[numLines - 1].location in cities.entries
      invariant tableFull ==> Size(cities) == TABLE_CAPACITY
    {
      var row := rows[numLines];
      assert rows[..numLines + 1] == rows[..numLines] + [row];
      numLines := numLines + 1;
      var value := DatarowToStatsnode(Some(row)).value;
      var inserted := Insert(cities, row.location, value);
      if !inserted.1 {
        if Size(cities) >= cities.capacity {
          tableFull := true;
        }
        var kv := At(cities, row.location);
        if kv.None? {
          faulted := true;
          return;
        }
        AgreesAfterUpdate(cities, rows[..numLines - 1], row);
        cities := Put(cities, row.location, Update(kv.value, row.temperature));
      } else {
        AgreesAfterInsert(cities, rows[..numLines - 1], row);
        cities := inserted.0;
      }
    }
  }
}
