/** The open-addressing table the analysis programs call (`ht_contains`,
    `ht_at`, `ht_insert`, `ht_size`, `ht_capacity` and their `ht_twos_pow_*`
    forms). Its implementation is not part of this model: it is described
    only by what its callers rely on, a finite map from keys to values that
    holds at most `capacity` entries and refuses to insert a key it holds or
    any key once full. */
module AbstractTable {
  import opened Wrappers

  datatype Table<K, V> = Table(entries: map<K, V>, capacity: nat)

  /** A table never holds more entries than its capacity. */
  ghost predicate Valid<K, V>(t: Table<K, V>) {
    |t.entries| <= t.capacity
  }

  /** The table `ht_init` gives: no entries. */
  function Empty<K, V>(capacity: nat): (t: Table<K, V>)
    ensures Valid(t) && t.capacity == capacity && |t.entries| == 0
  {
    Table(map[], capacity)
  }

  /** `ht_size`. */
  function Size<K, V>(t: Table<K, V>): nat {
    |t.entries|
  }

  /** `ht_contains`. */
  function Contains<K, V>(t: Table<K, V>, k: K): bool {
    k in t.entries
  }

  /** `ht_at`: the value stored for `k`, `None` when there is none. */
  function At<K, V>(t: Table<K, V>, k: K): (r: Option<V>)
    ensures r.Some? <==> Contains(t, k)
    ensures r.Some? ==> r.value == t.entries[k]
  {
    if k in t.entries then Some(t.entries[k]) else None
  }

  /** `ht_insert`: adds `k` with value `v` and reports true, unless the
      table already holds `k` or is full, in which case it reports false and
      the table is unchanged. */
  function Insert<K, V>(t: Table<K, V>, k: K, v: V): (r: (Table<K, V>, bool))
    requires Valid(t)
    ensures Valid(r.0) && r.0.capacity == t.capacity
    ensures r.1 <==> !Contains(t, k) && Size(t) < t.capacity
    ensures r.1 ==> r.0.entries == t.entries[k := v] && Size(r.0) == Size(t) + 1
    ensures !r.1 ==> r.0 == t
  {
    if k in t.entries || |t.entries| >= t.capacity then (t, false)
    else (Table(t.entries[k := v], t.capacity), true)
  }

  /** A write through the value pointer `ht_at` returns: the record stored
      for a key the table holds is replaced; no key is added or removed. */
  function Put<K, V>(t: Table<K, V>, k: K, v: V): (r: Table<K, V>)
    requires Contains(t, k)
    ensures r.entries.Keys == t.entries.Keys && Size(r) == Size(t)
    ensures r.capacity == t.capacity && r.entries[k] == v
    ensures forall k' :: k' in t.entries && k' != k ==> r.entries[k'] == t.entries[k']
  {
    assert t.entries[k := v].Keys == t.entries.Keys;
    Table(t.entries[k := v], t.capacity)
  }
}

/** What a per-location table should hold after a prefix of the input: one
    record per location it holds, each the summary of that location's
    temperatures so far, and no location missing unless the table is full.
    Shared by the three C analysis programs' main loops. */
module Aggregation {
  import opened Stats
  import opened AbstractTable

  /** The running-mean table agrees with the rows read so far. */
  ghost predicate Agrees<K>(t: Table<K, Stats>, rows: seq<Row<K>>) {
    Valid(t) &&
    t.entries.Keys <= Locations(rows) &&
    (forall k :: k in t.entries ==> Samples(rows, k) != [] && t.entries[k] == Summary(Samples(rows, k))) &&
    (forall k :: k in Locations(rows) && k !in t.entries ==> Size(t) >= t.capacity)
  }

  /** The running-sum table agrees with the rows read so far. */
  ghost predicate SumAgrees<K>(t: Table<K, SumStats>, rows: seq<Row<K>>) {
    Valid(t) &&
    t.entries.Keys <= Locations(rows) &&
    (forall k :: k in t.entries ==> Samples(rows, k) != [] && t.entries[k] == SumSummary(Samples(rows, k))) &&
    (forall k :: k in Locations(rows) && k !in t.entries ==> Size(t) >= t.capacity)
  }

  /** Every table held by an agreeing table satisfies the record invariant,
      and its count is the number of rows for its location. */
  lemma AgreesBounded<K>(t: Table<K, Stats>, rows: seq<Row<K>>, k: K)
    requires Agrees(t, rows) && k in t.entries
    ensures Bounded(t.entries[k]) && t.entries[k].numLines == |Samples(rows, k)|
  {
    SummaryBounded(Samples(rows, k));
  }

  /** An agreeing table holds every location seen so far, unless it is full,
      in which case it holds `capacity` of them. */
  lemma AgreesSize<K>(t: Table<K, Stats>, rows: seq<Row<K>>)
    requires Agrees(t, rows)
    ensures Size(t) == if |Locations(rows)| < t.capacity then |Locations(rows)| else t.capacity
  {
    SubsetSize(t.entries.Keys, Locations(rows));
    if Size(t) < t.capacity {
      assert t.entries.Keys == Locations(rows);
    }
  }

  lemma {:induction false} SubsetSize<K>(a: set<K>, b: set<K>)
    requires a <= b
    ensures |a| <= |b|
    decreases |a|
  {
    if a != {} {
      var x :| x in a;
      SubsetSize(a - {x}, b - {x});
    }
  }

  /** In an agreeing sum table every record's reported mean lies between
      its minimum and maximum. */
  lemma SumAgreesMeans<K>(t: Table<K, SumStats>, rows: seq<Row<K>>)
    requires SumAgrees(t, rows)
    ensures forall k :: k in t.entries ==>
      (t.entries[k].numLines > 0 && t.entries[k].min <= Mean(t.entries[k]) <= t.entries[k].max)
  {
    forall k | k in t.entries
      ensures t.entries[k].numLines > 0 && t.entries[k].min <= Mean(t.entries[k]) <= t.entries[k].max
    {
      SumMeanBetween(Samples(rows, k));
    }
  }

  lemma AgreesEmpty<K>(capacity: nat)
    ensures Agrees(Empty<K, Stats>(capacity), [])
    ensures SumAgrees(Empty<K, SumStats>(capacity), [])
  {
  }

  /** Folding a row whose location the table holds into that location's
      record keeps the table in agreement with the extended input. */
  lemma {:induction false} AgreesAfterUpdate<K>(t: Table<K, Stats>, rows: seq<Row<K>>, r: Row<K>)
    requires Agrees(t, rows) && Contains(t, r.location)
    ensures Agrees(Put(t, r.location, Update(t.entries[r.location], r.temperature)), rows + [r])
  {
    var k0, rows' := r.location, rows + [r];
    var t' := Put(t, k0, Update(t.entries[k0], r.temperature));
    SamplesAppend(rows, r, k0);
    UpdateIsSummary(Samples(rows, k0), r.temperature);
    forall k | k in t'.entries
      ensures Samples(rows', k) != [] && t'.entries[k] == Summary(Samples(rows', k))
    {
      if k != k0 {
        SamplesAppend(rows, r, k);
        assert Samples(rows', k) == Samples(rows, k);
        assert t'.entries[k] == t.entries[k];
      }
    }
    forall k | k in Locations(rows') && k !in t'.entries
      ensures Size(t') >= t'.capacity
    {
    }
  }

  /** Offering a row whose location the table does not hold to `ht_insert`
      with a freshly seeded record keeps the table in agreement, whether the
      insert succeeds or the table is full. */
  lemma {:induction false} AgreesAfterInsert<K>(t: Table<K, Stats>, rows: seq<Row<K>>, r: Row<K>)
    requires Agrees(t, rows) && !Contains(t, r.location)
    ensures Agrees(Insert(t, r.location, Seed(r.temperature)).0, rows + [r])
  {
    var k0, rows' := r.location, rows + [r];
    var res := Insert(t, k0, Seed(r.temperature));
    var t' := res.0;
    SamplesAppend(rows, r, k0);
    if res.1 {
      SamplesNonEmpty(rows, k0);
      SeedIsSummary(r.temperature);
      assert Samples(rows', k0) == [r.temperature];
    }
    forall k | k in t'.entries
      ensures Samples(rows', k) != [] && t'.entries[k] == Summary(Samples(rows', k))
    {
      if k != k0 {
        SamplesAppend(rows, r, k);
        assert Samples(rows', k) == Samples(rows, k);
        assert t'.entries[k] == t.entries[k];
      }
    }
    forall k | k in Locations(rows') && k !in t'.entries
      ensures Size(t') >= t'.capacity
    {
    }
  }

  lemma {:induction false} SumAgreesAfterUpdate<K>(t: Table<K, SumStats>, rows: seq<Row<K>>, r: Row<K>)
    requires SumAgrees(t, rows) && Contains(t, r.location)
    ensures SumAgrees(Put(t, r.location, SumUpdate(t.entries[r.location], r.temperature)), rows + [r])
  {
    var k0, rows' := r.location, rows + [r];
    var t' := Put(t, k0, SumUpdate(t.entries[k0], r.temperature));
    SamplesAppend(rows, r, k0);
    UpdateIsSummary(Samples(rows, k0), r.temperature);
    forall k | k in t'.entries
      ensures Samples(rows', k) != [] && t'.entries[k] == SumSummary(Samples(rows', k))
    {
      if k != k0 {
        SamplesAppend(rows, r, k);
        assert Samples(rows', k) == Samples(rows, k);
        assert t'.entries[k] == t.entries[k];
      }
    }
    forall k | k in Locations(rows') && k !in t'.entries
      ensures Size(t') >= t'.capacity
    {
    }
  }

  lemma {:induction false} SumAgreesAfterInsert<K>(t: Table<K, SumStats>, rows: seq<Row<K>>, r: Row<K>)
    requires SumAgrees(t, rows) && !Contains(t, r.location)
    ensures SumAgrees(Insert(t, r.location, SumSeed(r.temperature)).0, rows + [r])
  {
    var k0, rows' := r.location, rows + [r];
    var res := Insert(t, k0, SumSeed(r.temperature));
    var t' := res.0;
    SamplesAppend(rows, r, k0);
    if res.1 {
      SamplesNonEmpty(rows, k0);
      SeedIsSummary(r.temperature);
      assert Samples(rows', k0) == [r.temperature];
    }
    forall k | k in t'.entries
      ensures Samples(rows', k) != [] && t'.entries[k] == SumSummary(Samples(rows', k))
    {
      if k != k0 {
        SamplesAppend(rows, r, k);
        assert Samples(rows', k) == Samples(rows, k);
        assert t'.entries[k] == t.entries[k];
      }
    }
    forall k | k in Locations(rows') && k !in t'.entries
      ensures Size(t') >= t'.capacity
    {
    }
  }
}
