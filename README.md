# One-billion-row challenge: verified model of the aggregation core

This project models the core of the one-billion-row-challenge programs in
Dafny. The programs read lines `location;temperature`, and keep one record per
location: the minimum, maximum, mean or sum, and the number of lines seen.
The model covers:

- **The sentinel-headed singly linked list** of `src/linked_list.c` (module
  `LinkedList`). It is a class over nodes whose `next` fields are rewired in
  place. A ghost sequence `nodes` holds the chain in order.
- **The chained bucket table** of `src/hash_table.c` (module `HashTable`). It is
  a class over an array of optional lists. A ghost sequence `Contents` holds
  each bucket's values.
- **The per-location aggregation** of `analyze_improved.c`, `analyze_v4.c`,
  `analyze_v1.c` and `analyze.cpp` (modules `AnalyzeImproved`, `AnalyzeV4`,
  `AnalyzeV1`, `AnalyzeCpp`), together with:
  - the record rules (module `Stats`);
  - the string hashes and their index reductions (module `Hashing`);
  - the key comparisons (module `CString`).

  The C programs call an open-addressing table that is not part of this model.
  It appears as the abstract capacity-bounded map `AbstractTable`. The
  invariant its callers keep is in `Aggregation`.
- **Line splitting and string construction** of `src/io_utils.c` and
  `src/dtypes.c` (modules `IoUtils`, `Dtypes`).

Every aggregation loop is proved against the same reference definition. After
reading lines `rows`, the record of location `k` is
`Summary(Samples(rows, k))`, that is, the minimum, maximum, mean and count of
`k`'s readings. Or it is `SumSummary(Samples(rows, k))` for the sum variant of
`analyze_v4.c`. A location is missing only when the table is full. So
`min <= mean <= max` holds, and the count equals the number of lines for the
location.

C `size_t` arithmetic is modelled modulo 2^64. The sign extension of
`(size_t)row[i]` for a signed `char` is modelled by `Hashing.Widen`.
`exit(1)` is `Outcome.Exits(1)` and a NULL pointer is `Option.None`.

## Model

| member | source | states |
|---|---|---|
| `LinkedList.Node.constructor` | src/linked_list.c:33-41 | the new node carries the given value and data and has no successor |
| `LinkedList.Node.IsEnqueued` | src/linked_list.c:48-50 | true exactly when the node has a successor |
| `LinkedList.DeleteNode` | src/linked_list.c:103-112 | a node with a successor is refused (false, pointer kept); otherwise it is released and the caller's pointer becomes NULL |
| `LinkedList.List.Init` | src/linked_list.c:43-46 | a valid list made of one fresh head node holding the given value and data |
| `LinkedList.List.EnqueuedUnlessLast` | src/linked_list.c:48-50 | a node of a list has a successor exactly when it is not the last one |
| `LinkedList.List.HeadValue` | src/linked_list.c:52-55 | the value of the head node, which is the first of the list's values; the failing `assert` (`None`) exactly when the list has no head and so no values |
| `LinkedList.List.AddAtHead` | src/linked_list.c:85-88 | the new node is inserted at position 1, right after the head; the head and the order of the other nodes are unchanged; the length grows by one |
| `LinkedList.List.AddAtTail` | src/linked_list.c:90-96 | the node sequence becomes the old one followed by the new node |
| `LinkedList.List.AddAfterNode` | src/linked_list.c:98-101 | the new node is inserted right after `present`, everything else kept in order |
| `LinkedList.List.LinkAfter` | src/linked_list.c:98-101 | the two pointer writes put the new node right after `present`; the head is kept and the footprint grows by the new node only |
| `LinkedList.List.Dequeue` | src/linked_list.c:63-83 | for a node of the list: it is removed at its own position (the head case moves the head to its successor), its `next` is cleared and it is returned; for any other node: NULL, nothing changes |
| `LinkedList.List.UnlinkHead` | src/linked_list.c:73-80 | the head case: the handle moves to the head's successor, the old head leaves the list at position 0 and its `next` is cleared |
| `LinkedList.List.UnlinkAfter` | src/linked_list.c:76-80 | the other case: the predecessor is relinked to `a`'s successor, `a` leaves the list at its own position, its `next` is cleared and the head is kept |
| `LinkedList.List.Predecessor` | src/linked_list.c:66-75 | the walk finds the node just before `a`, or NULL when `a` is not in the list |
| `LinkedList.List.Length` | src/linked_list.c:124-133 | the number of nodes after the head |
| `LinkedList.List.Find` | src/linked_list.c:135-143 | the first node, head included, holding the value, or NULL when no node does |
| `LinkedList.List.DeleteAll` | src/linked_list.c:114-122 | the list ends empty, and every node it held has been unlinked before release |
| `LinkedList.List.DeleteHead` | src/linked_list.c:117-120 | one pass of the delete loop: the head is dequeued and released, the handle moves to its old successor and the rest of the list is kept in order |
| `LinkedList.ValuesOfInsert` | tests/test_linked_list.c:30-51 | inserting a node inserts its value at the same position of the value sequence |
| `LinkedList.ValuesOfRemove` | tests/test_linked_list.c:65-102 | removing a node removes its value at the same position |
| `Seqs.RemoveInsert` | tests/test_linked_list.c:65-102 | removing what was inserted restores the sequence, and a new element is found where it was inserted |
| `HashTable.Table.Init` | src/hash_table.c:33-45 | a valid table of `size` buckets, all empty, with the given hash function |
| `HashTable.Table.InsertNode` | src/hash_table.c:47-57 | faults exactly when the index is in range and its bucket is non-NULL but has lost its head (the NULL dereference in `ll_add_at_head`); otherwise succeeds exactly when the index is in range; an empty bucket first gets a head holding the index; the node `n` itself is linked right after the head; other buckets are unchanged; on failure nothing changes |
| `HashTable.Table.GetValues` | src/hash_table.c:59-61 | the bucket's list, NULL exactly for an empty bucket, holding that bucket's values |
| `HashTable.Table.Size` | src/hash_table.c:73-82 | the number of occupied buckets, at most `table_size` |
| `HashTable.Table.GetKeys` | src/hash_table.c:84-99 | aborts exactly when some occupied bucket has lost its head; otherwise NULL when no bucket is occupied, and else a fresh array of the head values of the occupied buckets, in bucket order |
| `HashTable.Table.CollectHead` | src/hash_table.c:92-97 | one pass of the key loop: aborts exactly when the bucket is occupied without a head; otherwise the keys collected so far are extended by the bucket's head value exactly when the bucket is occupied |
| `HashTable.Table.BucketHead` | src/hash_table.c:95 | `ll_get_node_value` of an occupied bucket's list is the first value of that bucket, or the abort exactly when the bucket holds no node |
| `HashTable.HeadKeysCount` | src/hash_table.c:84-99 | there are as many keys as occupied buckets, and each key heads one of them |
| `HashTable.Table.InsertKey` | src/hash_table.c:101-114 | succeeds exactly when the index is in range and the bucket is empty, which then holds the one value; otherwise nothing changes |
| `HashTable.Table.DeleteKey` | src/hash_table.c:116-133 | succeeds exactly when the index is in range and the bucket occupied, which then becomes empty; otherwise nothing changes |
| `HashTable.CountUpdate` | src/hash_table.c:116-133 | emptying an occupied bucket lowers `ht_size` by one, filling an empty one raises it by one |
| `HashTable.Table.RemoveNode` | src/hash_table.c:135-153 | a node is removed exactly when the index is in range, the bucket occupied and a node holds the value; the node returned is the bucket's own node at the first position holding the value (the head included); it leaves the bucket with its `next` cleared; otherwise NULL and nothing changes |
| `HashTable.InsertGuardAdmitsPastEnd` | src/hash_table.c:48-54 | for a valid table and a node hashing to `table_size`, the guard as written lets it through, and that index is past the end of the bucket array |
| `HashTable.RemoveGuardAdmitsPastEnd` | src/hash_table.c:140-146 | for a valid table and a value hashing to `table_size`, the guard as written lets it through, and that index is past the end of the bucket array |
| `Hashing.Widen` | analyze_improved.c:149 | a sign-extended byte keeps its low byte, and is unchanged exactly when below 128 |
| `Hashing.MyHashLoop` | analyze_improved.c:147-150 | the loop of `myhash` computes the recurrence `MyHashOf` of the key bytes |
| `Hashing.Djb2Loop` | analyze_improved.c:165-168 | the loop of `djb2` computes the recurrence `Djb2Of` of the key bytes |
| `Hashing.MyHashStepIsAffine` | analyze_improved.c:149 | `hash += hash * 97 + c` is `98 * hash + c` modulo 2^64 |
| `Hashing.Djb2StepIsAffine` | analyze_improved.c:167 | `((hash << 5) + hash) + c` is `33 * hash + c` modulo 2^64 |
| `Hashing.MyHashIsPolynomial` | analyze_v1.c:67-70 | `myhash` is the base-98 polynomial of the bytes from 0, modulo 2^64 |
| `Hashing.Djb2IsPolynomial` | analyze_v1.c:85-88 | `djb2` is the base-33 polynomial of the bytes from 5381, modulo 2^64 |
| `Hashing.ModuloIndex` | analyze_improved.c:152 | `hash % capacity` is below the capacity |
| `Hashing.MaskIndex` | analyze_v4.c:145 | `hash & (capacity - 1)` is below any non-zero capacity and at most the hash |
| `Hashing.MaskIsModulo` | analyze_v4.c:163 | for a power-of-two capacity the mask index equals the modulo index |
| `Hashing.BitAndLowMask` | analyze_v4.c:145 | masking with `2^k - 1` is `% 2^k` |
| `CString.StringToCharArr` | analyze_improved.c:173-179 | NULL for NULL; otherwise a fresh buffer holding the string's `length` bytes followed by NUL (the arena copy of analyze_v4.c:166-172 is the same) |
| `CString.CharArrContents` | analyze_improved.c:84 | a copied location with no NUL reads back as exactly that location |
| `CString.StrcmpZeroIff` | analyze_improved.c:201 | `strcmp` is zero exactly when the two C strings are byte-equal |
| `CString.StrcmpAntisymmetric` | analyze_v4.c:194 | swapping the arguments of `strcmp` negates its sign |
| `CString.StrcmpTransitive` | analyze_v4.c:194 | `strcmp` is transitive: no later than a string that is no later than a third means no later than the third |
| `CString.StrncmpPrefix` | analyze_v1.c:123 | `strncmp` over the first length of `a` is zero exactly when `b` starts with those bytes |
| `Stats.Init` | analyze_improved.c:107-114 | count 1 and the given fields; it satisfies `min <= mean <= max` exactly when the arguments do (identical in analyze_v1.c:35-42 and the constructor of analyze.cpp:38-43) |
| `Stats.SumInit` | analyze_v4.c:100-107 | count 1 and the given fields; the reported mean is the given sum |
| `Stats.DatarowToStatsnode` | analyze_improved.c:121-135 | NULL for a NULL row; otherwise the record of that one reading, which satisfies the record invariant (also analyze_v1.c:49-55) |
| `Stats.SeedIsSummary` | analyze_v4.c:122-128 | a seeded record, mean or sum variant, is the summary of the single reading |
| `Stats.UpdateIsSummary` | analyze_improved.c:79-82 | folding a reading into the summary of a history gives the summary of the extended history, for the running mean and for the running sum of analyze_v4.c:77-80 |
| `Stats.UpdateKeepsBounds` | analyze_v1.c:167-172 | the in-place update keeps `min <= mean <= max` for any record that satisfied it, and the new reading lies between the new bounds |
| `Stats.SummaryBounded` | analyze_improved.c:81 | the summary of any non-empty history has `min <= mean <= max` |
| `Stats.SumMeanBetween` | analyze_v4.c:111 | the reported mean `sum / num_lines` of a summary lies between its minimum and maximum |
| `Stats.MinMaxBound` | analyze_improved.c:79-80 | the minimum and maximum of a history are readings of it and bound all of it |
| `Stats.SamplesNonEmpty` | analyze.cpp:77-78 | a location has readings exactly when some line mentions it |
| `Stats.SamplesAppend` | analyze.cpp:66-79 | a new line extends its own location's readings and no other |
| `AbstractTable.Empty` | analyze_improved.c:64 | a fresh table has no entries |
| `AbstractTable.At` | analyze_improved.c:76-77 | the stored record, NULL exactly when the key is absent |
| `AbstractTable.Insert` | analyze_v1.c:162 | succeeds exactly when the key is absent and the table not full, adding one entry; otherwise the table is unchanged |
| `AbstractTable.Put` | analyze_improved.c:79-82 | writing through the stored record's pointer changes that record and no key |
| `Aggregation.AgreesAfterUpdate` | analyze_improved.c:72-82 | folding a line into its present location's record keeps every record the summary of its readings |
| `Aggregation.AgreesAfterInsert` | analyze_improved.c:83-85 | offering an absent location to `ht_insert` with a seeded record keeps the table in agreement, whether the insert succeeds or the table is full |
| `Aggregation.SumAgreesAfterUpdate` | analyze_v4.c:73-80 | the same for the running-sum update |
| `Aggregation.SumAgreesAfterInsert` | analyze_v4.c:81-83 | the same for the sum-variant insert |
| `Aggregation.AgreesBounded` | analyze_v1.c:166-172 | every record of an agreeing table satisfies `min <= mean <= max` and counts its location's lines |
| `Aggregation.AgreesSize` | analyze_improved.c:72-85 | an agreeing table holds all locations seen, or `capacity` of them once full |
| `Aggregation.SumAgreesMeans` | analyze_v4.c:109-112 | every reported mean of an agreeing sum table lies between its record's minimum and maximum |
| `AnalyzeImproved.MyHash` | analyze_improved.c:137-153 | exit(1) exactly for a NULL table or key; otherwise the base-98 hash of the key string modulo 2^64, reduced modulo the capacity and below it |
| `AnalyzeImproved.Djb2` | analyze_improved.c:155-171 | the same for the base-33 hash from 5381 |
| `AnalyzeImproved.KeyEqual` | analyze_improved.c:194-202 | exit(1) exactly for a NULL argument; otherwise true exactly when the two strings are equal |
| `AnalyzeImproved.IngestLine` | analyze_improved.c:72-85 | one pass of the loop keeps the table in agreement with one more line; it reports `table_full` exactly when the line's location is present and the table is full, and then the location stays present |
| `AnalyzeImproved.Ingest` | analyze_improved.c:66-86 | records agree with the lines read; if the loop stops early, the last line was present in a full table and was still folded in; the table holds `min(distinct locations, 50000)` keys |
| `AnalyzeV4.MaxTableSizeIsPowerOfTwo` | analyze_v4.c:29 | `MAX_TBL_SIZE` is 2^16 |
| `AnalyzeV4.MyHash` | analyze_v4.c:130-146 | exit(1) exactly for a NULL table or key; otherwise the masked base-98 hash, below any non-zero capacity, and the hash modulo 65536 at `MAX_TBL_SIZE` |
| `AnalyzeV4.Djb2` | analyze_v4.c:148-164 | the same for the base-33 hash from 5381 |
| `AnalyzeV4.Keycmp` | analyze_v4.c:187-195 | exit(1) exactly for a NULL argument; otherwise a three-way result that is zero exactly when the strings are equal |
| `AnalyzeV4.KeycmpAntisymmetric` | analyze_v4.c:187-195 | swapping the keys negates the result |
| `AnalyzeV4.DatarowToStatsnode` | analyze_v4.c:114-128 | NULL for a NULL row; otherwise the sum record of that one reading |
| `AnalyzeV4.IngestLine` | analyze_v4.c:73-83 | one pass of the loop keeps the sum table in agreement with one more line |
| `AnalyzeV4.Ingest` | analyze_v4.c:68-84 | every line is read; every record is the sum summary of its location's readings; no location is missing unless the table is full; every reported mean lies between its minimum and maximum |
| `AnalyzeV1.MyHash` | analyze_v1.c:57-73 | exit(1) exactly for a NULL table or key; otherwise the base-98 hash of the key's first `length` bytes, reduced modulo the capacity |
| `AnalyzeV1.Djb2` | analyze_v1.c:75-91 | the same for the base-33 hash from 5381 |
| `AnalyzeV1.Keycmp` | analyze_v1.c:118-124 | exit(1) exactly for a NULL argument; otherwise zero exactly when `key1` is a prefix of `key2` |
| `AnalyzeV1.KeycmpPrefixCounterexample` | analyze_v1.c:123 | "A" compares equal to "AB" |
| `AnalyzeV1.KeycmpCorrected` | analyze_v1.c:118-124 | zero exactly when the two keys are equal |
| `AnalyzeV1.KeycmpSameLength` | analyze_v1.c:123 | on keys of equal length the written and the intended comparison agree about equality |
| `AnalyzeV1.QsortComparer` | analyze_v1.c:126-133 | 0 for a NULL entry pointer, -1 for a NULL first key, 1 for a NULL second key only, otherwise the prefix comparison of `keycmp` |
| `AnalyzeV1.QsortComparerInconsistent` | analyze_v1.c:130-132 | an empty slot compares below itself, and "A" against "AB" gives 0 while "AB" against "A" gives 1 |
| `AnalyzeV1.QsortComparerCorrected` | analyze_v1.c:126-133 | empty slots compare equal to each other and before every key; keys compare by `strcmp` |
| `AnalyzeV1.QsortComparerCorrectedConsistent` | analyze_v1.c:126-133 | the intended comparer is antisymmetric and reflexive |
| `AnalyzeV1.QsortComparerCorrectedTransitive` | analyze_v1.c:126-133 | on the non-NULL entries `qsort` passes, the intended comparer is transitive |
| `AnalyzeV1.Ingest` | analyze_v1.c:154-179 | every line is offered to `ht_insert` first; a refused line present in the table is folded in; records agree with the lines read; a refusal while full stops the loop, and a refused absent location is the fatal dereference of a missing record |
| `AnalyzeCpp.ParseSingleRow` | analyze.cpp:46-50 | with a `;`: the city before the first `;` and `stod` of everything after it; without one, both are the whole row (`npos + 1` wraps to 0) |
| `AnalyzeCpp.ParseRoundTrip` | analyze.cpp:46-50 | `city;text` with no `;` in the city parses into `city` and `stod(text)` |
| `AnalyzeCpp.DefaultStats` | analyze.cpp:33-36 | the default record is the summary of a single reading of 0 |
| `AnalyzeCpp.ExactStep` | analyze.cpp:68-78 | updating a found city or inserting `Stats(t, t, t)` keeps the map holding exactly the cities seen, each with its summary |
| `AnalyzeCpp.Aggregate` | analyze.cpp:66-79 | the map's keys are exactly the cities seen, and each record is the summary of that city's readings |
| `AnalyzeCpp.ExactBounded` | analyze.cpp:69-75 | each record satisfies `min <= mean <= max` and counts that city's lines |
| `Dtypes.StringCreate` | src/dtypes.c:27-46 | a fresh buffer of `length + 1` bytes: the first `length` source bytes, then NUL; the length field is the argument |
| `Dtypes.ToInt32` | src/dtypes.c:76 | `(int)` of a `size_t` is the value congruent modulo 2^32 in the signed 32-bit range, unchanged below 2^31 |
| `Dtypes.DestroyOrder` | src/dtypes.c:74-82 | the indices visited count down from `(int)(num_rows - 1)` to 0; for up to 2^31 rows, each index from `num_rows - 1` down to 0 once, none for 0 rows |
| `IoUtils.Location` | src/io_utils.c:35-43 | the bytes before the first `;`, which hold no `;` |
| `IoUtils.TemperatureText` | src/io_utils.c:44-52 | the bytes strictly between the first `;` and the first `\n`, which hold no `\n` |
| `IoUtils.SemicolonBeforeNewline` | src/io_utils.c:35-44 | in a well-formed line the first `;` comes before the first `\n` |
| `IoUtils.ParseSingleRow` | src/io_utils.c:28-57 | the location holds exactly the bytes before the first `;`, with that length and a NUL after them; the temperature is `atof` of the bytes between the `;` and the `\n` |
| `IoUtils.ParseRoundTrip` | src/io_utils.c:25-27 | `loc;num\n` with no `;` or `\n` in `loc` and no `\n` in `num` is well formed and parses into `loc` and `num` |
| `IoUtils.AtofSeesText` | src/io_utils.c:52-53 | when the temperature text holds no NUL, `atof` is given all of it |

## Left out

- File and stream I/O is not modelled: the `fopen`/`fgets`/`getline` loops of every `main`, `parse_raw_data`, main.c and analyze.c. Each loop takes the sequence of parsed lines instead. The extra line that `fgets` reads after `table_full` is set is not counted.
- `sa_parse_single_row` and the `SAString`/`SADataRow` stack types are not part of this model. The C loops take rows of location bytes and temperatures.
- The open-addressing table (`ht_contains`, `ht_at`, `ht_insert`, `ht_twos_pow_*`, `ht_at_index`, `ht_sort_by_key`) is not part of this model. It is the abstract map `AbstractTable`, which compares keys by content. Its probing, and any refusal other than a full table, are not modelled.
- `AnalyzeV4.Keycmp`: the unseen table is handed `keycmp`, whose result is zero on equal keys. How that table interprets the result is not modelled. `AnalyzeV4.Ingest` assumes it matches keys by content.
- `AnalyzeV1.Ingest`: keys are matched by content (`AnalyzeV1.KeycmpCorrected`), not by the prefix comparison the program passes to `ht_init`.
- `AnalyzeV1.Ingest`: what `ht_at` returns for a key the table does not hold is not modelled. The loop stops with `faulted` at that point.
- Floating point is not modelled. Temperatures are real numbers, so the rounding of the running mean and of the sum is not captured. `atof` and `stod` are function parameters.
- Output is not modelled: `print_stats`, `stats_print`, `ll_print`, `ht_print_table`, `string_print`, `datarow_print`, src/format.c.
- Allocation and release are not modelled: `malloc`/`calloc` failure, `free`, the arena, `string_destroy`, `datarow_destroy` and `ht_destroy`, and the final teardown loops.
- `HashTable.Table.RemoveNode`: `ht_remove_node` builds its dummy node with the caller's `data` and releases it with `ll_delete_node`, which frees a non-NULL `data`. A caller passing the `data` of a stored node leaves that node's `data` dangling. The model does not free anything, so it does not capture this.
- `Stats.Init`: the NULL check on `stats_init`'s out-pointer is not modelled, because every caller passes the address of a local.
- `ll_get_node_data` is not a method here, and `ll_get_node_value` is one only for a list's head (`LinkedList.List.HeadValue`, the one use in src/hash_table.c). Elsewhere the model reads the node's `value` and `data` fields directly.
- src/generate_data.c and src/args.c are not part of this model: they use randomness, floating point, an external matrix library and `argp`.
- `LinkedList.List.AddAtTail` requires the new node to have no successor. The C code would splice in the new node's whole chain.
- `LinkedList.List.AddAfterNode` requires `present` to be a node of the list. The C code links any two nodes.
- A bucket can be non-NULL and yet hold no node. `ht_remove_node` uses `ll_find`, which also checks the head, so it can dequeue the head. `ll_dequeue_node` then makes the head's successor the new head, whose value `ht_get_keys` afterwards reports as the bucket's key. When the head was the bucket's only node, `keys[index]` is left pointing to NULL. Afterwards `ht_get_keys` aborts in `ll_get_node_value`'s `assert`, and `ht_insert_node` on that bucket dereferences NULL in `ll_add_at_head`. `HashTable.Table.GetKeys` reports this as `aborted`, and `HashTable.Table.InsertNode` as `faulted`. In both cases the model stops there and does not say what a crashed process leaves behind.
- `HashTable.Table.GetValues` returns the bucket's list rather than the address of the bucket slot. Writes through that address are not modelled.
- `HashTable.Table.InsertNode` and `HashTable.Table.RemoveNode` use the range check `index >= table_size`. The `index > table_size` check as written is `HashTable.ProceedsAsWritten`. `HashTable.InsertGuardAdmitsPastEnd` and `HashTable.RemoveGuardAdmitsPastEnd` state what it lets through (see Findings).
- `Dtypes.StringCreate` requires `length >= 0` and a non-NULL source. For a NULL source or a negative length the C code only prints a diagnostic, and then goes on to undefined behaviour.
- `IoUtils.ParseSingleRow` requires a `;` before the first `\n`. Without one, the location is never set and the second loop scans past the line.
- The C loop counters (`int ctr`, `unsigned long num_lines`) are unbounded here. Lines are shorter than the 256-byte buffer, and the line count is reported only.

## Findings

| source | as written | input that shows it | evidently intended | confidence | as-written member | corrected member |
|---|---|---|---|---|---|---|
| src/hash_table.c:50 | `if (index>table->table_size) return false;` | a node whose hash is exactly `table_size`: `keys[table_size]` is read and written, one past the array | `index >= table_size`, as in `ht_insert_key` | high, not executed | `HashTable.InsertGuardAdmitsPastEnd` | `HashTable.Table.InsertNode` |
| src/hash_table.c:143 | `if (index>table->table_size) return NULL;` | a value whose hash is exactly `table_size`: `keys[table_size]` is read | `index >= table_size`, as in `ht_delete_key` | high, not executed | `HashTable.RemoveGuardAdmitsPastEnd` | `HashTable.Table.RemoveNode` |
| analyze_v1.c:123 | `strncmp(key1->data, key2->data, key1->length)` | key1 "A" (length 1) and key2 "AB": the result is 0, so distinct locations compare equal | compare the whole strings (`strcmp`) | medium, not executed | `AnalyzeV1.KeycmpPrefixCounterexample` | `AnalyzeV1.KeycmpCorrected` |
| analyze_v1.c:130-132 | `if (key1==NULL) return -1;` before checking `key2`; prefix `strncmp` | two empty slots: each compares below the other; "A" against "AB" gives 0 but "AB" against "A" gives 1; `qsort` needs a consistent order | empty slots equal to each other, keys by `strcmp` | medium, not executed | `AnalyzeV1.QsortComparerInconsistent` | `AnalyzeV1.QsortComparerCorrected` |
