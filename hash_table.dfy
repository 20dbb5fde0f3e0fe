/** The chained bucket table of src/hash_table.c: a fixed array of
    `table_size` buckets, each NULL or a sentinel-headed list, and a hash
    function from a node to a bucket index. The abstract contents are one
    entry per bucket: `None` for NULL, or the values of the bucket's list. */
module HashTable {
  import opened Wrappers
  import opened Seqs
  import opened LinkedList

  /** The abstract value of one bucket. */
  type Bucket = Option<seq<int>>

  /** The number of occupied (non-NULL) buckets. */
  function CountOccupied(c: seq<Bucket>): (n: nat)
    ensures n <= |c|
  {
    if c == [] then 0
    else CountOccupied(c[..|c| - 1]) + (if c[|c| - 1] == None then 0 else 1)
  }

  /** Every occupied bucket still has its head node. */
  ghost predicate HeadsPresent(c: seq<Bucket>) {
    forall i :: 0 <= i < |c| ==> c[i] != Some([])
  }

  /** The head value of every occupied bucket, in increasing bucket order. */
  function HeadKeys(c: seq<Bucket>): (ks: seq<int>)
    requires HeadsPresent(c)
  {
    if c == [] then []
    else
      var last := c[|c| - 1];
      HeadKeys(c[..|c| - 1]) + (if last.None? then [] else [last.value[0]])
  }

  /** There is one head key per occupied bucket, and each one is the first
      value of some occupied bucket. */
  lemma {:induction false} HeadKeysCount(c: seq<Bucket>)
    requires HeadsPresent(c)
    ensures |HeadKeys(c)| == CountOccupied(c)
    ensures forall k :: k in HeadKeys(c) ==> exists i :: 0 <= i < |c| && c[i] != None && c[i].value[0] == k
  {
    if c != [] {
      var p := c[..|c| - 1];
      HeadKeysCount(p);
      forall k | k in HeadKeys(c)
        ensures exists i :: 0 <= i < |c| && c[i] != None && c[i].value[0] == k
      {
        if k in HeadKeys(p) {
          var i :| 0 <= i < |p| && p[i] != None && p[i].value[0] == k;
          assert c[i] == p[i];
        } else {
          assert c[|c| - 1] != None && c[|c| - 1].value[0] == k;
        }
      }
    }
  }

  /** One more bucket adds its head key, if it is occupied, to the head keys
      and one to the count. */
  lemma HeadKeysStep(c: seq<Bucket>, i: nat)
    requires i < |c| && HeadsPresent(c[..i]) && c[i] != Some([])
    ensures HeadsPresent(c[..i + 1])
    ensures HeadKeys(c[..i + 1]) == HeadKeys(c[..i]) + (if c[i].None? then [] else [c[i].value[0]])
    ensures CountOccupied(c[..i + 1]) == CountOccupied(c[..i]) + (if c[i].None? then 0 else 1)
  {
    assert c[..i + 1][..i] == c[..i];
    var p := c[..i + 1];
    forall k | 0 <= k < |p| ensures p[k] != Some([]) {
      if k < i {
        assert p[k] == c[..i][k];
      }
    }
  }

  /** A table in which no bucket is occupied has only empty buckets. */
  lemma {:induction false} CountZero(c: seq<Bucket>)
    requires CountOccupied(c) == 0
    ensures forall i :: 0 <= i < |c| ==> c[i] == None
  {
    if c != [] {
      CountZero(c[..|c| - 1]);
      assert forall i :: 0 <= i < |c| - 1 ==> c[i] == c[..|c| - 1][i];
    }
  }

  /** A prefix has no more occupied buckets than the whole. */
  lemma {:induction false} CountPrefix(c: seq<Bucket>, i: nat)
    requires i <= |c|
    ensures CountOccupied(c[..i]) <= CountOccupied(c)
    decreases |c| - i
  {
    if i < |c| {
      CountPrefix(c, i + 1);
      assert c[..i + 1][..i] == c[..i];
    } else {
      assert c[..i] == c;
    }
  }

  /** Emptying an occupied bucket lowers the count by one; filling an empty
      bucket raises it by one; any other change of a bucket's contents keeps
      it. */
  lemma {:induction false} CountUpdate(c: seq<Bucket>, h: nat, b: Bucket)
    requires h < |c|
    ensures CountOccupied(c[h := b]) ==
      CountOccupied(c) - (if c[h] == None then 0 else 1) + (if b == None then 0 else 1)
  {
    var c' := c[h := b];
    if h < |c| - 1 {
      assert c'[..|c'| - 1] == c[..|c| - 1][h := b];
      CountUpdate(c[..|c| - 1], h, b);
    } else {
      assert c'[..|c'| - 1] == c[..|c| - 1];
    }
  }

  /** The values a bucket's list starts from when `ht_insert_node` adds to
      it: its own values, or the new sentinel head `ll_init` makes, whose
      value is the bucket index. */
  function StartValues(b: Bucket, index: nat): (vs: seq<int>)
    ensures b == None ==> vs == [index]
    ensures b != None ==> vs == b.value
  {
    if b.None? then [index] else b.value
  }

  /** The range guard of `ht_insert_node` and `ht_remove_node` as written:
      the operation goes ahead unless `index > table_size`. */
  function ProceedsAsWritten(index: nat, tableSize: nat): bool {
    !(index > tableSize)
  }

  class Table {
    const tableSize: nat
    const hashfunc: (int, Data) -> nat
    const keys: array<List?>
    ghost var Contents: seq<Bucket>
    ghost var Repr: set<object>

    /** Every bucket is NULL exactly when its abstract entry is `None`; an
        occupied bucket is a well-formed list whose values are its entry;
        the buckets' footprints lie within the table's and do not overlap. */
    ghost predicate Valid()
      reads this, Repr
    {
      this in Repr && keys in Repr &&
      keys.Length == tableSize && |Contents| == tableSize &&
      (forall i :: 0 <= i < keys.Length ==> BucketOk(i)) &&
      (forall i, j :: 0 <= i < j < keys.Length ==> Apart(i, j))
    }

    /** Two occupied buckets have disjoint footprints. */
    ghost predicate Apart(i: int, j: int)
      reads this, Repr
    {
      keys in Repr && 0 <= i < keys.Length && 0 <= j < keys.Length &&
      (keys[i] != null && keys[j] != null && keys[i] in Repr && keys[j] in Repr ==>
        keys[i].Repr !! keys[j].Repr)
    }

    /** Bucket `i` is NULL exactly when its entry is `None`; otherwise it is
        a well-formed list inside the table's footprint, apart from the
        table and the array, whose values are the entry. */
    ghost predicate BucketOk(i: int)
      reads this, Repr
    {
      keys in Repr && 0 <= i < keys.Length && i < |Contents| &&
      (keys[i] == null <==> Contents[i] == None) &&
      (keys[i] != null ==>
        keys[i] in Repr && keys[i].Repr <= Repr &&
        this !in keys[i].Repr && keys !in keys[i].Repr &&
        keys[i].Valid() && Contents[i] == Some(keys[i].Values()))
    }

    /** The objects of bucket `i`'s list, if it has one. */
    ghost function Footprint(i: nat): set<object>
      requires i < keys.Length
      reads this, keys, keys[i]
    {
      if keys[i] == null then {} else keys[i].Repr
    }

    /** A change confined to bucket `index` (its old footprint, the table
        object and the bucket array) that leaves the other buckets' slots
        and entries alone keeps every other bucket well-formed and with its
        footprint; if bucket `index` is well-formed afterwards and apart from
        what the other buckets held, the table is valid. */
    twostate lemma OthersKept(index: nat)
      requires old(Valid()) && index < tableSize
      requires unchanged(old(Repr) - old(Footprint(index)) - {this, keys})
      requires forall i :: 0 <= i < keys.Length && i != index ==> keys[i] == old(keys[i])
      requires |Contents| == tableSize && forall i :: 0 <= i < tableSize && i != index ==> Contents[i] == old(Contents)[i]
      requires old(Repr) - old(Footprint(index)) <= Repr && this in Repr && keys in Repr
      requires BucketOk(index)
      requires keys[index] != null ==> keys[index].Repr !! old(Repr) - old(Footprint(index))
      ensures Valid()
    {
      assert old(BucketOk(index));
      forall i | 0 <= i < keys.Length && i != index
        ensures BucketOk(i) && (keys[i] != null ==> keys[i].Repr == old(keys[i].Repr) && keys[i].Repr <= old(Repr) - old(Footprint(index)))
      {
        assert old(BucketOk(i));
        assert if i < index then old(Apart(i, index)) else old(Apart(index, i));
        if keys[i] != null {
          var li := keys[i];
          assert old(li.Valid()) && li in old(li.Repr) && old(li.Repr) <= old(Repr);
          assert old(li.Repr) !! old(Footprint(index));
          assert li in old(Repr) - old(Footprint(index)) - {this, keys};
          assert li.Repr == old(li.Repr);
        }
      }
      forall i, j | 0 <= i < j < keys.Length ensures Apart(i, j) {
        assert old(Apart(i, j));
      }
    }

    /** `ht_init`: `size` buckets, all empty. */
    constructor Init(size: nat, hf: (int, Data) -> nat)
      requires size > 0
      ensures Valid() && fresh(Repr)
      ensures tableSize == size && hashfunc == hf
      ensures Contents == seq(size, i => None)
    {
      var a := new List?[size];
      for i := 0 to size
        invariant forall j :: 0 <= j < i ==> a[j] == null
      {
        a[i] := null;
      }
      tableSize := size;
      hashfunc := hf;
      keys := a;
      Contents := seq(size, i => None);
      Repr := {this, a};
      new;
      forall i | 0 <= i < size ensures BucketOk(i) {
      }
    }

    /** `ll_init(&(table->keys[index]), value, NULL)`: an empty bucket gets
        a new one-node list holding `value`. */
    method InitBucket(index: nat, value: int)
      requires Valid() && index < tableSize && Contents[index] == None
      modifies Repr
      ensures Valid() && fresh(Repr - old(Repr))
      ensures Contents == old(Contents)[index := Some([value])]
    {
      assert BucketOk(index);
      var l := new List.Init(value, None);
      keys[index] := l;
      Contents := Contents[index := Some([value])];
      Repr := Repr + l.Repr;
      assert BucketOk(index);
      OthersKept(index);
    }

    /** `ll_add_at_head(table->keys[index], a_node)`: the node goes right
        after the head of an occupied bucket; no other bucket changes. */
    method AddAtBucketHead(index: nat, n: Node)
      requires Valid() && n !in Repr && index < tableSize
      requires Contents[index] != None && Contents[index] != Some([])
      modifies Repr, n
      ensures Valid() && Repr == old(Repr) + {n}
      ensures Contents == old(Contents)[index := Some(InsertAt(old(Contents)[index].value, 1, n.value))]
      ensures keys[index] != null && |keys[index].nodes| > 1 && keys[index].nodes[1] == n
    {
      assert BucketOk(index);
      var l := keys[index];
      l.AddAtHead(n);
      Contents := Contents[index := Some(l.Values())];
      Repr := Repr + {n};
      assert BucketOk(index);
      OthersKept(index);
      assert l.nodes[1] == n;
    }

    /** `ht_insert_node` with the range guard `index >= table_size`: the node
        goes right after the head of its bucket, the bucket being created
        first (head value = index) when it is empty; no other bucket
        changes. A bucket that is not NULL but has lost its head (which
        `ht_remove_node` of the head's value leaves behind) makes
        `ll_add_at_head` dereference NULL: that is `faulted`, and the model
        then changes nothing. */
    method InsertNode(n: Node) returns (ok: bool, faulted: bool)
      requires Valid() && n !in Repr
      modifies Repr, n
      ensures Valid() && fresh(Repr - old(Repr) - {n})
      ensures faulted <==> hashfunc(n.value, n.data) < tableSize && old(Contents)[hashfunc(n.value, n.data)] == Some([])
      ensures ok <==> hashfunc(n.value, n.data) < tableSize && !faulted
      ensures ok ==> Contents == old(Contents)[hashfunc(n.value, n.data) :=
        Some(InsertAt(StartValues(old(Contents)[hashfunc(n.value, n.data)], hashfunc(n.value, n.data)), 1, n.value))]
      ensures ok ==>
        n in Repr && keys[hashfunc(n.value, n.data)] != null &&
        |keys[hashfunc(n.value, n.data)].nodes| > 1 && keys[hashfunc(n.value, n.data)].nodes[1] == n
      ensures !ok ==> Contents == old(Contents) && Repr == old(Repr)
    {
      var index := hashfunc(n.value, n.data);
      if index >= tableSize {
        return false, false;
      }
      assert BucketOk(index);
      if keys[index] == null {
        InitBucket(index, index);
      } else if keys[index].head == null {
        assert keys[index].Values() == [];
        return false, true;
      }
      AddAtBucketHead(index, n);
      return true, false;
    }

    /** `ht_get_values`: the list of bucket `index`. */
    method GetValues(index: nat) returns (l: List?)
      requires Valid() && index < tableSize
      ensures l == null <==> Contents[index] == None
      ensures l != null ==> l.Valid() && Contents[index] == Some(l.Values())
    {
      assert BucketOk(index);
      l := keys[index];
    }

    /** `ht_size`: the number of occupied buckets, not of nodes. */
    method Size() returns (size: nat)
      requires Valid()
      ensures size == CountOccupied(Contents)
      ensures size <= tableSize
    {
      size := 0;
      for i := 0 to tableSize
        invariant size == CountOccupied(Contents[..i])
      {
        assert Contents[..i + 1][..i] == Contents[..i];
        assert BucketOk(i);
        if keys[i] == null {
          continue;
        }
        size := size + 1;
      }
      assert Contents[..tableSize] == Contents;
    }

    /** `ht_get_keys`: NULL when no bucket is occupied; otherwise a new array
        holding the head value of every occupied bucket in bucket order.
        `ll_get_node_value` asserts that each such head exists: the program
        aborts (`aborted`) exactly when some bucket has lost its head. */
    method GetKeys() returns (r: array?<int>, aborted: bool)
      requires Valid()
      ensures aborted <==> !HeadsPresent(Contents)
      ensures !aborted ==> (r == null <==> CountOccupied(Contents) == 0)
      ensures !aborted && r != null ==> fresh(r) && r[..] == HeadKeys(Contents)
    {
      var size := Size();
      if size == 0 {
        CountZero(Contents);
        return null, false;
      }
      r := new int[size];
      var j := 0;
      for i := 0 to tableSize
        invariant j == CountOccupied(Contents[..i]) && j <= size
        invariant HeadsPresent(Contents[..i]) && r[..j] == HeadKeys(Contents[..i])
      {
        var stop;
        j, stop := CollectHead(r, i, j);
        if stop {
          return null, true;
        }
      }
      assert Contents[..tableSize] == Contents;
      HeadKeysCount(Contents);
      aborted := false;
    }

    /** One turn of the `ht_get_keys` loop: an occupied bucket `i` appends its
        head value at position `j`; an empty one is skipped; an occupied one
        without a head aborts. */
    method CollectHead(r: array<int>, i: nat, j: nat) returns (j': nat, aborted: bool)
      requires Valid() && r !in Repr && i < tableSize
      requires j == CountOccupied(Contents[..i]) && j <= r.Length == CountOccupied(Contents)
      requires HeadsPresent(Contents[..i]) && r[..j] == HeadKeys(Contents[..i])
      modifies r
      ensures aborted <==> Contents[i] == Some([])
      ensures !aborted ==> j' == CountOccupied(Contents[..i + 1]) && j' <= r.Length
      ensures !aborted ==> HeadsPresent(Contents[..i + 1]) && r[..j'] == HeadKeys(Contents[..i + 1])
    {
      assert BucketOk(i);
      if keys[i] == null {
        HeadKeysStep(Contents, i);
        return j, false;
      }
      var v := BucketHead(i);
      if v.None? {
        return j, true;
      }
      HeadKeysStep(Contents, i);
      CountPrefix(Contents, i + 1);
      r[j] := v.value;
      assert r[..j + 1] == old(r[..j]) + [v.value];
      return j + 1, false;
    }

    /** `ll_get_node_value(*(table->keys[i]))` on an occupied bucket: its
        head value, or `None` for the abort when the bucket has no head. */
    method BucketHead(i: nat) returns (v: Option<int>)
      requires Valid() && i < tableSize && keys[i] != null
      ensures Contents[i] != None
      ensures v.None? <==> Contents[i] == Some([])
      ensures v.Some? ==> v.value == Contents[i].value[0]
    {
      assert BucketOk(i);
      var l := keys[i];
      assert l.Valid() && Contents[i] == Some(l.Values());
      v := l.HeadValue();
    }

    /** `ht_insert_key`: succeeds only when the key's bucket is in range and
        empty; the bucket then holds a one-node list with the key. Otherwise
        nothing changes. */
    method InsertKey(value: int) returns (ok: bool)
      requires Valid()
      modifies Repr
      ensures Valid() && fresh(Repr - old(Repr))
      ensures ok <==> hashfunc(value, None) < tableSize && old(Contents)[hashfunc(value, None)] == None
      ensures ok ==> Contents == old(Contents)[hashfunc(value, None) := Some([value])]
      ensures !ok ==> Contents == old(Contents)
    {
      var dummy := new Node(value, None);
      var index := hashfunc(dummy.value, dummy.data);
      var _, _ := DeleteNode(dummy);
      if index >= tableSize {
        return false;
      }
      assert BucketOk(index);
      if keys[index] != null {
        return false;
      }
      InitBucket(index, value);
      return true;
    }

    /** `ht_delete_key`: fails for an out-of-range or empty bucket; otherwise
        deletes that bucket's whole list and empties exactly that bucket. */
    method DeleteKey(value: int) returns (ok: bool)
      requires Valid()
      modifies Repr
      ensures Valid() && Repr <= old(Repr)
      ensures ok <==> hashfunc(value, None) < tableSize && old(Contents)[hashfunc(value, None)] != None
      ensures ok ==> Contents == old(Contents)[hashfunc(value, None) := None]
      ensures !ok ==> Contents == old(Contents)
    {
      var dummy := new Node(value, None);
      var index := hashfunc(dummy.value, dummy.data);
      var _, _ := DeleteNode(dummy);
      if index >= tableSize {
        return false;
      }
      assert BucketOk(index);
      if keys[index] == null {
        return false;
      }
      var l := keys[index];
      l.DeleteAll();
      keys[index] := null;
      Contents := Contents[index := None];
      assert BucketOk(index);
      OthersKept(index);
      return true;
    }

    /** `ll_dequeue_node(table->keys[index], a)` for a node of that bucket:
        the node is unlinked from the bucket's list and returned; no other
        bucket changes. */
    method DequeueFromBucket(index: nat, a: Node) returns (r: Node?)
      requires Valid() && index < tableSize && keys[index] != null && a in keys[index].nodes
      modifies Repr
      ensures Valid() && Repr == old(Repr) - {a}
      ensures r == a && a.next == null
      ensures Contents == old(Contents)[index :=
        Some(RemoveAt(old(keys[index].Values()), FirstIndex(old(keys[index].nodes), a)))]
    {
      assert BucketOk(index);
      var l := keys[index];
      assert a as object != keys && a as object != l && a as object != this;
      r := l.Dequeue(a);
      Contents := Contents[index := Some(l.Values())];
      Repr := Repr - {a};
      assert BucketOk(index);
      OthersKept(index);
    }

    /** `ht_remove_node` with the range guard `index >= table_size`: NULL when
        the bucket is out of range, empty, or holds no node with `value`;
        otherwise the first such node (head included) is unlinked from its
        bucket and returned. */
    method RemoveNode(value: int, data: Data) returns (removed: Node?)
      requires Valid()
      modifies Repr
      ensures Valid() && Repr <= old(Repr)
      ensures var h := hashfunc(value, data);
        removed != null <==> h < tableSize && old(Contents)[h] != None && value in old(Contents)[h].value
      ensures var h := hashfunc(value, data);
        removed != null ==>
          old(keys[h]) != null && removed in old(keys[h].nodes) &&
          FirstIndex(old(keys[h].nodes), removed) == FirstIndex(old(Contents)[h].value, value)
      ensures var h := hashfunc(value, data);
        removed != null ==>
          removed.value == value && removed.next == null && removed !in Repr &&
          Contents == old(Contents)[h := Some(RemoveAt(old(Contents)[h].value, FirstIndex(old(Contents)[h].value, value)))]
      ensures removed == null ==> Contents == old(Contents)
    {
      var dummy := new Node(value, data);
      var index := hashfunc(dummy.value, dummy.data);
      var _, _ := DeleteNode(dummy);
      if index >= tableSize {
        return null;
      }
      assert BucketOk(index);
      if keys[index] == null {
        return null;
      }
      var l := keys[index];
      removed := l.Find(value);
      if removed != null {
        FirstIndexDistinct(l.nodes, FirstIndex(l.Values(), value));
        removed := DequeueFromBucket(index, removed);
      }
    }
  }

  /** `ht_insert_node` as written, on a node whose hash is exactly
      `table_size`: the guard at line 50 lets it through, and the index it
      then reads and writes is not a slot of the bucket array. */
  lemma InsertGuardAdmitsPastEnd(t: Table, n: Node)
    requires t.Valid() && t.hashfunc(n.value, n.data) == t.tableSize
    ensures ProceedsAsWritten(t.hashfunc(n.value, n.data), t.tableSize)
    ensures t.hashfunc(n.value, n.data) >= t.keys.Length
  {
  }

  /** `ht_remove_node` as written, on a value whose dummy node hashes to
      exactly `table_size`: the guard at line 143 lets it through, and the
      bucket it then reads is not a slot of the bucket array. */
  lemma RemoveGuardAdmitsPastEnd(t: Table, value: int, data: Data)
    requires t.Valid() && t.hashfunc(value, data) == t.tableSize
    ensures ProceedsAsWritten(t.hashfunc(value, data), t.tableSize)
    ensures t.hashfunc(value, data) >= t.keys.Length
  {
  }
}
