/** Small value types shared by the whole model. */
module Wrappers {

  /** A nullable value: `None` stands for a C NULL pointer. */
  datatype Option<+T> = None | Some(value: T)

  /** What a C function that may call `exit` produces: either it returns a
      value to its caller or it terminates the process with a status. */
  datatype Outcome<+T> = Returns(value: T) | Exits(status: int)
}

/** Bytes and the few byte constants the parsers and hashes look at. */
module Bytes {

  /** One `char` of a C buffer, as the unsigned value of its bit pattern. */
  type byte = x: int | 0 <= x < 256

  const NUL: byte := 0
  const NEWLINE: byte := 10
  const SEMICOLON: byte := 59
}

/** Generic facts about sequences used by the list and string models. */
module Seqs {

  /** Index of the first occurrence of `b` in `s`. */
  function FirstIndex<T(==)>(s: seq<T>, b: T): (k: nat)
    requires b in s
    ensures k < |s| && s[k] == b
    ensures forall j :: 0 <= j < k ==> s[j] != b
  {
    if s[0] == b then 0 else 1 + FirstIndex(s[1..], b)
  }

  /** The first occurrence in a concatenation lies in the left part when the
      left part contains the element, and is shifted by its length otherwise. */
  lemma {:induction false} FirstIndexAppend<T>(a: seq<T>, c: seq<T>, b: T)
    requires b in a + c
    ensures b in a ==> FirstIndex(a + c, b) == FirstIndex(a, b)
    ensures b !in a ==> b in c && FirstIndex(a + c, b) == |a| + FirstIndex(c, b)
  {
    if a == [] {
      assert a + c == c;
    } else if a[0] == b {
    } else {
      assert (a + c)[1..] == a[1..] + c;
      FirstIndexAppend(a[1..], c, b);
    }
  }

  /** `s` with `x` placed at position `k`. */
  function InsertAt<T>(s: seq<T>, k: nat, x: T): (r: seq<T>)
    requires k <= |s|
    ensures |r| == |s| + 1 && r[k] == x
    ensures forall j :: 0 <= j < k ==> r[j] == s[j]
    ensures forall j :: k < j < |r| ==> r[j] == s[j - 1]
  {
    s[..k] + [x] + s[k..]
  }

  /** `s` without its element at position `k`. */
  function RemoveAt<T>(s: seq<T>, k: nat): (r: seq<T>)
    requires k < |s|
    ensures |r| == |s| - 1
    ensures forall j :: 0 <= j < k ==> r[j] == s[j]
    ensures forall j :: k <= j < |r| ==> r[j] == s[j + 1]
  {
    s[..k] + s[k + 1..]
  }

  /** No element occurs twice. */
  ghost predicate Distinct<T>(s: seq<T>) {
    forall i, j :: 0 <= i < j < |s| ==> s[i] != s[j]
  }

  /** Removing what was just inserted gives back the original sequence, and
      a new element is found exactly where it was inserted. */
  lemma RemoveInsert<T>(s: seq<T>, k: nat, x: T)
    requires k <= |s|
    ensures RemoveAt(InsertAt(s, k, x), k) == s
    ensures x !in s ==> FirstIndex(InsertAt(s, k, x), x) == k
  {
    var r := InsertAt(s, k, x);
    assert RemoveAt(r, k) == s;
    if x !in s {
      forall j | 0 <= j < k ensures r[j] != x {
        assert r[j] == s[j];
      }
    }
  }

  /** Inserting a new element or removing one keeps the elements distinct,
      and the removed element no longer occurs. */
  lemma DistinctInsert<T>(s: seq<T>, k: nat, x: T)
    requires Distinct(s) && x !in s && k <= |s|
    ensures Distinct(InsertAt(s, k, x))
  {
    var r := InsertAt(s, k, x);
    forall i, j | 0 <= i < j < |r| ensures r[i] != r[j] {
      if i < k && j > k { assert r[j] == s[j - 1]; }
    }
  }

  lemma DistinctRemove<T>(s: seq<T>, k: nat)
    requires Distinct(s) && k < |s|
    ensures Distinct(RemoveAt(s, k)) && s[k] !in RemoveAt(s, k)
  {
    var r := RemoveAt(s, k);
    forall i | 0 <= i < |r| ensures r[i] != s[k] {
      if i >= k { assert r[i] == s[i + 1]; }
    }
  }

  /** In a sequence without repetition, the first occurrence of the element
      at position `k` is position `k`. */
  lemma FirstIndexDistinct<T>(s: seq<T>, k: nat)
    requires Distinct(s) && k < |s|
    ensures FirstIndex(s, s[k]) == k
  {
  }
}
