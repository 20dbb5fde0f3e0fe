/** src/dtypes.c: heap strings (`String`: a NUL-terminated buffer and its
    length) and the teardown loop of a group of parsed rows. */
module Dtypes {
  import opened Wrappers
  import opened Bytes
  import opened Hashing

  /** `String`: a heap buffer and the number of bytes before its NUL. */
  datatype String = String(data: array<byte>, length: nat)

  /** `string_create(data, length)`, reading from `src` at offset `start`
      (the callers pass a pointer into a line buffer): a fresh buffer of
      `length + 1` bytes, zero-filled by `calloc`, holding a copy of the
      `length` source bytes followed by a NUL. */
  method StringCreate(src: array<byte>, start: nat, length: int) returns (s: String)
    requires 0 <= length && start + length <= src.Length
    ensures fresh(s.data) && s.length == length && s.data.Length == length + 1
    ensures s.data[..length] == src[start..start + length] && s.data[length] == NUL
  {
    var buf := new byte[length + 1](_ => NUL);
    forall i | 0 <= i < length {
      buf[i] := src[start + i];
    }
    buf[length] := NUL;
    s := String(buf, length);
  }

  /** `(int)x` for a `size_t` x: its low 32 bits read in two's complement. */
  function ToInt32(x: Word): (r: int)
    ensures -0x8000_0000 <= r < 0x8000_0000
    ensures x < 0x8000_0000 ==> r == x
    ensures (r - x) % 0x1_0000_0000 == 0
  {
    var low := x % 0x1_0000_0000;
    if low < 0x8000_0000 then low else low - 0x1_0000_0000
  }

  /** The indices `datarowgroup_destroy` passes to `datarow_destroy`, in
      order: none for a NULL group; otherwise `ctr` starts at
      `(int)(num_rows - 1)`, computed in `size_t`, and counts down to 0.
      For any group of at most 2^31 rows this visits every index from
      `num_rows - 1` down to 0 exactly once, and none when there are no
      rows. */
  method DestroyOrder(numRows: Option<Word>) returns (visited: seq<int>)
    ensures numRows.None? ==> visited == []
    ensures numRows.Some? ==>
      var first := ToInt32((numRows.value + WORD - 1) % WORD);
      |visited| == (if first >= 0 then first + 1 else 0) &&
      forall i :: 0 <= i < |visited| ==> visited[i] == first - i
    ensures numRows.Some? && numRows.value <= 0x8000_0000 ==>
      |visited| == numRows.value &&
      forall i :: 0 <= i < |visited| ==> visited[i] == numRows.value - 1 - i
  {
    visited := [];
    if numRows.None? {
      return;
    }
    var first := ToInt32((numRows.value + WORD - 1) % WORD);
    var ctr := first;
    while ctr >= 0
      invariant -1 <= ctr <= first || (first < 0 && ctr == first)
      invariant |visited| == first - ctr
      invariant forall i :: 0 <= i < |visited| ==> visited[i] == first - i
    {
      visited := visited + [ctr];
      ctr := ctr - 1;
    }
    if numRows.value == 0 {
      assert (numRows.value + WORD - 1) % WORD == WORD - 1;
    }
  }
}
