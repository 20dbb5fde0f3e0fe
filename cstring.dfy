/** NUL-terminated C strings and the C library comparisons the analysis
    programs rely on (`strlen`, `strcmp`, `strncmp`). Characters are compared
    as unsigned bytes, which is what the C standard prescribes for both
    comparisons. Only the sign of a comparison is modelled: the standard
    promises nothing about its magnitude. */
module CString {
  import opened Wrappers
  import opened Bytes
  import opened Seqs

  /** `strlen`: the number of bytes before the first NUL. */
  function Strlen(buf: seq<byte>): nat
    requires NUL in buf
  {
    FirstIndex(buf, NUL)
  }

  /** The string a NUL-terminated buffer holds: its bytes before the NUL. */
  function Contents(buf: seq<byte>): (s: seq<byte>)
    requires NUL in buf
    ensures NUL !in s
    ensures |s| < |buf| && buf[|s|] == NUL && buf[..|s|] == s
  {
    buf[..Strlen(buf)]
  }

  /** The value of a `String` (or stack `SAString`) struct: the bytes of its
      buffer and its `length` field. */
  datatype Str = Str(data: seq<byte>, length: nat)

  /** A string as `string_create` builds it: `length` bytes without a NUL,
      followed by the terminating NUL that ends the buffer. */
  ghost predicate Terminated(s: Str) {
    |s.data| == s.length + 1 && s.data[s.length] == NUL && NUL !in s.data[..s.length]
  }

  /** `strcmp`: negative, zero or positive as `a` sorts before, equal to or
      after `b`; the sign is represented by -1, 0 and 1. */
  function Strcmp(a: seq<byte>, b: seq<byte>): (r: int)
    requires NUL in a && NUL in b
    ensures -1 <= r <= 1
    decreases |a|
  {
    if a[0] != b[0] then (if a[0] < b[0] then -1 else 1)
    else if a[0] == NUL then 0
    else
      assert NUL in a[1..] && NUL in b[1..] by { TailStillTerminated(a); TailStillTerminated(b); }
      Strcmp(a[1..], b[1..])
  }

  /** `strncmp`: like `strcmp` but looks at no more than `n` bytes. */
  function Strncmp(a: seq<byte>, b: seq<byte>, n: nat): (r: int)
    requires NUL in a && NUL in b
    ensures -1 <= r <= 1
    ensures n == 0 ==> r == 0
    decreases n
  {
    if n == 0 then 0
    else if a[0] != b[0] then (if a[0] < b[0] then -1 else 1)
    else if a[0] == NUL then 0
    else
      assert NUL in a[1..] && NUL in b[1..] by { TailStillTerminated(a); TailStillTerminated(b); }
      Strncmp(a[1..], b[1..], n - 1)
  }

  lemma TailStillTerminated(a: seq<byte>)
    requires NUL in a && a[0] != NUL
    ensures NUL in a[1..]
  {
    var k := FirstIndex(a, NUL);
    assert a[1..][k - 1] == NUL;
  }

  /** `strcmp` reports equality exactly when the two buffers hold the same
      string, whatever follows their terminators. */
  lemma {:induction false} StrcmpZeroIff(a: seq<byte>, b: seq<byte>)
    requires NUL in a && NUL in b
    ensures Strcmp(a, b) == 0 <==> Contents(a) == Contents(b)
    decreases |a|
  {
    var ca, cb := Contents(a), Contents(b);
    if a[0] != b[0] {
      assert ca == [] <==> a[0] == NUL;
      assert cb == [] <==> b[0] == NUL;
      if ca != [] && cb != [] {
        assert ca[0] == a[0] && cb[0] == b[0];
      }
    } else if a[0] == NUL {
      assert Strlen(a) == 0 && Strlen(b) == 0;
    } else {
      TailStillTerminated(a);
      TailStillTerminated(b);
      StrcmpZeroIff(a[1..], b[1..]);
      assert Strlen(a) == 1 + Strlen(a[1..]);
      assert Strlen(b) == 1 + Strlen(b[1..]);
      assert ca == [a[0]] + Contents(a[1..]);
      assert cb == [b[0]] + Contents(b[1..]);
    }
  }

  /** `strcmp` is antisymmetric, so it is a consistent three-way order. */
  lemma {:induction false} StrcmpAntisymmetric(a: seq<byte>, b: seq<byte>)
    requires NUL in a && NUL in b
    ensures Strcmp(b, a) == -Strcmp(a, b)
    decreases |a|
  {
    if a[0] != b[0] || a[0] == NUL {
    } else {
      TailStillTerminated(a);
      TailStillTerminated(b);
      StrcmpAntisymmetric(a[1..], b[1..]);
    }
  }

  /** `strcmp` is transitive: if `a` sorts no later than `b` and `b` no
      later than `c`, then `a` sorts no later than `c`. */
  lemma {:induction false} StrcmpTransitive(a: seq<byte>, b: seq<byte>, c: seq<byte>)
    requires NUL in a && NUL in b && NUL in c
    requires Strcmp(a, b) <= 0 && Strcmp(b, c) <= 0
    ensures Strcmp(a, c) <= 0
    decreases |a|
  {
    if a[0] == b[0] && b[0] == c[0] && a[0] != NUL {
      TailStillTerminated(a);
      TailStillTerminated(b);
      TailStillTerminated(c);
      StrcmpTransitive(a[1..], b[1..], c[1..]);
    }
  }

  /** `strncmp` over the first `n` bytes of `a`, where those bytes hold no
      NUL, reports equality exactly when `b`'s string is at least `n` long and
      starts with the same `n` bytes. */
  lemma {:induction false} StrncmpPrefix(a: seq<byte>, b: seq<byte>, n: nat)
    requires NUL in a && NUL in b
    requires n <= Strlen(a)
    ensures Strncmp(a, b, n) == 0 <==> n <= Strlen(b) && a[..n] == b[..n]
    decreases n
  {
    if n == 0 {
    } else {
      assert a[0] != NUL;
      if a[0] != b[0] {
        if n <= Strlen(b) {
          assert a[..n][0] != b[..n][0];
        }
      } else {
        TailStillTerminated(a);
        TailStillTerminated(b);
        assert Strlen(a) == 1 + Strlen(a[1..]);
        assert Strlen(b) == 1 + Strlen(b[1..]);
        StrncmpPrefix(a[1..], b[1..], n - 1);
        assert Strncmp(a, b, n) == Strncmp(a[1..], b[1..], n - 1);
        assert a[..n] == [a[0]] + a[1..][..n - 1];
        if n <= Strlen(b) {
          assert b[..n] == [b[0]] + b[1..][..n - 1];
        } else {
          assert n - 1 > Strlen(b[1..]);
        }
      }
    }
  }

  /** `sa_string_to_char_arr` (analyze_improved.c with `calloc`, analyze_v4.c
      with the arena): a NULL string gives NULL; otherwise a new buffer of
      `length + 1` bytes holding the string's first `length` bytes and a NUL. */
  method StringToCharArr(str: Option<Str>) returns (res: array?<byte>)
    requires str.Some? ==> str.value.length <= |str.value.data|
    ensures str.None? <==> res == null
    ensures res != null ==> fresh(res) && res[..] == str.value.data[..str.value.length] + [NUL]
  {
    if str.None? {
      return null;
    }
    var s := str.value;
    res := new byte[s.length + 1](_ => NUL);
    forall i | 0 <= i < s.length {
      res[i] := s.data[i];
    }
    res[s.length] := NUL;
  }

  /** A buffer built by `sa_string_to_char_arr` from a string without a NUL
      holds exactly that string. */
  lemma CharArrContents(data: seq<byte>)
    requires NUL !in data
    ensures NUL in data + [NUL] && Contents(data + [NUL]) == data
  {
    var buf := data + [NUL];
    assert buf[|data|] == NUL;
    assert buf[..|data|] == data;
  }
}
