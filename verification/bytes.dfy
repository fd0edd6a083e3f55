/** Bytes, the NUL byte, and removing NUL bytes from a sequence. */
module Bytes {

  newtype byte = b: int | 0 <= b < 0x100

  /** No byte of `s` is the NUL byte 0. */
  predicate ZeroFree(s: seq<byte>) {
    forall i :: 0 <= i < |s| ==> s[i] != 0
  }

  /** `s` with every NUL byte dropped and every other byte kept, in order:
      the `filter(|byte| *byte != b'\0')` / `retain` of the owned constructors. */
  function RemoveZeros(s: seq<byte>): (r: seq<byte>)
    ensures ZeroFree(r)
    ensures |r| <= |s|
    ensures multiset(r) == multiset(s)[0 := 0]
    decreases |s|
  {
    if |s| == 0 then []
    else
      assert s == [s[0]] + s[1..];
      if s[0] == 0 then RemoveZeros(s[1..]) else [s[0]] + RemoveZeros(s[1..])
  }

  lemma ZeroFreeConcat(a: seq<byte>, b: seq<byte>)
    ensures ZeroFree(a + b) <==> ZeroFree(a) && ZeroFree(b)
  {
    if ZeroFree(a) && ZeroFree(b) {
      forall i | 0 <= i < |a + b| ensures (a + b)[i] != 0 {
        if i >= |a| { assert (a + b)[i] == b[i - |a|]; }
      }
    }
    if ZeroFree(a + b) {
      forall i | 0 <= i < |a| ensures a[i] != 0 {
        assert (a + b)[i] == a[i];
      }
      forall i | 0 <= i < |b| ensures b[i] != 0 {
        assert (a + b)[|a| + i] == b[i];
      }
    }
  }

  /** Filtering distributes over concatenation. */
  lemma {:induction false} RemoveZerosConcat(a: seq<byte>, b: seq<byte>)
    ensures RemoveZeros(a + b) == RemoveZeros(a) + RemoveZeros(b)
    decreases |a|
  {
    if |a| == 0 {
      assert a + b == b;
    } else {
      assert (a + b)[1..] == a[1..] + b;
      RemoveZerosConcat(a[1..], b);
    }
  }

  /** Filtering leaves a sequence unchanged exactly when it holds no NUL byte. */
  lemma {:induction false} RemoveZerosIdentity(s: seq<byte>)
    ensures RemoveZeros(s) == s <==> ZeroFree(s)
    decreases |s|
  {
    if |s| > 0 {
      RemoveZerosIdentity(s[1..]);
      if ZeroFree(s) {
        assert ZeroFree(s[1..]) by {
          forall i | 0 <= i < |s[1..]| ensures s[1..][i] != 0 { assert s[1..][i] == s[i + 1]; }
        }
        assert s == [s[0]] + s[1..];
      }
    }
  }

  /** Filtering twice is filtering once. */
  lemma RemoveZerosIdempotent(s: seq<byte>)
    ensures RemoveZeros(RemoveZeros(s)) == RemoveZeros(s)
  {
    RemoveZerosIdentity(RemoveZeros(s));
  }
}
