/** Rust's `CStr` and `CString` as values: the bytes of a C string,
    terminator included. */
module CStrs {
  import opened Bytes

  /** Non-empty, ends in NUL, and holds no other NUL. */
  predicate IsCStr(s: seq<byte>) {
    |s| >= 1 && s[|s| - 1] == 0 && forall i :: 0 <= i < |s| - 1 ==> s[i] != 0
  }

  /** The borrowed C string; `bytes_with_nul` is the value itself. */
  type CStr = s: seq<byte> | IsCStr(s) witness [0]

  /** The owned C string. Ownership is not modelled, so it is the same value
      as the borrowed one. */
  type CString = CStr

  /** `to_bytes` / `into_bytes`: the bytes before the terminator. */
  function ToBytes(c: CStr): (r: seq<byte>)
    ensures ZeroFree(r)
    ensures c == r + [0]
  {
    c[..|c| - 1]
  }

  /** `CString::from_vec_unchecked`: appends the terminator; its safety
      condition is that `v` holds no NUL. */
  function FromVecUnchecked(v: seq<byte>): (c: CString)
    requires ZeroFree(v)
    ensures ToBytes(c) == v
  {
    assert (v + [0])[..|v|] == v;
    v + [0]
  }

  /** A sequence is a C string exactly when it is some NUL-free sequence
      followed by one NUL. */
  lemma IsCStrAppend(p: seq<byte>)
    ensures IsCStr(p + [0]) <==> ZeroFree(p)
  {
    if IsCStr(p + [0]) {
      forall i | 0 <= i < |p| ensures p[i] != 0 {
        assert (p + [0])[i] == p[i];
      }
    }
  }
}
