/** The `const_null_terminated_str!` macro: a literal with one NUL appended,
    checked by `from_const_str`; a failure there is a compile error. */
module Literal {
  import opened Bytes
  import opened Wrappers
  import opened CStrs
  import Utf8
  import Borrowed

  /** `const_null_terminated_str!(s)`: succeeds exactly when the literal has
      no NUL of its own, and then views exactly `s`. */
  method ConstNullTerminatedStr(s: Utf8.Str) returns (r: Option<Borrowed.NullTerminatedStr>)
    ensures r.Some? <==> ZeroFree(s)
    ensures r.Some? ==> r.value.cstr == s + [0] && Borrowed.Deref(r.value) == s
  {
    Utf8.AppendTerminatorValid(s);
    IsCStrAppend(s);
    r := Borrowed.FromConstStr(s + [0]);
  }

  /** The bytes of an ASCII text. */
  function Ascii(t: string): (r: seq<byte>)
    requires forall i :: 0 <= i < |t| ==> t[i] as int < 0x80
    ensures |r| == |t|
    ensures forall i :: 0 <= i < |t| ==> r[i] as int == t[i] as int
  {
    seq(|t|, i requires 0 <= i < |t| => t[i] as int as byte)
  }

  /** ASCII bytes are one-byte characters, so they are valid UTF-8. */
  lemma {:induction false} AsciiValid(s: seq<byte>)
    requires forall i :: 0 <= i < |s| ==> s[i] < 0x80
    ensures Utf8.Valid(s)
    decreases |s|
  {
    if |s| > 0 {
      assert s[..1] == [s[0]];
      AsciiValid(s[1..]);
    }
  }

  /** The first doc-test: "Hello, World!" is accepted and derefs to itself. */
  method HelloWorld() returns (r: Option<Borrowed.NullTerminatedStr>)
    ensures r.Some? && Borrowed.Deref(r.value) == Ascii("Hello, World!")
  {
    var s := Ascii("Hello, World!");
    AsciiValid(s);
    r := ConstNullTerminatedStr(s);
  }

  /** The `compile_fail` doc-test: "Hello,\0 World!" is rejected. */
  method HelloNulWorld() returns (r: Option<Borrowed.NullTerminatedStr>)
    ensures r.None?
  {
    var s := Ascii("Hello,\0 World!");
    AsciiValid(s);
    assert s[6] == 0;
    r := ConstNullTerminatedStr(s);
  }

  /** The empty literal: its view holds only the terminator and derefs to "". */
  method EmptyLiteral() returns (r: Option<Borrowed.NullTerminatedStr>)
    ensures r.Some? && r.value.cstr == [0] && Borrowed.Deref(r.value) == []
  {
    r := ConstNullTerminatedStr([]);
  }
}
