/** `NullTerminatedString`, the owned buffer: a `CString` whose bytes before
    the terminator are valid UTF-8. */
module Owned {
  import opened Bytes
  import opened Wrappers
  import opened Order
  import opened CStrs
  import Utf8
  import Borrowed

  /** The newtype around `CString`, before its invariant. */
  datatype Repr = Repr(cstring: CString)

  /** Values of the owned buffer: the newtype plus its invariant. */
  type NullTerminatedString = s: Repr | Utf8.Valid(ToBytes(s.cstring)) witness Repr([0])

  /** The fields of `NullStringFromUtf8Error`. */
  datatype ErrorRepr = ErrorRepr(cstring: CString, utf8Err: Utf8.Utf8Error)

  /** The error of `from_cstring`: the rejected C string together with the
      error that validating it reports. */
  type NullStringFromUtf8Error = e: ErrorRepr | Utf8.FromUtf8(ToBytes(e.cstring)) == Err(e.utf8Err)
    witness ErrorRepr([0x80, 0], Utf8.Utf8Error(0))

  /** `into_inner`: hands back the C string and an error that describes it. */
  function IntoInner(e: NullStringFromUtf8Error): (r: (CString, Utf8.Utf8Error))
    ensures !Utf8.Valid(ToBytes(r.0))
    ensures Utf8.FromUtf8(ToBytes(r.0)) == Err(r.1)
  {
    (e.cstring, e.utf8Err)
  }

  /** `from_cstring_unchecked`: wraps `c`; the caller must already know its
      content is valid UTF-8. */
  function FromCStringUnchecked(c: CString): (s: NullTerminatedString)
    requires Utf8.Valid(ToBytes(c))
    ensures s.cstring == c
  {
    Repr(c)
  }

  /** `from_cstring`: takes `c` unchanged when its content is UTF-8, and
      otherwise returns it untouched inside the error. */
  function FromCString(c: CString): (r: Result<NullTerminatedString, NullStringFromUtf8Error>)
    ensures r.Ok? <==> Utf8.Valid(ToBytes(c))
    ensures r.Ok? ==> r.value.cstring == c
    ensures r.Err? ==> IntoInner(r.error).0 == c
  {
    match Borrowed.FromCStr(c)
    case Err(e) => Err(ErrorRepr(c, e))
    case Ok(_) => Ok(FromCStringUnchecked(c))
  }

  /** `from_cstring_lossy`: `from_cstring` when that succeeds; otherwise the
      content is repaired with U+FFFD and terminated again. */
  function FromCStringLossy(c: CString): (s: NullTerminatedString)
    ensures FromCString(c).Ok? ==> s == FromCString(c).value
    ensures !Utf8.Valid(ToBytes(c)) ==> s.cstring != c
    ensures ToBytes(s.cstring) == Utf8.Lossy(ToBytes(c))
  {
    match FromCString(c)
    case Ok(s) => s
    case Err(e) =>
      var bytes := Utf8.Lossy(ToBytes(IntoInner(e).0));
      Repr(FromVecUnchecked(bytes))
  }

  /** `From<&str>`: drops every NUL byte of `s` and appends one. */
  function FromStr(s: Utf8.Str): (r: NullTerminatedString)
    ensures multiset(r.cstring) == multiset(s)[0 := 1]
    ensures ToBytes(r.cstring) == RemoveZeros(s)
    ensures ZeroFree(s) ==> r.cstring == s + [0]
  {
    Utf8.RemoveZerosValid(s);
    RemoveZerosIdentity(s);
    var buf := RemoveZeros(s);
    var c := FromVecUnchecked(buf);
    assert multiset(c) == multiset(buf) + multiset{0};
    Repr(c)
  }

  /** `From<String>`: the same sanitising, done by `retain` over the bytes. */
  method FromString(s: Utf8.Str) returns (r: NullTerminatedString)
    ensures r == FromStr(s)
  {
    var buf: seq<byte> := [];
    var i := 0;
    while i < |s|
      invariant 0 <= i <= |s|
      invariant buf == RemoveZeros(s[..i])
    {
      assert s[..i + 1] == s[..i] + [s[i]];
      RemoveZerosConcat(s[..i], [s[i]]);
      assert RemoveZeros([s[i]]) == (if s[i] == 0 then [] else [s[i]]) by {
        assert [s[i]][1..] == [];
      }
      if s[i] != 0 {
        buf := buf + [s[i]];
      }
      i := i + 1;
    }
    assert s[..|s|] == s;
    Utf8.RemoveZerosValid(s);
    r := Repr(FromVecUnchecked(buf));
  }

  /** `From<NullTerminatedString> for String`: the content, without the
      terminator. */
  function IntoString(s: NullTerminatedString): (r: Utf8.Str)
    ensures r + [0] == s.cstring
    ensures ZeroFree(r)
  {
    ToBytes(s.cstring)
  }

  /** `From<NullTerminatedString> for CString`: the stored C string, whose
      content is the `String` conversion's. */
  function IntoCString(s: NullTerminatedString): (r: CString)
    ensures ToBytes(r) == IntoString(s)
  {
    s.cstring
  }

  /** `Deref<Target = NullTerminatedStr>`: a view over the same bytes. */
  function Deref(s: NullTerminatedString): (v: Borrowed.NullTerminatedStr)
    ensures v.cstr == s.cstring
    ensures Borrowed.Deref(v) == IntoString(s)
  {
    Borrowed.FromCStrUnchecked(s.cstring)
  }

  /** Copying a view into an owned buffer, through its `str` content. */
  function Promote(v: Borrowed.NullTerminatedStr): (s: NullTerminatedString)
    ensures s.cstring == v.cstr
  {
    FromStr(Borrowed.Deref(v))
  }

  /** The derived `Ord` of the owned buffer, which orders the stored C
      strings, is the order of the contents. */
  function Cmp(a: NullTerminatedString, b: NullTerminatedString): (r: Ordering)
    ensures r == Compare(IntoString(a), IntoString(b))
    ensures r == Equal <==> a == b
  {
    CompareTerminated(IntoString(a), IntoString(b));
    CompareEqual(a.cstring, b.cstring);
    Compare(a.cstring, b.cstring)
  }

  /** Owned and borrowed comparisons agree through `Deref`. */
  lemma CmpDeref(a: NullTerminatedString, b: NullTerminatedString)
    ensures Cmp(a, b) == Borrowed.Cmp(Deref(a), Deref(b))
  {
  }

  /** The `String` of a sanitised `str` is the `str` with its NUL bytes
      removed, and the `str` itself when it had none. */
  lemma IntoStringFromStr(s: Utf8.Str)
    ensures IntoString(FromStr(s)) == RemoveZeros(s)
    ensures ZeroFree(s) <==> IntoString(FromStr(s)) == s
  {
    RemoveZerosIdentity(s);
  }

  /** A NUL inside a text is dropped and one is appended at the end: sanitising
      "hi\0there" stores "hithere" followed by the terminator. */
  lemma {:induction false} SanitiseInteriorNul(a: seq<byte>, b: seq<byte>)
    requires ZeroFree(a) && ZeroFree(b) && Utf8.Valid(a + [0] + b)
    ensures FromStr(a + [0] + b).cstring == a + b + [0]
  {
    var z: seq<byte> := [0];
    var az := RemoveZeros(a + z);
    assert az == a by {
      RemoveZerosConcat(a, z);
      assert RemoveZeros(z) == [] by {
        assert z[1..] == [];
      }
      RemoveZerosIdentity(a);
      assert a + [] == a;
    }
    assert RemoveZeros(a + z + b) == a + b by {
      RemoveZerosConcat(a + z, b);
      RemoveZerosIdentity(b);
    }
    var r := FromStr(a + z + b);
    assert ToBytes(r.cstring) == a + b;
  }

  /** Sanitising is idempotent. */
  lemma FromStrIdempotent(s: Utf8.Str)
    ensures FromStr(IntoString(FromStr(s))) == FromStr(s)
  {
    RemoveZerosIdempotent(s);
  }

  /** Promoting a view and viewing the copy keeps the content. */
  lemma PromoteDeref(v: Borrowed.NullTerminatedStr)
    ensures Borrowed.Deref(Deref(Promote(v))) == Borrowed.Deref(v)
  {
  }

  /** Re-terminating the repaired bytes directly, as the lossy constructor
      does, gives what sanitising them with `From<String>` would: the repair
      introduces no NUL, so there is nothing to strip. */
  lemma LossyIsSanitised(c: CString)
    ensures FromCStringLossy(c) == FromStr(Utf8.Lossy(ToBytes(c)))
  {
  }

  /** Lossy repair is idempotent: a repaired buffer passes unchanged. */
  lemma LossyIdempotent(c: CString)
    ensures FromCStringLossy(FromCStringLossy(c).cstring) == FromCStringLossy(c)
  {
  }
}
