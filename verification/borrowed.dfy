/** `NullTerminatedStr`, the borrowed view: a `CStr` whose bytes before the
    terminator are also valid UTF-8. */
module Borrowed {
  import opened Bytes
  import opened Wrappers
  import opened Order
  import opened CStrs
  import Utf8

  /** The transparent newtype around `CStr`, before its invariant. */
  datatype Repr = Repr(cstr: CStr)

  /** Values of the view: the newtype plus its invariant. Every construction
      of one must prove the invariant, as the `unsafe` casts rely on it. */
  type NullTerminatedStr = v: Repr | Utf8.Valid(ToBytes(v.cstr)) witness Repr([0])

  /** `from_cstr_unchecked`: reinterprets `c` as a view; the caller must
      already know its content is valid UTF-8. */
  function FromCStrUnchecked(c: CStr): (v: NullTerminatedStr)
    requires Utf8.Valid(ToBytes(c))
    ensures v.cstr == c
  {
    Repr(c)
  }

  /** `from_cstr`: checks the content and, if it is UTF-8, wraps `c` as is. */
  function FromCStr(c: CStr): (r: Result<NullTerminatedStr, Utf8.Utf8Error>)
    ensures r.Ok? <==> Utf8.Valid(ToBytes(c))
    ensures r.Ok? ==> r.value.cstr == c
    ensures r.Err? ==> r.error == Utf8.FromUtf8(ToBytes(c)).error
    ensures r.Err? ==>
              && r.error.validUpTo < |ToBytes(c)|
              && Utf8.Valid(ToBytes(c)[..r.error.validUpTo])
  {
    match Utf8.FromUtf8(ToBytes(c))
    case Err(e) => Err(e)
    case Ok(_) => Ok(FromCStrUnchecked(c))
  }

  /** `TryFrom<&CStr>`: the same check as `from_cstr`. */
  function TryFromCStr(c: CStr): (r: Result<NullTerminatedStr, Utf8.Utf8Error>)
    ensures r.Ok? <==> Utf8.Valid(ToBytes(c))
    ensures r.Ok? ==> r.value.cstr == c
    ensures r == FromCStr(c)
  {
    FromCStr(c)
  }

  /** `from_const_str`: accepts `s` as a view exactly when it is a C string,
      i.e. non-empty, ending in NUL and with no NUL before that. Rust's
      `report_err` panic becomes `None`. */
  method FromConstStr(s: Utf8.Str) returns (r: Option<NullTerminatedStr>)
    ensures |s| == 0 ==> r.None?
    ensures |s| > 0 && s[|s| - 1] != 0 ==> r.None?
    ensures |s| > 0 && s[|s| - 1] == 0 ==>
              (r.None? <==> exists j :: 0 <= j < |s| - 1 && s[j] == 0)
    ensures r.Some? <==> IsCStr(s)
    ensures r.Some? ==> r.value.cstr == s
  {
    if |s| == 0 {
      return None;
    }
    var n := |s| - 1;
    if s[n] != 0 {
      return None;
    }
    var i := 0;
    while i < n
      invariant 0 <= i <= n
      invariant forall j :: 0 <= j < i ==> s[j] != 0
    {
      if s[i] == 0 {
        return None;
      }
      i := i + 1;
    }
    Utf8.DropTerminatorValid(ToBytes(s));
    return Some(FromCStrUnchecked(s));
  }

  /** `Deref<Target = str>`: the content, i.e. the stored bytes without the
      terminator; it is valid UTF-8 and NUL-free. */
  function Deref(v: NullTerminatedStr): (r: Utf8.Str)
    ensures r + [0] == v.cstr
    ensures ZeroFree(r)
  {
    ToBytes(v.cstr)
  }

  /** `PartialEq<str> for NullTerminatedStr`. */
  function EqStr(v: NullTerminatedStr, s: Utf8.Str): (r: bool)
    ensures r <==> v.cstr == s + [0]
  {
    Deref(v) == s
  }

  /** `PartialEq<NullTerminatedStr> for str`. */
  function StrEq(s: Utf8.Str, v: NullTerminatedStr): (r: bool)
    ensures r <==> v.cstr == s + [0]
  {
    s == Deref(v)
  }

  /** Equality with `str` is symmetric. */
  lemma EqSymmetric(v: NullTerminatedStr, s: Utf8.Str)
    ensures StrEq(s, v) == EqStr(v, s)
  {
  }

  /** `PartialOrd<str> for NullTerminatedStr`: always an answer, which is the
      order of the stored bytes against `s` plus a terminator. */
  function PartialCmpStr(v: NullTerminatedStr, s: Utf8.Str): (r: Option<Ordering>)
    ensures r.Some?
    ensures r.value == Compare(v.cstr, s + [0])
    ensures r.value == Equal <==> EqStr(v, s)
  {
    CompareTerminated(Deref(v), s);
    CompareEqual(Deref(v), s);
    Some(Compare(Deref(v), s))
  }

  /** `PartialOrd<NullTerminatedStr> for str`. */
  function StrPartialCmp(s: Utf8.Str, v: NullTerminatedStr): (r: Option<Ordering>)
    ensures r.Some?
    ensures r.value == Compare(s + [0], v.cstr)
    ensures r.value == Equal <==> StrEq(s, v)
  {
    CompareTerminated(s, Deref(v));
    CompareEqual(s, Deref(v));
    Some(Compare(s, Deref(v)))
  }

  /** The two directions of the comparison with `str` mirror each other. */
  lemma PartialCmpMirror(v: NullTerminatedStr, s: Utf8.Str)
    ensures StrPartialCmp(s, v) == Some(PartialCmpStr(v, s).value.Reverse())
  {
    CompareReverse(Deref(v), s);
  }

  /** The derived `Ord` of the view, which orders the stored C strings, is
      the order of the contents. */
  function Cmp(a: NullTerminatedStr, b: NullTerminatedStr): (r: Ordering)
    ensures r == Compare(Deref(a), Deref(b))
    ensures r == Equal <==> a == b
  {
    CompareTerminated(Deref(a), Deref(b));
    CompareEqual(a.cstr, b.cstr);
    Compare(a.cstr, b.cstr)
  }
}
