/** UTF-8 as defined by the `UTF8-octets` grammar in section 4 of RFC 3629,
    the check behind Rust's `str::from_utf8`, and lossy repair. */
module Utf8 {
  import opened Bytes
  import opened Wrappers

  /** Length of the character whose first byte is `lead`, or 0 when no
      character can start with it (80..C1 and F5..FF). */
  function Width(lead: byte): nat {
    if lead <= 0x7F then 1
    else if 0xC2 <= lead <= 0xDF then 2
    else if 0xE0 <= lead <= 0xEF then 3
    else if 0xF0 <= lead <= 0xF4 then 4
    else 0
  }

  /** `UTF8-tail`: a continuation byte. */
  predicate IsTail(b: byte) {
    0x80 <= b <= 0xBF
  }

  /** Whether `b` may stand at position `k` (1 or later) of a character that
      starts with `lead`; the second byte after E0, ED, F0 and F4 is narrowed
      to exclude overlong forms, surrogates and code points above U+10FFFF. */
  predicate FitsAt(lead: byte, k: nat, b: byte) {
    if k != 1 then IsTail(b)
    else if lead == 0xE0 then 0xA0 <= b <= 0xBF
    else if lead == 0xED then 0x80 <= b <= 0x9F
    else if lead == 0xF0 then 0x90 <= b <= 0xBF
    else if lead == 0xF4 then 0x80 <= b <= 0x8F
    else IsTail(b)
  }

  /** `c` is exactly one `UTF8-char`. */
  predicate IsChar(c: seq<byte>) {
    && |c| > 0
    && Width(c[0]) == |c|
    && forall k :: 1 <= k < |c| ==> FitsAt(c[0], k, c[k])
  }

  /** `s` begins with a whole `UTF8-char`, of length `Width(s[0])`. */
  predicate StartsWithChar(s: seq<byte>) {
    |s| > 0 && 0 < Width(s[0]) <= |s| && IsChar(s[..Width(s[0])])
  }

  /** `s` is a sequence of `UTF8-char`s. */
  predicate Valid(s: seq<byte>)
    decreases |s|
  {
    |s| == 0 || (StartsWithChar(s) && Valid(s[Width(s[0])..]))
  }

  /** Rust's `str`: bytes that are valid UTF-8. */
  type Str = s: seq<byte> | Valid(s) witness []

  /** The encoding of U+FFFD REPLACEMENT CHARACTER. */
  const Replacement: seq<byte> := [0xEF, 0xBF, 0xBD]

  /** The error of `from_utf8`, reduced to `valid_up_to`: the length of the
      longest valid prefix. */
  datatype Utf8Error = Utf8Error(validUpTo: nat)

  lemma CharValid(s: seq<byte>)
    requires StartsWithChar(s)
    ensures Valid(s[..Width(s[0])])
  {
    var c := s[..Width(s[0])];
    assert c[..Width(c[0])] == c;
    assert c[Width(c[0])..] == [];
  }

  /** Prefixing a valid sequence changes nothing about the validity of what follows. */
  lemma {:induction false} ValidConcat(a: seq<byte>, b: seq<byte>)
    requires Valid(a)
    ensures Valid(a + b) <==> Valid(b)
    decreases |a|
  {
    if |a| == 0 {
      assert a + b == b;
    } else {
      var w := Width(a[0]);
      assert (a + b)[..w] == a[..w];
      assert (a + b)[w..] == a[w..] + b;
      ValidConcat(a[w..], b);
    }
  }

  /** Removing NUL bytes removes whole one-byte characters only, so it keeps
      UTF-8 valid. */
  lemma {:induction false} RemoveZerosValid(s: seq<byte>)
    requires Valid(s)
    ensures Valid(RemoveZeros(s))
    decreases |s|
  {
    if |s| > 0 {
      var w := Width(s[0]);
      var c, rest := s[..w], s[w..];
      assert s == c + rest;
      RemoveZerosConcat(c, rest);
      RemoveZerosValid(rest);
      CharValid(s);
      if s[0] == 0 {
        assert c == [0];
        assert RemoveZeros(c) == [];
      } else {
        assert ZeroFree(c) by {
          forall k | 0 <= k < |c| ensures c[k] != 0 {
            if k > 0 { assert FitsAt(c[0], k, c[k]); }
          }
        }
        RemoveZerosIdentity(c);
        ValidConcat(c, RemoveZeros(rest));
      }
    }
  }

  /** The `&str` behind a C string literal: dropping the final NUL of a valid
      sequence leaves a valid sequence. */
  lemma DropTerminatorValid(p: seq<byte>)
    requires ZeroFree(p) && Valid(p + [0])
    ensures Valid(p)
  {
    var z: seq<byte> := [0];
    assert RemoveZeros(z) == [] by {
      assert z[1..] == [];
    }
    RemoveZerosValid(p + z);
    RemoveZerosConcat(p, z);
    RemoveZerosIdentity(p);
    assert RemoveZeros(p + z) == p;
  }

  /** Appending the one-byte character NUL keeps a sequence valid. */
  lemma AppendTerminatorValid(s: seq<byte>)
    requires Valid(s)
    ensures Valid(s + [0])
  {
    assert Valid([0 as byte]) by {
      assert [0 as byte][..1] == [0];
      assert [0 as byte][1..] == [];
    }
    ValidConcat(s, [0]);
  }

  /** Scans `s` character by character from the boundary `i`. */
  function ValidateFrom(s: seq<byte>, i: nat): (r: Result<Str, Utf8Error>)
    requires i <= |s| && Valid(s[..i])
    ensures r.Ok? <==> Valid(s)
    ensures r.Ok? ==> r.value == s
    ensures r.Err? ==>
              && i <= r.error.validUpTo < |s|
              && Valid(s[..r.error.validUpTo])
              && !StartsWithChar(s[r.error.validUpTo..])
    decreases |s| - i
  {
    assert s == s[..i] + s[i..];
    ValidConcat(s[..i], s[i..]);
    if i == |s| then
      Ok(s)
    else if !StartsWithChar(s[i..]) then
      Err(Utf8Error(i))
    else
      var w := Width(s[i]);
      assert s[..i + w] == s[..i] + s[i..][..w];
      CharValid(s[i..]);
      ValidConcat(s[..i], s[i..][..w]);
      ValidateFrom(s, i + w)
  }

  /** `str::from_utf8`: succeeds exactly on valid UTF-8, with the same bytes
      as a `str`; on failure reports where the longest valid prefix ends, at a
      byte that starts no character. */
  function FromUtf8(s: seq<byte>): (r: Result<Str, Utf8Error>)
    ensures r.Ok? <==> Valid(s)
    ensures r.Ok? ==> r.value == s
    ensures r.Err? ==>
              && r.error.validUpTo < |s|
              && Valid(s[..r.error.validUpTo])
              && !StartsWithChar(s[r.error.validUpTo..])
  {
    assert s[..0] == [];
    ValidateFrom(s, 0)
  }

  /** How many leading bytes of `s` agree with some character starting
      with `s[0]`, counting from position `k`. */
  function MatchFrom(s: seq<byte>, k: nat): (m: nat)
    requires 1 <= k <= |s| && k <= Width(s[0])
    ensures k <= m <= |s| && m <= Width(s[0])
    ensures forall j :: k <= j < m ==> FitsAt(s[0], j, s[j])
    decreases Width(s[0]) - k
  {
    if k < Width(s[0]) && k < |s| && FitsAt(s[0], k, s[k]) then MatchFrom(s, k + 1) else k
  }

  /** The maximal subpart at the start of `s` (section 3.9 of the Unicode
      Standard): the bytes one U+FFFD stands for. None of them is NUL. */
  function SubpartLen(s: seq<byte>): (n: nat)
    requires |s| > 0 && !StartsWithChar(s)
    ensures 1 <= n <= |s| && ZeroFree(s[..n])
  {
    if Width(s[0]) == 0 then 1
    else
      var m := MatchFrom(s, 1);
      assert forall j :: 1 <= j < m ==> FitsAt(s[0], j, s[j]);
      m
  }

  lemma ReplacementValid()
    ensures Valid(Replacement) && ZeroFree(Replacement)
  {
    assert Replacement[..3] == Replacement;
    assert Replacement[3..] == [];
  }

  /** One step of the repair: `head` stands for the first `n` bytes of `s`
      and `rest` for the others. */
  lemma RepairStep(s: seq<byte>, n: nat, head: seq<byte>, rest: seq<byte>)
    requires n <= |s| && Valid(head) && Valid(rest)
    requires ZeroFree(head) <==> ZeroFree(s[..n])
    requires ZeroFree(rest) <==> ZeroFree(s[n..])
    ensures Valid(head + rest)
    ensures ZeroFree(head + rest) <==> ZeroFree(s)
  {
    assert s == s[..n] + s[n..];
    ValidConcat(head, rest);
    ZeroFreeConcat(head, rest);
    ZeroFreeConcat(s[..n], s[n..]);
  }

  /** `String::from_utf8_lossy`: every character of `s` is kept and every
      maximal ill-formed subpart becomes U+FFFD. */
  function Lossy(s: seq<byte>): (r: seq<byte>)
    ensures Valid(r)
    ensures Valid(s) ==> r == s
    ensures ZeroFree(r) <==> ZeroFree(s)
    decreases |s|
  {
    if |s| == 0 then []
    else if StartsWithChar(s) then
      var w := Width(s[0]);
      var rest := Lossy(s[w..]);
      assert s == s[..w] + s[w..];
      CharValid(s);
      RepairStep(s, w, s[..w], rest);
      s[..w] + rest
    else
      var n := SubpartLen(s);
      var rest := Lossy(s[n..]);
      ReplacementValid();
      RepairStep(s, n, Replacement, rest);
      Replacement + rest
  }
}
