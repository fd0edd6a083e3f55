# null-terminated-str in Dafny

A model of the Rust crate `null-terminated-str`: a string type that is at once
valid UTF-8 and a valid C string. A value holds its bytes followed by exactly
one NUL byte. No other byte is NUL, and the bytes before the NUL are valid
UTF-8 according to the `UTF8-octets` grammar of section 4 of RFC 3629.

- `NullTerminatedStr` (module `Borrowed`) is the borrowed view over a `CStr`.
- `NullTerminatedString` (module `Owned`) is the owned buffer over a `CString`.
- `const_null_terminated_str!` (module `Literal`) appends a NUL to a literal
  and checks the result with `from_const_str`.

Bytes are a `byte` newtype over `0..255`. Rust's `str` and `String` are
`Utf8.Str`, the byte sequences that are valid UTF-8. `CStr` and `CString` are
`CStrs.CStr`, the byte sequences with one trailing NUL and no other NUL.
Ownership and borrowing are not modelled, so both C string types are one value
type. Each of the library's two types is a datatype `Repr` wrapped in a subset
type that carries the UTF-8 invariant. The `unsafe` reinterpretations
(`from_cstr_unchecked`, `from_cstring_unchecked`, `from_vec_unchecked`) are
functions whose safety conditions are `requires` clauses. Dafny therefore
proves at every call site that the invariant holds.

Supporting modules:
- `Bytes`: NUL-free sequences and NUL removal.
- `Order`: lexicographic byte order (`Ord` of `[u8]` and `str`).
- `Utf8`: the RFC 3629 grammar, `str::from_utf8` and `String::from_utf8_lossy`.
- `CStrs`: C strings, `to_bytes` and `from_vec_unchecked`.
- `Wrappers`: `Option` and `Result`.

Details of the code that the model follows:
- The literal check is named `from_const_str` in the code. It takes a `&str`
  and panics on a malformed input: a compile error in a const context, a
  run-time panic otherwise. Here it returns `None`.
- Lossy repair does not go through the `From<String>` sanitiser. It appends the
  terminator with `from_vec_unchecked`. `Owned.LossyIsSanitised` proves that
  sanitising would give the same bytes.
- There is no direct equality between the view and the owned buffer. Owned
  values are compared with views through `Deref`.

## Model

| member | source | states |
|---|---|---|
| Borrowed.FromCStrUnchecked | src/borrowed.rs:28-32 | Only a C string whose content is valid UTF-8 may become a view, and the view keeps the same bytes |
| Borrowed.FromCStr | src/borrowed.rs:34-37 | Succeeds exactly when the content is valid UTF-8 and then wraps the C string unchanged; otherwise returns the `from_utf8` error, whose `valid_up_to` marks a valid prefix |
| Borrowed.FromConstStr | src/borrowed.rs:44-68 | Fails on empty input and on a last byte that is not NUL; given a final NUL, fails exactly when an earlier byte is NUL; succeeds exactly on a C string, keeping the input bytes as the view |
| Borrowed.Deref | src/borrowed.rs:74-76 | The content is the stored bytes minus the single trailing NUL; it is valid UTF-8 and NUL-free |
| Borrowed.EqStr | src/borrowed.rs:79-83 | A view equals a `str` exactly when the view stores that `str` followed by one NUL |
| Borrowed.StrEq | src/borrowed.rs:85-89 | A `str` equals a view exactly when the view stores that `str` followed by one NUL |
| Borrowed.EqSymmetric | src/borrowed.rs:79-89 | The two equalities with `str` agree |
| Borrowed.PartialCmpStr | src/borrowed.rs:91-95 | Always gives an ordering, equal to the order of the stored bytes against the `str` plus a NUL; `Equal` exactly when the two are equal |
| Borrowed.StrPartialCmp | src/borrowed.rs:97-101 | The same for `str` against a view |
| Borrowed.PartialCmpMirror | src/borrowed.rs:91-101 | The two directions of comparison with `str` are each other's reverse |
| Borrowed.TryFromCStr | src/borrowed.rs:109-115 | Has the same outcome as `from_cstr`: success exactly on UTF-8 content, wrapping the same bytes |
| Borrowed.Cmp | src/borrowed.rs:15-17 | The derived order of views, which compares the stored C strings, is the order of their contents, and `Equal` means equal views |
| Owned.IntoInner | src/owned.rs:12-14 | The returned C string's content is not valid UTF-8, and the returned error is exactly what validating it reports |
| Owned.FromCStringUnchecked | src/owned.rs:36-38 | Only a C string with UTF-8 content may become an owned buffer, and it is kept unchanged |
| Owned.FromCString | src/owned.rs:40-46 | Succeeds exactly when the content is valid UTF-8, keeping the C string; on failure the error hands back the original C string unchanged |
| Owned.FromCStringLossy | src/owned.rs:48-68 | Equals `from_cstring` when that succeeds; on invalid input the result differs from the input; its content is the lossy repair of the input's content |
| Utf8.Lossy | src/owned.rs:56 | Repair always yields valid UTF-8, leaves valid input unchanged, and has no NUL exactly when the input had none |
| Owned.LossyIsSanitised | src/owned.rs:48-68 | Terminating the repaired bytes directly equals sanitising them with the total constructor |
| Owned.LossyIdempotent | src/owned.rs:48-68 | Repairing an already repaired buffer changes nothing |
| Owned.FromStr | src/owned.rs:71-80 | The stored bytes hold one NUL more than the input's multiset of bytes minus its NULs; the content is the input with every NUL removed; a NUL-free input is stored followed by one NUL |
| Utf8.RemoveZerosValid | src/owned.rs:71-80 | Removing NUL bytes from valid UTF-8 leaves valid UTF-8, so the sanitised bytes meet the owned invariant |
| Bytes.RemoveZeros | src/owned.rs:73 | The filtered bytes have no NUL and keep every other byte with its multiplicity |
| Owned.FromString | src/owned.rs:82-92 | The in-place `retain` produces the same buffer as the `From<&str>` filter |
| Owned.IntoString | src/owned.rs:94-104 | The `String` is the stored bytes without the trailing NUL, valid UTF-8 and NUL-free |
| Owned.IntoStringFromStr | src/owned.rs:71-104 | Converting a sanitised `str` back gives the `str` with every NUL removed, and gives the `str` itself exactly when it had no NUL |
| Owned.FromStrIdempotent | src/owned.rs:71-104 | Sanitising the `String` of a sanitised buffer gives the same buffer |
| Owned.SanitiseInteriorNul | src/owned.rs:71-80 | A text with a NUL between two NUL-free parts is stored as the two parts joined, followed by one NUL (so "hi\0there" becomes "hithere" plus the NUL) |
| Bytes.RemoveZerosIdentity | src/owned.rs:73 | Filtering leaves a sequence unchanged exactly when it has no NUL |
| Owned.IntoCString | src/owned.rs:106-110 | The returned C string has the `String` conversion's content |
| Owned.Deref | src/owned.rs:112-118 | The view is over the same bytes, and its content is the buffer's `String` content |
| Owned.Promote | src/owned.rs:71-80 | Copying a view into an owned buffer through its `str` stores exactly the view's bytes |
| Owned.PromoteDeref | src/owned.rs:112-118 | Promoting a view and viewing the copy preserves content |
| Owned.Cmp | src/owned.rs:29-30 | The derived order of owned buffers, which compares the stored C strings, is the order of their `String` contents, and `Equal` means equal buffers |
| Owned.CmpDeref | src/owned.rs:29-30 | Owned order agrees with the borrowed order of the views |
| Order.CompareTerminated | src/owned.rs:29-30 | Appending one NUL to both byte sequences never changes their order |
| CStrs.ToBytes | src/borrowed.rs:75 | `to_bytes` / `into_bytes` give the content: NUL-free, and followed by one NUL it is the C string |
| CStrs.FromVecUnchecked | src/owned.rs:78 | `from_vec_unchecked` may only be given a NUL-free vector, and the C string it builds has exactly that vector as content |
| Utf8.FromUtf8 | src/borrowed.rs:35 | `from_utf8` succeeds exactly on grammar-valid input, returning the same bytes as a `str`; on failure `valid_up_to` is within the input, the prefix before it is valid, and no character starts there |
| Utf8.DropTerminatorValid | src/borrowed.rs:67 | A `&str` that is a C string has valid UTF-8 content, which is what the cast in `from_const_str` needs |
| Literal.ConstNullTerminatedStr | src/lib.rs:38-42 | The macro succeeds exactly when the literal has no NUL, and then the view stores the literal plus one NUL and derefs to the literal |
| Literal.HelloWorld | src/lib.rs:13-22 | "Hello, World!" is accepted and derefs to itself |
| Literal.HelloNulWorld | src/lib.rs:27-36 | "Hello,\0 World!" is rejected |
| Literal.EmptyLiteral | src/lib.rs:40 | The empty literal is accepted, stores only the NUL, and has empty content |

## Left out

- `src/serde_impl.rs`: serialization glue. It only forwards to `as_c_str` or to the constructors.
- `src/into_null_terminated_string.rs`: dispatch between `Cow` variants. Its `&str` branch calls `NullTerminatedStr::try_from_str`, which is not part of this model.
- `as_c_str`: it is the field `cstr` of the view.
- `Display`, `Debug`, `Hash` and `Error::source`: formatting and trait plumbing only.
- The `report_err` panic: modelled as a `None` result instead of a panic (a compile error in a const context, a run-time panic otherwise).
- Raw pointer casts and `#[repr(transparent)]`: modelled as a wrapper datatype under a subset type. The unchecked constructors carry the invariant as a `requires`.
- Allocation and ownership moves (`into_bytes`, `retain` in place, `collect`): the model uses values. `retain` is a loop that builds a new sequence.
- Borrowed.FromCStr: the `Utf8Error` is reduced to `valid_up_to`; `error_len` is not modelled.
- Utf8.Lossy: the contract promises only the abstract properties of the repair (valid output, identity on valid input, no NUL introduced). The body substitutes one U+FFFD per maximal ill-formed subpart, after section 3.9 of the Unicode Standard. It is not proved to match the standard library's grouping byte for byte.
