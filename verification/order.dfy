/** Lexicographic byte ordering, the `Ord` of Rust's `[u8]` and `str`. */
module Order {
  import opened Bytes

  datatype Ordering = Less | Equal | Greater {
    function Reverse(): Ordering {
      match this
      case Less => Greater
      case Equal => Equal
      case Greater => Less
    }
  }

  /** Compares byte by byte; a proper prefix is the smaller. */
  function Compare(a: seq<byte>, b: seq<byte>): Ordering
    decreases |a|
  {
    if |a| == 0 then (if |b| == 0 then Equal else Less)
    else if |b| == 0 then Greater
    else if a[0] < b[0] then Less
    else if a[0] > b[0] then Greater
    else Compare(a[1..], b[1..])
  }

  lemma {:induction false} CompareEqual(a: seq<byte>, b: seq<byte>)
    ensures Compare(a, b) == Equal <==> a == b
    decreases |a|
  {
    if |a| > 0 && |b| > 0 && a[0] == b[0] {
      CompareEqual(a[1..], b[1..]);
      assert a == [a[0]] + a[1..];
      assert b == [b[0]] + b[1..];
    }
  }

  /** Swapping the operands reverses the answer. */
  lemma {:induction false} CompareReverse(a: seq<byte>, b: seq<byte>)
    ensures Compare(b, a) == Compare(a, b).Reverse()
    decreases |a|
  {
    if |a| > 0 && |b| > 0 && a[0] == b[0] {
      CompareReverse(a[1..], b[1..]);
    }
  }

  /** Appending one NUL byte to both operands never changes their order,
      because NUL is the least byte: comparing two C strings with their
      terminators is comparing their contents. */
  lemma {:induction false} CompareTerminated(a: seq<byte>, b: seq<byte>)
    ensures Compare(a + [0], b + [0]) == Compare(a, b)
    decreases |a|
  {
    if |a| == 0 {
      assert a + [0] == [0];
      if |b| > 0 {
        assert (b + [0])[0] == b[0];
        if b[0] == 0 {
          assert (b + [0])[1..] == b[1..] + [0];
          assert [0 as byte][1..] == [];
        }
      }
    } else if |b| == 0 {
      assert b + [0] == [0];
      assert (a + [0])[0] == a[0];
      if a[0] == 0 {
        assert (a + [0])[1..] == a[1..] + [0];
        assert [0 as byte][1..] == [];
      }
    } else {
      assert (a + [0])[0] == a[0] && (b + [0])[0] == b[0];
      assert (a + [0])[1..] == a[1..] + [0];
      assert (b + [0])[1..] == b[1..] + [0];
      CompareTerminated(a[1..], b[1..]);
    }
  }
}
