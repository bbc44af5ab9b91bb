/** Byte-level vocabulary shared by every layer: unsigned 8- and 16-bit values,
    the unbounded byte sum behind the checksums, little-endian 16-bit helpers,
    and flattening of byte-string lists. */
module Bytes {

  /** An unsigned 8-bit value (`u8`). */
  type byte = x: int | 0 <= x < 0x100

  /** An unsigned 16-bit value (`u16`). */
  type u16 = x: int | 0 <= x < 0x1_0000

  /** The unbounded sum of a byte string. */
  function Sum(s: seq<byte>): nat
  {
    if |s| == 0 then 0 else s[0] + Sum(s[1..])
  }

  lemma {:induction false} SumAppend(a: seq<byte>, b: seq<byte>)
    ensures Sum(a + b) == Sum(a) + Sum(b)
  {
    if |a| == 0 {
      assert a + b == b;
    } else {
      assert (a + b)[1..] == a[1..] + b;
      SumAppend(a[1..], b);
    }
  }

  /** Removing the byte at `j` lowers the sum by that byte. */
  lemma SumRemove(b: seq<byte>, j: nat)
    requires j < |b|
    ensures Sum(b) == b[j] + Sum(b[..j] + b[j + 1..])
  {
    assert b == b[..j] + ([b[j]] + b[j + 1..]);
    SumAppend(b[..j], [b[j]] + b[j + 1..]);
    SumAppend([b[j]], b[j + 1..]);
    SumAppend(b[..j], b[j + 1..]);
  }

  /** Replacing one byte changes the sum by the difference of the two bytes. */
  lemma {:induction false} SumUpdate(s: seq<byte>, j: nat, v: byte)
    requires j < |s|
    ensures Sum(s[j := v]) == Sum(s) - s[j] + v
  {
    SumRemove(s, j);
    SumRemove(s[j := v], j);
    assert s[j := v][..j] == s[..j];
    assert s[j := v][j + 1..] == s[j + 1..];
  }

  /** The byte sum depends only on the multiset of bytes, not on their order. */
  lemma {:induction false} SumPermutation(a: seq<byte>, b: seq<byte>)
    requires multiset(a) == multiset(b)
    ensures Sum(a) == Sum(b)
    decreases |a|
  {
    if |a| == 0 {
      assert |b| == |multiset(b)| == 0;
    } else {
      var x := a[0];
      assert x in multiset(b);
      var j :| 0 <= j < |b| && b[j] == x;
      var rest := b[..j] + b[j + 1..];
      assert multiset(a[1..]) == multiset(rest) by {
        assert a == [x] + a[1..];
        assert b == b[..j] + [x] + b[j + 1..];
        assert multiset(a[1..]) == multiset(a) - multiset{x};
        assert multiset(rest) == multiset(b) - multiset{x};
      }
      SumPermutation(a[1..], rest);
      SumRemove(b, j);
    }
  }

  /** `u16::to_le_bytes`: low byte first. */
  function ToLe(v: u16): (r: seq<byte>)
    ensures |r| == 2 && r[0] as int + 0x100 * r[1] as int == v
  {
    [v % 0x100, v / 0x100]
  }

  /** `u16::from_le_bytes`. */
  function FromLe(lo: byte, hi: byte): u16
  {
    lo + 0x100 * hi
  }

  /** `ToLe` and `FromLe` are inverse bijections between 16-bit values and
      byte pairs. */
  lemma LeRoundTrip(v: u16)
    ensures FromLe(ToLe(v)[0], ToLe(v)[1]) == v
  {
  }

  lemma LeRoundTripBytes(lo: byte, hi: byte)
    ensures ToLe(FromLe(lo, hi)) == [lo, hi]
  {
  }

  /** Concatenation of a list of byte strings (`Vec::concat`). */
  function Concat(parts: seq<seq<byte>>): seq<byte>
  {
    if |parts| == 0 then [] else parts[0] + Concat(parts[1..])
  }

  lemma {:induction false} ConcatAppend(a: seq<seq<byte>>, b: seq<seq<byte>>)
    ensures Concat(a + b) == Concat(a) + Concat(b)
  {
    if |a| == 0 {
      assert a + b == b;
    } else {
      assert (a + b)[1..] == a[1..] + b;
      ConcatAppend(a[1..], b);
    }
  }

  /** Little-endian encodings of a list of 16-bit values, concatenated. */
  function LeList(vs: seq<u16>): (r: seq<byte>)
    ensures |r| == 2 * |vs|
  {
    if |vs| == 0 then [] else ToLe(vs[0]) + LeList(vs[1..])
  }

  /** `n` little-endian 16-bit values read from `b` starting at `at`. */
  function FromLeAt(b: seq<byte>, at: nat, n: nat): (r: seq<u16>)
    requires at + 2 * n <= |b|
    ensures |r| == n
  {
    seq(n, i requires 0 <= i < n => FromLe(b[at + 2 * i], b[at + 2 * i + 1]))
  }

  /** Value `i` of the list occupies bytes `2i` and `2i + 1`, low byte first. */
  lemma {:induction false} LeListLayout(vs: seq<u16>)
    ensures forall i :: 0 <= i < |vs| ==>
      LeList(vs)[2 * i] == ToLe(vs[i])[0] && LeList(vs)[2 * i + 1] == ToLe(vs[i])[1]
  {
    if |vs| > 0 {
      LeListLayout(vs[1..]);
      var r := LeList(vs);
      var rest := LeList(vs[1..]);
      forall i | 1 <= i < |vs|
        ensures r[2 * i] == ToLe(vs[i])[0] && r[2 * i + 1] == ToLe(vs[i])[1]
      {
        var j := i - 1;
        assert vs[i] == vs[1..][j];
        assert r[2 * i] == rest[2 * j] && r[2 * i + 1] == rest[2 * j + 1];
      }
    }
  }

  lemma LeListAt(vs: seq<u16>, b: seq<byte>, at: nat, i: nat)
    requires at + 2 * |vs| <= |b| && b[at..at + 2 * |vs|] == LeList(vs)
    requires i < |vs|
    ensures FromLe(b[at + 2 * i], b[at + 2 * i + 1]) == vs[i]
  {
    var lo := b[at + 2 * i];
    var hi := b[at + 2 * i + 1];
    assert lo == ToLe(vs[i])[0] && hi == ToLe(vs[i])[1] by {
      LeListLayout(vs);
      assert lo == LeList(vs)[2 * i];
      assert hi == LeList(vs)[2 * i + 1];
    }
    LeRoundTrip(vs[i]);
  }

  /** Reading back a little-endian list wherever it sits gives the values. */
  lemma LeListRoundTrip(vs: seq<u16>, b: seq<byte>, at: nat)
    requires at + 2 * |vs| <= |b| && b[at..at + 2 * |vs|] == LeList(vs)
    ensures FromLeAt(b, at, |vs|) == vs
  {
    var r := FromLeAt(b, at, |vs|);
    forall i | 0 <= i < |vs|
      ensures r[i] == vs[i]
    {
      LeListAt(vs, b, at, i);
    }
  }

  /** `ToLe` is injective: two values with the same bytes are equal. */
  lemma ToLeInjective(a: u16, b: u16)
    requires ToLe(a) == ToLe(b)
    ensures a == b
  {
  }

  /** Value `i` of a little-endian list occupies the slice `2i .. 2i + 2`. */
  lemma {:induction false} LeListSlice(vs: seq<u16>, i: nat)
    requires i < |vs|
    ensures LeList(vs)[2 * i..2 * i + 2] == ToLe(vs[i])
  {
    if i > 0 {
      LeListSlice(vs[1..], i - 1);
      assert LeList(vs)[2 * i..2 * i + 2] == LeList(vs[1..])[2 * (i - 1)..2 * (i - 1) + 2];
    }
  }

  /** Values whose encodings lie side by side in `b` from `at` are the
      little-endian list of that stretch of `b`. */
  lemma {:induction false} LeListOfSlices(vs: seq<u16>, b: seq<byte>, at: nat)
    requires at + 2 * |vs| <= |b|
    requires forall i :: 0 <= i < |vs| ==> ToLe(vs[i]) == b[at + 2 * i..at + 2 * i + 2]
    ensures LeList(vs) == b[at..at + 2 * |vs|]
    decreases |vs|
  {
    if |vs| > 0 {
      forall i | 0 <= i < |vs| - 1
        ensures ToLe(vs[1..][i]) == b[at + 2 + 2 * i..at + 2 + 2 * i + 2]
      {
        assert vs[1..][i] == vs[i + 1];
      }
      LeListOfSlices(vs[1..], b, at + 2);
      assert b[at..at + 2 * |vs|] == b[at..at + 2] + b[at + 2..at + 2 + 2 * (|vs| - 1)];
    }
  }

  /** The `as u8` truncating cast of a count. */
  function TruncU8(n: nat): (r: byte)
    ensures n < 0x100 ==> r == n
  {
    n % 0x100
  }

  /** `n` copies of `s`, concatenated as a list. */
  function Repeat<T>(s: T, n: nat): (r: seq<T>)
    ensures |r| == n && forall i :: 0 <= i < n ==> r[i] == s
  {
    if n == 0 then [] else [s] + Repeat(s, n - 1)
  }
}
