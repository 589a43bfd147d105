/**
 * The NMEA checksum: the exclusive-or of the payload bytes, folded left to
 * right from 0 (`calc_checksum`).
 */
module Checksum {
  import opened CString

  /** Exclusive-or of every byte of `s`, accumulated left to right from 0. */
  function Xor(s: seq<byte>): byte
  {
    if |s| == 0 then 0 else Xor(s[..|s| - 1]) ^ s[|s| - 1]
  }

  /** The checksum of a concatenation combines the checksums of its parts. */
  lemma {:induction false} XorAppend(a: seq<byte>, b: seq<byte>)
    ensures Xor(a + b) == Xor(a) ^ Xor(b)
  {
    if |b| == 0 {
      assert a + b == a;
    } else {
      assert (a + b)[..|a + b| - 1] == a + b[..|b| - 1];
      XorAppend(a, b[..|b| - 1]);
    }
  }

  /** Taking one byte out of the middle removes exactly its contribution. */
  lemma XorRemove(s: seq<byte>, j: nat)
    requires j < |s|
    ensures Xor(s) == Xor(s[..j] + s[j + 1..]) ^ s[j]
  {
    var p, q := s[..j], s[j + 1..];
    assert s == (p + [s[j]]) + q;
    XorAppend(p + [s[j]], q);
    assert (p + [s[j]])[..|p|] == p;
    XorAppend(p, q);
  }

  /** The checksum does not depend on the order of the bytes. */
  lemma {:induction false} XorPermutation(a: seq<byte>, b: seq<byte>)
    requires multiset(a) == multiset(b)
    ensures Xor(a) == Xor(b)
  {
    if |a| > 0 {
      var n := |a| - 1;
      var j := PositionOf(a, b);
      MultisetRemove(a, b, j);
      XorPermutation(a[..n], b[..j] + b[j + 1..]);
      XorRemove(b, j);
    } else {
      assert b == [];
    }
  }

  /** The last byte of `a` occurs somewhere in a permutation `b` of `a`. */
  lemma PositionOf(a: seq<byte>, b: seq<byte>) returns (j: nat)
    requires |a| > 0 && multiset(a) == multiset(b)
    ensures j < |b| && b[j] == a[|a| - 1]
  {
    assert a[|a| - 1] in multiset(b);
    var k :| 0 <= k < |b| && b[k] == a[|a| - 1];
    j := k;
  }

  /** Taking the last byte off `a`, and the same byte out of `b`, keeps them permutations of each other. */
  lemma MultisetRemove(a: seq<byte>, b: seq<byte>, j: nat)
    requires |a| > 0 && j < |b| && b[j] == a[|a| - 1] && multiset(a) == multiset(b)
    ensures multiset(a[..|a| - 1]) == multiset(b[..j] + b[j + 1..])
  {
    var x := a[|a| - 1];
    assert a == a[..|a| - 1] + [x];
    assert b == b[..j] + [x] + b[j + 1..];
    assert multiset(b) == multiset(b[..j]) + multiset([x]) + multiset(b[j + 1..]);
    assert multiset(a) == multiset(a[..|a| - 1]) + multiset([x]);
    assert multiset(b[..j] + b[j + 1..]) == multiset(b[..j]) + multiset(b[j + 1..]);
    assert multiset(b[..j] + b[j + 1..]) == multiset(b) - multiset{x};
    assert multiset(a[..|a| - 1]) == multiset(a) - multiset{x};
  }

  /** `calc_checksum(a + from)`: the checksum of the C string starting at `from`. */
  method CalcChecksum(a: array<byte>, from: nat) returns (x: byte)
    requires from <= a.Length && NUL in a[from..]
    ensures x == Xor(CStr(a[from..]))
  {
    var len := StrLen(a, from);
    x := 0;
    var i := 0;
    while i < len
      invariant i <= len
      invariant x == Xor(a[from..from + i])
    {
      assert a[from..from + i + 1][..i] == a[from..from + i];
      x := x ^ a[from + i];
      i := i + 1;
    }
    assert a[from..][..len] == a[from..from + len];
  }
}
