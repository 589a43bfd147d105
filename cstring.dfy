/**
 * Bytes and NUL-terminated C strings, as the checker's line buffer uses
 * them: the text of a C string is the longest prefix free of 0x00, and
 * `strlen` / `strchr` scan the buffer up to that terminator.
 */
module CString {
  type byte = bv8

  const NUL: byte := 0x00
  const LF: byte := 0x0A
  const DOLLAR: byte := 0x24
  const STAR: byte := 0x2A

  /** The text of a C string stored in `s`: everything before the first NUL. */
  function CStr(s: seq<byte>): (r: seq<byte>)
    ensures |r| <= |s| && r == s[..|r|]
    ensures NUL !in r
    ensures |r| < |s| ==> s[|r|] == NUL
  {
    if |s| == 0 || s[0] == NUL then [] else [s[0]] + CStr(s[1..])
  }

  /** A sequence with no NUL followed by a NUL-led tail reads back as itself. */
  lemma {:induction false} CStrTerminated(text: seq<byte>, tail: seq<byte>)
    requires NUL !in text
    requires |tail| > 0 && tail[0] == NUL
    ensures CStr(text + tail) == text
  {
    if |text| > 0 {
      assert (text + tail)[1..] == text[1..] + tail;
      CStrTerminated(text[1..], tail);
    }
  }

  /** A run of `n` NUL bytes, as left by `char buf[255] = {0}`. */
  function Zeros(n: nat): (r: seq<byte>)
    ensures |r| == n && forall k :: 0 <= k < n ==> r[k] == NUL
  {
    seq(n, _ => NUL)
  }

  /** First position of `c` in `s`, if any. */
  function IndexOf(s: seq<byte>, c: byte): (r: Option<nat>)
    ensures r.None? <==> c !in s
    ensures r.Some? ==> r.value < |s| && s[r.value] == c && c !in s[..r.value]
  {
    if |s| == 0 then None
    else if s[0] == c then Some(0)
    else match IndexOf(s[1..], c)
      case None => None
      case Some(i) =>
        assert s[..i + 1] == [s[0]] + s[1..][..i];
        Some(i + 1)
  }

  datatype Option<T> = None | Some(value: T)

  /** `strlen(a + from)`: the length of the C string that starts at `from`. */
  method StrLen(a: array<byte>, from: nat) returns (len: nat)
    requires from <= a.Length && NUL in a[from..]
    ensures from + len <= a.Length && len == |CStr(a[from..])|
  {
    len := 0;
    ghost var k :| from <= k < a.Length && a[k] == NUL;
    while a[from + len] != NUL
      invariant from + len <= k
      invariant forall j :: from <= j < from + len ==> a[j] != NUL
      decreases k - (from + len)
    {
      len := len + 1;
    }
    CStrLength(a[from..], len);
  }

  /** The C string of `s` has length `n` when `s[n]` is its first NUL. */
  lemma {:induction false} CStrLength(s: seq<byte>, n: nat)
    requires n < |s| && s[n] == NUL
    requires forall j :: 0 <= j < n ==> s[j] != NUL
    ensures |CStr(s)| == n
  {
    if n > 0 {
      CStrLength(s[1..], n - 1);
    }
  }

  /** `strchr(a, c)` for a non-NUL `c`: the first `c` in the C string held by `a`. */
  method StrChr(a: array<byte>, c: byte) returns (r: Option<nat>)
    requires NUL in a[..] && c != NUL
    ensures r == IndexOf(CStr(a[..]), c)
  {
    ghost var text := CStr(a[..]);
    var i := 0;
    while a[i] != NUL && a[i] != c
      invariant i <= |text| && text[..i] == a[..i]
      invariant c !in a[..i]
      decreases |text| - i
    {
      assert a[..i + 1] == a[..i] + [a[i]];
      i := i + 1;
      PrefixOfCStr(a[..], i);
    }
    if a[i] == c {
      r := Some(i);
      IndexOfAt(text, c, i);
    } else {
      r := None;
      assert |text| == i;
      assert text == a[..i];
    }
  }

  /** Within the C string, a NUL-free prefix of the buffer belongs to the text. */
  lemma PrefixOfCStr(s: seq<byte>, i: nat)
    requires i <= |s| && NUL !in s[..i]
    ensures i <= |CStr(s)| && CStr(s)[..i] == s[..i]
  {
  }

  /** `IndexOf` finds `c` at `i` when `i` is its first occurrence. */
  lemma IndexOfAt(s: seq<byte>, c: byte, i: nat)
    requires i < |s| && s[i] == c && c !in s[..i]
    ensures IndexOf(s, c) == Some(i)
  {
  }
}
