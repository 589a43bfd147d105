/**
 * Line framing (nmea_checker.c, the inner `while (pos < 250)` loop): bytes
 * are taken one at a time from the input file; a line ends at the first LF
 * or once 250 bytes are stored, NUL bytes are read but never stored, and
 * end-of-file ends the whole run.
 */
module Framing {
  import opened CString

  /** The number of bytes the line buffer stores before it stops reading. */
  const CAP: nat := 250

  /** The byte a signed `char` holds after `buf[pos] = fgetc(...)` returns EOF. */
  const EOF_CHAR: byte := 0xFF

  /**
   * What one pass of the framing loop ends with: end-of-file, or a line with
   * its stored bytes, whether it ended at an LF, and the next input position.
   */
  datatype Frame = EndOfFile | Line(stored: seq<byte>, lf: bool, next: nat)

  /** `s` without its NUL bytes. */
  function NonZero(s: seq<byte>): (r: seq<byte>)
    ensures |r| <= |s| && NUL !in r
  {
    if |s| == 0 then []
    else (if s[0] == NUL then [] else [s[0]]) + NonZero(s[1..])
  }

  /**
   * The framing loop resumed at input position `i` with `stored` already in
   * the buffer. Reading at the end of the input is end-of-file.
   */
  function Scan(input: seq<byte>, i: nat, stored: seq<byte>): (f: Frame)
    requires i <= |input| && |stored| <= CAP
    ensures f.Line? ==> i <= f.next <= |input| && |stored| <= |f.stored| <= CAP
    ensures f.Line? ==> f.stored[..|stored|] == stored
    ensures f.Line? && |stored| < CAP ==> i < f.next
    decreases |input| - i
  {
    if |stored| == CAP then Line(stored, false, i)
    else if i == |input| then EndOfFile
    else if input[i] == LF then Line(stored, true, i + 1)
    else if input[i] == NUL then Scan(input, i + 1, stored)
    else Scan(input, i + 1, stored + [input[i]])
  }

  /**
   * A line holds exactly the non-NUL bytes it consumed before its LF (or
   * before the buffer filled up), and none of those bytes is an LF.
   */
  lemma {:induction false} ScanLine(input: seq<byte>, i: nat, stored: seq<byte>,
                                    line: seq<byte>, lf: bool, next: nat)
    requires i <= |input| && |stored| <= CAP
    requires Scan(input, i, stored) == Line(line, lf, next)
    ensures var end := if lf then next - 1 else next;
      i <= end < |input| + (if lf then 0 else 1) && (lf ==> input[end] == LF) &&
      line == stored + NonZero(input[i..end]) && LF !in input[i..end]
    ensures !lf ==> |line| == CAP
    ensures lf ==> |line| < CAP
    ensures !lf && |stored| < CAP ==> input[next - 1] != NUL
  {
    ScanStops(input, i, stored, line, lf, next);
    ScanKeeps(input, i, stored, line, lf, next);
  }

  /** Where a line ends, and that it crosses no LF. */
  lemma {:induction false} ScanStops(input: seq<byte>, i: nat, stored: seq<byte>,
                                     line: seq<byte>, lf: bool, next: nat)
    requires i <= |input| && |stored| <= CAP
    requires Scan(input, i, stored) == Line(line, lf, next)
    ensures var end := if lf then next - 1 else next;
      i <= end < |input| + (if lf then 0 else 1) && (lf ==> input[end] == LF) &&
      forall k :: i <= k < end ==> input[k] != LF
    ensures !lf ==> |line| == CAP
    ensures lf ==> |line| < CAP
    ensures !lf && |stored| < CAP ==> input[next - 1] != NUL
    decreases |input| - i
  {
    if |stored| < CAP && input[i] != LF {
      var more := if input[i] == NUL then stored else stored + [input[i]];
      ScanStops(input, i + 1, more, line, lf, next);
    }
  }

  /** The bytes a line stores are those it consumed, without the NULs. */
  lemma {:induction false} ScanKeeps(input: seq<byte>, i: nat, stored: seq<byte>,
                                     line: seq<byte>, lf: bool, next: nat)
    requires i <= |input| && |stored| <= CAP
    requires Scan(input, i, stored) == Line(line, lf, next)
    requires i <= (if lf then next - 1 else next) <= |input|
    ensures line == stored + NonZero(input[i..if lf then next - 1 else next])
    decreases |input| - i
  {
    var end := if lf then next - 1 else next;
    if |stored| < CAP && input[i] != LF {
      var c := input[i];
      var more := if c == NUL then stored else stored + [c];
      ScanStops(input, i + 1, more, line, lf, next);
      ScanKeeps(input, i + 1, more, line, lf, next);
      assert input[i..end] == [c] + input[i + 1..end];
      NonZeroCons(c, input[i + 1..end]);
      KeepStep(stored, c, NonZero(input[i + 1..end]), line);
    } else {
      assert input[i..end] == [];
    }
  }

  /** One more consumed byte: kept unless it is a NUL. */
  lemma KeepStep(stored: seq<byte>, c: byte, z: seq<byte>, line: seq<byte>)
    requires line == (if c == NUL then stored else stored + [c]) + z
    ensures line == stored + ((if c == NUL then [] else [c]) + z)
  {
    if c == NUL {
      assert [] + z == z;
    } else {
      assert stored + [c] + z == stored + ([c] + z);
    }
  }

  /** Dropping the NULs keeps every other byte value. */
  lemma {:induction false} NonZeroKeeps(s: seq<byte>, x: byte)
    requires x != NUL
    ensures x in NonZero(s) <==> x in s
  {
    if |s| > 0 {
      assert s == [s[0]] + s[1..];
      NonZeroKeeps(s[1..], x);
    }
  }

  lemma NonZeroCons(c: byte, r: seq<byte>)
    ensures NonZero([c] + r) == (if c == NUL then [] else [c]) + NonZero(r)
  {
    assert ([c] + r)[1..] == r;
  }

  /** A line of the checker never stores a NUL or an LF and never more than 250 bytes. */
  lemma StoredBytes(input: seq<byte>, i: nat)
    requires i <= |input| && Scan(input, i, []).Line?
    ensures var f := Scan(input, i, []);
      |f.stored| <= CAP && NUL !in f.stored && LF !in f.stored
  {
    var f := Scan(input, i, []);
    ScanLine(input, i, [], f.stored, f.lf, f.next);
    var consumed := input[i..if f.lf then f.next - 1 else f.next];
    assert f.stored == NonZero(consumed);
    NonZeroKeeps(consumed, LF);
  }

  /**
   * End-of-file is reached exactly when no LF remains and the rest of the
   * input cannot fill the buffer.
   */
  lemma {:induction false} ScanEndOfFile(input: seq<byte>, i: nat, stored: seq<byte>)
    requires i <= |input| && |stored| <= CAP
    ensures Scan(input, i, stored) == EndOfFile <==>
      LF !in input[i..] && |stored| + |NonZero(input[i..])| < CAP
    decreases |input| - i
  {
    if |stored| == CAP || i == |input| {
    } else {
      assert input[i..] == [input[i]] + input[i + 1..];
      if input[i] != LF {
        ScanEndOfFile(input, i + 1, if input[i] == NUL then stored else stored + [input[i]]);
      }
    }
  }

  /**
   * Bytes appended after an LF do not change a line that starts before that
   * LF: it ends at or before the LF.
   */
  lemma {:induction false} ScanExtended(a: seq<byte>, t: seq<byte>, i: nat, stored: seq<byte>)
    requires i < |a| && LF in a[i..] && |stored| <= CAP
    ensures Scan(a + t, i, stored) == Scan(a, i, stored)
    ensures Scan(a, i, stored).Line?
    decreases |a| - i
  {
    if |stored| < CAP && a[i] != LF {
      assert (a + t)[i] == a[i];
      assert a[i..] == [a[i]] + a[i + 1..];
      ScanExtended(a, t, i + 1, if a[i] == NUL then stored else stored + [a[i]]);
    }
  }

  /**
   * The framing loop as written, `if (buf[pos] == EOF)` on a `char` buffer,
   * where `char` is signed: a data byte 0xFF compares equal to EOF.
   */
  function ScanSignedChar(input: seq<byte>, i: nat, stored: seq<byte>): Frame
    requires i <= |input| && |stored| <= CAP
    decreases |input| - i
  {
    if |stored| == CAP then Line(stored, false, i)
    else if i == |input| || input[i] == EOF_CHAR then EndOfFile
    else if input[i] == LF then Line(stored, true, i + 1)
    else if input[i] == NUL then ScanSignedChar(input, i + 1, stored)
    else ScanSignedChar(input, i + 1, stored + [input[i]])
  }

  /**
   * As written, a 0xFF byte ahead of a complete line ends the run, where an
   * explicit end-of-file marker frames that line.
   */
  lemma SignedCharStopsEarly()
    ensures var input := [EOF_CHAR, DOLLAR, STAR, 0x30, 0x30, LF];
      ScanSignedChar(input, 0, []) == EndOfFile &&
      Scan(input, 0, []) == Line([EOF_CHAR, DOLLAR, STAR, 0x30, 0x30], true, 6)
  {
    var input: seq<byte> := [EOF_CHAR, DOLLAR, STAR, 0x30, 0x30, LF];
    var line: seq<byte> := [EOF_CHAR, DOLLAR, STAR, 0x30, 0x30];
    assert Scan(input, 5, line) == Line(line, true, 6);
    assert line[..4] + [line[4]] == line;
    assert Scan(input, 4, line[..4]) == Line(line, true, 6);
    assert line[..3] + [line[3]] == line[..4];
    assert Scan(input, 3, line[..3]) == Line(line, true, 6);
    assert line[..2] + [line[2]] == line[..3];
    assert Scan(input, 2, line[..2]) == Line(line, true, 6);
    assert line[..1] + [line[1]] == line[..2];
    assert Scan(input, 1, line[..1]) == Line(line, true, 6);
    assert [] + [line[0]] == line[..1];
  }
}
