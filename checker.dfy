/**
 * The checker's main loop (nmea_checker.c, `while(1)` in `main`) over an
 * input file: read one line into a zeroed 255-byte buffer, classify it in
 * place, and append it to the open sinks.
 */
module Checker {
  import opened CString
  import opened Checksum
  import opened StrToL
  import opened Framing
  import opened Sentence
  import opened Router

  const BUF_SIZE: nat := 255

  /**
   * The line buffer once the framing loop is over: `pos` stored bytes, none
   * of them NUL, then an LF or a NUL at `pos`, then NULs only.
   */
  ghost predicate Framed(buf: array<byte>, pos: nat)
    reads buf
  {
    buf.Length == BUF_SIZE && pos <= CAP && NUL !in buf[..pos] &&
    (buf[pos] == NUL || buf[pos] == LF) &&
    forall k :: pos < k < BUF_SIZE ==> buf[k] == NUL
  }

  /** The text of a framed buffer: the stored bytes and the LF, if there is one. */
  lemma FramedLayout(buf: array<byte>, pos: nat)
    requires Framed(buf, pos)
    ensures var line := LineText(buf[..pos], buf[pos] == LF);
      |line| < BUF_SIZE && NUL !in line && buf[..] == line + Zeros(BUF_SIZE - |line|)
  {
    var line := LineText(buf[..pos], buf[pos] == LF);
    assert buf[..] == line + Zeros(BUF_SIZE - |line|);
  }

  /**
   * After `*end = 0`, the C string at `star + 1` is the rest of the line, the
   * one at `dollar + 1` is the payload, and the buffer still holds a NUL
   * after `dollar`.
   */
  lemma CutAtStar(line: seq<byte>, n: nat, dollar: nat, star: nat, cut: seq<byte>)
    requires NUL !in line && n > 0
    requires dollar < |line| && star < |line| && dollar != star
    requires cut == (line + Zeros(n))[star := NUL]
    ensures CStr(cut[star + 1..]) == line[star + 1..] &&
      CStr(cut[dollar + 1..]) == Payload(line, dollar, star) &&
      NUL in cut[dollar + 1..]
  {
    assert cut[star + 1..] == line[star + 1..] + Zeros(n);
    CStrTerminated(line[star + 1..], Zeros(n));
    if dollar < star {
      CutBefore(line, n, dollar, star, cut);
    } else {
      CutAfter(line, n, dollar, star, cut);
    }
  }

  /** The payload of a line whose `$` comes before its `*` ends at the cut. */
  lemma CutBefore(line: seq<byte>, n: nat, dollar: nat, star: nat, cut: seq<byte>)
    requires NUL !in line && n > 0 && dollar < star < |line|
    requires cut == (line + Zeros(n))[star := NUL]
    ensures CStr(cut[dollar + 1..]) == line[dollar + 1..star] && NUL in cut[dollar + 1..]
  {
    var after := [NUL] + line[star + 1..] + Zeros(n);
    assert cut[dollar + 1..] == line[dollar + 1..star] + after;
    CStrTerminated(line[dollar + 1..star], after);
    assert cut[dollar + 1..][star - dollar - 1] == NUL;
  }

  /** A line whose `*` comes before its `$` is folded to its end. */
  lemma CutAfter(line: seq<byte>, n: nat, dollar: nat, star: nat, cut: seq<byte>)
    requires NUL !in line && n > 0 && star < dollar < |line|
    requires cut == (line + Zeros(n))[star := NUL]
    ensures CStr(cut[dollar + 1..]) == line[dollar + 1..] && NUL in cut[dollar + 1..]
  {
    assert cut[dollar + 1..] == line[dollar + 1..] + Zeros(n);
    CStrTerminated(line[dollar + 1..], Zeros(n));
    assert cut[dollar + 1..][|line| - dollar - 1] == NUL;
  }

  /** The C string at any position of the line is the rest of the line. */
  lemma TextFrom(line: seq<byte>, n: nat, j: nat)
    requires NUL !in line && n > 0 && j <= |line|
    ensures CStr((line + Zeros(n))[j..]) == line[j..]
  {
    assert (line + Zeros(n))[j..] == line[j..] + Zeros(n);
    CStrTerminated(line[j..], Zeros(n));
  }

  /** A line with a `$` and a `*` is processed as the verdict on its sentence. */
  lemma ProcessFound(stored: seq<byte>, lf: bool, dollar: nat, star: nat, valid: bool, text: seq<byte>)
    requires |stored| > 0
    requires var line := LineText(stored, lf);
      IndexOf(line, DOLLAR) == Some(dollar) && IndexOf(line, STAR) == Some(star) && text == line[dollar..] &&
      Classify(line) == if valid then Disposition.Valid(line[dollar..]) else Invalid(line[dollar..])
    ensures Process(stored, lf) == if valid then Disposition.Valid(text) else Invalid(text)
  {
  }

  /** A line without a `$` or without a `*` is dropped. */
  lemma ProcessMissing(stored: seq<byte>, lf: bool)
    requires var line := LineText(stored, lf); IndexOf(line, DOLLAR).None? || IndexOf(line, STAR).None?
    ensures Process(stored, lf) == Dropped
  {
  }

  /**
   * One checker run: the input file and the configuration are fixed; the
   * read position and what each sink has received change as lines are
   * processed.
   */
  class Checker {
    const input: seq<byte>
    const cfg: Config
    var next: nat
    var lines: nat
    var outFile: seq<byte>
    var logOk: seq<byte>
    var logWrong: seq<byte>
    var logAll: seq<byte>
    var flushes: nat

    ghost predicate Valid()
      reads this
    {
      next <= |input| && Balanced(State()) && Closed(State(), cfg)
    }

    function State(): Sinks
      reads this
    {
      Sinks(outFile, logOk, logWrong, logAll, flushes)
    }

    constructor (input: seq<byte>, cfg: Config)
      ensures Valid() && this.input == input && this.cfg == cfg
      ensures next == 0 && lines == 0 && State() == Empty
    {
      this.input := input;
      this.cfg := cfg;
      next, lines := 0, 0;
      outFile, logOk, logWrong, logAll := [], [], [], [];
      flushes := 0;
    }

    /**
     * The framing loop: read bytes into the zeroed `buf` until an LF or until
     * 250 bytes are stored; a NUL is written but not kept. End-of-file ends
     * the run.
     */
    method ReadLine(buf: array<byte>) returns (eof: bool, pos: nat)
      requires Valid() && buf.Length == BUF_SIZE
      requires forall k :: 0 <= k < BUF_SIZE ==> buf[k] == NUL
      modifies this`next, buf
      ensures Valid()
      ensures eof <==> Scan(input, old(next), []) == EndOfFile
      ensures eof ==> next == |input|
      ensures !eof ==> var f := Scan(input, old(next), []);
        next == f.next && pos == |f.stored| && buf[..pos] == f.stored &&
        (buf[pos] == LF <==> f.lf) && Framed(buf, pos)
    {
      pos := 0;
      while pos < CAP
        invariant old(next) <= next <= |input| && pos <= CAP
        invariant forall k :: pos <= k < BUF_SIZE ==> buf[k] == NUL
        invariant Scan(input, next, buf[..pos]) == Scan(input, old(next), [])
        decreases |input| - next
      {
        if next == |input| {
          return true, pos;
        }
        var c := input[next];
        next := next + 1;
        buf[pos] := c;
        if c == LF {
          break;
        }
        if c != NUL {
          assert buf[..pos + 1] == buf[..pos] + [c];
          pos := pos + 1;
        }
      }
      eof := false;
      ghost var f := Scan(input, old(next), []);
      assert f.Line? && f.stored == buf[..pos] && next == f.next && (buf[pos] == LF <==> f.lf);
      StoredBytes(input, old(next));
    }

    /**
     * The processing block for one framed line (`if (pos++ > 0)`): find the
     * first `$` and the first `*`, check the sentence, and route the text
     * from `$` to the end of the line.
     */
    method ProcessLine(buf: array<byte>, pos: nat, stamp: seq<byte>)
      requires Valid() && Framed(buf, pos)
      modifies this`outFile, this`logOk, this`logWrong, this`logAll, this`flushes, buf
      ensures Valid() && buf[..] == old(buf[..])
      ensures State() == Route(old(State()), Process(old(buf[..pos]), old(buf[pos]) == LF), stamp, cfg)
    {
      FramedLayout(buf, pos);
      if pos > 0 {
        Examine(buf, pos, stamp, buf[..pos], buf[pos] == LF);
      }
    }

    /** A line with at least one stored byte, terminated after its last byte. */
    method Examine(buf: array<byte>, pos: nat, stamp: seq<byte>, ghost stored: seq<byte>, ghost lf: bool)
      requires Valid() && buf.Length == BUF_SIZE && 0 < pos == |stored| <= CAP
      requires var line := LineText(stored, lf);
        NUL !in line && buf[..] == line + Zeros(BUF_SIZE - |line|)
      modifies this`outFile, this`logOk, this`logWrong, this`logAll, this`flushes, buf
      ensures Valid() && buf[..] == old(buf[..])
      ensures State() == Route(old(State()), Process(stored, lf), stamp, cfg)
    {
      ghost var line := LineText(stored, lf);
      var begin, end := Locate(buf, pos, line);
      if end.Some? && begin.Some? {
        var valid := CheckSentence(buf, begin.value, end.value, line);
        TextFrom(line, BUF_SIZE - |line|, begin.value);
        var text := CStr(buf[begin.value..]);
        Dispatch(valid, text, stamp);
        ProcessFound(stored, lf, begin.value, end.value, valid, text);
      } else {
        ProcessMissing(stored, lf);
      }
    }

    /**
     * After `pos++`, terminate the line at `buf[pos]` and find its first `$`
     * and its first `*`.
     */
    method Locate(buf: array<byte>, pos: nat, ghost line: seq<byte>) returns (begin: Option<nat>, end: Option<nat>)
      requires buf.Length == BUF_SIZE && pos <= CAP && |line| <= pos + 1
      requires NUL !in line && buf[..] == line + Zeros(BUF_SIZE - |line|)
      modifies buf
      ensures buf[..] == old(buf[..])
      ensures begin == IndexOf(line, DOLLAR) && end == IndexOf(line, STAR)
    {
      buf[pos + 1] := NUL;
      assert buf[..] == old(buf[..]);
      CStrTerminated(line, Zeros(BUF_SIZE - |line|));
      begin := StrChr(buf, DOLLAR);
      end := StrChr(buf, STAR);
    }

    /** Compare the claimed checksum with the computed one: the verdict on a line whose first `$` and first `*` are known. */
    method CheckSentence(buf: array<byte>, dollar: nat, star: nat, ghost line: seq<byte>) returns (valid: bool)
      requires |line| < BUF_SIZE && NUL !in line && buf[..] == line + Zeros(BUF_SIZE - |line|)
      requires IndexOf(line, DOLLAR) == Some(dollar) && IndexOf(line, STAR) == Some(star)
      modifies buf
      ensures buf[..] == old(buf[..])
      ensures Classify(line) == if valid then Disposition.Valid(line[dollar..]) else Invalid(line[dollar..])
    {
      var claimed, calculated := Measure(buf, dollar, star, line);
      valid := claimed == calculated;
      Verdict(line, dollar, star, claimed, calculated);
    }

    /**
     * Cut the line at `*`, read the claimed checksum after it, fold the bytes
     * after `$` up to the cut, and put the `*` back.
     */
    method Measure(buf: array<byte>, dollar: nat, star: nat, ghost line: seq<byte>) returns (claimed: byte, calculated: byte)
      requires |line| < BUF_SIZE && NUL !in line && buf[..] == line + Zeros(BUF_SIZE - |line|)
      requires dollar < |line| && star < |line| && line[star] == STAR && dollar != star
      modifies buf
      ensures buf[..] == old(buf[..])
      ensures claimed == Claimed(line, star) && calculated == Xor(Payload(line, dollar, star))
    {
      buf[star] := NUL;
      CutAtStar(line, BUF_SIZE - |line|, dollar, star, buf[..]);
      claimed := ToChar(StrToL16(CStr(buf[star + 1..])));
      calculated := CalcChecksum(buf, dollar + 1);
      buf[star] := STAR;
      assert buf[..] == old(buf[..]);
    }

    /** Route a checked sentence to the output file and the logs, keeping the sinks' invariant. */
    method Dispatch(valid: bool, text: seq<byte>, stamp: seq<byte>)
      requires Valid()
      modifies this`outFile, this`logOk, this`logWrong, this`logAll, this`flushes
      ensures Valid()
      ensures State() == Route(old(State()), if valid then Disposition.Valid(text) else Invalid(text), stamp, cfg)
    {
      Append(valid, text, stamp);
      RouteKeeps(old(State()), if valid then Disposition.Valid(text) else Invalid(text), stamp, cfg);
    }

    /** Append the text to the sinks its verdict selects, then flush. */
    method Append(valid: bool, text: seq<byte>, stamp: seq<byte>)
      modifies this`outFile, this`logOk, this`logWrong, this`logAll, this`flushes
      ensures State() == Route(old(State()), if valid then Disposition.Valid(text) else Invalid(text), stamp, cfg)
    {
      if valid {
        if cfg.output == DeviceOutput {
          // `nmea_checker.c` line 281 names the device and the text but calls nothing: no bytes are written
        }
        if cfg.output == FileOutput {
          outFile := outFile + text;
        }
        if cfg.logging {
          logOk := logOk + stamp + text;
        }
      } else {
        if cfg.logging {
          logWrong := logWrong + stamp + text;
        }
      }
      if cfg.logging {
        logAll := logAll + stamp + text;
      }
      flushes := flushes + 1;
    }

    /**
     * One pass of `while(1)`: a fresh zeroed buffer, one line read, its
     * timestamp taken from `clock`, and the line processed.
     */
    method Step(clock: nat -> seq<byte>) returns (eof: bool)
      requires Valid()
      modifies this
      ensures Valid()
      ensures eof <==> Scan(input, old(next), []) == EndOfFile
      ensures eof ==> next == |input| && lines == old(lines) && State() == old(State())
      ensures !eof ==> var f := Scan(input, old(next), []);
        next == f.next && lines == old(lines) + 1 &&
        State() == Route(old(State()), Process(f.stored, f.lf), clock(old(lines)), cfg)
    {
      var buf := new byte[BUF_SIZE](_ => NUL);
      var pos;
      eof, pos := ReadLine(buf);
      if eof {
        return;
      }
      var stamp := clock(lines);
      ProcessLine(buf, pos, stamp);
      lines := lines + 1;
    }

    /** The main loop, run until the input file ends. */
    method Run(clock: nat -> seq<byte>)
      requires Valid()
      modifies this
      ensures Valid() && next == |input|
      ensures State() == RunFrom(input, old(next), old(lines), clock, cfg, old(State()))
    {
      while true
        invariant Valid()
        invariant RunFrom(input, next, lines, clock, cfg, State()) ==
                  RunFrom(input, old(next), old(lines), clock, cfg, old(State()))
        decreases |input| - next
      {
        ghost var from, k, before := next, lines, State();
        var eof := Step(clock);
        if eof {
          assert RunFrom(input, from, k, clock, cfg, before) == before;
          return;
        }
      }
    }
  }
}
