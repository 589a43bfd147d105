/**
 * Sentence extraction and classification (nmea_checker.c, the processing
 * block after a line is read): find the first `$` and the first `*`, read the
 * claimed checksum after `*`, compute the checksum of the payload, and decide
 * whether the sentence is valid.
 */
module Sentence {
  import opened CString
  import opened Checksum
  import opened StrToL

  /**
   * What becomes of one line: silently dropped, or a sentence (the text from
   * its first `$` to the end of the line) with a valid or invalid checksum.
   */
  datatype Disposition = Dropped | Valid(text: seq<byte>) | Invalid(text: seq<byte>)

  /** The C string the processing block works on: the stored bytes and the LF, if one ended the line. */
  function LineText(stored: seq<byte>, lf: bool): seq<byte>
  {
    stored + (if lf then [LF] else [])
  }

  /** The claimed checksum: the text after the `*` at `star`, converted by `strtol` and kept as a `char`. */
  function Claimed(line: seq<byte>, star: nat): byte
    requires star < |line|
  {
    ToChar(StrToL16(line[star + 1..]))
  }

  /**
   * The bytes `calc_checksum(begin + 1)` folds once the `*` is overwritten by
   * a NUL: those strictly between `$` and `*`, or, when the `*` comes first,
   * everything after the `$`.
   */
  function Payload(line: seq<byte>, dollar: nat, star: nat): seq<byte>
    requires dollar < |line| && star < |line|
  {
    if dollar < star then line[dollar + 1..star] else line[dollar + 1..]
  }

  /** The classification of one non-empty line. */
  function Classify(line: seq<byte>): Disposition
  {
    var begin, end := IndexOf(line, DOLLAR), IndexOf(line, STAR);
    if begin.Some? && end.Some? then Judge(line, begin.value, end.value) else Dropped
  }

  /** The sentence at `$` = `dollar`, valid when its claimed and computed checksums agree. */
  function Judge(line: seq<byte>, dollar: nat, star: nat): Disposition
    requires dollar < |line| && star < |line|
  {
    if Claimed(line, star) == Xor(Payload(line, dollar, star)) then Valid(line[dollar..])
    else Invalid(line[dollar..])
  }

  /** `if (pos++ > 0)`: a line with no stored byte is not looked at. */
  function Process(stored: seq<byte>, lf: bool): Disposition
  {
    if |stored| == 0 then Dropped else Classify(LineText(stored, lf))
  }

  /**
   * A framed line is routed exactly when it stored at least one byte and holds
   * both a `$` and a `*`; what is routed is the line, LF included, from its
   * first `$` on.
   */
  lemma ProcessDisposition(stored: seq<byte>, lf: bool)
    ensures var d, line := Process(stored, lf), LineText(stored, lf);
      (d.Dropped? <==> |stored| == 0 || DOLLAR !in line || STAR !in line) &&
      (!d.Dropped? ==>
         var b := |line| - |d.text|;
         0 <= b < |line| && d.text == line[b..] && line[b] == DOLLAR && DOLLAR !in line[..b])
  {
    if |stored| > 0 {
      ClassifyText(LineText(stored, lf));
    }
  }

  /**
   * A line whose first `$` is at `dollar` and whose first `*` is at `star`,
   * with a two-digit field after the `*`, is valid exactly when that field
   * equals the checksum of the bytes strictly between `$` and `*` (or, when
   * the `*` comes first, of every byte after the `$`). The text kept runs
   * from the `$` to the end of the line.
   */
  lemma ChecksumVerdict(line: seq<byte>, dollar: nat, star: nat, claimed: byte, tail: seq<byte>)
    requires dollar < |line| && line[dollar] == DOLLAR && DOLLAR !in line[..dollar]
    requires star < |line| && line[star] == STAR && STAR !in line[..star]
    requires line[star + 1..] == Hex2(claimed) + tail
    requires |tail| == 0 || !IsHexDigit(tail[0])
    ensures dollar < star ==>
              Classify(line) == if claimed == Xor(line[dollar + 1..star]) then Valid(line[dollar..])
                                else Invalid(line[dollar..])
    ensures star < dollar ==>
              Classify(line) == if claimed == Xor(line[dollar + 1..]) then Valid(line[dollar..])
                                else Invalid(line[dollar..])
  {
    IndexOfAt(line, DOLLAR, dollar);
    IndexOfAt(line, STAR, star);
    ClaimedHex2(line, star, claimed, tail);
    ClassifyAt(line, dollar, star);
  }

  /**
   * A sentence `$payload*HH` followed by anything that does not start with a
   * hex digit is valid exactly when HH is the checksum of the payload; the
   * text kept is the sentence with what follows it, without leading noise.
   */
  lemma WellFormedSentence(noise: seq<byte>, payload: seq<byte>, claimed: byte, tail: seq<byte>)
    requires DOLLAR !in noise && STAR !in noise && STAR !in payload
    requires |tail| == 0 || !IsHexDigit(tail[0])
    ensures var text := [DOLLAR] + payload + [STAR] + Hex2(claimed) + tail;
      Classify(noise + text) == (if claimed == Xor(payload) then Valid(text) else Invalid(text))
  {
    var text := [DOLLAR] + payload + [STAR] + Hex2(claimed) + tail;
    var b, e := |noise|, |noise| + 1 + |payload|;
    var line := noise + text;
    SentenceLayout(noise, payload, claimed, tail);
    assert b < e && line[b + 1..e] == payload && line[b..] == text;
    ChecksumVerdict(line, b, e, claimed, tail);
    assert Classify(line) == if claimed == Xor(line[b + 1..e]) then Valid(line[b..]) else Invalid(line[b..]);
  }

  /** Where the `$`, the payload, the `*` and the field sit in a sentence after noise. */
  lemma SentenceLayout(noise: seq<byte>, payload: seq<byte>, claimed: byte, tail: seq<byte>)
    requires DOLLAR !in noise && STAR !in noise && STAR !in payload
    ensures var text := [DOLLAR] + payload + [STAR] + Hex2(claimed) + tail;
      var line := noise + text;
      var b, e := |noise|, |noise| + 1 + |payload|;
      b < e < |line| && line[b] == DOLLAR && DOLLAR !in line[..b] &&
      line[e] == STAR && STAR !in line[..e] && line[e + 1..] == Hex2(claimed) + tail &&
      line[b + 1..e] == payload && line[b..] == text
  {
    var rest := Hex2(claimed) + tail;
    var text := [DOLLAR] + payload + [STAR] + rest;
    assert text == [DOLLAR] + payload + [STAR] + Hex2(claimed) + tail;
    var line := noise + text;
    var b, e := |noise|, |noise| + 1 + |payload|;
    assert line[..b] == noise;
    assert line[..e] == noise + [DOLLAR] + payload;
    assert line[b..] == text;
    assert line[b + 1..e] == payload;
    assert line[e + 1..] == rest;
  }

  /**
   * A line is dropped exactly when it lacks a `$` or a `*`; otherwise the text
   * kept is the rest of the line from its first `$`.
   */
  lemma ClassifyText(line: seq<byte>)
    ensures var d := Classify(line);
      (d.Dropped? <==> DOLLAR !in line || STAR !in line) &&
      (!d.Dropped? ==>
         var b := |line| - |d.text|;
         0 <= b < |line| && d.text == line[b..] && line[b] == DOLLAR && DOLLAR !in line[..b])
  {
    var begin, end := IndexOf(line, DOLLAR), IndexOf(line, STAR);
    if begin.Some? && end.Some? {
      var b := begin.value;
      ClassifyAt(line, b, end.value);
      JudgeText(line, b, end.value);
      assert |line| - |line[b..]| == b;
    }
  }

  /** A judged sentence keeps the rest of the line from its `$`. */
  lemma JudgeText(line: seq<byte>, dollar: nat, star: nat)
    requires dollar < |line| && star < |line|
    ensures var d := Judge(line, dollar, star); !d.Dropped? && d.text == line[dollar..]
  {
  }

  /** A line whose first `$` and first `*` are known is judged at those positions. */
  lemma ClassifyAt(line: seq<byte>, dollar: nat, star: nat)
    requires IndexOf(line, DOLLAR) == Some(dollar) && IndexOf(line, STAR) == Some(star)
    ensures Classify(line) == Judge(line, dollar, star)
  {
  }

  /** The verdict on a line, from its claimed and computed checksums. */
  lemma Verdict(line: seq<byte>, dollar: nat, star: nat, claimed: byte, computed: byte)
    requires IndexOf(line, DOLLAR) == Some(dollar) && IndexOf(line, STAR) == Some(star)
    requires claimed == Claimed(line, star) && computed == Xor(Payload(line, dollar, star))
    ensures Classify(line) == if claimed == computed then Valid(line[dollar..]) else Invalid(line[dollar..])
  {
    ClassifyAt(line, dollar, star);
  }

  /** The claimed checksum of a field written by `Hex2`. */
  lemma ClaimedHex2(line: seq<byte>, star: nat, b: byte, tail: seq<byte>)
    requires star < |line| && line[star + 1..] == Hex2(b) + tail
    requires |tail| == 0 || !IsHexDigit(tail[0])
    ensures Claimed(line, star) == b
  {
    Hex2RoundTrip(b, tail);
  }

  /**
   * When the first `*` comes before the first `$`, the whole rest of the line
   * after `$` is folded: `*0A$` and an LF pass, because the checksum of the
   * LF alone is 0x0A.
   */
  lemma StarBeforeDollar()
    ensures Classify([STAR, 0x30, 0x41, DOLLAR, LF]) == Valid([DOLLAR, LF])
  {
    var line: seq<byte> := [STAR, 0x30, 0x41, DOLLAR, LF];
    assert line[1..] == Hex2(0x0A) + [DOLLAR, LF];
    assert line[4..] == [LF] && [LF][..0] == [];
    ChecksumVerdict(line, 3, 0, 0x0A, [DOLLAR, LF]);
  }
}
