# NMEA checksum checker — a Dafny model

`nmea_checker` reads NMEA 0183 sentences from an input file, one line at a
time. For each sentence it checks the two-digit hexadecimal checksum after
`*` against the exclusive-or of the bytes between `$` and `*`. Valid
sentences go to an output file. When `-d` opens the audit logs, every
sentence with a `$` and a `*` goes to the "all" log and to exactly one of the
"ok" log (valid) or the "wrong" log (invalid), optionally prefixed with a
timestamp.

This project models the per-line engine of `nmea_checker.c`: `calc_checksum`,
the byte-by-byte framing loop, and the extraction, classification and routing
block inside `main`'s `while(1)`. The imperative parts stay imperative:

- A `Checker` class holds the input file as a byte sequence, a read position,
  and the contents of each sink as `seq<byte>` fields.
- Each pass of the loop allocates a zeroed 255-byte `array` as its line buffer.
- The buffer is filled in place by a loop, cut at `*` with a NUL, and restored.
- Every method is proved against a pure specification:
  - `Scan` frames one line;
  - `Classify` / `Process` decide what becomes of it;
  - `Route` says what each sink receives;
  - `RunFrom` describes a whole run.
  Those specifications carry their own lemmas.

Modules, one per file:

- `cstring.dfy`, `CString`: bytes, NUL-terminated strings (`CStr`), and
  `strlen` / `strchr` as loops over an array.
- `checksum.dfy`, `Checksum`: the XOR fold `Xor` and `calc_checksum` as a loop
  proved equal to it.
- `strtol.dfy`, `StrToL`: `strtol(s, NULL, 16)` for a 64-bit `long`, and the
  conversion of its result to a `char`.
- `framing.dfy`, `Framing`: line framing, `Scan`. It also holds the signed-char
  end-of-file comparison as the code writes it.
- `sentence.dfy`, `Sentence`: finding `$` and `*`, the claimed and computed
  checksums, and the verdict.
- `router.dfy`, `Router`: routing one verdict to the sinks, and a whole run as a
  function of the input.
- `checker.dfy`, `Checker`: the main loop as a class with in-place buffer
  methods.

Three behaviours of the code that a reader may not expect:

- The claimed checksum is the whole rest of the line after `*`: `strtol` reads
  every hex digit there, not only the two a sender writes, and the result is
  truncated to a `char`.
- When the first `*` comes before the first `$`, the computed checksum folds
  every byte after `$` to the end of the line.
- A device named as output receives nothing: line 281 is a comma expression
  with no `write` call.

## Model

| member | source | states |
|---|---|---|
| `CString.StrLen` | nmea_checker.c:124 | `strlen` at an offset returns the length of the C string there: the bytes before the first NUL |
| `CString.StrChr` | nmea_checker.c:269-270 | `strchr` of a non-NUL byte returns the first position of that byte in the C string held by the buffer, or nothing |
| `CString.CStrTerminated` | nmea_checker.c:268 | NUL-free text followed by a NUL reads back as exactly that text, which is why writing `buf[pos] = 0` delimits the line |
| `Checksum.Xor` | nmea_checker.c:122-129 | defines the checksum: the exclusive-or of every byte, accumulated left to right from 0; its properties are stated by the lemmas below |
| `Checksum.CalcChecksum` | nmea_checker.c:122-129 | the loop returns the exclusive-or, from 0, of every byte of the C string at `begin + 1` |
| `Checksum.XorAppend` | nmea_checker.c:125-127 | the checksum of a concatenation is the XOR of the parts' checksums |
| `Checksum.XorPermutation` | nmea_checker.c:122-129 | the checksum does not depend on byte order: any permutation of the payload has the same checksum |
| `StrToL.StrToL16` | nmea_checker.c:274 | the base-16 conversion stays within the 64-bit `long` range, gives 0 when no hex digit follows the optional space, sign and `0x`, and is negative only for a `-` sign |
| `StrToL.Hex2RoundTrip` | nmea_checker.c:274 | the two-digit upper-case field a sender writes after `*` reads back as the byte it encodes, whatever follows it unless that is another hex digit |
| `Framing.Scan` | nmea_checker.c:245-257 | framing never stores more than 250 bytes, keeps the bytes already stored as a prefix, and always advances the input while the buffer is not full |
| `Framing.ScanLine` | nmea_checker.c:245-257 | a framed line holds exactly the non-NUL bytes it consumed; none of them is an LF; it ended at an LF with fewer than 250 bytes stored, because the cap is tested before each read, or with 250 bytes stored, and in the second case the last byte it read was stored, so no NUL after the 250th byte is consumed |
| `Framing.StoredBytes` | nmea_checker.c:253-256 | a stored line never contains a NUL or an LF and has at most 250 bytes |
| `Framing.ScanEndOfFile` | nmea_checker.c:247-249 | the run ends exactly when no LF remains and the rest of the file cannot fill the buffer |
| `Framing.ScanExtended` | nmea_checker.c:245-257 | bytes after an LF never change a line that starts before that LF |
| `Framing.ScanSignedChar` | nmea_checker.c:245-257 | defines the framing loop as written for a signed `char`: a stored 0xFF compares equal to `EOF` and ends the run like the true end of the file |
| `Framing.SignedCharStopsEarly` | nmea_checker.c:247-249 | the comparison as written on a signed `char` ends the run at a 0xFF data byte that comes before a complete line |
| `Sentence.Claimed` | nmea_checker.c:274 | defines the claimed checksum: `strtol` in base 16 of the text after the first `*`, truncated to a `char`; `Sentence.ClaimedHex2` and `StrToL.Hex2RoundTrip` state what it reads back |
| `Sentence.Payload` | nmea_checker.c:273-275 | defines the bytes `calc_checksum(begin + 1)` folds once `*end = 0` is written: those strictly between `$` and `*`, or everything after `$` when `*` comes first |
| `Sentence.Judge` | nmea_checker.c:273-278 | defines the verdict on a located sentence: valid exactly when the claimed byte equals the XOR of the payload, the text kept being the line from its `$` |
| `Sentence.Classify` | nmea_checker.c:269-278 | defines the classification of a terminated line: dropped without a `$` or a `*`, otherwise judged at the first of each; `Sentence.ClassifyText` states its contract |
| `Sentence.Process` | nmea_checker.c:267-278 | defines the fate of a framed line: a line with no stored byte is skipped by `pos++ > 0`, any other is classified with its LF; `Sentence.ProcessDisposition` states its contract |
| `Sentence.ProcessDisposition` | nmea_checker.c:267-272 | a line is routed exactly when it stored a byte and holds both `$` and `*`; the routed text is the line, including its LF, from its first `$` on |
| `Sentence.ClassifyText` | nmea_checker.c:269-272 | a line is dropped exactly when it lacks `$` or `*`; otherwise the kept text begins at the first `$` |
| `Sentence.ChecksumVerdict` | nmea_checker.c:269-278 | with a two-digit field after the first `*`, the line is valid iff the field equals the XOR of the bytes strictly between `$` and `*`, or of everything after `$` when `*` comes first |
| `Sentence.WellFormedSentence` | nmea_checker.c:267-278 | any noise, then `$payload*HH`, then a non-hex tail, is valid exactly when HH is the payload's checksum, and keeps the text from `$` |
| `Sentence.StarBeforeDollar` | nmea_checker.c:273-275 | `*0A$` followed by an LF is valid, because with `*` first the fold covers the LF after `$` |
| `Router.Route` | nmea_checker.c:278-295 | a dropped line touches nothing; sinks only grow; a valid sentence leaves the "wrong" log alone and an invalid one leaves the output file and the "ok" log alone; closed sinks stay unchanged; each processed sentence flushes once |
| `Router.RouteAppends` | nmea_checker.c:278-294 | the output file receives the bare text of a valid sentence, "ok" the stamped text of a valid one, "wrong" the stamped text of an invalid one, and "all" the stamped text of both |
| `Router.RouteKeeps` | nmea_checker.c:278-294 | routing keeps the "all" log equal, as a multiset of bytes, to "ok" plus "wrong", and keeps sinks that are not open empty |
| `Router.RunFrom` | nmea_checker.c:236-298 | defines a whole run: frame a line, route its disposition with the clock's timestamp for that line, and repeat until end-of-file; the lemmas below state its properties |
| `Router.RunBalanced` | nmea_checker.c:236-298 | over a whole run the "all" log holds, as a multiset of bytes, exactly the bytes of the "ok" and "wrong" logs together |
| `Router.StampsOnlyAudit` | nmea_checker.c:260-264 | timestamps never change the output file or the number of flushes |
| `Router.OkLogMirrorsOutput` | nmea_checker.c:278-286 | without timestamps, and with an output file and logging, the "ok" log is byte for byte the output file |
| `Router.TrailingFragmentIgnored` | nmea_checker.c:247-249 | a last line without an LF that cannot fill the buffer reaches no sink |
| `Checker.FramedLayout` | nmea_checker.c:239-268 | after framing, the buffer is the line (with its LF) followed only by NULs |
| `Checker.CutAtStar` | nmea_checker.c:273-275 | after `*end = 0`, the C string after `*` is the rest of the line and the one after `$` is the payload |
| `Checker.Checker.ReadLine` | nmea_checker.c:245-257 | the framing loop fills the zeroed buffer with the line `Scan` describes, advances the input to the same position, and reports end-of-file exactly when `Scan` does |
| `Checker.Checker.ProcessLine` | nmea_checker.c:267-296 | the processing block leaves the buffer as it found it and moves the sinks to `Route` of the line's disposition |
| `Checker.Checker.Examine` | nmea_checker.c:268-295 | for a line with a stored byte, terminating, locating `$` and `*`, checking and dispatching leave the buffer as found and move the sinks to `Route` of `Process` of the line; a line without `$` or `*` changes no sink |
| `Checker.Checker.Locate` | nmea_checker.c:268-270 | terminating after the line and calling `strchr` twice gives the first `$` and the first `*` of the line |
| `Checker.Checker.CheckSentence` | nmea_checker.c:273-277 | the comparison of claimed and computed checksum is the line's classification, and the `*` is put back |
| `Checker.Checker.Measure` | nmea_checker.c:273-276 | the claimed value is `strtol` of the text after `*` as a `char`; the computed value is the XOR of the payload; the buffer is restored |
| `Checker.Checker.Dispatch` | nmea_checker.c:278-295 | the sinks move to `Route` of the verdict, and the class invariant (balanced logs, closed sinks empty) holds |
| `Checker.Checker.Append` | nmea_checker.c:279-294 | the `fprintf` calls and the flush: the sinks become exactly `Route` of the verdict, so the output file gets the bare text of a valid sentence, the logs the stamped text, and the flush counter one more |
| `Checker.Checker.Step` | nmea_checker.c:236-296 | one pass of `while(1)`: end-of-file exactly as `Scan` says, otherwise one more line read and the sinks routed with that line's timestamp |
| `Checker.Checker.Run` | nmea_checker.c:236-298 | the loop runs to end of file, and the final sinks are those `RunFrom` gives for the whole input |

## Left out

- Device input with `read` (line 251) is not modelled; the input is a file, and the end of the byte sequence is the end-of-file marker.
- The device output branch (line 281) calls nothing, and the model writes nothing to a device.
- Serial port setup in `open_input` / `open_output` (lines 46-120) is operating-system configuration and is not modelled.
- Argument parsing and the `stat`-based choice between file and device (lines 166-232) are not modelled; a `Config` value stands for their outcome.
- `close_all_exit` and `flush_open_files` (lines 134-157) are not modelled as file operations; flushing is kept only as a counter in the sinks.
- Timestamp creation with `time`, `localtime` and `strftime` (lines 260-264) is a `clock` parameter: the text for the n-th line read, empty when `-t` is absent.
- Console `printf` traces (lines 279, 288) and the exit status are not modelled.
- `strtol` is modelled for the C locale only.
- On a signed-`char` platform a 0xFF data byte ends the run early; only `Framing.ScanSignedChar` shows that, while `Framing.Scan`, `Router.RunFrom` and `Checker.Checker.Run` use the explicit end-of-file marker (the intended behaviour, see Findings).
- Framing on an unsigned-`char` platform, where the `EOF` test never fires and the loop would not end, is not modelled; end-of-file is an explicit marker.
- Checksum.CalcChecksum: returns the byte of the fold; the C function returns it widened to `int`, which the caller stores back into a `char`, so the compared values are the same bytes.

## Findings

| source | as written | input that shows it | evidently intended | confidence | as-written member | corrected member |
|---|---|---|---|---|---|---|
| nmea_checker.c:247-249 | `buf[pos] = fgetc(inp_file)` stores the result in a `char` and then compares it with `EOF`; with a signed `char`, a 0xFF data byte equals `EOF` and ends the run | a file holding 0xFF, then `$*00` and an LF: the run stops at once, and that complete line is never framed or routed | end the run only at true end-of-file, by keeping `fgetc`'s `int` result and testing it before storing | not executed; follows from C's conversion rules on platforms where `char` is signed | `Framing.ScanSignedChar` with `Framing.SignedCharStopsEarly` | `Framing.Scan` with `Framing.ScanEndOfFile` |
