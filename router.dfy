/**
 * Routing (nmea_checker.c, the end of the processing block) and the whole
 * run as a function of the input file: each line is framed, classified and
 * routed to the output file and the three audit logs.
 */
module Router {
  import opened CString
  import opened Framing
  import opened Sentence

  /**
   * The output named on the command line: none, a regular file (which gets
   * every valid sentence), or a character device, to which the statement at
   * line 281 of `nmea_checker.c` writes nothing.
   */
  datatype OutKind = NoOutput | FileOutput | DeviceOutput

  /** `-d` opens the three audit logs together; `output` is the second path argument. */
  datatype Config = Config(output: OutKind, logging: bool)

  /**
   * What the sinks have received so far, as byte streams: the output file,
   * the "ok", "wrong" and "all" logs, and how many times the open files were
   * flushed.
   */
  datatype Sinks = Sinks(out: seq<byte>, ok: seq<byte>, wrong: seq<byte>, all: seq<byte>, flushes: nat)

  const Empty := Sinks([], [], [], [], 0)

  /** The "all" log holds exactly the bytes of the "ok" and "wrong" logs together. */
  predicate Balanced(s: Sinks)
  {
    multiset(s.all) == multiset(s.ok) + multiset(s.wrong)
  }

  /** Sinks that are not open never receive anything. */
  predicate Closed(s: Sinks, cfg: Config)
  {
    (cfg.output != FileOutput ==> s.out == []) &&
    (!cfg.logging ==> s.ok == [] && s.wrong == [] && s.all == [])
  }

  /**
   * Routing one line. A valid sentence goes to the output file without the
   * timestamp and to the "ok" log with it; an invalid one to the "wrong" log
   * with it; both to the "all" log with it, and the files are then flushed.
   * A dropped line touches nothing.
   */
  function Route(s: Sinks, d: Disposition, stamp: seq<byte>, cfg: Config): (r: Sinks)
    ensures d.Dropped? ==> r == s
    ensures s.out <= r.out && s.ok <= r.ok && s.wrong <= r.wrong && s.all <= r.all
    ensures d.Valid? ==> r.wrong == s.wrong && r.flushes == s.flushes + 1
    ensures d.Invalid? ==> r.out == s.out && r.ok == s.ok && r.flushes == s.flushes + 1
    ensures cfg.output != FileOutput ==> r.out == s.out
    ensures !cfg.logging ==> r.ok == s.ok && r.wrong == s.wrong && r.all == s.all
  {
    match d
    case Dropped => s
    case Valid(text) =>
      Sinks(if cfg.output == FileOutput then s.out + text else s.out,
            if cfg.logging then s.ok + stamp + text else s.ok,
            s.wrong,
            if cfg.logging then s.all + stamp + text else s.all,
            s.flushes + 1)
    case Invalid(text) =>
      Sinks(s.out,
            s.ok,
            if cfg.logging then s.wrong + stamp + text else s.wrong,
            if cfg.logging then s.all + stamp + text else s.all,
            s.flushes + 1)
  }

  /**
   * What each open sink receives from one routed sentence: the output file
   * the bare text of a valid one, the "ok" log the stamped text of a valid
   * one, the "wrong" log the stamped text of an invalid one, and the "all"
   * log the stamped text of either.
   */
  lemma RouteAppends(s: Sinks, d: Disposition, stamp: seq<byte>, cfg: Config)
    requires !d.Dropped?
    ensures var r := Route(s, d, stamp, cfg);
      (d.Valid? && cfg.output == FileOutput ==> r.out[|s.out|..] == d.text) &&
      (d.Valid? && cfg.logging ==> r.ok[|s.ok|..] == stamp + d.text) &&
      (d.Invalid? && cfg.logging ==> r.wrong[|s.wrong|..] == stamp + d.text) &&
      (cfg.logging ==> r.all[|s.all|..] == stamp + d.text)
  {
    var r := Route(s, d, stamp, cfg);
    if cfg.logging {
      assert r.all == s.all + (stamp + d.text);
      if d.Valid? {
        assert r.ok == s.ok + (stamp + d.text);
      } else {
        assert r.wrong == s.wrong + (stamp + d.text);
      }
    }
  }

  /** Routing keeps the "all" log balanced and the closed sinks empty. */
  lemma RouteKeeps(s: Sinks, d: Disposition, stamp: seq<byte>, cfg: Config)
    ensures Balanced(s) ==> Balanced(Route(s, d, stamp, cfg))
    ensures Closed(s, cfg) ==> Closed(Route(s, d, stamp, cfg), cfg)
  {
    if !d.Dropped? && cfg.logging {
      var t := stamp + d.text;
      assert multiset(s.all + stamp + d.text) == multiset(s.all) + multiset(t);
      if d.Valid? {
        assert multiset(s.ok + stamp + d.text) == multiset(s.ok) + multiset(t);
      } else {
        assert multiset(s.wrong + stamp + d.text) == multiset(s.wrong) + multiset(t);
      }
    }
  }

  /**
   * The run from input position `i`, the `k`-th line onwards, with `clock(k)`
   * the timestamp text of the `k`-th line (always empty without `-t`). It
   * ends at end-of-file.
   */
  function RunFrom(input: seq<byte>, i: nat, k: nat, clock: nat -> seq<byte>, cfg: Config, s: Sinks): Sinks
    requires i <= |input|
    decreases |input| - i
  {
    match Scan(input, i, [])
    case EndOfFile => s
    case Line(stored, lf, next) =>
      RunFrom(input, next, k + 1, clock, cfg, Route(s, Process(stored, lf), clock(k), cfg))
  }

  /** Timestamps change only the audit logs: the output file and the flushes do not depend on them. */
  lemma {:induction false} StampsOnlyAudit(input: seq<byte>, i: nat, k: nat,
                                           clock1: nat -> seq<byte>, clock2: nat -> seq<byte>,
                                           cfg: Config, s1: Sinks, s2: Sinks)
    requires i <= |input| && s1.out == s2.out && s1.flushes == s2.flushes
    ensures RunFrom(input, i, k, clock1, cfg, s1).out == RunFrom(input, i, k, clock2, cfg, s2).out
    ensures RunFrom(input, i, k, clock1, cfg, s1).flushes == RunFrom(input, i, k, clock2, cfg, s2).flushes
    decreases |input| - i
  {
    match Scan(input, i, [])
    case EndOfFile =>
    case Line(stored, lf, next) =>
      var d := Process(stored, lf);
      StampsOnlyAudit(input, next, k + 1, clock1, clock2, cfg,
                      Route(s1, d, clock1(k), cfg), Route(s2, d, clock2(k), cfg));
  }

  /** Over a whole run the "all" log holds, as a multiset of bytes, exactly the bytes of the "ok" and "wrong" logs. */
  lemma {:induction false} RunBalanced(input: seq<byte>, i: nat, k: nat, clock: nat -> seq<byte>, cfg: Config, s: Sinks)
    requires i <= |input| && Balanced(s)
    ensures Balanced(RunFrom(input, i, k, clock, cfg, s))
    decreases |input| - i
  {
    match Scan(input, i, [])
    case EndOfFile =>
    case Line(stored, lf, next) =>
      RouteKeeps(s, Process(stored, lf), clock(k), cfg);
      RunBalanced(input, next, k + 1, clock, cfg, Route(s, Process(stored, lf), clock(k), cfg));
  }

  /**
   * Without timestamps, and with an output file and the logs open, the
   * "ok" log is byte for byte the output file.
   */
  lemma {:induction false} OkLogMirrorsOutput(input: seq<byte>, i: nat, k: nat, clock: nat -> seq<byte>, s: Sinks)
    requires i <= |input| && s.ok == s.out
    requires forall j :: clock(j) == []
    ensures var r := RunFrom(input, i, k, clock, Config(FileOutput, true), s); r.ok == r.out
    decreases |input| - i
  {
    match Scan(input, i, [])
    case EndOfFile =>
    case Line(stored, lf, next) =>
      var r := Route(s, Process(stored, lf), clock(k), Config(FileOutput, true));
      assert clock(k) == [];
      RunOkMirrorsStep(s, Process(stored, lf));
      OkLogMirrorsOutput(input, next, k + 1, clock, r);
  }

  lemma RunOkMirrorsStep(s: Sinks, d: Disposition)
    requires s.ok == s.out
    ensures var r := Route(s, d, [], Config(FileOutput, true)); r.ok == r.out
  {
    match d
    case Dropped =>
    case Valid(text) => assert s.ok + [] + text == s.out + text;
    case Invalid(text) =>
  }

  /**
   * A final line with no LF that cannot fill the buffer is never routed:
   * the run over `a` followed by it equals the run over `a` alone, when `a`
   * ends with an LF.
   */
  lemma {:induction false} TrailingFragmentIgnored(a: seq<byte>, t: seq<byte>, i: nat, k: nat,
                                                   clock: nat -> seq<byte>, cfg: Config, s: Sinks)
    requires |a| == 0 || a[|a| - 1] == LF
    requires LF !in t && |NonZero(t)| < CAP
    requires i <= |a|
    ensures RunFrom(a + t, i, k, clock, cfg, s) == RunFrom(a, i, k, clock, cfg, s)
    decreases |a| - i
  {
    if i == |a| {
      assert (a + t)[i..] == t;
      ScanEndOfFile(a + t, i, []);
    } else {
      assert a[|a| - 1] == a[i..][|a| - 1 - i];
      ScanExtended(a, t, i, []);
      match Scan(a, i, [])
      case Line(stored, lf, next) =>
        TrailingFragmentIgnored(a, t, next, k + 1, clock, cfg, Route(s, Process(stored, lf), clock(k), cfg));
    }
  }
}
