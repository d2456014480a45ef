// Start-up: the command-line options main reads before it starts serving, the
// checks it makes on them, and the two uid ranges it installs.

module Startup {
  import opened CLib
  import opened NetInfo
  import opened LogMask

  const PORT: nat := 14013
  const REAL_UID_MIN: Uid := 1000
  const REAL_UID_MAX: Uid := 65533

  /** unsigned long is 64 bits wide. */
  const ULONG_LIMIT: nat := 0x1_0000_0000_0000_0000

  /** An option as getopt_long delivers it. A numeric argument is the long strtol returned, or
      None when strtol reported an error. Help is what --help delivers; the short option string
      has no 'h', so -h is reported as unknown, like every other getopt result (Unknown). */
  datatype Opt =
    | Verbose
    | Domain(name: seq<char>)
    | PortArg(value: Option<int>)
    | UminArg(value: Option<int>)
    | UmaxArg(value: Option<int>)
    | Help
    | Unknown

  /** A range of uids add_uid_range declares as real users, bounds included. */
  datatype UidRange = UidRange(lo: Uid, hi: Uid)

  /** What main ends in: serving on a port with the ranges installed and the domain arguments
      handed to set_default_domain (in order), or returning an exit code. */
  datatype Outcome =
    | Serve(port: nat, ranges: seq<UidRange>, domains: seq<seq<char>>)
    | Exit(code: int)

  /** main's variables while it reads the options. */
  datatype Settings = Settings(port: nat, umin: Uid, umax: Uid, domains: seq<seq<char>>)

  function Defaults(): Settings
  {
    Settings(PORT, REAL_UID_MIN, REAL_UID_MAX, [])
  }

  /** The port check: the long is stored in an unsigned long and must lie in 1..65535. */
  predicate PortInRange(v: int)
  {
    1 <= v % ULONG_LIMIT <= 65535
  }

  /** The options that make main return at once, whatever it has read before. */
  predicate Stops(o: Opt)
  {
    match o
    case Verbose => false
    case Domain(_) => false
    case PortArg(v) => v.None? || !PortInRange(v.value)
    case UminArg(v) => v.None?
    case UmaxArg(v) => v.None?
    case Help => true
    case Unknown => true
  }

  /** The exit code of an option that stops main: 0 for help, 1 for every error. */
  function StopCode(o: Opt): int
    requires Stops(o)
  {
    if o.Help? then 0 else 1
  }

  /** The effect of an option that does not stop main on its variables. */
  function Apply(s: Settings, o: Opt): Settings
    requires !Stops(o)
  {
    match o
    case Verbose => s
    case Domain(name) => s.(domains := s.domains + [name])
    case PortArg(v) => s.(port := v.value % ULONG_LIMIT)
    case UminArg(v) => s.(umin := v.value % UID_LIMIT)
    case UmaxArg(v) => s.(umax := v.value % UID_LIMIT)
  }

  /** Reading the remaining options from the given variables. */
  function Read(s: Settings, opts: seq<Opt>): Outcome
    decreases |opts|
  {
    if opts == [] then
      if s.umin > s.umax then Exit(1)
      else Serve(s.port, [UidRange(s.umin, s.umax), UidRange(65537, 0xFFFF_FFFF)], s.domains)
    else if Stops(opts[0]) then Exit(StopCode(opts[0]))
    else Read(Apply(s, opts[0]), opts[1..])
  }

  /** What main does with the options getopt_long delivers. */
  function MainOutcome(opts: seq<Opt>): Outcome
  {
    Read(Defaults(), opts)
  }

  /** How many -v options main acts on: those before the first option that stops it. */
  function Raises(opts: seq<Opt>): nat
    decreases |opts|
  {
    if opts == [] || Stops(opts[0]) then 0
    else (if opts[0].Verbose? then 1 else 0) + Raises(opts[1..])
  }

  /** main up to SocketServer: initialise logging, read the options, check the uid bounds and
      install the two uid ranges. */
  method RunMain(opts: seq<Opt>, log: Logging) returns (outcome: Outcome)
    modifies log
    ensures outcome == MainOutcome(opts)
    ensures log.mask == RaisedTimes(LogUpTo(LOG_WARNING), Raises(opts))
  {
    var umin: Uid, umax: Uid := REAL_UID_MIN, REAL_UID_MAX;
    var port: nat := PORT;
    var domains: seq<seq<char>> := [];
    log.InitLogging();
    var i := 0;
    while i < |opts|
      invariant i <= |opts|
      invariant MainOutcome(opts) == Read(Settings(port, umin, umax, domains), opts[i..])
      invariant RaisedTimes(LogUpTo(LOG_WARNING), Raises(opts)) == RaisedTimes(log.mask, Raises(opts[i..]))
    {
      assert opts[i..][0] == opts[i] && opts[i..][1..] == opts[i + 1..];
      match opts[i] {
      case Verbose =>
        log.RaiseVerbosity();
      case Domain(name) =>
        domains := domains + [name];   // recorded for the default-domain service
      case PortArg(v) =>
        if v.None? {
          outcome := Exit(1);
          return;
        }
        port := v.value % ULONG_LIMIT;
        if 1 > port || 65535 < port {
          outcome := Exit(1);
          return;
        }
      case UminArg(v) =>
        if v.None? {
          outcome := Exit(1);
          return;
        }
        umin := v.value % UID_LIMIT;
      case UmaxArg(v) =>
        if v.None? {
          outcome := Exit(1);
          return;
        }
        umax := v.value % UID_LIMIT;
      case Help =>
        outcome := Exit(0);
        return;
      case Unknown =>
        outcome := Exit(1);
        return;
      }
      i := i + 1;
    }
    if umin > umax {
      outcome := Exit(1);
      return;
    }
    outcome := Serve(port, [UidRange(umin, umax), UidRange(65537, 0xFFFF_FFFF)], domains);
  }

  // ---------------------------------------------------------------------------
  // What main promises

  /** With no options main serves on port 14013 with uids 1000..65533 and 65537..(uid_t)-1. */
  lemma DefaultsServe()
    ensures MainOutcome([]) == Serve(14013, [UidRange(1000, 65533), UidRange(65537, 0xFFFF_FFFF)], [])
  {
  }

  /** Whenever main goes on to serve, the port is in 1..65535 and exactly two ranges are
      installed, in order: [umin, umax] with umin <= umax, then [65537, (uid_t)-1]. */
  lemma {:induction false} ServeShape(s: Settings, opts: seq<Opt>)
    requires 1 <= s.port <= 65535
    ensures var o := Read(s, opts);
      o.Serve? ==>
        && 1 <= o.port <= 65535
        && |o.ranges| == 2
        && o.ranges[0].lo <= o.ranges[0].hi
        && o.ranges[1] == UidRange(65537, 0xFFFF_FFFF)
    decreases |opts|
  {
    if opts != [] && !Stops(opts[0]) {
      ServeShape(Apply(s, opts[0]), opts[1..]);
    }
  }

  /** A -p value is accepted exactly when it lies in 1..65535 as an unsigned long, and reading
      then goes on with that port; a negative one wraps to a huge value and is refused. */
  lemma PortOption(v: int, rest: seq<Opt>)
    ensures !PortInRange(v) ==> MainOutcome([PortArg(Some(v))] + rest) == Exit(1)
    ensures PortInRange(v) ==>
      MainOutcome([PortArg(Some(v))] + rest) == Read(Defaults().(port := v % ULONG_LIMIT), rest)
    ensures PortInRange(v) && rest == [] ==> MainOutcome([PortArg(Some(v))] + rest).Serve?
    ensures PortInRange(v) && rest == [] ==> MainOutcome([PortArg(Some(v))] + rest).port == v % ULONG_LIMIT
    ensures !PortInRange(-1) && !PortInRange(0) && !PortInRange(65536) && PortInRange(65535)
  {
    var opts := [PortArg(Some(v))] + rest;
    assert opts[0] == PortArg(Some(v)) && opts[1..] == rest;
    if PortInRange(v) {
      assert MainOutcome(opts) == Read(Defaults().(port := v % ULONG_LIMIT), rest);
    }
  }

  /** umin > umax (as uids) makes main return 1; otherwise [umin, umax] is the first range. */
  lemma UidBounds(umin: int, umax: int)
    ensures var o := MainOutcome([UminArg(Some(umin)), UmaxArg(Some(umax))]);
      && (umin % UID_LIMIT > umax % UID_LIMIT ==> o == Exit(1))
      && (umin % UID_LIMIT <= umax % UID_LIMIT ==>
            o.Serve? && |o.ranges| == 2 && o.ranges[0] == UidRange(umin % UID_LIMIT, umax % UID_LIMIT))
  {
    var opts := [UminArg(Some(umin)), UmaxArg(Some(umax))];
    var s1 := Defaults().(umin := umin % UID_LIMIT);
    var s := s1.(umax := umax % UID_LIMIT);
    assert opts[1..] == [UmaxArg(Some(umax))] && opts[1..][1..] == [];
    assert MainOutcome(opts) == Read(s1, opts[1..]);
    assert Read(s1, opts[1..]) == Read(s, []);
  }

  /** The first option that stops main decides the exit code; later options are never read. */
  lemma {:induction false} FirstStopDecides(s: Settings, before: seq<Opt>, o: Opt, after: seq<Opt>)
    requires forall k :: 0 <= k < |before| ==> !Stops(before[k])
    requires Stops(o)
    ensures Read(s, before + [o] + after) == Exit(StopCode(o))
    decreases |before|
  {
    if before == [] {
      assert (before + [o] + after)[0] == o;
    } else {
      assert (before + [o] + after)[1..] == before[1..] + [o] + after;
      FirstStopDecides(Apply(s, before[0]), before[1..], o, after);
    }
  }

  /** -v given n times before anything stops main leaves the mask at
      LOG_UPTO(min(LOG_WARNING + n, LOG_DEBUG)): -vvv and more let everything through. */
  lemma {:induction false} VerboseCount(n: nat)
    ensures Raises(seq(n, _ => Verbose)) == n
    ensures RaisedTimes(LogUpTo(LOG_WARNING), Raises(seq(n, _ => Verbose)))
         == LogUpTo(if LOG_WARNING + n < LOG_DEBUG then LOG_WARNING + n else LOG_DEBUG)
  {
    if n > 0 {
      VerboseCount(n - 1);
      assert seq(n, _ => Verbose)[1..] == seq(n - 1, _ => Verbose);
    }
    RaisesFrom(LOG_WARNING, n);
  }
}
