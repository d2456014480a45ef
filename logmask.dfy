// The process-wide syslog priority mask behind the -v option: initLogging resets it
// to "warning and above", raiseVerbosity lets one more priority level through.

module LogMask {

  /** syslog priorities (glibc's <syslog.h>). */
  const LOG_WARNING: nat := 4
  const LOG_DEBUG: nat := 7
  const LOG_PRIMASK: nat := 7

  /** The mask glibc starts a process with: every priority enabled. */
  const INITIAL_MASK: int := 0xFF

  function Pow2(k: nat): (p: nat)
    ensures p >= 1
  {
    if k == 0 then 1 else 2 * Pow2(k - 1)
  }

  /** LOG_UPTO(p) = (1 << (p + 1)) - 1: the bits of priorities 0 through p. */
  function LogUpTo(p: nat): nat
  {
    Pow2(p + 1) - 1
  }

  /** Allowing one more priority adds exactly one low bit after a shift. */
  lemma LogUpToStep(p: nat)
    ensures LogUpTo(p + 1) == 2 * LogUpTo(p) + 1
  {
  }

  lemma LogUpToValues()
    ensures LogUpTo(LOG_WARNING) == 0x1F
    ensures LogUpTo(5) == 0x3F && LogUpTo(6) == 0x7F
    ensures LogUpTo(LOG_DEBUG) == LogUpTo(LOG_PRIMASK) == 0xFF
  {
  }

  /** The mask after one raiseVerbosity: the candidate (mask << 1) + 1 when it stays within
      LOG_UPTO(LOG_PRIMASK), the old mask otherwise. */
  function Raised(mask: int): int
  {
    var p := mask * 2 + 1;
    if LogUpTo(LOG_PRIMASK) >= p then p else mask
  }

  /** A raise changes the mask exactly when the candidate fits; it never lowers it and never
      leaves the range of valid masks. */
  lemma RaisedBounds(mask: int)
    requires 0 <= mask <= 0xFF
    ensures Raised(mask) != mask <==> 2 * mask + 1 <= 0xFF
    ensures mask <= Raised(mask) <= 0xFF
  {
    LogUpToValues();
  }

  /** Once every priority is let through, further raises change nothing. */
  lemma RaisedAtDebug()
    ensures Raised(LogUpTo(LOG_DEBUG)) == LogUpTo(LOG_DEBUG)
  {
    LogUpToValues();
  }

  /** The mask after `n` raises starting from `mask`. */
  function RaisedTimes(mask: int, n: nat): int
    decreases n
  {
    if n == 0 then mask else RaisedTimes(Raised(mask), n - 1)
  }

  /** From a mask letting priorities up to p through, n raises let priorities up to
      min(p + n, LOG_DEBUG) through. */
  lemma {:induction false} RaisesFrom(p: nat, n: nat)
    requires p <= LOG_DEBUG
    ensures RaisedTimes(LogUpTo(p), n) == LogUpTo(if p + n < LOG_DEBUG then p + n else LOG_DEBUG)
    decreases n
  {
    if n > 0 {
      LogUpToValues();
      if p < LOG_DEBUG {
        LogUpToStep(p);
        assert Raised(LogUpTo(p)) == LogUpTo(p + 1) by {
          assert LogUpTo(p) <= LogUpTo(6) by {
            LogUpToMonotone(p, 6);
          }
        }
        RaisesFrom(p + 1, n - 1);
      } else {
        RaisesFrom(p, n - 1);
      }
    }
  }

  lemma {:induction false} LogUpToMonotone(p: nat, p': nat)
    requires p <= p'
    ensures LogUpTo(p) <= LogUpTo(p')
  {
    if p < p' {
      LogUpToMonotone(p, p' - 1);
      LogUpToStep(p' - 1);
    }
  }

  /** From initLogging, the raises give 0x3F, 0x7F, 0xFF, and 0xFF from then on. */
  lemma RaisesFromInit(n: nat)
    ensures n == 1 ==> RaisedTimes(LogUpTo(LOG_WARNING), n) == 0x3F
    ensures n == 2 ==> RaisedTimes(LogUpTo(LOG_WARNING), n) == 0x7F
    ensures n >= 3 ==> RaisedTimes(LogUpTo(LOG_WARNING), n) == LogUpTo(LOG_DEBUG) == 0xFF
  {
    RaisesFrom(LOG_WARNING, n);
    LogUpToValues();
  }

  /** Any number of raises from a valid mask keeps it valid and never lowers it. */
  lemma {:induction false} RaisedTimesMonotone(mask: int, n: nat)
    requires 0 <= mask <= 0xFF
    ensures mask <= RaisedTimes(mask, n) <= 0xFF
    decreases n
  {
    if n > 0 {
      RaisedBounds(mask);
      RaisedTimesMonotone(Raised(mask), n - 1);
    }
  }

  /** The syslog mask of the process, as setlogmask reads and writes it. */
  class Logging {
    var mask: int

    constructor ()
      ensures mask == INITIAL_MASK
    {
      mask := INITIAL_MASK;
    }

    /** setlogmask(m): returns the previous mask; a zero argument leaves the mask as it is. */
    method SetLogMask(m: int) returns (previous: int)
      modifies this
      ensures previous == old(mask)
      ensures mask == if m != 0 then m else old(mask)
    {
      previous := mask;
      if m != 0 {
        mask := m;
      }
    }

    /** initLogging: let through priorities up to LOG_WARNING. */
    method InitLogging()
      modifies this
      ensures mask == LogUpTo(LOG_WARNING) == 0x1F
    {
      LogUpToValues();
      var _ := SetLogMask(LogUpTo(LOG_WARNING));
    }

    /** raiseVerbosity: read the mask with setlogmask(0), shift one more bit in, and store the
        candidate only while it stays within LOG_UPTO(LOG_PRIMASK). */
    method RaiseVerbosity()
      modifies this
      ensures mask == Raised(old(mask))
    {
      var current := SetLogMask(0);
      var p := current * 2 + 1;
      if LogUpTo(LOG_PRIMASK) >= p {
        var _ := SetLogMask(p);
      }
    }
  }
}
