/**
 * The filesystem as both tools see it: one directory whose files each carry
 * a modification timestamp. Writing a timestamp fails for a file that does
 * not exist or whose timestamp cannot be changed (`locked`).
 */
module Files {
  import opened DateTimes

  /** File.lastModified(): the stored timestamp, or 0 ms (the epoch) for a missing file. */
  function LastModifiedIn(stamps: map<string, DateTime>, name: string): DateTime {
    if name in stamps then stamps[name] else Epoch
  }

  /** Whether File.setLastModified succeeds on `name`. */
  predicate CanWriteIn(stamps: map<string, DateTime>, locked: set<string>, name: string) {
    name in stamps && name !in locked
  }

  /** Every stored timestamp is a LocalDateTime. */
  predicate AllValid(stamps: map<string, DateTime>) {
    forall name :: name in stamps ==> stamps[name].Valid()
  }

  /** How a call of File.setLastModified ends: true, false, or IllegalArgumentException("Negative time"). */
  datatype WriteOutcome = Written | NotWritten | NegativeTime

  /** File.setLastModified checks for a negative time first, and only then whether the file can be written. */
  function WriteOutcomeIn(stamps: map<string, DateTime>, locked: set<string>, name: string, t: DateTime): WriteOutcome {
    if BeforeEpoch(t) then NegativeTime
    else if CanWriteIn(stamps, locked, name) then Written
    else NotWritten
  }

  class Folder {
    var stamps: map<string, DateTime>
    const locked: set<string>

    constructor (stamps: map<string, DateTime>, locked: set<string>)
      ensures this.stamps == stamps && this.locked == locked
    {
      this.stamps := stamps;
      this.locked := locked;
    }

    function LastModified(name: string): (t: DateTime)
      reads this
      ensures name in stamps ==> t == stamps[name]
      ensures name !in stamps ==> t == Epoch
    {
      LastModifiedIn(stamps, name)
    }

    /**
     * File.setLastModified: a time before the epoch throws whatever the file;
     * otherwise only `name`'s timestamp changes when the write succeeds, and
     * nothing changes when it fails.
     */
    method SetLastModified(name: string, t: DateTime) returns (outcome: WriteOutcome)
      modifies this
      ensures outcome.NegativeTime? <==> BeforeEpoch(t)
      ensures outcome.Written? <==> !BeforeEpoch(t) && CanWriteIn(old(stamps), locked, name)
      ensures stamps == if outcome.Written? then old(stamps)[name := t] else old(stamps)
    {
      if BeforeEpoch(t) {
        return NegativeTime;
      }
      if CanWriteIn(stamps, locked, name) {
        stamps := stamps[name := t];
        outcome := Written;
      } else {
        outcome := NotWritten;
      }
    }
  }
}
