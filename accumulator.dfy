/** The accumulator: the time since the session started and the new
    lifetime total, which is that time plus the total read back from the
    log. The clock reading is a parameter. Neither value is clamped: a
    clock that went backwards gives a negative elapsed time and a total
    below the stored one. */
module Accumulator {
  import opened Text
  import opened Store

  /** `get_time_today`: milliseconds since the session started. */
  function TimeToday(now: int, start: int): int {
    now - start
  }

  /** The total `get_total_time` computes from a previous total. */
  function NewTotal(now: int, start: int, previous: int): int {
    TimeToday(now, start) + previous
  }

  /** `get_total_time`: reads the log (creating it when missing), parses it
      leniently and adds the time since the session started. */
  method TotalTime(store: LogFile, start: int, now: int) returns (total: int)
    modifies store
    ensures total == NewTotal(now, start, StoredTotal(old(store.slot)))
    ensures store.slot == SlotAfterRead(old(store.slot))
    ensures store.writes == old(store.writes)
  {
    var text := store.Read();
    var previous := ParsePrevious(text);
    total := now - start + previous;
  }

  /** The tick rule of `get_time_hourly`: at least `interval` seconds have
      passed since the session started. */
  predicate Fires(elapsed: int, interval: int) {
    elapsed >= interval * 1000
  }

  /** Elapsed time is never clamped: it is negative exactly when the clock
      reads before the start, and then the new total is below the previous. */
  lemma ElapsedNotClamped(now: int, start: int, previous: int)
    ensures TimeToday(now, start) < 0 <==> now < start
    ensures now < start ==> NewTotal(now, start, previous) < previous
    ensures NewTotal(now, start, previous) - previous == TimeToday(now, start)
  {
  }

  /** Recomputing the total at the same instant after a read (which can only
      create an empty log) yields the same value. */
  lemma TotalRecomputes(slot: Option<string>, now: int, start: int)
    ensures NewTotal(now, start, StoredTotal(SlotAfterRead(slot))) == NewTotal(now, start, StoredTotal(slot))
  {
    ReadKeepsTotal(slot);
  }

  /** The new total grows with the clock and with the stored total. */
  lemma NewTotalMonotone(now1: int, now2: int, start: int, previous1: int, previous2: int)
    requires now1 <= now2 && previous1 <= previous2
    ensures NewTotal(now1, start, previous1) <= NewTotal(now2, start, previous2)
  {
  }

  /** Once a poll fires, every poll at a later clock reading fires too:
      the rule measures from the session start, which is never moved. */
  lemma FiringPersists(start: int, now1: int, now2: int, interval: int)
    requires now1 <= now2 && Fires(TimeToday(now1, start), interval)
    ensures Fires(TimeToday(now2, start), interval)
  {
  }
}
