/** The session controller: the hourly tick, the final save of the
    `Cleanup` guard and the `main` function, with the clock readings, the
    stop flag and the command-line arguments as inputs. */
module Session {
  import opened Text
  import opened Store
  import opened Reporter
  import opened Accumulator

  /** `main` passes `1 * 60 * 60` seconds to `get_time_hourly`. */
  const HourlyInterval: int := 1 * 60 * 60

  /** What one report prints: the session's elapsed time, the new total and
      the badge of that total. */
  datatype Report = Report(elapsed: string, total: string, badge: nat)

  predicate Describes(r: Report, elapsed: int, total: int) {
    r.elapsed == DurationText(elapsed) && r.total == DurationText(total) && r.badge == Badge(total)
  }

  /** `get_time_hourly`: when at least `interval` seconds have passed since
      the start, prints the elapsed time, computes the new total, saves it
      and prints it with its badge; otherwise does nothing. */
  method TimeHourly(store: LogFile, start: int, now: int, interval: int) returns (report: Option<Report>)
    modifies store
    ensures report.Some? <==> Fires(TimeToday(now, start), interval)
    ensures report.None? ==> store.slot == old(store.slot) && store.writes == old(store.writes)
    ensures report.Some? ==>
      var total := NewTotal(now, start, StoredTotal(old(store.slot)));
      store.slot == Some(SaveText(total)) && store.writes == old(store.writes) + [total] &&
      Describes(report.value, TimeToday(now, start), total)
  {
    if TimeToday(now, start) >= interval * 1000 {
      var elapsed := TimeToday(now, start);
      var elapsedText := ConvertTime(elapsed);
      var total := TotalTime(store, start, now);
      store.Save(total);
      var totalText := ConvertTime(total);
      report := Some(Report(elapsedText, totalText, Badge(total)));
    } else {
      report := None;
    }
  }

  /** `stop_logging`: prints the session's time, then computes, saves and
      prints the new total with its badge, unconditionally. */
  method StopLogging(store: LogFile, start: int, now: int) returns (report: Report)
    modifies store
    ensures var total := NewTotal(now, start, StoredTotal(old(store.slot)));
      store.slot == Some(SaveText(total)) && store.writes == old(store.writes) + [total] &&
      Describes(report, TimeToday(now, start), total)
  {
    var todayText := ConvertTime(TimeToday(now, start));
    var total := TotalTime(store, start, now);
    store.Save(total);
    var totalText := ConvertTime(total);
    report := Report(todayText, totalText, Badge(total));
  }

  /** The guard `main` builds after reading the start time. */
  datatype Cleanup = Cleanup(startTime: int)

  /** `Drop for Cleanup`: the final `stop_logging` from the guard's start time. */
  method Drop(guard: Cleanup, store: LogFile, now: int) returns (report: Report)
    modifies store
    ensures var total := NewTotal(now, guard.startTime, StoredTotal(old(store.slot)));
      store.slot == Some(SaveText(total)) && store.writes == old(store.writes) + [total] &&
      Describes(report, TimeToday(now, guard.startTime), total)
  {
    report := StopLogging(store, guard.startTime, now);
  }

  /** The stored total after hourly polls at the clock readings `ticks`,
      starting from the stored total `stored`. */
  function StoredAfter(stored: int, start: int, ticks: seq<int>, interval: int): int
    decreases |ticks|
  {
    if ticks == [] then stored
    else
      var before := StoredAfter(stored, start, ticks[..|ticks| - 1], interval);
      var now := ticks[|ticks| - 1];
      if Fires(TimeToday(now, start), interval) then NewTotal(now, start, before) else before
  }

  /** The values the hourly polls at `ticks` save, in order. */
  function HourlySaves(stored: int, start: int, ticks: seq<int>, interval: int): seq<int>
    decreases |ticks|
  {
    if ticks == [] then []
    else
      var prefix := ticks[..|ticks| - 1];
      var now := ticks[|ticks| - 1];
      HourlySaves(stored, start, prefix, interval) +
        if Fires(TimeToday(now, start), interval)
        then [NewTotal(now, start, StoredAfter(stored, start, prefix, interval))]
        else []
  }

  /** The last hourly save is what the log then holds. */
  lemma {:induction false} LastSaveIsStored(stored: int, start: int, ticks: seq<int>, interval: int)
    ensures var saves := HourlySaves(stored, start, ticks, interval);
      StoredAfter(stored, start, ticks, interval) == if saves == [] then stored else saves[|saves| - 1]
    decreases |ticks|
  {
    if ticks != [] {
      LastSaveIsStored(stored, start, ticks[..|ticks| - 1], interval);
    }
  }

  /** Each save adds the session's whole elapsed time to a total that
      already holds the earlier saves of the same session, so after `k`
      saves the stored total has grown by at least `k` intervals. */
  lemma {:induction false} SavesCompound(stored: int, start: int, ticks: seq<int>, interval: int)
    requires interval >= 0
    ensures StoredAfter(stored, start, ticks, interval) >=
      stored + |HourlySaves(stored, start, ticks, interval)| * (interval * 1000)
    decreases |ticks|
  {
    if ticks != [] {
      var prefix := ticks[..|ticks| - 1];
      SavesCompound(stored, start, prefix, interval);
      var k := |HourlySaves(stored, start, prefix, interval)|;
      assert (k + 1) * (interval * 1000) == k * (interval * 1000) + interval * 1000;
    }
  }

  /** The session's elapsed times at the polls that fire, summed. */
  function FiredElapsed(start: int, ticks: seq<int>, interval: int): int
    decreases |ticks|
  {
    if ticks == [] then 0
    else
      var now := ticks[|ticks| - 1];
      FiredElapsed(start, ticks[..|ticks| - 1], interval) +
        if Fires(TimeToday(now, start), interval) then TimeToday(now, start) else 0
  }

  /** The stored total after the polls is the initial total plus the whole
      elapsed time at every firing poll: the saves compound rather than
      replace one another. */
  lemma {:induction false} StoredAfterSum(stored: int, start: int, ticks: seq<int>, interval: int)
    ensures StoredAfter(stored, start, ticks, interval) == stored + FiredElapsed(start, ticks, interval)
    decreases |ticks|
  {
    if ticks != [] {
      StoredAfterSum(stored, start, ticks[..|ticks| - 1], interval);
    }
  }

  /** Once the first poll fires, every later poll (at a clock reading no
      earlier) saves too: the tick timer is never reset. */
  lemma {:induction false} EveryLaterPollSaves(stored: int, start: int, ticks: seq<int>, interval: int)
    requires ticks != [] && Fires(TimeToday(ticks[0], start), interval)
    requires forall k :: 0 < k < |ticks| ==> ticks[k - 1] <= ticks[k]
    ensures |HourlySaves(stored, start, ticks, interval)| == |ticks|
    decreases |ticks|
  {
    var prefix := ticks[..|ticks| - 1];
    if prefix != [] {
      EveryLaterPollSaves(stored, start, prefix, interval);
    }
    AllAfterFirst(ticks, |ticks| - 1);
    FiringPersists(start, ticks[0], ticks[|ticks| - 1], interval);
  }

  lemma {:induction false} AllAfterFirst(ticks: seq<int>, k: nat)
    requires k < |ticks|
    requires forall j :: 0 < j < |ticks| ==> ticks[j - 1] <= ticks[j]
    ensures ticks[0] <= ticks[k]
  {
    if k > 0 {
      AllAfterFirst(ticks, k - 1);
    }
  }

  /** With two polls 100 ms apart just after the first hour and a stop
      100 ms later, an empty log ends up holding three hours, not one:
      both polls save and every save adds the full session time again. */
  lemma CompoundingExample()
    ensures HourlySaves(0, 0, [3600000, 3600100], HourlyInterval) == [3600000, 7200100]
    ensures NewTotal(3600200, 0, StoredAfter(0, 0, [3600000, 3600100], HourlyInterval)) == 10800300
  {
    assert [3600000, 3600100][..1] == [3600000];
    assert [3600000][..0] == [];
  }

  /** One observation of the poll loop: the value the shared flag was read
      as and, when it was still set, the clock reading of the poll after
      the 100 ms sleep. */
  datatype Poll = Poll(running: bool, now: int)

  /** The clock readings of the polls that run before the flag is first
      seen cleared. */
  function TicksBeforeStop(polls: seq<Poll>): seq<int> {
    if polls == [] || !polls[0].running then [] else [polls[0].now] + TicksBeforeStop(polls[1..])
  }

  /** When the flag is first seen cleared at observation `i`, the polls that
      ran are exactly the `i` before it, with their clock readings. */
  lemma {:induction false} TicksBeforeStopAt(polls: seq<Poll>, i: nat, ticks: seq<int>)
    requires i < |polls| && !polls[i].running && |ticks| == i
    requires forall k :: 0 <= k < i ==> polls[k].running && ticks[k] == polls[k].now
    ensures TicksBeforeStop(polls) == ticks
    decreases i
  {
    if i > 0 {
      TicksBeforeStopAt(polls[1..], i - 1, ticks[1..]);
      assert ticks == [polls[0].now] + ticks[1..];
    }
  }

  /** The stop signal arrives: some load of the flag reads it cleared. */
  predicate StopObserved(polls: seq<Poll>) {
    exists j :: 0 <= j < |polls| && !polls[j].running
  }

  /** `args.len() > 1 && args[1] == "reset"` (the program name is `args[0]`). */
  predicate IsResetCommand(args: seq<string>) {
    |args| > 1 && args[1] == "reset"
  }

  /** Each report announces the total of the save it follows, with its badge. */
  predicate Announces(reports: seq<Report>, saved: seq<int>)
    decreases |reports|
  {
    |reports| == |saved| &&
    (reports == [] ||
     (Announces(reports[..|reports| - 1], saved[..|saved| - 1]) &&
      Announced(reports[|reports| - 1], saved[|saved| - 1])))
  }

  predicate Announced(r: Report, total: int) {
    r.total == DurationText(total) && r.badge == Badge(total)
  }

  /** One more report for one more save. */
  lemma AnnouncesAppend(reports: seq<Report>, saved: seq<int>, r: Report, total: int)
    requires Announces(reports, saved) && Announced(r, total)
    ensures Announces(reports + [r], saved + [total])
  {
    assert (reports + [r])[..|reports|] == reports;
    assert (saved + [total])[..|saved|] == saved;
  }

  /** What the log holds after the saves `saves`: the text of the last one,
      or what it held before when there was none. */
  function LogAfter(slot: Option<string>, saves: seq<int>): Option<string> {
    if saves == [] then slot else Some(SaveText(saves[|saves| - 1]))
  }

  /** The `while running.load(..)` loop of `main`: one hourly poll per
      observation of the flag still set, until it is seen cleared. */
  method PollUntilStopped(store: LogFile, start: int, polls: seq<Poll>) returns (reports: seq<Report>)
    requires StopObserved(polls)
    modifies store
    ensures var base := StoredTotal(old(store.slot));
      var ticks := TicksBeforeStop(polls);
      var saves := HourlySaves(base, start, ticks, HourlyInterval);
      StoredTotal(store.slot) == StoredAfter(base, start, ticks, HourlyInterval) &&
      store.slot == LogAfter(old(store.slot), saves) &&
      store.writes == old(store.writes) + saves
    ensures Announces(reports, HourlySaves(StoredTotal(old(store.slot)), start, TicksBeforeStop(polls), HourlyInterval))
  {
    ghost var slot := store.slot;
    ghost var base := StoredTotal(store.slot);
    ghost var written := store.writes;
    ghost var stop :| 0 <= stop < |polls| && !polls[stop].running;
    ghost var done: seq<int> := [];
    reports := [];
    var i := 0;
    while polls[i].running
      invariant 0 <= i <= stop && |done| == i
      invariant forall k :: 0 <= k < i ==> polls[k].running && done[k] == polls[k].now
      invariant store.slot == LogAfter(slot, HourlySaves(base, start, done, HourlyInterval))
      invariant store.writes == written + HourlySaves(base, start, done, HourlyInterval)
      invariant Announces(reports, HourlySaves(base, start, done, HourlyInterval))
      decreases stop - i
    {
      assert i < stop;
      var now := polls[i].now;
      ghost var done' := done + [now];
      assert forall k :: 0 <= k < i + 1 ==> polls[k].running && done'[k] == polls[k].now;
      reports := PollOnce(store, start, now, base, done, slot, written, reports);
      done := done';
      i := i + 1;
    }
    TicksBeforeStopAt(polls, i, done);
    LogAfterTotal(slot, base, start, done, HourlyInterval);
  }

  /** The total parsed from the log after hourly polls is the stored total
      they compute. */
  lemma LogAfterTotal(slot: Option<string>, base: int, start: int, ticks: seq<int>, interval: int)
    requires StoredTotal(slot) == base
    ensures StoredTotal(LogAfter(slot, HourlySaves(base, start, ticks, interval))) ==
      StoredAfter(base, start, ticks, interval)
  {
    var saves := HourlySaves(base, start, ticks, interval);
    LastSaveIsStored(base, start, ticks, interval);
    if saves != [] {
      SaveThenRead(saves[|saves| - 1]);
    }
  }

  /** One pass of the loop body, `get_time_hourly` after the sleep, stated
      on the polls so far: it extends the log, the writes and the reports
      by what one more poll at `now` does. */
  method PollOnce(store: LogFile, start: int, now: int, ghost base: int, ghost done: seq<int>,
                  ghost slot: Option<string>, ghost written: seq<int>, reports: seq<Report>)
    returns (reports': seq<Report>)
    requires StoredTotal(slot) == base
    requires store.slot == LogAfter(slot, HourlySaves(base, start, done, HourlyInterval))
    requires store.writes == written + HourlySaves(base, start, done, HourlyInterval)
    requires Announces(reports, HourlySaves(base, start, done, HourlyInterval))
    modifies store
    ensures store.slot == LogAfter(slot, HourlySaves(base, start, done + [now], HourlyInterval))
    ensures store.writes == written + HourlySaves(base, start, done + [now], HourlyInterval)
    ensures Announces(reports', HourlySaves(base, start, done + [now], HourlyInterval))
  {
    ghost var saves := HourlySaves(base, start, done, HourlyInterval);
    ghost var stored := StoredAfter(base, start, done, HourlyInterval);
    LogAfterTotal(slot, base, start, done, HourlyInterval);
    PollStep(base, start, done, now, HourlyInterval);
    var report := TimeHourly(store, start, now, HourlyInterval);
    if report.Some? {
      var total := NewTotal(now, start, stored);
      SaveThenRead(total);
      AnnouncesAppend(reports, saves, report.value, total);
      AppendAssoc(written, saves, total);
      assert (saves + [total])[|saves|] == total;
      reports' := reports + [report.value];
    } else {
      assert saves + [] == saves;
      reports' := reports;
    }
  }

  lemma AppendAssoc(a: seq<int>, b: seq<int>, x: int)
    ensures a + (b + [x]) == (a + b) + [x]
  {
  }

  /** One more poll at clock reading `now`: it saves (and so sets the
      stored total) exactly when it fires. */
  lemma PollStep(stored: int, start: int, done: seq<int>, now: int, interval: int)
    ensures var fires := Fires(TimeToday(now, start), interval);
      var total := NewTotal(now, start, StoredAfter(stored, start, done, interval));
      HourlySaves(stored, start, done + [now], interval) ==
        HourlySaves(stored, start, done, interval) + (if fires then [total] else []) &&
      StoredAfter(stored, start, done + [now], interval) ==
        (if fires then total else StoredAfter(stored, start, done, interval))
  {
    assert (done + [now])[..|done|] == done;
  }

  datatype Exit = ResetDone | Stopped | HandlerPanicked

  /** `main`. With `reset` it saves 0 and returns before any guard exists,
      so nothing else is written. Otherwise it builds the `Cleanup` guard
      from the start time and polls until the flag is cleared; the guard
      then performs the final save exactly once. A failed registration of
      the Ctrl+C handler panics after the guard exists, and unwinding still
      runs that final save. */
  method Run(store: LogFile, args: seq<string>, start: int, handlerInstalled: bool,
             polls: seq<Poll>, stopAt: int)
    returns (exit: Exit, reports: seq<Report>)
    requires StopObserved(polls)
    modifies store
    ensures IsResetCommand(args) ==>
      exit == ResetDone && reports == [] &&
      store.slot == Some("0\n") && store.writes == old(store.writes) + [0]
    ensures !IsResetCommand(args) ==>
      var base := StoredTotal(old(store.slot));
      var ticks := if handlerInstalled then TicksBeforeStop(polls) else [];
      var final := NewTotal(stopAt, start, StoredAfter(base, start, ticks, HourlyInterval));
      exit == (if handlerInstalled then Stopped else HandlerPanicked) &&
      store.writes == old(store.writes) + HourlySaves(base, start, ticks, HourlyInterval) + [final] &&
      store.slot == Some(SaveText(final)) &&
      Announces(reports, HourlySaves(base, start, ticks, HourlyInterval) + [final])
  {
    if IsResetCommand(args) {
      SaveTextZero();
      store.Save(0);
      return ResetDone, [];
    }
    var guard := Cleanup(start);
    ghost var base := StoredTotal(store.slot);
    ghost var ticks: seq<int> := [];
    if handlerInstalled {
      reports := PollUntilStopped(store, start, polls);
      ticks := TicksBeforeStop(polls);
      exit := Stopped;
    } else {
      reports := [];
      exit := HandlerPanicked;
    }
    ghost var saves := HourlySaves(base, start, ticks, HourlyInterval);
    ghost var final := NewTotal(stopAt, start, StoredAfter(base, start, ticks, HourlyInterval));
    var report := Drop(guard, store, stopAt);
    AnnouncesAppend(reports, saves, report, final);
    reports := reports + [report];
  }

  /** The tick as evidently intended: the time of the last save is kept and
      reset on each save, and the total saved is the total read at startup
      plus the session's elapsed time, so saves do not compound. */
  method TimeHourlyIntended(store: LogFile, start: int, base: int, lastTick: int, now: int, interval: int)
    returns (tick: int, report: Option<Report>)
    modifies store
    ensures report.Some? <==> Fires(TimeToday(now, lastTick), interval)
    ensures report.None? ==> tick == lastTick && store.slot == old(store.slot) && store.writes == old(store.writes)
    ensures report.Some? ==>
      tick == now && store.slot == Some(SaveText(base + TimeToday(now, start))) &&
      store.writes == old(store.writes) + [base + TimeToday(now, start)] &&
      Describes(report.value, TimeToday(now, start), base + TimeToday(now, start))
  {
    if TimeToday(now, lastTick) >= interval * 1000 {
      var elapsed := TimeToday(now, start);
      var elapsedText := ConvertTime(elapsed);
      var total := base + elapsed;
      store.Save(total);
      var totalText := ConvertTime(total);
      tick, report := now, Some(Report(elapsedText, totalText, Badge(total)));
    } else {
      tick, report := lastTick, None;
    }
  }

  /** The clock reading the tick interval is measured from: the last save,
      or the session start before any save. */
  function LastTick(start: int, saveTimes: seq<int>): int {
    if saveTimes == [] then start else saveTimes[|saveTimes| - 1]
  }

  /** Each save comes at least `interval` seconds after the one before it
      (the first one, after the session start). */
  predicate SpacedSaves(start: int, saveTimes: seq<int>, interval: int)
    decreases |saveTimes|
  {
    saveTimes == [] ||
    (var before := saveTimes[..|saveTimes| - 1];
     SpacedSaves(start, before, interval) &&
     Fires(TimeToday(saveTimes[|saveTimes| - 1], LastTick(start, before)), interval))
  }

  /** With saves spaced as intended, `k` saves take at least `k` intervals:
      a session of length `t` saves at most `t / interval` times. */
  lemma {:induction false} SpacedSavesBound(start: int, saveTimes: seq<int>, interval: int)
    requires interval >= 0 && SpacedSaves(start, saveTimes, interval)
    ensures LastTick(start, saveTimes) >= start + |saveTimes| * (interval * 1000)
    decreases |saveTimes|
  {
    if saveTimes != [] {
      var before := saveTimes[..|saveTimes| - 1];
      SpacedSavesBound(start, before, interval);
      assert |saveTimes| * (interval * 1000) == |before| * (interval * 1000) + interval * 1000;
    }
  }

  /** The values the intended tick saves at the clock readings `saveTimes`:
      each is the startup total plus the session's elapsed time. */
  function IntendedSaves(base: int, start: int, saveTimes: seq<int>): seq<int>
    decreases |saveTimes|
  {
    if saveTimes == [] then []
    else
      var before := saveTimes[..|saveTimes| - 1];
      IntendedSaves(base, start, before) + [base + TimeToday(saveTimes[|saveTimes| - 1], start)]
  }

  /** The clock readings among the polls `ticks` at which the intended tick
      saves: a poll saves exactly when an interval has passed since the last
      save kept so far (or since the start). */
  function IntendedSaveTimes(start: int, ticks: seq<int>, interval: int): seq<int>
    decreases |ticks|
  {
    if ticks == [] then []
    else
      var kept := IntendedSaveTimes(start, ticks[..|ticks| - 1], interval);
      var now := ticks[|ticks| - 1];
      if Fires(TimeToday(now, LastTick(start, kept)), interval) then kept + [now] else kept
  }

  /** The intended save times are poll readings, in poll order, and each is
      at least an interval after the one before it. */
  lemma {:induction false} IntendedSaveTimesSpaced(start: int, ticks: seq<int>, interval: int)
    ensures var saveTimes := IntendedSaveTimes(start, ticks, interval);
      SpacedSaves(start, saveTimes, interval) && |saveTimes| <= |ticks| &&
      forall t :: t in saveTimes ==> t in ticks
    decreases |ticks|
  {
    if ticks != [] {
      var prefix := ticks[..|ticks| - 1];
      var kept := IntendedSaveTimes(start, prefix, interval);
      var now := ticks[|ticks| - 1];
      IntendedSaveTimesSpaced(start, prefix, interval);
      assert forall t :: t in prefix ==> t in ticks by {
        assert ticks == prefix + [now];
      }
      assert (kept + [now])[..|kept|] == kept;
    }
  }

  /** One more poll at `now` under the intended tick keeps it as a save
      time exactly when it fires against the last save kept so far. */
  lemma IntendedStep(start: int, done: seq<int>, now: int, interval: int)
    ensures var kept := IntendedSaveTimes(start, done, interval);
      IntendedSaveTimes(start, done + [now], interval) ==
        if Fires(TimeToday(now, LastTick(start, kept)), interval) then kept + [now] else kept
  {
    assert (done + [now])[..|done|] == done;
  }

  /** One more save time adds one more intended save. */
  lemma IntendedSavesAppend(base: int, start: int, kept: seq<int>, now: int)
    ensures IntendedSaves(base, start, kept + [now]) == IntendedSaves(base, start, kept) + [base + TimeToday(now, start)]
  {
    assert (kept + [now])[..|kept|] == kept;
  }

  /** With the intended tick, polls just after the first hour save once,
      and the next save comes only once another hour has passed. */
  lemma IntendedExample()
    ensures IntendedSaveTimes(0, [3600000, 3600100, 7200000], HourlyInterval) == [3600000, 7200000]
    ensures IntendedSaves(0, 0, [3600000, 7200000]) == [3600000, 7200000]
  {
    assert [3600000, 3600100, 7200000][..2] == [3600000, 3600100];
    assert [3600000, 3600100][..1] == [3600000];
    assert [3600000][..0] == [];
    assert [3600000, 7200000][..1] == [3600000];
  }

  /** The poll loop as evidently intended: the tick is measured from the
      last save, and every save is `base` plus the elapsed time. */
  method PollIntended(store: LogFile, start: int, base: int, polls: seq<Poll>)
    returns (reports: seq<Report>)
    requires StopObserved(polls)
    modifies store
    ensures var saves := IntendedSaves(base, start, IntendedSaveTimes(start, TicksBeforeStop(polls), HourlyInterval));
      store.writes == old(store.writes) + saves &&
      store.slot == LogAfter(old(store.slot), saves) &&
      Announces(reports, saves)
  {
    ghost var slot := store.slot;
    ghost var written := store.writes;
    reports := [];
    var lastTick := start;
    ghost var stop :| 0 <= stop < |polls| && !polls[stop].running;
    ghost var done: seq<int> := [];
    var i := 0;
    while polls[i].running
      invariant 0 <= i <= stop && |done| == i
      invariant forall k :: 0 <= k < i ==> polls[k].running && done[k] == polls[k].now
      invariant lastTick == LastTick(start, IntendedSaveTimes(start, done, HourlyInterval))
      invariant store.writes == written + IntendedSaves(base, start, IntendedSaveTimes(start, done, HourlyInterval))
      invariant store.slot == LogAfter(slot, IntendedSaves(base, start, IntendedSaveTimes(start, done, HourlyInterval)))
      invariant Announces(reports, IntendedSaves(base, start, IntendedSaveTimes(start, done, HourlyInterval)))
      decreases stop - i
    {
      assert i < stop;
      var now := polls[i].now;
      ghost var done' := done + [now];
      assert forall k :: 0 <= k < i + 1 ==> polls[k].running && done'[k] == polls[k].now;
      lastTick, reports := PollOnceIntended(store, start, base, lastTick, now, done, slot, written, reports);
      done := done';
      i := i + 1;
    }
    TicksBeforeStopAt(polls, i, done);
  }

  /** One pass of the intended loop body, stated on the polls so far. */
  method PollOnceIntended(store: LogFile, start: int, base: int, lastTick: int, now: int,
                          ghost done: seq<int>, ghost slot: Option<string>, ghost written: seq<int>,
                          reports: seq<Report>)
    returns (tick: int, reports': seq<Report>)
    requires lastTick == LastTick(start, IntendedSaveTimes(start, done, HourlyInterval))
    requires store.writes == written + IntendedSaves(base, start, IntendedSaveTimes(start, done, HourlyInterval))
    requires store.slot == LogAfter(slot, IntendedSaves(base, start, IntendedSaveTimes(start, done, HourlyInterval)))
    requires Announces(reports, IntendedSaves(base, start, IntendedSaveTimes(start, done, HourlyInterval)))
    modifies store
    ensures tick == LastTick(start, IntendedSaveTimes(start, done + [now], HourlyInterval))
    ensures store.writes == written + IntendedSaves(base, start, IntendedSaveTimes(start, done + [now], HourlyInterval))
    ensures store.slot == LogAfter(slot, IntendedSaves(base, start, IntendedSaveTimes(start, done + [now], HourlyInterval)))
    ensures Announces(reports', IntendedSaves(base, start, IntendedSaveTimes(start, done + [now], HourlyInterval)))
  {
    ghost var kept := IntendedSaveTimes(start, done, HourlyInterval);
    ghost var saves := IntendedSaves(base, start, kept);
    IntendedStep(start, done, now, HourlyInterval);
    var report;
    tick, report := TimeHourlyIntended(store, start, base, lastTick, now, HourlyInterval);
    if report.Some? {
      var total := base + TimeToday(now, start);
      assert Announced(report.value, total);
      AppendAssoc(written, saves, total);
      assert store.writes == written + (saves + [total]);
      IntendedSavesAppend(base, start, kept, now);
      assert IntendedSaveTimes(start, done + [now], HourlyInterval) == kept + [now];
      AnnouncesAppend(reports, saves, report.value, total);
      assert (saves + [total])[|saves|] == total;
      reports' := reports + [report.value];
    } else {
      assert IntendedSaveTimes(start, done + [now], HourlyInterval) == kept;
      reports' := reports;
    }
  }

  /** The tracking session as evidently intended: the log is read once at
      startup; a poll saves exactly when an interval has passed since the
      last save, and each save holds the startup total plus the elapsed
      time; and, however many polls ran, the log ends up holding the
      startup total plus the session's length. */
  method RunIntended(store: LogFile, start: int, polls: seq<Poll>, stopAt: int)
    returns (reports: seq<Report>)
    requires StopObserved(polls)
    modifies store
    ensures var base := StoredTotal(old(store.slot));
      var saves := IntendedSaves(base, start, IntendedSaveTimes(start, TicksBeforeStop(polls), HourlyInterval));
      var final := base + TimeToday(stopAt, start);
      store.writes == old(store.writes) + saves + [final] &&
      store.slot == Some(SaveText(final)) && StoredTotal(store.slot) == final &&
      Announces(reports, saves + [final])
    ensures SpacedSaves(start, IntendedSaveTimes(start, TicksBeforeStop(polls), HourlyInterval), HourlyInterval)
  {
    var text := store.Read();
    var base := ParsePrevious(text);
    ReadKeepsTotal(old(store.slot));
    reports := PollIntended(store, start, base, polls);
    ghost var saves := IntendedSaves(base, start, IntendedSaveTimes(start, TicksBeforeStop(polls), HourlyInterval));
    IntendedSaveTimesSpaced(start, TicksBeforeStop(polls), HourlyInterval);
    var todayText := ConvertTime(TimeToday(stopAt, start));
    var total := base + TimeToday(stopAt, start);
    store.Save(total);
    SaveThenRead(total);
    var totalText := ConvertTime(total);
    var report := Report(todayText, totalText, Badge(total));
    AnnouncesAppend(reports, saves, report, total);
    reports := reports + [report];
  }
}
