# Code_Clocker, modelled in Dafny

Code_Clocker (`tmr`) is a small command-line tracker of programming time.
It reads the clock when it starts. It then wakes every 100 ms. Once a
session has lasted an hour, a wake-up prints the elapsed time, adds it to the
lifetime total kept in `~/.tmr/time_log.txt`, saves the result and prints it
with a milestone badge. When Ctrl+C clears the shared running flag, a drop
guard makes one last save of the same kind. Run as `tmr reset`, it writes 0
to the log and exits.

The model has five modules:

- `Text` covers the parts of Rust's standard library the tool relies on:
  `Option`, `str::trim` (Unicode White_Space), `Display` for integers and
  `str::parse::<i64>`.
- `Store` models the log file as one text slot, the `LogFile` class. Its
  `slot` is `None` while the file does not exist. It offers `save_to_file`,
  `reset_file` and `read_from_file`, and a ghost `writes` log of every value
  saved.
- `Reporter` covers `convert_time` and `get_badge`. `convert_time` is a
  method that reduces `ms` step by step, proved equal to the `DurationText`
  function. `get_badge` is a function giving tier numbers 0 to 6.
  Truncating `/` and `%` are modelled explicitly.
- `Accumulator` covers `get_time_today` and `get_total_time`, and the tick
  rule of `get_time_hourly`.
- `Session` covers `get_time_hourly`, `stop_logging`, the `Cleanup` guard
  and `main`.

The model has no real inputs, so these become parameters:

- The clock readings are given as integers.
- The running flag is a scripted sequence of observations (`Poll`).
- The command line is a sequence of strings.
- Whether the Ctrl+C handler could be installed is a boolean.

`src/time_handler.rs` and `src/file_handler.rs` repeat the logic of
`src/main.rs`. `main.rs` declares no module for them, so they are not
compiled. One model covers all three files, and the table cites each where
it applies.

The model follows the code in these points, where a reader might expect
otherwise:

- `reset` asks for no confirmation.
- A negative elapsed time (a clock that went backwards) is not clamped to
  zero.
- A stored value that does not parse counts as 0 rather than being an error.
- The hourly tick measures from the session start, not from the last tick.

## Model

| member | source | states |
|---|---|---|
| Text.Trim | src/main.rs:116 | definition of `str::trim`; TrimStartShape, TrimEndShape and TrimIsInfix state its properties |
| Text.ToDecimal | src/main.rs:123 | definition of `Display` for an integer; ToDecimalBare and ParseToDecimal state its properties |
| Text.TrimStartShape | src/main.rs:116 | `trim_start` keeps a suffix of its input, removes only whitespace, and leaves no leading whitespace |
| Text.TrimEndShape | src/main.rs:116 | `trim_end` keeps a prefix of its input, removes only whitespace, and leaves no trailing whitespace |
| Text.TrimIsInfix | src/file_handler.rs:35 | the trimmed text is an infix of the contents with only whitespace cut on both sides, and neither starts nor ends with whitespace |
| Text.TrimKeepsBare | src/main.rs:116 | text with no whitespace at either end is unchanged by `trim` |
| Text.TrimDropsTrailing | src/main.rs:116 | `trim` removes a whitespace tail (the newline a save writes) from text with non-whitespace ends |
| Text.TrimEndDrops | src/main.rs:116 | `trim_end` removes exactly an appended whitespace tail |
| Text.Digits | src/main.rs:123 | the decimal digits of a natural number are non-empty, all digits, and have no leading zero |
| Text.ParseInt | src/main.rs:85 | the parse succeeds exactly on ASCII digits with an optional leading `+` or `-` (so never on empty text, a lone sign, whitespace or any other character), and the result is negative only after a `-` |
| Text.DigitsRoundTrip | src/main.rs:85 | the value of a number's decimal digits is the number |
| Text.ParseToDecimal | src/main.rs:85 | parsing the decimal text of any integer, negative ones included, gives it back |
| Text.ToDecimalBare | src/main.rs:123 | the decimal text of an integer is non-empty and has no whitespace at either end |
| Store.LogFile.Save | src/file_handler.rs:9-13 | the whole slot becomes the decimal value followed by a newline, and the value is appended to the write log |
| Store.LogFile.Reset | src/file_handler.rs:5-7 | the slot holds "0\n" whatever it held before, and 0 is logged as written |
| Store.LogFile.Read | src/file_handler.rs:23-36 | returns "0" and creates an empty slot when the slot is missing; otherwise returns the trimmed contents and leaves the slot as it was; writes nothing |
| Store.SaveThenRead | src/file_handler.rs:9-13 | after a save of v, a read returns the decimal text of v, and the callers' parse yields v |
| Store.ResetReadsZero | src/file_handler.rs:5-7 | after a reset, a read returns "0" and the parsed total is 0 |
| Store.ReadAfterMissing | src/file_handler.rs:26-29 | a missing slot reads as "0" and is left existing but empty; the next read returns "", which parses to 0 |
| Store.ReadKeepsTotal | src/file_handler.rs:26-35 | the total parsed from a read is unchanged by an earlier read |
| Store.ParsePrevious | src/main.rs:85 | definition of `.trim().parse().unwrap_or(0)`; SaveThenRead and UnparsableReadsZero state its properties |
| Store.UnparsableReadsZero | src/main.rs:85 | stored text that does not parse (a corrupted log) counts as a total of 0 |
| Reporter.QuotRem | src/main.rs:151-157 | Rust's truncating quotient and remainder: the remainder has the sign of the dividend, is smaller than the divisor in magnitude, and quotient times divisor plus remainder is the dividend |
| Reporter.Decompose | src/main.rs:151-157 | definition of the breakdown into days, hours, minutes and seconds; DecomposeExact, DecomposeOf, DecomposeNegate and DecomposeNegative state its properties |
| Reporter.Phrases | src/main.rs:159-163 | definition of the pushed parts; PhrasesShape states its properties |
| Reporter.DurationText | src/main.rs:144-166 | definition of `convert_time`'s result; ConvertTime, NegativeDurationText and DurationTextExamples state its properties |
| Reporter.DecomposeExact | src/main.rs:144-157 | for ms >= 0: days >= 0, hours < 24, minutes < 60, seconds < 60, and days*86400000 + hours*3600000 + minutes*60000 + seconds*1000 + ms%1000 == ms |
| Reporter.DecomposeOf | src/main.rs:151-157 | any in-range breakdown of a non-negative duration is the one found: the decomposition is unique |
| Reporter.DecomposeNegate | src/main.rs:151-157 | a negative duration decomposes into the negated parts of its absolute value |
| Reporter.DecomposeNegative | src/time_handler.rs:46-52 | every part of a negative duration is zero or negative, within the unit's range |
| Reporter.PhrasesShape | src/main.rs:159-165 | the seconds phrase is always present and last; days, hours and minutes appear exactly when positive; units come largest first, each with its own amount |
| Reporter.ConvertTime | src/main.rs:144-166 | the step-by-step computation returns `DurationText` of its input |
| Reporter.NegativeDurationText | src/time_handler.rs:54-60 | a negative duration renders as its seconds phrase alone |
| Reporter.DurationTextExamples | src/main.rs:144-166 | 0 ms renders as "0 seconds", 90061000 ms as "1 days 1 hours 1 minutes 1 seconds", and -61000 ms as "-1 seconds" (with three more cases) |
| Reporter.Badge | src/main.rs:168-196 | one of seven tiers; the tier is at most k exactly when the total is below the k-th bound of 3, 6, 12, 18, 24 or 36 thirty-day months |
| Reporter.BadgeMonotone | src/main.rs:168-196 | a larger total never earns a lower tier |
| Reporter.BadgeAtBound | src/time_handler.rs:82-106 | a total exactly at a bound gets the next tier; one below it keeps the lower tier |
| Reporter.BadgeExamples | src/main.rs:170-194 | 0 is tier 0, three months is tier 1, forty months is the top tier |
| Accumulator.TimeToday | src/main.rs:90-92 | definition of `get_time_today` on one clock reading; ElapsedNotClamped states its properties |
| Accumulator.Fires | src/main.rs:52 | definition of the hourly test; FiringPersists states its properties |
| Accumulator.TotalTime | src/main.rs:84-87 | returns now - start + the parsed stored total (0 when it does not parse); the read creates a missing log and writes nothing |
| Accumulator.ElapsedNotClamped | src/time_handler.rs:30-32 | elapsed time is negative exactly when the clock reads before the start, and the new total then falls below the stored one |
| Accumulator.TotalRecomputes | src/main.rs:84-87 | recomputing the total at the same instant after a read gives the same value |
| Accumulator.NewTotalMonotone | src/main.rs:84-87 | the new total grows with the clock and with the stored total |
| Accumulator.FiringPersists | src/time_handler.rs:9 | once a poll fires, every poll at a later clock reading fires too |
| Session.TimeHourly | src/main.rs:51-64 | saves exactly when now - start >= interval*1000; the saved value is the total at that moment, and the report shows its text and the badge of that same value; otherwise the log is untouched |
| Session.StopLogging | src/main.rs:131-140 | saves the new total unconditionally and reports the session time, that total and its badge |
| Session.Drop | src/main.rs:203-207 | the guard's drop performs `stop_logging` from its own start time |
| Session.StoredAfter | src/main.rs:52-60 | definition of the stored total after a run of hourly polls; LastSaveIsStored, SavesCompound and StoredAfterSum state its properties |
| Session.HourlySaves | src/main.rs:52-60 | definition of the values a run of hourly polls saves; EveryLaterPollSaves and CompoundingExample state its properties |
| Session.LogAfter | src/file_handler.rs:9-13 | definition of the log after a run of saves: the last one's text, or the log as it was when there was none |
| Session.PollUntilStopped | src/main.rs:40-44 | after the loop, the log holds the text of the last save of the polls before the flag was seen cleared, or is untouched (a missing log stays missing) when none saved; its parsed total is what those polls compute; the writes are exactly their saves in order; and each report announces its save |
| Session.LogAfterTotal | src/main.rs:85 | the total parsed from the log after a run of hourly polls is the stored total those polls compute |
| Session.PollOnce | src/main.rs:41-43 | one poll extends the log contents, the writes and the reports by exactly what one more hourly poll at that clock reading does |
| Session.TicksBeforeStopAt | src/main.rs:40-44 | when the flag is first seen cleared at observation i, exactly the i readings before it are polled |
| Session.Run | src/main.rs:12-47 | `reset` writes 0 and nothing else; otherwise the writes are the hourly saves followed by exactly one final save, also when installing the Ctrl+C handler fails; the log ends holding that final total |
| Session.LastSaveIsStored | src/main.rs:59-60 | the stored total after the polls is the last hourly save, or the initial total when none fired |
| Session.SavesCompound | src/main.rs:59-60 | after k hourly saves the stored total has grown by at least k intervals |
| Session.StoredAfterSum | src/main.rs:83-87 | the stored total after the polls is the initial total plus the whole elapsed time at every firing poll |
| Session.EveryLaterPollSaves | src/main.rs:52 | once the first poll fires, every later poll saves |
| Session.CompoundingExample | src/main.rs:40-64 | polls at 3600000 and 3600100 save 3600000 and 7200100, and a stop at 3600200 leaves 10800300 in an empty log |
| Session.TimeHourlyIntended | src/main.rs:49-52 | the corrected tick fires when an interval has passed since the last save, resets the tick, and saves the startup total plus the elapsed time |
| Session.IntendedSaveTimes | src/main.rs:49-52 | definition of the corrected tick's save times: a poll saves exactly when an interval has passed since the last save; IntendedSaveTimesSpaced and IntendedExample state its properties |
| Session.IntendedSaveTimesSpaced | src/main.rs:49-50 | the corrected save times are poll readings, no more of them than polls, each an interval or more after the one before |
| Session.IntendedExample | src/main.rs:49-52 | with the corrected tick, polls at 3600000, 3600100 and 7200000 save only at 3600000 and 7200000, saving 3600000 and 7200000 |
| Session.PollIntended | src/main.rs:40-44 | with the corrected tick, the polls save at exactly the corrected save times of the readings before the stop, each write is the startup total plus the elapsed time, the log holds the last of them, and each report announces its save |
| Session.PollOnceIntended | src/main.rs:41-43 | one poll with the corrected tick extends the last-save time, the writes, the log and the reports by exactly what the corrected tick does at that reading |
| Session.SpacedSavesBound | src/main.rs:49-50 | with the corrected tick, k saves take at least k intervals |
| Session.RunIntended | src/main.rs:83-87 | with the corrected tick, the writes are the corrected saves at the polls' save times followed by one final save, the log ends holding the startup total plus the session's length however many polls ran, and the save times are an interval apart |

## Left out

- `print_quote` (src/main.rs:66-81) picks a random quote and only prints it, so it is not modelled.
- Reading a line from standard input (src/user_input.rs) is not part of this model; the code never calls it.
- File system calls are reduced to the one text slot. This covers `dirs::home_dir`, `create_dir_all`, `File::create`, `File::open` and `read_to_string`. Their failures and the `expect` panics they trigger are not modelled.
- The location of the log (`~/.tmr/time_log.txt`, built by `get_log_path`) is not modelled. The one `LogFile` object every operation receives stands for that fixed path.
- `Utc::now()` becomes a parameter. A poll makes up to three separate clock readings in the source, and `stop_logging` makes two (src/main.rs:134, and src/main.rs:136 through `get_total_time`). The model uses one reading per poll, and StopLogging, Drop and Run use the single reading `stopAt`.
- The Ctrl+C handler, the `Arc<AtomicBool>` flag and `thread::sleep` are not modelled. The flag is a scripted sequence of observations, and the model runs sequentially.
- Printed wording and the badge glyphs are not modelled. Badges are tier numbers 0 to 6, and a report keeps only the two duration texts and the tier.
- The message printed after a reset and the process's exit status are not modelled.
- `i64` arithmetic is unbounded here, so overflow is not modelled.
- ParseInt: accepts integers of any size, because the range check of `str::parse::<i64>` is not modelled.
- PollUntilStopped: requires that the flag is eventually seen cleared. A session that is never stopped does not terminate and is not modelled.
- Run: requires the same as PollUntilStopped.
- PollIntended: requires the same as PollUntilStopped.
- RunIntended: requires the same as PollUntilStopped.

## Findings

| source | as written | input that shows it | evidently intended | confidence | as-written member | corrected member |
|---|---|---|---|---|---|---|
| src/main.rs:52 | The tick compares the time since the session start with the interval. Nothing records the last tick, so once an hour has passed every 100 ms poll saves. | start 0; polls at 3600000 and 3600100 both save | one save per interval, as the comment at src/main.rs:49 says | not executed | Session.EveryLaterPollSaves | Session.PollIntended |
| src/main.rs:59-60 | Each save adds the whole session time to a stored total that already holds this session's earlier saves, so the saves compound. | empty log; start 0; polls at 3600000 and 3600100; stop at 3600200. The log ends at 10800300 ms instead of 3600200 ms | the lifetime total grows by the session's length, as the comment at src/main.rs:83 says | not executed | Session.CompoundingExample | Session.RunIntended |

`Run` keeps the behaviour as written, so it models the program as it
behaves. The corrected members model the same loop, with the tick measured
from the last save and the total read once at startup.
