# Twitch drop notifier: a Dafny model of the drop check

The bot keeps two SQLite tables. `games (user_id, game_name)` holds one row
per `/add`. `rewards (game_name, rewards_id)` is the ledger of rewards
already announced. Once an hour, `drop_check` does the following:

- fetches the public list of Twitch drop campaigns;
- reads the distinct tracked names and the distinct announced reward ids;
- for every tracked name and every drop whose game name matches it,
  ignoring case, takes the drop's first reward;
- if that reward's id is not in the ledger, inserts a ledger row keyed by
  the lower-cased name, converts the drop's `endAt` to Unix seconds and
  posts a message to the alert channel.

The model has seven modules:

- `Wrappers` holds `Option`.
- `Text` models `str.lower()`, `split('.')[0]` and `replace`.
- `Calendar` models the proleptic Gregorian day numbers of Python's
  `datetime`.
- `EndTime` models the `endAt` conversion: `fromisoformat` on the accepted
  form, then `timestamp()`.
- `Tables` holds the rows of both tables, the `DELETE` filter and the two
  `SELECT DISTINCT` reads.
- `DropCheck` is a pure specification of one run:
  - `StepOf` is one iteration of the inner loop.
  - `ScanDrops` and `ScanGames` are the inner and outer loops.
  - `RunCycle` is the whole run.
  - It also holds the lemmas about runs.
- `Bot` has the class `Notifier`:
  - Its fields `games`, `rewards` and `outbox` (the channel's messages) are
    updated in place.
  - Its commands are `Add`, `Remove` and `GameList`. They are proved
    against the `Tables` functions `Without` and `DistinctNames`.
  - `DropCheck` is proved against `RunCycle`. It calls `CheckGames` (the
    outer loop), proved against `ScanGames`. That calls `CheckGame` (the
    inner loop), proved against `ScanDrops`. That calls `CheckDrop` (one
    iteration), proved against `StepOf`.

The model covers three ways a run can stop early:

- The feed request fails. The source catches this and returns.
- A matching drop has an empty reward list. Python raises `IndexError`.
- An `endAt` cannot be parsed. Python raises `ValueError` after the ledger
  insert has been committed.

A run is a `Trace`: the deliveries made, in order, and an optional `Halt`.
A `Halt` carries the error and the ledger row left behind by a failed
parse. Everything committed before the stop stays.

A matching drop with an empty reward list is not skipped:
`drop['rewards'][0]` raises `IndexError` and ends the run
(`EmptyRewardsAbort`).

The timestamp follows the corrected reading given under "## Findings". The
run converts `endAt` with `EndTime.EndAtUtc`. `EndTime.EndAtOnHost` keeps
the conversion as written, with the host's zone as a parameter.

## Model

| member | source | states |
|---|---|---|
| Text.Lower | app.py:145 | `lower()` keeps the length and lowers each character at its position; the result has no upper-case letter |
| Text.LowerIdempotent | app.py:152-154 | lowering a ledger key again changes nothing |
| Text.LowerOfLower | app.py:154 | a name with no upper-case letter is its own lower form |
| Text.SameGame | app.py:145 | the match of a feed name with a tracked name; its meaning is stated by `SameGameIsEquivalence`, `SameGameIgnoresCase` and `SameGameSameLength` |
| Text.SameGameIsEquivalence | app.py:145 | the case-insensitive match is reflexive, symmetric and transitive |
| Text.SameGameIgnoresCase | app.py:145 | names that differ only in letter case match |
| Text.SameGameSameLength | app.py:145 | names of different lengths never match |
| Text.BeforeFirst | app.py:160 | `split('.')[0]` is the longest prefix without '.'; it stops at the first '.', and it is the whole string when there is none |
| Text.BeforeFirstCut | app.py:160 | everything from the first '.' on is dropped |
| Text.ReplaceAll | app.py:161 | no 'Z' is left when the replacement has none; every character comes from the input or the replacement; a string without 'Z' is unchanged |
| Text.ReplaceAllAppend | app.py:161 | replacement distributes over concatenation |
| Calendar.DaysInMonth | app.py:161 | months have 28 to 31 days; February has 29 exactly in leap years |
| Calendar.DaysBeforeYear | app.py:162 | Python's closed formula for the days before a year; `DaysBeforeYearCounts` proves it equal to the year-by-year count |
| Calendar.DaysBeforeMonth | app.py:162 | Python's month table plus the leap day; `DaysBeforeMonthCounts` proves it equal to the month-by-month count |
| Calendar.Ordinal | app.py:162 | `date.toordinal()`; `OrdinalNextDay` proves it numbers consecutive days consecutively and `EpochDay` fixes 1970-01-01 |
| Calendar.DaysBeforeYearCounts | app.py:162 | Python's closed formula for the days before a year equals the sum of the lengths of all earlier years |
| Calendar.DaysBeforeMonthCounts | app.py:162 | the month table plus the leap day equals the sum of the lengths of the earlier months |
| Calendar.YearIsTwelveMonths | app.py:162 | a year's twelve months add up to its length |
| Calendar.OrdinalNextDay | app.py:162 | consecutive calendar days have consecutive day numbers, so no day is skipped or repeated |
| Calendar.EpochDay | app.py:162 | 1970-01-01 is day 719163, the Unix epoch's anchor |
| EndTime.ParseCivil | app.py:161 | an accepted `YYYY-MM-DDTHH:MM:SS` gives a valid date and an in-range time; `CivilFields` proves a well-formed string gives exactly its fields |
| EndTime.ParseZone | app.py:161 | an empty suffix is naive; any accepted offset is less than a day |
| EndTime.FromIsoFormat | app.py:161 | an accepted string gives a valid date and time, which is naive exactly when there is no offset |
| EndTime.Timestamp | app.py:162 | `int(dt.timestamp())`: seconds since 1970-01-01 UTC, a naive time read at the host's offset; `EpochDay`, `ExampleEndAt` and `HostZoneShiftsFraction` state its values |
| EndTime.NormalizeEndAt | app.py:160-161 | the normalised string has no '.' |
| EndTime.NormalizeFraction | app.py:160-161 | a fractional end time normalises to its bare date and time; its 'Z' is lost with the fraction |
| EndTime.NormalizeZulu | app.py:160-161 | an end time ending in 'Z' normalises to the same time with "+00:00" |
| EndTime.ParseBothForms | app.py:161 | the bare form parses as naive and the "+00:00" form as UTC, with the same date and time |
| EndTime.EndAtOnHost | app.py:160-162 | the conversion as written on a host at a fixed offset; `HostZoneShiftsFraction`, `ZuluIgnoresHost` and `ExampleHostShift` state how it depends on the host |
| EndTime.EndAtUtc | app.py:160-162 | the conversion read as UTC; `FractionTruncated` and `ExampleEndAt` state that the fraction is cut and the instant kept |
| EndTime.HostZoneShiftsFraction | app.py:160-162 | as written, on a host `hostOffset` seconds east of UTC, a fractional end time comes out exactly `hostOffset` seconds off the same time written with 'Z' |
| EndTime.ZuluIgnoresHost | app.py:160-162 | an end time that keeps its 'Z' names the same instant on every host |
| EndTime.FractionTruncated | app.py:160-162 | read as UTC, the fraction is cut, not rounded: the fractional and whole-second forms give the same second |
| EndTime.TwoDigitField | app.py:161 | a two-digit field reads as the number its digits spell |
| EndTime.FourDigitField | app.py:161 | a four-digit field reads as the number its digits spell |
| EndTime.CivilFields | app.py:161 | `YYYY-MM-DDTHH:MM:SS` with correct separators, digits and in-range fields parses to those fields |
| EndTime.ExampleFields | app.py:159 | the six fields of the example end time read as 2025, 11, 30, 23, 29 and 59 |
| EndTime.ExampleCivil | app.py:159-161 | the example end time parses to 2025-11-30 23:29:59 |
| EndTime.ExampleDay | app.py:159-162 | 2025-11-30 is a valid date with day number 739585 |
| EndTime.ExampleEndAt | app.py:159-162 | read as UTC, "2025-11-30T23:29:59.998Z" and "2025-11-30T23:29:59Z" both give 1764545399 |
| EndTime.ExampleHostShift | app.py:159-162 | as written, on a host one hour east of UTC, the example end time gives 1764541799, an hour early |
| Tables.Without | app.py:58 | after `DELETE ... WHERE user_id = ? AND game_name = ?`, a row remains exactly when it was there and differs from the deleted pair |
| Tables.WithoutCounts | app.py:58 | the delete takes every copy of the pair and keeps the count of every other row |
| Tables.WithoutAbsent | app.py:58 | deleting a pair that is not in the table changes nothing |
| Tables.WithoutAppend | app.py:58 | the rows that survive keep their order, and deletion works piecewise |
| Tables.WithoutIdempotent | app.py:58 | deleting twice is deleting once |
| Tables.Copies | app.py:37 | `n` identical adds append `n` rows, each equal to the added pair |
| Tables.RemoveUndoesAdds | app.py:58 | adding a new pair any number of times and removing it once restores the table |
| Tables.DistinctNames | app.py:79-80 | `SELECT DISTINCT game_name` yields exactly the tracked names, each once, and no more names than rows |
| Tables.DistinctIgnoresRepeat | app.py:129-130 | a second add of an already tracked name does not change the distinct read |
| Tables.NotifiedIds | app.py:133-134 | the announced-id set holds exactly the ids of the ledger's rows |
| DropCheck.StepOf | app.py:142-175 | one iteration of the inner loop: skip, record and announce, or raise; `RunIsJustified`, `EmptyRewardsAbort` and `StepIgnoresCase` state what it does |
| DropCheck.ScanDrops | app.py:140 | the inner loop over the feed; `ScanDropsSplit`, `ScanDropsGrows`, `ScanDropsHalted` and `ScanDropsComplete` state its meaning |
| DropCheck.ScanGames | app.py:139 | the outer loop over the tracked names; `ScanGamesSplit`, `ScanGamesGrows`, `ScanGamesHalted` and `ScanGamesComplete` state its meaning |
| DropCheck.RunCycle | app.py:118-175 | one run on the tables as read at its start; `RunIsJustified`, `CompletedRunCoversMatches`, `NoRepeatOfLedger` and `RerunIsSilent` state what it writes |
| DropCheck.ExtendTables | app.py:149-175 | one more step extends the ledger and the channel by exactly what that step writes |
| DropCheck.OneRowPerMessage | app.py:152-175 | a run inserts one ledger row per message, in the same order, plus one row without a message when an end-time parse fails |
| DropCheck.WrittenStep | app.py:149-175 | tables that mirror a run keep mirroring it when one more step writes |
| DropCheck.ScanDropsStep | app.py:140 | one more drop in the inner loop is one more step |
| DropCheck.RunIsJustified | app.py:139-175 | each of the following comes from a tracked name and a feed drop that match ignoring case: every delivery, and the row left by a failed parse; its row is (lower-cased name, the first reward's id), and that id was not in the ledger at the start; its message carries the drop's title, the first reward's name and image, and the end time read as UTC |
| DropCheck.NoRepeatOfLedger | app.py:149 | no reward id already in the ledger is inserted again |
| DropCheck.FeedFailureChangesNothing | app.py:118-122 | a failed feed request writes no row and sends no message |
| DropCheck.ScanDropsHalted | app.py:147 | once an exception stops the run, later drops do nothing |
| DropCheck.ScanGamesHalted | app.py:147 | once an exception stops the run, later names do nothing |
| DropCheck.ScanDropsSplit | app.py:140 | the inner loop over two runs of drops is the loop over the first, then the second |
| DropCheck.ScanGamesSplit | app.py:139 | the outer loop over two runs of names is the loop over the first, then the second |
| DropCheck.InnerStops | app.py:140-175 | a run stopped at a drop is the whole inner loop |
| DropCheck.OuterStops | app.py:139-175 | a run stopped at a name is the whole run |
| DropCheck.ScanDropsGrows | app.py:140-175 | the inner loop only appends deliveries; a run stopped before it stays stopped |
| DropCheck.ScanGamesGrows | app.py:139-175 | the outer loop only appends deliveries; a run stopped before it stays stopped |
| DropCheck.CoveredGrows | app.py:149-175 | a pair once dealt with stays dealt with as deliveries are appended |
| DropCheck.ScanDropsComplete | app.py:140-175 | a finished inner loop has dealt with every drop: either it does not match, or its first reward was in the ledger or has been delivered |
| DropCheck.ScanGamesComplete | app.py:139-175 | a finished outer loop has dealt with every pair of a tracked name and a drop |
| DropCheck.CompletedRunCoversMatches | app.py:139-175 | in a run that completes, every matching pair of a tracked name and a drop has a first reward whose id was in the ledger already or is recorded for that name by some delivery; how many deliveries there are is stated by `CompletedRunDeliveries` |
| DropCheck.DropDeliveries | app.py:140-175 | reference definition: one delivery per drop whose step delivers, in feed order, so no more than there are drops |
| DropCheck.GameDeliveries | app.py:139-175 | reference definition: the inner loops' deliveries name after name, so no more than one per pair of a name and a drop |
| DropCheck.ScanDropsDeliveries | app.py:140-175 | an inner loop that does not raise appends exactly its reference deliveries, in order |
| DropCheck.ScanGamesDeliveries | app.py:139-175 | an outer loop that does not raise appends exactly its reference deliveries, in order |
| DropCheck.CompletedRunDeliveries | app.py:139-175 | a run that completes delivers exactly once per delivering pair of a tracked name and a drop, names in read order and drops in feed order: nothing is sent twice and nothing is merged |
| DropCheck.CompletedRunHasRewards | app.py:147 | in a run that completes, every drop matching a tracked name lists a reward |
| DropCheck.EmptyRewardsAbort | app.py:147 | a tracked game with a matching drop that lists no reward stops the run with an error |
| DropCheck.ScanDropsSkipping | app.py:149 | an inner loop in which every step skips leaves the run unchanged |
| DropCheck.ScanGamesSkipping | app.py:149 | an outer loop in which every step skips leaves the run unchanged |
| DropCheck.RerunIsSilent | app.py:133-156 | after a completed run, a second run on the same feed with the grown ledger records and announces nothing |
| DropCheck.StepIgnoresCase | app.py:145-154 | a step depends on the tracked name only up to case |
| DropCheck.DistinctOfTwo | app.py:129-130 | two rows with different names are read back as those two names |
| DropCheck.ScanOneDrop | app.py:140 | the inner loop over one drop is one step |
| DropCheck.ScanTwoNames | app.py:139 | the outer loop over two names is two inner loops |
| DropCheck.InsertedOfTwo | app.py:152-156 | helper for the two examples below: a completed run of two deliveries inserts their two rows, in order |
| DropCheck.TwoSpellingsAnnounceTwice | app.py:129-175 | the ledger is read once per run, so a new reward tracked under two spellings of one game is recorded twice and announced twice in one run |
| DropCheck.StepDelivers | app.py:145-175 | a matching drop whose first reward is new and whose end time parses is recorded under the lower-cased tracked name and announced |
| DropCheck.ScanOneNameTwoDrops | app.py:139-140 | the loops over one name and two drops are two steps |
| DropCheck.OneNameTwoDrops | app.py:129-140 | a run with one tracked name over two drops is those two steps |
| DropCheck.TwoDropsOneReward | app.py:134-175 | the ledger is read once per run, so two drops of one tracked game that share a new first reward id are both recorded and both announced in one run, each with its own message |
| Bot.Notifier.constructor | games_db.py:9-10 | both tables and the channel start empty |
| Bot.Notifier.Add | app.py:37 | `/add` appends one row and nothing else changes |
| Bot.Notifier.Remove | app.py:58 | `/remove` leaves exactly the deletion filter's result and nothing else changes |
| Bot.Notifier.GameList | app.py:79-80 | `/game_list` returns every tracked name once |
| Bot.Notifier.DropCheck | app.py:107-177 | the ledger gains exactly the rows of `RunCycle` and the channel exactly its messages, in order; the subscriptions are untouched; the outcome is `Completed` exactly when the run did not halt, and otherwise the halt's error; every ledger key stays lower-case |
| Bot.Notifier.CheckGames | app.py:139-175 | the outer loop writes what `ScanGames` specifies and returns its error, if any |
| Bot.Notifier.CheckGame | app.py:140-175 | the inner loop writes what `ScanDrops` specifies and returns its error, if any |
| Bot.Notifier.CheckDrop | app.py:142-175 | one iteration writes what `StepOf` specifies and returns its error, if any |

## Left out

- Discord is not modelled: slash-command registration, interaction
  replies, embed layout and colour, the channel lookup and the
  `tasks.loop` scheduling. A sent embed is modelled as a `Notification`
  record appended to `outbox`. Only its title, reward name, image URL and
  end time are kept.
- The HTTP request and JSON decoding are left out. The feed is a
  parameter: `None` when the request or decoding fails, otherwise a list
  of drops.
- Malformed JSON shapes are left out: a missing key, a non-list body, or a
  reward without `id`, `name` or `imageURL`. Each would raise
  `KeyError`/`TypeError`.
- SQLite itself is left out: connections, cursors, `commit` and `close`.
  Each insert is taken as committed at once, as the code commits after
  each one. An exception leaves the connection unclosed, which the model
  does not track.
- `channel.send` is taken to succeed. A failed send (a Discord HTTP
  error, or no channel found by `client.get_channel`) would raise after
  the ledger insert was committed. It would end the run with that row
  written and no message sent, like a bad `endAt`.
- `Bot.Notifier.DropCheck` models one hourly run. A sequence of runs is
  not modelled. Nor is the scheduled loop stopping after an exception.
- Text.Lower: lowers ASCII letters only. Python's `str.lower()` also
  lowers other Unicode letters, and some of them change the length.
- EndTime.FromIsoFormat: accepts only `YYYY-MM-DDTHH:MM:SS` with separator
  'T' and an optional `+HH:MM`/`-HH:MM` offset. Python accepts more
  forms: a space or other separator, dates without a time, reduced
  precision times, `HH:MM:SS` offsets. The drop feed uses the modelled
  form.
- EndTime.EndAtOnHost: treats the host's zone as a fixed offset. Daylight
  saving time on the host is not modelled.
- Tables.DistinctNames: returns names in order of first appearance. SQL
  does not promise an order for `SELECT DISTINCT`. Only membership and the
  absence of duplicates are relied on, except that the order of
  deliveries follows this order.
- The `print` calls are left out.

## Findings

| source | as written | input that shows it | evidently intended | confidence | as-written member | corrected member |
|---|---|---|---|---|---|---|
| app.py:160-162 | `split('.')[0]` drops the fraction and the trailing 'Z' with it. `replace("Z", "+00:00")` then finds nothing, so `fromisoformat` returns a naive time. `timestamp()` reads that time in the host's local zone. | `endAt = "2025-11-30T23:29:59.998Z"` on a host at UTC+1 gives 1764541799, which is an hour early. The same time without a fraction gives 1764545399. | the end time read as UTC, whatever the host's zone and whether or not it has a fraction | high (not executed) | EndTime.HostZoneShiftsFraction | EndTime.FractionTruncated |
