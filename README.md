# Presence-time aggregation and ranking report, in Dafny

This project models the two pieces of logic in the Gather presence notifier
that compute something:

- **Session aggregation** (`UserActivityRepository.calculateUserTime`). It
  replays the `join`/`exit` records of a time window in timestamp order and
  gives each player a number of whole minutes. Two JavaScript dictionaries
  make up the replay state: `userTimes` (player → accumulated minutes) and
  `lastJoinActivity` (player → the join that is still open). A join that
  finds an open join credits the gap and reopens. An exit that finds one
  credits the gap and closes it. An exit that finds none is ignored. Every
  join still open at the end is credited up to `endDate`. Each credit is
  date-fns `differenceInMinutes`, truncated toward zero on its own.
- **Ranking formatter** (`ReportService.formatRankingMessage`). It turns the
  dictionary of minutes into a text block. The entries get display names,
  with the fallback `不明なプレイヤー`, and are stably sorted by minutes,
  largest first. The block is a title line `title：` followed by one line
  `{rank}. {name}: {h}時間{m}分` per user, with `h = Math.floor(time/60)` and
  `m = time % 60`.

## Files

- `wrappers.dfy`: module `Wrappers`, the `Option` type (a lookup that may be `undefined`).
- `dict.dfy`: module `Dict`, a JavaScript plain object with string keys. It is
  a sequence of entries in insertion order. Assigning to a present key keeps
  the entry in its place, a new key is appended, and `delete` removes the
  entry. This is the order `Object.entries` lists.
- `user_activity_repository.dfy`: module `UserActivityRepository`.
  - `Step` is one pass of the `forEach` callback, modelled as a function.
    `ReplayActivity` is the same callback as a method.
  - `FlushOpenJoins` is the loop over the open joins, and `UserTimes` is the
    whole computation.
  - `CalculateUserTime` is the method with both loops. It is proved equal to
    `UserTimes`.
  - `JoinCredits` is an independent reference definition: each join is
    credited once, up to that player's next record or up to `endDate`.
    `UserTimesByJoins` proves that the replay computes exactly this.
- `report_service.dfy`: module `ReportService`.
  - `SortedUsers` builds the `sortedUsers` array. `SortByTime` is the stable
    sort, and `StableSortIsUnique` shows that any stable descending sort gives
    the same array.
  - `FormatRankingMessage` builds `sortedUsers` and hands it to `BuildMessage`.
    `BuildMessage` is the loop that builds the message, and it is proved equal
    to `RenderMessage`.
  - `SplitLines` is `split('\n')` on the finished text. `SplitMessage` shows
    that the text splits back into the heading line and one line per user.
  - `ReportMessage` composes aggregation and formatting, as the daily and
    weekly reports do.

Representation choices:
- Timestamps are integers in milliseconds since the epoch. A credit is
  `trunc((later − earlier) / 60000)`.
- The query's `ORDER BY timestamp ASC` and its inclusive
  `timestamp >= start AND timestamp <= end` filter become the preconditions
  `ByTimestamp` and `WithinWindow` of `CalculateUserTime`. The replay
  functions take any sequence, as the loop does.
- The player-name cache (`PlayerRepository`) is a parameter
  `names: map<string, string>`.
- The `ranking` argument is either a dictionary (`PlayerMinutes`, a sequence
  of entries in entry order) or the array form (`NamedDurations`).

On these points the model follows the code as written:
- Negative differences are not clamped to zero. Only timestamp order and
  `timestamp <= endDate` make every single credit, and so every total,
  non-negative (`JoinCreditsNonNegative`).
- A player whose credits total 0 is not dropped. Every player with a join gets
  an entry, possibly 0 (`UserTimesByJoins`, `TruncationPerCredit`). Orphan
  exits create no entry.
- The window is inclusive at both ends, as the query is. The records are not
  sorted again: the order is the one the query returns.
- An empty cached name is falsy in JavaScript, so it also renders as
  `不明なプレイヤー` (`DisplayName`).
- For a negative time that is not a whole number of hours,
  `Math.floor(time / 60)` and the truncating `%` disagree. The rendered hours
  and minutes then add up to one hour less than the time
  (`HoursMinutesOfNegativeTime`). A whole number of hours, such as −120,
  renders exactly (−2 hours, 0 minutes). This cannot happen on the replay's
  output for records in timestamp order, because every total there is
  non-negative (`ReportOfQuery`).

## Model

| member | source | states |
|---|---|---|
| `Dict.Get` | src/repositories/UserActivityRepository.ts:86 | a lookup finds a value exactly when the key has an entry |
| `Dict.Put` | src/repositories/UserActivityRepository.ts:88-90 | after `d[k] = v` the key `k` maps to `v` and every other key keeps its lookup; an existing key keeps its position, a new key is appended; one entry per key is preserved |
| `Dict.Remove` | src/repositories/UserActivityRepository.ts:96 | after `delete d[k]` the key `k` has no entry and every other key keeps its lookup; one entry per key is preserved; deleting an absent key changes nothing |
| `Dict.RemoveKeepsOrder` | src/repositories/UserActivityRepository.ts:96 | with one entry per key, `delete d[k]` takes out exactly the entry of `k` and leaves the other entries in their order (the order the flush at lines 102-105 visits) |
| `UserActivityRepository.DifferenceInMinutes` | src/repositories/UserActivityRepository.ts:87 | the result is the elapsed time in whole minutes truncated toward zero: non-negative with `r·60000 ≤ d < (r+1)·60000` for `d ≥ 0`, and the mirror bound for `d < 0` |
| `UserActivityRepository.Credit` | src/repositories/UserActivityRepository.ts:88-89 | `userTimes[id] = (userTimes[id] \|\| 0) + minutes` adds the minutes to `id`'s total (starting from 0) and leaves every other player's total alone |
| `UserActivityRepository.Step` | src/repositories/UserActivityRepository.ts:81-98 | one record changes only its own player. With an open join, a join or exit credits the minutes since that join. A join leaves itself as the open join, an exit leaves none. An exit without an open join changes nothing. The state stays well formed: one open join per player, and it is a join of that player |
| `UserActivityRepository.ReplayActivity` | src/repositories/UserActivityRepository.ts:81-98 | the `forEach` callback, written with the code's branches, updates both dictionaries exactly as `Step` does |
| `UserActivityRepository.FlushOpenJoins` | src/repositories/UserActivityRepository.ts:101-105 | every player with an open join gets the minutes from that join to `endDate` added; every other total is unchanged |
| `UserActivityRepository.ReplayView` | src/repositories/UserActivityRepository.ts:78-105 | a player's final result depends only on that player's total and open join in the starting state and on the records still to replay |
| `UserActivityRepository.UserTimesByJoins` | src/repositories/UserActivityRepository.ts:84-105 | every join is credited exactly once, each credit truncated on its own: to the player's next record (join or exit), or to `endDate` if there is none. A player has an entry iff it has a join; orphan exits create no entry |
| `UserActivityRepository.ReplayKeepsValid` | src/repositories/UserActivityRepository.ts:79-96 | at every point of the replay there is at most one open join per player, and it is a join record of that player |
| `UserActivityRepository.UserTimesDistinct` | src/repositories/UserActivityRepository.ts:78-105 | the result has one entry per player |
| `UserActivityRepository.PlayerIndependence` | src/repositories/UserActivityRepository.ts:78-105 | a player's result equals the result of replaying that player's records alone |
| `UserActivityRepository.JoinCreditsNonNegative` | src/repositories/UserActivityRepository.ts:74-105 | with records in timestamp order and no timestamp after `endDate`, the credit of every join (up to the player's next record, or to `endDate`) is at least 0, and so is the player's sum of credits |
| `UserActivityRepository.ConsecutiveJoins` | src/repositories/UserActivityRepository.ts:84-90 | two joins of a player in a row: the second credits `trunc((t2 − t1)/1 min)` and becomes the open join |
| `UserActivityRepository.PairedSession` | src/repositories/UserActivityRepository.ts:91-97 | a single join at t1 followed by an exit at t2 yields exactly `{id: trunc((t2 − t1)/1 min)}` |
| `UserActivityRepository.ExamplePairedSession` | src/repositories/UserActivityRepository.ts:91-97 | joined 10:00, left 10:45: `{u1: 45}` |
| `UserActivityRepository.ExampleOpenAtEnd` | src/repositories/UserActivityRepository.ts:101-105 | joined 23:50 with no exit, window end 24:00: `{u1: 10}` |
| `UserActivityRepository.ExampleDoubleJoin` | src/repositories/UserActivityRepository.ts:84-97 | joins at t and t + 30 min, exit at t + 60 min: the second join closes the first session, the player gets 30 + 30 = 60 |
| `UserActivityRepository.ExampleOrphanExit` | src/repositories/UserActivityRepository.ts:91-97 | a lone exit yields the empty dictionary |
| `UserActivityRepository.TruncationPerCredit` | src/repositories/UserActivityRepository.ts:86-96 | two 30-second sessions credit 0 + 0: the total is 0, not 1, and the player keeps an entry |
| `UserActivityRepository.UserTimesOfQuery` | src/repositories/UserActivityRepository.ts:72-108 | on sorted, in-window records, the result has one entry per player who joined, holding that player's join credits, and no entry is negative |
| `UserActivityRepository.CalculateUserTime` | src/repositories/UserActivityRepository.ts:71-108 | the two loops compute `UserTimes`. Hence one entry per player with a join, each holding the player's join credits, and none negative |
| `ReportService.DisplayName` | src/services/ReportService.ts:43 | a cached non-empty name is used; a missing or empty one renders as `不明なプレイヤー`; the result is never empty |
| `ReportService.ResolveNames` | src/services/ReportService.ts:41-45 | one user per dictionary entry, in entry order, with the entry's display name and minutes |
| `ReportService.FromEntries` | src/services/ReportService.ts:38-39 | the array form keeps its order and length, with `time` taken from `duration` |
| `ReportService.InsertByTime` | src/services/ReportService.ts:46 | inserting into a descending list keeps it descending and adds exactly that element |
| `ReportService.SortByTime` | src/services/ReportService.ts:46 | the sorted users are in descending order of minutes and a permutation of the input |
| `ReportService.InsertKeepsWithTime` | src/services/ReportService.ts:46 | insertion places the new user before all users with the same minutes, as a stable sort that inserts from the back needs |
| `ReportService.SortIsStable` | src/services/ReportService.ts:46 | for every minute count, the users with that count appear in the same relative order as in the input |
| `ReportService.DescendingDeterminedByTimes` | src/services/ReportService.ts:46 | two descending lists that agree on the users of every minute count are equal |
| `ReportService.StableSortIsUnique` | src/services/ReportService.ts:41-46 | any stable sort by minutes, largest first, gives exactly `SortByTime`'s result, whatever the algorithm |
| `ReportService.SortedUsersSpec` | src/services/ReportService.ts:37-47 | a dictionary becomes its named entries, sorted descending by minutes, as a permutation with equal minutes kept in entry order; an array is kept in its order |
| `ReportService.NatToStringValue` | src/services/ReportService.ts:51 | a natural number renders as a non-empty run of digits without a leading zero, and the digits read back as the number |
| `ReportService.IntToStringRoundTrip` | src/services/ReportService.ts:51 | rendering an integer with `${n}` and parsing it back gives the same integer |
| `ReportService.Hours` | src/services/ReportService.ts:51 | `Math.floor(time / 60)`: the largest `h` with `h·60 ≤ time` |
| `ReportService.Minutes` | src/services/ReportService.ts:51 | JavaScript `time % 60`: strictly between −60 and 60, with the sign of `time`, and `time − m` a multiple of 60 |
| `ReportService.HoursMinutesOfTime` | src/services/ReportService.ts:51 | for `time ≥ 0`: `h ≥ 0`, `0 ≤ m < 60` and `h·60 + m = time` |
| `ReportService.ExampleRankLine` | src/services/ReportService.ts:51 | a user with 125 minutes at rank 1 renders as `1. n: 2時間5分` |
| `ReportService.HoursMinutesOfNegativeTime` | src/services/ReportService.ts:51 | for a negative time that is not a whole number of hours, `h·60 + m = time − 60` |
| `ReportService.RenderNoUsers` | src/services/ReportService.ts:49 | with no users the message is the heading line `title：\n` alone |
| `ReportService.RenderOneMore` | src/services/ReportService.ts:50-52 | each further user appends exactly one `\n`-terminated line at the next rank |
| `ReportService.JoinLinesLineBreaks` | src/services/ReportService.ts:49-52 | joining n lines that contain no line break gives exactly n line breaks |
| `ReportService.SplitJoinLines` | src/services/ReportService.ts:49-52 | splitting `\n`-terminated lines that contain no line break of their own at `'\n'` gives back exactly those lines, then an empty piece |
| `ReportService.SplitMessage` | src/services/ReportService.ts:49-52 | if neither the title nor any name contains a line break, `message.split('\n')` is the heading line `title：`, then the line of each user `{rank}. {name}: {h}時間{m}分` at ranks 1..n in order, then the empty piece after the final break |
| `ReportService.MessageLineCount` | src/services/ReportService.ts:49-52 | if neither the title nor any name contains a line break, the message has exactly 1 + n line breaks |
| `ReportService.RankingLineCount` | src/services/ReportService.ts:41-52 | if neither the title nor any cached name contains a line break, a dictionary of n entries renders with exactly 1 + n line breaks |
| `ReportService.BuildMessage` | src/services/ReportService.ts:49-54 | the loop over `sortedUsers` produces the title line and then one `\n`-terminated rank line per user, ranks 1..n in order |
| `ReportService.FormatRankingMessage` | src/services/ReportService.ts:35-55 | the message is the title line followed by one rank line per user of `sortedUsers`, each `\n`-terminated, ranks 1..n in order |
| `ReportService.ReportOfQuery` | src/services/ReportService.ts:23-27 | a report on sorted, in-window records has one line per player who joined, in descending order of minutes; every line's hours and minutes add up to the player's total |
| `ReportService.ReportTitlesHaveNoLineBreak` | src/services/ReportService.ts:25-31 | neither the daily nor the weekly title contains a line break, so the line count of `ReportMessage` applies to both reports |
| `ReportService.ReportMessage` | src/services/ReportService.ts:23-33 | the report text is the formatted ranking of the aggregated minutes. Without line breaks in the title and names, it has 1 + (number of players who joined) lines |

## Left out

- SQLite storage is not modelled: opening and creating the database, `addActivity` and `getActivities`. It is I/O. The query is replaced by the `ByTimestamp`/`WithinWindow` preconditions on its result.
- Timestamps are not converted to and from ISO strings. The model assumes that comparing ISO strings in SQL agrees with comparing times.
- SQLite does not fix the order of records with equal timestamps. The model takes the sequence in the order given.
- `ensureDbInitialized`, which checks the order of initialisation around an asynchronous database handle, is not modelled.
- `calculateDailyUserTime` and `calculateWeeklyUserTime` compute their windows with date-fns `startOfDay`, `addDays`, `startOfWeek` and `endOfWeek`. These depend on the local time zone and on a library that is not part of this model. The window bounds are parameters instead.
- `scheduleDailyReport` and `scheduleWeeklyReport` are cron registrations, and delivery goes through `SlackService` (an HTTP webhook). Both are left out. `ReportMessage` returns the text instead of sending it.
- `GatherService` is left out: the websocket client, event subscriptions, and the re-entrancy flags reset by `setTimeout` (concurrency and timers).
- `PlayerRepository` (a map persisted as a JSON file) and `config.ts` (environment variables) are left out. The name cache is the `names` parameter.
- `Object.entries` lists integer-like keys first, in ascending order. The model uses insertion order for all keys.
- Player ids that name `Object.prototype` members (such as `constructor`) read as present in an empty JavaScript object. The model treats every key as absent until it is assigned.
- Numbers are unbounded integers. IEEE double rounding and JavaScript's exponential notation for numbers of 10^21 and above are not modelled.
- The array branch's entries are values, so the model cannot mutate its input. Non-mutation of the input therefore holds by construction and has no separate statement.
