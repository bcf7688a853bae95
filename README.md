# Handysuche counter, modelled in Dafny

Handysuche is a one-screen app that counts how often you searched for your
phone. Each tap on the big button counts one search and stores when it
happened. Reaching certain counts unlocks an achievement with a title and a
text. The app can undo the last search and reset everything, and it has a
mute button. A statistics panel shows searches today, searches in the last
seven days, days since the first search and the average per day.

The model covers the counter's state machine and the statistics:

- `time.dfy`: timestamps as integer milliseconds, `DAY`, and the calendar.
  Local midnight and the start of the seven-day window are parameters
  (`midnight`, `weekStart`) limited by `Time.IsCalendar`, which holds on
  daylight-saving calendars too. `Time.UtcMidnight`
  is one concrete calendar, for a device set to UTC. `Wrappers.Option`
  stands for JavaScript's `null`.
- `achievements.dfy`: the achievement record, the catalog as
  `map<int, Record>`, JavaScript's `trim`, and the catalog rule from the
  tests (`Achievements.WellFormed`).
- `progress.dfy`: the state (`count`, `history`, `unlocked`, `isMuted`). It
  has one pure transition per handler (click, undo, reset, mute), a
  `Run` over any sequence of handler calls, and lemmas: the invariant is
  kept, unlocks are permanent, undo reverses a click, and the unlock tally
  is bounded.
- `statistics.dfy`: `getStats` as a function. The two `filter(...).length`
  counts are recursive counts. Lemmas give the ordering bounds, the effect
  of one more click, and the single-entry case.
- `tracker.dfy`: class `App.Tracker`. Its fields are the component's state
  slots, and its methods are the handlers, updating those fields in place.
  Each method's postcondition states the new fields and equates the new
  state with the matching `Progress` transition, so every `Progress` lemma
  applies to the object. `App.Session` is a client: it clicks, undoes and
  resets against a two-entry catalog and checks what the notifications and
  the unlocked list must be.

Behaviour worth knowing:

- After the click that reaches a threshold, the notification is shown even
  when the threshold was already unlocked (src/App.jsx:155-157). An
  already-unlocked threshold is not appended again (src/App.jsx:159-162).
- `unlocked` is an ordered list, in the order thresholds were first reached.
  It is not a set.
- Undo copies `history.slice(0, -1)` literally. When `count > 0` but the
  stored history is empty, the history stays empty. So `Progress.Undo` is
  defined on every state, not only on states that satisfy the invariant.

## Model

| member | source | states |
|---|---|---|
| `Achievements.Lookup` | src/App.jsx:155 | a record comes back exactly when the count is a catalog key, and it is that key's record |
| `Achievements.TrimStart` | tests/achievements.test.js:38 | removes exactly the leading whitespace: the result is a suffix of the input, every removed character is trimmable, and the result does not start with one |
| `Achievements.TrimEnd` | tests/achievements.test.js:41 | removes exactly the trailing whitespace: the result is a prefix of the input, every removed character is trimmable, and the result does not end with one |
| `Achievements.IsTrimmable` | tests/achievements.test.js:38 | definition: the characters `trim` removes, ECMAScript's WhiteSpace and LineTerminator code points (tab, line feed, vertical tab, form feed, carriage return, space, no-break space, the Unicode space separators, line and paragraph separator, byte order mark) |
| `Achievements.Trim` | tests/achievements.test.js:38 | `String.prototype.trim`: the result is a slice `s[a..b]` of the input in which everything before `a` and from `b` on is whitespace; it is non-empty whenever the input has a non-whitespace character, and it neither starts nor ends with whitespace |
| `Achievements.NonBlank` | tests/achievements.test.js:38 | definition: `s.trim().length > 0` |
| `Achievements.WellFormed` | tests/achievements.test.js:30-41 | definition: the catalog has an entry, and every entry has a non-blank title and a non-blank text (integer keys make the number check hold by type) |
| `Achievements.NonBlankIff` | tests/achievements.test.js:38-41 | `trim().length > 0` holds exactly when the string has some non-whitespace character |
| `Achievements.WellFormedExamples` | tests/validation.test.js:26-29 | the valid two-entry catalog of this test passes the rule; a catalog whose only title is spaces and a tab fails it (the title check of tests/achievements.test.js:38); the empty catalog fails it (tests/achievements.test.js:30) |
| `Time.IsCalendar` | src/App.jsx:225-234 | definition: what is assumed of `setHours(0, 0, 0, 0)` and `setDate(getDate() - 7)` on any local calendar, daylight-saving days included: the day's midnight is at or before the instant, and the week bound lies before today's midnight |
| `Time.UtcMidnight` | src/App.jsx:224-225 | UTC midnight is a multiple of a day, at or before `t`, and less than a day before it |
| `Time.UtcWeekStart` | src/App.jsx:233-234 | on a UTC device the week bound is a whole day, seven to eight days before `now`: seven full days before today plus today so far |
| `Time.UtcIsCalendar` | src/App.jsx:233-234 | the UTC midnight and "midnight minus 7 days" functions satisfy the calendar assumptions, so the statistics lemmas have callers |
| `Progress.Valid` | src/App.jsx:174-210 | definition: the invariant the handlers keep: one stored timestamp per search, and the unlocked list holds distinct catalog keys |
| `Progress.CheckAchievements` | src/App.jsx:154-166 | the notification is the record of the new count exactly when it is a catalog key, already unlocked or not; `unlocked` keeps its old entries as a prefix and gains an entry only when the count is a key; its new members are exactly the old ones plus that key; no duplicate is ever added |
| `Progress.Click` | src/App.jsx:174-181 | the count goes up by 1; exactly one timestamp, `now`, is appended and the earlier ones are unchanged; mute is untouched; the notification and unlocked list follow the achievement rule; the invariant is kept |
| `Progress.Undo` | src/App.jsx:197-202 | at count 0 the state is unchanged; otherwise the count drops by 1 and only the last timestamp is removed; `unlocked` and mute are never touched; one timestamp per search is kept |
| `Progress.Reset` | src/App.jsx:204-210 | when confirmed: count 0, empty history, empty unlocked list, mute kept; when not confirmed: nothing changes |
| `Progress.ToggleMute` | src/App.jsx:257 | flips `isMuted` and changes nothing else |
| `Progress.Step` | src/App.jsx:174-210 | every handler call keeps the invariant: one timestamp per search, and unlocked thresholds are distinct catalog keys |
| `Progress.RunPreservesValid` | src/App.jsx:154-210 | every sequence of handler calls keeps the invariant |
| `Progress.UnlocksPermanent` | src/App.jsx:197-202 | without a confirmed reset, no sequence of clicks, undos, declined resets or mute toggles removes an unlocked threshold |
| `Progress.UndosKeepUnlocks` | src/App.jsx:197-202 | `n` undos remove the last `min(n, count)` timestamps, lower the count the same amount (stopping at 0), and leave `unlocked` and mute as they were |
| `Progress.ClicksAppend` | src/App.jsx:174-177 | clicks at the given times add their number to the count and append exactly those times, in order |
| `Progress.ClicksFromInitial` | src/App.jsx:174-177 | from the initial state, N clicks give count N and a history equal to their times |
| `Progress.UndoAfterClick` | src/App.jsx:174-202 | an undo right after a click restores the count and the history exactly, and keeps the click's unlock |
| `Progress.SubsetCardinality` | src/App.jsx:399 | generic helper of `Score`: a subset of a finite set is no larger than it |
| `Progress.DistinctCardinality` | src/App.jsx:399 | generic helper of `Score`: a duplicate-free sequence has as many entries as its set of elements |
| `Progress.Score` | src/App.jsx:399 | on a valid state, the unlocked count shown in the heading is at most the catalog size |
| `Progress.IsUnlocked` | src/App.jsx:403 | definition: `unlockedAchievements.includes(key)`, the badge is drawn unlocked |
| `Progress.TallyCountsBadges` | src/App.jsx:399-403 | the heading's unlocked count equals the number of catalog entries drawn as unlocked |
| `Progress.ThreeClicksExample` | src/App.jsx:154-181 | with thresholds 1 and 3, three clicks notify on the first and third click only, and end with count 3 and unlocked `[1, 3]` |
| `Statistics.CountSameDay` | src/App.jsx:227-231 | today's count is at most the history length, and it is 0 exactly when no entry has today's midnight |
| `Statistics.CountAfter` | src/App.jsx:233-235 | the window count is at most the history length, and it equals it exactly when every entry lies after the bound |
| `Statistics.GetStats` | src/App.jsx:221-242 | absent exactly when the history is empty; otherwise `daysSince` is the floor of the elapsed time over a day (`daysSince*DAY <= now - first < (daysSince+1)*DAY`); the average times `daysSince` is the count when `daysSince > 0`, and the average is the count when `daysSince <= 0` |
| `Statistics.SameDayWithinWeek` | src/App.jsx:227-235 | every entry counted as today is also counted in the week window |
| `Statistics.StatsOrdered` | src/App.jsx:222-235 | `todayCount <= weekCount <= history length` for every calendar, daylight-saving ones included |
| `Statistics.CountsAppend` | src/App.jsx:227-235 | each filtered count over a concatenation is the sum of the counts of the two parts |
| `Statistics.StatsAfterClick` | src/App.jsx:221-242 | after a click at `now`, today's count and the week count each go up by 1 and `daysSince` is unchanged |
| `Statistics.SingleEntry` | src/App.jsx:221-241 | a history of one timestamp equal to `now` gives today 1, week 1, days 0 and average equal to the count |
| `App.Tracker.constructor` | src/App.jsx:5-12 | the component starts with the given catalog and restored state, and satisfies the invariant when that state does |
| `App.Tracker.CheckAchievements` | src/App.jsx:154-166 | returns the record for a threshold and appends the threshold to `unlocked` if it was not there yet; it equals `Progress.CheckAchievements` |
| `App.Tracker.HandleClick` | src/App.jsx:174-181 | count up by one, `now` appended to the history, mute untouched; the new fields and the notification are those of `Progress.Click`; the invariant is kept |
| `App.Tracker.HandleUndo` | src/App.jsx:197-202 | does nothing at count 0, otherwise removes one search; `unlocked` and mute are untouched; equals `Progress.Undo`; the invariant is kept |
| `App.Tracker.HandleReset` | src/App.jsx:204-210 | confirmed: count 0, empty history and unlocked list; declined: nothing changes; mute untouched; equals `Progress.Reset` |
| `App.Tracker.ToggleMute` | src/App.jsx:257 | flips `isMuted` only; equals `Progress.ToggleMute` |

## Left out

- Sound (`playSound`, `playSadTrombone`, `playGlitch`, `playCartoonFall`, `playMockingSound`, src/App.jsx:53-152): Web Audio with floating-point frequencies and `Math.random`. This is a side effect that does not change the modelled state.
- Vibration, sharing, the install prompt and the `navigator.share` check (src/App.jsx:15-20, 43-51, 168-172, 183-195, 212-219): browser APIs, some of them asynchronous. None of them touches the modelled state.
- Persistence (src/App.jsx:22-41): loading from and saving to `localStorage` is I/O with `parseInt` and `JSON.parse`. The `App.Tracker` constructor takes the restored state as a parameter instead.
- Notification auto-dismiss (src/App.jsx:164): a 3-second timer in the UI. The notification is the return value of the click.
- Panel visibility toggles (`showStats`, `showAchievementsList`), the JSX and `StatCard` (src/App.jsx:246-444): rendering only.
- The catalog module `./achievements` is not part of this model. The catalog is a parameter of every operation.
- `validateAchievements` lives in `index.html`, which is not part of this model. Only the rule the catalog test applies is modelled, as `Achievements.WellFormed`.
- Catalog keys are Dafny integers. JavaScript's `Number(key)` and `parseInt(key)` on object keys are not modelled, so the "key is a number" check holds of every modelled catalog.
- Timestamps are integer milliseconds. The ISO-8601 text stored in `history`, and its parsing by `new Date(...)`, are not modelled. That text round-trips milliseconds exactly.
- Calendar: time zones, daylight saving and `setHours`/`setDate` are abstract. `midnight` and `weekStart` are parameters that satisfy `Time.IsCalendar`.
- Statistics.GetStats: `avgPerDay` is the exact quotient `count / daysSince`, not the string `toFixed(1)` prints.
- Statistics.GetStats: reads the clock once, as `now`. The source reads it twice (src/App.jsx:224 and 238).
- App.Tracker.HandleClick: React's batched, asynchronous state updates are not modelled. Each handler runs to completion on the current state.
- App.Tracker.HandleClick: has no precondition, because the source demands none. It keeps the invariant when the invariant held before.
