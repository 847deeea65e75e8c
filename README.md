# Rental timer: player store and countdown, in Dafny

This project models the two pieces of logic in the inflatable-game rental tracker: the player store and the countdown timer.

The **player store** (`lib/game-store.ts`) is one mutable list of rentals (`Player`: id, name, start time, duration in minutes, status `active`/`expired`, creation time). It has the following parts:
- **Actions.** Four actions replace the list: add at the front, set a status by id, delete by id, and clear expired records.
- **Counters.** Two counters read the list.
- **Handlers.** Two subscription handlers overwrite the list with one received from elsewhere.
- **Broadcasts.** Every action dispatches a `playersUpdated` event that carries the list it commits.

The **countdown** (`components/timer-card.tsx`) has three parts:
- **The tick.** Each tick works out the time left from the record the card holds and the current time. It clamps the displayed time at zero, and it asks the store to expire the record only while that record is still active.
- **The thresholds.** The card is "expiring" in the last five minutes and "expired" at or after the end.
- **The clock text.** Milliseconds are rendered as `MM:SS`.

Modules:
- `Wrappers`: `Option`.
- `SeqFilter`: `Array.prototype.filter` as `Filter`. It is characterised by `KeptIndices`, the ascending positions it keeps, and that characterisation is the order-preservation statement used for delete and clear.
- `GameStore`: the `Player` record and the pure list functions each action commits. It also holds the lemmas about those functions and the `Store` class. The class has a `players: seq<Player>` field, and a ghost `broadcasts` log that records every dispatched event.
- `TimeFormat`: `formatTime` and the JavaScript steps it uses: floor division, `%` with the sign of the dividend, `Number#toString` and `padStart`. It also has a reader, `ParseClock`, that takes `MM:SS` back to minutes and seconds.
- `TimerCard`: `UpdateTimer` for one tick, the threshold predicates and the displayed text. `TickCard` applies a tick to the store. `ExpiryRequests` counts the requests over a run of ticks made by a card that always holds the store's current record.

The clock, the id generator and the parsed storage payload are parameters: `now`, `id` and a `StorageValue`.

Three behaviours of the code that a reader might not expect:
- **Unknown ids still broadcast.** `updatePlayerStatus` and `deletePlayer` on an unknown id leave the list unchanged, but they still dispatch an event.
- **Ids can repeat.** `addPlayer` does not guarantee a fresh id. `AddPlayer` therefore has no freshness requirement, and only the add-then-delete lemma assumes one.
- **Each record expires at most once only if the card sees the current record.** This holds only when the card's record is the store's current one (`ExpiryRequestedOnce`, `RefreshedTickIsQuiet`). A card fed a snapshot that is never refreshed asks again on every tick (`StaleSnapshotAsksAgain`). `components/employee-dashboard.tsx` is the only component that renders `TimerCard` (`components/admin-dashboard.tsx` lists records without cards). Its cards hold records from its one remote fetch (`components/employee-dashboard.tsx:28-39`), while `updatePlayerStatus` writes to the local store. So in the app as written the current-record case of `ExpiryRequestedOnce` never arises, and every card is in the stale-snapshot case.

## Model

| member | source | states |
|---|---|---|
| `SeqFilter.Filter` | lib/game-store.ts:90 | the filtered list is no longer than the input; it holds exactly the input elements the predicate accepts |
| `SeqFilter.FilterKeepsOrder` | lib/game-store.ts:142 | the filtered list is the accepted elements taken at strictly increasing positions, and every accepted position is taken |
| `SeqFilter.FilterAllKept` | lib/game-store.ts:90 | filtering a list whose every element is accepted returns it unchanged |
| `SeqFilter.FilterIdempotent` | lib/game-store.ts:142 | filtering twice with the same predicate equals filtering once |
| `SeqFilter.FilterConcat` | lib/game-store.ts:63-90 | filtering distributes over concatenation |
| `GameStore.WithStatus` | lib/game-store.ts:76 | same length; each record keeps all its fields except status; status becomes the new one exactly on records with the id |
| `GameStore.Find` | lib/game-store.ts:89 | `None` exactly when no record has the id; otherwise the first record carrying it |
| `GameStore.NewPlayer` | lib/game-store.ts:53-60 | the record `addPlayer` builds: active, with start and creation time both `now` (see Left out on the separate clock reads), and the given id, name and duration |
| `GameStore.WithoutPlayer` | lib/game-store.ts:90 | defined as the filter on `player.id !== id`; no kept record has the id and the list does not grow; its order and no-op properties are stated by `WithoutPlayerSpec`, `WithoutPlayerAbsent` and `WithoutPlayerIdempotent` |
| `GameStore.ActivePlayers` | lib/game-store.ts:142 | defined as the filter on `player.status === "active"`; every kept record is active and the list does not grow; order and completeness are stated by `ActivePlayersSpec` |
| `GameStore.ActiveCount` | lib/game-store.ts:133 | defined as the length of `ActivePlayers`; never more than the total; equality exactly when all records are active is stated by `ActiveCountBounds` |
| `GameStore.AddedCounts` | lib/game-store.ts:52-70 | prepending an active record raises the total count by 1 and the active count by 1 |
| `GameStore.AddThenDelete` | lib/game-store.ts:63 | deleting a freshly added record by its (fresh) id gives back the previous list |
| `GameStore.WithStatusAbsent` | lib/game-store.ts:76 | an update for an id no record has leaves the list identical |
| `GameStore.WithStatusIdempotent` | lib/game-store.ts:76 | applying the same (id, status) twice equals applying it once |
| `GameStore.FindWithStatus` | lib/game-store.ts:74-76 | after the update, the record found for the id is the old one with the new status |
| `GameStore.WithoutPlayerSpec` | lib/game-store.ts:90 | no record with the id remains; every other record remains, in original relative order |
| `GameStore.WithoutPlayerAbsent` | lib/game-store.ts:90 | deleting an absent id is a no-op |
| `GameStore.WithoutPlayerIdempotent` | lib/game-store.ts:90 | deleting twice equals deleting once |
| `GameStore.ActivePlayersSpec` | lib/game-store.ts:142 | clearing keeps exactly the active records, in original order; afterwards the active count equals the total |
| `GameStore.ClearExpiredIdempotent` | lib/game-store.ts:140-142 | a second clear changes nothing |
| `GameStore.ActiveCountBounds` | lib/game-store.ts:132-138 | the active count is at most the total, with equality exactly when every record is active |
| `GameStore.Store.constructor` | lib/game-store.ts:40 | the store starts with an empty list and nothing broadcast |
| `GameStore.Store.AddPlayer` | lib/game-store.ts:52-72 | the new list is the new active record (start and creation time `now`, given id, name and duration) followed by the old list unchanged; counts rise by one; one `add` event carrying the new list is dispatched |
| `GameStore.Store.UpdatePlayerStatus` | lib/game-store.ts:74-85 | the new list is `WithStatus` of the old; identical when the id is absent; one `update` event carrying the new list is dispatched |
| `GameStore.Store.DeletePlayer` | lib/game-store.ts:87-99 | the new list is the old without the id; no record with the id remains; no-op for an absent id; one `delete` event carries the new list and the record found before deletion |
| `GameStore.Store.ClearExpiredPlayers` | lib/game-store.ts:140-151 | the new list is the active records of the old; active count equals total afterwards; one `clearExpired` event carrying the new list is dispatched |
| `GameStore.Store.GetActivePlayersCount` | lib/game-store.ts:132-134 | returns the number of active records, at most the total, equal to it exactly when all are active |
| `GameStore.Store.GetTotalPlayersCount` | lib/game-store.ts:136-138 | returns the length of the list |
| `GameStore.Store.OnPlayersUpdated` | lib/game-store.ts:115-118 | the list becomes the event's list; nothing is broadcast |
| `GameStore.Store.OnStorageChange` | lib/game-store.ts:102-113 | the list becomes `state.players` exactly when the key is `game-store`, the value parsed and `state.players` is present; otherwise it is unchanged |
| `TimeFormat.NatToString` | components/timer-card.tsx:68 | non-empty digit string; one digit exactly below 10, two digits exactly from 10 to 99 |
| `TimeFormat.PadStart` | components/timer-card.tsx:68 | pads with the fill character up to the width and never truncates; the input is the suffix of the result |
| `TimeFormat.JsRem` | components/timer-card.tsx:67 | the remainder lies in `[0, b)` for a non-negative dividend and in `(-b, 0]` for a negative one |
| `TimeFormat.IntToString` | components/timer-card.tsx:68 | `Number#toString` on an integer: the plain decimal digits for `n >= 0`, a `-` followed by digits otherwise |
| `TimeFormat.Pad2` | components/timer-card.tsx:68 | `toString().padStart(2, "0")`: at least two characters, all digits for `n >= 0`, exactly two for `0 <= n < 100`; it reads back as `n` by `Pad2ReadsBack` |
| `TimeFormat.FormatTime` | components/timer-card.tsx:64-69 | `formatTime`: at least five characters for every integer; for `ms >= 0` a colon three from the end followed by two digits; the round trip is stated by `FormatTimeRoundTrip` |
| `TimeFormat.FormatTimeZero` | components/timer-card.tsx:64-69 | zero milliseconds render as `00:00` |
| `TimeFormat.FormatTimeFields` | components/timer-card.tsx:64-68 | for `ms >= 0`, whole seconds `t = ms/1000` split as `m*60 + s` with `s < 60`, and the text is `Pad2(m) + ":" + Pad2(s)` |
| `TimeFormat.DigitsValueOfNat` | components/timer-card.tsx:68 | the decimal text of `n` reads back as `n` |
| `TimeFormat.DigitsValueLeadingZeros` | components/timer-card.tsx:68 | zero padding does not change the value read back |
| `TimeFormat.Pad2ReadsBack` | components/timer-card.tsx:68 | a padded field is all digits and reads back as its value; its length is 2 below 100 and the full digit count from 100 on |
| `TimeFormat.SplitAtFirstColon` | components/timer-card.tsx:68 | splitting `a + ":" + b` at the first colon, for colon-free `a`, gives `a` and `b` |
| `TimeFormat.FormatTimeRoundTrip` | components/timer-card.tsx:64-68 | parsing the two fields of `FormatTime(ms)` gives minutes and seconds with seconds below 60 and `m*60 + s == ms/1000` |
| `TimeFormat.FormatTimeShape` | components/timer-card.tsx:68 | the text has a colon three from the end and exactly two second digits; its length is the minutes field's (2, or all its digits from 100 minutes on) plus 3 |
| `TimeFormat.FormatTimeFiveChars` | components/timer-card.tsx:68 | below 6,000,000 ms the text is exactly five characters |
| `TimerCard.Remaining` | components/timer-card.tsx:29-31 | the remaining time is at most 0 exactly when `now` has reached `startTime + duration*60000`, and is the full duration at the start |
| `TimerCard.IsExpiring` | components/timer-card.tsx:71 | `0 < timeLeft <= 300000`; never true together with `IsExpired`; its tie to the rental's last five minutes is stated by `TickThresholds` |
| `TimerCard.IsExpired` | components/timer-card.tsx:72 | defined as `timeLeft <= 0`; its tie to the end of the rental is stated by `TickThresholds` |
| `TimerCard.DisplayedTime` | components/timer-card.tsx:107 | the card's time text: always at least five characters with a colon three from the end followed by two digits; it equals `formatTime` of the clamped time by `DisplayedTimeIsClamped` and reads back by `DisplayedTimeReadsBack` |
| `TimerCard.UpdateTimer` | components/timer-card.tsx:28-50 | time left is never negative; it is 0 (progress 0) when remaining is at most 0, otherwise the remaining time; expiry is requested exactly when remaining is at most 0 and the held record is active |
| `TimerCard.TimeLeftNonIncreasing` | components/timer-card.tsx:29-35 | for a fixed record, later ticks have no more remaining time and no more time left |
| `TimerCard.ProgressBounds` | components/timer-card.tsx:46-49 | from the start of a positive-length rental, progress lies between 0 and the full duration |
| `TimerCard.TickThresholds` | components/timer-card.tsx:71-72 | after a tick the card is expired exactly when the rental is over and expiring exactly in its last 300000 ms, never both |
| `TimerCard.DisplayedTimeIsClamped` | components/timer-card.tsx:107 | the fixed `00:00` is `formatTime(0)`, so the card shows `formatTime` of the time left clamped at 0 |
| `TimerCard.DisplayedTimeReadsBack` | components/timer-card.tsx:107 | the displayed text always reads back as the whole seconds left, clamped at 0 |
| `TimerCard.TickCard` | components/timer-card.tsx:33-37 | the tick's result is `UpdateTimer`; the store is updated with `expired` exactly when the tick requests it, else unchanged; no expired record becomes active; with the current record, the refreshed record is expired and the next tick requests nothing, and the store and request are exactly `StepCurrent` |
| `TimerCard.StepCurrent` | components/timer-card.tsx:33-37 | a tick by a card holding the store's current record requests expiry exactly when that record exists, is active and is due, and the store then becomes the list with that record expired, else stays unchanged; `TickCard` with the current record produces exactly this step |
| `TimerCard.ExpiryRequests` | components/timer-card.tsx:33-37 | a run of ticks makes at most one request per tick and none for an id the store does not hold (the exact count is `ExpiryRequestedOnce`) |
| `TimerCard.ExpiryRequestedOnce` | components/timer-card.tsx:33-37 | over any run of ticks by a card holding the current record, expiry is requested once if the record is active and some tick is due, and never otherwise |
| `TimerCard.RefreshedTickIsQuiet` | components/timer-card.tsx:36-37 | after an expiry request with the current record, the refreshed record is expired and the next tick requests nothing |
| `TimerCard.StaleSnapshotAsksAgain` | components/timer-card.tsx:36-37 | a card whose active snapshot is never refreshed requests expiry again on every later tick, although the store already holds the record as expired |

## Left out

- React rendering, `useState`/`useEffect` and the `setInterval` scheduling: a tick is a function of `now`. A run of ticks is a sequence of times (`ExpiryRequests`).
- The card's state before its first tick (`useState(0)` for time left) is not modelled. The effect ticks immediately on mount.
- `Date.now()` and the `Math.random()` id are parameters (`now`, `id`). Id uniqueness is not modelled, because the code does not guarantee it.
- The zustand `persist` middleware, localStorage and `JSON.parse`: a storage event's payload arrives already parsed as a `StorageValue`. A `null` new value parses as `{}` and so arrives as `Parsed(None)`. A `state.players` that is present but not a list is not modelled.
- `window.dispatchEvent` and the event listeners: broadcasts are a ghost log. The same-tab handler runs synchronously inside the action and sets the very list the action then commits. The model shows it as a separate `OnPlayersUpdated` call whose result equals the committed list.
- Registering and removing listeners (`subscribeToPlayers` returning its cleanup function) is not modelled. The model covers only what each handler does to the list.
- `loading`, `error`, `setLoading`, `setError` and `fetchPlayers` are not modelled. They set UI flags and never touch the list.
- The percentage progress is a floating-point value, so it appears as the integer pair (time left, `duration * 60000`).
- The browser `Notification` calls are not modelled.
- Name trimming, the duration input check and the sort by creation time in `components/admin-dashboard.tsx` are not modelled. They are view code; the store accepts any name and any integer duration.
- `components/employee-dashboard.tsx` (network fetch), `app/page.tsx`, `components/login-form.tsx` and `hooks/use-realtime-sync.ts` are not part of this model.
- GameStore.NewPlayer: `addPlayer` reads `Date.now()` three times, for the id, `startTime` and `createdAt` (lib/game-store.ts:54, 56, 59). The model reads the clock once, so it makes `startTime` and `createdAt` equal; in the code they can differ by a clock tick.
- JavaScript numbers are doubles. The model uses unbounded integers, so it does not capture rounding above 2^53. TimeFormat.IntToString does not capture the exponent form (`"1e+21"`) that `Number#toString` switches to from 10^21.
- GameStore.Store.constructor: `persist` (lib/game-store.ts:38, 153-155) reloads the saved list when the store is created. The constructor models only the initial value at lib/game-store.ts:40, so "starts empty" holds only when nothing was saved.
- TimeFormat.JsRem: states only the sign and range of the remainder, not the identity `a == q*b + r` with a truncated quotient. `|FormatTime(ms)| >= 5` holds for every integer; the colon-and-digits shape and the round trip through `ParseClock` are proved only for non-negative input, the only input the card passes to it.
