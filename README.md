# Log viewer filter of v2rayNG, in Dafny

v2rayNG's log screen (`LogcatActivity`) reads the device log and shows it after
one filtering pass. One category of line is noisy: lines mentioning
`NotFoundException` (in any letter case). The activity has a small per-key
cooldown gate (`DebounceManager`) that lets such a line through at most once
every 5000 ms. On top of that, each batch shows at most one such line. After
filtering, the batch is cut to its first 500 lines. The "clear all" menu action
resets the gate's entry for the marker and then reloads the log.

The model has three modules:

- `Text` (`text.dfy`) is the case-insensitive substring test that decides
  whether a line is a marker line. `RegionMatches` and `ContainsIgnoreCase`
  compare character by character after ASCII lower-casing. `Text` proves that
  this is exactly "the lower-cased marker occurs in the lower-cased line".
- `Debounce` (`debounce.dfy`) is the gate. `Gate` is one call as a value: the
  verdict and the new table. `DebounceManager` is the class with its
  `debounceMap` field. Its `ShouldProcess` and `Reset` methods update that
  field in place. `ShouldProcess` is proved against `Gate`, and `Reset`
  against removing the key from the map. The clock is not read: each call
  receives the current time `now`.
- `LogFilter` (`log_filter.dfy`) is the batch filter.
  - `Scan` is the specification of the loop, one line per turn. `StepLine`
    is one turn.
  - `ProcessLogs` is the imperative loop. It drives a `DebounceManager`
    object, and its loop invariant ties it to `Scan`.
  - `ClearAll` is the "clear all" action.
  - The lemmas about `Scan` are stated for any line test `isMarker`. The
    activity uses `IsMarkerLine`.

The time the gate would read is passed as a sequence `clock`. `clock[i]` is
the clock reading at the moment `logs[i]` is examined.

Two behaviours of the code are easy to misread:

- The batch flag `notFoundLogged` is set only when the gate accepts a marker
  line. A marker line the gate rejects is dropped. The next marker line of the
  same batch is then offered to the gate again, so one batch may call the gate
  several times (`RejectedMarkersAreRetried`). The flag does not mean "first
  marker line seen".
- The gate compares with a strict `>`. An elapsed time of exactly 5000 ms is
  still rejected (`BoundaryIsRejected`).

## Model

| member | source | states |
|---|---|---|
| Debounce.Gate | V2rayNG/app/src/main/java/com/v2ray/ang/ui/LogcatActivity.kt:36-47 | The call passes exactly when `now` minus the stored time exceeds 5000, where the stored time is 0 for an unseen key. On a pass the key's entry becomes `now`. On a rejection the table is unchanged. |
| Debounce.DebounceManager.constructor | V2rayNG/app/src/main/java/com/v2ray/ang/ui/LogcatActivity.kt:32-33 | A new gate starts with an empty table. |
| Debounce.DebounceManager.ShouldProcess | V2rayNG/app/src/main/java/com/v2ray/ang/ui/LogcatActivity.kt:36-47 | The verdict and the new `debounceMap` are those of `Gate` on the old map. It returns true iff more than 5000 ms have passed since the key's last acceptance (0 if never). On true the map gains `key := now`. On false the map is unchanged. |
| Debounce.DebounceManager.Reset | V2rayNG/app/src/main/java/com/v2ray/ang/ui/LogcatActivity.kt:49-52 | The key is removed. Every other key keeps its presence and its value. |
| Debounce.SecondCallAfterAcceptance | V2rayNG/app/src/main/java/com/v2ray/ang/ui/LogcatActivity.kt:39-43 | After an accepted call at t1, a call for the same key at t2 passes exactly when t2 - t1 > 5000. |
| Debounce.BoundaryIsRejected | V2rayNG/app/src/main/java/com/v2ray/ang/ui/LogcatActivity.kt:39-41 | A call exactly 5000 ms after the stored time is rejected. |
| Debounce.RejectionIsStable | V2rayNG/app/src/main/java/com/v2ray/ang/ui/LogcatActivity.kt:44-45 | A rejected call leaves the table as it was, so repeating it at the same time is rejected again. |
| Debounce.AcceptanceIsMonotonicInTime | V2rayNG/app/src/main/java/com/v2ray/ang/ui/LogcatActivity.kt:39-41 | If a key would pass at time t, it would also pass at any later time. |
| Debounce.GateKeepsOtherKeys | V2rayNG/app/src/main/java/com/v2ray/ang/ui/LogcatActivity.kt:42-43 | A call for one key changes neither the presence nor the value of any other key. |
| Debounce.KeysAreIndependent | V2rayNG/app/src/main/java/com/v2ray/ang/ui/LogcatActivity.kt:38-43 | A call for one key does not change the verdict of a later call for a different key. |
| Debounce.ResetThenAccepted | V2rayNG/app/src/main/java/com/v2ray/ang/ui/LogcatActivity.kt:49-52 | After a reset of a key, any call for it at `now > 5000` passes. The table is then the old table with `key := now`. |
| Text.RegionMatchesIsLowerPrefix | V2rayNG/app/src/main/java/com/v2ray/ang/ui/LogcatActivity.kt:103 | A case-insensitive region match at the start of a line holds exactly when the lower-cased pattern is a prefix of the lower-cased line. |
| Text.ContainsIgnoreCaseIffOccurs | V2rayNG/app/src/main/java/com/v2ray/ang/ui/LogcatActivity.kt:103 | The case-insensitive search succeeds exactly when the lower-cased pattern occurs at some index of the lower-cased line, in both directions. |
| Text.MatchAtIndex | V2rayNG/app/src/main/java/com/v2ray/ang/ui/LogcatActivity.kt:103 | A case-insensitive match of the pattern starting at any index of the line makes the search succeed. |
| Text.ShortLineNoMatch | V2rayNG/app/src/main/java/com/v2ray/ang/ui/LogcatActivity.kt:103 | A line shorter than the pattern never contains it. |
| LogFilter.Take | V2rayNG/app/src/main/java/com/v2ray/ang/ui/LogcatActivity.kt:115 | `take(n)` returns a prefix of the list. Its length is n, or the whole list's length when the list is shorter. |
| LogFilter.ProcessLogs | V2rayNG/app/src/main/java/com/v2ray/ang/ui/LogcatActivity.kt:97-116 | The loop returns `ProcessedLogs` of the input and the gate's old map. It leaves the gate's map as `Scan` says. It calls the gate as many times as `Scan` counts. The output has at most 500 lines, is an order-preserving subsequence of the input, and holds at most one marker line. |
| LogFilter.ClearAll | V2rayNG/app/src/main/java/com/v2ray/ang/ui/LogcatActivity.kt:139-142 | The reload filters the new log as if the gate had never seen the marker. The gate's new map is the one that scan leaves, starting from the old map without the marker key. When every clock reading is past 5000 ms, the gate afterwards holds the marker key exactly when the log has a marker line. |
| LogFilter.KeptIsSubsequence | V2rayNG/app/src/main/java/com/v2ray/ang/ui/LogcatActivity.kt:101-113 | Before the cut, the kept lines are an order-preserving subsequence of the input. |
| LogFilter.OutputIsSubsequence | V2rayNG/app/src/main/java/com/v2ray/ang/ui/LogcatActivity.kt:101-115 | The returned lines number at most 500 and are an order-preserving subsequence of the input. |
| LogFilter.KeptMarkerCount | V2rayNG/app/src/main/java/com/v2ray/ang/ui/LogcatActivity.kt:99-108 | Before the cut, the kept lines hold exactly one marker line if the batch flag is set, and none otherwise. |
| LogFilter.OutputHasAtMostOneMarker | V2rayNG/app/src/main/java/com/v2ray/ang/ui/LogcatActivity.kt:99-115 | The returned lines hold at most one marker line. |
| LogFilter.KeepsEveryPlainLine | V2rayNG/app/src/main/java/com/v2ray/ang/ui/LogcatActivity.kt:111 | Before the cut, the non-marker lines kept are exactly the non-marker lines of the input, in order. |
| LogFilter.NoMarkerKeepsAll | V2rayNG/app/src/main/java/com/v2ray/ang/ui/LogcatActivity.kt:101-113 | A batch without marker lines keeps every line, never calls the gate and leaves its table alone. |
| LogFilter.NoMarkerOutputIsPrefix | V2rayNG/app/src/main/java/com/v2ray/ang/ui/LogcatActivity.kt:111-115 | Without marker lines the output is the first min(500, n) input lines. |
| LogFilter.SilentAfterAcceptance | V2rayNG/app/src/main/java/com/v2ray/ang/ui/LogcatActivity.kt:104-108 | Once the flag is set after some prefix, the rest of the batch makes no gate call and leaves the table as it was after that prefix. |
| LogFilter.RejectedMarkersAreRetried | V2rayNG/app/src/main/java/com/v2ray/ang/ui/LogcatActivity.kt:104-108 | While the flag is unset, every marker line so far was offered to the gate and rejected, the table is unchanged, and only the non-marker lines were kept, so the next marker line is offered again. |
| LogFilter.LoggedMeansAccepted | V2rayNG/app/src/main/java/com/v2ray/ang/ui/LogcatActivity.kt:104-108 | The flag ends up set exactly when the gate, in its starting state, would accept some marker line at that line's time. In that case the gate was called at least once and no more often than there are marker lines. |
| LogFilter.AcceptedMarkerIsRecorded | V2rayNG/app/src/main/java/com/v2ray/ang/ui/LogcatActivity.kt:105-107 | When the flag is set, there is a marker line that the starting gate accepts at its time, and the gate's table is the starting table with the marker key set to exactly that time. |
| LogFilter.PlainAfterAcceptance | V2rayNG/app/src/main/java/com/v2ray/ang/ui/LogcatActivity.kt:104-111 | Once the flag is set, the lines that follow add exactly their non-marker lines to the kept lines, and the flag stays set. |
| LogFilter.FirstAcceptedIsKept | V2rayNG/app/src/main/java/com/v2ray/ang/ui/LogcatActivity.kt:101-113 | If line j is the first marker line the starting gate accepts, the batch keeps the non-marker lines before j, then line j, then the non-marker lines after j. The gate records line j's time. The gate is called once for each marker line up to and including j. |
| LogFilter.FreshGateKeepsFirstMarker | V2rayNG/app/src/main/java/com/v2ray/ang/ui/LogcatActivity.kt:101-113 | On a gate without the marker key, if the first marker line of a batch has a clock reading past 5000 ms, that line is the one kept. The gate is called exactly once and records that line's time. |
| LogFilter.NextBatchWithinWindow | V2rayNG/app/src/main/java/com/v2ray/ang/ui/LogcatActivity.kt:39-45 | After a batch that kept a marker line, a following batch whose clock readings are all within 5000 ms of the recorded time shows no marker line. |
| LogFilter.FreshGateAcceptsFirstMarker | V2rayNG/app/src/main/java/com/v2ray/ang/ui/LogcatActivity.kt:104-108 | On a gate without the marker key and with clock readings past 5000 ms, a batch sets its flag exactly when it has a marker line. It also records the marker key exactly then, and the gate was called only once. |
| LogFilter.TwoMarkerBatch | V2rayNG/app/src/main/java/com/v2ray/ang/ui/LogcatActivity.kt:101-115 | On a fresh gate, a batch "plain, marker, plain, marker, plain" keeps every line but the second marker line. It calls the gate once and records the first marker line's time. |
| LogFilter.MarkerAnywhere | V2rayNG/app/src/main/java/com/v2ray/ang/ui/LogcatActivity.kt:103 | A line with the marker at any position, in any letter case, is a marker line. |

## Left out

- Running `logcat` and reading its output (LogcatActivity.kt:55-95) are left out because they are process I/O. This covers the `logcat -c` flush that "clear all" triggers through `logcat(true)`. `ProcessLogs` and `ClearAll` receive the lines read as a parameter.
- The clock (`System.currentTimeMillis()`) is left out because it is an external input. Every gate call receives `now`, and a batch receives one reading per line in `clock`.
- `@Synchronized` on the gate's methods is left out because the model is single-threaded. Concurrent batches are not modelled.
- The `IOException` path, the toast, the progress bar and the display (`updateLogDisplay`, the menu's "copy all") are UI work with no logic to model.
- Debounce.Gate: does not model 64-bit `Long` wrap-around of `currentTime - lastProcessTime`, because clock readings stay far from the `Long` range.
- Text.ContainsIgnoreCaseIffOccurs: case folding covers ASCII letters only, because Kotlin's full Unicode case-insensitive comparison has no model here.
- The `private const val` inside a nested class is a compile-time detail of the Kotlin source. The model uses the constant `DebounceDuration` = 5000 directly.
