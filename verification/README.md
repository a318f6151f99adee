# Protocols, keys, calendars and money of the CRM

A Dafny model of the algorithms in the CRM that have to be right on every input or in every run. One module per component:

- **Streams and asynchronous protocols.** `SseFraming` and `SseStream` are the hand-written event-stream reader: cutting the
  text into blocks whatever the chunks are, and reconnecting. `DatabaseProbe` is the cached database check with one query in
  flight. `DebouncedValue`, `RateKey`, `CourierRates` and `ShippingCharge` are the path from the edited parcel to the charge on
  the screen. `SessionSet` and `Reminders` are the follow-up alerts and their memory across reloads. Each protocol is a state
  and a `Step` per event (network outcome, timer, call, completion, edit, clean-up); `Run` and `After` range over all event
  sequences that can happen. Where the source keeps closure variables or fields, a class with those fields performs the same
  steps, each method proved equal to its `Step`; what it takes from the browser, the network or the clock is an event's data.
- **Printers, parsers and keys.** `Csv` has the two CSV writers and a reader for section 2 of RFC 4180. `JsonText`, `Sorting`
  and `CartKey` are the cart key. `UrlQuery` and `DashboardFilters` are the dashboard's filters and their URL. `PhoneNumber`
  is the canonical phone form.
- **Calendar.** `Calendar` has the proleptic Gregorian calendar, `DatePresets` the preset ranges, `MonthGrid` the attendance
  month, `DayBounds` the India-day bounds of the abandonment filters.
- **Scheduling and allocation.** `FollowUpConflict` is the search for the next free reminder time, `RoundRobin` and
  `AssignDialog` the dealing of leads and the dialog around it.
- **Money.** `Money` and `Discount` are whole paise, rounded half up, in two implementations.
- **The repair run.** `RepairLoop` is the budgeted loop with retries, a write cap and its stopping rules; the order service is
  an oracle with arbitrary outcomes.

`Text` holds what they share: trimming, joining, mapping, string order.

## Where the code and its descriptions differ

The model follows the code. Each of these is proved, with the exact condition where there is one.

- `--max-repairs` "stops after N orders have actually been written" (repair-shopify-addresses.ts:8). The code counts orders
  it *attempts* to write, and goes on previewing and skipping afterwards (`OutcomeMeaning`). The cap is kept by every run exactly when it is a
  whole number; a fraction lets it be rounded up, and text that is not a number is no cap (`CapIsKeptIffWhole`, `NotANumberIsNoCap`).
- Two kinds of carts share one key space: a full list and a names-only list collide when the names read like items with
  quantities (`MixedKeysCollide`, with the witness `MixedKeysCanCollide`).
- `exportCsv` leaves a bare carriage return outside quotes, which the RFC's grammar does not allow, and its missing final
  line break makes a last row of one empty cell unreadable (`ManagerCsvRoundTrip`). The attendance writer has neither problem.
  Both write characters other than printable ASCII, which the RFC's TEXTDATA does not include: such a file is read back by the
  readers that take other characters and rejected by the RFC's own grammar (`AttendanceCsvReadsBack`, `ManagerCsvReadsBack`).
- `monthEnd` and `addMonths` use `Date.UTC`, which takes the years 0 to 99 as 1900 to 1999: they give the expected date exactly
  from the year 100 on (`MonthEndFromYear100`, `GridRows`, `AddedMonths`, `MonthStepsAreUndone`).
- The week loop of the month grid ends for every month but January of year 0 and December 9999. There its variable turns into a
  year and month without a day, which is its own next week and sorts below every date (`LoopEndsIffRoom`).
- A preset whose range would begin before year 0 is no range of dates (`RollingPresets`, `WeekPresets`, `MonthPresets`).
- A hundred hops find the least free time whenever at most a hundred reminder times can still be in the way; 101 reminders
  back to back defeat them (`HundredHopsCanFail`). The suggestion is cut to its minute, so it is free exactly when the free
  time is a whole minute (`ShownSuggestionIsFree`).
- "Only after it has stopped changing" does not hold for the value the hook is mounted with, nor for going back to the value
  that is already settled: both pass at once (`MountRequestsAtOnce`, `ReturningSettlesAtOnce`).
- The alert memory keeps 200 keys, so a tick after a reload repeats an alert exactly if its window is open and it is not among
  the 200 newest (`GivenAfterReload`, `ReloadCanRepeat`), and never before 200 others have been given (`NoAlertIsRepeated`).
- The salespeople can be fetched again while the dialog is open. "Select all" of a team that has lost somebody leaves that
  person's manual choices behind, and only that does; the plan leaves those leads out (`StepKeepsInv`, `LostChoice`).
- `name in LABELS` also accepts names that every object inherits, so a URL with `range=toString` is not well typed (`AnyUrlIsWellTyped`).
- The two discount previews accept the same texts but word three rejections differently (`ComplaintsAgree`).

## Model

| member | source | states |
|---|---|---|
| SseFraming.FramingIsUnique | frontend/hooks/use-sse-stream.ts:57-60 | The blocks and the leftover buffer are the one and only way to split the text at its leftmost blank lines: they rebuild the text, no block touches an earlier separator, none is left in the rest. |
| SseFraming.FramingResumes | frontend/hooks/use-sse-stream.ts:56-60 | Splitting a text and later splitting the kept rest with more text behind it gives the blocks and the rest of the whole text. |
| SseFraming.ChunkIndependence | frontend/hooks/use-sse-stream.ts:49-69 | However a text is cut into chunks, the same events are delivered in the same order and the same buffer is left. |
| SseFraming.DeliveredIsTheParsedData | frontend/hooks/use-sse-stream.ts:57-68 | The events of a text are the values, in order and once each, of exactly those blocks of its leftmost split that are `data:` and a payload which parses once trimmed. |
| Text.TrimTakesOffSpace | frontend/hooks/use-sse-stream.ts:64 | Trimming takes off the white space at both ends and nothing else. |
| Text.SpacesAre | frontend/hooks/use-sse-stream.ts:64 | The 25 characters ECMA-262 counts as white space or line terminators. |
| SseFraming.DeliveredResumes | frontend/hooks/use-sse-stream.ts:57-68 | The events of a text with more behind it are its own events and then those of the kept rest with the new text. |
| SseStream.ExactlyOnePending | frontend/hooks/use-sse-stream.ts:36-97 | In every run there is at most one live connection or pending retry; there is none only after clean-up or a 401/403; after clean-up no timer is left and a live call has been aborted; after a refusal nothing is left. |
| SseStream.NeverStuck | frontend/hooks/use-sse-stream.ts:36-77 | Until it is halted the stream has a live connection to which the network can do anything, or a timer that can fire. |
| SseStream.KindsOfEvents | frontend/hooks/use-sse-stream.ts:45-46 | A response is refused for 401 and 403, accepted for 200 to 299 with a body, and a failure otherwise, as are an ended and a failed connection. |
| SseStream.RunIsRecorded | frontend/hooks/use-sse-stream.ts:30-77 | In every run one connection is made at the start and one by each timer that fires, one wait is scheduled by each failure before clean-up and is that of the pending timer, and silence is counted from the newest start or chunk. |
| SseStream.NothingStartsAfterHalt | frontend/hooks/use-sse-stream.ts:45-75 | After clean-up or a 401/403 no connection is started and no wait is scheduled, whatever still happens. |
| SseStream.BackoffFollowsTheSchedule | frontend/hooks/use-sse-stream.ts:48-75 | `attempt` is the number of failures since the last accepted response, and the waits since then are the schedule. |
| SseStream.BackoffIsScheduled | frontend/hooks/use-sse-stream.ts:74 | The formula gives 1, 2, 4, 8, 16 and then always 30 seconds. |
| SseStream.EventsAreThoseOfTheSessions | frontend/hooks/use-sse-stream.ts:48-69 | Over any run of reconnects the handler has seen exactly the events of each connection's own text, connection after connection. |
| SseStream.SilenceIsAborted | frontend/hooks/use-sse-stream.ts:79-82 | In every run, with a watchdog tick at least every 10 s, a live connection that stays silent is aborted more than 60 s and at most 70 s after its newest sign; earlier ticks change nothing. |
| SseStream.EventStream.constructor | frontend/hooks/use-sse-stream.ts:30-34 | The effect begins with one connection and nothing else. |
| SseStream.EventStream.OpenConnection | frontend/hooks/use-sse-stream.ts:36-43 | A connection gets a new controller and restarts the silence clock. |
| SseStream.EventStream.OnResponse | frontend/hooks/use-sse-stream.ts:45-51 | A refusal ends everything, an accepted response resets `attempt`, any other is a failure. |
| SseStream.EventStream.OnChunk | frontend/hooks/use-sse-stream.ts:53-69 | The nested extraction loop terminates, delivers the events of the buffered text and keeps its rest. |
| SseStream.EventStream.Handle | frontend/hooks/use-sse-stream.ts:62-67 | A `data:` block whose payload parses is delivered once; anything else is skipped. |
| SseStream.EventStream.ScheduleRetry | frontend/hooks/use-sse-stream.ts:73-76 | Unless stopped, a failed connection leaves one timer with the current backoff. |
| SseStream.EventStream.OnTimer | frontend/hooks/use-sse-stream.ts:74 | A timer that fires opens the next connection. |
| SseStream.EventStream.DropIfStale | frontend/hooks/use-sse-stream.ts:79-86 | After more than 60 s of silence the current controller is aborted, otherwise nothing happens. |
| SseStream.EventStream.Unmount | frontend/hooks/use-sse-stream.ts:90-96 | Clean-up stops the stream, clears the retry timer and aborts the current controller. |
| DatabaseProbe.SingleFlight | backend/src/lib/dbHealth.ts:38-48 | In every interleaving at most one query is unsettled, and each query starts no sooner than `ttl` after the one before it settled. |
| DatabaseProbe.FinallyMeetsItsOwnQuery | backend/src/lib/dbHealth.ts:43-45 | `finally` empties the slot whatever is in it, but whenever it can run for a query, that query is in the slot and is the newest. |
| DatabaseProbe.WhatACallGets | backend/src/lib/dbHealth.ts:42-46 | A call gets what the newest query to settle settled with, if that is younger than `ttl`, and otherwise joins the newest query; exactly when none is in flight it starts one, at the time of the call. |
| DatabaseProbe.JoinersGetTheJoinedResult | backend/src/lib/dbHealth.ts:43-46 | However long it waits, a caller who was not served from the cache is given what the query it joined settled with. |
| DatabaseProbe.EveryCallerIsServed | backend/src/lib/dbHealth.ts:41-47 | Every call has been answered exactly once or is still waiting. |
| DatabaseProbe.RepliesAreTruthful | backend/src/lib/dbHealth.ts:42-46 | Every reply is given by one event of the run: a cached one to a call, with the newest result settled by then and its age, younger than `ttl`; any other to a caller who goes on, with what its query settled with. |
| DatabaseProbe.ResultsAreThoseOfTheEvents | backend/src/lib/dbHealth.ts:43-44 | A query has a result exactly if it settled with it at that time, and what is remembered is what settled last. |
| DatabaseProbe.QueriesAreStartedByCalls | backend/src/lib/dbHealth.ts:43 | Every query was started by a call that found none in flight, at the time of that call. |
| DatabaseProbe.NobodyIsStuck | backend/src/lib/dbHealth.ts:41-47 | Whoever waits, the query can settle with anything, its `finally` can run, or the caller can go on. |
| DatabaseProbe.CachedDatabaseCheck.Check | backend/src/lib/dbHealth.ts:41-46 | A call up to its first `await` is the `Call` step. |
| DatabaseProbe.CachedDatabaseCheck.OnSettled | backend/src/lib/dbHealth.ts:44 | A settled query is remembered with its time. |
| DatabaseProbe.CachedDatabaseCheck.OnFinally | backend/src/lib/dbHealth.ts:45 | The callback of any settled query leaves none in flight, and its waiting callers can go on. |
| DatabaseProbe.CachedDatabaseCheck.OnAwaited | backend/src/lib/dbHealth.ts:46 | A waiting caller is answered with the result of the query it joined. |
| RateKey.KeyIsInjective | frontend/lib/package-dimensions.ts:135 | Two requests have one key only if all their inputs are equal, even if a pincode contains the separator. |
| DebouncedValue.StepsKeepInv | frontend/hooks/useDebouncedValue.ts:4-11 | The pending timer always belongs to the current value; the debounced value is the first one or one that had been held for the whole delay. |
| DebouncedValue.Debouncer.OnRender | frontend/hooks/useDebouncedValue.ts:6-9 | A changed value restarts the timer, an unchanged one changes nothing. |
| DebouncedValue.Debouncer.OnTimer | frontend/hooks/useDebouncedValue.ts:7 | The timer passes the current value on. |
| CourierRates.ShownResultIsForTheCurrentInputs | frontend/hooks/useCourierRates.ts:26-42 | What the hook returns in every run, told by the events: a result exactly if the current inputs are those of the newest timer (or of the mount) and a request with exactly their pincode, payment type, weight, dimensions and value has been answered, and then the newest answer; calculating and failed likewise. |
| CourierRates.QueryKeysAreInjective | frontend/lib/api-client/queries/delivery.queries.ts:7-8 | The flat key list, with null for what is missing, is different for different arguments. |
| CourierRates.InputsAreSeparated | frontend/lib/api-client/queries/delivery.queries.ts:7-8 | Different inputs share neither the debounced key nor the key their data is filed under, which is not that of missing inputs either. |
| CourierRates.MountRequestsAtOnce | frontend/hooks/useDebouncedValue.ts:5 | The inputs of the mount are settled at once: a run can begin with the request for exactly these. |
| CourierRates.ChangesSettle | frontend/hooks/useDebouncedValue.ts:6-9 | 600 ms after the last change the timer can fire and settles the inputs, and an open request can be answered with anything. |
| CourierRates.RefreshAsksForTheSettledInputs | frontend/hooks/useCourierRates.ts:30-33 | A request by hand is for exactly the settled inputs, or for the empty arguments if they have not settled. |
| CourierRates.RequestsWaitForTheDebounce | frontend/hooks/useCourierRates.ts:28-33 | A request that is not a refresh has exactly the current pincode, payment type, weight, dimensions and value, which are those of the mount or had been unchanged for 600 ms when some timer fired. |
| CourierRates.ReturningSettlesAtOnce | frontend/hooks/useCourierRates.ts:28-36 | Editing away hides the result, editing back before the timer fires shows it again at once. |
| ShippingCharge.SelectionIsPickedOrCheapest | frontend/lib/shipping-charge.ts:8-14 | A courier is selected exactly when one is offered with a charge; it is an offered one, has the picked courier's charge and name if that is offered, and is a cheapest one if not. |
| ShippingCharge.DefaultIsFirstCheapest | frontend/lib/shipping-charge.ts:8-14 | Unless the picked courier is offered, filtering and sorting select the first of the cheapest couriers in the order they came. |
| ShippingCharge.EqualKeysEqualCharges | frontend/lib/shipping-charge.ts:5 | Couriers with one key have one charge and one name, even if a name contains the separator. |
| ShippingCharge.ChargeMeaning | frontend/lib/shipping-charge.ts:22-30 | Exactly when each of the four kinds of charge is shown. |
| ShippingCharge.ShownChargeIsTheCourierRate | frontend/lib/shipping-charge.ts:22-30 | In every run of edits, timers and answers a rate is shown exactly if nothing is open, the inputs have settled and the newest answer for exactly these inputs is serviceable with a courier to select; it is that courier's rate, unchanged. |
| JsonText.ParseUndoesStringify | backend/src/lib/checkoutCartKey.ts:15 | A JSON reader for string arrays (section 7 of RFC 8259) gives every printed array back. |
| JsonText.PrintedArray | backend/src/lib/checkoutCartKey.ts:15 | What a printed array looks like: brackets, commas, quotes and escapes. |
| Sorting.SortIsCanonical | backend/src/lib/checkoutCartKey.ts:15 | Sorting makes two lists equal exactly when one is a rearrangement of the other. |
| CartKey.FullListsAreIdentifiedUpToOrder | backend/src/lib/checkoutCartKey.ts:9-15 | Two full lists whose items are known by something have keys, and the same key exactly when they hold the same multiset of the first of variant id, SKU, product id and lower-cased name that is not empty, with the finite quantity or none. |
| CartKey.TextMeaning | backend/src/lib/checkoutCartKey.ts:8 | What the text of a string, a number and anything else is. |
| CartKey.FullListKeyExists | backend/src/lib/checkoutCartKey.ts:9-15 | A full list has a key exactly when every item is known by one of the four. |
| CartKey.NamesAreIdentifiedUpToOrder | backend/src/lib/checkoutCartKey.ts:17-20 | Without a full list there is a key exactly when the snapshot counts no more items than there are names that are not empty, and it identifies the lower-cased names up to order. |
| CartKey.MixedKeysCollide | backend/src/lib/checkoutCartKey.ts:15-20 | A full list and a names-only list share a key exactly when the names are what the items read like, up to order. |
| CartKey.MixedKeysCanCollide | backend/src/lib/checkoutCartKey.ts:13-20 | Any one item collides with a single product whose name reads like the item's part. |
| SessionSet.LoadGivesTheNewest | frontend/components/follow-ups/follow-up-alerts.ts:64-80 | Saving and loading a set keeps exactly its 200 newest entries, in order. |
| SessionSet.SetKeepsFirsts | frontend/components/follow-ups/follow-up-alerts.ts:67 | A loaded set has each string of the array once, in the order they first come. |
| SessionSet.SessionStorage.LoadSessionSet | frontend/components/follow-ups/follow-up-alerts.ts:64-71 | Loading reads the stored JSON array, or gives the empty set. |
| SessionSet.SessionStorage.SaveSessionSet | frontend/components/follow-ups/follow-up-alerts.ts:73-80 | Saving overwrites this one entry of the storage and no other. |
| Reminders.KeysIdentifyReminders | frontend/components/follow-ups/follow-up-reminders.tsx:34 | Keys of reminders are equal only for the same task at the same time, so a snoozed reminder is new and the two alert kinds never mix. |
| Reminders.WindowsAre | frontend/components/follow-ups/follow-up-utils.ts:10-13 | The heads-up is open for the five minutes before a reminder, the pop-up for the two hours from its time on. |
| Reminders.NoAlertIsRepeated | frontend/components/follow-ups/follow-up-reminders.tsx:240-273 | In every run of ticks and reloads, two equal alerts have at least 200 others between them. |
| Reminders.NoRepeatWithoutReload | frontend/components/follow-ups/follow-up-reminders.tsx:240-273 | Without a reload no alert is ever given twice. |
| Reminders.ReloadForgetsOnlyOldAlerts | frontend/components/follow-ups/follow-up-reminders.tsx:241-242 | What a tick after a reload takes as fired is exactly the 200 newest alerts of the whole run. |
| Reminders.EveryReminderIsAnnounced | frontend/components/follow-ups/follow-up-reminders.tsx:245-270 | In a run with ticks at most 10 s apart and any reloads, a reminder listed from before its heads-up window, and not announced before, is announced 290 to 300 s ahead and again less than 10 s after its time, and by no earlier tick. |
| Reminders.AnnouncedExactlyOnce | frontend/components/follow-ups/follow-up-reminders.tsx:240-273 | Over the whole run such a reminder is announced exactly once ahead and exactly once when due, without a reload, and with reloads while no more than 201 alerts have been given. |
| Reminders.GivenAfterReload | frontend/components/follow-ups/follow-up-reminders.tsx:240-273 | A tick after a reload gives an alert exactly if its window is open and it is not among the 200 newest of the run. |
| Reminders.ReloadCanRepeat | frontend/components/follow-ups/follow-up-reminders.tsx:240-273 | More than 200 reminders due at once, a reload and another tick: the first one is announced twice. |
| Reminders.GivenIffSomeTickInWindow | frontend/components/follow-ups/follow-up-reminders.tsx:240-272 | In a run of ticks and reloads an alert has been given exactly if it had been given before or some tick since then listed the reminder inside the window. |
| Reminders.TickFiresOnlyTheCurrent | frontend/components/follow-ups/follow-up-reminders.tsx:245-270 | After a tick an alert of a reminder counts as fired exactly if it did before, or the reminder is listed and inside that alert's window. |
| Reminders.DueTask | frontend/components/follow-ups/follow-up-reminders.tsx:233-238 | The pop-up is a listed, due, undismissed reminder outside a call; outside a call there is none only if all due ones are dismissed. |
| Reminders.DueTaskIsFirst | frontend/components/follow-ups/follow-up-reminders.tsx:232-238 | One pop-up at a time: the first listed reminder that is due and not dismissed, and none if there is none. |
| Reminders.DismissedStaysAway | frontend/components/follow-ups/follow-up-reminders.tsx:221-238 | A dismissed reminder does not pop up again, also not after a reload with fewer than 200 later dismissals. |
| Reminders.FollowUpReminders.Tick | frontend/components/follow-ups/follow-up-reminders.tsx:240-273 | The loop over the tasks is the `Tick` step and leaves the dismissed set and its storage alone. |
| Reminders.FollowUpReminders.Dismiss | frontend/components/follow-ups/follow-up-reminders.tsx:224-230 | Dismissing adds the reminder and stores the set, and leaves the alerts alone. |
| FollowUpConflict.HopPassesAReminder | frontend/components/follow-ups/use-follow-up-conflict.ts:32-36 | A hop goes five minutes past the latest clashing reminder and skips only blocked times; the reminders still ahead shrink strictly. |
| FollowUpConflict.FreeMeans | frontend/components/follow-ups/use-follow-up-conflict.ts:24 | A time is free exactly if every other reminder is at least five minutes away. |
| FollowUpConflict.LeastFreeIsLeast | frontend/components/follow-ups/use-follow-up-conflict.ts:29-36 | The free time is at least the minimum gap from every other reminder and no earlier time is. |
| FollowUpConflict.HopsFindTheLeastFree | frontend/components/follow-ups/use-follow-up-conflict.ts:31-36 | Hopping reaches the least free time exactly when it is allowed as many hops as that takes. |
| FollowUpConflict.HundredHopsSuffice | frontend/components/follow-ups/use-follow-up-conflict.ts:32 | A hundred hops find the least free time if at most a hundred reminder times can still be in the way. |
| FollowUpConflict.HundredRemindersSuffice | frontend/components/follow-ups/use-follow-up-conflict.ts:21-36 | With at most a hundred other reminders the loop finds the least free time. |
| FollowUpConflict.HundredHopsCanFail | frontend/components/follow-ups/use-follow-up-conflict.ts:32 | For 101 reminders back to back the result of the hundred hops is itself blocked. |
| FollowUpConflict.ShownSuggestionIsFree | frontend/components/follow-ups/follow-up-utils.ts:18-20 | From a whole-minute choice, the suggestion as shown is free exactly when the free time is a whole minute. |
| FollowUpConflict.WholeMinutesSuffice | frontend/components/follow-ups/follow-up-utils.ts:18-20 | Reminders set to whole minutes never spoil the suggestion. |
| FollowUpConflict.NextFree | frontend/components/follow-ups/use-follow-up-conflict.ts:31-36 | The loop with its early exit computes a hundred hops. |
| FollowUpConflict.ClosestIsFirst | frontend/components/follow-ups/use-follow-up-conflict.ts:30 | The reduce names a closest clashing reminder, and of several the first in the list. |
| FollowUpConflict.Conflict | frontend/components/follow-ups/use-follow-up-conflict.ts:17-38 | There is a warning exactly when another lead's reminder is less than five minutes away; it names the first closest one in the list and suggests the minute that a hundred hops reach, which is that of the least free time if they suffice. |
| Csv.AttendanceCsvReadsBack | frontend/lib/attendance-export.ts:94-103 | Every table the attendance writer prints reads back cell for cell, texts with their apostrophe guard, also where a bare carriage return is forbidden; in the grammar of section 2 of RFC 4180 it does exactly if all characters are printable ASCII, CR or LF, and is rejected otherwise. |
| Csv.GuardIsSafe | frontend/lib/attendance-export.ts:96 | A text gets an apostrophe exactly if it begins with one of the six characters; so no text that is read back starts a formula, and two texts are confused only if one is the other with an apostrophe. |
| Csv.PrintedTable | frontend/lib/attendance-export.ts:97-103 | What a file of plain cells looks like, from its byte order mark to its line breaks. |
| Csv.ManagerCsvReadsBack | frontend/lib/manager-analytics.ts:296-302 | What any table the analytics writer prints is read as, in the RFC grammar, with other characters, and with a bare carriage return as text: rejected if a cell is outside the grammar, otherwise the table without a last row of one empty cell. |
| Csv.ManagerCsvRoundTrip | frontend/lib/manager-analytics.ts:296-302 | The exact condition, for each of the three grammars, under which that table reads back unchanged. |
| Csv.BareTableIsRejected | frontend/lib/manager-analytics.ts:299 | One bare carriage return anywhere makes any reader that forbids it reject the file. |
| Calendar.WeekDayIsDayOfWeek | frontend/lib/date-presets.ts:46 | The day of the week counted from day 0 is that of the formula in Appendix B of RFC 3339, for every date. |
| Calendar.KnownDays | frontend/lib/date-presets.ts:42 | January 1st 1970 is day 0 and that of 2024 day 19,723; 2000 and 2024 have a leap day, 1900 and 2023 have not. |
| Calendar.CivilUndoesDay | frontend/lib/date-presets.ts:40-42 | The date of a valid date's day number is that date. |
| Calendar.CivilOf | frontend/lib/date-presets.ts:40-42 | The date of any day number is valid and has that day number. |
| Calendar.DaysAscend | frontend/lib/date-presets.ts:42 | A date is before another exactly when its day number is smaller. |
| Calendar.StringOrderIsDayOrder | frontend/lib/date-presets.ts:106 | Comparing YYYY-MM-DD texts compares their days. |
| Calendar.ParseUndoesFormat | frontend/lib/date-presets.ts:40-42 | A printed date is read back. |
| Calendar.FormatUndoesParse | frontend/lib/date-presets.ts:40-42 | A date text that can be read prints as itself. |
| Calendar.ParseMeans | frontend/lib/date-presets.ts:40-42 | A text is read as a date exactly if the date prints as that text. |
| Calendar.PrintedDate | frontend/lib/date-presets.ts:40 | What a date text looks like. |
| DatePresets.DatesCompare | frontend/lib/date-presets.ts:106-121 | Date texts are ordered, and equal, as their days are. |
| DatePresets.ShiftIsAdditive | frontend/lib/date-presets.ts:42 | Shifts add up, are undone by their opposite and are measured by `dayCount`. |
| DatePresets.WeekStartIsMonday | frontend/lib/date-presets.ts:45-48 | The week start is the day at most six days before that is a number of weeks from Monday, January 1st 2024, and a Monday by the formula of Appendix B of RFC 3339. |
| DatePresets.MonthStartIsFirst | frontend/lib/date-presets.ts:50-52 | The month start is the first of the same month. |
| DatePresets.MonthEndFromYear100 | frontend/lib/date-presets.ts:54-57 | `monthEnd` is the last day of the date's month exactly from the year 100 on; before that it lands 1900 years late. |
| DatePresets.RollingPresets | frontend/lib/date-presets.ts:75-86 | Today, yesterday, the day before, 5, 7 and 30 days are ranges of dates in order exactly if they begin in year 0 or later; then they end where promised and cover 1, 1, 1, 5, 7 and 30 days. |
| DatePresets.WeekPresets | frontend/lib/date-presets.ts:87-92 | This week runs from its Monday, a number of weeks from January 1st 2024, to today; last week is the seven days from such a Monday on that end the day before; either exactly if its Monday lies in year 0 or later. |
| DatePresets.MonthPresets | frontend/lib/date-presets.ts:93-98 | This month runs from its first to today; last month is exactly the previous calendar month and abuts this one, for every today but those of January of year 0. |
| DatePresets.ChosenRanges | frontend/lib/date-presets.ts:99-123 | What a chosen day or range gives, with what stands in for empty inputs; there is no error exactly if all that is needed is given, in order and not past today, and then it is taken as it is. |
| DatePresets.ErrorMessages | frontend/lib/date-presets.ts:112-124 | Which message each error has. |
| MonthGrid.BuildWeeks | frontend/components/attendance/attendance-calendar.tsx:252-255 | The loop, whose guard compares texts, builds exactly the weeks of the month, for every month for which it ends. |
| MonthGrid.GridRows | frontend/components/attendance/attendance-calendar.tsx:252-255 | There are 4 to 6 rows exactly from the year 100 on. |
| MonthGrid.GridShowsEachDayOnce | frontend/components/attendance/attendance-calendar.tsx:252-255 | Every row is a Monday (a number of weeks from January 1st 2024) and the six days after it, the rows follow one another from at most six days before the month on, and every day of the month is in exactly one cell. |
| MonthGrid.LoopEndsIffRoom | frontend/components/attendance/attendance-calendar.tsx:252-255 | For every month the guard fails at some turn exactly if the month is neither January of year 0 nor December 9999. |
| MonthGrid.AddedMonths | frontend/components/attendance/attendance-calendar.tsx:35-38 | What adding months gives for every first and any number: the month that many months on, over year ends in both directions, exactly from the year 100 on and inside the four-digit years; before the year 100 it is 1900 years late. |
| MonthGrid.MonthStepsAreUndone | frontend/components/attendance/attendance-calendar.tsx:35-38 | Going some months on and as many back returns to the same month exactly if both months lie in the year 100 or later. |
| MonthGrid.NextMonthAbuts | frontend/components/attendance/attendance-calendar.tsx:35-38 | The next month begins on the day after `monthEnd`, for every month. |
| MonthGrid.GroupByDate | frontend/components/attendance/attendance-calendar.tsx:256-257 | The nested loops put every record under its date, keeping the order. |
| MonthGrid.OnDateSelects | frontend/components/attendance/attendance-calendar.tsx:256-257 | The records of a date are all those with that date, as often and in the order they come. |
| DayBounds.BoundsAreIndiaDays | frontend/components/abandonment/abandonment-column-filters.tsx:42-51 | An instant lies inside the bounds that are sent exactly when its India date lies in the chosen range; an open side admits everything. |
| DayBounds.BoundsAreInstants | frontend/components/abandonment/abandonment-column-filters.tsx:48-49 | The bounds as instants in milliseconds: India's midnight, and the last day to its last millisecond. |
| DayBounds.RangeReplacesTheTab | frontend/components/abandonment/abandonment-column-filters.tsx:42-51 | A chosen range replaces the day tab, whichever it is; without one the tab alone decides. |
| RoundRobin.DealtCounts | frontend/lib/assignment-plan.ts:9-18 | Counting the plan gives every person the closed-form count for their place. |
| RoundRobin.CountsAreFair | frontend/lib/assignment-plan.ts:15-18 | The counts add up to the leads, differ by at most one and never increase. |
| RoundRobin.CountByPerson | frontend/lib/assignment-plan.ts:21-25 | Each person has one row with their count in the plan and the counts add up to the plan; the chosen people come first in their order and, if the plan stays inside them, alone. |
| AssignDialog.StepKeepsInv | frontend/components/abandonment/assign-salesperson-dialog.tsx:70-74 | Every action keeps the ticked people distinct, and keeps the manual choices among them, except exactly "Select all" of a team without somebody who is still chosen. |
| AssignDialog.LostChoice | frontend/components/abandonment/assign-salesperson-dialog.tsx:158 | That exception is reached by ticking, choosing and selecting all of a smaller team; the plan then leaves the lead out. |
| AssignDialog.TickingMeans | frontend/components/abandonment/assign-salesperson-dialog.tsx:70-74 | What each action does to the ticked people and the mode: unticking removes one and keeps the order of the others. |
| AssignDialog.ChoosingMeans | frontend/components/abandonment/assign-salesperson-dialog.tsx:70-73 | What each action does to the choice for any lead: unticking empties that person's choices and no other, "All leads to" gives every listed lead the person. |
| AssignDialog.ReachableDialogIsSound | frontend/components/abandonment/assign-salesperson-dialog.tsx:70-80 | In every reachable state, also when the team changes, nobody is ticked twice, the plan names only ticked people, and planned plus unassigned leads are the selection. |
| AssignDialog.ManualPlanIsComplete | frontend/components/abandonment/assign-salesperson-dialog.tsx:77-80 | The manual plan has the choice of every selected lead for which somebody ticked is chosen, and nothing else; the other leads are as many as are missing from it. |
| AssignDialog.Dialog.Summary | frontend/components/abandonment/assign-salesperson-dialog.tsx:76-80 | The rows shown are the ticked people in their order with their counts, and the counts plus the unassigned leads add up to the selection. |
| AssignDialog.SplitIsRoundRobin | frontend/components/abandonment/assign-salesperson-dialog.tsx:182 | "Split evenly" makes the manual plan the round-robin plan. |
| AssignDialog.Dialog.OnToggle | frontend/components/abandonment/assign-salesperson-dialog.tsx:70-74 | Ticking appends once; unticking removes the person and empties their manual choices. |
| AssignDialog.Dialog.OnSplitEvenly | frontend/components/abandonment/assign-salesperson-dialog.tsx:182 | The manual choices become those of the round-robin plan. |
| AssignDialog.Dialog.OnClearPeople | frontend/components/abandonment/assign-salesperson-dialog.tsx:159 | Clearing empties both the ticked people and the manual choices. |
| Money.RoundedParseIsDigitwise | frontend/lib/refund-status.ts:26-31 | Rounding the parsed number and reading the digits give the same paise for every decimal. |
| Money.DecimalsAre | frontend/lib/refund-status.ts:28 | An amount is digits, or digits, a point and one or two digits, and nothing else. |
| Money.CentsOfSpelled | frontend/lib/refund-status.ts:26-31 | With white space around it, it is a hundred times the whole number and its two places. |
| Money.NatOfPlaces | frontend/lib/refund-status.ts:30 | Digits are read place by place in base ten. |
| Money.AmountReadsBack | frontend/lib/payment-figures.ts:11 | An amount printed with two decimals has that shape and is read back as the same paise. |
| Discount.PreviewsAgree | frontend/lib/prepaid-upgrade.ts:11-28 | The strict order preview and the upgrade preview accept the same texts with the same paise and leave at least one paisa to pay. |
| Discount.ComplaintsAgree | frontend/lib/prepaid-upgrade.ts:13-26 | What both reject draws the same complaint, except in exactly three cases. |
| Discount.PreviewStaysInBounds | frontend/lib/discount.ts:72-89 | A preview stays within 0 and the base; strictness removes exactly the two ends and changes nothing else. |
| Discount.AcceptedIsWhatWasTyped | frontend/lib/discount.ts:72-89 | What is accepted, and with which paise, follows from the digits typed: the amount up to the base, or the percentage up to 100, rounded half up. |
| Discount.ComplaintMeaning | frontend/lib/discount.ts:72-89 | Exactly which complaint each rejected text draws, and when none. |
| Discount.PercentIsNearest | frontend/lib/discount.ts:81 | A percentage is within half a paisa of the exact value, half up, and stays within 0 and the base. |
| Discount.PercentIsMonotone | frontend/lib/discount.ts:81 | A larger base or rate never gives a smaller discount. |
| Discount.ChoiceIsBounded | frontend/lib/discount.ts:92-97 | What a choice takes off is the previewed amount or, where that is larger, the cap; it is between 0 and the base, and 0 for what the preview rejects. |
| Discount.CrmCouponRespectsItsCap | frontend/lib/discount.ts:49-51 | A CRM coupon takes off what its value previews to or, where that is smaller, the paise its cap text stands for; without a cap just the preview. |
| RepairLoop.WithRetry | backend/src/scripts/repair-shopify-addresses.ts:43-54 | The counting loop gives the answer and the number of attempts of the retry rule. |
| RepairLoop.RetriedMeaning | backend/src/scripts/repair-shopify-addresses.ts:43-54 | A call fails for good exactly when all three attempts throw; otherwise its first answer counts and no further attempt is made. |
| RepairLoop.ExamineOrder | backend/src/scripts/repair-shopify-addresses.ts:83-105 | One order's branches give its outcome, the write count and the calls made. |
| RepairLoop.Repair | backend/src/scripts/repair-shopify-addresses.ts:77-112 | The loop with its two breaks computes the run that stops at the first order after which a stopping rule holds. |
| RepairLoop.OutcomeMeaning | backend/src/scripts/repair-shopify-addresses.ts:83-105 | Each outcome holds exactly for certain answers of the service: for instance, repaired means apply mode, a repairable address, a cap not yet reached and a re-sync that left nothing missing. |
| RepairLoop.CallsAddUp | backend/src/scripts/repair-shopify-addresses.ts:43-95 | The calls of a run are those of the orders with lines: each previewed until it answers, at most three times, and re-synced likewise if and only if it is attempted. |
| RepairLoop.LinesTellOutcomes | backend/src/scripts/repair-shopify-addresses.ts:80-107 | Every line tells the outcome of its own order, examined in the state the run had reached. |
| RepairLoop.RunKeepsRules | backend/src/scripts/repair-shopify-addresses.ts:80-115 | In every run: repaired at most written, at most three calls per write, a dry run writes nothing, the write before the last was below the cap, outcomes add up to the lines; the failure counter is the failing suffix, and the run has stopped exactly when that is five long, or not empty in a capped apply run, which was true at no earlier line. |
| RepairLoop.LinesFollowOrders | backend/src/scripts/repair-shopify-addresses.ts:80-112 | The lines are those of the first orders, in order, and of all of them unless the run stopped. |
| RepairLoop.RepairableRun | backend/src/scripts/repair-shopify-addresses.ts:90-95 | With only repairable orders, as many are written as the cap rounded up, or all. |
| RepairLoop.WrittenIsBelowCeiling | backend/src/scripts/repair-shopify-addresses.ts:90-92 | No run writes more than the cap rounded up. |
| RepairLoop.CapIsKeptIffWhole | backend/src/scripts/repair-shopify-addresses.ts:33 | Every run keeps the cap exactly when the cap is a whole number. |
| RepairLoop.NotANumberIsNoCap | backend/src/scripts/repair-shopify-addresses.ts:33 | With a cap that is not a number any number of repairable orders is written. |
| PhoneNumber.ResultIsCanonical | backend/src/lib/leadIdentity.ts:9-23 | There is a result exactly when 8 to 15 digits remain after the leading zeros; it is a plus sign and 8 to 15 digits not starting with 0 (section 6 of ITU-T E.164). |
| PhoneNumber.DigitsAreKept | backend/src/lib/leadIdentity.ts:15-21 | A result has exactly the significant digits, with the country code added for ten digits without an international prefix. |
| PhoneNumber.CanonicalIsFixed | backend/src/lib/leadIdentity.ts:9-23 | Every number of that shape is its own canonical form. |
| PhoneNumber.Idempotent | backend/src/lib/leadIdentity.ts:9-23 | Normalising a result changes nothing. |
| PhoneNumber.OneNumberOneForm | backend/src/lib/leadIdentity.ts:15-21 | A ten-digit number has one form however it is punctuated and whether it is bare or has 0, 91, +91 or 0091 in front. |
| PhoneNumber.FormOfAnyText | backend/src/lib/leadIdentity.ts:9-23 | What becomes of any text, told by the digits read off between whatever else it has: none, the digits after a plus sign, or +91 and ten digits, with the exact conditions. |
| UrlQuery.ParseUndoesSerialize | frontend/lib/manager-analytics.ts:314-323 | A query text that is written from any parameters reads back as those parameters. |
| UrlQuery.WrittenQuery | frontend/lib/manager-analytics.ts:323 | What a written query looks like. |
| UrlQuery.EscapedAscii | frontend/lib/manager-analytics.ts:323 | A blank is written as a plus, the separators and the plus as hexadecimal, plain characters as they are. |
| UrlQuery.UnescapeUndoesEscape | frontend/lib/manager-analytics.ts:323 | Percent-encoding is undone, whatever characters a value contains. |
| UrlQuery.DecodeUndoesEncode | frontend/lib/manager-analytics.ts:323 | UTF-8 is decoded to what was encoded. |
| DashboardFilters.UrlRemembers | frontend/lib/manager-analytics.ts:313-345 | Field by field, what a filter state becomes when its own URL is read. |
| DashboardFilters.NoParametersAreTheDefaults | frontend/lib/manager-analytics.ts:326-344 | A URL without parameters is read as the default filters. |
| DashboardFilters.NamesOfPresets | frontend/lib/date-presets.ts:74-103 | The preset each of the twelve names stands for. |
| DashboardFilters.QueryMeaning | frontend/lib/manager-analytics.ts:126-139 | What the API is asked for: the choices as they are, the days of the preset, and ids only if not empty. |
| DashboardFilters.UrlKeepsTheQuery | frontend/lib/manager-analytics.ts:126-139 | The filters read from a state's own URL stand for the same API query, except for the salesperson, whom the URL leaves out. |
| DashboardFilters.AnyUrlIsWellTyped | frontend/lib/manager-analytics.ts:333-342 | Any URL reads as well-typed filters unless one of its choices is a name that every object inherits. |

## Left out

- Numbers are exact: IEEE rounding is not modelled, `Math.round` is the floor of x + 1/2, money is exact rationals or whole paise, milliseconds are integers.
- Number-to-text is a function parameter in `ShippingCharge`, assumed injective and free of the separator on the rates that are offered, and a text of digits, letters, signs and points where a key contains a number; `toLowerCase`, `Number(text)` and `Date.parse` of a reminder are function parameters.
- Characters are Unicode scalar values, so a lone surrogate cannot occur and lengths are not UTF-16 lengths; sorting compares them in code point order.
- `TextDecoder` is taken to concatenate over chunks, and the parsing of an event's JSON payload is an arbitrary partial function.
- React rendering, effect timing, toasts, chimes and desktop notifications; a render or an effect is one event.
- React Query beyond data kept per key list, whose hash is taken to tell different lists apart; retries, cache expiry and refetch on focus.
- The timeout race and error classification inside `checkDatabase`: a query settles at any time with any result.
- `sessionStorage` that is unavailable or holds text that is not a JSON array of strings the model's reader accepts: it is read as empty.
- Service calls, the database, report files and console output of the repair run; the choice of its orders and the pauses between them. Reasons and field names on a line are left out.
- Conflict: gives the suggested time as the instant of its minute; its `datetime-local` text in the browser's zone (whose offset is taken to be whole minutes) is not printed.
- BuildWeeks: excludes January of year 0 and December 9999, for which the loop does not end (`LoopEndsIffRoom`).
- ShiftIsAdditive: stays within the years 0000 to 9999, outside of which a shifted date has no YYYY-MM-DD text.
- BoundsAreIndiaDays: the instant's India date lies in the years 0000 to 9999.
- DecodeUndoesEncode: covers what an encoder writes; malformed bytes are replaced one by one, not by the longest-prefix rule of the WHATWG Encoding Standard.
- LoadGivesTheNewest: asks for distinct entries, which a set has by construction.
- The wording of discount messages, of which the model keeps what they complain about.
- The recording player: its state repeats what the one audio element reports, in an order that is the browser's.
- `tickSummary` and `formatClock`, `performanceLevels`, `classifyQuadrants` and the insight texts, parcel parsing and suggestions, `normalizeEmail`, `effectiveDiscountChoice`, `validateRefundForm` and the sums of `paymentFigures`: short rules and sums that would add easy members only.
- A byte order mark, of which RFC 4180 says nothing, is taken off before a file is read.
- The content of the attendance sheet (`recordRow`, `istTime`) and the XLSX export: the CSV writer is proved for every table.
