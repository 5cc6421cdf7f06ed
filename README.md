# Legal Billables tracker: a verified model

This project models the core of a browser extension that measures the time a lawyer spends writing an email, turns it into a billable entry, and stores or logs that entry.

- **The tracker** (`LegalBillablesTracker`, chrome-extension/content.js) runs inside the mail page.
  - A timer session is kept in the fields `isTracking`, `startTime`, `totalTime` and `lastActivity`.
  - `startTimer`, `pauseTimer` and `resetTimer` change it, as do the focus, input and blur handlers of the compose dialog.
  - An activity monitor pauses the timer after more than 30 s without input.
- **The display** prints the elapsed time as `HH:MM:SS`.
- **The observers** attach to each compose dialog and each send button at most once. A marker attribute records the attachment.
- **A send click** pauses the timer and snapshots the draft context (body, subject, recipient). It then proposes an entry.
  - The entry's hours come from an explicit hour expression in the body ("2.5 hours") when there is one.
  - Otherwise they come from the timer.
- **An accepted entry** is either appended to the local list `billableEntries` or posted to the backend.
- **The background script** (chrome-extension/background.js) holds pure helpers:
  - `cleanSummary` normalises the generated summary text.
  - It counts the unsynced stored entries for the toolbar badge.
  - It builds the body of a log request, with a default rate of 350.

## Modules

- `Wrappers`: `Option`.
- `JsText`: the JavaScript character classes `\s` and `\d`, ASCII case folding for `/i`, `Number.prototype.toString` for naturals, `padStart(2, '0')` and `trim`.
- `Clock`: the timer session as a value, and the operations on it as functions of the old session and the clock reading `now`.
  - Lemmas about each operation.
  - Traces of start, pause, tick and input events. Over any trace, the elapsed value that `updateTimerDisplay` computes equals the time during which the timer ran.
- `TimerDisplay`: the `HH:MM:SS` formatter, and a reader proving that the text determines the hours, minutes and seconds.
- `HoursParser`: `parseHoursFromContent`.
  - The regular expression is stated relationally.
  - A left-to-right scanner is proved to return exactly its leftmost match.
- `Compose`: the recipient text and the recipient-poll rule, the body text read on input, and the attach-once registry as functions.
- `Entries`: the send snapshot, the draft entry and its hours, the stored entry, and the log request body of the content script.
- `Tracker`: the class.
  - `LegalBillablesTracker` has the source's fields. Its methods update them in place and are proved against the `Clock` and `Compose` functions.
  - `EntryStore` holds the local storage key.
- `Background`: `cleanSummary` step by step, the unsaved count and badge text, the background log payload and the installation defaults.

Time is the parameter `now` (milliseconds) of every operation that reads the clock.

Two behaviours of the code are easy to miss:
- The focus handler starts the timer but does not update `lastActivity`. `Clock.StaleFocusStart` states the consequence: after more than 30 s without input, the next activity check pauses the timer right after focus.
- Typing in the body updates `lastActivity` and the content, but never starts the timer.

## Model

| member | source | states |
|---|---|---|
| Clock.Initial | chrome-extension/content.js:2-10 | a new tracker is not tracking, has no start time, no accumulated time and its activity time is `now`; its elapsed value stays 0 |
| Clock.Elapsed | chrome-extension/content.js:183-186 | the elapsed value is `totalTime` when paused and `totalTime` plus the time since the start while tracking; never below `totalTime` |
| Clock.Start | chrome-extension/content.js:144-157 | after `startTimer` the timer is tracking; accumulated time and activity time are untouched |
| Clock.Pause | chrome-extension/content.js:159-168 | after `pauseTimer` the timer is not tracking, `totalTime` is the elapsed time at the pause, and the start time is kept |
| Clock.Reset | chrome-extension/content.js:170-180 | from any state, `resetTimer` gives not tracking, `totalTime = 0` and no start time |
| Clock.Touch | chrome-extension/content.js:96 | an input event sets `lastActivity` to the current time and changes nothing else |
| Clock.Tick | chrome-extension/content.js:196-202 | the activity check keeps the session well formed |
| Clock.StartSpec | chrome-extension/content.js:144-157 | start from paused opens an interval at `now`; start while tracking changes nothing; it does not change the elapsed value; a second start is a no-op |
| Clock.PauseSpec | chrome-extension/content.js:159-168 | pause adds `now - startTime` when tracking and is a no-op otherwise; `totalTime` never decreases; a second pause is a no-op |
| Clock.ElapsedAdvance | chrome-extension/content.js:183-186 | between events the elapsed value grows by the time passed exactly while tracking |
| Clock.PauseFreezes | chrome-extension/content.js:159-168 | after a pause the elapsed value stays at its value at the moment of pausing |
| Clock.TickSpec | chrome-extension/content.js:198-199 | the check changes the session iff tracking and `now - lastActivity > 30000` (strict); it then pauses, and `totalTime` never decreases |
| Clock.StaleFocusStart | chrome-extension/content.js:89-93 | focus after more than 30 s without input starts the timer, and the next check pauses it, keeping only the time up to that check |
| Clock.IdleTimeBounded | chrome-extension/content.js:196-202 | with checks every 5 s, the first check more than 30 s after the last input pauses the timer, having counted more than 30 s and at most 35 s since that input |
| Clock.ElapsedIsTrackedTime | chrome-extension/content.js:144-202 | for any chronological trace of starts, pauses, checks and inputs, the final elapsed value equals the initial one plus the total time the timer was running |
| Clock.TotalNeverDecreases | chrome-extension/content.js:144-202 | without a reset, `totalTime` never decreases over any trace |
| Clock.ResetThenTrace | chrome-extension/content.js:170-180 | after a reset, a trace ending paused leaves exactly the running time in `totalTime` |
| JsText.NatToString | chrome-extension/content.js:192 | `toString` of a natural is a non-empty digit string without a leading zero, one digit exactly below 10 |
| JsText.NatToStringValue | chrome-extension/content.js:192 | the decimal text reads back as the number |
| JsText.PadStart2 | chrome-extension/content.js:192 | `padStart(2, '0')` keeps text of length 2 or more and left-pads shorter text with zeros to length 2 |
| JsText.PadStart2Value | chrome-extension/content.js:192 | padding a numeral with zeros keeps its value |
| JsText.Trim | chrome-extension/background.js:61 | the result is a contiguous part of the input; everything removed before and after it is white space; it neither starts nor ends with white space |
| JsText.TrimUnchanged | chrome-extension/background.js:63 | trimming text with no white space at either end changes nothing |
| TimerDisplay.FieldsOf | chrome-extension/content.js:188-190 | minutes and seconds are below 60, hours are unbounded, and `h*3600000 + m*60000 + s*1000 <= t < that + 1000` |
| TimerDisplay.FieldsBounds | chrome-extension/content.js:188-190 | the floor divisions and remainders of the source satisfy those bounds |
| TimerDisplay.Format | chrome-extension/content.js:188-192 | the `HH:MM:SS` text reads back as exactly the hours, minutes and seconds of the elapsed value; hours of three or more digits carry no leading zero |
| TimerDisplay.DisplayedValue | chrome-extension/content.js:182-194 | the text `updateTimerDisplay` writes stands for the elapsed value truncated to whole seconds |
| HoursParser.NumberValue | chrome-extension/content.js:260 | a parsed hour count is never negative |
| HoursParser.MatchAt | chrome-extension/content.js:259 | trying the expression at one start position yields a capture that is non-empty and ends within the text |
| HoursParser.FindFrom | chrome-extension/content.js:259 | the search over start positions from `i` yields a start at or after `i` and a non-empty capture within the text |
| HoursParser.MatchAtSound | chrome-extension/content.js:259 | a match the scanner finds at a position is a match of the regular expression there |
| HoursParser.MatchAtComplete | chrome-extension/content.js:259 | every match of the regular expression at a position is the one the scanner finds there |
| HoursParser.FindFromLeftmost | chrome-extension/content.js:259 | the search returns a match whose start is leftmost, and returns none exactly when there is no match |
| HoursParser.ParseHours | chrome-extension/content.js:258-261 | a parsed hour count is never negative |
| HoursParser.ParseHoursSpec | chrome-extension/content.js:258-261 | `null` iff the expression matches nowhere; otherwise the value of the number in the leftmost match |
| HoursParser.NumberValueSpec | chrome-extension/content.js:260 | a number with a fraction is its integer part plus the fraction digits over a power of ten |
| HoursParser.IntegerValue | chrome-extension/content.js:260 | a number without a fraction is its integer value |
| HoursParser.NoDigitsNoHours | chrome-extension/content.js:259 | text without a digit yields `null` |
| HoursParser.ExampleSpentHours | chrome-extension/content.js:257-261 | "Spent 2.5 hours reviewing the contract" yields 2.5 |
| HoursParser.ExampleNoHours | chrome-extension/content.js:260 | "see attached" yields `null` |
| Compose.GetToEmail | chrome-extension/content.js:80-86 | no recipient chip gives the empty string; a single chip gives its address |
| Compose.GetToEmailSnoc | chrome-extension/content.js:83 | each further chip appends ", " and its address to the joined text |
| Compose.GetToEmailTwo | chrome-extension/content.js:83 | two chips are joined by a comma and one space |
| Compose.SplitGetToEmail | chrome-extension/content.js:83 | the joined recipient text determines the list of addresses when no address contains a comma |
| Compose.NextRecipient | chrome-extension/content.js:118-123 | the poll writes only a non-empty, different value, so a non-empty recipient never becomes empty |
| Compose.PollAllIsLastNonEmpty | chrome-extension/content.js:118-123 | after any series of polls, the recipient is the last non-empty text read, or the original recipient if none was read |
| Compose.BodyText | chrome-extension/content.js:97 | the body is `innerText` unless that is empty, and then `textContent` |
| Compose.NewlyAttached | chrome-extension/content.js:58-63 | a callback attaches only to dialogs in the page that were not yet marked |
| Compose.NewlyAttachedExactlyOnce | chrome-extension/content.js:58-63 | one callback attaches to each unmarked dialog exactly once, and to nothing else |
| Compose.NothingNewWhenMarked | chrome-extension/content.js:60 | when every dialog is marked, a callback attaches nothing |
| Compose.CountAtMostOne | chrome-extension/content.js:130-134 | a button appears at most once in a duplicate-free registry of listeners, and exactly once iff it is registered |
| Entries.SelectHours | chrome-extension/content.js:229-230 | the parsed hours when there are any, otherwise the duration in hours; never a mix |
| Entries.GenerateBillableEntry | chrome-extension/content.js:220-243 | the draft keeps the snapshot and summary; its hours are non-negative and selected as above |
| Entries.LocalEntry | chrome-extension/content.js:365-369 | a locally saved entry has `id = now`, `saved = false` and no `synced` field |
| Entries.DialogLogPayload | chrome-extension/content.js:330-339 | the content script logs the draft's hours as milliseconds, the typed rate, source email and status logged |
| Entries.LoggedTimeIsDuration | chrome-extension/content.js:335 | without an hour expression, the logged milliseconds equal the timer duration; this holds only because the `toFixed(2)` rounding is left out (90 s becomes the text "0.03", logged as 108000 ms) |
| Entries.NinetySecondsOfHours | chrome-extension/content.js:230 | 90 s of tracked time without an hour expression gives 0.025 hours, before the `toFixed(2)` rounding that is left out |
| Tracker.EntryStore.Set | chrome-extension/content.js:371 | a successful write replaces the list; a failed write leaves storage as it was |
| Tracker.LegalBillablesTracker.Valid | chrome-extension/content.js:58-63 | the object invariant that the constructor establishes and every handler, timer operation and observer callback keeps (`SetupComposeTracking` and `AddClickListener` are single steps of the loops in `AttachComposeDialogs` and `OnSendMutations`, and keep it only together with marking the node): a running timer has a start time, the threshold is 30000, and each marked dialog or button was set up exactly once |
| Tracker.LegalBillablesTracker.constructor | chrome-extension/content.js:2-10 | the initial session, empty context and empty registry |
| Tracker.LegalBillablesTracker.StartTimer | chrome-extension/content.js:144-157 | the new session is `Start` of the old one; context and registry are unchanged |
| Tracker.LegalBillablesTracker.PauseTimer | chrome-extension/content.js:159-168 | the new session is `Pause` of the old one; nothing else changes |
| Tracker.LegalBillablesTracker.ResetTimer | chrome-extension/content.js:170-180 | the new session is `Reset` of the old one; nothing else changes |
| Tracker.LegalBillablesTracker.UpdateTimerDisplay | chrome-extension/content.js:182-194 | the text reads back as the fields of the elapsed time and shows it truncated to whole seconds |
| Tracker.LegalBillablesTracker.ActivityTick | chrome-extension/content.js:196-202 | the new session is `Tick` of the old one, with the 30 s threshold field |
| Tracker.LegalBillablesTracker.OnBodyFocus | chrome-extension/content.js:89-93 | focus starts the timer unless it runs; `lastActivity` is not updated |
| Tracker.LegalBillablesTracker.OnBodyInput | chrome-extension/content.js:95-98 | body input records the activity time; the content becomes `innerText`, or `textContent` when that is empty |
| Tracker.LegalBillablesTracker.OnBodyBlurTimeout | chrome-extension/content.js:100-106 | the delayed blur check pauses exactly when focus is no longer inside the dialog |
| Tracker.LegalBillablesTracker.OnSubjectInput | chrome-extension/content.js:111-114 | subject input sets the subject and records the activity time |
| Tracker.LegalBillablesTracker.PollRecipient | chrome-extension/content.js:118-123 | the recipient becomes `NextRecipient` of the old one and the joined addresses; a non-empty recipient stays non-empty |
| Tracker.LegalBillablesTracker.SetupComposeTracking | chrome-extension/content.js:75-124 | records one setup of the dialog and changes nothing else |
| Tracker.LegalBillablesTracker.AttachComposeDialogs | chrome-extension/content.js:58-64 | marks every dialog found and sets up exactly the newly found ones, in order; the registry only grows and stays duplicate free |
| Tracker.LegalBillablesTracker.OnComposeMutations | chrome-extension/content.js:55-67 | however many `childList` records a callback receives, each unmarked dialog is set up once; other records change nothing |
| Tracker.LegalBillablesTracker.AddClickListener | chrome-extension/content.js:132 | registers one click listener on the button |
| Tracker.LegalBillablesTracker.OnSendMutations | chrome-extension/content.js:128-135 | marks every send button found and adds one listener to each newly found one; no button gets two listeners |
| Tracker.LegalBillablesTracker.HandleEmailSend | chrome-extension/content.js:204-218 | with no time and not tracking nothing happens; otherwise it pauses first, and the draft's duration is the post-pause `totalTime` |
| Tracker.LegalBillablesTracker.ClickSend | chrome-extension/content.js:130-134 | a click on a listened node runs the send handler once, and a click on any other node never does; with no time and not tracking it changes nothing |
| Tracker.LegalBillablesTracker.GetStoredEntries | chrome-extension/content.js:382-388 | a missing `billableEntries` reads as the empty list |
| Tracker.LegalBillablesTracker.SaveLocally | chrome-extension/content.js:361-380 | on a successful write, the stored list is the old list plus exactly the new entry at the end and the timer is reset; on failure nothing changes |
| Tracker.LegalBillablesTracker.SaveToPracticePanther | chrome-extension/content.js:320-358 | the request body is `DialogLogPayload`; the timer is reset only when the backend accepts |
| Background.CloseBracket | chrome-extension/background.js:58 | the lazy `.*?\]` search from an index finds a `]` at or after it, and the match end lies after that `]` |
| Background.BracketPrefix | chrome-extension/background.js:58 | the prefix match at the start ends within the text |
| Background.StripBracketPrefix | chrome-extension/background.js:58 | text not starting with `[`, or without a prefix match, is unchanged |
| Background.BracketPrefixSound | chrome-extension/background.js:58 | what is removed is `[`, text without a line terminator, `]`, white space, a vertical bar and all white space after it |
| Background.BracketPrefixExact | chrome-extension/background.js:58 | a prefix is removed exactly when the text starts with the pattern's shape; text without that shape, even starting with `[`, is unchanged |
| Background.UnclosedBracketKept | chrome-extension/background.js:58 | "[Client] notes", whose `]` is not followed by `\|`, is unchanged |
| Background.BracketPrefixLeast | chrome-extension/background.js:58 | whenever the text starts with such a prefix one is removed, ending at the first `]` that completes the pattern |
| Background.AfterMatch | chrome-extension/background.js:59 | at an occurrence exactly the phrase is consumed, together with the character right after it when that is a colon; everything after that remains |
| Background.RemoveTitle | chrome-extension/background.js:59 | removing the title never lengthens the text |
| Background.RemoveAllNoOccurrence | chrome-extension/background.js:59 | text without an occurrence of the phrase is unchanged |
| Background.RemoveAllLeftmost | chrome-extension/background.js:59 | the text before the leftmost occurrence is kept, the occurrence and a colon right after it are dropped, and the pass continues after it |
| Background.RemoveTitleSpec | chrome-extension/background.js:59 | both properties above, for the phrase "Professional Legal Billable Summary for" ignoring case |
| Background.TitleDropped | chrome-extension/background.js:59 | with the removed span written out: the text before the leftmost title is kept, the title and a colon right after it are dropped, and the pass continues on the rest |
| Background.StripEmailDate | chrome-extension/background.js:60 | without a leading "Email Date" label (ignoring case), nothing changes; otherwise the label is removed with the white space after it, at most one of `:`, the vertical bar or `-`, and the white space after that; what remains starts with neither white space nor, unless one was removed, a separator |
| Background.CollapseNewlines | chrome-extension/background.js:62 | the result has no `\n` and is no longer than the input |
| Background.CollapseRun | chrome-extension/background.js:62 | a maximal run of `\n` becomes exactly one space, and the characters before it are kept |
| Background.CollapseNoNewline | chrome-extension/background.js:62 | text without `\n` is unchanged |
| Background.FinalTrimRedundant | chrome-extension/background.js:61-63 | the last `.trim()` never removes anything |
| Background.CleanSummary | chrome-extension/background.js:55-64 | the cleaned summary has no `\n` and neither starts nor ends with white space |
| Background.UnsavedCount | chrome-extension/background.js:101 | the unsaved count is at most the number of entries |
| Background.UnsavedCountIsPositions | chrome-extension/background.js:101 | the count is the number of entries whose `synced` is not `true` |
| Background.LocalSaveRaisesCount | chrome-extension/background.js:101 | each entry `saveLocally` appends raises the count by exactly one |
| Background.BadgeText | chrome-extension/background.js:103-105 | a badge text exists iff the count is positive, and it is the count in decimal without a leading zero |
| Background.BadgeSpec | chrome-extension/background.js:103-105 | the badge is set iff some entry is unsynced, and its text is the count in decimal |
| Background.RateOrDefault | chrome-extension/background.js:81 | a truthy rate is kept; a missing or zero rate becomes 350, so the rate is never 0 |
| Background.LogPayloadOf | chrome-extension/background.js:73-82 | `timeSpent` is the duration, source email, status logged, and the text fields are passed on |
| Background.DefaultSettings | chrome-extension/background.js:5-9 | auto tracking and summaries are on, and the default rate is 350, the rate a log request without a rate gets |
| Background.LogRateSpec | chrome-extension/background.js:79-81 | the installation defaults are auto tracking on, summaries on and rate 350; a request with no usable rate is logged at that rate |

## Left out
- Tracker.LegalBillablesTracker.ClickSend: event propagation is not modelled. The `button` argument is the node that carries the listener. On the page a click bubbles to every ancestor, so a click on a child of a listened button still runs the handler, and a listened element nested inside another listened element (both match `[aria-label*="Send"]`) runs `handleEmailSend` twice for one click and produces two drafts.
- The clock is assumed never to go backwards: every timer method and `Clock.Elapsed` require `ReadyAt(Timer(), now)`, that is `startTime <= now` while tracking. With `Date.now()` set back before `startTime`, `pauseTimer` (content.js:162) would add a negative span and lower `totalTime`; that case is not modelled.

- The DOM and the UI are not modelled: `injectUI`, `showBillableDialog`, `showNotification`, `closeBillableDialog`, showing and hiding buttons, and the live total in the dialog.
- `MutationObserver`, `setInterval` and `setTimeout` are not modelled. Each callback is a method call, and the elements it would query are parameters (dialog and button node ids, recipient chip addresses, field values).
- Which page elements count as dialogs or send buttons: the CSS selectors are not modelled.
- The refresh schedule of the timer widget is not modelled: `updateTimerDisplay` runs on start, every second while tracking and on reset, but not on pause. The widget can therefore show a value that is less than a second stale after a pause; the model describes the elapsed value each refresh computes.
- The 100 ms blur debounce is not modelled. The `document.activeElement` test after the delay is the boolean `focusInsideDialog`.
- Tracker.LegalBillablesTracker.SetupComposeTracking records the setup only. Handlers exist only when the dialog has a body or subject field; here they are separate methods. The ordering between timers and events is left to the caller.
- `fetch` calls, response parsing and the `chrome.runtime` message router are foreign I/O and are not modelled. The backend's `success` is the boolean `accepted`, and a storage write result is the boolean `writeOk`.
- `generateAISummary` in the content script is a random mock. Its result is the parameter `summary`.
- Floating point is replaced by exact reals, with no rounding: `toFixed(2)`, `parseFloat` of the dialog fields and of the hour count, and the `hours * 3600000` product. `NaN` is not represented, so `rate || 350` only treats a missing rate or 0 as falsy.
- Clock readings and durations are unbounded naturals. The 2^53 limit of JavaScript numbers is not modelled.
- `new Date().toISOString()`: the snapshot's `timestamp` is the millisecond reading `now`, not its ISO text.
- `this.isTracking && this.startTime` treats a start time of 0 as absent. The model reads it as a null check, because `Date.now()` is positive.
- `cleanSummary` on a non-string summary throws. The model takes a string.
- Case-insensitive matching is ASCII folding. For these ASCII patterns without the `u` flag this agrees with JavaScript, which never folds a non-ASCII character to an ASCII one.
- chrome-extension/popup.js and src/App.jsx are not part of this model. They are dashboard rendering, calendar arithmetic on `Date` and float sums.
- Atomicity of `chrome.storage` and last-write-wins races between tabs are concurrency and are not modelled.
