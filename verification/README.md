# Breakruptcy timer core in Dafny

Breakruptcy is a two-bank "chess clock for productivity". Bank 1 ("Work",
25 minutes) and bank 2 ("Break", 5 minutes) each hold a remaining time in
milliseconds. Exactly one bank is active. While the session runs, a polling
interval charges the wall-clock time since the last poll to the active bank.
When that bank runs out, the session pauses itself. The user can play/pause,
switch banks, reset, or click a bank to make it active. A configuration form
edits both durations and labels, offers presets, and validates before saving.

This project models that core as immutable datatypes and pure functions:

- `TimerTypes` (`types/timer.ts`): banks, configuration, session state, time
  inputs, the two bank keys, and the invariant `Valid` (exactly one bank
  active, no negative remaining time).
- `TimerUtils` (`utils/timer.ts`): `formatTime` with JavaScript's
  `Math.ceil`, `Math.floor`, truncating `%`, `toString` and `padStart`
  written out; `getActiveBank` and `getInactiveBank`.
- `Session` (`App.tsx`): the initial state, the loader, the tick updater, the
  four handlers, and sequences of events.
- `ConfigForm` (`components/TimerConfig.tsx`): the presets, field clamping,
  preset application, and the save gate.
- `DecimalText` and `TrimText`: integer-to-text rendering with zero padding,
  a reference decimal parser, and `String.prototype.trim` over ECMAScript
  white space and line terminators.

`Date.now()` is an explicit `now` argument. The stored session that the
loader reads arrives as an `Option<TimerState>`. `None` stands for nothing
stored or a `JSON.parse` failure. `validateTimeInput`,
`timeInputToMilliseconds` and `millisecondsToTimeInput` are imported by the
form from `utils/timer.ts`, but that file does not define them. They are not
part of this model, so they enter as function parameters and no behaviour is
assumed for them.

The main results:

- The interval's updater composes: applied at any nondecreasing series of
  times it equals one application at the last time
  (`PollingResolutionIrrelevant`). For the polls of a running session, which
  stop at the auto-pause, the banks and the running state are those of one
  poll at the last reading (`PolledRunIsOnePoll`).
- The clock display is the one and only text that reads back as the
  rounded-up seconds (`FormatTimeReadsBack`, `FormatTimeIsTheOnlyReading`).
- Switch and play/pause restart the elapsed-time clock without charging the
  time since the last poll. Up to one polling interval (`TICK_INTERVAL`,
  1000 ms) of running time is charged to neither bank at each press
  (`HandlersDropUnpolledTime`).
- Every sequence of user actions and polls keeps exactly one bank active and
  no bank negative (`RunPreservesValid`).
- A paused session is never charged (`PausedSessionKeepsTime`).
- Saved labels are always trimmed and non-empty (`NewConfig`).

Paths below are relative to the repository root.

## Model

| member | source | states |
|---|---|---|
| TimerTypes.WithBank | breakruptcy-client/src/App.tsx:63-70 | The computed-key spread replaces the named bank only: every other bank and field is kept. |
| TimerUtils.CeilSeconds | breakruptcy-client/src/utils/timer.ts:2 | The rounded-up seconds are the fewest whole seconds covering the milliseconds: `(t-1)*1000 < ms <= t*1000`. |
| TimerUtils.JsRemainder | breakruptcy-client/src/utils/timer.ts:4 | JavaScript `%`: the dividend minus the result is a multiple of the divisor, and the result is in 0..d-1 for a non-negative dividend and in -(d-1)..0 for a negative one. This is the remainder of division truncated toward zero. |
| TimerUtils.PaddedField | breakruptcy-client/src/utils/timer.ts:5-7 | A non-negative field renders as digits whose value is the field. A negative field renders as "-" followed by the digits of its magnitude. The text has at least two characters, and exactly two for 0..99. Beyond the padding there is no leading zero: a text longer than two characters starts with a non-zero digit (after the sign when negative). |
| TimerUtils.FormatTime | breakruptcy-client/src/utils/timer.ts:1-8 | `formatTime` has at least five characters (two-digit minutes, the colon, two-digit seconds). Its full text is fixed by `FormatTimeReadsBack` with `FormatTimeIsTheOnlyReading`. |
| TimerUtils.FormatTimeReadsBack | breakruptcy-client/src/utils/timer.ts:1-8 | For non-negative input, the `MM:SS` text parses back to exactly `Math.ceil(ms/1000)`. The reader takes minutes times 60 plus two-digit seconds below 60, and its minute field has at least two digits, with a leading zero only when it has exactly two. |
| TimerUtils.FormatTimeIsTheOnlyReading | breakruptcy-client/src/utils/timer.ts:1-8 | For non-negative input, every text that reads back as `Math.ceil(ms/1000)` is the display itself, so the display is fixed for any number of minutes (240 minutes show as "240:00", never "0240:00"). |
| TimerUtils.ParseClockInjective | breakruptcy-client/src/utils/timer.ts:5-7 | Two texts the clock reader accepts with the same reading are the same text: each number of minutes has one padded field and each seconds value one two-digit field. |
| TimerUtils.ClockFieldsReadBack | breakruptcy-client/src/utils/timer.ts:5-7 | The template `${mm}:${ss}` of padded fields parses back to minutes*60+seconds when seconds < 60. |
| TimerUtils.FormatTimeDistinguishesSeconds | breakruptcy-client/src/utils/timer.ts:1-8 | Two non-negative inputs show the same text if and only if they round up to the same whole second. |
| TimerUtils.FormatTimeZeroOnlyAtZero | breakruptcy-client/src/utils/timer.ts:1-8 | Because seconds round up, "00:00" appears for a non-negative input if and only if it is 0. |
| TimerUtils.DisplaySplit | breakruptcy-client/src/utils/timer.ts:1-8 | Every input within the second that rounds up to minutes*60+seconds (seconds below 60) shows exactly those minutes and seconds. |
| TimerUtils.ZeroDisplay | breakruptcy-client/src/utils/timer.ts:1-8 | 0 ms shows "00:00". |
| TimerUtils.FormatTimeFirstSecond | breakruptcy-client/src/utils/timer.ts:2 | Any input from 1 ms to 1000 ms shows "00:01". |
| TimerUtils.FormatTimeNoHours | breakruptcy-client/src/utils/timer.ts:3-7 | Minutes are not folded into hours: 1 h 1 min 1 s shows "61:01". |
| TimerUtils.FormatTimeOneMinute | breakruptcy-client/src/utils/timer.ts:1-8 | 61 000 ms shows "01:01", the minutes padded to two digits. |
| TimerUtils.GetActiveBank | breakruptcy-client/src/utils/timer.ts:10-15 | Returns bank 1 if and only if bank 1's flag is set, even when both flags agree. |
| TimerUtils.GetInactiveBank | breakruptcy-client/src/utils/timer.ts:17-22 | Always returns the key that `getActiveBank` does not. |
| TimerUtils.ActiveKeyNamesActiveBank | breakruptcy-client/src/utils/timer.ts:10-22 | The two keys name an active and an inactive bank if and only if exactly one bank is active. |
| Session.InitialTimerState | breakruptcy-client/src/App.tsx:11-24 | Bank 1 "Work" is active with 1 500 000 ms and bank 2 "Break" has 300 000 ms. The state is paused, stamped with the module load time, and valid. |
| Session.Load | breakruptcy-client/src/App.tsx:27-39 | A parsed stored state is kept whole except that `lastTick` becomes now. Otherwise the initial state is used unchanged. |
| Session.Tick | breakruptcy-client/src/App.tsx:58-78 | The active bank becomes max(0, remaining - elapsed): it is charged exactly min(elapsed, remaining) when both are non-negative, and a backward clock credits time. The session pauses if and only if it was paused or the bank reached zero. The label, the active flag and the other bank are unchanged. |
| Session.StatusText | breakruptcy-client/src/App.tsx:168-176 | Shows "Paused" while paused, and otherwise the label of the bank `getActiveBank` names, followed by " Active". |
| Session.TickCompose | breakruptcy-client/src/App.tsx:58-78 | Two ticks at nondecreasing times equal one tick at the later time. |
| Session.TickIdempotent | breakruptcy-client/src/App.tsx:58-78 | A second tick at the same instant changes nothing. |
| Session.PollingResolutionIrrelevant | breakruptcy-client/src/App.tsx:58-78 | The interval's updater applied at any nondecreasing series of times leaves the same state as one application at the last time. |
| Session.PolledRunIsOnePoll | breakruptcy-client/src/App.tsx:55-85 | From a running session, a nondecreasing series of polls (which stop once the session auto-pauses) leaves the banks, the running state and the configuration of one poll at the last reading. `lastTick` agrees too unless the series paused the session. |
| Session.PausedIgnoresPolls | breakruptcy-client/src/App.tsx:55-85 | While paused, the interval is cleared, so any series of polls leaves the state unchanged. |
| Session.HandlersDropUnpolledTime | breakruptcy-client/src/App.tsx:111-126 | While running, a poll at `now` would charge the active bank, but a switch or play/pause at `now` keeps both banks' times and moves `lastTick` to `now`: the time since the last poll, up to one `TICK_INTERVAL` of 1000 ms (App.tsx line 9), is charged to no bank. |
| Session.PlayPause | breakruptcy-client/src/App.tsx:111-117 | Running is toggled and the timestamp refreshed; both banks are unchanged. |
| Session.PlayPauseTwice | breakruptcy-client/src/App.tsx:111-117 | Pressing play/pause twice restores the state except for the timestamp. |
| Session.Switch | breakruptcy-client/src/App.tsx:119-126 | The previously inactive bank becomes active, and mutual exclusion holds afterwards if and only if it held before. Times, labels and running state are unchanged. |
| Session.SwitchTwice | breakruptcy-client/src/App.tsx:119-126 | Switching twice restores the state except for the timestamp. |
| Session.Reset | breakruptcy-client/src/App.tsx:128-134 | The state is the initial banks, paused, with `lastTick` set to now, whatever came before. |
| Session.ResetForgetsHistory | breakruptcy-client/src/App.tsx:128-134 | Any two sessions reset at the same instant are identical. |
| Session.BankClick | breakruptcy-client/src/App.tsx:136-140 | Clicking an inactive bank while running makes it the active one, as `handleSwitch` does: labels, configuration and configurability are kept. Any other click changes nothing. Mutual exclusion, running state and times are kept. |
| Session.Step | breakruptcy-client/src/App.tsx:55-140 | Each event (a poll, which fires only while running, or one of the four handlers) preserves validity. |
| Session.RunPreservesValid | breakruptcy-client/src/App.tsx:55-140 | From a valid state, every sequence of events keeps exactly one bank active and no bank negative. |
| Session.StartedSessionStaysValid | breakruptcy-client/src/App.tsx:27-39 | A freshly loaded session, from storage holding a valid state or from the initial state, stays valid for every sequence of events. |
| Session.RunNeverSetsConfig | breakruptcy-client/src/types/timer.ts:19-20 | The application never writes `config` or `isConfigurable`: a run keeps the loaded values or, after a reset, drops them. |
| Session.PausedSessionKeepsTime | breakruptcy-client/src/App.tsx:55-93 | While paused and not resumed or reset, no event changes either bank's remaining time or unpauses the session. |
| Session.ResumeExpiredRepauses | breakruptcy-client/src/App.tsx:72-75 | Resuming an expired bank is allowed, and the next poll pauses it again at zero. |
| Session.LoadChargesNoDowntime | breakruptcy-client/src/App.tsx:33 | After loading, a poll at the load instant charges nothing, so time spent while the app was closed is never charged. |
| Session.ExpiryScenario | breakruptcy-client/src/App.tsx:68-75 | Reset, start, and wait at least 25 minutes: bank 1 is empty, active and paused, and bank 2 still has its 5 minutes. |
| ConfigForm.ClampField | breakruptcy-client/src/components/TimerConfig.tsx:64-66 | The stored value is within 0..max (99 hours, 59 minutes or seconds). It is the typed value when in range, the bound when above it, and 0 when non-positive or unreadable. |
| ConfigForm.HandleTimeChange | breakruptcy-client/src/components/TimerConfig.tsx:58-72 | Only the named field changes, to the clamped value, and in-range inputs stay in range. |
| ConfigForm.ChangeTime | breakruptcy-client/src/components/TimerConfig.tsx:58-72 | An edit to one bank's field leaves the other bank's time, the labels and the errors untouched. |
| ConfigForm.ClampedInRangeIsKept | breakruptcy-client/src/components/TimerConfig.tsx:64-71 | Re-entering a field's own in-range value is a no-op. |
| ConfigForm.Presets | breakruptcy-client/src/components/TimerConfig.tsx:15-41 | The five presets with their names and hours/minutes/seconds for each bank; their properties are stated by `PresetsWellFormed`. |
| ConfigForm.PresetsWellFormed | breakruptcy-client/src/components/TimerConfig.tsx:15-41 | Every preset is in the form's ranges and non-zero, and re-typing any of its fields leaves it unchanged. |
| ConfigForm.InitialForm | breakruptcy-client/src/components/TimerConfig.tsx:48-56 | The form starts from the configuration's converted durations and its labels, with no errors. |
| ConfigForm.ApplyPreset | breakruptcy-client/src/components/TimerConfig.tsx:74-78 | Both times become the preset's and errors are cleared. The labels are kept. |
| ConfigForm.LabelOrDefault | breakruptcy-client/src/components/TimerConfig.tsx:95-96 | A label made only of white space (or empty) saves as the fallback. Any other label saves as its trimmed text, which is non-empty. With a fallback that has no white space at either end, the saved label is never empty and is already trimmed. |
| ConfigForm.NewConfig | breakruptcy-client/src/components/TimerConfig.tsx:92-97 | Durations are the converted inputs. Labels are the trimmed text or "Work"/"Break", and are never empty and never padded with white space. |
| ConfigForm.HandleSave | breakruptcy-client/src/components/TimerConfig.tsx:80-100 | A configuration is saved if and only if neither validation message is truthy. On success the form is unchanged. On failure exactly the truthy messages are recorded, and times and labels are kept. |
| TrimText.Trim | breakruptcy-client/src/components/TimerConfig.tsx:95-96 | `trim()` never lengthens the text and leaves no white space or line terminator at either end. |
| TrimText.TrimIsSlice | breakruptcy-client/src/components/TimerConfig.tsx:95-96 | The trimmed text is a contiguous slice of the input, and only white space is cut off on each side. |
| TrimText.TrimIdempotent | breakruptcy-client/src/components/TimerConfig.tsx:95-96 | Trimming twice equals trimming once. |
| TrimText.TrimEmptyIff | breakruptcy-client/src/components/TimerConfig.tsx:95-96 | The trimmed text is empty if and only if the input is all white space, the case where the `\|\|` default applies. |
| DecimalText.NatToString | breakruptcy-client/src/utils/timer.ts:5-7 | `toString` of a natural number is digits without a leading zero that parse back to the number. It has one digit below 10 and two below 100. |
| DecimalText.IntToString | breakruptcy-client/src/utils/timer.ts:5-7 | A negative number renders as "-" followed by the digits of its magnitude, and a non-negative one as its digits. Neither has a leading zero unless the number is 0. |
| DecimalText.PadStart | breakruptcy-client/src/utils/timer.ts:5-7 | `padStart` reaches the width, keeps the text as a suffix, and fills only the prefix. |
| DecimalText.PadStartKeepsValue | breakruptcy-client/src/utils/timer.ts:5-7 | Zero-padding digits keeps them digits with the same value. |

## Left out

- Rendering: the JSX and styling of `App.tsx` and `TimerConfig.tsx`, `TimerDisplay.tsx` (both variants) and `TimerControls.tsx`. These are presentational only.
- Storage: `localStorage`, `JSON.stringify`/`JSON.parse`, the one-second save debounce, the 10-second autosave, the save on unmount, and the removal of the stored entry on reset. The loader's input is the already parsed `Option<TimerState>`.
- Scheduling: `setInterval` and `clearInterval`. Polls are explicit `TickAt` events, and `Step` ignores them while paused because the interval is cleared then.
- `Date.now()` is a `now` parameter. The `lastTick` of `INITIAL_TIMER_STATE` is the parameter `moduleLoadTime` of `Load`, which the loader's fallback returns unchanged.
- `validateTimeInput`, `timeInputToMilliseconds` and `millisecondsToTimeInput`: `utils/timer.ts` does not define them, so they are not part of this model. They are function parameters with no assumed behaviour.
- JavaScript numbers: milliseconds, timestamps and fields are unbounded integers. Fractional values, `NaN`, `Infinity` and exponent notation in `toString` are not modelled. The result of `parseInt` is a parameter `Option<int>` in which `None` means `NaN`.
- Session.Tick: the active bank's time is clamped at zero, but the elapsed time is not. A clock that moved backwards therefore adds time to the bank.
- Session.BankClick: `handleBankClick` tests the last rendered `timerState` (App.tsx line 137), while the `handleSwitch` it calls flips the latest queued state (App.tsx lines 120-124). The model tests and switches one and the same state, so it does not cover a click that lands while an update, such as a tick's auto-pause, is queued but not yet rendered. In that window the source can switch a session that is already paused.
- Session.Tick: it is the interval's updater and does not test `isPaused` itself. The gating belongs to the interval and is modelled in `Session.Step`.
- Configurability: `config` and `isConfigurable` are optional fields (`None` means the property is absent) because `App.tsx` never sets them. The configure-button gate and the configurability state machine are not modelled.
- The label text fields of the form (`setBank1Label`, `setBank2Label`) are plain assignments and are not modelled separately. The form's cancel button only calls back to the parent.
- `label` is a reserved word in Dafny, so a bank's label is the field `labelText`.
