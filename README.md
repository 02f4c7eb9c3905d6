# Time jar transfer — a Dafny model

The time-jar app is one React component, `App`. It shows two jars of hours.
Jar 1 starts full at 365 hours and Jar 2 starts empty. The user types a number
of minutes and presses Transfer to move that many minutes from Jar 1 to Jar 2.
Each transfer is recorded in a history list. The list shows the five newest
records, newest first, and each row has an Edit button. Edit replaces a
record's value and then recomputes both jars by replaying the whole history
from 365 and 0.

This project models that component's state and logic:

- `JsParse` (`JsParse.dfy`) models `parseInt(text, 10)`, which reads the input
  field. It skips JavaScript white space, reads an optional sign and then the
  longest run of digits. No digit at all gives `NaN`, modelled as `None`.
- `Jars` (`Jars.dfy`) holds the component's state as a value (`Snapshot`). It
  defines the two `reduce` folds, the transfer and edit steps, the displayed
  history slice, the hours/minutes split, the fill percentage and the save
  guard. It also defines runs of user actions from the mount state and proves
  the lemmas about all of these.
- `TimeJarApp` (`App.dfy`) is the component as a class. Its four fields are the
  four state hooks. Its methods are the input's change handler,
  `handleTransfer`, `handleEditHistory` and the Edit button. Each method is
  proved to perform the matching step from `Jars`. `handleEditHistory` copies
  the history into an array, overwrites one slot in place, and replays the
  totals over the copy, as the source does.
- `Scenarios` (`Scenarios.dfy`) holds worked runs with concrete numbers.

Amounts are exact rationals (`real`) in hours. History values are whole
minutes. A timestamp is an opaque string passed in by the caller.

The Edit button's index is reproduced as written. Row `i` of the list shows
`history[n-1-i]`, but its button passes `i` to the edit handler. The handler
uses `i` as a position in the oldest-first history. So the button edits
`history[i]`, which is the clicked record only when `i = n-1-i`
(`EditButtonTarget`, `EditTopRowChangesOldest`).

Three consequences of the code as written:

- The save effect tests `jar1Hours && jar2Hours && history`. An array is truthy
  in JavaScript even when empty. So an empty history does not block a save;
  only a zero total does (`ShouldSave`, `SavedAfterTransfer`).
- With exact arithmetic, every run from the mount state keeps Jar 1 at 365
  hours minus the history's total and Jar 2 at that total, so the jars always
  sum to 365 (`RunKeepsConsistent`). Only a state loaded from storage, or an
  edit whose text has no digits (left out here), could break this.
- Transfers keep each jar non-negative (`TransferStep`). An edit does not:
  editing a record to a large value drives Jar 1 below zero.

## Model

| member | source | states |
|---|---|---|
| `TimeJarApp.App.constructor` | src/App.js:69-72 | The component mounts with Jar 1 at 365, Jar 2 at 0, an empty field and an empty history, and that state is consistent with a replay of its history. |
| `TimeJarApp.App.SetInputMinutes` | src/App.js:178-183 | Typing replaces the field's text and changes nothing else; consistency is kept. |
| `TimeJarApp.App.HandleTransfer` | src/App.js:94-108 | The handler's new state is exactly `TransferStep` of the old state; a state consistent with its history stays consistent. |
| `TimeJarApp.App.HandleEditHistory` | src/App.js:110-136 | For an index inside the history, the handler's new state is exactly `EditStep` of the old state, and it is consistent with its history whatever the totals were before. |
| `TimeJarApp.App.ClickEdit` | src/App.js:194-200 | Pressing Edit on row `row` sets `history[row]` to the new record, and leaves the displayed record `history[n-1-row]` unchanged unless `row = n-1-row`. |
| `Jars.Accepts` | src/App.js:96 | The guard accepts exactly a number that was read, is positive and is at most Jar 1's hours in minutes; so an accepted transfer needs at least one minute in Jar 1. |
| `Jars.TransferStep` | src/App.js:94-108 | The state is unchanged exactly when the number read is missing, not positive or more than Jar 1's hours times 60; the jars' sum is preserved; a non-negative jar stays non-negative; the history grows by at most one record and earlier records are untouched. |
| `Jars.Moved` | src/App.js:101-107 | Moving `m` minutes out of a jar that holds them changes the state, keeps the sum, leaves no jar below zero and appends exactly one record after the old ones. |
| `Jars.TransferAccepted` | src/App.js:101-107 | An accepted transfer of `m` minutes sets Jar 1 to `jar1 - m/60` and Jar 2 to `jar2 + m/60`, clears the field and appends `{m, now}`. |
| `Jars.TransferKeepsConsistent` | src/App.js:101-107 | If the totals agreed with a replay of the history before a transfer, they agree after it. |
| `Jars.DrainFold` | src/App.js:122-125 | Jar 1's `reduce` from a start value equals the start value minus the history's total minutes over 60. |
| `Jars.FillFold` | src/App.js:129-132 | Jar 2's `reduce` from a start value equals the start value plus the history's total minutes over 60. |
| `Jars.Hours` | src/App.js:102 | An amount of minutes converted to hours gives back the minutes when multiplied by 60. |
| `Jars.TotalMinutes` | src/App.js:122-132 | The history's total is non-negative when every record is. |
| `Jars.TotalMinutesUpdate` | src/App.js:111-115 | Overwriting one record changes the history's total by the new value minus the old one. |
| `Jars.EditStep` | src/App.js:110-136 | An edit at an index in range keeps the history's length, puts `{newValue, now}` at that index, keeps every other record and the field, and sets Jar 1 to `365 - total/60` and Jar 2 to `total/60` of the updated history, so the jars sum to 365. |
| `Jars.EditIsDelta` | src/App.js:122-133 | From a consistent state, the full replay gives the same totals as moving the difference between the new and old value of that one record. |
| `Jars.EditForgetsTotals` | src/App.js:122-133 | Two states with the same history give the same totals after the same edit, whatever their totals were before. |
| `Jars.Reverse` | src/App.js:190-192 | The reversed copy has the same length and holds `h[n-1-i]` at position `i`. |
| `Jars.HistoryView` | src/App.js:190-194 | The list shows `min(5, n)` records, and row `i` shows `history[n-1-i]`, so the newest comes first. |
| `Jars.EditButtonTarget` | src/App.js:194-199 | Every Edit button passes an index inside the history; the record on the clicked row is left unchanged unless the row is the history's middle, where the edit does land on it. |
| `Jars.JsFraction` | src/App.js:163 | JavaScript's `amount % 1` lies in `[0, 1)` and equals `amount - floor(amount)` for a non-negative amount, and lies in `(-1, 0]` for a negative one. |
| `Jars.WholeHours` | src/App.js:163 | The hours shown for either jar (also at line 175) are the largest whole number not above the amount. |
| `Jars.ExtraMinutes` | src/App.js:163 | The minutes shown for either jar (also at line 175) are in `[0, 60)` for a non-negative amount and in `[-60, 0]` for a negative one. |
| `Jars.DisplaySplit` | src/App.js:163 | For a non-negative amount the shown minutes are in `[0, 60)`, and hours times 60 plus minutes equals the amount in minutes rounded down. |
| `Jars.DisplayOfMinutes` | src/App.js:175 | An amount of `m` whole minutes shows as `m / 60` hours and `m % 60` minutes. |
| `Jars.FillPercentage` | src/App.js:138-139 | The fill level is in `[0, 100]` for an amount in `[0, 365]`; it is 100 exactly at 365 and 0 exactly at 0; it is above 100 above 365 and negative below 0, since it is not clamped. |
| `Jars.FillsAddUp` | src/App.js:138-139 | When the totals agree with the history, the two fill levels add up to 100. |
| `Jars.ShouldSave` | src/App.js:88-91 | The state is saved exactly when neither jar's fill level is zero; when the totals agree with the history, exactly when the history's total is neither 0 nor 365 hours. |
| `Jars.InitialNotSaved` | src/App.js:88-91 | The mount state is never saved, because Jar 2 holds 0. |
| `Jars.SavedAfterTransfer` | src/App.js:88-91 | After an accepted transfer from a consistent state, the state is saved exactly when Jar 1 is not empty and the history's total is not zero. |
| `Jars.Apply` | src/App.js:94-136 | One user action keeps the history's length, except an accepted Transfer, which adds one record. |
| `Jars.Run` | src/App.js:94-136 | A run of actions never shrinks the history and adds at most one record per action. |
| `Jars.RunKeepsConsistent` | src/App.js:94-136 | From a consistent state, any run of typing, transfers and Edit clicks keeps Jar 1 at `365 - total/60` and Jar 2 at `total/60`, so they sum to 365. |
| `Jars.ReachableConsistent` | src/App.js:69-72 | Every state reached from the mount state has Jar 1 at `365 - total/60` and Jar 2 at `total/60` of its history. |
| `JsParse.ParseInt` | src/App.js:95 | `NaN` comes out exactly when no digit follows the white space and the optional sign; what a number reads as is given by `ParseDigits`, `ParseNegates`, `ParseSkipsSpace` and `Scenarios.ReadsBack`. |
| `JsParse.TrimStart` | src/App.js:95 | The text left after trimming is a suffix of the input that does not start with white space, and everything trimmed was white space. |
| `JsParse.DigitRun` | src/App.js:95 | The digits read form the longest prefix made only of decimal digits. |
| `JsParse.Decimal` | src/App.js:95 | A number's decimal text is non-empty and made only of digits. |
| `JsParse.DecimalValue` | src/App.js:95 | The digits of `n` denote `n`. |
| `JsParse.ParseDigits` | src/App.js:95 | A run of digits followed by a non-digit reads as the number the digits denote. |
| `JsParse.ParseDecimal` | src/App.js:95 | The decimal text of `n`, followed by anything that does not start with a digit, reads as `n`. |
| `JsParse.ParseNegates` | src/App.js:95 | Text that starts with a digit reads as a number, and a minus sign put in front of it reads as that number negated. |
| `JsParse.ParseSkipsSpace` | src/App.js:95 | A leading white-space character does not change what is read. |
| `JsParse.ParseEmpty` | src/App.js:71 | The empty field, as it is at mount and after a transfer, reads as `NaN`, so Transfer does nothing. |
| `Scenarios.ReadsBack` | src/App.js:95 | The digits of any number, typed into the field, read back as that number. |
| `Scenarios.TransferSixty` | src/App.js:94-108 | From the mount state, typing 60 and pressing Transfer gives 364 and 1 hours, an empty field and one record of 60 minutes. |
| `Scenarios.TransferTooMuch` | src/App.js:96-99 | From the mount state, 600000 minutes is refused and only the typed text changes. |
| `Scenarios.EditThirtyToNinety` | src/App.js:110-136 | Transferring 30 minutes and then editing that record to 90 gives 363.5 and 1.5 hours. |
| `Scenarios.TwoTransfers` | src/App.js:107 | Transfers of 10 and then 20 minutes are recorded oldest first. |
| `Scenarios.EditTopRowChangesOldest` | src/App.js:190-199 | With records of 10 and then 20 minutes, the top row shows 20, but its Edit button overwrites the 10-minute record. |
| `Scenarios.SixRecordsShowFive` | src/App.js:190-194 | With six records the list shows records 6, 5, 4, 3 and 2, newest first. |

## Left out

- Loading from `localStorage` with `JSON.parse` at mount (src/App.js:74-83) and the write itself (src/App.js:91) are browser I/O. Only the save guard is modelled, as `ShouldSave`.
- `new Date().toLocaleString()` (src/App.js:106, 114) is a locale-dependent clock. The timestamp is a parameter of each handler.
- `prompt()` (src/App.js:199) is user I/O. `HandleEditHistory` takes the number the user entered. A cancelled prompt, or text with no digits, would put `NaN` into both totals; that path is not modelled.
- `HandleEditHistory`: the record stores the entered number, not the raw prompt text. The source stores the text as typed (for example `"90abc"`) and counts it through `parseInt` as 90.
- `HandleEditHistory`: requires an index inside the history. Its only caller, the Edit button, always passes one (`EditButtonTarget`). An out-of-range index in JavaScript would grow the array with holes.
- IEEE-754 doubles are replaced by exact rationals. The guard `minutes > jar1Hours * 60` and the displayed floors may differ by rounding in the source. `parseInt` results above 2^53 lose precision in the source and are exact here.
- `DisplaySplit`: stated only for non-negative amounts. `JsFraction` does model JavaScript's `%` for negative amounts, but the hours/minutes property is not claimed there.
- The browser's restriction of a `type="number"` field to numeric text is not modelled. The field may hold any text, and `parseInt` reads it.
- The unused locals `editedMinutes` and `editedHours` (src/App.js:118-119) are dead code.
- Styling, JSX layout, the logo image and React's re-rendering (src/App.js:5-66, 141-208) are presentation only.
