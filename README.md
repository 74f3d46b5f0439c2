# Booking-form validation model

A Dafny model of the booking form of a static tourism site, whose whole logic lives in `app.js`. The model covers:

- the rule table that checks each field of the form;
- the engine that runs those rules and shows their messages (`validateField`, `showFieldError`, `clearFieldError`, `validateAllFields`);
- the handler that updates the check-out field when the check-in date changes;
- the submission path: the validation gate, the collection of the values, and the delayed success step that resets the form;
- the small lookups: display names of destinations, the party-size wording, and the destination prefill from the cards.

Modules, one concern each:

- `Wrappers`: `Option`.
- `Text`: the white-space set of JavaScript's `\s` and `trim()`, ASCII letters and digits, `trim`, and the `\D` digit filter.
- `Calendar`: Gregorian dates, day numbers, the next day, strict `YYYY-MM-DD` parsing, and `toISOString`'s date part.
- `Rules`: the fields, their keys and messages, the rule table, and the first-failure semantics. It states per field what passes and proves the email regular expression equivalent to a plain description.
- `Engine`: functions giving the result and the resulting page state of `validateField`, `validateAllFields` and the check-in handler. Lemmas cover the conjunction, the refresh of every field, and the submission gate.
- `Labels`: `getLocationName`, the people wording, the card prefill table, and the confirmation the success message interpolates.
- `Booking`: class `BookingForm`. Its fields hold the page state: values, markings, error elements, date minimums, the submit button's busy flag, and the form message. Each method is one handler, proved against the `Engine` functions.

Modelling decisions:

- **Elements on the page.** `values` holds one entry per field element on the page, and `errors` one entry per `<key>-error` element. A missing element is a missing key.
- **Rules that read the page.** The check-out rule reads the check-in element. With no check-in element it throws a `TypeError`. The model reports that as `Throws`, and the throw ends `validateAllFields` and the submission.
- **Dates.** A date is its day number; "today" is a parameter. A check-in value that is not a date makes the change handler throw (`toISOString` on an invalid date), so the handler changes nothing.
- **White space** is the exact ECMAScript set that `\s` and `trim()` share, not an abstract predicate.
- **"Non-empty"** for every selection and date field is the code's `trim() !== ''`, so a value of only spaces is reported as missing.

## Model

| member | source | states |
|---|---|---|
| Text.Trim | app.js:83-84 | `trim()` yields the empty string exactly when the value is all white space; otherwise it starts and ends with a non-space character |
| Text.TrimIsSlice | app.js:83 | the trimmed value is a contiguous slice with only white space cut off on either side |
| Text.TrimOfTrimmed | app.js:83 | a value with no white space at either end is its own trim |
| Text.TrimIdempotent | app.js:83 | trimming twice is trimming once |
| Text.TrimKeeps | app.js:83-84 | every non-space character of the value survives trimming |
| Text.Digits | app.js:96 | `replace(/\D/g, '')` keeps only ASCII digits, each as often as in the input |
| Text.DigitsOfDigitString | app.js:96 | a string of digits is unchanged by the digit filter |
| Text.DigitsAppend | app.js:96 | the digit filter distributes over concatenation |
| Text.DigitsIgnoreNonDigit | app.js:96 | inserting a non-digit character never changes the digit string |
| Text.DigitsLength | app.js:96 | the digit string's length is the number of ASCII digits in the value |
| Calendar.DayNumberOrder | app.js:113-115 | day numbers order dates exactly as the calendar does, and equal day numbers mean equal dates |
| Calendar.NextDate | app.js:170-171 | the next day is a valid date after the given one |
| Calendar.NextDateIsNextDay | app.js:171 | the next day's day number is one more |
| Calendar.ParseIsoDate | app.js:111 | a value that `new Date` reads names a real date with a four-digit year |
| Calendar.PaddedOfNumber | app.js:142 | a digit string is its own zero-padded form, leading zeros included |
| Calendar.NumberBound | app.js:111 | a string of w digits is worth less than 10^w |
| Calendar.ParsedIsFormatted | app.js:111 | a `YYYY-MM-DD` value has a four-digit year and is exactly how `toISOString` writes the date it names |
| Calendar.ParseIsoDateIff | app.js:111 | a value reads as a date exactly when that date is real, has a four-digit year, and the value is its `toISOString` form |
| Calendar.ParseDay | app.js:111 | a value has a day number exactly when it reads as a date, and the number is that date's |
| Calendar.ParseDayIff | app.js:111 | a value has a real date's day number exactly when it is that date's `toISOString` form, with a four-digit year |
| Calendar.NoParseDayIff | app.js:109-111 | a value has no day number exactly when it is the `toISOString` form of no real date with a four-digit year |
| Calendar.FormatIsoDate | app.js:142 | `toISOString`'s date part is ten characters for four-digit years and thirteen with a leading `+` for later ones, with hyphens before the month and the day |
| Calendar.ParseFormatted | app.js:142 | parsing the date part of `toISOString` gives back the date, for four-digit years |
| Rules.FieldNamed | app.js:197 | a key that names a field names the field whose key it is |
| Rules.RulesTable | app.js:79-138 | every field has one or two rules, an empty value fails the first whatever the page holds, a field's two rules have different messages, and only the check-out rules read another element |
| Rules.Holds | app.js:83-127 | only the check-out comparison throws, exactly when the page has no check-in element; a required-value check passes exactly when the value is not all white space; a date check passes only on a value that names a date |
| Rules.FieldKeys | app.js:79-138 | every field is found under its own key, and the field list names each field once |
| Rules.FirstFailure | app.js:203-209 | the verdict is a pass exactly when every rule holds; otherwise it is the first failing rule's message, or a throw when that rule throws |
| Rules.FirstFailureIgnoresLater | app.js:203-209 | rules after the first failing one are never consulted |
| Rules.OnlyCheckoutThrows | app.js:124 | only the check-out rule can throw, and only on a page without a check-in element |
| Rules.NameVerdict | app.js:83-84 | a trimmed name shorter than 2 gets the length message whatever its characters; a longer one passes exactly when all its characters are ASCII letters or white space |
| Rules.NameWithDigitFails | app.js:84 | a name with a digit anywhere never passes |
| Rules.MatchesEmailIff | app.js:90 | the email expression accepts exactly the values with no white space, one `@`, a non-empty local part, and a `.` inside the domain that is neither its first nor its last character |
| Rules.EmailVerdict | app.js:90 | the email field passes exactly when its trimmed value is such an address |
| Rules.AssembledAddressPasses | app.js:90 | any `local@domain.tld` built from non-empty runs without white space or `@` passes |
| Rules.PhoneVerdict | app.js:96 | the phone field passes exactly when the value holds ten ASCII digits |
| Rules.PhoneIgnoresSeparators | app.js:96 | inserting a non-digit separator never changes the phone verdict |
| Rules.SelectionVerdict | app.js:99-137 | destination and party size pass exactly when not all white space, and otherwise show their own message |
| Rules.CheckinVerdict | app.js:108-116 | a blank check-in is missing; otherwise it passes exactly when it is a date no earlier than today |
| Rules.CheckoutVerdict | app.js:122-129 | a blank check-out is missing; without a check-in element the rule throws; otherwise it passes exactly when both values are dates and check-out is strictly later |
| Rules.CheckoutByCalendar | app.js:125-128 | for two real dates the check-out passes exactly when its date comes after the check-in date, so the same day fails |
| Rules.TodayRejectedWestOfUtc | app.js:111-115 | as written, the instant comparison rejects today's own date on a clock behind UTC |
| Rules.NotPastAsWritten | app.js:108-115 | as written, only a date passes the check-in comparison, and on a clock less than a day behind UTC exactly the dates after today pass |
| Rules.NotPastAsWrittenEastOfUtc | app.js:111-115 | at UTC and east of it, the instant comparison agrees with the calendar-day rule the model uses |
| Labels.GetLocationName | app.js:511-521 | a known destination's display name is the value capitalised; any other value is returned unchanged |
| Labels.GetLocationNameIdempotent | app.js:520 | looking a display name up again changes nothing |
| Labels.PeopleText | app.js:294 | the wording is `1 person` exactly when the party size is `1`, and otherwise the party size followed by ` people` |
| Labels.PeopleTextInjective | app.js:294 | different party sizes are never worded alike |
| Labels.PrefillLocation | app.js:361-368 | a card pre-selects a destination exactly when it is in the table, and that destination always has a display name |
| Labels.PrefillPassesLocationRule | app.js:367-370 | a pre-selected destination satisfies the destination rule |
| Labels.ConfirmationFor | app.js:269-296 | the confirmation shows the collected name, e-mail and dates, a known destination by its display name and any other destination as it is, `1 person` exactly for a party of `1` and otherwise the size followed by ` people`, and `undefined` for every field whose element was missing |
| Labels.SampleConfirmation | app.js:269-296 | the sample booking is confirmed for Jane Doe, Kedarnath and `2 people` at jane@example.com |
| Engine.ShowError | app.js:218-224 | only the named error element gets the message and the `show` class; a missing element is skipped |
| Engine.ClearError | app.js:226-232 | only the named error element is emptied and hidden; a missing element is skipped |
| Engine.Target | app.js:197-198 | the field validated is the one the key names, when its element is on the page |
| Engine.FieldStep | app.js:196-216 | only a field whose element is on the page can fail, a throw changes nothing, and no error element appears or disappears |
| Engine.FieldStepSpec | app.js:196-216 | an unknown key or a missing element returns true and changes nothing; otherwise the result is true or false exactly as the field passes or fails, only that field's marking and error element change, a failure shows the first failing message and marks invalid, a pass clears the error and marks valid, and a throw changes nothing |
| Engine.RunAll | app.js:234-242 | the result is true only if it was true before the remaining fields |
| Engine.RunAllKeepsErrorElements | app.js:234-242 | whether the run returns or throws, no error element appears or disappears |
| Engine.RunAllThrows | app.js:234-242 | validating all fields throws exactly when some field's rules throw |
| Engine.RunAllConjunction | app.js:234-242 | when it returns, validating all fields yields true exactly when every field on the page passes |
| Engine.RunAllRefreshes | app.js:234-242 | when it returns, every field on the page, including those after a failure, carries the marking and error of its own verdict, and nothing else has changed |
| Engine.GateOpensIffAllPass | app.js:254-262 | the submission gate opens exactly when every field element on the page passes its rules |
| Engine.FilledBookingPasses | app.js:79-138 | a form filled in as a visitor would, with check-in today and check-out tomorrow, passes the whole gate |
| Engine.TodayCheckinPasses | app.js:108-116 | today's date always passes the check-in rules |
| Engine.NextDayCheckoutPasses | app.js:122-129 | for a check-in date whose next day has a four-digit year, that next day passes the check-out rules |
| Engine.BlankCheckoutReportsMissing | app.js:183-185 | re-validating a blank check-out, such as one just cleared, returns false, marks it invalid, shows the missing-date message, and changes nothing else |
| Engine.ShowAfterClear | app.js:177-185 | showing a message in an error element overrides clearing it just before |
| Engine.CheckinChange | app.js:168-186 | the handler aborts exactly on a check-in that is not a date; otherwise the check-out is cleared exactly when it is a date on or before the check-in; a surviving check-out date is strictly later; the check-out is re-validated exactly when it was non-empty |
| Engine.CheckoutMinIsNextDay | app.js:169-173 | the new check-out minimum is the day after the check-in |
| Booking.BookingForm.constructor | app.js:140-149 | the page starts with empty, unmarked fields and hidden errors; both date minimums are today when their element exists |
| Booking.BookingForm.ShowFieldError | app.js:218-224 | the new error elements are those `Engine.ShowError` gives, and nothing else changes |
| Booking.BookingForm.ClearFieldError | app.js:226-232 | the new error elements are those `Engine.ClearError` gives, and nothing else changes |
| Booking.BookingForm.Input | app.js:156-158 | typing sets the value and clears that field's error, nothing else |
| Booking.BookingForm.ValidateField | app.js:196-216 | the loop returns, and leaves the page, exactly as `Engine.FieldStep` says |
| Booking.BookingForm.ValidateAllFields | app.js:234-242 | the loop returns, and leaves the page, exactly as `Engine.RunAll` says; values and the rest of the state are unchanged |
| Booking.BookingForm.OnCheckinChange | app.js:168-186 | the handler does exactly what `Engine.CheckinChange` says: it sets the new minimum and clears the check-out value and error if needed, and an invalid check-in changes nothing |
| Booking.BookingForm.ChangeCheckin | app.js:168-186 | after the handler and its re-validation of check-out: the check-out minimum is the one the handler computes, or unchanged when it aborts; only a cleared check-out value changes, to empty; without re-validation markings and errors are unchanged; a cleared check-out is reported missing, marked invalid and shows the missing-date message; any other re-validated check-out is refreshed by `Engine.FieldStep` |
| Booking.BookingForm.PrefillDestination | app.js:359-373 | a mapped card selects its destination, adds `valid`, leaves `invalid` as it was, and clears the error; otherwise nothing changes |
| Booking.BookingForm.Submit | app.js:244-282 | values are collected exactly when every field passes; then the button is busy and the values are returned; a failure shows the fix-errors banner and touches neither button nor values; a throw stops after hiding the message |
| Booking.BookingForm.ClearFieldStates | app.js:303-309 | every field element on the page loses both classes and its error is cleared; other error elements are untouched |
| Booking.BookingForm.CompleteSubmission | app.js:284-316 | the button is re-enabled, the confirmation shown, every value emptied, every marking and field error cleared, and both minimums reset to today where their element exists |

## Findings

| source | as written | input that shows it | evidently intended | confidence | as-written member | corrected member |
|---|---|---|---|---|---|---|
| app.js:111-115 | the rule compares `new Date(val)`, which is UTC midnight, with today at local midnight | today's own date entered on a clock at UTC−05:00: UTC midnight is five hours before local midnight, so the rule fails | today's date passes ("today or in the future"), in every time zone | high (not executed) | Rules.TodayRejectedWestOfUtc | Engine.TodayCheckinPasses |

The rest of the model compares calendar days, the corrected rule (`Rules.Holds` for the `NotPast` check). `Rules.NotPastAsWrittenEastOfUtc` shows the two agree at UTC and east of it.

## Left out

- Event registration, navigation, header styling, smooth scrolling, fade-ins, card and temporary messages, and image fallbacks are layout side effects with no contract.
- Timers (the input debounce, the check-out re-validation delay, the simulated API delay, and message auto-hide) are left out. Delayed calls are modelled as later calls: `Input` then `ValidateField`, `OnCheckinChange` then `ValidateField` in `ChangeCheckin`, and `Submit` then `CompleteSubmission`. Events that arrive between a call and its delayed follow-up are not modelled.
- The auto-hide of the form message after 5 or 10 seconds is not modelled; `messageShown` stays as the handler left it.
- Time zones are left out. Outside the finding above, the model assumes the local date and the UTC date agree. So "today" is one date parameter used for both `toISOString`'s minimum and the check-in rule, and daylight-saving shifts in `setDate` are not modelled.
- `new Date` is modelled as strict `YYYY-MM-DD` parsing. The non-ISO forms a browser's fallback parser accepts are not modelled, and neither are years beyond 9999 on the parsing side.
- `formatDate` depends on locale formatting, so the confirmation keeps the raw date values.
- `animateCounter` uses floating-point steps driven by a timer.
- The success message's fixed wording around the interpolated values is not modelled; `Confirmation` holds the interpolated values.
- The optional `message` textarea added to the collected data is not modelled: it is no field of the rule table and no rule reads it.
- Focus on the first invalid field, `scrollIntoView`, and the button's text/spinner classes are pure DOM effects. `busy` stands for the button's disabled state.
- Keys inherited from `Object.prototype` (such as `constructor`) in the `fields`, `locations` and `locationMap` lookups are not modelled; only own keys are.
- Strings are sequences of code points; UTF-16 surrogate pairs are not modelled.
- `form.reset()` is assumed to restore every field to the empty string, the markup's default.
- The page is assumed to load with no field marked and every error element empty and hidden.
- The submit button and the form message element are assumed present: without them the submit handler throws before doing anything.
- Labels.PrefillLocation: assumes the destination select has an option for every mapped value; whether an option exists depends on the markup, which is not part of this model.
- Booking.BookingForm.PrefillDestination: the prefill runs only for a card with a title and a price; those come from the card's markup, so the method models a click on such a card.
- Calendar.ParseFormatted: stated for four-digit years only, because `toISOString` writes later years in the expanded `+YYYYYY` form, which a `YYYY-MM-DD` value never has.
- Engine.CheckoutMinIsNextDay: stated for check-in dates whose next day still has a four-digit year, for the same reason.
- Engine.TodayCheckinPasses: stated for today's dates with a four-digit year, for the same reason.
- Engine.NextDayCheckoutPasses: stated for check-in dates whose next day still has a four-digit year, for the same reason.
