# Lab-equipment booking client: user administration and booking form

This project models two pieces of client-side logic from the laboratory
equipment borrowing web client.

- **User administration** (`AdminUsers.jsx`):
  - the new-user validator, which applies five rules in order and reports the first one broken;
  - the e-mail pattern `^[^\s@]+@[^\s@]+\.[^\s@]+$`;
  - role normalisation and the localised role label;
  - the search and role filter of the user table;
  - the delete-button guard;
  - the create, enable/disable, delete and list-load handlers.

  Each handler is a pure transition. It maps the screen state and the server's
  answer to the next state, the requests sent in order, and the alerts shown in order.
  A request and its answer form one atomic step; "## Left out" names the interleavings this excludes.
- **Booking form** (`BookingForm.jsx`):
  - today's date formatted as `YYYY-MM-DD` and the form defaults;
  - the quantity edit and the removal of an item from the basket;
  - the submit handler, with its four guards in order and the payload it hands to the parent.

The JavaScript built-ins these depend on are modelled alongside, in their own modules:

- `JsString`:
  - the `\s` class and `trim`, over the exact JavaScript whitespace set;
  - case mapping for the letters whose other case is ASCII;
  - `includes`;
  - `.length` in UTF-16 code units.
- `JsNumber`: decimal printing, `parseInt` (sign, `0x` prefix, longest digit prefix) and `padStart(2, "0")`.
- `Seqs`: `Array.prototype.filter` and the subsequence relation.
- `EmailRegex`: the e-mail regex as a finite automaton. It is proved equal both to the regex's own reading and to a plain description of the strings it accepts.
- `DateTime`: how `new Date` reads the `YYYY-MM-DDTHH:mm:ss` strings the form builds, and the order on the results. That order is proved to coincide with comparing elapsed seconds.

Dialogs, the clock, the network and `parseFloat` are represented as follows:

- The `confirm` answer and each server reply are parameters.
- Today's date is a parameter.
- A parsed quantity is an `Option<real>`, where `None` stands for NaN.

Two behaviours of the code worth noting:

- A negative quantity is not coerced to 0. The edit is ignored and the basket is unchanged. Only NaN and zero become 0.
- The delete handler itself never checks the role. The model proves instead that no sequence of screen actions makes it delete a user whose button is disabled (`AdminUsers.NoDeleteOfAdmin`).

## Model

| member | source | states |
|---|---|---|
| AdminUsers.ValidateDraft | src/pages/AdminDashboard/AdminUsers.jsx:39-68 | The five rules are applied in order. Each message is returned exactly when its rule is the first one broken, and the draft passes exactly when none is. The rules are: username ≥ 3 code units; no whitespace in the username; password ≥ 6; full name not all whitespace; the e-mail matches the regex. |
| AdminUsers.EmptyDraftRejected | src/pages/AdminDashboard/AdminUsers.jsx:14-20 | The empty draft the form starts from is refused, and the username-length rule is the one that fails. |
| EmailRegex.IsEmailIffRegex | src/pages/AdminDashboard/AdminUsers.jsx:61-62 | The automaton used by the validator accepts exactly the strings that split as non-empty, non-space, @-free text, then "@", then such text, then ".", then such text. |
| EmailRegex.RegexIffShape | src/pages/AdminDashboard/AdminUsers.jsx:61-62 | An address matches exactly when all of these hold: it has no whitespace; it has exactly one "@", not at the start; after the "@" there is a "." with at least one character on each side of the dot. |
| EmailRegex.RunAccepts | src/pages/AdminDashboard/AdminUsers.jsx:61 | From every automaton state, acceptance of a word equals membership in that state's language (the inductive step behind the regex equivalence). |
| JsString.Trim | src/pages/AdminDashboard/AdminUsers.jsx:56 | Trimming gives a contiguous slice whose ends are not whitespace. It is empty exactly when the input is all whitespace, so the full-name rule is "not all whitespace". |
| JsString.Utf16Length | src/pages/AdminDashboard/AdminUsers.jsx:42-51 | `.length` counts UTF-16 units: between the number of code points and twice it, zero only for the empty string, and equal to the code-point count when every character is in the Basic Multilingual Plane. |
| JsString.Utf16OfChar | src/pages/AdminDashboard/AdminUsers.jsx:42-51 | A single character counts one unit up to U+FFFF and two units (a surrogate pair) above it. |
| JsString.Utf16Concat | src/pages/AdminDashboard/AdminUsers.jsx:42-51 | The length of a concatenation is the sum of the lengths, so each code point adds its own unit count. |
| JsString.IncludesIffOccurs | src/pages/AdminDashboard/AdminUsers.jsx:142-143 | `includes` holds exactly when the needle occurs at some position of the text. |
| JsString.LowerOfUpper | src/pages/AdminDashboard/AdminUsers.jsx:139-143 | Lower-casing erases an earlier upper-casing exactly when the text holds neither `ı` nor `ſ`, whose capitals lower-case to `i` and `s`. |
| AdminUsers.RoleDisplay | src/pages/AdminDashboard/AdminUsers.jsx:133-164 | Any casing of ADMIN or ROLE_ADMIN shows "Quản trị viên". Any casing of TEACHER or ROLE_TEACHER shows "Giảng viên". Every other role, missing or empty ones included, is passed through unchanged. A casing is spelled letter by letter with the capital, its ASCII lower case, or `ı` for I and `ſ` for S. |
| JsString.UpperIffCasing | src/pages/AdminDashboard/AdminUsers.jsx:133-136 | Upper-casing gives a name made of capitals and `_` exactly when the text spells that name in some mix of cases. |
| AdminUsers.NormalizeRoleIffCasing | src/pages/AdminDashboard/AdminUsers.jsx:133-136 | A role normalises to a given role name exactly when it spells that name in some mix of cases. A missing role normalises only to "". |
| AdminUsers.RoleNamesIffCasing | src/pages/AdminDashboard/AdminUsers.jsx:133-164 | The normalised role is ADMIN or ROLE_ADMIN exactly for the casings of those two names, and TEACHER or ROLE_TEACHER exactly for theirs. |
| AdminUsers.AdminSpellings | src/pages/AdminDashboard/AdminUsers.jsx:133-151 | Mixed-case spellings such as "admin" and "Role_Admin" normalise to admin names, and so does "admın" with a dotless ı, whose capital is I. |
| AdminUsers.DeleteDisabledIff | src/pages/AdminDashboard/AdminUsers.jsx:292-331 | The delete button is disabled exactly for admin roles, plus a role whose raw text is the admin label itself. The role column shows the admin label in exactly those cases, and "Giảng viên" in all others. |
| AdminUsers.FilteredUsers | src/pages/AdminDashboard/AdminUsers.jsx:138-157 | The table lists exactly the users passing both tests, in their order, each passing record as often as it occurs (so nothing is added or dropped). Every listed user passes both tests, and every user passing both tests is listed. A blank keyword with the "ALL" filter lists everyone. |
| AdminUsers.SearchIsSubstring | src/pages/AdminDashboard/AdminUsers.jsx:139-143 | A user matches the keyword exactly when one of these holds: the lower-cased, trimmed keyword is empty; it occurs in the lower-cased username; it occurs in the lower-cased full name. A missing field never matches. |
| AdminUsers.SearchIgnoresCase | src/pages/AdminDashboard/AdminUsers.jsx:139-143 | Upper-casing the keyword, or the stored username and full name, does not change whether a user matches, provided the upper-cased text holds no `ı` or `ſ`. |
| AdminUsers.DotlessIKeyword | src/pages/AdminDashboard/AdminUsers.jsx:139-143 | The user "ı" matches the keyword "ı" but not its capital "I", whose lower case is "i". |
| AdminUsers.NormalizeRole | src/pages/AdminDashboard/AdminUsers.jsx:133-136 | A missing role becomes "". Any other role keeps its length. Each lower-case ASCII letter becomes its own capital, and every other character either stays or becomes an ASCII capital. Normalising again changes nothing. |
| AdminUsers.MatchesSearch | src/pages/AdminDashboard/AdminUsers.jsx:139-143 | A blank keyword matches every user. A user without both a username and a full name matches no other keyword. |
| AdminUsers.MatchesRole | src/pages/AdminDashboard/AdminUsers.jsx:145-154 | "ALL" passes everyone. "ADMIN" passes exactly the users whose role is a casing of ADMIN or ROLE_ADMIN. Any other filter passes exactly the casings of TEACHER or ROLE_TEACHER. A passing user's role column shows the label of the filter's role. |
| AdminUsers.OtherFilterIsTeacher | src/pages/AdminDashboard/AdminUsers.jsx:145-154 | A filter value other than "ALL" and "ADMIN" selects exactly what "TEACHER" selects. |
| AdminUsers.HandleListing | src/pages/AdminDashboard/AdminUsers.jsx:26-37 | A loaded list replaces the users and nothing else. A failed load keeps the state and shows the load-failure alert. |
| AdminUsers.AddUser | src/pages/AdminDashboard/AdminUsers.jsx:70-92 | An invalid draft only shows its rule's message. A valid draft is posted as is. On success the form closes, the draft is reset to empty fields with role TEACHER, and the list is reloaded. On failure the state is kept and the server's non-empty message is shown, or else the generic text. |
| AdminUsers.ErrorText | src/pages/AdminDashboard/AdminUsers.jsx:88-125 | The server's message is shown when it is present and non-empty. Otherwise the handler's fallback is shown. |
| AdminUsers.PostedDraftsAreValid | src/pages/AdminDashboard/AdminUsers.jsx:70-76 | Every posted body is the current draft and satisfies every rule, with the e-mail in the plain shape. A rejected draft sends nothing, whatever the server would answer. |
| AdminUsers.ConfirmPrompt | src/pages/AdminDashboard/AdminUsers.jsx:95-96 | The confirmation question is the fixed opening, then the verb for the negation of the current status, then ` tài khoản "`, then the username and `"?`. |
| AdminUsers.PromptMatchesRequest | src/pages/AdminDashboard/AdminUsers.jsx:95-99 | The verb in the question is the one for the status the request will set. The questions for the two current statuses differ. |
| AdminUsers.ToggleStatus | src/pages/AdminDashboard/AdminUsers.jsx:94-105 | A declined confirmation does nothing. Otherwise the negated status is sent for that user. Success reloads the list and shows the success text; failure shows the canned failure text. The screen state is unchanged. |
| AdminUsers.AskDelete | src/pages/AdminDashboard/AdminUsers.jsx:327-331 | A disabled delete button does nothing. Otherwise the user becomes the delete target and the modal opens. |
| AdminUsers.CancelDelete | src/pages/AdminDashboard/AdminUsers.jsx:362 | Cancelling closes the modal and leaves the target, and every other field of the screen, as it was. |
| AdminUsers.ConfirmDelete | src/pages/AdminDashboard/AdminUsers.jsx:107-131 | Without a target nothing happens. Otherwise the target's delete is sent, and the modal closes and the target is cleared on either outcome. Success reloads and confirms; failure shows the server's message, or else the borrow-history explanation. |
| AdminUsers.DeleteGenericTextUnused | src/pages/AdminDashboard/AdminUsers.jsx:115-125 | The initial generic delete-failure text is always overwritten: it appears only if the server itself sent that text. |
| AdminUsers.HandleKeepsTargetDeletable | src/pages/AdminDashboard/AdminUsers.jsx:327-331 | No user action makes the delete target a user whose delete button is disabled. |
| AdminUsers.ReplayKeepsTargetDeletable | src/pages/AdminDashboard/AdminUsers.jsx:327-331 | The same invariant holds over any sequence of actions. |
| AdminUsers.NoDeleteOfAdmin | src/pages/AdminDashboard/AdminUsers.jsx:107-110 | From the initial screen, no sequence of actions leads the delete handler to send a delete for a user whose button is disabled. The handler itself never looks at the role. |
| Seqs.Filter | src/pages/AdminDashboard/AdminUsers.jsx:138 | Every element of the result passes and comes from the input, every passing element of the input appears in it, and it is no longer than the input. |
| Seqs.FilterKeepsExactly | src/pages/TeacherDashboard/TeacherBorrow/components/BookingForm/BookingForm.jsx:42 | The result is the passing elements at strictly increasing positions, and every passing position of the input is among them, so repeats are kept as often as they occur. |
| Seqs.FilterEmbedding | src/pages/TeacherDashboard/TeacherBorrow/components/BookingForm/BookingForm.jsx:42 | The positions kept by the filter are strictly increasing and hold the result's elements in order, all of them pass the test, and every passing position is among them. |
| Seqs.FilterIsSubsequence | src/pages/TeacherDashboard/TeacherBorrow/components/BookingForm/BookingForm.jsx:42 | A filtered sequence is a subsequence of its input. |
| Seqs.FilterKeepsAll | src/pages/AdminDashboard/AdminUsers.jsx:138-157 | When every element passes, the filter returns its input unchanged. |
| JsNumber.NatToString | src/pages/TeacherDashboard/TeacherBorrow/components/BookingForm/BookingForm.jsx:16-18 | A number prints as a non-empty digit string with no leading zero except for 0 itself. |
| JsNumber.DecimalOfNatToString | src/pages/TeacherDashboard/TeacherBorrow/components/BookingForm/BookingForm.jsx:16-18 | Reading a printed number back gives the number. |
| JsNumber.PadTwo | src/pages/TeacherDashboard/TeacherBorrow/components/BookingForm/BookingForm.jsx:17-18 | Padding leaves strings of length two or more alone, and otherwise prefixes zeros up to length two, keeping the original as a suffix. |
| JsNumber.ParseInt | src/pages/TeacherDashboard/TeacherBorrow/components/BookingForm/BookingForm.jsx:84 | A non-empty string of decimal digits reads as its decimal value. A blank string reads as NaN. Any successful read saw at least one digit. |
| JsNumber.ParseIntOfIntToString | src/pages/TeacherDashboard/TeacherBorrow/components/BookingForm/BookingForm.jsx:84 | `parseInt` of a printed integer gives back that integer. |
| DateTime.FormatDate | src/pages/TeacherDashboard/TeacherBorrow/components/BookingForm/BookingForm.jsx:14-20 | For a non-negative year and a 1-based month and a day below 100: the printed year, "-", two characters reading as the 1-based month, "-", two characters reading as the day. |
| DateTime.FormatDateParses | src/pages/TeacherDashboard/TeacherBorrow/components/BookingForm/BookingForm.jsx:14-20 | For a four-digit year, a 0-based month and a real day of that month, the formatted date is ten characters long. It reads back as that year, the 1-based month and that day. |
| DateTime.PaddedNumber | src/pages/TeacherDashboard/TeacherBorrow/components/BookingForm/BookingForm.jsx:17-18 | A month or day below 100, padded to two digits, has length two and reads back as itself. |
| DateTime.ParseTimestamp | src/pages/TeacherDashboard/TeacherBorrow/components/BookingForm/BookingForm.jsx:74 | A timestamp read by `new Date` is a real calendar date and a valid time of day. |
| DateTime.ComposeParses | src/pages/TeacherDashboard/TeacherBorrow/components/BookingForm/BookingForm.jsx:71-74 | The composed string reads as a timestamp exactly when the date reads as a date and the time as a time of day. The result is their combination with zero seconds. Otherwise it is an Invalid Date. |
| DateTime.BeforeIffEarlier | src/pages/TeacherDashboard/TeacherBorrow/components/BookingForm/BookingForm.jsx:74 | The field-by-field order on timestamps coincides with comparing the seconds elapsed since year 0. |
| DateTime.BeforeMeansFewerSeconds | src/pages/TeacherDashboard/TeacherBorrow/components/BookingForm/BookingForm.jsx:74 | An earlier timestamp in the field order has strictly fewer elapsed seconds. |
| DateTime.YearStartGrows | src/pages/TeacherDashboard/TeacherBorrow/components/BookingForm/BookingForm.jsx:74 | A later year starts after the whole of an earlier one has elapsed. |
| BookingForm.InitialForm | src/pages/TeacherDashboard/TeacherBorrow/components/BookingForm/BookingForm.jsx:22-28 | No room, start time 07:00, end time 11:00, and both dates equal. For a four-digit year and a real day, the date reads back as that day with a 1-based month. |
| BookingForm.OrderQty | src/pages/TeacherDashboard/TeacherBorrow/components/BookingForm/BookingForm.jsx:36 | `qty \|\| 0`: NaN becomes 0 and any number is kept, zero included. |
| BookingForm.SetQty | src/pages/TeacherDashboard/TeacherBorrow/components/BookingForm/BookingForm.jsx:34-38 | The basket keeps its length and order. Entries with the id get the new quantity and no other change; all other entries are unchanged. |
| BookingForm.ChangeQty | src/pages/TeacherDashboard/TeacherBorrow/components/BookingForm/BookingForm.jsx:30-39 | A negative parsed quantity leaves the basket as it was. Otherwise only entries with the id change, and only in their quantity, which becomes the parsed value, or 0 for NaN. |
| BookingForm.ChangeQtyExamples | src/pages/TeacherDashboard/TeacherBorrow/components/BookingForm/BookingForm.jsx:31-36 | On an entry with quantity 2: -1 is refused, NaN gives 0, and 3.5 gives 3.5. |
| BookingForm.ChangeQtyIdempotent | src/pages/TeacherDashboard/TeacherBorrow/components/BookingForm/BookingForm.jsx:30-39 | Applying the same edit twice is the same as applying it once. |
| BookingForm.ChangeQtyCommutes | src/pages/TeacherDashboard/TeacherBorrow/components/BookingForm/BookingForm.jsx:34-38 | Edits to two different ids can be applied in either order. |
| BookingForm.RemoveItem | src/pages/TeacherDashboard/TeacherBorrow/components/BookingForm/BookingForm.jsx:41-43 | Removal gives a subsequence of the basket with no entry of that id, keeps every other entry, and is the identity when the id is absent. |
| BookingForm.RemoveAfterChangeQty | src/pages/TeacherDashboard/TeacherBorrow/components/BookingForm/BookingForm.jsx:30-43 | Removing an item after editing its quantity gives the same basket as removing it directly. |
| BookingForm.RemoveAfterSetQty | src/pages/TeacherDashboard/TeacherBorrow/components/BookingForm/BookingForm.jsx:34-43 | The same, for any quantity written to the entry. |
| BookingForm.PayloadItems | src/pages/TeacherDashboard/TeacherBorrow/components/BookingForm/BookingForm.jsx:87-90 | The payload items have the basket's length and order, each carrying the entry's id and quantity. |
| BookingForm.BuildPayload | src/pages/TeacherDashboard/TeacherBorrow/components/BookingForm/BookingForm.jsx:83-91 | The items mirror the basket entry by entry. Each date string reads as the form's date and time combined, or as an Invalid Date when either is unreadable. A room id of plain digits reads as its value. |
| BookingForm.Submit | src/pages/TeacherDashboard/TeacherBorrow/components/BookingForm/BookingForm.jsx:45-94 | The checks run in order: empty basket, then no room, then a missing date, then a borrow time not earlier than the return time. Each dialog is shown exactly when its check is the first to fail. The payload is sent exactly when all four checks pass, and it is built from the basket and the form. |
| BookingForm.SubmittedPayload | src/pages/TeacherDashboard/TeacherBorrow/components/BookingForm/BookingForm.jsx:83-93 | A sent payload mirrors the basket item by item. It carries the composed `date + "T" + time + ":00"` strings. Its room id is the one picked in the select. |
| BookingForm.TimeGuard | src/pages/TeacherDashboard/TeacherBorrow/components/BookingForm/BookingForm.jsx:71-81 | With readable dates and times on both sides, the time check fails exactly when the return is not later in elapsed time. When either side is unreadable it never fails. |
| BookingForm.EqualTimesRejected | src/pages/TeacherDashboard/TeacherBorrow/components/BookingForm/BookingForm.jsx:74-81 | Identical readable borrow and return times are refused with the invalid-time dialog, so the order must be strict. |
| BookingForm.EqualTimesExample | src/pages/TeacherDashboard/TeacherBorrow/components/BookingForm/BookingForm.jsx:74-81 | 2024-01-10 07:00 to 2024-01-10 07:00 is refused. |
| BookingForm.SameMorningSubmits | src/pages/TeacherDashboard/TeacherBorrow/components/BookingForm/BookingForm.jsx:71-81 | A readable day from 07:00 to 11:00 passes every check once the basket is non-empty and a room is chosen. |
| BookingForm.DefaultFormSubmits | src/pages/TeacherDashboard/TeacherBorrow/components/BookingForm/BookingForm.jsx:14-93 | The initial form: empty room, today from 07:00 to 11:00 today. Once a room is picked and the basket is not empty, it submits, and the payload names the picked room. The corrected check agrees. |
| BookingForm.EditThenSubmit | src/pages/TeacherDashboard/TeacherBorrow/components/BookingForm/BookingForm.jsx:30-90 | After a non-negative edit, the submitted items carry the new quantity for the edited id and the old quantity for every other entry. |
| BookingForm.SubmitChecked | src/pages/TeacherDashboard/TeacherBorrow/components/BookingForm/BookingForm.jsx:74-81 | The corrected time check: whatever it sends has both timestamps readable and the return strictly later in elapsed time. It refuses everything the original refuses, with the same dialog. |
| BookingForm.CheckedAgreesWhenReadable | src/pages/TeacherDashboard/TeacherBorrow/components/BookingForm/BookingForm.jsx:71-81 | When both dates and both times are readable, the corrected check decides exactly as the original; the two differ only on unreadable timestamps. |
| BookingForm.EmptyTimeSlipsThrough | src/pages/TeacherDashboard/TeacherBorrow/components/BookingForm/BookingForm.jsx:71-81 | With the start time cleared, a request whose return day precedes its borrow day is sent as written. The corrected check refuses it. |

## Left out

- Case mapping covers only the letters whose other case is ASCII. `JsString.Upper` maps `a`-`z`, dotless `ı` and long `ſ`; `JsString.Lower` maps `A`-`Z` and the Kelvin sign. Every other letter is kept. JavaScript maps such a letter in one of three ways. It may give a non-ASCII letter. For `ß` and the ff/fi/fl/st ligatures, `toUpperCase` gives two or three capitals that include F or S. For `ŉ`, `ǰ`, `ẖ`, `ẗ`, `ẘ`, `ẙ` and `ẚ`, `toUpperCase` gives an ASCII letter together with a non-ASCII mark (`ʼN`, `J̌`, `H̱`, `T̈`, `W̊`, `Y̊`, `Aʾ`), and `toLowerCase` maps `İ` to `i` followed by U+0307. The role names contain no F or S, and every other result keeps a non-ASCII character. So none of these can spell ADMIN, ROLE_ADMIN, TEACHER or ROLE_TEACHER, and role recognition, the role column and the delete guard are exact. The keyword search, however, is case-insensitive in the model only for ASCII letters. JavaScript also matches a Vietnamese capital such as "Đ" against "đ", and the keyword "i" against "İnan", whose lower case begins with `i`.
- AdminUsers.SearchIgnoresCase: stated for text without `ı` and `ſ` (`AdminUsers.DotlessIKeyword` shows the failure JavaScript shares). In JavaScript it also fails for any letter whose capital lower-cases to different text, for example `ß`, the ligatures, final sigma `ς`, the micro sign `µ`, `ϐ ϑ ϕ ϖ ϰ ϱ ϵ ẛ`, `ŉ` and `ǰ`. The model leaves those letters unmapped, so there the property holds for them.
- Seqs.Filter: its own contract states membership in both directions. That every passing element is kept as often as it occurs is stated by `Seqs.FilterKeepsExactly`, and carried into `AdminUsers.FilteredUsers` and `BookingForm.RemoveItem`.
- JSX markup, CSS, icons, the loading flag and the `useEffect` that triggers the first load are left out. They are presentation and lifecycle with no state to reason about.
- Requests are left out. `api.get/post/put/delete` are replaced by a reply parameter (`Ok` or `Err` with an optional server message) and by the list of calls a handler makes. The backend is not part of this model.
- `alert`, `window.confirm` and `Swal.fire` are foreign dialogs. Alerts are returned texts, the confirmation is a boolean parameter, and a Swal dialog is an `Alert` value.
- The clock in `getTodayDate` is left out. Today's year, 0-based month and day are parameters.
- BookingForm.InitialForm uses one date for both fields. The source calls `getTodayDate` twice (BookingForm.jsx lines 24 and 26), so the two dates differ if midnight passes between the calls.
- `parseFloat` is left out. The quantity edit takes the already parsed value as `Option<real>`, with `None` for NaN. IEEE rounding, `-0`, `Infinity` and exponent syntax are not modelled.
- DateTime.ParseTimestamp accepts only the exact `YYYY-MM-DDTHH:mm:ss` form with a real calendar date and hours 0-23. An engine's more lenient fallback parsing of other shapes, hour 24, time zones and daylight-saving gaps are not modelled. Every other string is an Invalid Date. V8 also rolls a day number up to 31 over into the next month, so "2024-02-30T07:00:00" reads as 1 March; the model treats it as an Invalid Date. A date input never produces such a string.
- DateTime.FormatDateParses covers four-digit years only. `getFullYear` prints shorter years unpadded, giving a string that is not a date.
- JsNumber.ParseInt ignores precision loss for integers beyond 2^53.
- AdminUsers.ConfirmPrompt takes the username as a string. A missing username, which JavaScript prints as "undefined" (or "null" when the server sends `null`), is not modelled.
- `isActive` is a boolean. Non-boolean values from the server are not modelled.
- The suppression of the "." and "," keys for non-chemical items and the `min`/`step` hints of the quantity input (BookingForm.jsx lines 203-211) are left out. They are browser-level input constraints that the change handler does not enforce.
- Handlers are atomic: each step of `AdminUsers.Handle` takes a request and its reply together. In the code every `await` (AdminUsers.jsx lines 29, 76, 99 and 110) lets other clicks run while the request is pending. The model therefore leaves out these interleavings:
  - a second click on "Xóa" while the DELETE is pending. The modal closes only in the `finally` at lines 127-130, so a second DELETE goes out for the same user. Its failure shows the borrow-history text, unless the server sends a message;
  - a second "Tạo mới" while the POST is pending, which posts the same draft twice;
  - draft edits made while the POST is pending, which the reset at lines 79-85 discards.

  Modelling them would need pending-request state and a scheduler of replies, whereas the screen's rules are stated per click.
- AdminUsers.AddUser runs the handler on every submit, but the browser gates the submit first. The e-mail field is an `<input type="email">` (AdminUsers.jsx lines 234-242) inside `<form onSubmit={handleAddUser}>` (line 198), which has a submit button (line 256) and no `noValidate`. A non-empty value that is not a valid e-mail address in the HTML sense therefore blocks the submit event. The browser shows its own bubble, and `handleAddUser` never runs. Examples are "a@b..c", "a@.b.c", "ä@b.c" and "a@b_c.d": the model validates and posts them, and for username "ab" with e-mail "a@b..c" it shows the username message instead of the bubble. The browser also strips leading and trailing whitespace from the field's value before the regex sees it. The HTML e-mail grammar and the browser's value sanitisation are not part of this model; an empty e-mail is not blocked, since no field is `required`.
- The `console.error` calls (AdminUsers.jsx lines 32 and 114) are left out. They write only to the developer console and change no state.
- The add-form and delete-modal open/close buttons and the draft field edits appear only as events of `AdminUsers.Handle`. Their effect is a single field update.

## Findings

| source | as written | input that shows it | evidently intended | confidence | as-written member | corrected member |
|---|---|---|---|---|---|---|
| src/pages/TeacherDashboard/TeacherBorrow/components/BookingForm/BookingForm.jsx:71-81 | The time check compares `new Date(...)` values. An empty time field gives the unreadable string `2024-01-11T:00`, so the comparison is false and nothing is refused. | Start 2024-01-11 with the time cleared, end 2024-01-10 07:00, a non-empty basket and a room: the request is sent with `borrowDate` "2024-01-11T:00". | A request is sent only when both timestamps are readable and the return is strictly later. | medium (not executed; relies on `new Date` rejecting the `T:00` form) | BookingForm.Submit, BookingForm.EmptyTimeSlipsThrough | BookingForm.SubmitChecked |
