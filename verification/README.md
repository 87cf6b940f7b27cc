# Portfolio page script: contact-form validation and copyright year

A Dafny model of the two pieces of string logic in the portfolio page's
`script.js`:

- **Contact-form submission.** The submit handler trims the name, e-mail and
  message fields. If any trimmed field is empty it shows "Please fill out all
  fields". Otherwise it tests the trimmed address against
  `/^[^\s@]+@[^\s@]+\.[^\s@]+$/`, showing "Please enter a valid email
  address" on failure and the success notification otherwise.
- **Copyright year.** If the footer paragraph contains `©`, the first run of
  four ASCII digits (`/\d{4}/`, no global flag) is replaced by the current
  year.

Modules:

- `Text` (`text.dfy`): `IsWs` is the ECMAScript WhiteSpace and LineTerminator
  class, which serves both `String.prototype.trim` and `\s`. `Trim` is
  specified by `IsTrimOf`: the slice with only white space around it whose
  ends are not white space. Uniqueness, padding and idempotence are proved.
- `Email` (`email.dfy`): `IsEmail` splits at the `@` and asks for an inner
  dot. `RegexMatches` reads the expression segment by segment. The two are
  proved equal, and accepted addresses are characterised by their single `@`.
- `ContactForm` (`contact_form.dfy`): the `Outcome` datatype, with each
  outcome's notification text and type, and `Submit`, the handler.
- `Decimal` (`decimal.dfy`): `String(year)` for an integer year, with a
  parse-back round trip and a digit-count bound.
- `Copyright` (`copyright.dfy`): `FindYear` finds the first four-digit run
  and `ReplaceFirstYear` does the footer rewrite. Window, length and
  idempotence properties are proved.
- `Scenarios` (`scenarios.dfy`): concrete footers and addresses.

The year is a parameter of `ReplaceFirstYear`; the model does not read a
clock. Strings are sequences of Unicode scalar values, while JavaScript
strings are UTF-16 code units. This makes no difference here: every
character involved (white space, `@`, `.`, digits, `©`) lies in the Basic
Multilingual Plane. A supplementary character is two non-white-space code
units in JavaScript and one non-white-space character here, and either way
it matches `[^\s@]+`.

## Model

| member | source | states |
|---|---|---|
| Text.TrimStart | script.js:40-42 | the result is a suffix of the input, everything cut off is white space, and the result is empty or starts with non-white space |
| Text.TrimEnd | script.js:40-42 | the result is a prefix of the input, everything cut off is white space, and the result is empty or ends with non-white space |
| Text.Trim | script.js:40-42 | `trim()` returns a slice of the field with only white space before and after it, whose first and last characters are not white space |
| Text.TrimOfUnique | script.js:40-42 | a field has exactly one such trimmed form, so `IsTrimOf` pins down `trim()` completely |
| Text.TrimEmptyIffAllWs | script.js:40-44 | a field trims to the empty string exactly when every character of it is white space |
| Text.TrimPadded | script.js:40-42 | white space added before and after a field does not change its trimmed value |
| Text.TrimKeepsTrimmed | script.js:40-42 | a field that neither starts nor ends with white space is returned unchanged by `trim()` |
| Text.TrimIdempotent | script.js:40-42 | trimming a trimmed value changes nothing |
| Email.IsEmail | script.js:49-50 | an address the test accepts has at least five characters (`x@y.z`), and its first and last characters are neither white space nor `@` |
| Email.EmailIffRegex | script.js:49-50 | the split reading (`L@D`, `L` non-empty, neither part holding white space or `@`, `D` with a dot that is neither its first nor its last character) accepts exactly the strings the anchored expression `^[^\s@]+@[^\s@]+\.[^\s@]+$` matches |
| Email.EmailCharacterization | script.js:49-50 | an address passes exactly when it has no white space, exactly one `@`, at least one character before the `@`, and after it a dot that is neither first nor last |
| Email.EmailHasOneAt | script.js:49-50 | an accepted address contains no white space and exactly one `@` |
| Email.OneAtIsEmail | script.js:49-50 | an address with no white space, a single `@` not at the start, and an inner dot after it is accepted |
| ContactForm.Outcome.Message | script.js:45-57 | each outcome has its own notification text ("Please fill out all fields", "Please enter a valid email address", "Your message has been sent successfully!"), and each text belongs to exactly one outcome |
| ContactForm.Outcome.Kind | script.js:45-57 | the notification is of type `success` exactly when the message was sent, and `error` otherwise |
| ContactForm.Submit | script.js:40-57 | a submission gives exactly one outcome: "fill out all fields" iff some field is white space alone (empty after trimming); "valid email" iff no field is blank and the trimmed address fails the expression `^[^\s@]+@[^\s@]+\.[^\s@]+$`; success iff no field is blank and the trimmed address matches it |
| ContactForm.EmptyFieldShortCircuits | script.js:44-47 | an empty trimmed name or message gives "fill out all fields" whatever the address, so the address test is never reached |
| ContactForm.PaddedEmailSameOutcome | script.js:41-50 | white space around the address never changes the outcome, because the expression sees the trimmed address |
| Decimal.NatString | script.js:182-184 | the text of a whole number is non-empty and all digits; it starts with `0` only when the number is 0, and then it is the single digit `0` |
| Decimal.NatStringRoundTrip | script.js:182-184 | reading the digits back gives the number that was written |
| Decimal.NatStringLength | script.js:182-184 | a number written with `k` digits is below `10^k`, and at least `10^(k-1)` when it has two or more digits |
| Decimal.YearString | script.js:182-184 | the number-to-text conversion of the year: a year of 0 or more becomes non-empty digits that read back as the year, with a leading `0` only for the year 0 and then as the whole text `0`; a negative year becomes `-` followed by digits that read back as its magnitude, with no leading zero |
| Decimal.NatStringFourLong | script.js:182-184 | a whole number is written with four digits exactly when it lies between 1000 and 9999 |
| Decimal.YearStringFourDigits | script.js:182-184 | the year's text is four digits exactly for the years 1000 to 9999 |
| Copyright.FindYearFrom | script.js:184 | the result is the leftmost index at or after the start point where four digits begin, or none when no such index exists |
| Copyright.FindYear | script.js:184 | the first match of `/\d{4}/`: a found index is the leftmost four-digit run, and nothing is found exactly when the text has no four-digit run |
| Copyright.ReplaceFirstYear | script.js:181-184 | without `©`, or without a four-digit run, the text is unchanged; otherwise it is the text before the leftmost run, the year's text, and the text after the run |
| Copyright.BeforeFirstYearNotDigit | script.js:184 | the character just before the leftmost four-digit run is not a digit |
| Copyright.ReplaceOnlyFirstWindow | script.js:184 | with a four-digit year, the length is kept and only characters inside the leftmost four-digit run can change |
| Copyright.ReplaceKeepsLength | script.js:181-184 | with a four-digit year, the footer keeps its length in every case |
| Copyright.ReplacedYearIsFirst | script.js:181-184 | with a four-digit year, a footer holding `©` keeps its leftmost four-digit run at the same index after the rewrite, and the run now holds the year |
| Copyright.CopyrightSignKept | script.js:181-184 | a footer holding `©` still holds it after the rewrite, for every year, whether or not a four-digit run was found |
| Copyright.CurrentFooterUnchanged | script.js:184 | a footer whose leftmost four-digit run already holds the year's text comes back unchanged |
| Copyright.ReplaceIdempotent | script.js:181-184 | running the rewrite twice with the same four-digit year gives the same footer as running it once |
| Scenarios.FooterRewritten | script.js:181-184 | for every year, "© 2023 Kai" becomes "© " followed by that year's text and " Kai" |
| Scenarios.LongRunPartlyRewritten | script.js:184 | in "© 12345" only the first four digits are replaced: for every year the result is "© ", the year's text, then "5" |
| Scenarios.Year2026 | script.js:184 | the year 2026 is written as "2026" |
| Scenarios.YearZero | script.js:184 | the year 0 is written as "0" |
| Scenarios.DotAfterAt | script.js:49 | "a@.b" is refused (the only dot is first in the domain) and "a@.b.c" is accepted |

## Left out

- Sticky header and smooth scrolling (script.js:7-29): browser event wiring; the only logic compares a possibly fractional scroll offset with 50.
- Notification toasts (script.js:64-111): DOM creation, animation frames, timers and transition events. The model keeps only each outcome's text and type (`Outcome.Message`, `Outcome.Kind`).
- Reveal-on-scroll (script.js:116-155): floating-point layout geometry and debounce timers.
- Project card hover styles (script.js:161-175): style mutation only.
- Flowing cubes (script.js:188-243): random, floating-point decorative animation.
- `e.preventDefault()`, `console.log` and `contactForm.reset()` in the submit handler: side effects with no bearing on the outcome.
- Reading the clock (`new Date().getFullYear()`): the year is a parameter instead.
- The footer element being absent (`footerYear` null): a DOM lookup. The model starts from the footer's text.
- Email.IsEmail: its own contract gives only necessary conditions; which addresses it accepts is stated in full by Email.EmailIffRegex and Email.EmailCharacterization.
- Decimal.YearString: written for integers only. `getFullYear()` never returns a fraction, and its range is far below where `String` switches to exponent notation.
- Copyright.ReplaceIdempotent: only for four-digit years. With any other year the replacement can shift an existing four-digit run or create a new one, so a second run may change the text again: year 999 turns "© 20231" into "© 9991", and a second run turns that into "© 999".
