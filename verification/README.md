# telran-view input layer, modelled in Dafny

This project models the console input layer of `telran.view.InputOutput`: the
read-validate-retry loop `readObject`, its predicate wrapper
`readObjectWithPredicate`, and the typed readers built from the two. It also
models the password validator and the field rules of the `InputOutputTest`
class. That class uses them to read a user record one field at a time.

Modules:

- `Attempts` (`attempts.dfy`) defines `Attempt<T> = Ok(value) | Fail(msg)`.
  This is what a mapper or a predicate does when applied: it returns normally,
  or it throws a `RuntimeException` carrying a message.
- `InputOutput` (`input_output.dfy`) holds `writeLine`, the retry loop and the
  predicate layer. A read runs over a finite sequence of input lines. Its
  result is a `Run`, which records:
  - the outcome, either `Returned(value)` or `InputExhausted`;
  - the number of lines consumed;
  - the prompts handed to `readString`;
  - the strings handed to `writeString`.
- `TypedReaders` (`typed_readers.dfy`) holds `readInt`, `readLong`,
  `readIsoDate`, `readNumberRange`, `readIsoDateRange`, `readStringPredicate`
  and `readStringOptions`. It also defines the date order of `LocalDate`.
- `PasswordRules` (`password_rules.dfy`) holds `passwordValidation` and its
  helpers: the rule states, `updateRulesState`, `checkRulesState` and
  `getPasswordCharacterRules`.
- `UserFields` (`user_fields.dfy`) holds hand-written matchers for the
  username pattern `^[A-Z][a-z]{5,}$` and the phone pattern
  `(\+972-?|0)5\d-?\d{7}`. Each matcher is proved equal to a declarative
  reading of its pattern. The module also has one reader per field of the
  test.

Two points of the code decide how the model is shaped:

- **A predicate that throws causes a retry.** The `catch (RuntimeException e)`
  at `InputOutput.java:24` wraps the whole composite mapper of lines 84-91,
  predicate included. So a predicate that throws is treated like a line that
  does not parse: its message is written after the error prompt and the read
  goes on. The test's `passwordValidation` depends on this. The model
  therefore has a single failure channel (`Attempt`).
- **Options are literal strings.** `readStringOptions` tests literal membership
  (`HashSet.contains`), not pattern matching.

## Model

| member | source | states |
|---|---|---|
| `InputOutput.ErrorLineRoundTrip` | src/main/java/telran/view/InputOutput.java:12-14 | the line written for a failure is the error prompt, a space, the message and a newline; the message can always be recovered from it, so distinct messages give distinct lines |
| `InputOutput.ReadObject` | src/main/java/telran/view/InputOutput.java:16-30 | the value returned is the mapper's value on the first line it accepts; every earlier line was rejected and produced exactly one line `errorPrompt + " " + msg + "\n"`, in order; the accepted line writes nothing; every `readString` call uses the same prompt; the read ends without a value exactly when no line is accepted, after consuming all of them and making one last `readString` call |
| `InputOutput.RetriesAreIndependent` | src/main/java/telran/view/InputOutput.java:19-28 | after any number of rejected lines the loop behaves exactly as a fresh call on the remaining lines: same outcome, and the same prompts and error lines after the rejected ones |
| `InputOutput.EventuallyAccepts` | src/main/java/telran/view/InputOutput.java:19-28 | there is no retry bound: any number of rejected lines followed by an accepted one returns that line's value, with one error line per rejection carrying that line's exception message, in order |
| `InputOutput.IgnoresLinesAfterAcceptance` | src/main/java/telran/view/InputOutput.java:19-29 | the loop stops at the accepted line: replacing everything after it changes nothing |
| `InputOutput.Guarded` | src/main/java/telran/view/InputOutput.java:84-91 | the composite mapper succeeds iff the mapper succeeds and the predicate returns true, and then yields the mapper's value; a mapper exception passes through unchanged; a false predicate becomes "Input does not meet the criteria"; an exception from the predicate passes through with its own message |
| `InputOutput.ReadObjectWithPredicate` | src/main/java/telran/view/InputOutput.java:83-92 | the value returned is the first line's value that parses and satisfies the predicate; each earlier line, unparsable or refused, wrote one error line with the composite's message (the criteria message for a false predicate); the read ends without a value iff no line is accepted, and then every line was consumed and wrote its error line; every prompt is the same |
| `InputOutput.EventuallySatisfies` | src/main/java/telran/view/InputOutput.java:83-92 | lines that do not parse or that the predicate refuses, then a line whose value it accepts: that value is returned, after one error line per refused line carrying the composite's message |
| `InputOutput.RejectionIsRetry` | src/main/java/telran/view/InputOutput.java:83-92 | a line whose value the predicate refuses, by returning false or by throwing, is handled like a parse failure: one error line, then the read continues as a fresh call on the next line |
| `TypedReaders.ReadInt` | src/main/java/telran/view/InputOutput.java:38-42 | the value is the parse of the first line that parses as a 32-bit integer; each earlier line wrote the parser's message; no value iff no line parses, and then every line was consumed and wrote its error line; every prompt is the same |
| `TypedReaders.ReadIntTakesFirstInteger` | src/main/java/telran/view/InputOutput.java:38-42 | for any unparsable lines followed by a parsable one, that line's integer is returned after exactly one error line per unparsable line |
| `TypedReaders.ReadLong` | src/main/java/telran/view/InputOutput.java:44-48 | the value is the parse of the first line that parses as a 64-bit integer; each earlier line wrote the parser's message; no value iff no line parses, and then every line was consumed and wrote its error line |
| `TypedReaders.ReadLongTakesFirstInteger` | src/main/java/telran/view/InputOutput.java:44-48 | for any unparsable lines followed by a parsable one, that line's 64-bit integer is returned after exactly one error line per unparsable line |
| `TypedReaders.ReadIsoDate` | src/main/java/telran/view/InputOutput.java:72-75 | the value is the parse of the first line that parses as a date; each earlier line wrote the parser's message; no value iff no line parses, and then every line was consumed and wrote its error line |
| `TypedReaders.ReadIsoDateTakesFirstDate` | src/main/java/telran/view/InputOutput.java:72-75 | for any unparsable lines followed by a parsable one, that line's date is returned after exactly one error line per unparsable line |
| `TypedReaders.ReadNumberRange` | src/main/java/telran/view/InputOutput.java:56-60 | the value is the parse of the first line that parses to a number in the closed interval [min, max]; each earlier line was unparsable and wrote the parser's message, or parsed outside the interval and wrote the criteria message; no value iff no line parses into the interval, and then every line was consumed and wrote its error line |
| `TypedReaders.NumberRangeTakesFirstInRange` | src/main/java/telran/view/InputOutput.java:56-60 | for any lines that are unparsable or out of range followed by one in range, that number is returned after one error line per earlier line, with the parser's or the criteria message |
| `TypedReaders.NumberRangeIsInclusive` | src/main/java/telran/view/InputOutput.java:59 | a first line that parses to x is returned at once iff min <= x <= max, so both ends are accepted; otherwise its error line carries the criteria message |
| `TypedReaders.DateOrderIsStrictTotal` | src/main/java/telran/view/InputOutput.java:80 | `isBefore` is irreflexive and transitive; any two distinct dates are ordered one way; `isAfter` is its converse |
| `TypedReaders.ReadIsoDateRange` | src/main/java/telran/view/InputOutput.java:77-81 | the value is the parse of the first line whose date is strictly after `from` and strictly before `to`; each earlier line wrote the parser's or the criteria message; no value iff no line parses into the open interval, and then every line was consumed and wrote its error line |
| `TypedReaders.DateRangeTakesFirstBetween` | src/main/java/telran/view/InputOutput.java:77-81 | for any lines that are unparsable or outside the open interval followed by one inside, that date is returned after one error line per earlier line |
| `TypedReaders.DateRangeIsExclusive` | src/main/java/telran/view/InputOutput.java:80 | a first line that parses to `from` or to `to` is rejected with the criteria message; a first line is returned at once iff its date is strictly between |
| `TypedReaders.ReadStringPredicate` | src/main/java/telran/view/InputOutput.java:62-65 | the returned string is the first input line the predicate accepts, unchanged; each earlier line wrote the predicate's message or the criteria message; no value iff the predicate accepts no line, and then every line was consumed and wrote its error line |
| `TypedReaders.StringPredicateTakesFirstAccepted` | src/main/java/telran/view/InputOutput.java:62-65 | for any refused lines followed by an accepted one, that line is returned after one error line per refused line |
| `TypedReaders.ReadStringOptions` | src/main/java/telran/view/InputOutput.java:67-70 | the returned string is the first input line that is exactly a member of the options; every earlier line was a non-member and wrote the criteria message; no value iff no line is a member, and then every line was consumed and wrote its error line |
| `TypedReaders.OptionsTakesFirstMember` | src/main/java/telran/view/InputOutput.java:67-70 | for any non-member lines followed by a member, that member is returned after one criteria-message error line per non-member |
| `TypedReaders.OptionsRetryOnce` | src/main/java/telran/view/InputOutput.java:67-70 | a non-member line then a member line: exactly one error line, two prompts, and the member is returned |
| `PasswordRules.PasswordCharacterRules` | src/test/java/telran/view/InputOutputTest.java:109-117 | four rules, none satisfied yet, tried in this order: capital letters ("no capital letter"), small letters ("no lower case letter"), digits ("no digit letter"), and the symbols `#$*&%.-` ("no symbol from #$*&%.-") |
| `PasswordRules.FirstMatchFrom` | src/test/java/telran/view/InputOutputTest.java:96-104 | the iterator walk finds the first rule at or after a position that accepts the character, or reports that none does |
| `PasswordRules.UpdateRulesState` | src/test/java/telran/view/InputOutputTest.java:95-108 | fails with "disallowed symbol c" iff no rule accepts c; otherwise it raises exactly the flag of the first accepting rule, never lowers a flag, and changes nothing else |
| `PasswordRules.ScanRules` | src/test/java/telran/view/InputOutputTest.java:79-82 | the left-to-right loop succeeds iff every character is accepted by some rule; otherwise it fails with the message naming the leftmost such character; on success, a rule's flag is up iff it was up before or it is the first accepting rule of some character |
| `PasswordRules.CheckRulesState` | src/test/java/telran/view/InputOutputTest.java:89-94 | the report is empty when every flag is up; when every message is non-empty, it is empty only then |
| `PasswordRules.UnsatisfiedMessages` | src/test/java/telran/view/InputOutputTest.java:91-93 | every message in the report belongs to a rule whose flag is down |
| `PasswordRules.SplitJoin` | src/test/java/telran/view/InputOutputTest.java:93 | joining messages that contain no `;` loses nothing: cutting the report at `;` gives the messages back |
| `PasswordRules.PasswordValidation` | src/test/java/telran/view/InputOutputTest.java:75-88 | the validator never answers false: it answers true or throws |
| `PasswordRules.PasswordValidationCorrect` | src/test/java/telran/view/InputOutputTest.java:75-88 | true iff the length is at least 8, every character is a capital, small letter, digit or one of `#$*&%.-`, and all four classes occur; a shorter password fails with "less than 8 characters"; then the leftmost other character fails as "disallowed symbol c"; otherwise the failure lists the missing classes, joined with `;`, in rule order |
| `UserFields.ShortPasswordExample` | src/test/java/telran/view/InputOutputTest.java:76-78 | "Abc1#" fails with "less than 8 characters" even though its characters are allowed |
| `UserFields.SpaceIsDisallowed` | src/test/java/telran/view/InputOutputTest.java:105-107 | a space after allowed characters in a long enough password fails as "disallowed symbol  " |
| `UserFields.LowerCaseOnlyPassword` | src/test/java/telran/view/InputOutputTest.java:89-94 | a long enough password of small letters fails with "no capital letter;no digit letter;no symbol from #$*&%.-" |
| `UserFields.MatchUsername` | src/test/java/telran/view/InputOutputTest.java:43 | the left-to-right matcher the username reader uses answers true iff the string is one ASCII capital followed by at least five ASCII small letters, and nothing else |
| `UserFields.MatchPhoneNumberCorrect` | src/test/java/telran/view/InputOutputTest.java:51 | the hand-written matcher accepts exactly the strings that split as "+972", "+972-" or "0", then "5", one digit, an optional "-", and seven digits |
| `UserFields.PhoneExampleInternational` | src/test/java/telran/view/InputOutputTest.java:51 | "+972-50-1234567", with the country prefix and both dashes, is a phone number |
| `UserFields.PhoneExampleTooLong` | src/test/java/telran/view/InputOutputTest.java:51 | a number with eight digits after the dash is rejected |
| `UserFields.ReadUsername` | src/test/java/telran/view/InputOutputTest.java:40-43 | the username read is the first input line matching the username pattern; every earlier line wrote "Wrong username format. Input does not meet the criteria"; no value iff no line matches, and then every line was consumed and wrote its error line; every `readString` call uses the field's prompt |
| `UserFields.UsernameTakesFirstMatch` | src/test/java/telran/view/InputOutputTest.java:40-43 | for any non-matching lines followed by a matching one, that line is returned after one error line per non-matching line |
| `UserFields.ReadPassword` | src/test/java/telran/view/InputOutputTest.java:44-46 | the password read is the first input line the validator accepts; each earlier line wrote the validator's own exception message after "Error "; no value iff the validator accepts no line, and then every line was consumed and wrote its error line; every `readString` call uses the field's prompt |
| `UserFields.PasswordTakesFirstValid` | src/test/java/telran/view/InputOutputTest.java:44-46 | for any passwords lacking the length, the allowed characters or one of the four classes, followed by one that has all of them, that one is returned, and each earlier one wrote its own validator message after "Error " |
| `UserFields.ReadPhoneNumber` | src/test/java/telran/view/InputOutputTest.java:48-51 | the phone number read is the first input line matching the phone pattern; every earlier line wrote the criteria message; no value iff no line matches, and then every line was consumed and wrote its error line; every `readString` call uses the field's prompt |
| `UserFields.PhoneTakesFirstMatch` | src/test/java/telran/view/InputOutputTest.java:48-51 | for any non-matching lines followed by a matching one, that line is returned after one error line per non-matching line |
| `UserFields.ReadDateOfLastLogin` | src/test/java/telran/view/InputOutputTest.java:52-55 | the date read is the first parsed date strictly after `LocalDate.MIN` and strictly before the given day after today; each earlier line wrote the parser's or the criteria message; no value iff no line parses into that interval, and then every line was consumed and wrote its error line; every `readString` call uses the field's prompt |
| `UserFields.LastLoginTakesFirstBetween` | src/test/java/telran/view/InputOutputTest.java:52-55 | for any lines that are unparsable or outside (`LocalDate.MIN`, tomorrow) followed by one inside, that date is returned after one error line per earlier line, with the parser's or the criteria message |
| `UserFields.ReadNumberOfLogins` | src/test/java/telran/view/InputOutputTest.java:56-59 | the number read is the first parsed integer that is at least 1; each earlier line was unparsable (parser's message) or below 1 (criteria message); no value iff no line parses to a number >= 1, and then every line was consumed and wrote its error line; every `readString` call uses the field's prompt |
| `UserFields.LoginsTakesFirstPositive` | src/test/java/telran/view/InputOutputTest.java:56-59 | for any lines that are unparsable or below 1 followed by one that parses to at least 1, that number is returned after one error line per earlier line |

## Left out

- The console implementation of `readString` and `writeString` is not part of this model. Input is a finite sequence of lines, and output is the list of strings handed to `writeString`. Running out of lines is modelled as a failing `readString` call that ends the read. That failure is outside the `try`, so nothing catches it.
- `readDouble` is left out. `readNumberRange` is modelled over `real`, which has no NaN, infinities or rounding. Comparisons with NaN are therefore not modelled.
- `Integer.parseInt`, `Long.parseLong`, `Double.parseDouble` and `LocalDate.parse` are library code. They are parameters: fallible functions from a line to a value. Their exact accepted formats and messages are not modelled.
- Dates are (year, month, day) triples ordered as `LocalDate` orders them. Calendar validity belongs to the date parser, which is a parameter.
- `LocalDate.now().plusDays(1)` in the date-of-last-login reader is a clock reading, so it is a parameter (`tomorrow`).
- Throwables that are not `RuntimeException`s (`Error`s) would escape the loop. They are not modelled, because the failure channel carries runtime exceptions only. A `null` exception message, which Java prints as "null", is not modelled either.
- `readObjectTest` is left out. Its `User` parser depends on the trailing-empty rules of `String.split` and on the library parsers.
- The `User` record, `writeLine(user)` with `User.toString`, and the chaining of the five field reads in `readUserByFields` are left out. Each field reader is modelled on its own.
- `Character.isUpperCase`, `isLowerCase` and `isDigit` are modelled on ASCII only. Non-ASCII letters and digits count as disallowed symbols here, although Java accepts them.
- The message `String.format("less than %d characters", 8)` is the constant "less than 8 characters". Integer formatting is not modelled.
- Regular-expression matching in general is not modelled. Only the two patterns of the test are written out by hand.
- `PasswordRules.UpdateRulesState` requires a non-empty rule list. The do-while loop of `updateRulesState` takes an element before testing whether one exists, so an empty list would throw `NoSuchElementException`. `passwordValidation`, its only caller, passes the four rules of `getPasswordCharacterRules`.
- `PasswordRules.CheckRulesState`: for an arbitrary rule list, the contract states only when the report is empty and, through `UnsatisfiedMessages`, where its messages come from. The exact content and order of the report is proved for the validator's own four rules, in `PasswordValidationCorrect`.
- `PasswordRules.PasswordValidation`: Dafny strings are sequences of Unicode scalar values, while Java's `length()` and `toCharArray()` count UTF-16 code units. Each character outside the Basic Multilingual Plane counts once here and twice in Java. So such a password can fail the length check here and pass it in Java; for example, six ASCII characters and one emoji. And when Java names the high surrogate as the disallowed symbol, the model names the whole character.
