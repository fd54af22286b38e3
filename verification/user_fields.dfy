/**
 The field readers of the test class: the username and Israeli mobile phone
 patterns written out by hand instead of as regular expressions, the password
 validator used as a predicate, the date of the last login and the number of
 logins. Each reader is one call of a typed reader with a fixed predicate.
 */
module UserFields {
  import opened Attempts
  import opened InputOutput
  import opened TypedReaders
  import opened PasswordRules

  // ---------------------------------------------------------------------------
  // Username: the whole string matches ^[A-Z][a-z]{5,}$

  /** The regular expression read as a description: one capital letter, then five or more small letters, nothing else */
  predicate IsUsername(s: string)
  {
    && |s| >= 6
    && IsUpperAscii(s[0])
    && forall i :: 1 <= i < |s| ==> IsLowerAscii(s[i])
  }

  /** Every character of `s` from position `i` on is a small letter */
  function LowerFrom(s: string, i: nat): (ok: bool)
    requires i <= |s|
    ensures ok <==> forall j :: i <= j < |s| ==> IsLowerAscii(s[j])
    decreases |s| - i
  {
    i == |s| || (IsLowerAscii(s[i]) && LowerFrom(s, i + 1))
  }

  /** A left-to-right matcher for the username pattern */
  function MatchUsername(s: string): (ok: bool)
    ensures ok <==> IsUsername(s)
  {
    |s| >= 6 && IsUpperAscii(s[0]) && LowerFrom(s, 1)
  }

  /** The matcher, passed as a predicate, answers as the pattern does */
  lemma UsernameCriterion()
    ensures forall s :: Total(MatchUsername)(s) == Ok(IsUsername(s))
  {
    forall s ensures Total(MatchUsername)(s) == Ok(IsUsername(s)) {
      assert MatchUsername(s) == IsUsername(s);
    }
  }

  // ---------------------------------------------------------------------------
  // Israeli mobile number: the whole string matches (\+972-?|0)5\d-?\d{7}

  predicate AllDigits(s: string)
  {
    forall i :: 0 <= i < |s| ==> IsDigitAscii(s[i])
  }

  /** `s` is `prefix`, then "5" and the digit `d`, then `sep`, then the seven digits of `number` */
  predicate PhoneParts(s: string, prefix: string, d: char, sep: string, number: string)
  {
    && (prefix == "+972" || prefix == "+972-" || prefix == "0")
    && IsDigitAscii(d)
    && (sep == "" || sep == "-")
    && |number| == 7 && AllDigits(number)
    && s == prefix + ['5', d] + sep + number
  }

  /** The regular expression read as a description: some way of cutting the string into its parts */
  ghost predicate IsPhoneNumber(s: string)
  {
    exists prefix, d, sep, number :: PhoneParts(s, prefix, d, sep, number)
  }

  /** `5\d-?\d{7}`, what follows the country or trunk prefix */
  predicate MobileTail(t: string)
  {
    && |t| >= 3
    && t[0] == '5' && IsDigitAscii(t[1])
    && if t[2] == '-' then |t| == 10 && AllDigits(t[3..]) else |t| == 9 && AllDigits(t[2..])
  }

  /** A hand-written matcher: decide the prefix from the first characters, then check the tail */
  function MatchPhoneNumber(s: string): bool
  {
    if |s| >= 1 && s[0] == '0' then MobileTail(s[1..])
    else if |s| >= 5 && s[..5] == "+972-" then MobileTail(s[5..])
    else if |s| >= 4 && s[..4] == "+972" then MobileTail(s[4..])
    else false
  }

  lemma MobileTailParts(t: string)
    requires MobileTail(t)
    ensures forall prefix :: prefix == "+972" || prefix == "+972-" || prefix == "0" ==>
              if t[2] == '-' then PhoneParts(prefix + t, prefix, t[1], "-", t[3..])
              else PhoneParts(prefix + t, prefix, t[1], "", t[2..])
  {
    if t[2] == '-' {
      assert t == ['5', t[1]] + "-" + t[3..];
    } else {
      assert t == ['5', t[1]] + "" + t[2..];
    }
  }

  lemma PartsGiveTail(prefix: string, d: char, sep: string, number: string)
    requires PhoneParts(prefix + ['5', d] + sep + number, prefix, d, sep, number)
    ensures MobileTail(['5', d] + sep + number)
  {
    var t := ['5', d] + sep + number;
    if sep == "-" {
      assert t[3..] == number;
    } else {
      assert t == ['5', d] + number;
      assert t[2..] == number;
    }
  }

  lemma MatchImpliesPattern(s: string)
    requires MatchPhoneNumber(s)
    ensures IsPhoneNumber(s)
  {
    var prefix := if s[0] == '0' then "0" else if |s| >= 5 && s[..5] == "+972-" then "+972-" else "+972";
    var t := s[|prefix|..];
    assert MobileTail(t);
    assert s == prefix + t;
    MobileTailParts(t);
    if t[2] == '-' {
      assert PhoneParts(s, prefix, t[1], "-", t[3..]);
    } else {
      assert PhoneParts(s, prefix, t[1], "", t[2..]);
    }
  }

  lemma PatternImpliesMatch(s: string, prefix: string, d: char, sep: string, number: string)
    requires PhoneParts(s, prefix, d, sep, number)
    ensures MatchPhoneNumber(s)
  {
    var t := ['5', d] + sep + number;
    PartsGiveTail(prefix, d, sep, number);
    assert s == prefix + t;
    if prefix == "0" {
      assert s[0] == '0';
      assert s[1..] == t;
    } else if prefix == "+972-" {
      assert s[0] == '+';
      assert s[..5] == "+972-" && s[5..] == t;
    } else {
      assert s[0] == '+';
      assert s[4] == '5';
      assert s[..5] != "+972-";
      assert s[..4] == "+972" && s[4..] == t;
    }
  }

  /** The matcher accepts exactly the strings the pattern describes */
  lemma MatchPhoneNumberCorrect(s: string)
    ensures MatchPhoneNumber(s) <==> IsPhoneNumber(s)
  {
    if MatchPhoneNumber(s) {
      MatchImpliesPattern(s);
    }
    if IsPhoneNumber(s) {
      var prefix, d, sep, number :| PhoneParts(s, prefix, d, sep, number);
      PatternImpliesMatch(s, prefix, d, sep, number);
    }
  }

  // ---------------------------------------------------------------------------
  // The readers of the test, one per field

  const UsernamePrompt := "Enter username at least 6 ASCII letters, first Capital, others lower case"
  const UsernameError := "Wrong username format."
  const PasswordPrompt := "Enter password (at least 8 symbols, at least one capital letter at least one lower case letter, at least one digit, at least one symbol from \"#$*&%\""
  const PasswordError := "Error "
  const PhonePrompt := "Enter Israel mobile phone number"
  const PhoneError := "Wrong phone number format."
  const LastLoginPrompt := "Enter date of last login in format yyyy-MM-dd"
  const LastLoginError := "Wrong date format."
  const LoginsPrompt := "Enter number of logins"
  const LoginsError := "Wrong number format."

  /** `LocalDate.MIN` */
  const MinDate := Date(-999_999_999, 1, 1)

  function ReadUsername(input: seq<string>): (r: Run<string>)
    ensures r.consumed <= |input|
    ensures r.outcome.Returned? ==> 0 < r.consumed && r.outcome.value == input[r.consumed - 1] && IsUsername(r.outcome.value)
    ensures r.outcome.InputExhausted? <==> forall i :: 0 <= i < |input| ==> !IsUsername(input[i])
    ensures r.outcome.InputExhausted? ==> r.consumed == |input|
    // every line before the returned one failed the pattern
    ensures |r.output| == if r.outcome.Returned? then r.consumed - 1 else r.consumed
    ensures forall i :: 0 <= i < |r.output| ==> !IsUsername(input[i]) && r.output[i] == ErrorLine(UsernameError, CriteriaMessage)
    ensures |r.prompts| == |r.output| + 1 && forall i :: 0 <= i < |r.prompts| ==> r.prompts[i] == UsernamePrompt
  {
    UsernameCriterion();
    ReadStringPredicate(UsernamePrompt, UsernameError, Total(MatchUsername), input)
  }

  /** The password reader: the validator's exception messages become the error lines */
  function ReadPassword(input: seq<string>): (r: Run<string>)
    ensures r.consumed <= |input|
    ensures r.outcome.Returned? ==> 0 < r.consumed && r.outcome.value == input[r.consumed - 1]
    ensures r.outcome.Returned? ==> PasswordValidation(r.outcome.value) == Ok(true)
    ensures r.outcome.InputExhausted? <==> forall i :: 0 <= i < |input| ==> PasswordValidation(input[i]) != Ok(true)
    ensures r.outcome.InputExhausted? ==> r.consumed == |input|
    // every line before the returned one was refused by the validator
    ensures |r.output| == if r.outcome.Returned? then r.consumed - 1 else r.consumed
    ensures forall i :: 0 <= i < |r.output| ==>
              PasswordValidation(input[i]).Fail? && r.output[i] == ErrorLine(PasswordError, PasswordValidation(input[i]).msg)
    ensures |r.prompts| == |r.output| + 1 && forall i :: 0 <= i < |r.prompts| ==> r.prompts[i] == PasswordPrompt
  {
    var r := ReadStringPredicate(PasswordPrompt, PasswordError, PasswordValidation, input);
    assert forall i :: 0 <= i < |r.output| ==> PasswordValidation(input[i]).Fail?;
    r
  }

  function ReadPhoneNumber(input: seq<string>): (r: Run<string>)
    ensures r.consumed <= |input|
    ensures r.outcome.Returned? ==> 0 < r.consumed && r.outcome.value == input[r.consumed - 1] && IsPhoneNumber(r.outcome.value)
    ensures r.outcome.InputExhausted? <==> forall i :: 0 <= i < |input| ==> !IsPhoneNumber(input[i])
    ensures r.outcome.InputExhausted? ==> r.consumed == |input|
    // every line before the returned one failed the pattern
    ensures |r.output| == if r.outcome.Returned? then r.consumed - 1 else r.consumed
    ensures forall i :: 0 <= i < |r.output| ==> !IsPhoneNumber(input[i]) && r.output[i] == ErrorLine(PhoneError, CriteriaMessage)
    ensures |r.prompts| == |r.output| + 1 && forall i :: 0 <= i < |r.prompts| ==> r.prompts[i] == PhonePrompt
  {
    var r := ReadStringPredicate(PhonePrompt, PhoneError, Total(MatchPhoneNumber), input);
    forall s: string ensures MatchPhoneNumber(s) <==> IsPhoneNumber(s) { MatchPhoneNumberCorrect(s); }
    r
  }

  /** The date of the last login, from `LocalDate.MIN` (excluded) up to the
      given day after today (excluded); the clock is a parameter */
  function ReadDateOfLastLogin(parseDate: string -> Attempt<Date>, tomorrow: Date, input: seq<string>): (r: Run<Date>)
    ensures r.consumed <= |input|
    ensures r.outcome.Returned? ==>
              && 0 < r.consumed
              && parseDate(input[r.consumed - 1]) == Ok(r.outcome.value)
              && IsAfter(r.outcome.value, MinDate) && IsBefore(r.outcome.value, tomorrow)
    ensures r.outcome.InputExhausted? <==>
              forall i :: 0 <= i < |input| ==>
                parseDate(input[i]).Fail? || !(IsAfter(parseDate(input[i]).value, MinDate) && IsBefore(parseDate(input[i]).value, tomorrow))
    ensures r.outcome.InputExhausted? ==> r.consumed == |input|
    // every line before the returned one was unparsable or out of range, and wrote one error line
    ensures |r.output| == if r.outcome.Returned? then r.consumed - 1 else r.consumed
    ensures forall i :: 0 <= i < |r.output| ==>
              r.output[i] == ErrorLine(LastLoginError, if parseDate(input[i]).Fail? then parseDate(input[i]).msg else CriteriaMessage)
    ensures forall i :: 0 <= i < |r.output| && parseDate(input[i]).Ok? ==>
              !(IsAfter(parseDate(input[i]).value, MinDate) && IsBefore(parseDate(input[i]).value, tomorrow))
    ensures |r.prompts| == |r.output| + 1 && forall i :: 0 <= i < |r.prompts| ==> r.prompts[i] == LastLoginPrompt
  {
    ReadIsoDateRange(LastLoginPrompt, LastLoginError, parseDate, MinDate, tomorrow, input)
  }

  /** The predicate of the number-of-logins reader */
  predicate AtLeastOne(n: Int32)
  {
    n >= 1
  }

  lemma LoginsCriterion()
    ensures forall n :: Total(AtLeastOne)(n) == Ok(n >= 1)
  {
    forall n ensures Total(AtLeastOne)(n) == Ok(n >= 1) {
      assert AtLeastOne(n) == (n >= 1);
    }
  }

  function ReadNumberOfLogins(parseInt: string -> Attempt<Int32>, input: seq<string>): (r: Run<Int32>)
    ensures r.consumed <= |input|
    ensures r.outcome.Returned? ==>
              && 0 < r.consumed
              && parseInt(input[r.consumed - 1]) == Ok(r.outcome.value)
              && r.outcome.value >= 1
    ensures r.outcome.InputExhausted? <==>
              forall i :: 0 <= i < |input| ==> parseInt(input[i]).Fail? || parseInt(input[i]).value < 1
    ensures r.outcome.InputExhausted? ==> r.consumed == |input|
    // every line before the returned one was unparsable or below 1, and wrote one error line
    ensures |r.output| == if r.outcome.Returned? then r.consumed - 1 else r.consumed
    ensures forall i :: 0 <= i < |r.output| ==>
              && (parseInt(input[i]).Fail? || parseInt(input[i]).value < 1)
              && r.output[i] == ErrorLine(LoginsError, if parseInt(input[i]).Fail? then parseInt(input[i]).msg else CriteriaMessage)
    ensures |r.prompts| == |r.output| + 1 && forall i :: 0 <= i < |r.prompts| ==> r.prompts[i] == LoginsPrompt
  {
    LoginsCriterion();
    ReadObjectWithPredicate(LoginsPrompt, LoginsError, parseInt, Total(AtLeastOne), input)
  }

  // ---------------------------------------------------------------------------
  // Each field reader returns the first line that meets its rule

  lemma UsernameTakesFirstMatch(rejected: seq<string>, accepted: string, rest: seq<string>)
    requires forall i :: 0 <= i < |rejected| ==> !IsUsername(rejected[i])
    requires IsUsername(accepted)
    ensures var r := ReadUsername(rejected + [accepted] + rest);
            && r.outcome == Returned(accepted)
            && r.consumed == |rejected| + 1
            && |r.output| == |rejected|
            && (forall i :: 0 <= i < |rejected| ==> r.output[i] == ErrorLine(UsernameError, CriteriaMessage))
  {
    UsernameCriterion();
    StringPredicateTakesFirstAccepted(UsernamePrompt, UsernameError, Total(MatchUsername), rejected, accepted, rest);
  }

  /** What the password reader accepts, stated with the character classes */
  predicate IsStrongPassword(p: string)
  {
    && |p| >= LeastPasswordLength
    && (forall i :: 0 <= i < |p| ==> PasswordChar(p[i]))
    && HasUpper(p) && HasLower(p) && HasDigit(p) && HasSymbol(p)
  }

  lemma PasswordRefused(p: string)
    requires !IsStrongPassword(p)
    ensures PasswordValidation(p).Fail?
  {
    PasswordValidationCorrect(p);
  }

  lemma PasswordAccepted(p: string)
    requires IsStrongPassword(p)
    ensures PasswordValidation(p) == Ok(true)
  {
    PasswordValidationCorrect(p);
  }

  /** Each refused password is answered with the validator's own message, the first valid one is kept */
  lemma PasswordTakesFirstValid(rejected: seq<string>, accepted: string, rest: seq<string>)
    requires forall i :: 0 <= i < |rejected| ==> !IsStrongPassword(rejected[i])
    requires IsStrongPassword(accepted)
    ensures var r := ReadPassword(rejected + [accepted] + rest);
            && r.outcome == Returned(accepted)
            && r.consumed == |rejected| + 1
            && |r.output| == |rejected|
            && (forall i :: 0 <= i < |rejected| ==>
                  PasswordValidation(rejected[i]).Fail? && r.output[i] == ErrorLine(PasswordError, PasswordValidation(rejected[i]).msg))
  {
    forall i | 0 <= i < |rejected| ensures PasswordValidation(rejected[i]).Fail? {
      PasswordRefused(rejected[i]);
    }
    PasswordAccepted(accepted);
    StringPredicateTakesFirstAccepted(PasswordPrompt, PasswordError, PasswordValidation, rejected, accepted, rest);
  }

  lemma PhoneTakesFirstMatch(rejected: seq<string>, accepted: string, rest: seq<string>)
    requires forall i :: 0 <= i < |rejected| ==> !IsPhoneNumber(rejected[i])
    requires IsPhoneNumber(accepted)
    ensures var r := ReadPhoneNumber(rejected + [accepted] + rest);
            && r.outcome == Returned(accepted)
            && r.consumed == |rejected| + 1
            && |r.output| == |rejected|
            && (forall i :: 0 <= i < |rejected| ==> r.output[i] == ErrorLine(PhoneError, CriteriaMessage))
  {
    forall i | 0 <= i < |rejected| ensures !MatchPhoneNumber(rejected[i]) {
      MatchPhoneNumberCorrect(rejected[i]);
    }
    MatchPhoneNumberCorrect(accepted);
    StringPredicateTakesFirstAccepted(PhonePrompt, PhoneError, Total(MatchPhoneNumber), rejected, accepted, rest);
  }

  /** Unparsable dates and dates outside (`LocalDate.MIN`, tomorrow), then one
      inside: that date is returned, after one error line per earlier line */
  lemma LastLoginTakesFirstBetween(parseDate: string -> Attempt<Date>, tomorrow: Date,
                                   rejected: seq<string>, accepted: string, rest: seq<string>)
    requires forall i :: 0 <= i < |rejected| ==>
               parseDate(rejected[i]).Fail? || !(IsAfter(parseDate(rejected[i]).value, MinDate) && IsBefore(parseDate(rejected[i]).value, tomorrow))
    requires parseDate(accepted).Ok? && IsAfter(parseDate(accepted).value, MinDate) && IsBefore(parseDate(accepted).value, tomorrow)
    ensures var r := ReadDateOfLastLogin(parseDate, tomorrow, rejected + [accepted] + rest);
            && r.outcome == Returned(parseDate(accepted).value)
            && r.consumed == |rejected| + 1
            && |r.output| == |rejected|
            && (forall i :: 0 <= i < |rejected| ==>
                  r.output[i] == ErrorLine(LastLoginError, if parseDate(rejected[i]).Fail? then parseDate(rejected[i]).msg else CriteriaMessage))
  {
    DateRangeTakesFirstBetween(LastLoginPrompt, LastLoginError, parseDate, MinDate, tomorrow, rejected, accepted, rest);
  }

  /** A login count of zero or less, or an unparsable line, is answered and
      retried; the first line that parses to a count of at least 1 is kept */
  lemma LoginsTakesFirstPositive(parseInt: string -> Attempt<Int32>, rejected: seq<string>, accepted: string, rest: seq<string>)
    requires forall i :: 0 <= i < |rejected| ==> parseInt(rejected[i]).Fail? || parseInt(rejected[i]).value < 1
    requires parseInt(accepted).Ok? && parseInt(accepted).value >= 1
    ensures var r := ReadNumberOfLogins(parseInt, rejected + [accepted] + rest);
            && r.outcome == Returned(parseInt(accepted).value)
            && r.consumed == |rejected| + 1
            && |r.output| == |rejected|
            && (forall i :: 0 <= i < |rejected| ==>
                  r.output[i] == ErrorLine(LoginsError, if parseInt(rejected[i]).Fail? then parseInt(rejected[i]).msg else CriteriaMessage))
  {
    LoginsCriterion();
    EventuallySatisfies(LoginsPrompt, LoginsError, parseInt, Total(AtLeastOne), rejected, accepted, rest);
  }

  // ---------------------------------------------------------------------------
  // Worked examples

  lemma ShortPasswordExample()
    ensures PasswordValidation("Abc1#") == Fail("less than 8 characters")
  {
  }

  /** A space is not in any class: the first one ends the scan */
  lemma SpaceIsDisallowed(p: string, i: int)
    requires |p| >= LeastPasswordLength
    requires 0 <= i < |p| && p[i] == ' '
    requires forall j :: 0 <= j < i ==> PasswordChar(p[j])
    ensures PasswordValidation(p) == Fail("disallowed symbol  ")
  {
    assert FirstNonPasswordChar(p, i);
    PasswordValidationCorrect(p);
    assert "disallowed symbol " + [p[i]] == "disallowed symbol  ";
  }

  lemma JoinThree(a: string, b: string, c: string)
    ensures Join(";", [a, b, c]) == a + ";" + b + ";" + c
  {
    assert [a, b, c][1..] == [b, c];
    assert [b, c][1..] == [c];
  }

  lemma LowerCaseOnlyMisses(p: string)
    requires |p| > 0
    requires forall i :: 0 <= i < |p| ==> 'a' <= p[i] <= 'z'
    ensures MissingClasses(p) == [NoUpperMessage, NoDigitMessage, NoSymbolMessage]
    ensures forall i :: 0 <= i < |p| ==> PasswordChar(p[i])
  {
    assert IsLowerAscii(p[0]);
    assert !HasUpper(p) && HasLower(p) && !HasDigit(p) && !HasSymbol(p);
  }

  /** A long enough password of small letters only is reported with the three other classes, in rule order */
  lemma LowerCaseOnlyPassword(p: string)
    requires |p| >= LeastPasswordLength
    requires forall i :: 0 <= i < |p| ==> 'a' <= p[i] <= 'z'
    ensures PasswordValidation(p) == Fail(NoUpperMessage + ";" + NoDigitMessage + ";" + NoSymbolMessage)
  {
    LowerCaseOnlyMisses(p);
    JoinThree(NoUpperMessage, NoDigitMessage, NoSymbolMessage);
    PasswordValidationCorrect(p);
  }

  lemma PhoneExampleInternational()
    ensures IsPhoneNumber("+972-50-1234567")
  {
    MatchPhoneNumberCorrect("+972-50-1234567");
  }

  /** Eight digits after the dash are one too many */
  lemma PhoneExampleTooLong()
    ensures !IsPhoneNumber("+97250-12345678")
  {
    MatchPhoneNumberCorrect("+97250-12345678");
  }
}
