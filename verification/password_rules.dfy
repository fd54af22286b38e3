/**
 The password validator of the test class: a list of character rules, each
 with a flag that a character raises when the rule is the first one it
 matches, a scan that stops at the first character no rule matches, and a
 final report listing the rules whose flag was never raised.

 The character classes are ASCII only: `Character.isUpperCase`,
 `isLowerCase` and `isDigit` also accept non-ASCII letters and digits, which
 this model treats as disallowed symbols.
 */
module PasswordRules {
  import opened Attempts

  const LeastPasswordLength := 8
  /** The message of `String.format("less than %d characters", LEAST_PASSWORD_LENGTH)` */
  const TooShortMessage := "less than 8 characters"
  const Symbols := "#$*&%.-"
  const NoUpperMessage := "no capital letter"
  const NoLowerMessage := "no lower case letter"
  const NoDigitMessage := "no digit letter"
  const NoSymbolMessage := "no symbol from " + Symbols

  predicate IsUpperAscii(c: char) { 'A' <= c <= 'Z' }
  predicate IsLowerAscii(c: char) { 'a' <= c <= 'z' }
  predicate IsDigitAscii(c: char) { '0' <= c <= '9' }

  /** The predicate of one character rule */
  datatype CharClass = UpperCase | LowerCase | Digit | OneOf(chars: string)

  predicate Matches(k: CharClass, c: char)
  {
    match k
    case UpperCase => IsUpperAscii(c)
    case LowerCase => IsLowerAscii(c)
    case Digit => IsDigitAscii(c)
    case OneOf(chars) => c in chars
  }

  /** `CharacterRuleState`: whether some character has satisfied the rule yet */
  datatype RuleState = RuleState(flag: bool, kind: CharClass, errorMessage: string)

  /** `getPasswordCharacterRules`: the four rules, in the order they are tried, none satisfied yet */
  function PasswordCharacterRules(): (rules: seq<RuleState>)
    ensures |rules| == 4
    ensures forall k :: 0 <= k < |rules| ==> !rules[k].flag
    // capital letters, then small letters, then digits, then the symbols, each with its message
    ensures forall c :: Matches(rules[0].kind, c) <==> IsUpperAscii(c)
    ensures forall c :: Matches(rules[1].kind, c) <==> IsLowerAscii(c)
    ensures forall c :: Matches(rules[2].kind, c) <==> IsDigitAscii(c)
    ensures forall c :: Matches(rules[3].kind, c) <==> c in Symbols
    ensures rules[0].errorMessage == NoUpperMessage && rules[1].errorMessage == NoLowerMessage
    ensures rules[2].errorMessage == NoDigitMessage && rules[3].errorMessage == NoSymbolMessage
  {
    [ RuleState(false, UpperCase, NoUpperMessage),
      RuleState(false, LowerCase, NoLowerMessage),
      RuleState(false, Digit, NoDigitMessage),
      RuleState(false, OneOf(Symbols), NoSymbolMessage) ]
  }

  /** Some rule of the list accepts `c` */
  predicate Allowed(rules: seq<RuleState>, c: char)
  {
    exists k :: 0 <= k < |rules| && Matches(rules[k].kind, c)
  }

  /** Rule `k` is the first rule of the list that accepts `c` */
  predicate IsFirstMatch(rules: seq<RuleState>, c: char, k: int)
  {
    && 0 <= k < |rules|
    && Matches(rules[k].kind, c)
    && forall j :: 0 <= j < k ==> !Matches(rules[j].kind, c)
  }

  /** Two rule lists that differ at most in their flags */
  predicate SameRules(a: seq<RuleState>, b: seq<RuleState>)
  {
    && |a| == |b|
    && forall k :: 0 <= k < |a| ==> a[k].kind == b[k].kind && a[k].errorMessage == b[k].errorMessage
  }

  /** The iterator walk of `updateRulesState`: the first rule at or after `i` that accepts `c` */
  function FirstMatchFrom(rules: seq<RuleState>, c: char, i: nat): (r: Option<nat>)
    requires i <= |rules|
    ensures r.Some? ==> i <= r.value < |rules| && Matches(rules[r.value].kind, c)
    ensures r.Some? ==> forall j :: i <= j < r.value ==> !Matches(rules[j].kind, c)
    ensures r.None? ==> forall j :: i <= j < |rules| ==> !Matches(rules[j].kind, c)
    decreases |rules| - i
  {
    if i == |rules| then None
    else if Matches(rules[i].kind, c) then Some(i)
    else FirstMatchFrom(rules, c, i + 1)
  }

  /** `updateRulesState`: raise the flag of the first rule that accepts the
      character, or fail with "disallowed symbol" if none does. The do-while
      loop of `updateRulesState` takes one rule before testing for more, so
      the list must not be empty. */
  function UpdateRulesState(c: char, rules: seq<RuleState>): (r: Attempt<seq<RuleState>>)
    requires |rules| > 0
    ensures r.Fail? <==> !Allowed(rules, c)
    ensures r.Fail? ==> r.msg == "disallowed symbol " + [c]
    ensures r.Ok? ==> SameRules(rules, r.value)
    // only the first matching rule is touched, and a raised flag stays raised
    ensures r.Ok? ==> forall k :: 0 <= k < |rules| ==> r.value[k].flag == (rules[k].flag || IsFirstMatch(rules, c, k))
    ensures r.Ok? ==> forall k :: 0 <= k < |rules| && rules[k].flag ==> r.value[k].flag
  {
    match FirstMatchFrom(rules, c, 0)
    case None => Fail("disallowed symbol " + [c])
    case Some(k) => Ok(rules[k := rules[k].(flag := true)])
  }

  /** Rule `k` is the first match of some character of the password */
  predicate Occurs(rules: seq<RuleState>, password: string, k: int)
  {
    exists i :: 0 <= i < |password| && IsFirstMatch(rules, password[i], k)
  }

  /** `password[i]` is the leftmost character no rule accepts */
  predicate FirstDisallowed(rules: seq<RuleState>, password: string, i: int)
  {
    && 0 <= i < |password|
    && !Allowed(rules, password[i])
    && forall j :: 0 <= j < i ==> Allowed(rules, password[j])
  }

  lemma SameRulesAgree(a: seq<RuleState>, b: seq<RuleState>, c: char)
    requires SameRules(a, b)
    ensures Allowed(a, c) == Allowed(b, c)
    ensures forall k :: IsFirstMatch(a, c, k) == IsFirstMatch(b, c, k)
  {
    if Allowed(a, c) {
      var k :| 0 <= k < |a| && Matches(a[k].kind, c);
      assert Matches(b[k].kind, c);
    }
    if Allowed(b, c) {
      var k :| 0 <= k < |b| && Matches(b[k].kind, c);
      assert Matches(a[k].kind, c);
    }
  }

  lemma SameRulesTransitive(a: seq<RuleState>, b: seq<RuleState>, c: seq<RuleState>)
    requires SameRules(a, b) && SameRules(b, c)
    ensures SameRules(a, c)
  {
  }

  /** The step of the scan: the facts about the rest of the password, after
      the first character has updated the rules, carry over to the whole password */
  lemma ScanStep(password: string, rules: seq<RuleState>, next: seq<RuleState>, r: Attempt<seq<RuleState>>)
    requires |password| > 0 && |rules| > 0
    requires UpdateRulesState(password[0], rules) == Ok(next)
    requires r.Ok? <==> forall i :: 0 <= i < |password[1..]| ==> Allowed(next, password[1..][i])
    requires r.Fail? ==> exists i :: FirstDisallowed(next, password[1..], i) && r.msg == "disallowed symbol " + [password[1..][i]]
    requires r.Ok? ==> SameRules(next, r.value)
    requires r.Ok? ==> forall k :: 0 <= k < |next| ==> r.value[k].flag == (next[k].flag || Occurs(next, password[1..], k))
    ensures r.Ok? <==> forall i :: 0 <= i < |password| ==> Allowed(rules, password[i])
    ensures r.Fail? ==> exists i :: FirstDisallowed(rules, password, i) && r.msg == "disallowed symbol " + [password[i]]
    ensures r.Ok? ==> SameRules(rules, r.value)
    ensures r.Ok? ==> forall k :: 0 <= k < |rules| ==> r.value[k].flag == (rules[k].flag || Occurs(rules, password, k))
  {
    ScanStepAllowed(password, rules, next);
    if r.Ok? {
      SameRulesTransitive(rules, next, r.value);
      ScanStepFlags(password, rules, next, r.value);
    } else {
      var i :| FirstDisallowed(next, password[1..], i) && r.msg == "disallowed symbol " + [password[1..][i]];
      ScanStepDisallowed(password, rules, next, i);
    }
  }

  lemma ScanStepAllowed(password: string, rules: seq<RuleState>, next: seq<RuleState>)
    requires |password| > 0 && |rules| > 0
    requires UpdateRulesState(password[0], rules) == Ok(next)
    ensures (forall i :: 0 <= i < |password[1..]| ==> Allowed(next, password[1..][i]))
            <==> forall i :: 0 <= i < |password| ==> Allowed(rules, password[i])
  {
    var tail := password[1..];
    assert Allowed(rules, password[0]);
    forall i | 0 <= i < |tail|
      ensures Allowed(next, tail[i]) == Allowed(rules, password[i + 1])
    {
      SameRulesAgree(rules, next, tail[i]);
    }
    if forall i :: 0 <= i < |tail| ==> Allowed(next, tail[i]) {
      forall i | 0 <= i < |password|
        ensures Allowed(rules, password[i])
      {
        if i > 0 { assert Allowed(next, tail[i - 1]); }
      }
    }
  }

  lemma ScanStepDisallowed(password: string, rules: seq<RuleState>, next: seq<RuleState>, i: int)
    requires |password| > 0 && |rules| > 0
    requires UpdateRulesState(password[0], rules) == Ok(next)
    requires FirstDisallowed(next, password[1..], i)
    ensures FirstDisallowed(rules, password, i + 1) && password[1..][i] == password[i + 1]
  {
    var tail := password[1..];
    assert Allowed(rules, password[0]);
    SameRulesAgree(rules, next, tail[i]);
    forall j | 0 <= j < i + 1
      ensures Allowed(rules, password[j])
    {
      if j > 0 {
        SameRulesAgree(rules, next, tail[j - 1]);
      }
    }
  }

  lemma ScanStepFlags(password: string, rules: seq<RuleState>, next: seq<RuleState>, scanned: seq<RuleState>)
    requires |password| > 0 && |rules| > 0
    requires UpdateRulesState(password[0], rules) == Ok(next)
    requires SameRules(next, scanned)
    requires forall k :: 0 <= k < |next| ==> scanned[k].flag == (next[k].flag || Occurs(next, password[1..], k))
    ensures forall k :: 0 <= k < |rules| ==> scanned[k].flag == (rules[k].flag || Occurs(rules, password, k))
  {
    var tail := password[1..];
    forall k | 0 <= k < |rules|
      ensures scanned[k].flag == (rules[k].flag || Occurs(rules, password, k))
    {
      if Occurs(rules, password, k) && !rules[k].flag && !IsFirstMatch(rules, password[0], k) {
        var i :| 0 <= i < |password| && IsFirstMatch(rules, password[i], k);
        assert i > 0 && tail[i - 1] == password[i];
        SameRulesAgree(rules, next, tail[i - 1]);
        assert IsFirstMatch(next, tail[i - 1], k);
      }
      if Occurs(next, tail, k) {
        var i :| 0 <= i < |tail| && IsFirstMatch(next, tail[i], k);
        SameRulesAgree(rules, next, tail[i]);
        assert IsFirstMatch(rules, password[i + 1], k);
      }
    }
  }

  /** The loop of `passwordValidation` over the characters, left to right,
      stopping at the first disallowed one */
  function ScanRules(password: string, rules: seq<RuleState>): (r: Attempt<seq<RuleState>>)
    requires |rules| > 0
    ensures r.Ok? <==> forall i :: 0 <= i < |password| ==> Allowed(rules, password[i])
    ensures r.Fail? ==> exists i :: FirstDisallowed(rules, password, i) && r.msg == "disallowed symbol " + [password[i]]
    ensures r.Ok? ==> SameRules(rules, r.value)
    ensures r.Ok? ==> forall k :: 0 <= k < |rules| ==> r.value[k].flag == (rules[k].flag || Occurs(rules, password, k))
    decreases |password|
  {
    if |password| == 0 then Ok(rules)
    else
      match UpdateRulesState(password[0], rules)
      case Fail(m) =>
        assert FirstDisallowed(rules, password, 0);
        Fail(m)
      case Ok(next) =>
        var r := ScanRules(password[1..], next);
        ScanStep(password, rules, next, r);
        r
  }

  /** `Collectors.joining(sep)` */
  function Join(sep: string, parts: seq<string>): (r: string)
    ensures |parts| == 1 ==> r == parts[0]
    ensures |parts| > 0 ==> |r| >= |parts[0]| && r[..|parts[0]|] == parts[0]
    ensures |parts| == 0 ==> r == ""
    decreases |parts|
  {
    if |parts| == 0 then ""
    else if |parts| == 1 then parts[0]
    else parts[0] + sep + Join(sep, parts[1..])
  }

  /** Cuts a string at every occurrence of `sep`, keeping empty pieces */
  function Split(sep: char, s: string): (r: seq<string>)
    ensures |r| > 0
    decreases |s|
  {
    if |s| == 0 then [""]
    else
      var rest := Split(sep, s[1..]);
      if s[0] == sep then [""] + rest
      else [[s[0]] + rest[0]] + rest[1..]
  }

  lemma {:induction false} SplitPiece(sep: char, w: string, t: string)
    requires sep !in w
    ensures Split(sep, w + [sep] + t) == [w] + Split(sep, t)
    ensures Split(sep, w) == [w]
    decreases |w|
  {
    if |w| == 0 {
      assert w + [sep] + t == [sep] + t;
      assert ([sep] + t)[1..] == t;
    } else {
      assert (w + [sep] + t)[1..] == w[1..] + [sep] + t;
      assert (w + [sep] + t)[0] == w[0];
      SplitPiece(sep, w[1..], t);
      assert [w[0]] + w[1..] == w;
    }
  }

  /** Joining pieces that do not contain the separator loses nothing: the
      report of unsatisfied rules can be cut back into its messages */
  lemma {:induction false} SplitJoin(sep: char, parts: seq<string>)
    requires |parts| > 0
    requires forall i :: 0 <= i < |parts| ==> sep !in parts[i]
    ensures Split(sep, Join([sep], parts)) == parts
    decreases |parts|
  {
    if |parts| == 1 {
      SplitPiece(sep, parts[0], "");
    } else {
      SplitJoin(sep, parts[1..]);
      SplitPiece(sep, parts[0], Join([sep], parts[1..]));
      assert [parts[0]] + parts[1..] == parts;
    }
  }

  /** The messages of the rules whose flag is still down, in list order */
  function Unsatisfied(rules: seq<RuleState>): (r: seq<string>)
    ensures |r| == 0 <==> forall k :: 0 <= k < |rules| ==> rules[k].flag
    ensures |r| <= |rules|
    decreases |rules|
  {
    if |rules| == 0 then []
    else Report(rules[0]) + Unsatisfied(rules[1..])
  }

  /** The message one rule contributes to the report */
  function Report(rule: RuleState): seq<string>
  {
    if rule.flag then [] else [rule.errorMessage]
  }

  /** Every message of the report belongs to a rule whose flag is down */
  lemma {:induction false} UnsatisfiedMessages(rules: seq<RuleState>)
    ensures forall m :: m in Unsatisfied(rules) ==> exists k :: 0 <= k < |rules| && !rules[k].flag && rules[k].errorMessage == m
    decreases |rules|
  {
    if |rules| > 0 {
      UnsatisfiedMessages(rules[1..]);
      forall m | m in Unsatisfied(rules)
        ensures exists k :: 0 <= k < |rules| && !rules[k].flag && rules[k].errorMessage == m
      {
        if m !in Unsatisfied(rules[1..]) {
          assert !rules[0].flag && rules[0].errorMessage == m;
        } else {
          var k :| 0 <= k < |rules[1..]| && !rules[1..][k].flag && rules[1..][k].errorMessage == m;
          assert rules[k + 1] == rules[1..][k];
        }
      }
    }
  }

  /** `checkRulesState`: the messages of the unsatisfied rules joined with ";" */
  function CheckRulesState(rules: seq<RuleState>): (r: string)
    ensures (forall k :: 0 <= k < |rules| ==> rules[k].flag) ==> r == ""
    // with messages that are never empty, an empty report means every rule is satisfied
    ensures (forall k :: 0 <= k < |rules| ==> rules[k].errorMessage != "") ==>
              (r == "" <==> forall k :: 0 <= k < |rules| ==> rules[k].flag)
  {
    var u := Unsatisfied(rules);
    UnsatisfiedMessages(rules);
    assert |u| > 0 ==> u[0] in u;
    Join(";", u)
  }

  /** A character any of the four password rules accepts */
  predicate PasswordChar(c: char)
  {
    IsUpperAscii(c) || IsLowerAscii(c) || IsDigitAscii(c) || c in Symbols
  }

  /** `p[i]` is the leftmost character outside the four classes */
  predicate FirstNonPasswordChar(p: string, i: int)
  {
    && 0 <= i < |p|
    && !PasswordChar(p[i])
    && forall j :: 0 <= j < i ==> PasswordChar(p[j])
  }

  predicate HasUpper(p: string) { exists i :: 0 <= i < |p| && IsUpperAscii(p[i]) }
  predicate HasLower(p: string) { exists i :: 0 <= i < |p| && IsLowerAscii(p[i]) }
  predicate HasDigit(p: string) { exists i :: 0 <= i < |p| && IsDigitAscii(p[i]) }
  predicate HasSymbol(p: string) { exists i :: 0 <= i < |p| && p[i] in Symbols }

  /** The messages a password of allowed characters is reported with, in rule order */
  function MissingClasses(p: string): seq<string>
  {
    (if HasUpper(p) then [] else [NoUpperMessage])
    + (if HasLower(p) then [] else [NoLowerMessage])
    + (if HasDigit(p) then [] else [NoDigitMessage])
    + (if HasSymbol(p) then [] else [NoSymbolMessage])
  }

  /** The four classes are disjoint, so the first rule a character matches is its only one */
  lemma FirstMatchIsOnlyMatch(c: char, k: int)
    requires 0 <= k < 4
    ensures IsFirstMatch(PasswordCharacterRules(), c, k) <==> Matches(PasswordCharacterRules()[k].kind, c)
  {
    var rules := PasswordCharacterRules();
    if Matches(rules[k].kind, c) {
      forall j | 0 <= j < k
        ensures !Matches(rules[j].kind, c)
      {
        if k == 3 {
          assert c in Symbols;
          assert c == '#' || c == '$' || c == '*' || c == '&' || c == '%' || c == '.' || c == '-';
        }
      }
    }
  }

  lemma AllowedIsPasswordChar(c: char)
    ensures Allowed(PasswordCharacterRules(), c) <==> PasswordChar(c)
  {
    var rules := PasswordCharacterRules();
    if PasswordChar(c) {
      if IsUpperAscii(c) { assert Matches(rules[0].kind, c); }
      else if IsLowerAscii(c) { assert Matches(rules[1].kind, c); }
      else if IsDigitAscii(c) { assert Matches(rules[2].kind, c); }
      else { assert Matches(rules[3].kind, c); }
    }
  }

  /** After a scan of allowed characters, the flags record which classes occur */
  lemma ScannedFlags(p: string, rules: seq<RuleState>)
    requires SameRules(PasswordCharacterRules(), rules)
    requires forall k :: 0 <= k < 4 ==> rules[k].flag == Occurs(PasswordCharacterRules(), p, k)
    ensures Unsatisfied(rules) == MissingClasses(p)
  {
    FlagsAreClasses(p, rules);
    UnsatisfiedPasswordRules(rules);
  }

  lemma FlagsAreClasses(p: string, rules: seq<RuleState>)
    requires SameRules(PasswordCharacterRules(), rules)
    requires forall k :: 0 <= k < 4 ==> rules[k].flag == Occurs(PasswordCharacterRules(), p, k)
    ensures rules[0].flag == HasUpper(p) && rules[1].flag == HasLower(p)
    ensures rules[2].flag == HasDigit(p) && rules[3].flag == HasSymbol(p)
  {
    var init := PasswordCharacterRules();
    forall k | 0 <= k < 4
      ensures rules[k].flag == exists i :: 0 <= i < |p| && Matches(init[k].kind, p[i])
    {
      forall i | 0 <= i < |p|
        ensures IsFirstMatch(init, p[i], k) <==> Matches(init[k].kind, p[i])
      {
        FirstMatchIsOnlyMatch(p[i], k);
      }
    }
  }

  lemma UnsatisfiedOfFour(rules: seq<RuleState>)
    requires |rules| == 4
    ensures Unsatisfied(rules) == Report(rules[0]) + Report(rules[1]) + Report(rules[2]) + Report(rules[3])
  {
    assert rules[3..][1..] == [];
    assert Unsatisfied(rules[3..]) == Report(rules[3]);
    assert rules[2..][1..] == rules[3..];
    assert Unsatisfied(rules[2..]) == Report(rules[2]) + Report(rules[3]);
    assert rules[1..][1..] == rules[2..];
    assert Unsatisfied(rules[1..]) == Report(rules[1]) + Report(rules[2]) + Report(rules[3]);
  }

  lemma UnsatisfiedPasswordRules(rules: seq<RuleState>)
    requires SameRules(PasswordCharacterRules(), rules)
    ensures Unsatisfied(rules) ==
              (if rules[0].flag then [] else [NoUpperMessage])
              + (if rules[1].flag then [] else [NoLowerMessage])
              + (if rules[2].flag then [] else [NoDigitMessage])
              + (if rules[3].flag then [] else [NoSymbolMessage])
  {
    UnsatisfiedOfFour(rules);
    assert rules[0].errorMessage == NoUpperMessage && rules[1].errorMessage == NoLowerMessage;
    assert rules[2].errorMessage == NoDigitMessage && rules[3].errorMessage == NoSymbolMessage;
  }

  /** `passwordValidation`: true, or an exception whose message says what is wrong */
  function PasswordValidation(password: string): (r: Attempt<bool>)
    // `passwordValidation` never answers false: a bad password is reported by throwing
    ensures r != Ok(false)
  {
    if |password| < LeastPasswordLength then Fail(TooShortMessage)
    else
      match ScanRules(password, PasswordCharacterRules())
      case Fail(m) => Fail(m)
      case Ok(scanned) =>
        var e := CheckRulesState(scanned);
        if e != "" then Fail(e) else Ok(true)
  }

  /** What `passwordValidation` accepts and the message it rejects with, in
      terms of the character classes rather than the rule states */
  lemma PasswordValidationCorrect(password: string)
    ensures PasswordValidation(password) == Ok(true) <==>
              && |password| >= LeastPasswordLength
              && (forall i :: 0 <= i < |password| ==> PasswordChar(password[i]))
              && HasUpper(password) && HasLower(password) && HasDigit(password) && HasSymbol(password)
    // length is checked before anything else
    ensures |password| < LeastPasswordLength ==> PasswordValidation(password) == Fail(TooShortMessage)
    // then the leftmost character no rule accepts
    ensures forall i :: 0 <= i < |password| && |password| >= LeastPasswordLength && FirstNonPasswordChar(password, i) ==>
              PasswordValidation(password) == Fail("disallowed symbol " + [password[i]])
    // then the missing classes, in rule order
    ensures |password| >= LeastPasswordLength && (forall i :: 0 <= i < |password| ==> PasswordChar(password[i])) ==>
              PasswordValidation(password)
              == if MissingClasses(password) == [] then Ok(true) else Fail(Join(";", MissingClasses(password)))
  {
    if |password| >= LeastPasswordLength {
      var rules := PasswordCharacterRules();
      forall c: char ensures Allowed(rules, c) <==> PasswordChar(c) { AllowedIsPasswordChar(c); }
      match ScanRules(password, rules)
      case Fail(m) =>
        var i :| FirstDisallowed(rules, password, i) && m == "disallowed symbol " + [password[i]];
        assert FirstNonPasswordChar(password, i);
        forall j | 0 <= j < |password| && FirstNonPasswordChar(password, j)
          ensures j == i
        {
        }
      case Ok(scanned) =>
        ScannedFlags(password, scanned);
    }
  }
}
