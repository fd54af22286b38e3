/**
 The typed readers of `InputOutput`: each one is a fixed (mapper, predicate)
 pair handed to `ReadObject` or `ReadObjectWithPredicate`, with no control flow
 of its own. The library parsers (`Integer.parseInt`, `Long.parseLong`,
 `Double.parseDouble`, `LocalDate.parse`) are not modelled; they are passed in
 as fallible functions.
 */
module TypedReaders {
  import opened Attempts
  import opened InputOutput

  type Int32 = x: int | -0x8000_0000 <= x < 0x8000_0000
  type Int64 = x: int | -0x8000_0000_0000_0000 <= x < 0x8000_0000_0000_0000

  /** A calendar date, ordered as `LocalDate.compareTo` orders it: by year, then month, then day */
  datatype Date = Date(year: int, month: int, day: int)

  /** `d.isBefore(other)` */
  predicate IsBefore(d: Date, other: Date)
  {
    || d.year < other.year
    || (d.year == other.year && d.month < other.month)
    || (d.year == other.year && d.month == other.month && d.day < other.day)
  }

  /** `d.isAfter(other)` */
  predicate IsAfter(d: Date, other: Date)
  {
    IsBefore(other, d)
  }

  /** The date order is a strict total order, so "after from and before to" is an open interval */
  lemma DateOrderIsStrictTotal(a: Date, b: Date, c: Date)
    ensures !IsBefore(a, a)
    ensures IsBefore(a, b) && IsBefore(b, c) ==> IsBefore(a, c)
    ensures a == b || IsBefore(a, b) || IsAfter(a, b)
    ensures IsBefore(a, b) ==> !IsAfter(a, b)
  {
  }

  /** `Function.identity()` as a mapper that never throws */
  function Identity(): string -> Attempt<string>
  {
    text => Ok(text)
  }

  /** `readInt` */
  function ReadInt(prompt: string, errorPrompt: string, parseInt: string -> Attempt<Int32>, input: seq<string>): (r: Run<Int32>)
    ensures r.consumed <= |input|
    ensures r.outcome.Returned? ==> 0 < r.consumed && parseInt(input[r.consumed - 1]) == Ok(r.outcome.value)
    ensures r.outcome.InputExhausted? <==> forall i :: 0 <= i < |input| ==> parseInt(input[i]).Fail?
    ensures r.outcome.InputExhausted? ==> r.consumed == |input|
    // every line before the returned one failed to parse and wrote the parser's message
    ensures |r.output| == if r.outcome.Returned? then r.consumed - 1 else r.consumed
    ensures forall i :: 0 <= i < |r.output| ==>
              parseInt(input[i]).Fail? && r.output[i] == ErrorLine(errorPrompt, parseInt(input[i]).msg)
    ensures |r.prompts| == |r.output| + 1 && forall i :: 0 <= i < |r.prompts| ==> r.prompts[i] == prompt
  {
    ReadObject(prompt, errorPrompt, parseInt, input)
  }

  /** Any number of lines that do not parse, then one that parses as a 32-bit integer:
      that 32-bit integer is returned, after one error line per unparsable line */
  lemma ReadIntTakesFirstInteger(prompt: string, errorPrompt: string, parseInt: string -> Attempt<Int32>,
                     rejected: seq<string>, accepted: string, rest: seq<string>)
    requires forall i :: 0 <= i < |rejected| ==> parseInt(rejected[i]).Fail?
    requires parseInt(accepted).Ok?
    ensures var r := ReadInt(prompt, errorPrompt, parseInt, rejected + [accepted] + rest);
            && r.outcome == Returned(parseInt(accepted).value)
            && r.consumed == |rejected| + 1
            && |r.output| == |rejected|
            && (forall i :: 0 <= i < |rejected| ==> r.output[i] == ErrorLine(errorPrompt, parseInt(rejected[i]).msg))
  {
    EventuallyAccepts(prompt, errorPrompt, parseInt, rejected, accepted, rest);
  }

  /** `readLong` */
  function ReadLong(prompt: string, errorPrompt: string, parseLong: string -> Attempt<Int64>, input: seq<string>): (r: Run<Int64>)
    ensures r.consumed <= |input|
    ensures r.outcome.Returned? ==> 0 < r.consumed && parseLong(input[r.consumed - 1]) == Ok(r.outcome.value)
    ensures r.outcome.InputExhausted? <==> forall i :: 0 <= i < |input| ==> parseLong(input[i]).Fail?
    ensures r.outcome.InputExhausted? ==> r.consumed == |input|
    // every line before the returned one failed to parse and wrote the parser's message
    ensures |r.output| == if r.outcome.Returned? then r.consumed - 1 else r.consumed
    ensures forall i :: 0 <= i < |r.output| ==>
              parseLong(input[i]).Fail? && r.output[i] == ErrorLine(errorPrompt, parseLong(input[i]).msg)
    ensures |r.prompts| == |r.output| + 1 && forall i :: 0 <= i < |r.prompts| ==> r.prompts[i] == prompt
  {
    ReadObject(prompt, errorPrompt, parseLong, input)
  }

  /** Any number of lines that do not parse, then one that parses as a 64-bit integer:
      that 64-bit integer is returned, after one error line per unparsable line */
  lemma ReadLongTakesFirstInteger(prompt: string, errorPrompt: string, parseLong: string -> Attempt<Int64>,
                     rejected: seq<string>, accepted: string, rest: seq<string>)
    requires forall i :: 0 <= i < |rejected| ==> parseLong(rejected[i]).Fail?
    requires parseLong(accepted).Ok?
    ensures var r := ReadLong(prompt, errorPrompt, parseLong, rejected + [accepted] + rest);
            && r.outcome == Returned(parseLong(accepted).value)
            && r.consumed == |rejected| + 1
            && |r.output| == |rejected|
            && (forall i :: 0 <= i < |rejected| ==> r.output[i] == ErrorLine(errorPrompt, parseLong(rejected[i]).msg))
  {
    EventuallyAccepts(prompt, errorPrompt, parseLong, rejected, accepted, rest);
  }

  /** `readIsoDate` */
  function ReadIsoDate(prompt: string, errorPrompt: string, parseDate: string -> Attempt<Date>, input: seq<string>): (r: Run<Date>)
    ensures r.consumed <= |input|
    ensures r.outcome.Returned? ==> 0 < r.consumed && parseDate(input[r.consumed - 1]) == Ok(r.outcome.value)
    ensures r.outcome.InputExhausted? <==> forall i :: 0 <= i < |input| ==> parseDate(input[i]).Fail?
    ensures r.outcome.InputExhausted? ==> r.consumed == |input|
    // every line before the returned one failed to parse and wrote the parser's message
    ensures |r.output| == if r.outcome.Returned? then r.consumed - 1 else r.consumed
    ensures forall i :: 0 <= i < |r.output| ==>
              parseDate(input[i]).Fail? && r.output[i] == ErrorLine(errorPrompt, parseDate(input[i]).msg)
    ensures |r.prompts| == |r.output| + 1 && forall i :: 0 <= i < |r.prompts| ==> r.prompts[i] == prompt
  {
    ReadObject(prompt, errorPrompt, parseDate, input)
  }

  /** Any number of lines that do not parse, then one that parses as a date:
      that date is returned, after one error line per unparsable line */
  lemma ReadIsoDateTakesFirstDate(prompt: string, errorPrompt: string, parseDate: string -> Attempt<Date>,
                     rejected: seq<string>, accepted: string, rest: seq<string>)
    requires forall i :: 0 <= i < |rejected| ==> parseDate(rejected[i]).Fail?
    requires parseDate(accepted).Ok?
    ensures var r := ReadIsoDate(prompt, errorPrompt, parseDate, rejected + [accepted] + rest);
            && r.outcome == Returned(parseDate(accepted).value)
            && r.consumed == |rejected| + 1
            && |r.output| == |rejected|
            && (forall i :: 0 <= i < |rejected| ==> r.output[i] == ErrorLine(errorPrompt, parseDate(rejected[i]).msg))
  {
    EventuallyAccepts(prompt, errorPrompt, parseDate, rejected, accepted, rest);
  }

  /** The predicate of `readNumberRange` */
  function InRange(min: real, max: real): real -> Attempt<bool>
  {
    Total((x: real) => x >= min && x <= max)
  }

  /** `readNumberRange`: a number in the closed interval [min, max] */
  function ReadNumberRange(prompt: string, errorPrompt: string, parseDouble: string -> Attempt<real>,
                           min: real, max: real, input: seq<string>): (r: Run<real>)
    ensures r.consumed <= |input|
    ensures r.outcome.Returned? ==>
              && 0 < r.consumed
              && parseDouble(input[r.consumed - 1]) == Ok(r.outcome.value)
              && min <= r.outcome.value <= max
    ensures r.outcome.InputExhausted? <==>
              forall i :: 0 <= i < |input| ==> parseDouble(input[i]).Fail? || !(min <= parseDouble(input[i]).value <= max)
    ensures r.outcome.InputExhausted? ==> r.consumed == |input|
    // every line before the returned one was unparsable or out of range
    ensures |r.output| == if r.outcome.Returned? then r.consumed - 1 else r.consumed
    ensures |r.prompts| == |r.output| + 1 && forall i :: 0 <= i < |r.prompts| ==> r.prompts[i] == prompt
    ensures forall i :: 0 <= i < |r.output| ==>
              r.output[i] == ErrorLine(errorPrompt, if parseDouble(input[i]).Fail? then parseDouble(input[i]).msg else CriteriaMessage)
    ensures forall i :: 0 <= i < |r.output| && parseDouble(input[i]).Ok? ==>
              !(min <= parseDouble(input[i]).value <= max)
  {
    ReadObjectWithPredicate(prompt, errorPrompt, parseDouble, InRange(min, max), input)
  }

  /** Lines that do not parse or parse outside [min, max], then one inside:
      that number is returned, and each earlier line wrote the parser's
      message or the criteria message */
  lemma NumberRangeTakesFirstInRange(prompt: string, errorPrompt: string, parseDouble: string -> Attempt<real>,
                                     min: real, max: real, rejected: seq<string>, accepted: string, rest: seq<string>)
    requires forall i :: 0 <= i < |rejected| ==> parseDouble(rejected[i]).Fail? || !(min <= parseDouble(rejected[i]).value <= max)
    requires parseDouble(accepted).Ok? && min <= parseDouble(accepted).value <= max
    ensures var r := ReadNumberRange(prompt, errorPrompt, parseDouble, min, max, rejected + [accepted] + rest);
            && r.outcome == Returned(parseDouble(accepted).value)
            && r.consumed == |rejected| + 1
            && |r.output| == |rejected|
            && (forall i :: 0 <= i < |rejected| ==>
                  r.output[i] == ErrorLine(errorPrompt, if parseDouble(rejected[i]).Fail? then parseDouble(rejected[i]).msg else CriteriaMessage))
  {
    EventuallySatisfies(prompt, errorPrompt, parseDouble, InRange(min, max), rejected, accepted, rest);
  }

  /** Both ends of the range are accepted: a first line that parses to `x` is
      taken at once exactly when min <= x <= max, and is otherwise answered
      with the criteria message */
  lemma NumberRangeIsInclusive(prompt: string, errorPrompt: string, parseDouble: string -> Attempt<real>,
                               min: real, max: real, text: string, rest: seq<string>)
    requires parseDouble(text).Ok?
    ensures var r := ReadNumberRange(prompt, errorPrompt, parseDouble, min, max, [text] + rest);
            && (r.outcome == Returned(parseDouble(text).value) && r.consumed == 1 <==> min <= parseDouble(text).value <= max)
            && (!(min <= parseDouble(text).value <= max) ==> r.output[0] == ErrorLine(errorPrompt, CriteriaMessage))
  {
    var input := [text] + rest;
    assert input[0] == text;
  }

  /** The predicate of `readIsoDateRange` */
  function Between(from: Date, to: Date): Date -> Attempt<bool>
  {
    Total((d: Date) => IsAfter(d, from) && IsBefore(d, to))
  }

  /** `readIsoDateRange`: a date strictly after `from` and strictly before `to` */
  function ReadIsoDateRange(prompt: string, errorPrompt: string, parseDate: string -> Attempt<Date>,
                            from: Date, to: Date, input: seq<string>): (r: Run<Date>)
    ensures r.consumed <= |input|
    ensures r.outcome.Returned? ==>
              && 0 < r.consumed
              && parseDate(input[r.consumed - 1]) == Ok(r.outcome.value)
              && IsAfter(r.outcome.value, from) && IsBefore(r.outcome.value, to)
    ensures r.outcome.InputExhausted? <==>
              forall i :: 0 <= i < |input| ==>
                parseDate(input[i]).Fail? || !(IsAfter(parseDate(input[i]).value, from) && IsBefore(parseDate(input[i]).value, to))
    ensures r.outcome.InputExhausted? ==> r.consumed == |input|
    // every line before the returned one was unparsable or outside the interval
    ensures |r.output| == if r.outcome.Returned? then r.consumed - 1 else r.consumed
    ensures |r.prompts| == |r.output| + 1 && forall i :: 0 <= i < |r.prompts| ==> r.prompts[i] == prompt
    ensures forall i :: 0 <= i < |r.output| ==>
              r.output[i] == ErrorLine(errorPrompt, if parseDate(input[i]).Fail? then parseDate(input[i]).msg else CriteriaMessage)
    ensures forall i :: 0 <= i < |r.output| && parseDate(input[i]).Ok? ==>
              !(IsAfter(parseDate(input[i]).value, from) && IsBefore(parseDate(input[i]).value, to))
  {
    ReadObjectWithPredicate(prompt, errorPrompt, parseDate, Between(from, to), input)
  }

  /** Lines that do not parse or parse outside the open interval, then one
      inside: that date is returned, and each earlier line wrote the parser's
      message or the criteria message */
  lemma DateRangeTakesFirstBetween(prompt: string, errorPrompt: string, parseDate: string -> Attempt<Date>,
                                   from: Date, to: Date, rejected: seq<string>, accepted: string, rest: seq<string>)
    requires forall i :: 0 <= i < |rejected| ==>
               parseDate(rejected[i]).Fail? || !(IsAfter(parseDate(rejected[i]).value, from) && IsBefore(parseDate(rejected[i]).value, to))
    requires parseDate(accepted).Ok? && IsAfter(parseDate(accepted).value, from) && IsBefore(parseDate(accepted).value, to)
    ensures var r := ReadIsoDateRange(prompt, errorPrompt, parseDate, from, to, rejected + [accepted] + rest);
            && r.outcome == Returned(parseDate(accepted).value)
            && r.consumed == |rejected| + 1
            && |r.output| == |rejected|
            && (forall i :: 0 <= i < |rejected| ==>
                  r.output[i] == ErrorLine(errorPrompt, if parseDate(rejected[i]).Fail? then parseDate(rejected[i]).msg else CriteriaMessage))
  {
    EventuallySatisfies(prompt, errorPrompt, parseDate, Between(from, to), rejected, accepted, rest);
  }

  /** Neither end of the date interval is accepted, unlike the number range:
      a first line that parses to `from` or to `to` is answered with the
      criteria message and retried, and one strictly between is taken at once */
  lemma DateRangeIsExclusive(prompt: string, errorPrompt: string, parseDate: string -> Attempt<Date>,
                             from: Date, to: Date, text: string, rest: seq<string>)
    requires parseDate(text).Ok?
    ensures var r := ReadIsoDateRange(prompt, errorPrompt, parseDate, from, to, [text] + rest);
            && (parseDate(text).value == from || parseDate(text).value == to ==>
                  r.output[0] == ErrorLine(errorPrompt, CriteriaMessage))
            && (r.outcome == Returned(parseDate(text).value) && r.consumed == 1 <==>
                  IsAfter(parseDate(text).value, from) && IsBefore(parseDate(text).value, to))
  {
    var input := [text] + rest;
    assert input[0] == text;
    var d := parseDate(text).value;
    DateOrderIsStrictTotal(d, from, to);
    DateOrderIsStrictTotal(d, to, from);
  }

  /** `readStringPredicate`: the line itself, once the predicate returns true on it */
  function ReadStringPredicate(prompt: string, errorPrompt: string, criterion: string -> Attempt<bool>,
                               input: seq<string>): (r: Run<string>)
    ensures r.consumed <= |input|
    ensures r.outcome.Returned? ==>
              && 0 < r.consumed
              && r.outcome.value == input[r.consumed - 1]
              && criterion(r.outcome.value) == Ok(true)
    ensures r.outcome.InputExhausted? <==> forall i :: 0 <= i < |input| ==> criterion(input[i]) != Ok(true)
    ensures r.outcome.InputExhausted? ==> r.consumed == |input|
    // every line before the returned one was refused and wrote one error line
    ensures |r.output| == if r.outcome.Returned? then r.consumed - 1 else r.consumed
    ensures |r.prompts| == |r.output| + 1 && forall i :: 0 <= i < |r.prompts| ==> r.prompts[i] == prompt
    ensures forall i :: 0 <= i < |r.output| ==>
              && criterion(input[i]) != Ok(true)
              && r.output[i] == ErrorLine(errorPrompt, if criterion(input[i]).Fail? then criterion(input[i]).msg else CriteriaMessage)
  {
    ReadObjectWithPredicate(prompt, errorPrompt, Identity(), criterion, input)
  }

  /** Lines the predicate refuses, then one it accepts: that line itself is
      returned, and each refused line wrote the predicate's message or the
      criteria message */
  lemma StringPredicateTakesFirstAccepted(prompt: string, errorPrompt: string, criterion: string -> Attempt<bool>,
                                          rejected: seq<string>, accepted: string, rest: seq<string>)
    requires forall i :: 0 <= i < |rejected| ==> criterion(rejected[i]) != Ok(true)
    requires criterion(accepted) == Ok(true)
    ensures var r := ReadStringPredicate(prompt, errorPrompt, criterion, rejected + [accepted] + rest);
            && r.outcome == Returned(accepted)
            && r.consumed == |rejected| + 1
            && |r.output| == |rejected|
            && (forall i :: 0 <= i < |rejected| ==>
                  r.output[i] == ErrorLine(errorPrompt, if criterion(rejected[i]).Fail? then criterion(rejected[i]).msg else CriteriaMessage))
  {
    EventuallySatisfies(prompt, errorPrompt, Identity(), criterion, rejected, accepted, rest);
  }

  /** The predicate of `readStringOptions`: `options::contains` */
  function MemberOf(options: set<string>): string -> Attempt<bool>
  {
    Total((text: string) => text in options)
  }

  /** `readStringOptions`: the first line that is literally one of the options */
  function ReadStringOptions(prompt: string, errorPrompt: string, options: set<string>, input: seq<string>): (r: Run<string>)
    ensures r.consumed <= |input|
    ensures r.outcome.Returned? ==>
              && 0 < r.consumed
              && r.outcome.value == input[r.consumed - 1]
              && r.outcome.value in options
    ensures r.outcome.InputExhausted? <==> forall i :: 0 <= i < |input| ==> input[i] !in options
    ensures r.outcome.InputExhausted? ==> r.consumed == |input|
    // every line before the returned one was a non-member
    ensures |r.output| == if r.outcome.Returned? then r.consumed - 1 else r.consumed
    ensures |r.prompts| == |r.output| + 1 && forall i :: 0 <= i < |r.prompts| ==> r.prompts[i] == prompt
    ensures forall i :: 0 <= i < |r.output| ==> input[i] !in options && r.output[i] == ErrorLine(errorPrompt, CriteriaMessage)
  {
    ReadStringPredicate(prompt, errorPrompt, MemberOf(options), input)
  }

  /** Lines that are not options, then one that is: that option is returned,
      after one criteria-message error line per non-member */
  lemma OptionsTakesFirstMember(prompt: string, errorPrompt: string, options: set<string>,
                                rejected: seq<string>, accepted: string, rest: seq<string>)
    requires forall i :: 0 <= i < |rejected| ==> rejected[i] !in options
    requires accepted in options
    ensures var r := ReadStringOptions(prompt, errorPrompt, options, rejected + [accepted] + rest);
            && r.outcome == Returned(accepted)
            && r.consumed == |rejected| + 1
            && |r.output| == |rejected|
            && (forall i :: 0 <= i < |rejected| ==> r.output[i] == ErrorLine(errorPrompt, CriteriaMessage))
  {
    StringPredicateTakesFirstAccepted(prompt, errorPrompt, MemberOf(options), rejected, accepted, rest);
  }

  /** An option reader given a non-member and then a member: one error line, then the member */
  lemma OptionsRetryOnce(prompt: string, errorPrompt: string, options: set<string>, bad: string, good: string)
    requires bad !in options && good in options
    ensures ReadStringOptions(prompt, errorPrompt, options, [bad, good])
            == Run(Returned(good), 2, [prompt, prompt], [ErrorLine(errorPrompt, CriteriaMessage)])
  {
    var mapper := WithPredicate(Identity(), MemberOf(options));
    assert mapper(bad) == Fail(CriteriaMessage);
    assert mapper(good) == Ok(good);
    assert [bad, good][1..] == [good];
    assert ReadObject(prompt, errorPrompt, mapper, [good]) == Run(Returned(good), 1, [prompt], []);
  }
}
