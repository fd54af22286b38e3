/**
 The read-validate-retry engine of `InputOutput` and its predicate layer.

 The console is replaced by its observable effects: the lines the user types
 are a finite sequence `input`, each call of `readString(prompt)` is recorded
 in `prompts`, and each string handed to `writeString` is recorded in
 `output`. When the sequence runs out, the pending `readString` call fails;
 that failure is outside the `try` of the loop, so it ends the read with
 `InputExhausted` instead of a value.
 */
module InputOutput {
  import opened Attempts

  /** The message of the exception thrown by the composite mapper when the predicate rejects a value */
  const CriteriaMessage := "Input does not meet the criteria"

  datatype Outcome<+T> = Returned(value: T) | InputExhausted

  /** One call of a reading operation: its outcome, how many input lines it
      consumed, the prompts it passed to `readString` (one per call, including
      a failing last call) and the strings it passed to `writeString` */
  datatype Run<+T> = Run(outcome: Outcome<T>, consumed: nat, prompts: seq<string>, output: seq<string>)

  /** `writeLine`: the string handed to `writeString` for one line of output */
  function WriteLine(text: string): (line: string)
    ensures |line| == |text| + 1 && line[|text|] == '\n'
    ensures line[..|text|] == text
  {
    text + "\n"
  }

  /** The line written after a failed attempt: error prompt, one space, exception message */
  function ErrorLine(errorPrompt: string, msg: string): string
  {
    WriteLine(errorPrompt + " " + msg)
  }

  /** Recovers the exception message from an error line, if the line has the shape of one */
  function MessageOfErrorLine(errorPrompt: string, line: string): (r: Option<string>)
    ensures r.Some? ==> |line| >= |errorPrompt| + 2 && line[..|errorPrompt|] == errorPrompt
  {
    var n := |errorPrompt|;
    if |line| >= n + 2 && line[..n] == errorPrompt && line[n] == ' ' && line[|line| - 1] == '\n'
    then Some(line[n + 1 .. |line| - 1])
    else None
  }

  /** An error line always carries its message back out: distinct messages give distinct lines */
  lemma ErrorLineRoundTrip(errorPrompt: string, msg: string)
    ensures MessageOfErrorLine(errorPrompt, ErrorLine(errorPrompt, msg)) == Some(msg)
  {
    var line := ErrorLine(errorPrompt, msg);
    var n := |errorPrompt|;
    assert line == errorPrompt + [' '] + msg + ['\n'];
    assert line[..n] == errorPrompt;
    assert line[n + 1 .. |line| - 1] == msg;
  }

  /** `readObject`: prompt, apply the mapper, and on a thrown exception write
      the error line and prompt again, until the mapper returns normally */
  function ReadObject<T>(prompt: string, errorPrompt: string, mapper: string -> Attempt<T>, input: seq<string>): (r: Run<T>)
    // the result comes from the line where the mapper first succeeded
    ensures r.consumed <= |input|
    ensures r.outcome.Returned? ==> 0 < r.consumed && mapper(input[r.consumed - 1]) == Ok(r.outcome.value)
    // the read is aborted exactly when no line is accepted, after consuming all of them
    ensures r.outcome.InputExhausted? <==> forall i :: 0 <= i < |input| ==> mapper(input[i]).Fail?
    ensures r.outcome.InputExhausted? ==> r.consumed == |input|
    // one error line per failed attempt, in attempt order, and nothing for the successful one
    ensures |r.output| == if r.outcome.Returned? then r.consumed - 1 else r.consumed
    ensures forall i :: 0 <= i < |r.output| ==>
              mapper(input[i]).Fail? && r.output[i] == ErrorLine(errorPrompt, mapper(input[i]).msg)
    // every call of readString uses the same prompt, one more call than error lines
    ensures |r.prompts| == |r.output| + 1
    ensures forall i :: 0 <= i < |r.prompts| ==> r.prompts[i] == prompt
    decreases |input|
  {
    if |input| == 0 then
      Run(InputExhausted, 0, [prompt], [])
    else
      match mapper(input[0])
      case Ok(v) => Run(Returned(v), 1, [prompt], [])
      case Fail(m) =>
        var rest := ReadObject(prompt, errorPrompt, mapper, input[1..]);
        Run(rest.outcome, rest.consumed + 1, [prompt] + rest.prompts, [ErrorLine(errorPrompt, m)] + rest.output)
  }

  /** Failed attempts leave no trace on later ones: after a run of rejected
      lines, the engine behaves exactly as if it had started afresh */
  lemma {:induction false} RetriesAreIndependent<T>(prompt: string, errorPrompt: string, mapper: string -> Attempt<T>,
                                                    rejected: seq<string>, rest: seq<string>)
    requires forall i :: 0 <= i < |rejected| ==> mapper(rejected[i]).Fail?
    ensures var r := ReadObject(prompt, errorPrompt, mapper, rejected + rest);
            var r' := ReadObject(prompt, errorPrompt, mapper, rest);
            && r.outcome == r'.outcome
            && r.consumed == |rejected| + r'.consumed
            && r.prompts[|rejected|..] == r'.prompts
            && r.output[|rejected|..] == r'.output
    decreases |rejected|
  {
    if |rejected| > 0 {
      var input := rejected + rest;
      assert input[0] == rejected[0];
      assert input[1..] == rejected[1..] + rest;
      var r1 := ReadObject(prompt, errorPrompt, mapper, rejected[1..] + rest);
      var r := ReadObject(prompt, errorPrompt, mapper, input);
      assert r == Run(r1.outcome, r1.consumed + 1, [prompt] + r1.prompts,
                      [ErrorLine(errorPrompt, mapper(rejected[0]).msg)] + r1.output);
      RetriesAreIndependent(prompt, errorPrompt, mapper, rejected[1..], rest);
      assert r.prompts[|rejected|..] == r1.prompts[|rejected| - 1..];
      assert r.output[|rejected|..] == r1.output[|rejected| - 1..];
    } else {
      assert rejected + rest == rest;
    }
  }

  /** No retry bound: however many lines are rejected first, a line the mapper
      accepts ends the read with that line's value and one error line per rejection */
  lemma EventuallyAccepts<T>(prompt: string, errorPrompt: string, mapper: string -> Attempt<T>,
                             rejected: seq<string>, accepted: string, rest: seq<string>)
    requires forall i :: 0 <= i < |rejected| ==> mapper(rejected[i]).Fail?
    requires mapper(accepted).Ok?
    ensures var r := ReadObject(prompt, errorPrompt, mapper, rejected + [accepted] + rest);
            && r.outcome == Returned(mapper(accepted).value)
            && r.consumed == |rejected| + 1
            && |r.output| == |rejected|
            && (forall i :: 0 <= i < |rejected| ==> r.output[i] == ErrorLine(errorPrompt, mapper(rejected[i]).msg))
  {
    var input := rejected + [accepted] + rest;
    assert input == rejected + ([accepted] + rest);
    RetriesAreIndependent(prompt, errorPrompt, mapper, rejected, [accepted] + rest);
    assert forall i :: 0 <= i < |rejected| ==> input[i] == rejected[i];
  }

  /** The engine never looks past the line it accepts */
  lemma {:induction false} IgnoresLinesAfterAcceptance<T>(prompt: string, errorPrompt: string, mapper: string -> Attempt<T>,
                                                          input: seq<string>, other: seq<string>)
    requires ReadObject(prompt, errorPrompt, mapper, input).outcome.Returned?
    ensures var r := ReadObject(prompt, errorPrompt, mapper, input);
            ReadObject(prompt, errorPrompt, mapper, input[..r.consumed] + other) == r
    decreases |input|
  {
    var r := ReadObject(prompt, errorPrompt, mapper, input);
    var input' := input[..r.consumed] + other;
    assert input'[0] == input[0];
    if mapper(input[0]).Fail? {
      var r1 := ReadObject(prompt, errorPrompt, mapper, input[1..]);
      assert input'[1..] == input[1..][..r1.consumed] + other;
      IgnoresLinesAfterAcceptance(prompt, errorPrompt, mapper, input[1..], other);
    }
  }

  /** The composite mapper of `readObjectWithPredicate`: the mapper's exception
      passes through, a rejected value becomes an exception with the criteria
      message, and an exception thrown by the predicate itself passes through too */
  function Guarded<T>(mapper: string -> Attempt<T>, criterion: T -> Attempt<bool>, text: string): (a: Attempt<T>)
    ensures a.Ok? <==> mapper(text).Ok? && criterion(mapper(text).value) == Ok(true)
    ensures a.Ok? ==> a.value == mapper(text).value
    ensures mapper(text).Fail? ==> a == Fail(mapper(text).msg)
    ensures mapper(text).Ok? && criterion(mapper(text).value) == Ok(false) ==> a == Fail(CriteriaMessage)
    ensures mapper(text).Ok? && criterion(mapper(text).value).Fail? ==> a == Fail(criterion(mapper(text).value).msg)
  {
    match mapper(text)
    case Fail(m) => Fail(m)
    case Ok(v) =>
      match criterion(v)
      case Fail(m) => Fail(m)
      case Ok(b) => if b then Ok(v) else Fail(CriteriaMessage)
  }

  function WithPredicate<T>(mapper: string -> Attempt<T>, criterion: T -> Attempt<bool>): string -> Attempt<T>
  {
    text => Guarded(mapper, criterion, text)
  }

  /** A predicate that returns normally on every value */
  function Total<T>(p: T -> bool): T -> Attempt<bool>
  {
    x => Ok(p(x))
  }

  /** `readObjectWithPredicate`: the retry loop over the composite mapper */
  function ReadObjectWithPredicate<T>(prompt: string, errorPrompt: string, mapper: string -> Attempt<T>,
                                      criterion: T -> Attempt<bool>, input: seq<string>): (r: Run<T>)
    ensures r.consumed <= |input|
    ensures r.outcome.Returned? ==>
              && 0 < r.consumed
              && mapper(input[r.consumed - 1]) == Ok(r.outcome.value)
              && criterion(r.outcome.value) == Ok(true)
    ensures r.outcome.InputExhausted? <==>
              forall i :: 0 <= i < |input| ==> Guarded(mapper, criterion, input[i]).Fail?
    ensures r.outcome.InputExhausted? ==> r.consumed == |input|
    ensures |r.output| == if r.outcome.Returned? then r.consumed - 1 else r.consumed
    ensures forall i :: 0 <= i < |r.output| ==>
              && Guarded(mapper, criterion, input[i]).Fail?
              && r.output[i] == ErrorLine(errorPrompt, Guarded(mapper, criterion, input[i]).msg)
    ensures forall i :: 0 <= i < |r.output| && mapper(input[i]).Ok? && criterion(mapper(input[i]).value) == Ok(false) ==>
              r.output[i] == ErrorLine(errorPrompt, CriteriaMessage)
    ensures |r.prompts| == |r.output| + 1
    ensures forall i :: 0 <= i < |r.prompts| ==> r.prompts[i] == prompt
  {
    ReadObject(prompt, errorPrompt, WithPredicate(mapper, criterion), input)
  }

  /** `EventuallyAccepts` for the composite mapper: after lines that fail to
      parse or that the predicate refuses, the first line that parses to a
      value the predicate accepts is returned, and each refused line wrote the
      composite's message */
  lemma EventuallySatisfies<T>(prompt: string, errorPrompt: string, mapper: string -> Attempt<T>,
                               criterion: T -> Attempt<bool>, rejected: seq<string>, accepted: string, rest: seq<string>)
    requires forall i :: 0 <= i < |rejected| ==> mapper(rejected[i]).Fail? || criterion(mapper(rejected[i]).value) != Ok(true)
    requires mapper(accepted).Ok? && criterion(mapper(accepted).value) == Ok(true)
    ensures var r := ReadObjectWithPredicate(prompt, errorPrompt, mapper, criterion, rejected + [accepted] + rest);
            && r.outcome == Returned(mapper(accepted).value)
            && r.consumed == |rejected| + 1
            && |r.output| == |rejected|
            && (forall i :: 0 <= i < |rejected| ==> r.output[i] == ErrorLine(errorPrompt, Guarded(mapper, criterion, rejected[i]).msg))
  {
    var composite := WithPredicate(mapper, criterion);
    assert forall i :: 0 <= i < |rejected| ==> composite(rejected[i]).Fail?;
    EventuallyAccepts(prompt, errorPrompt, composite, rejected, accepted, rest);
  }

  /** A line whose value the predicate rejects (by returning false or by
      throwing) is handled exactly as a line the mapper cannot convert: one
      error line, then the read carries on from the next line as if afresh */
  lemma RejectionIsRetry<T>(prompt: string, errorPrompt: string, mapper: string -> Attempt<T>,
                            criterion: T -> Attempt<bool>, text: string, rest: seq<string>)
    requires mapper(text).Ok? && criterion(mapper(text).value) != Ok(true)
    ensures var r := ReadObjectWithPredicate(prompt, errorPrompt, mapper, criterion, [text] + rest);
            var r' := ReadObjectWithPredicate(prompt, errorPrompt, mapper, criterion, rest);
            && r.output == [ErrorLine(errorPrompt, if criterion(mapper(text).value).Fail?
                                                  then criterion(mapper(text).value).msg
                                                  else CriteriaMessage)] + r'.output
            && r.outcome == r'.outcome
            && r.consumed == r'.consumed + 1
  {
    var input := [text] + rest;
    assert input[0] == text;
    assert input[1..] == rest;
  }
}
