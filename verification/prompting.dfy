/** Text prompts with validation (src/prompting.rs): a converted value is
    accepted only when every predicate passes, and otherwise the message of
    the first failing predicate, in the order they were added, is reported. */
module Prompting {
  import opened Wrappers
  import opened Sequences
  import opened Terminal

  /** A validation function with the message reported when it fails. */
  datatype Predicate<!T> = Predicate(validationMsg: string, validationFn: T -> bool)
  {
    /** Whether `val` passes. */
    function Validate(val: T): bool
    {
      validationFn(val)
    }

    /** The message reported when a value fails. */
    function InvalidMsg(): string
    {
      validationMsg
    }
  }

  /** A predicate gives back the function and the message it was built from. */
  lemma PredicateKeepsParts<T>(msg: string, f: T -> bool, val: T)
    ensures Predicate(msg, f).Validate(val) == f(val)
    ensures Predicate(msg, f).InvalidMsg() == msg
  {
  }

  /** The verdict on a converted value. */
  datatype Verdict = Accept | Reject(msg: string)

  /** The predicates tried in order; the first that fails decides. */
  function FirstFailure<T>(preds: seq<Predicate<T>>, val: T): (r: Verdict)
    ensures r.Reject? ==> exists k :: 0 <= k < |preds| && !preds[k].Validate(val) && r.msg == preds[k].validationMsg
  {
    if preds == [] then Accept
    else if !preds[0].Validate(val) then Reject(preds[0].InvalidMsg())
    else FirstFailure(preds[1..], val)
  }

  /** A value is accepted exactly when every predicate passes. */
  lemma {:induction false} AcceptIffAllPass<T>(preds: seq<Predicate<T>>, val: T)
    ensures FirstFailure(preds, val) == Accept <==> forall k :: 0 <= k < |preds| ==> preds[k].Validate(val)
  {
    if preds != [] {
      AcceptIffAllPass(preds[1..], val);
      assert forall k :: 1 <= k < |preds| ==> preds[k] == preds[1..][k - 1];
    }
  }

  /** When predicate `k` fails and every earlier one passes, its message is
      the one reported, whatever the later predicates say. */
  lemma {:induction false} RejectNamesFirstFailing<T>(preds: seq<Predicate<T>>, val: T, k: nat)
    requires k < |preds| && !preds[k].Validate(val)
    requires forall j :: 0 <= j < k ==> preds[j].Validate(val)
    ensures FirstFailure(preds, val) == Reject(preds[k].validationMsg)
  {
    if 0 < k {
      assert preds[0].Validate(val);
      assert forall j :: 0 <= j < k - 1 ==> preds[1..][j] == preds[j + 1];
      RejectNamesFirstFailing(preds[1..], val, k - 1);
    }
  }

  /** A rejection always reports the message of some failing predicate. */
  lemma {:induction false} RejectComesFromFailing<T>(preds: seq<Predicate<T>>, val: T)
    requires FirstFailure(preds, val).Reject?
    ensures exists k :: 0 <= k < |preds| && !preds[k].Validate(val)
                        && (forall j :: 0 <= j < k ==> preds[j].Validate(val))
                        && FirstFailure(preds, val).msg == preds[k].validationMsg
  {
    if preds[0].Validate(val) {
      RejectComesFromFailing(preds[1..], val);
      var k :| 0 <= k < |preds[1..]| && !preds[1..][k].Validate(val)
               && (forall j :: 0 <= j < k ==> preds[1..][j].Validate(val))
               && FirstFailure(preds[1..], val).msg == preds[1..][k].validationMsg;
      assert forall j :: 0 <= j < k + 1 ==> preds[j].Validate(val) by {
        forall j | 0 <= j < k + 1 ensures preds[j].Validate(val) {
          if 0 < j { assert preds[j] == preds[1..][j - 1]; }
        }
      }
      assert preds[k + 1] == preds[1..][k];
    } else {
      assert !preds[0].Validate(val);
    }
  }

  /** Predicates added later are consulted only when every earlier one
      passes: once the earlier ones reject, adding more changes nothing. */
  lemma {:induction false} LaterPredicatesTestedLast<T>(preds: seq<Predicate<T>>, more: seq<Predicate<T>>, val: T)
    ensures FirstFailure(preds, val).Reject? ==> FirstFailure(preds + more, val) == FirstFailure(preds, val)
    ensures FirstFailure(preds, val) == Accept ==> FirstFailure(preds + more, val) == FirstFailure(more, val)
  {
    if preds != [] {
      assert (preds + more)[0] == preds[0];
      assert (preds + more)[1..] == preds[1..] + more;
      LaterPredicatesTestedLast(preds[1..], more, val);
    } else {
      assert preds + more == more;
    }
  }

  /** The message printed when reading a line fails. */
  const ReadErrorMsg := "Something went wrong with reading the input."

  /** One pass of the prompt loop: reading the line failed, the line did not
      convert to the target type, or it converted to `value`. */
  datatype Attempt<T> = ReadFailed | ConversionFailed | Converted(value: T)

  /** What a finite run of the prompt loop yields: the accepted value, if any
      attempt was accepted, and what it wrote to the terminal on the way. */
  datatype Run<T> = Run(accepted: Option<T>, output: seq<Event>)

  /** A prompt: the message for failed conversions and the predicates in the
      order they are tested. */
  datatype Prompter<!T> = Prompter(conversionErrMsg: string, predicates: seq<Predicate<T>>)

  /** The line printed after an attempt: the read error, the conversion
      error, or the message of the first failing predicate. There is none
      exactly when the attempt converts and every predicate passes. */
  function Complaint<T>(p: Prompter<T>, a: Attempt<T>): (r: Option<string>)
    ensures r.None? <==> a.Converted? && forall k :: 0 <= k < |p.predicates| ==> p.predicates[k].Validate(a.value)
  {
    match a
    case ReadFailed => Some(ReadErrorMsg)
    case ConversionFailed => Some(p.conversionErrMsg)
    case Converted(val) =>
      AcceptIffAllPass(p.predicates, val);
      match FirstFailure(p.predicates, val)
      case Accept => None
      case Reject(msg) => Some(msg)
  }

  /** The complaint names its cause: the fixed read error for a failed
      read, the prompt's conversion message for a failed conversion, and the
      message of the first failing predicate for a rejected value. */
  lemma ComplaintNamesCause<T>(p: Prompter<T>, a: Attempt<T>)
    ensures a.ReadFailed? ==> Complaint(p, a) == Some(ReadErrorMsg)
    ensures a.ConversionFailed? ==> Complaint(p, a) == Some(p.conversionErrMsg)
    ensures a.Converted? && FirstFailure(p.predicates, a.value).Reject? ==>
              Complaint(p, a) == Some(FirstFailure(p.predicates, a.value).msg)
  {
  }

  /** The prompt loop over a script of attempts: each attempt prints the
      prompt inline; a rejected attempt then prints one line and the loop
      asks again; the first accepted value ends it. A run that does not
      accept wrote two events for every attempt; one that accepts wrote an
      odd number, fewer than that. */
  function Session<T>(p: Prompter<T>, msg: string, attempts: seq<Attempt<T>>): (r: Run<T>)
    ensures r.accepted.None? ==> |r.output| == 2 * |attempts|
    ensures r.accepted.Some? ==> |r.output| % 2 == 1 && |r.output| < 2 * |attempts|
  {
    if attempts == [] then Run(None, [])
    else
      match Complaint(p, attempts[0])
      case None => Run(Some(attempts[0].value), [Print(msg)])
      case Some(line) =>
        var rest := Session(p, msg, attempts[1..]);
        Run(rest.accepted, [Print(msg), Println(line)] + rest.output)
  }

  /** One attempt of a non-empty script, unfolded. */
  lemma SessionStep<T>(p: Prompter<T>, msg: string, attempts: seq<Attempt<T>>)
    requires attempts != []
    ensures Complaint(p, attempts[0]).None? ==>
              Session(p, msg, attempts) == Run(Some(attempts[0].value), [Print(msg)])
    ensures Complaint(p, attempts[0]).Some? ==>
              Session(p, msg, attempts)
              == Run(Session(p, msg, attempts[1..]).accepted,
                     [Print(msg)] + ([Println(Complaint(p, attempts[0]).value)] + Session(p, msg, attempts[1..]).output))
  {
  }

  /** `out` is the prompt `msg` printed before each of `lines` and once more
      after them, each line on its own. */
  predicate Transcript(out: seq<Event>, msg: string, lines: seq<string>)
  {
    |out| == 2 * |lines| + 1
    && out[2 * |lines|] == Print(msg)
    && forall j :: 0 <= j < |lines| ==> out[2 * j] == Print(msg) && out[2 * j + 1] == Println(lines[j])
  }

  /** One more rejected attempt in front of a transcript. */
  lemma TranscriptCons(out: seq<Event>, msg: string, line: string, lines: seq<string>)
    requires Transcript(out, msg, lines)
    ensures Transcript([Print(msg), Println(line)] + out, msg, [line] + lines)
  {
    var longer := [Print(msg), Println(line)] + out;
    forall j | 1 <= j < |lines| + 1
      ensures longer[2 * j] == Print(msg) && longer[2 * j + 1] == Println(([line] + lines)[j])
    {
      assert longer[2 * j] == out[2 * (j - 1)];
      assert longer[2 * j + 1] == out[2 * (j - 1) + 1];
    }
  }

  /** The complaint line of each attempt, in order, for attempts that all
      draw one. */
  function ComplaintLines<T>(p: Prompter<T>, attempts: seq<Attempt<T>>): (lines: seq<string>)
    requires forall j :: 0 <= j < |attempts| ==> Complaint(p, attempts[j]).Some?
    ensures |lines| == |attempts|
    ensures forall j :: 0 <= j < |attempts| ==> Some(lines[j]) == Complaint(p, attempts[j])
  {
    seq(|attempts|, j requires 0 <= j < |attempts| => Complaint(p, attempts[j]).value)
  }

  /** The prompt returns the first value of the script that converts and
      passes every predicate, after printing the prompt and one complaint for
      each earlier attempt. */
  lemma {:induction false} SessionAcceptsFirstValid<T>(p: Prompter<T>, msg: string, attempts: seq<Attempt<T>>)
    ensures var r := Session(p, msg, attempts);
            r.accepted.Some? ==>
              exists k :: 0 <= k < |attempts| && attempts[k] == Converted(r.accepted.value)
                          && FirstFailure(p.predicates, attempts[k].value) == Accept
                          && (forall j :: 0 <= j < k ==> Complaint(p, attempts[j]).Some?)
                          && |r.output| == 2 * k + 1
    ensures var r := Session(p, msg, attempts);
            r.accepted.None? ==> forall j :: 0 <= j < |attempts| ==> Complaint(p, attempts[j]).Some?
  {
    if attempts != [] {
      var r := Session(p, msg, attempts);
      if Complaint(p, attempts[0]).None? {
        assert attempts[0] == Converted(r.accepted.value);
      } else {
        SessionAcceptsFirstValid(p, msg, attempts[1..]);
        if r.accepted.Some? {
          var k :| 0 <= k < |attempts[1..]| && attempts[1..][k] == Converted(r.accepted.value)
                   && FirstFailure(p.predicates, attempts[1..][k].value) == Accept
                   && (forall j :: 0 <= j < k ==> Complaint(p, attempts[1..][j]).Some?)
                   && |Session(p, msg, attempts[1..]).output| == 2 * k + 1;
          assert attempts[k + 1] == attempts[1..][k];
          assert forall j :: 1 <= j < k + 1 ==> attempts[j] == attempts[1..][j - 1];
        } else {
          assert forall j :: 1 <= j < |attempts| ==> attempts[j] == attempts[1..][j - 1];
        }
      }
    }
  }

  /** When attempt `k` is the first that draws no complaint, the prompt
      returns its value, and its output is the prompt and the complaint line
      of each earlier attempt, in order, then the prompt of attempt `k`. */
  lemma {:induction false} SessionWritesComplaints<T>(p: Prompter<T>, msg: string, attempts: seq<Attempt<T>>, k: nat)
    requires k < |attempts| && Complaint(p, attempts[k]).None?
    requires forall j :: 0 <= j < k ==> Complaint(p, attempts[j]).Some?
    ensures Session(p, msg, attempts).accepted == Some(attempts[k].value)
    ensures Transcript(Session(p, msg, attempts).output, msg, ComplaintLines(p, attempts[..k]))
  {
    if k == 0 {
      assert Transcript(Session(p, msg, attempts).output, msg, ComplaintLines(p, attempts[..0]));
    } else {
      var tail := attempts[1..];
      assert forall j :: 0 <= j < k - 1 ==> tail[j] == attempts[j + 1];
      assert tail[k - 1] == attempts[k];
      SessionWritesComplaints(p, msg, tail, k - 1);
      var line := Complaint(p, attempts[0]).value;
      var rest := Session(p, msg, tail);
      assert Session(p, msg, attempts).output == [Print(msg), Println(line)] + rest.output;
      TranscriptCons(rest.output, msg, line, ComplaintLines(p, tail[..k - 1]));
      assert [line] + ComplaintLines(p, tail[..k - 1]) == ComplaintLines(p, attempts[..k]);
    }
  }

  /** Each value of `vals` as a converted attempt, in order. */
  function Values<T>(vals: seq<T>): (attempts: seq<Attempt<T>>)
    ensures |attempts| == |vals|
    ensures forall j :: 0 <= j < |vals| ==> attempts[j] == Converted(vals[j])
  {
    seq(|vals|, j requires 0 <= j < |vals| => Converted(vals[j]))
  }

  /** The message of the first failing predicate for each value, in order. */
  function FailureMessages<T>(p: Prompter<T>, vals: seq<T>): (lines: seq<string>)
    requires forall j :: 0 <= j < |vals| ==> FirstFailure(p.predicates, vals[j]).Reject?
    ensures |lines| == |vals|
    ensures forall j :: 0 <= j < |vals| ==> lines[j] == FirstFailure(p.predicates, vals[j]).msg
  {
    seq(|vals|, j requires 0 <= j < |vals| => FirstFailure(p.predicates, vals[j]).msg)
  }

  /** A rejected value in front of a script prints the prompt and the
      value's first failure, then runs the rest of the script. */
  lemma SessionRejectsFirstValue<T>(p: Prompter<T>, msg: string, rejected: seq<T>, good: T)
    requires rejected != [] && FirstFailure(p.predicates, rejected[0]).Reject?
    ensures var rest := Session(p, msg, Values(rejected[1..]) + [Converted(good)]);
            Session(p, msg, Values(rejected) + [Converted(good)])
            == Run(rest.accepted, [Print(msg), Println(FirstFailure(p.predicates, rejected[0]).msg)] + rest.output)
  {
    var attempts := Values(rejected) + [Converted(good)];
    assert attempts[1..] == Values(rejected[1..]) + [Converted(good)];
    assert Complaint(p, attempts[0]) == Some(FirstFailure(p.predicates, rejected[0]).msg);
    SessionStep(p, msg, attempts);
  }

  /** A script of converted values, every one rejected but the last: the
      prompt is printed before each attempt, each rejected value is answered
      with the message of its first failing predicate, and the last value is
      returned. */
  lemma SessionReportsEachFirstFailure<T>(p: Prompter<T>, msg: string, rejected: seq<T>, good: T)
    requires forall j :: 0 <= j < |rejected| ==> FirstFailure(p.predicates, rejected[j]).Reject?
    requires FirstFailure(p.predicates, good) == Accept
    ensures var r := Session(p, msg, Values(rejected) + [Converted(good)]);
            r.accepted == Some(good) && Transcript(r.output, msg, FailureMessages(p, rejected))
  {
    var attempts := Values(rejected) + [Converted(good)];
    var k := |rejected|;
    assert attempts[..k] == Values(rejected);
    forall j | 0 <= j < k
      ensures Complaint(p, attempts[j]) == Some(FirstFailure(p.predicates, rejected[j]).msg)
    {
      ComplaintNamesCause(p, attempts[j]);
    }
    ComplaintNamesCause(p, attempts[k]);
    SessionWritesComplaints(p, msg, attempts, k);
    assert ComplaintLines(p, attempts[..k]) == FailureMessages(p, rejected);
  }

  /** Runs the prompt loop over a script of attempts, printing the prompt
      before each, testing each converted value against the predicates in
      order and moving on to the next attempt at the first that fails. */
  method Prompt<T>(p: Prompter<T>, msg: string, attempts: seq<Attempt<T>>) returns (accepted: Option<T>, output: seq<Event>)
    ensures Run(accepted, output) == Session(p, msg, attempts)
  {
    output := [];
    var pos := 0;
    ghost var full := Session(p, msg, attempts);
    label Input:
    while pos < |attempts|
      invariant pos <= |attempts|
      invariant full == Run(Session(p, msg, attempts[pos..]).accepted, output + Session(p, msg, attempts[pos..]).output)
      decreases |attempts| - pos
    {
      assert attempts[pos..][1..] == attempts[pos + 1..];
      SessionStep(p, msg, attempts[pos..]);
      ghost var line := Complaint(p, attempts[pos]);
      ghost var rest := Session(p, msg, attempts[pos + 1..]).output;
      if line.Some? {
        AppendAssoc(output, [Print(msg)], [Println(line.value)] + rest);
      }
      output := output + [Print(msg)];
      match attempts[pos] {
        case Converted(val) =>
          for k := 0 to |p.predicates|
            invariant FirstFailure(p.predicates, val) == FirstFailure(p.predicates[k..], val)
          {
            assert p.predicates[k..][1..] == p.predicates[k + 1..];
            if !p.predicates[k].Validate(val) {
              AppendAssoc(output, [Println(p.predicates[k].InvalidMsg())], rest);
              output := output + [Println(p.predicates[k].InvalidMsg())];
              pos := pos + 1;
              continue Input;
            }
          }
          return Some(val), output;
        case ConversionFailed =>
          AppendAssoc(output, [Println(p.conversionErrMsg)], rest);
          output := output + [Println(p.conversionErrMsg)];
        case ReadFailed =>
          AppendAssoc(output, [Println(ReadErrorMsg)], rest);
          output := output + [Println(ReadErrorMsg)];
      }
      pos := pos + 1;
    }
    accepted := None;
  }

  /** Collects the predicates of a prompt in the order they are added. */
  class PromptBuilder<T> {
    var conversionErrMsg: string
    var predicates: seq<Predicate<T>>

    /** A builder with the given conversion message and no predicates. */
    constructor Builder(conversionErrMsg: string)
      ensures this.conversionErrMsg == conversionErrMsg && predicates == []
    {
      this.conversionErrMsg := conversionErrMsg;
      predicates := [];
    }

    /** Adds a predicate after the existing ones, so it is tested after them. */
    method Pred(pred: Predicate<T>)
      modifies this
      ensures predicates == old(predicates) + [pred]
      ensures conversionErrMsg == old(conversionErrMsg)
    {
      predicates := predicates + [pred];
    }

    /** The prompt with this builder's message and predicates, unchanged. */
    method Build() returns (p: Prompter<T>)
      ensures p.conversionErrMsg == conversionErrMsg && p.predicates == predicates
    {
      p := Prompter(conversionErrMsg, predicates);
    }
  }

  /** A predicate added after `preds` is tested last: the earlier
      predicates' rejection stands whenever they reject, and otherwise the
      verdict is the new predicate's alone. */
  lemma PredTestedLast<T>(preds: seq<Predicate<T>>, pred: Predicate<T>, val: T)
    ensures var before := FirstFailure(preds, val);
            var after := FirstFailure(preds + [pred], val);
            (before.Reject? ==> after == before)
            && (before == Accept ==> after == (if pred.Validate(val) then Accept else Reject(pred.validationMsg)))
  {
    LaterPredicatesTestedLast(preds, [pred], val);
    assert [pred][1..] == [];
  }

  /** Adding predicates one at a time to a fresh builder and building gives a
      prompt whose predicates are tested in the order they were added. */
  method BuildInOrder<T>(conversionErrMsg: string, first: Predicate<T>, second: Predicate<T>) returns (p: Prompter<T>)
    ensures p == Prompter(conversionErrMsg, [first, second])
  {
    var b := new PromptBuilder.Builder(conversionErrMsg);
    b.Pred(first);
    b.Pred(second);
    p := b.Build();
  }
}
