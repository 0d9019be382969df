/** Who broke a simulation (quote-service/core.ts:1066-1099): the first log line of the form
    `Program X failed: custom program error: 0xN` names the author. */
module SimulationFailure {
  import opened Basics

  /** A log line as the two patterns see it: the failure pattern with its subject and code, or
      any other text, which may mention compute exhaustion. */
  datatype Line = FailedLine(subject: string, code: nat) | Text(compute: bool)

  datatype Attribution = Burner(code: nat) | External(program: string, code: nat) | Compute | Unknown

  function Author(line: Line, burner: string): Attribution
    requires line.FailedLine?
  {
    if line.subject == burner then Burner(line.code) else External(line.subject, line.code)
  }

  function Attribute(errorMentionsCompute: bool, logs: seq<Line>, burner: string): Attribution
    decreases |logs|
  {
    if logs == [] then if errorMentionsCompute then Compute else Unknown
    else if logs[0].FailedLine? then Author(logs[0], burner)
    else Attribute(errorMentionsCompute || logs[0].compute, logs[1..], burner)
  }

  /** Line k is the first that names a failure. */
  predicate FirstFailure(logs: seq<Line>, k: int) {
    0 <= k < |logs| && logs[k].FailedLine? && forall i :: 0 <= i < k ==> logs[i].Text?
  }

  /** The first failure line decides; without one, any mention of compute, in the error or in a line. */
  lemma {:induction false} ByFirstFailure(errorMentionsCompute: bool, logs: seq<Line>, burner: string)
    ensures forall k :: FirstFailure(logs, k) ==>
      Attribute(errorMentionsCompute, logs, burner)
      == if logs[k].subject == burner then Burner(logs[k].code) else External(logs[k].subject, logs[k].code)
    ensures (forall k :: 0 <= k < |logs| ==> logs[k].Text?) ==>
      Attribute(errorMentionsCompute, logs, burner) == if errorMentionsCompute || Text(true) in logs then Compute else Unknown
    decreases |logs|
  {
    if logs == [] {
    } else if logs[0].FailedLine? {
      assert forall k :: FirstFailure(logs, k) ==> k == 0;
    } else {
      var rest := logs[1..];
      assert logs == [logs[0]] + rest;
      ByFirstFailure(errorMentionsCompute || logs[0].compute, rest, burner);
      forall k | FirstFailure(logs, k) ensures FirstFailure(rest, k - 1) {
        assert logs[k] == rest[k - 1];
        assert forall i :: 0 <= i < k - 1 ==> rest[i] == logs[i + 1];
      }
    }
  }

  method ClassifySimulationFailure(errorMentionsCompute: bool, logs: seq<Line>, burner: string) returns (r: Attribution)
    ensures r == Attribute(errorMentionsCompute, logs, burner)
    ensures forall k :: FirstFailure(logs, k) ==>
      r == if logs[k].subject == burner then Burner(logs[k].code) else External(logs[k].subject, logs[k].code)
    ensures (forall k :: 0 <= k < |logs| ==> logs[k].Text?) ==>
      r == if errorMentionsCompute || Text(true) in logs then Compute else Unknown
  {
    ByFirstFailure(errorMentionsCompute, logs, burner);
    var compute := errorMentionsCompute;
    for k := 0 to |logs|
      invariant Attribute(compute, logs[k..], burner) == Attribute(errorMentionsCompute, logs, burner)
    {
      assert logs[k..][0] == logs[k] && logs[k..][1..] == logs[k + 1..];
      if logs[k].FailedLine? { return Author(logs[k], burner); }
      compute := compute || logs[k].compute;
    }
    return if compute then Compute else Unknown;
  }

  // ---------------------------------------------------------------- what the runtime prints

  /** Everything printed before a frame fails: invocations, successes and program messages. A
      program may print the words of a failure, which the pattern reads as the failure of a
      program called `log:`. */
  datatype Message = Message(lookalike: Option<nat>, compute: bool)

  const LOG: string := "log:"

  datatype Error = Custom(code: nat) | Builtin(compute: bool)

  function MessageLine(m: Message): Line {
    if m.lookalike.Some? then FailedLine(LOG, m.lookalike.value) else Text(m.compute)
  }

  function MessageLines(messages: seq<Message>): (r: seq<Line>)
    ensures |r| == |messages|
  {
    seq(|messages|, i requires 0 <= i < |messages| => MessageLine(messages[i]))
  }

  function FrameLine(program: string, error: Error): Line {
    match error
    case Custom(code) => FailedLine(program, code)
    case Builtin(compute) => Text(compute)
  }

  /** The open frames, outermost first, unwind from the innermost out, each printing the error. */
  function Unwind(frames: seq<string>, error: Error): seq<Line> {
    if frames == [] then []
    else [FrameLine(frames[|frames| - 1], error)] + Unwind(frames[..|frames| - 1], error)
  }

  function FailureLog(messages: seq<Message>, frames: seq<string>, error: Error): seq<Line> {
    MessageLines(messages) + Unwind(frames, error)
  }

  predicate NoLookalike(messages: seq<Message>) {
    forall i :: 0 <= i < |messages| ==> messages[i].lookalike.None?
  }

  /** Message lines that imitate nothing are skipped. */
  lemma {:induction false} SkipMessages(compute: bool, messages: seq<Message>, rest: seq<Line>, burner: string)
    returns (c: bool)
    requires NoLookalike(messages)
    ensures Attribute(compute, MessageLines(messages) + rest, burner) == Attribute(c, rest, burner)
    decreases |messages|
  {
    if messages == [] {
      c := compute;
      assert MessageLines(messages) + rest == rest;
    } else {
      assert (MessageLines(messages) + rest)[1..] == MessageLines(messages[1..]) + rest;
      c := SkipMessages(compute || messages[0].compute, messages[1..], rest, burner);
    }
  }

  /** The first imitation decides, and never as the burner's. */
  lemma {:induction false} LookalikeIsExternal(compute: bool, messages: seq<Message>, rest: seq<Line>, burner: string)
    requires !NoLookalike(messages) && burner != LOG
    decreases |messages|
    ensures Attribute(compute, MessageLines(messages) + rest, burner).External?
    ensures Attribute(compute, MessageLines(messages) + rest, burner).program == LOG
  {
    assert (MessageLines(messages) + rest)[1..] == MessageLines(messages[1..]) + rest;
    if messages[0].lookalike.Some? {
    } else {
      LookalikeIsExternal(compute || messages[0].compute, messages[1..], rest, burner);
    }
  }

  /** A custom error is credited to the innermost failing frame exactly when no program printed
      an imitation of a failure first. Base58 program ids contain no colon. */
  lemma AuthorIsInnermost(compute: bool, messages: seq<Message>, frames: seq<string>, code: nat, burner: string)
    requires frames != [] && LOG !in frames && burner != LOG
    ensures NoLookalike(messages) <==>
            Attribute(compute, FailureLog(messages, frames, Custom(code)), burner)
              == Author(FailedLine(frames[|frames| - 1], code), burner)
  {
    var rest := Unwind(frames, Custom(code));
    if NoLookalike(messages) {
      var _ := SkipMessages(compute, messages, rest, burner);
    } else {
      LookalikeIsExternal(compute, messages, rest, burner);
    }
  }

  /** The burner is never blamed for another program's error: whatever was printed, a burner
      attribution means the burner's own frame was innermost and raised that code. */
  lemma BurnerNeverBlamedFalsely(compute: bool, messages: seq<Message>, frames: seq<string>, error: Error, burner: string)
    requires burner != LOG && Attribute(compute, FailureLog(messages, frames, error), burner).Burner?
    ensures frames != [] && frames[|frames| - 1] == burner
    ensures error == Custom(Attribute(compute, FailureLog(messages, frames, error), burner).code)
  {
    if !NoLookalike(messages) {
      LookalikeIsExternal(compute, messages, Unwind(frames, error), burner);
    } else {
      var c := SkipMessages(compute, messages, Unwind(frames, error), burner);
      if error.Builtin? { BuiltinHasNoAuthor(c, frames, error.compute, burner); }
    }
  }

  lemma {:induction false} BuiltinHasNoAuthor(compute: bool, frames: seq<string>, mentions: bool, burner: string)
    ensures Attribute(compute, Unwind(frames, Builtin(mentions)), burner) in {Compute, Unknown}
    decreases |frames|
  {
    if frames == [] {
    } else {
      var rest := Unwind(frames[..|frames| - 1], Builtin(mentions));
      assert ([Text(mentions)] + rest)[1..] == rest;
      BuiltinHasNoAuthor(compute || mentions, frames[..|frames| - 1], mentions, burner);
    }
  }
}
