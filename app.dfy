/** The component's request lifecycle: the single `response` state that
    `genResponse` overwrites, first with a progress marker and then with the
    outcome of the call, and the text that is rendered from it. */
module Orchestrator {
  import opened Wrappers
  import opened GeminiReply
  import opened Formatter

  /** Shown from the moment the button is pressed until the call settles. */
  const GeneratingMarker: string := "generating..."
  /** Shown for every failure, whatever its cause. */
  const ErrorMessage: string := "An error occurred " + "while generating " + "the response."

  /** How the awaited HTTP call ends: it resolves with a reply, or it throws
      (network failure, a non-success status, any exception); the thrown value
      is only logged. */
  datatype Outcome = Resolved(reply: Reply) | Thrown(cause: string)

  /** The value `genResponse` stores once the call has settled. */
  function Settle(outcome: Outcome): (r: string)
    ensures outcome.Thrown? ==> r == ErrorMessage
    ensures outcome.Resolved? ==> r != "" ==> AnswerAt(outcome.reply, r)
    ensures outcome.Resolved? ==> forall t :: AnswerAt(outcome.reply, t) ==> r == t
  {
    match outcome
    case Resolved(reply) => ExtractAnswer(reply)
    case Thrown(_) => ErrorMessage
  }

  class App {
    /** The `response` state, initially the empty string. */
    var response: string

    constructor ()
      ensures response == ""
    {
      response := "";
    }

    /** The part of `genResponse` before the `await`. */
    method StartGeneration()
      modifies this
      ensures response == GeneratingMarker
    {
      response := GeneratingMarker;
    }

    /** The part of `genResponse` after the `await`: the success branch or the catch branch. */
    method FinishGeneration(outcome: Outcome)
      modifies this
      ensures response == Settle(outcome)
    {
      match outcome {
        case Resolved(reply) =>
          var responseText := ExtractAnswer(reply);
          response := responseText;
        case Thrown(_) =>
          response := ErrorMessage;
      }
    }

    /** One whole `genResponse` run with the call's outcome given; `pending` is the
        state observed while the call is outstanding. */
    method GenResponse(outcome: Outcome) returns (pending: string)
      modifies this
      ensures pending == GeneratingMarker
      ensures response == Settle(outcome)
    {
      StartGeneration();
      pending := response;
      FinishGeneration(outcome);
    }

    /** The markdown text handed to the renderer. */
    function Rendered(): (r: string)
      reads this
      ensures !HasPair(r, '\\', 'n')
      ensures r == response <==> !HasPair(response, '\\', 'n') && !HasPair(response, '\r', '\n')
    {
      FormatIdentity(response);
      FormatMarkdown(response)
    }
  }

  /** Every failure produces the same message, so the cause cannot be told apart. */
  lemma FailureUniform(c1: string, c2: string)
    ensures Settle(Thrown(c1)) == Settle(Thrown(c2)) == ErrorMessage
  {
  }

  /** A reply that reached the client never produces the error message unless it
      literally carries that text: malformed replies degrade to the empty answer. */
  lemma ResolvedNeverFails(reply: Reply)
    ensures Settle(Resolved(reply)) == ErrorMessage ==> AnswerAt(reply, ErrorMessage)
    ensures (forall t :: !AnswerAt(reply, t)) ==> Settle(Resolved(reply)) == ""
  {
  }

  /** The single string does not determine which way the call ended: an answer whose
      text is the error message, or the progress marker, shows the same as a failure
      or a pending call. */
  lemma StateConflated(cause: string)
    ensures Settle(Resolved(WellFormedReply(ErrorMessage))) == Settle(Thrown(cause))
    ensures Settle(Resolved(WellFormedReply(GeneratingMarker))) == GeneratingMarker
  {
    ExtractWellFormed(ErrorMessage);
    ExtractWellFormed(GeneratingMarker);
  }

  /** The fixed strings pass through formatMarkdown untouched. */
  lemma FixedMessagesRenderVerbatim()
    ensures FormatMarkdown(GeneratingMarker) == GeneratingMarker
    ensures FormatMarkdown(ErrorMessage) == ErrorMessage
  {
    NoFirstNoPair(GeneratingMarker, '\\', 'n');
    NoFirstNoPair(GeneratingMarker, '\r', '\n');
    FormatIdentity(GeneratingMarker);
    ErrorMessageHasNoControl();
    NoFirstNoPair(ErrorMessage, '\\', 'n');
    NoFirstNoPair(ErrorMessage, '\r', '\n');
    FormatIdentity(ErrorMessage);
  }

  /** The error message holds no backslash and no carriage return. The constant is
      written as three concatenated literals so that each piece can be checked on
      its own; checked as one literal, this fact is too costly for the verifier. */
  lemma ErrorMessageHasNoControl()
    ensures '\\' !in ErrorMessage && '\r' !in ErrorMessage
  {
    var a, b, c := "An error occurred ", "while generating ", "the response.";
    assert '\\' !in a && '\r' !in a;
    assert '\\' !in b && '\r' !in b;
    assert '\\' !in c && '\r' !in c;
  }

  /** A string without the pattern's first character holds no occurrence of the pattern. */
  lemma NoFirstNoPair(s: string, first: char, second: char)
    requires first !in s
    ensures !HasPair(s, first, second)
  {
  }
}
