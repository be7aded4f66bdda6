/** The JSON reply of the generation endpoint and the expression that reads the
    answer out of it, `answer?.data?.candidates?.[0]?.content?.parts?.[0]?.text || ""`. */
module GeminiReply {
  import opened Wrappers

  /** Every object field on the path may be missing, and so may every array element. */
  datatype Part = Part(text: Option<string>)
  datatype Content = Content(parts: Option<seq<Option<Part>>>)
  datatype Candidate = Candidate(content: Option<Content>)
  datatype Body = Body(candidates: Option<seq<Option<Candidate>>>)
  /** The resolved HTTP response; `data` is its parsed JSON body. */
  datatype Reply = Reply(data: Option<Body>)

  /** `xs?.[0]`: the first element, or nothing when the array is missing or empty. */
  function First<T>(xs: Option<seq<Option<T>>>): (r: Option<T>)
    ensures r.Some? <==> xs.Some? && |xs.value| > 0 && xs.value[0].Some?
    ensures r.Some? ==> r.value == xs.value[0].value
  {
    if xs.Some? && |xs.value| > 0 then xs.value[0] else None
  }

  /** The reply carries the text `t` at the place the application reads from:
      the first candidate's content's first part. */
  ghost predicate AnswerAt(reply: Reply, t: string)
  {
    && reply.data.Some?
    && var candidates := reply.data.value.candidates;
    && candidates.Some? && |candidates.value| > 0 && candidates.value[0].Some?
    && var content := candidates.value[0].value.content;
    && content.Some?
    && var parts := content.value.parts;
    && parts.Some? && |parts.value| > 0 && parts.value[0].Some?
    && parts.value[0].value.text == Some(t)
  }

  /** The optional chain itself: each `?.` stops at a missing link. */
  function FirstText(reply: Reply): (r: Option<string>)
    ensures forall t :: r == Some(t) <==> AnswerAt(reply, t)
  {
    var body :- reply.data;
    var candidate :- First(body.candidates);
    var content :- candidate.content;
    var part :- First(content.parts);
    part.text
  }

  /** The extracted answer: the text at the path when there is one, coalesced to
      the empty string by `|| ""` otherwise. It never fails. */
  function ExtractAnswer(reply: Reply): (r: string)
    ensures r != "" ==> AnswerAt(reply, r)
    ensures forall t :: AnswerAt(reply, t) ==> r == t
  {
    match FirstText(reply)
    case Some(t) => t
    case None => ""
  }

  /** The reply shape the code reads the answer from, holding the answer `t`. */
  function WellFormedReply(t: string): Reply
  {
    Reply(Some(Body(Some([Some(Candidate(Some(Content(Some([Some(Part(Some(t)))])))))]))))
  }

  /** A well-formed reply hands back exactly the text it carries. */
  lemma ExtractWellFormed(t: string)
    ensures ExtractAnswer(WellFormedReply(t)) == t
  {
  }

  /** A reply with no text on the path yields the empty answer, whichever link is missing. */
  lemma ExtractMissing(reply: Reply)
    requires forall t :: !AnswerAt(reply, t)
    ensures ExtractAnswer(reply) == ""
  {
  }

  /** The links that can be missing, one by one: each yields the empty answer. */
  lemma ExtractMalformedExamples(c: Candidate, p: Part)
    ensures ExtractAnswer(Reply(None)) == ""
    ensures ExtractAnswer(Reply(Some(Body(None)))) == ""
    ensures ExtractAnswer(Reply(Some(Body(Some([]))))) == ""
    ensures ExtractAnswer(Reply(Some(Body(Some([None, Some(c)]))))) == ""
    ensures ExtractAnswer(Reply(Some(Body(Some([Some(Candidate(None))]))))) == ""
    ensures ExtractAnswer(Reply(Some(Body(Some([Some(Candidate(Some(Content(Some([]))))), Some(c)]))))) == ""
    ensures ExtractAnswer(Reply(Some(Body(Some([Some(Candidate(Some(Content(Some([None, Some(p)])))))]))))) == ""
    ensures ExtractAnswer(Reply(Some(Body(Some([Some(Candidate(Some(Content(Some([Some(Part(None))])))))]))))) == ""
  {
  }
}
