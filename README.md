# Gemini chatbot: response lifecycle and text clean-up

A Dafny model of the logic inside the single React component of a prompt/response
chat page (`src/App.jsx`). The page sends the typed prompt to a text-generation
endpoint, keeps the rendered text in one `response` state string, and renders that
string as markdown. Three pieces of that component carry logic, and they are modelled here:

- **`formatMarkdown`** (module `Formatter`): two global regular-expression
  substitutions run in order. First every literal backslash-`n` becomes a line
  feed. Then every CR LF pair becomes a line feed. Each pass is the generic
  left-to-right, non-overlapping scan `ReplacePair`. The same module holds the
  code-block clean-up `replace(/\n$/, "")` as `StripTrailingNewline`.
- **Answer extraction** (module `GeminiReply`): the optional-chaining path
  `answer?.data?.candidates?.[0]?.content?.parts?.[0]?.text || ""`. The reply is
  a nest of `Option` and `seq` datatypes, and `ExtractAnswer` returns `""`
  whenever a link is missing.
- **`genResponse`** (module `Orchestrator`): class `App` has the `response`
  field. `StartGeneration` is the part before the `await`, which stores
  `"generating..."`. `FinishGeneration` is the success or catch branch, which
  stores the extracted answer or the fixed error message. `GenResponse` runs
  both. The HTTP call is replaced by an `Outcome` parameter: `Resolved(reply)`
  or `Thrown(cause)`.

Two consequences of the code are proved as stated:

- formatMarkdown is not idempotent: `"\r\r\n"` becomes `"\r\n"`, and a second run
  turns that into `"\n"`. The CR LF pass can form a new CR LF from a CR and the
  line feed that replaces a later pair (`FormatNotIdempotent`). `FormatIdempotentIff`
  proves exactly when a second run changes nothing.
- The response state is one string, so an answer whose text is the error message looks
  exactly like a failure, and an answer `"generating..."` looks like a pending
  call (`StateConflated`).

With one of `VITE_API_URL` and `VITE_API_KEY` unset, the URL holds the text
`undefined`. With both unset, `API_URL + API_KEY` is `NaN`. Neither case throws
by itself (src/App.jsx:11-12, 20). The catch branch runs only if the request
then fails, and the model treats that as one more `Thrown` outcome.

## Model

| member | source | states |
|---|---|---|
| Formatter.ReplacePair | src/App.jsx:45 | a global replace of a two-character pattern never makes the string longer, and keeps a non-empty string non-empty |
| Formatter.ReplaceHead | src/App.jsx:45 | the output's first character is the replacement when the input starts with a match, and the input's first character otherwise |
| Formatter.ReplaceLength | src/App.jsx:45 | each match found by the scan shortens the string by exactly one character, and nothing else changes the length |
| Formatter.MatchCountZero | src/App.jsx:45 | the scan finds no match exactly when the pattern occurs nowhere in the string |
| Formatter.ReplaceNoMatch | src/App.jsx:45 | a string in which the scan finds no match comes back unchanged |
| Formatter.ReplaceIdentity | src/App.jsx:45 | a pass leaves its input unchanged if and only if the pattern does not occur in it |
| Formatter.NoPairAfterReplace | src/App.jsx:45 | when the replacement is neither character of the pattern, no occurrence of the pattern is left after the pass |
| Formatter.NoPairSurvivesReplace | src/App.jsx:45 | a pass whose replacement is neither `x` nor `y` never creates a new `x y` pair |
| Formatter.ReplaceCounts | src/App.jsx:45 | a pass touches no other character: each match trades one pattern character pair for one replacement, and every other character count is kept |
| Formatter.ReplaceAppend | src/App.jsx:45 | the scan is local: a prefix that does not end in the pattern's first character is replaced independently of what follows |
| Formatter.UnescapeNewlines | src/App.jsx:45 | the first `replace` leaves no backslash-`n`, never lengthens the string, and changes it exactly when a backslash-`n` occurs |
| Formatter.NormalizeCrlf | src/App.jsx:45 | the second `replace` never lengthens the string, changes it exactly when a CR LF occurs, and forms no new backslash-`n` |
| Formatter.NoPairAfterOtherPass | src/App.jsx:45 | the CR LF pass keeps a string free of backslash-`n` |
| Formatter.FormatMarkdown | src/App.jsx:44-45 | the output never holds a backslash followed by `n`, and is no longer than the input |
| Formatter.FormatIdentity | src/App.jsx:44-45 | formatMarkdown leaves a string unchanged if and only if it holds neither backslash-`n` nor CR LF |
| Formatter.FormatLength | src/App.jsx:45 | the output length is the input length minus the matches of the first pass, minus the matches of the second pass on the first pass's output |
| Formatter.FormatIdempotentIff | src/App.jsx:45 | a second formatMarkdown changes nothing if and only if the first output holds no CR LF |
| Formatter.FormatNotIdempotent | src/App.jsx:45 | `"\r\r\n"` formats to `"\r\n"` and `"\r\n"` formats to `"\n"`, so formatMarkdown is not idempotent |
| Formatter.FormatExamples | src/App.jsx:45 | literal backslash-`n` and CR LF each become one line feed, a plain line feed is kept, and the pass order turns `"\r\\n"` into `"\r\n"` and then `"\n"` |
| Formatter.StripTrailingNewline | src/App.jsx:108 | a string ending in a line feed loses exactly that character, and any other string is returned unchanged |
| Formatter.StripAfterAppend | src/App.jsx:108 | the strip undoes appending one line feed, and removes only one: `"x\n\n"` becomes `"x\n"` |
| Formatter.StripBounds | src/App.jsx:108 | the result is a prefix of the input at most one character shorter |
| GeminiReply.First | src/App.jsx:35 | `xs?.[0]` yields the first element exactly when the array is present, non-empty and its first element is present |
| GeminiReply.FirstText | src/App.jsx:35 | the optional chain yields text `t` exactly when `t` sits at the first candidate's content's first part |
| GeminiReply.ExtractAnswer | src/App.jsx:34-35 | a non-empty result is the text at the first candidate's first part, and whenever text sits there the result is that text, so a missing link gives `""` |
| GeminiReply.ExtractWellFormed | src/App.jsx:34-35 | a reply of the expected shape yields exactly the text it carries |
| GeminiReply.ExtractMissing | src/App.jsx:34-35 | a reply with no text on the path yields `""` and never an error |
| GeminiReply.ExtractMalformedExamples | src/App.jsx:34-35 | a missing body, missing or empty candidates, a missing first candidate, missing content, empty parts, a missing first part or missing text each yield `""` |
| Orchestrator.Settle | src/App.jsx:34-39 | a thrown call settles to the fixed error message, and a resolved call settles to the text at the answer path, or `""` when there is none |
| Orchestrator.App.constructor | src/App.jsx:9 | the response state starts as the empty string |
| Orchestrator.App.StartGeneration | src/App.jsx:16 | before the call the response is `"generating..."` |
| Orchestrator.App.FinishGeneration | src/App.jsx:34-39 | after the call the response is the extracted answer on success and the fixed error message on any exception |
| Orchestrator.App.GenResponse | src/App.jsx:15-41 | `"generating..."` is the state observed while the call is pending, and the final state is the settled outcome |
| Orchestrator.App.Rendered | src/App.jsx:79 | the text given to the renderer holds no backslash-`n`, and equals the response exactly when the response holds neither backslash-`n` nor CR LF |
| Orchestrator.FailureUniform | src/App.jsx:37-39 | every failure cause produces the same message |
| Orchestrator.ResolvedNeverFails | src/App.jsx:34-36 | a resolved call shows the error message only if the reply literally carries it, and a malformed reply shows `""` |
| Orchestrator.StateConflated | src/App.jsx:16-39 | an answer equal to the error message is indistinguishable from a failure, and the same holds for an answer equal to `"generating..."` and a pending call |
| Orchestrator.FixedMessagesRenderVerbatim | src/App.jsx:16-45 | `"generating..."` and the error message pass through formatMarkdown unchanged |
| Orchestrator.ErrorMessageHasNoControl | src/App.jsx:39 | the error message contains no backslash and no carriage return |

## Left out

- The HTTP POST, the URL built from the endpoint address and the key, and the environment variables (src/App.jsx:11-12, 18-32): network I/O and configuration. The call is the `Outcome` parameter, so the request body and the prompt it carries are not modelled either.
- The textarea binding of the prompt (src/App.jsx:60-66): UI input, and the prompt only matters for the request that is left out.
- The race when the button is pressed again while a call is pending: the source has no guard and the last call to settle wins. This is concurrency. The model runs one `GenResponse` at a time with `StartGeneration` and `FinishGeneration` as its two halves.
- `console.error` logging of the failure cause (src/App.jsx:38): output only.
- The markdown renderer, the syntax highlighter and the per-tag style strings (src/App.jsx:78-117): foreign libraries and constant class names. Only the strip applied to a code block's text is modelled.
- GeminiReply.ExtractAnswer: the `text` field is modelled as an optional string. A JSON value of another type is not modelled: a falsy one such as `0` or `false` would also become `""`. A truthy non-string would be stored as it is, and `formatMarkdown(response)` (src/App.jsx:45, 79) would then throw a TypeError at render, because `.replace` is not defined on a number, object or array. That render failure is not modelled.
- Formatter.StripTrailingNewline: `String(children)` is taken to be a string already. Converting an array of children to a string is not modelled.
- Strings are sequences of `char`. JavaScript's UTF-16 code units are not modelled separately, and none of the patterns involve a surrogate.
