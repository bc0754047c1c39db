# stripIndents and the `/template` route, in Dafny

This project models the two pieces of decision logic in a small Express
server that picks a project scaffold for a chat assistant.

- **`stripIndents`** (`src/stripindents.ts`) dedents a block of text. It
  splits the text on line feeds and drops at most one blank line at the top
  and at most one at the bottom. It then measures the least indentation of
  the non-blank lines, slices that many characters off every line, and joins
  the lines again.
- **`POST /template`** (`src/index.ts`) rejects a missing or empty `prompt`
  with 400. Otherwise it sends one chat message to a completion service,
  asking "node or react?". It reads the answer trimmed and lower-cased, and
  looks for `react` first and `node` second. It answers with a prompt bundle
  `{prompts, uiPrompts}` for the archetype found, 403 when neither label is
  found, or 500 when the completion call fails.

Modules:

- `Text` (`text.dfy`) holds the JavaScript string primitives the code uses,
  over `seq<char>`. `IsWs` is the ECMAScript WhiteSpace and LineTerminator
  set; `trim` strips exactly these and `\s` matches exactly these. The module
  also has `trim`, ASCII `toLowerCase`, `includes`, and `split`/`join` on one
  separator character, with the round trips between `split` and `join`.
- `Indentation` (`strip_indents.dfy`) is `stripIndents`, step by step:
  `DropBlankEnds` is the `shift`/`pop`, `Reduce`/`MinIndent` is the `reduce`
  seeded with `Infinity` (the `Width` datatype), and `Slice`/`Dedent` is the
  `map` over `slice`. `IndentationCases` (`strip_indents_cases.dfy`) works
  through particular inputs.
- `TemplateRoute` (`template.dfy`) is the route as a pure function. The
  completion service is a parameter `seq<Message> -> Completion`. The
  result, an `Exchange`, records the requests sent as well as the response.
  `TemplateCases` (`template_cases.dfy`) works through particular answers.

Two behaviours a reader might expect do not hold in the code; the model
follows the code:

- A prompt made only of whitespace is a non-empty string. It passes the
  `!userPrompt` check and is sent on; it is not rejected.
- `stripIndents` is not idempotent. `IndentationCases.NotIdempotent` proves
  that `"\n\n  a"` gives `"\na"`, which in turn gives `"a"`.

## Model

| member | source | states |
|---|---|---|
| Text.Split | src/stripindents.ts:9 | splitting on a separator always yields at least one piece, no piece contains the separator, and joining the pieces with the separator restores the input |
| Text.SplitJoin | src/stripindents.ts:30 | splitting the join of a non-empty list of separator-free lines gives back exactly those lines |
| Text.JoinLength | src/stripindents.ts:27-30 | `Join`, the `join('\n')`: no lines join to `""`; the join of one or more lines is as long as all the lines together plus one separator for each pair of neighbours |
| Text.JoinEnds | src/stripindents.ts:27-30 | the join of a non-empty array starts with its first line and ends with its last |
| Text.LeadingWs | src/stripindents.ts:18-19 | the length of the `^\s*` match: every character before it is whitespace, the character at it (if any) is not, and it equals the line length exactly when the line is blank |
| Text.TrailingWs | src/stripindents.ts:14-15 | the right half of `trim`: every character of the counted suffix is whitespace, and the character just before it (if any) is not |
| Text.Trim | src/stripindents.ts:14-15 | `trim` returns the window left after the leading whitespace, with only whitespace after it; the result is empty exactly when the string is blank, and otherwise starts and ends with non-whitespace |
| Text.Includes | src/index.ts:87 | `includes` is true exactly when the word occurs at some index of the string |
| Text.LowerChar | src/index.ts:85 | a capital ASCII letter becomes the letter 32 code points up, every other character is unchanged, no capital remains, and whitespace stays whitespace |
| Text.Lower | src/index.ts:85 | `toLowerCase` maps the string character by character, keeps its length, and leaves no ASCII capital |
| Text.LowerIdempotent | src/index.ts:85 | lower-casing an already lower-cased string changes nothing |
| Indentation.Reduce | src/stripindents.ts:17-24 | the left fold of the reduce callback never exceeds its seed or the indentation of any non-blank line, and it returns either the seed or the indentation of one of those lines |
| Indentation.StepKeepsLeast | src/stripindents.ts:17-23 | the reduce callback `Step` returns the running minimum or the line's indentation: a blank line leaves the minimum unchanged, and a non-blank line gives a result no larger than either its indentation or the running minimum |
| Indentation.MinIndent | src/stripindents.ts:17-26 | the `Infinity` sentinel is returned exactly when every line is blank; otherwise the result is the least indentation over the non-blank lines, attained by one of them |
| Indentation.Slice | src/stripindents.ts:30 | `slice(m)` keeps the last `len - m` characters, or none when the line is shorter than `m` |
| Indentation.SliceAll | src/stripindents.ts:30 | the `map` gives one sliced line per input line, in the same order |
| Indentation.DropBlankEnds | src/stripindents.ts:9-15 | the kept lines are the contiguous window of the input that starts one line in exactly when the first line is blank and ends one line early exactly when the last line is blank and is not the line already dropped; at most two lines go |
| Indentation.Dedent | src/stripindents.ts:17-30 | one output line per input line; each output line is its input line with a whitespace-only prefix removed; when some line is non-blank, some output line starts with a non-whitespace character |
| Indentation.DedentByLeast | src/stripindents.ts:17-30 | when some line is non-blank, line i loses exactly its first min(m, len) characters, where m is the least indentation over the non-blank lines |
| Indentation.DedentAllBlank | src/stripindents.ts:26-28 | when every line is blank the `Infinity` sentinel leaves the lines unchanged |
| Indentation.StripIndents | src/stripindents.ts:8-31 | the result is empty when no line survives the blank-end removal; otherwise splitting the result on line feeds gives exactly the dedented kept lines, so the line count is the input count minus the dropped lines |
| IndentationCases.SingleBlankLine | src/stripindents.ts:9-15 | a single blank line is shifted away, the pop then does nothing, and the result is the empty string |
| IndentationCases.EmptyInput | src/stripindents.ts:9-27 | `stripIndents("")` is `""` |
| IndentationCases.IndentedBlock | src/stripindents.ts:8-31 | `"\n  a\n  b\n"` becomes `"a\nb"` |
| IndentationCases.InnerBlankLineKept | src/stripindents.ts:8-31 | `"  a\n\n  b"` becomes `"a\n\nb"`: the inner blank line is kept and does not count towards the least indentation |
| IndentationCases.NotIdempotent | src/stripindents.ts:13-15 | only one of two leading empty lines is dropped, so applying `stripIndents` twice to `"\n\n  a"` gives `"a"` where once gives `"\na"` |
| TemplateRoute.Request | src/index.ts:77-83 | exactly one message, with the `user` role, whose content is the fixed instruction, a blank line (`"\n\n"`), then the prompt unchanged |
| TemplateRoute.Classify | src/index.ts:85-106 | the answer is read as react exactly when "react" occurs in it in any letter case; as node exactly when "node" occurs and "react" does not; and as unresolved exactly when neither occurs |
| TemplateRoute.TrimmedLowerOccurrence | src/index.ts:85-87 | searching the trimmed, lower-cased answer for a label without whitespace finds it exactly when the lower-cased untrimmed answer contains it |
| TemplateRoute.Assemble | src/index.ts:87-106 | unresolved gives 403 "Unable to determine project type" and no bundle; react gives two prompts with the base instructions first; node gives one prompt; each bundle has the archetype's scaffold as its single UI prompt, which is the tail of the last prompt after the framing line |
| TemplateRoute.BundleIdentifiesArchetype | src/index.ts:87-106 | different archetypes never produce the same response, whatever the scaffold texts are |
| TemplateRoute.Respond | src/index.ts:80-111 | a failed completion call ("AI request failed") or a non-string answer gives 500, and nothing else does; a string answer is classified and assembled |
| TemplateRoute.Status | src/index.ts:74-110 | 200 exactly for a bundle, 400 exactly for a missing prompt, 403 exactly for an unresolved answer, 500 exactly for a failure; 400 and 403 are the only client errors |
| TemplateRoute.StatusIdentifiesKind | src/index.ts:74-110 | two answers with the same status are of the same kind |
| TemplateRoute.HandleTemplate | src/index.ts:70-112 | an absent or empty prompt gives 400 "Missing prompt" and no completion request; any other prompt, whitespace-only included, gives exactly one request of the composed message, and the response is read from its result |
| TemplateRoute.AnswerNormalised | src/index.ts:85-97 | padding the answer with whitespace on either side, or changing the case of its letters, never changes the response |
| TemplateRoute.TemplateOutcomes | src/index.ts:70-112 | status 400, 500, 403 and 200 occur exactly under mutually exclusive conditions on the prompt and the completion result; a 200 carries the react bundle when "react" occurs in the answer and the node bundle otherwise |
| TemplateCases.BothLabelsReadAsReact | src/index.ts:87-97 | an answer naming both labels, "node" first, is read as react |
| TemplateCases.PaddedCapitalNode | src/index.ts:85-97 | `" NODE\n"` is read as node |
| TemplateCases.LabelInsideWord | src/index.ts:87 | a label inside a longer word (`"Reactive UI"`) still matches |
| TemplateCases.NeitherLabel | src/index.ts:97-106 | an answer naming neither label is unresolved and the route answers 403 |

## Left out

- Express set-up, CORS, body-size limits, the cross-origin headers, static file serving and `listen` (src/index.ts:19-36, 138-158). These are transport plumbing.
- The OpenRouter call in `getAIResponse` (src/index.ts:40-64): endpoint, headers, model name and logging. Only its result enters the model, as a `Completion`: the answer text, an answer that is not a string, or a failure.
- The `/chat` route (src/index.ts:116-135). It forwards the caller's messages after a system message to the same service and has no decision logic.
- Loading `.env` and the start-up check for the API key (src/index.ts:7, 15-17). These are process configuration.
- src/constants.ts. It holds literal constants only.
- The texts of `BASE_PROMPT`, `getSystemPrompt` and the node and react `basePrompt`. src/prompts.js and src/defaults/*.js are not part of this model, so these texts are arbitrary strings in a `Scaffolds` value.
- Text.Lower: lower-cases ASCII letters only. JavaScript's `toLowerCase` also maps non-ASCII letters, which could matter only for an answer containing non-ASCII capitals that lower-case to the letters of a label.
- TemplateRoute.Respond: the 500 message for a non-string answer is the runtime's `TypeError` text. The model takes it as an input instead of reproducing the engine's wording.
- TemplateRoute.HandleTemplate: the `prompt` field is absent or a string. Other JSON values (numbers, booleans, objects) are falsy or truthy by JavaScript rules and interpolated with `toString`; they are not modelled.
- Strings are sequences of Dafny `char`, which are Unicode scalar values; a JavaScript string is a sequence of UTF-16 code units and may hold lone surrogates. No result depends on the difference: every character that is counted or sliced is whitespace from the Basic Multilingual Plane, and both labels are ASCII.
- Logging with `console.error`, and concurrency. Each request is independent and shares only the read-only scaffold texts.
