# interpolate, modelled in Dafny

A model of `interpolate(input, data, filters)` from ripplejs/interpolate
(`index.js`). The function returns a string without an opening brace as it
is. For any other string it replaces every match of the global pattern
`/\{\{([^}]+)\}\}/g`. To render a match, it splits the captured text on
every `|`. The first piece, untrimmed, goes to an expression evaluator. When
a filter table is given, each later piece is trimmed and looked up in the
table, and the value is fed through those filters from left to right. A
missing name throws. `null` and `undefined` render as the empty string;
every other value renders as its string form.

Modules:

- `Wrappers` (`wrappers.dfy`) holds `Option` and `Result`.
- `JsString` (`js_string.dfy`) models the JavaScript string operations the
  code relies on: `indexOf` for one character, the `~` operator with its
  32-bit wrap-around, `trim` with the ECMAScript white-space set, and `split`
  on a one-character separator.
- `Scanner` (`scanner.dfy`) writes out the fixed pattern's scan and the
  collect-then-substitute behaviour of `String.prototype.replace` with a
  replacer function. All matches are found first; the replacer is then called
  on each, left to right, and the first throw aborts the call. The replacer
  is an arbitrary function, so everything proved here holds for any
  callback.
- `Filters` (`filters.dfy`) covers `executeFilters`. It is a `while` loop,
  modelled as the method `ExecuteFilters` and proved against the fold
  `ApplyFilters`.
- `Interpolation` (`interpolate.dfy`) covers `hasInterpolation`, the replacer
  callback (`Render`) and the exported function (`Interpolate`).
- `Scenarios` (`scenarios.dfy`) restates the behaviours of the test file as
  lemmas. The evaluator and the filters are open parameters, constrained only
  on the expressions and names that occur.

The expression library (`require('expression')`) is replaced by a parameter,
`eval: (string, D) -> Result<Value, string>`. A thrown exception there
becomes `EvaluationError(reason)`. A value is `Null`, `Undefined` or
`Other(text)`. `text` is the string the host makes of the value when it is
substituted, so `0` is `Other("0")` and `false` is `Other("false")`. The
filter table is a `map<string, Value -> Value>`, and "no table passed" is
`None`.

Where the code and the project's wider description disagree, the model
follows the code:

- The captured text is split on every `|`, and each later piece is a bare
  filter name. Nothing splits it further into a name and arguments.
- When no filter table is passed, `if(filters)` skips the filter pieces
  entirely, so an unknown name there is no error (`HelloNoTable`).
- The missing-filter error does not carry the filter's name. See
  "## Left out".

## Model

| member | source | states |
|---|---|---|
| Filters.ApplyFilters | index.js:9-15 | the filter chain can fail only with `MissingFilter` |
| Filters.ExecuteFilters | index.js:7-17 | the loop that shifts names off the list returns exactly the left-to-right fold: it trims each name, looks it up, applies the filter, and fails at the first missing name |
| Filters.FailsIffMissing | index.js:10-13 | the chain fails if and only if some name, once trimmed, is not in the table |
| Filters.ApplyFiltersAppend | index.js:9-15 | running chain `a + b` runs `a`, then `b` on `a`'s output; a failure in `a` stops the chain before `b` |
| Filters.ApplyFiltersInOrder | index.js:9-15 | two filters compose left to right: `[f, g]` gives `g(f(v))` |
| Filters.SameKeysSameChain | index.js:10 | names are looked up trimmed: chains whose names trim to the same keys behave the same |
| JsString.Trim | index.js:10 | the trimmed name is no longer than the piece and neither starts nor ends with white space |
| JsString.TrimStartSpec | index.js:10 | everything dropped at the front is white space, and the rest does not start with white space |
| JsString.TrimEndSpec | index.js:10 | everything dropped at the back is white space, and the rest does not end with white space |
| JsString.TrimCharacterization | index.js:10 | if `s[a..b]` is what lies between white-space-only ends and is itself bounded by non-white-space, then trim gives exactly `s[a..b]` |
| JsString.TrimIdempotent | index.js:10 | trimming twice is trimming once |
| JsString.IndexOf | index.js:4 | the result is -1 exactly when the character is absent; otherwise it is its first position |
| JsString.ToInt32 | index.js:4 | the result is in the signed 32-bit range and congruent to the input modulo 2^32 |
| JsString.BitNotZero | index.js:4 | `~x` is zero (falsy) exactly when `x` is -1 modulo 2^32 |
| JsString.Split | index.js:22 | there is at least one piece, and no piece contains the separator |
| JsString.JoinSplit | index.js:22 | joining the pieces with the separator gives back the string |
| JsString.SplitJoin | index.js:22 | splitting a join of separator-free pieces gives back the pieces |
| JsString.SplitHead | index.js:22-23 | the first piece is everything before the first separator, untouched |
| JsString.SplitPrefix | index.js:22 | a separator-free prefix is glued to the first piece of the rest |
| Scanner.IsMatchUnique | index.js:21 | a match starting at a position can end in one place only |
| Scanner.FindClose | index.js:21 | the result is the first `}` at or after the start, or the end of the string |
| Scanner.MatchAt | index.js:21 | one pattern attempt reports a genuine match, and reports none only when no match starts there |
| Scanner.Matches | index.js:21 | every reported match is genuine, lies after the scan's start, and the matches are ordered and disjoint |
| Scanner.MatchesLeftmost | index.js:21 | the scan misses nothing: every position where a match could start lies inside some reported match |
| Scanner.MatchesSkip | index.js:21 | positions where no match starts are passed over |
| Scanner.MatchesHit | index.js:21 | a match at the scan position is reported, and the scan resumes after its closing braces |
| Scanner.SkipBraceFree | index.js:21 | text without `{` contributes no match |
| Scanner.OnlyMatch | index.js:21 | a match with no `{` before or after it is the only match |
| Scanner.NoMatches | index.js:21 | the scan reports nothing if and only if no match starts anywhere from its start on |
| Scanner.WeaveGapsTexts | index.js:21 | the unmatched gaps and the match texts, interleaved, rebuild the input exactly |
| Scanner.TextsOfMatches | index.js:21 | each match text is `{{`, the captured text, then `}}` |
| Scanner.SubstituteShape | index.js:21-28 | when the replacer succeeds everywhere, the output is the gaps copied verbatim with the k-th replacement after the k-th gap |
| Scanner.SubstituteFailure | index.js:21-28 | the substitution fails with `e` if and only if the leftmost match on which the replacer fails fails with `e` |
| Scanner.ReplaceAllFailure | index.js:21-28 | the replace call fails with `e` if and only if the replacer's leftmost failing match fails with `e`; there is no partial output |
| Scanner.ReplaceAllShape | index.js:21-28 | with all replacements known, the output is the gaps woven with them |
| Scanner.ReplaceAllRoundTrip | index.js:21 | a replacer that returns each match's own text leaves the input unchanged |
| Scanner.ReplaceAllNoMatch | index.js:21 | with no match, the replace call returns the input |
| Scanner.WeaveOne | index.js:21 | with one match, the output is the text before it, the replacement, and the text after it |
| Interpolation.HasInterpolation | index.js:3-5 | the pre-check says yes only when the input contains `{`, and on inputs shorter than 2^32 - 1 exactly then; `HasInterpolationExact` states the wrap-around case |
| Interpolation.Evaluate | index.js:23-25 | the expression's value is the evaluator's; a thrown evaluation becomes `EvaluationError` with the evaluator's reason |
| Interpolation.ReplacementText | index.js:27 | null and undefined render as the empty string, any other value as its string form |
| Interpolation.Render | index.js:21-28 | a failing evaluation of the text before the first `\|` is the result; otherwise a failure is `MissingFilter` from a filter table; `RenderWithoutFilters`, `RenderPlain`, `RenderMissingFilter`, `RenderOneFilter` and `RenderChain` state the rest |
| Interpolation.Interpolate | index.js:19-29 | an input without `{`, or without a match, is returned unchanged; `PlainInputUnchanged`, `NoMatchUnchanged`, `InterpolateShape` and `InterpolateFailure` state the general output and failure |
| Scanner.Substitute | index.js:21 | with no matches left the rest of the text is copied and nothing fails; `SubstituteShape` and `SubstituteFailure` state the output and the failure |
| Scanner.ReplaceAll | index.js:21 | with no match the input is returned; `ReplaceAllShape`, `ReplaceAllRoundTrip` and `ReplaceAllFailure` state the output, the round trip and the failure |
| JsString.BitNot | index.js:4 | `~x` is a signed 32-bit integer and `~x + x + 1` is 0 modulo 2^32; `BitNotZero` says when it is falsy |
| Interpolation.HasInterpolationExact | index.js:3-5 | the pre-check says yes exactly when there is a `{` whose first position is not -1 modulo 2^32 |
| Interpolation.HasInterpolationShort | index.js:3-5 | on strings shorter than 2^32 - 1 characters, the pre-check is exactly "contains `{`" |
| Interpolation.PlainInputUnchanged | index.js:20 | an input without `{` is returned unchanged |
| Interpolation.PreCheckIsShortcut | index.js:20-21 | on inputs shorter than 2^32 - 1 the pre-check changes no result: the output is the full replacement's |
| Interpolation.NoMatchUnchanged | index.js:20-21 | an input in which the pattern finds no match is returned unchanged |
| Interpolation.InterpolateShape | index.js:19-29 | when every match renders, the output is the unmatched text copied verbatim with the k-th rendering after the k-th gap |
| Interpolation.InterpolateOne | index.js:19-29 | with a single match, the output is the text before it, its rendering, and the text after it |
| Interpolation.InterpolateOneFails | index.js:19-29 | with a single match whose rendering fails, the whole call fails with that error |
| Interpolation.InterpolateFailure | index.js:21-28 | the call fails with `e` if and only if the leftmost match that fails to render fails with `e` |
| Interpolation.RenderWithoutFilters | index.js:22-27 | without a filter table, the rendering depends only on the evaluator's verdict on the text before the first `\|` |
| Interpolation.RenderPlain | index.js:22-27 | a captured text without `\|` is evaluated as it is, and its value is rendered with or without a table |
| Interpolation.RenderMissingFilter | index.js:10-13 | with a table, a filter piece whose trimmed name is absent makes the rendering fail with `MissingFilter` |
| Interpolation.RenderOneFilter | index.js:22-27 | `e\|f` renders the filter named by the trimmed `f`, applied to the value of `e` |
| Interpolation.RenderChain | index.js:22-27 | `e\|f\|g` renders `g(f(v))`, where `v` is the value of `e` |
| Scenarios.PlainString | test/index.js:21-23 | "Hello world!" comes back unchanged |
| Scenarios.HelloPluto | test/index.js:25-32 | "Hello {{world}}!" with `world` worth "Pluto" gives "Hello Pluto!" |
| Scenarios.HelloNothing | test/index.js:68-80 | a null or undefined value gives "Hello !" |
| Scenarios.ZeroAndFalse | test/index.js:101-117 | the values 0 and false are rendered as "0" and "false" |
| Scenarios.PipeRender | index.js:22-26 | in "world \| f" the evaluator receives "world " untrimmed and the filter is looked up as `f`; a missing name fails |
| Scenarios.HelloCaps | test/index.js:45-52 | "Hello {{world \| caps}}!" gives "Hello PLUTO!" |
| Scenarios.HelloLower | test/index.js:54-66 | "Hello {{world \| lower}}!" with a table holding `lower` gives "Hello pluto!" |
| Scenarios.HelloMissingFilter | test/index.js:82-90 | "Hello {{world \| lower}}!" with a table lacking `lower` fails with `MissingFilter` |
| Scenarios.HelloNoTable | index.js:26 | the same input without a table renders from the expression alone, and nothing fails |
| Scenarios.NotPlaceholders | index.js:21 | "{{}}" and "{{a}b}}" hold no match and are returned unchanged |

## Left out

- The expression language (`require('expression')`) is not part of this model. It is the evaluator parameter, and its exceptions are its `Failure` reasons.
- JavaScript's ToString on substituted values is abstract: a value other than null or undefined carries its string form as `Other(text)`.
- Filters.ApplyFilters: filters are total functions, so an exception thrown inside a filter is not modelled.
- Filters.ApplyFilters: a name is looked up in a Dafny map. A plain JavaScript object would also find inherited keys such as `toString`. The map holds exactly the keys bound to functions: index.js:11 also rejects a key that is present but bound to a falsy value such as `null`, and a key bound to a truthy non-function makes index.js:14 throw a TypeError; neither is modelled.
- The missing-filter error's message is not modelled, only its kind (`MissingFilter`). index.js:12 builds the message from `name`, a variable it never declares. Reading an undeclared identifier throws a ReferenceError in strict and sloppy code alike, so the outcome depends on whether a global `name` exists: under Node there is none and a ReferenceError is thrown; in a browser it reads `window.name` and the `Error` is thrown. Either way the call fails and the message never carries the filter's name.
- Interpolation.PreCheckIsShortcut: proved only for inputs shorter than 2^32 - 1 characters. On longer inputs, `~indexOf` wraps around; `HasInterpolationExact` states that case.
- Interpolation.InterpolateShape: stated for inputs shorter than 2^32 - 1 characters, for the same reason.
- Interpolation.InterpolateOne: stated for inputs shorter than 2^32 - 1 characters, for the same reason.
- Interpolation.InterpolateOneFails: stated for inputs shorter than 2^32 - 1 characters, for the same reason.
- Interpolation.InterpolateFailure: stated for inputs shorter than 2^32 - 1 characters, for the same reason.
- Scenarios.HelloMissingFilter: states the failure and its kind, not the message text the test compares.
- Strings are sequences of Dafny characters, which are Unicode scalar values. The model covers strings without surrogate code units, where each character is one UTF-16 code unit; a character outside the Basic Multilingual Plane is one Dafny character but two JavaScript code units. Match positions and the 2^32 - 1 length bound count Dafny characters.
- The `Interpolate` class that the test file drives is not part of this model. That covers its `has`, `value`, `values`, `props`, `each` and `map` operations, custom delimiters, filter registration, and filters with arguments (`append:" world!"`).
- The test with three placeholders (test/index.js:34-43) is not restated as a scenario; `InterpolateShape` states the general case.
