/** The function index.js exports: interpolate(input, data, filters).
    An input without an opening brace comes back as it is; otherwise every
    match of {{...}} is replaced by the value of the expression before the
    first `|`, fed through the filters named after it when a filter table is
    given, with null and undefined shown as the empty string. */
module Interpolation {
  import opened Wrappers
  import JsString
  import Scanner
  import opened Filters

  /** The expression evaluator: it turns an expression and the data into a
      value, or fails with a reason. It is a parameter of the model. */
  type Evaluator<-D> = (string, D) -> Result<Value, string>

  /** hasInterpolation: `~str.indexOf('{')` read as a boolean, where a number
      is truthy unless it is zero. */
  function HasInterpolation(s: string): (b: bool)
    ensures b ==> '{' in s
    ensures |s| < JsString.TWO_TO_32 - 1 ==> (b <==> '{' in s)
  {
    JsString.BitNotZero(JsString.IndexOf(s, '{'));
    JsString.BitNot(JsString.IndexOf(s, '{')) != 0
  }

  /** The pre-check is exact up to 32-bit truncation: it says yes when s has
      an opening brace whose first position is not -1 modulo 2^32. */
  lemma HasInterpolationExact(s: string)
    ensures HasInterpolation(s)
            <==> '{' in s && JsString.IndexOf(s, '{') % JsString.TWO_TO_32 != JsString.TWO_TO_32 - 1
  {
    JsString.BitNotZero(JsString.IndexOf(s, '{'));
  }

  /** On every string shorter than 2^32 - 1 characters the pre-check is
      exactly "contains an opening brace". */
  lemma HasInterpolationShort(s: string)
    requires |s| < JsString.TWO_TO_32 - 1
    ensures HasInterpolation(s) <==> '{' in s
  {
    HasInterpolationExact(s);
  }

  /** The evaluator's verdict on one expression; its failure reason is passed
      on unchanged. */
  function Evaluate<D>(expr: string, data: D, eval: Evaluator<D>): (r: Result<Value, Error>)
    ensures r.Success? <==> eval(expr, data).Success?
    ensures r.Success? ==> r.value == eval(expr, data).value
    ensures r.Failure? ==> r.error == EvaluationError(eval(expr, data).error)
  {
    match eval(expr, data)
    case Success(v) => Success(v)
    case Failure(reason) => Failure(EvaluationError(reason))
  }

  /** What replaces a match: null and undefined give the empty string, any
      other value its string form. */
  function ReplacementText(v: Value): (t: string)
    ensures v.Null? || v.Undefined? ==> t == ""
    ensures v.Other? ==> t == v.text
  {
    match v
    case Null => ""
    case Undefined => ""
    case Other(text) => text
  }

  /** The replacer callback: split the captured text on every `|`, evaluate
      the first piece as it is, run the other pieces as a filter chain when a
      filter table was given, and render the result. */
  function Render<D>(inner: string, data: D, filters: Option<Registry>, eval: Evaluator<D>): (r: Result<string, Error>)
    ensures eval(ExpressionPart(inner), data).Failure? ==>
              r == Failure(EvaluationError(eval(ExpressionPart(inner), data).error))
    ensures r.Failure? ==> eval(ExpressionPart(inner), data).Failure? || (filters.Some? && r.error == MissingFilter)
  {
    JsString.SplitHead(inner, '|');
    var parts := JsString.Split(inner, '|');
    var val :- Evaluate(parts[0], data, eval);
    var result :- if filters.Some? then ApplyFilters(val, parts[1..], filters.value) else Success(val);
    Success(ReplacementText(result))
  }

  /** The replacer index.js hands to String.prototype.replace. */
  function Replacer<D>(data: D, filters: Option<Registry>, eval: Evaluator<D>): string -> Result<string, Error> {
    inner => Render(inner, data, filters, eval)
  }

  /** The exported function. */
  function Interpolate<D>(input: string, data: D, filters: Option<Registry>, eval: Evaluator<D>): (r: Result<string, Error>)
    ensures '{' !in input ==> r == Success(input)
    ensures Scanner.Matches(input, 0) == [] ==> r == Success(input)
  {
    if !HasInterpolation(input) then Success(input)
    else Scanner.ReplaceAll(input, Replacer(data, filters, eval))
  }

  /** The expression part of a captured text: everything before its first `|`. */
  function ExpressionPart(inner: string): string {
    if '|' in inner then inner[..JsString.IndexOf(inner, '|')] else inner
  }

  /** An input without an opening brace is returned as it is. */
  lemma PlainInputUnchanged<D>(input: string, data: D, filters: Option<Registry>, eval: Evaluator<D>)
    requires '{' !in input
    ensures Interpolate(input, data, filters, eval) == Success(input)
  {
  }

  /** The pre-check is only a shortcut: on every input shorter than 2^32 - 1
      characters the result is that of the full replacement. */
  lemma PreCheckIsShortcut<D>(input: string, data: D, filters: Option<Registry>, eval: Evaluator<D>)
    requires |input| < JsString.TWO_TO_32 - 1
    ensures Interpolate(input, data, filters, eval)
            == Scanner.ReplaceAll(input, Replacer(data, filters, eval))
  {
    HasInterpolationShort(input);
    if '{' !in input {
      Scanner.NoMatches(input, 0);
      Scanner.ReplaceAllNoMatch(input, Replacer(data, filters, eval));
    }
  }

  /** An input in which the pattern finds no match is returned as it is. */
  lemma NoMatchUnchanged<D>(input: string, data: D, filters: Option<Registry>, eval: Evaluator<D>)
    requires Scanner.Matches(input, 0) == []
    ensures Interpolate(input, data, filters, eval) == Success(input)
  {
    Scanner.ReplaceAllNoMatch(input, Replacer(data, filters, eval));
  }

  /** When every match renders, the k-th one as rs[k], the output is the
      unmatched stretches of the input, copied verbatim, with the k-th
      rendering between the k-th and the next stretch. */
  lemma InterpolateShape<D>(input: string, data: D, filters: Option<Registry>, eval: Evaluator<D>, rs: seq<string>)
    requires |input| < JsString.TWO_TO_32 - 1
    requires |rs| == |Scanner.Matches(input, 0)|
    requires forall k :: 0 <= k < |rs| ==>
               Render(Scanner.Inner(input, Scanner.Matches(input, 0)[k]), data, filters, eval) == Success(rs[k])
    ensures Interpolate(input, data, filters, eval) == Success(Scanner.Weave(Scanner.Gaps(input, Scanner.Matches(input, 0), 0), rs))
  {
    PreCheckIsShortcut(input, data, filters, eval);
    Scanner.ReplaceAllShape(input, Replacer(data, filters, eval), rs);
  }

  /** An input with a single placeholder: the text before it, its rendering,
      and the text after it. */
  lemma InterpolateOne<D>(input: string, data: D, filters: Option<Registry>, eval: Evaluator<D>, m: Scanner.Match, r: string)
    requires |input| < JsString.TWO_TO_32 - 1
    requires Scanner.Matches(input, 0) == [m]
    requires m.start + 2 <= m.close && m.close + 2 <= |input|
    requires Render(Scanner.Inner(input, m), data, filters, eval) == Success(r)
    ensures Interpolate(input, data, filters, eval) == Success(input[..m.start] + r + input[m.close + 2..])
  {
    InterpolateShape(input, data, filters, eval, [r]);
    Scanner.WeaveOne(input, m, r);
  }

  /** An input with a single placeholder whose rendering fails: the call
      fails with that error. */
  lemma InterpolateOneFails<D>(input: string, data: D, filters: Option<Registry>, eval: Evaluator<D>, m: Scanner.Match, e: Error)
    requires |input| < JsString.TWO_TO_32 - 1
    requires Scanner.Matches(input, 0) == [m]
    requires m.start + 2 <= m.close && m.close + 2 <= |input|
    requires Render(Scanner.Inner(input, m), data, filters, eval) == Failure(e)
    ensures Interpolate(input, data, filters, eval) == Failure(e)
  {
    assert Scanner.FailsFirstAt(input, Replacer(data, filters, eval), 0, e);
    InterpolateFailure(input, data, filters, eval, e);
  }

  /** A call fails exactly when some match fails to render, and then with the
      error of the leftmost one; there is no partial output. */
  lemma InterpolateFailure<D>(input: string, data: D, filters: Option<Registry>, eval: Evaluator<D>, e: Error)
    requires |input| < JsString.TWO_TO_32 - 1
    ensures Interpolate(input, data, filters, eval) == Failure(e)
            <==> exists k :: Scanner.FailsFirstAt(input, Replacer(data, filters, eval), k, e)
  {
    PreCheckIsShortcut(input, data, filters, eval);
    Scanner.ReplaceAllFailure(input, Replacer(data, filters, eval), e);
  }

  /** Without a filter table the pieces after the first `|` are ignored: the
      evaluator receives the text before the first `|`, untrimmed, and its
      value is rendered directly. */
  lemma RenderWithoutFilters<D>(inner: string, data: D, eval: Evaluator<D>)
    ensures Render(inner, data, None, eval)
            == match eval(ExpressionPart(inner), data)
               case Success(v) => Success(ReplacementText(v))
               case Failure(reason) => Failure(EvaluationError(reason))
  {
    JsString.SplitHead(inner, '|');
  }

  /** A captured text without `|` is evaluated as it is and rendered
      directly, whether or not a filter table was given. */
  lemma RenderPlain<D>(inner: string, data: D, filters: Option<Registry>, eval: Evaluator<D>, v: Value)
    requires '|' !in inner
    requires eval(inner, data) == Success(v)
    ensures Render(inner, data, filters, eval) == Success(ReplacementText(v))
  {
    assert forall k :: 0 <= k < |[inner]| ==> '|' !in [inner][k];
    JsString.SplitJoin([inner], '|');
  }

  /** With a filter table, a call to the evaluator that succeeds is followed
      by the filter chain, which fails when a name is missing from it. */
  lemma RenderMissingFilter<D>(inner: string, data: D, registry: Registry, eval: Evaluator<D>, k: nat)
    requires eval(ExpressionPart(inner), data).Success?
    requires 0 < k < |JsString.Split(inner, '|')|
    requires JsString.Trim(JsString.Split(inner, '|')[k]) !in registry
    ensures Render(inner, data, Some(registry), eval) == Failure(MissingFilter)
  {
    var parts := JsString.Split(inner, '|');
    JsString.SplitHead(inner, '|');
    assert parts[1..][k - 1] == parts[k];
    FailsIffMissing(eval(ExpressionPart(inner), data).value, parts[1..], registry);
  }

  /** `expr|f` evaluates expr and applies the filter named by f, trimmed. */
  lemma RenderOneFilter<D>(e: string, f: string, data: D, registry: Registry, eval: Evaluator<D>, v: Value)
    requires '|' !in e && '|' !in f
    requires eval(e, data) == Success(v)
    requires JsString.Trim(f) in registry
    ensures Render(e + "|" + f, data, Some(registry), eval)
            == Success(ReplacementText(registry[JsString.Trim(f)](v)))
  {
    var parts := [e, f];
    assert JsString.Join(parts, '|') == e + "|" + f by {
      assert JsString.Join(parts[1..], '|') == f;
    }
    assert forall k :: 0 <= k < |parts| ==> '|' !in parts[k];
    JsString.SplitJoin(parts, '|');
    assert parts[1..] == [f];
    assert ApplyFilters(v, [f], registry) == Success(registry[JsString.Trim(f)](v)) by {
      assert [f][1..] == [];
    }
  }

  /** `expr|f|g` evaluates expr and then applies f, then g, to its value. */
  lemma RenderChain<D>(e: string, f: string, g: string, data: D, registry: Registry, eval: Evaluator<D>, v: Value)
    requires '|' !in e && '|' !in f && '|' !in g
    requires eval(e, data) == Success(v)
    requires JsString.Trim(f) in registry && JsString.Trim(g) in registry
    ensures Render(e + "|" + f + "|" + g, data, Some(registry), eval)
            == Success(ReplacementText(registry[JsString.Trim(g)](registry[JsString.Trim(f)](v))))
  {
    var parts := [e, f, g];
    assert JsString.Join(parts, '|') == e + "|" + f + "|" + g by {
      assert JsString.Join(parts[2..], '|') == g;
      assert JsString.Join(parts[1..], '|') == f + "|" + g;
    }
    assert forall k :: 0 <= k < |parts| ==> '|' !in parts[k];
    JsString.SplitJoin(parts, '|');
    assert parts[1..] == [f, g];
    ApplyFiltersInOrder(v, f, g, registry);
  }
}
