/** The behaviours the project's tests describe, restated for the exported
    function with the evaluator and the filters left open: each lemma fixes
    only what the evaluator and the filters must return for the expressions
    and names that occur in the input. The input is a parameter equal to the
    test's string. */
module Scenarios {
  import opened Wrappers
  import JsString
  import Scanner
  import opened Filters
  import opened Interpolation

  /** A string without placeholders comes back unchanged. */
  lemma PlainString<D>(s: string, data: D, filters: Option<Registry>, eval: Evaluator<D>)
    requires s == "Hello world!"
    ensures Interpolate(s, data, filters, eval) == Success(s)
  {
    assert '{' !in s;
    PlainInputUnchanged(s, data, filters, eval);
  }

  /** "Hello {{world}}!" holds one placeholder, around "world". */
  lemma HelloParts(s: string)
    requires s == "Hello {{world}}!"
    ensures Scanner.Matches(s, 0) == [Scanner.Match(6, 13)]
    ensures Scanner.Inner(s, Scanner.Match(6, 13)) == "world"
    ensures s[..6] == "Hello " && s[15..] == "!"
  {
    assert Scanner.IsMatch(s, 6, 13);
    Scanner.OnlyMatch(s, 6, 13);
  }

  /** One placeholder is replaced by the value of its expression. */
  lemma HelloPluto<D>(s: string, data: D, filters: Option<Registry>, eval: Evaluator<D>)
    requires s == "Hello {{world}}!"
    requires eval("world", data) == Success(Other("Pluto"))
    ensures Interpolate(s, data, filters, eval) == Success("Hello Pluto!")
  {
    HelloParts(s);
    RenderPlain("world", data, filters, eval, Other("Pluto"));
    assert "Hello " + "Pluto" + "!" == "Hello Pluto!";
    InterpolateOne(s, data, filters, eval, Scanner.Match(6, 13), "Pluto");
  }

  /** null and undefined are substituted as the empty string. */
  lemma HelloNothing<D>(s: string, data: D, filters: Option<Registry>, eval: Evaluator<D>, v: Value)
    requires s == "Hello {{world}}!"
    requires v == Null || v == Undefined
    requires eval("world", data) == Success(v)
    ensures Interpolate(s, data, filters, eval) == Success("Hello !")
  {
    HelloParts(s);
    RenderPlain("world", data, filters, eval, v);
    assert "Hello " + "" + "!" == "Hello !";
    InterpolateOne(s, data, filters, eval, Scanner.Match(6, 13), "");
  }

  /** Values such as 0 and false are substituted by their string form, never
      dropped. */
  lemma ZeroAndFalse<D>(s: string, data: D, filters: Option<Registry>, eval: Evaluator<D>, text: string)
    requires s == "{{world}}"
    requires text == "0" || text == "false"
    requires eval("world", data) == Success(Other(text))
    ensures Interpolate(s, data, filters, eval) == Success(text)
  {
    assert Scanner.IsMatch(s, 0, 7);
    Scanner.OnlyMatch(s, 0, 7);
    assert Scanner.Inner(s, Scanner.Match(0, 7)) == "world";
    RenderPlain("world", data, filters, eval, Other(text));
    assert s[..0] + text + s[9..] == text;
    InterpolateOne(s, data, filters, eval, Scanner.Match(0, 7), text);
  }

  /** The captured text "world | f" splits into the untrimmed expression
      "world " and the filter piece " f". */
  lemma PipeSplit(f: string)
    requires '|' !in f
    ensures JsString.Split("world | " + f, '|') == ["world ", " " + f]
  {
    var parts := ["world ", " " + f];
    assert forall k :: 0 <= k < |parts| ==> '|' !in parts[k];
    assert JsString.Join(parts[1..], '|') == " " + f;
    assert JsString.Join(parts, '|') == "world | " + f;
    JsString.SplitJoin(parts, '|');
  }

  /** "Hello {{world | f}}!" holds one placeholder, around "world | f". */
  lemma PipeParts(s: string, f: string)
    requires |f| > 0 && '{' !in f && '}' !in f
    requires s == "Hello {{world | " + f + "}}!"
    ensures Scanner.Matches(s, 0) == [Scanner.Match(6, 16 + |f|)]
    ensures Scanner.Inner(s, Scanner.Match(6, 16 + |f|)) == "world | " + f
    ensures s[..6] == "Hello " && s[18 + |f|..] == "!"
  {
    var j := 16 + |f|;
    assert s[8..j] == "world | " + f;
    assert s[j..] == "}}!";
    assert Scanner.IsMatch(s, 6, j) by {
      forall q | 8 <= q < j ensures s[q] != '}' {
        assert s[q] == s[8..j][q - 8];
      }
    }
    Scanner.OnlyMatch(s, 6, j);
  }

  /** A name written after a single space is looked up without it. */
  lemma TrimLeadingSpace(f: string)
    requires |f| > 0 && forall q :: 0 <= q < |f| ==> !JsString.IsWhiteSpace(f[q])
    ensures JsString.Trim(" " + f) == f
  {
    var t := " " + f;
    assert t[..1] == " " && t[1 + |f|..] == [];
    assert JsString.AllWhiteSpace(t[..1]) && JsString.AllWhiteSpace(t[1 + |f|..]);
    assert t[1] == f[0] && t[|f|] == f[|f| - 1];
    JsString.TrimCharacterization(t, 1, 1 + |f|);
    assert t[1..1 + |f|] == f;
  }

  /** With a table, "world | f" renders the value of "world " passed
      through the filter f; a name missing from the table fails. */
  lemma PipeRender<D>(f: string, data: D, registry: Registry, eval: Evaluator<D>, v: Value)
    requires '|' !in f && |f| > 0 && forall q :: 0 <= q < |f| ==> !JsString.IsWhiteSpace(f[q])
    requires eval("world ", data) == Success(v)
    ensures f in registry ==>
              Render("world | " + f, data, Some(registry), eval) == Success(ReplacementText(registry[f](v)))
    ensures f !in registry ==>
              Render("world | " + f, data, Some(registry), eval) == Failure(MissingFilter)
  {
    PipeSplit(f);
    TrimLeadingSpace(f);
    assert [" " + f][1..] == [];
    if f in registry {
      assert ApplyFilters(v, [" " + f], registry) == Success(registry[f](v));
    }
  }

  /** Without a table, "world | f" renders the value of "world " as it is. */
  lemma PipeRenderNoTable<D>(f: string, data: D, eval: Evaluator<D>, v: Value)
    requires '|' !in f
    requires eval("world ", data) == Success(v)
    ensures Render("world | " + f, data, None, eval) == Success(ReplacementText(v))
  {
    PipeSplit(f);
  }

  /** "Hello {{world | f}}!" becomes "Hello ", the rendering of
      "world | f", and "!". */
  lemma PipeHello<D>(s: string, f: string, data: D, filters: Option<Registry>, eval: Evaluator<D>, r: string)
    requires 0 < |f| < 0x1_0000 && '{' !in f && '}' !in f
    requires s == "Hello {{world | " + f + "}}!"
    requires Render("world | " + f, data, filters, eval) == Success(r)
    ensures Interpolate(s, data, filters, eval) == Success("Hello " + r + "!")
  {
    PipeParts(s, f);
    InterpolateOne(s, data, filters, eval, Scanner.Match(6, 16 + |f|), r);
  }

  /** A filter named after the pipe, " caps" looked up as "caps", receives
      the expression's value, and its output is substituted. The filter's
      name is a parameter equal to "caps". */
  lemma HelloCaps<D>(s: string, name: string, data: D, registry: Registry, eval: Evaluator<D>)
    requires name == "caps" && s == "Hello {{world | " + name + "}}!"
    requires eval("world ", data) == Success(Other("Pluto"))
    requires name in registry && registry[name](Other("Pluto")) == Other("PLUTO")
    ensures Interpolate(s, data, Some(registry), eval) == Success("Hello PLUTO!")
  {
    PipeRender(name, data, registry, eval, Other("Pluto"));
    assert "Hello " + "PLUTO" + "!" == "Hello PLUTO!";
    PipeHello(s, name, data, Some(registry), eval, "PLUTO");
  }

  /** A filter from the table given to the call, "lower", is applied the same
      way. The filter's name is a parameter equal to "lower". */
  lemma HelloLower<D>(s: string, name: string, data: D, registry: Registry, eval: Evaluator<D>)
    requires name == "lower" && s == "Hello {{world | " + name + "}}!"
    requires eval("world ", data) == Success(Other("Pluto"))
    requires name in registry && registry[name](Other("Pluto")) == Other("pluto")
    ensures Interpolate(s, data, Some(registry), eval) == Success("Hello pluto!")
  {
    PipeRender(name, data, registry, eval, Other("Pluto"));
    assert "Hello " + "pluto" + "!" == "Hello pluto!";
    PipeHello(s, name, data, Some(registry), eval, "pluto");
  }

  /** A filter name missing from the given table fails the whole call. */
  lemma HelloMissingFilter<D>(s: string, name: string, data: D, registry: Registry, eval: Evaluator<D>, v: Value)
    requires name == "lower" && s == "Hello {{world | " + name + "}}!"
    requires eval("world ", data) == Success(v)
    requires name !in registry
    ensures Interpolate(s, data, Some(registry), eval) == Failure(MissingFilter)
  {
    PipeParts(s, name);
    PipeRender(name, data, registry, eval, v);
    InterpolateOneFails(s, data, Some(registry), eval, Scanner.Match(6, 21), MissingFilter);
  }

  /** Without a filter table the filter pieces are not looked at: the same
      input is rendered from the expression alone, and nothing fails. */
  lemma HelloNoTable<D>(s: string, name: string, data: D, eval: Evaluator<D>)
    requires name == "lower" && s == "Hello {{world | " + name + "}}!"
    requires eval("world ", data) == Success(Other("Pluto"))
    ensures Interpolate(s, data, None, eval) == Success("Hello Pluto!")
  {
    PipeRenderNoTable(name, data, eval, Other("Pluto"));
    assert "Hello " + "Pluto" + "!" == "Hello Pluto!";
    PipeHello(s, name, data, None, eval, "Pluto");
  }

  /** "{{}}" and "{{a}b}}" hold no placeholder: the pattern needs at least one
      character before the first closing brace, and two closing braces there. */
  lemma NotPlaceholders<D>(s: string, t: string, data: D, filters: Option<Registry>, eval: Evaluator<D>)
    requires s == "{{}}" && t == "{{a}b}}"
    ensures Interpolate(s, data, filters, eval) == Success("{{}}")
    ensures Interpolate(t, data, filters, eval) == Success("{{a}b}}")
  {
    assert forall q :: 0 <= q < |s| ==> !Scanner.StartsMatch(s, q);
    Scanner.MatchesSkip(s, 0, |s|);
    NoMatchUnchanged(s, data, filters, eval);
    forall q: int, j: int ensures !Scanner.IsMatch(t, q, j) {
      if q == 0 && 3 < j {
        assert t[3] == '}';
      }
    }
    Scanner.MatchesSkip(t, 0, |t|);
    NoMatchUnchanged(t, data, filters, eval);
  }
}
