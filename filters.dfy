/** Values, errors and the filter chain: executeFilters in index.js, which
    looks each trimmed filter name up in a name-to-function table and feeds
    the value through the filters from left to right. */
module Filters {
  import opened Wrappers
  import JsString

  /** What an expression evaluates to, as far as the interpolator tells values
      apart: null, undefined, or any other value, kept as the string the host
      turns it into when it is substituted (so 0 is Other("0") and false is
      Other("false")). */
  datatype Value = Null | Undefined | Other(text: string)

  /** Why a call fails: the evaluator rejected an expression (its reason is
      passed on unchanged), or a filter name has no entry in the table. */
  datatype Error = EvaluationError(reason: string) | MissingFilter

  /** The filter table: filter name to filter function. */
  type Registry = map<string, Value -> Value>

  /** The filter chain as a left fold: each name is trimmed and looked up,
      a missing one fails the chain, a present one maps the value on to the
      next filter. A chain can fail in no other way. */
  function ApplyFilters(v: Value, names: seq<string>, registry: Registry): (r: Result<Value, Error>)
    ensures r.Failure? ==> r.error == MissingFilter
    decreases |names|
  {
    if names == [] then Success(v)
    else
      var key := JsString.Trim(names[0]);
      if key !in registry then Failure(MissingFilter)
      else ApplyFilters(registry[key](v), names[1..], registry)
  }

  /** executeFilters: consume the names front to back, replacing the value
      by each filter's output, and fail on the first name with no filter. */
  method ExecuteFilters(val: Value, types: seq<string>, filters: Registry) returns (r: Result<Value, Error>)
    ensures r == ApplyFilters(val, types, filters)
  {
    var v := val;
    var rest := types;
    while |rest| > 0
      invariant ApplyFilters(v, rest, filters) == ApplyFilters(val, types, filters)
      decreases |rest|
    {
      var name := JsString.Trim(rest[0]);
      rest := rest[1..];
      if name !in filters {
        return Failure(MissingFilter);
      }
      v := filters[name](v);
    }
    return Success(v);
  }

  /** A chain fails exactly when one of its names, trimmed, is not in the table. */
  lemma {:induction false} FailsIffMissing(v: Value, names: seq<string>, registry: Registry)
    ensures ApplyFilters(v, names, registry).Failure?
            <==> exists k :: 0 <= k < |names| && JsString.Trim(names[k]) !in registry
    decreases |names|
  {
    if names != [] {
      var key := JsString.Trim(names[0]);
      if key in registry {
        FailsIffMissing(registry[key](v), names[1..], registry);
        if exists k :: 0 <= k < |names| && JsString.Trim(names[k]) !in registry {
          var k :| 0 <= k < |names| && JsString.Trim(names[k]) !in registry;
          assert names[1..][k - 1] == names[k];
        }
        if exists k :: 0 <= k < |names| - 1 && JsString.Trim(names[1..][k]) !in registry {
          var k :| 0 <= k < |names| - 1 && JsString.Trim(names[1..][k]) !in registry;
          assert names[k + 1] == names[1..][k];
        }
      } else {
        assert JsString.Trim(names[0]) !in registry;
      }
    }
  }

  /** Running a chain a + b runs a, then b on a's output; a failure in a
      stops the chain before b. */
  lemma {:induction false} ApplyFiltersAppend(v: Value, a: seq<string>, b: seq<string>, registry: Registry)
    ensures ApplyFilters(v, a + b, registry)
            == match ApplyFilters(v, a, registry)
               case Success(w) => ApplyFilters(w, b, registry)
               case Failure(e) => Failure(e)
    decreases |a|
  {
    if a == [] {
      assert a + b == b;
    } else {
      assert (a + b)[0] == a[0] && (a + b)[1..] == a[1..] + b;
      var key := JsString.Trim(a[0]);
      if key in registry {
        ApplyFiltersAppend(registry[key](v), a[1..], b, registry);
      }
    }
  }

  /** Two filters in a row compose: the second receives the first's output. */
  lemma ApplyFiltersInOrder(v: Value, f: string, g: string, registry: Registry)
    requires JsString.Trim(f) in registry && JsString.Trim(g) in registry
    ensures ApplyFilters(v, [f, g], registry)
            == Success(registry[JsString.Trim(g)](registry[JsString.Trim(f)](v)))
  {
    ApplyFiltersAppend(v, [f], [g], registry);
    assert [f] + [g] == [f, g];
  }

  /** Names are looked up trimmed: two chains whose names trim to the same
      keys, position by position, behave the same. */
  lemma {:induction false} SameKeysSameChain(v: Value, names: seq<string>, names': seq<string>, registry: Registry)
    requires |names| == |names'|
    requires forall k :: 0 <= k < |names| ==> JsString.Trim(names[k]) == JsString.Trim(names'[k])
    ensures ApplyFilters(v, names, registry) == ApplyFilters(v, names', registry)
    decreases |names|
  {
    if names != [] {
      var key := JsString.Trim(names[0]);
      assert JsString.Trim(names'[0]) == key;
      if key in registry {
        assert forall k :: 0 <= k < |names| - 1 ==> names[1..][k] == names[k + 1] && names'[1..][k] == names'[k + 1];
        SameKeysSameChain(registry[key](v), names[1..], names'[1..], registry);
      }
    }
  }
}
