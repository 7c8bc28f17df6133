/** The scan that String.prototype.replace performs with the fixed global
    pattern /\{\{([^}]+)\}\}/g, written out by hand, and the substitution that
    follows it: every match is collected first, left to right, and then each
    one is replaced by what the replacer function returns for its captured
    text, while the text between matches is copied unchanged. */
module Scanner {
  import opened Wrappers

  /** A match that starts at `start` and whose first closing brace is at
      `close`: its text is s[start..close + 2] and the text the capture group
      holds is s[start + 2..close]. */
  datatype Match = Match(start: nat, close: nat)

  /** The pattern matches s[i..j + 2]: two opening braces, one or more
      characters none of which is a closing brace, two closing braces. */
  predicate IsMatch(s: string, i: int, j: int) {
    0 <= i && i + 2 < j && j + 1 < |s|
    && s[i] == '{' && s[i + 1] == '{' && s[j] == '}' && s[j + 1] == '}'
    && forall k :: i + 2 <= k < j ==> s[k] != '}'
  }

  /** Some match of the pattern starts at position i. */
  ghost predicate StartsMatch(s: string, i: int) {
    exists j :: IsMatch(s, i, j)
  }

  /** A match that starts at i can end in one place only: the negated class
      [^}]+ cannot pass the first closing brace. */
  lemma IsMatchUnique(s: string, i: int, j1: int, j2: int)
    requires IsMatch(s, i, j1) && IsMatch(s, i, j2)
    ensures j1 == j2
  {
  }

  /** The first closing brace at or after k, or |s| when there is none. */
  function FindClose(s: string, k: nat): (j: nat)
    requires k <= |s|
    ensures k <= j <= |s|
    ensures j < |s| ==> s[j] == '}'
    ensures forall m :: k <= m < j ==> s[m] != '}'
    decreases |s| - k
  {
    if k == |s| || s[k] == '}' then k else FindClose(s, k + 1)
  }

  /** One attempt of the pattern at position i: the position of the match's
      first closing brace, or None when the attempt fails. */
  function MatchAt(s: string, i: nat): (r: Option<nat>)
    ensures r.Some? ==> IsMatch(s, i, r.value)
    ensures r.None? ==> !StartsMatch(s, i)
  {
    if i + 1 < |s| && s[i] == '{' && s[i + 1] == '{' then
      var j := FindClose(s, i + 2);
      if i + 2 < j && j + 1 < |s| && s[j + 1] == '}' then Some(j) else None
    else None
  }

  /** Every match the global pattern finds in s from position i on: after a
      match the scan resumes just past its closing braces, after a failed
      attempt one position further. The matches are genuine and disjoint,
      and they come in the order of their positions. */
  function Matches(s: string, i: nat): (ms: seq<Match>)
    requires i <= |s|
    ensures forall k :: 0 <= k < |ms| ==> i <= ms[k].start && IsMatch(s, ms[k].start, ms[k].close)
    ensures forall k, l :: 0 <= k < l < |ms| ==> ms[k].close + 2 <= ms[l].start
    decreases |s| - i
  {
    if i == |s| then []
    else
      match MatchAt(s, i)
      case Some(j) => [Match(i, j)] + Matches(s, j + 2)
      case None => Matches(s, i + 1)
  }

  /** Position p lies inside one of the matches ms, braces included. */
  predicate Covers(ms: seq<Match>, p: int) {
    exists k :: 0 <= k < |ms| && ms[k].start <= p < ms[k].close + 2
  }

  /** A match covers the positions from its opening to its closing braces. */
  lemma CoversHead(m: Match, ms: seq<Match>, p: int)
    requires m.start <= p < m.close + 2
    ensures Covers([m] + ms, p)
  {
    assert ([m] + ms)[0] == m;
  }

  /** Putting a match in front keeps what the others cover. */
  lemma CoversCons(m: Match, ms: seq<Match>, p: int)
    requires Covers(ms, p)
    ensures Covers([m] + ms, p)
  {
    var k :| 0 <= k < |ms| && ms[k].start <= p < ms[k].close + 2;
    assert ([m] + ms)[k + 1] == ms[k];
  }

  /** The scan is leftmost-first and misses nothing: every position from i on
      where the pattern could start is either the start of a reported match
      or lies inside one reported earlier. */
  lemma {:induction false} MatchesLeftmost(s: string, i: nat, p: int)
    requires i <= p && StartsMatch(s, p)
    ensures Covers(Matches(s, i), p)
    decreases |s| - i
  {
    var q :| IsMatch(s, p, q);
    MatchesLeftmostFrom(s, i, p, q);
  }

  lemma {:induction false} MatchesLeftmostFrom(s: string, i: nat, p: nat, q: nat)
    requires i <= p && IsMatch(s, p, q)
    ensures Covers(Matches(s, i), p)
    decreases |s| - i, 1
  {
    match MatchAt(s, i)
    case None =>
      assert p != i;
      MatchesMissed(s, i);
      MatchesLeftmostFrom(s, i + 1, p, q);
    case Some(j) =>
      MatchesFound(s, i, j);
      MatchesLeftmostFound(s, i, j, p, q);
  }

  lemma {:induction false} MatchesLeftmostFound(s: string, i: nat, j: nat, p: nat, q: nat)
    requires i <= p && IsMatch(s, p, q)
    requires i < j && j + 2 <= |s| && Matches(s, i) == [Match(i, j)] + Matches(s, j + 2)
    ensures Covers(Matches(s, i), p)
    decreases |s| - i, 0
  {
    var rest := Matches(s, j + 2);
    if p < j + 2 {
      CoversHead(Match(i, j), rest, p);
    } else {
      MatchesLeftmostFrom(s, j + 2, p, q);
      CoversCons(Match(i, j), rest, p);
    }
  }

  /** When the attempt at i fails, the scan goes on from i + 1. */
  lemma MatchesMissed(s: string, i: nat)
    requires i < |s| && MatchAt(s, i) == None
    ensures Matches(s, i) == Matches(s, i + 1)
  {
  }

  /** When the attempt at i finds the closing braces at j, the match is
      reported and the scan resumes after them. */
  lemma MatchesFound(s: string, i: nat, j: nat)
    requires i <= |s| && MatchAt(s, i) == Some(j)
    ensures Matches(s, i) == [Match(i, j)] + Matches(s, j + 2)
  {
  }

  /** Positions where the pattern cannot start are passed over one by one. */
  lemma {:induction false} MatchesSkip(s: string, i: nat, p: nat)
    requires i <= p <= |s|
    requires forall q :: i <= q < p ==> !StartsMatch(s, q)
    ensures Matches(s, i) == Matches(s, p)
    decreases p - i
  {
    if i < p {
      assert !StartsMatch(s, i);
      MatchesSkip(s, i + 1, p);
    }
  }

  /** A match at i is reported, and the scan resumes after its closing braces. */
  lemma MatchesHit(s: string, i: nat, j: nat)
    requires IsMatch(s, i, j)
    ensures Matches(s, i) == [Match(i, j)] + Matches(s, j + 2)
  {
    var r := MatchAt(s, i);
    assert StartsMatch(s, i);
    IsMatchUnique(s, i, j, r.value);
  }

  /** Text without opening braces is passed over. */
  lemma SkipBraceFree(s: string, i: nat, p: nat)
    requires i <= p <= |s|
    requires '{' !in s[i..p]
    ensures Matches(s, i) == Matches(s, p)
  {
    forall q | i <= q < p ensures !StartsMatch(s, q) {
      assert s[q] == s[i..p][q - i];
    }
    MatchesSkip(s, i, p);
  }

  /** A match with no opening brace before or after it is the only one. */
  lemma OnlyMatch(s: string, i: nat, j: nat)
    requires IsMatch(s, i, j)
    requires '{' !in s[..i] && '{' !in s[j + 2..]
    ensures Matches(s, 0) == [Match(i, j)]
  {
    assert s[0..i] == s[..i] && s[j + 2..|s|] == s[j + 2..];
    SkipBraceFree(s, 0, i);
    MatchesHit(s, i, j);
    SkipBraceFree(s, j + 2, |s|);
  }

  /** The scan reports nothing exactly when the pattern can start nowhere. */
  lemma NoMatches(s: string, i: nat)
    requires i <= |s|
    ensures Matches(s, i) == [] <==> forall p :: i <= p ==> !StartsMatch(s, p)
  {
    var ms := Matches(s, i);
    if ms == [] {
      forall p | i <= p ensures !StartsMatch(s, p) {
        if StartsMatch(s, p) { MatchesLeftmost(s, i, p); }
      }
    } else {
      assert IsMatch(s, ms[0].start, ms[0].close);
      assert i <= ms[0].start && StartsMatch(s, ms[0].start);
    }
  }

  /** The captured text of a match, which the replacer receives. */
  function Inner(s: string, m: Match): string
    requires m.start + 2 <= m.close <= |s|
  {
    s[m.start + 2..m.close]
  }

  /** The whole text of a match. */
  function Text(s: string, m: Match): string
    requires m.start <= m.close && m.close + 2 <= |s|
  {
    s[m.start..m.close + 2]
  }

  /** ms lies in s, in order and without overlap, at or after pos. */
  predicate Chain(s: string, ms: seq<Match>, pos: nat) {
    pos <= |s|
    && (forall k :: 0 <= k < |ms| ==> ms[k].start + 2 <= ms[k].close && ms[k].close + 2 <= |s|)
    && (ms != [] ==> pos <= ms[0].start)
    && (forall k, l :: 0 <= k < l < |ms| ==> ms[k].close + 2 <= ms[l].start)
  }

  lemma ChainTail(s: string, ms: seq<Match>, pos: nat)
    requires Chain(s, ms, pos) && ms != []
    ensures Chain(s, ms[1..], ms[0].close + 2)
  {
    assert forall k :: 0 <= k < |ms| - 1 ==> ms[1..][k] == ms[k + 1];
  }

  lemma MatchesChain(s: string, i: nat)
    requires i <= |s|
    ensures Chain(s, Matches(s, i), i)
  {
  }

  /** The replacement phase: call the replacer on each match in order, stop
      at the first failure, otherwise splice the replacements between the
      unmatched stretches of s. */
  function Substitute<E>(s: string, ms: seq<Match>, f: string -> Result<string, E>, pos: nat): (r: Result<string, E>)
    requires Chain(s, ms, pos)
    ensures ms == [] ==> r == Success(s[pos..])
    ensures r.Failure? ==> ms != []
    decreases |ms|
  {
    if ms == [] then Success(s[pos..])
    else
      var r :- f(Inner(s, ms[0]));
      ChainTail(s, ms, pos);
      var rest :- Substitute(s, ms[1..], f, ms[0].close + 2);
      Success(s[pos..ms[0].start] + r + rest)
  }

  /** String.prototype.replace with the fixed global pattern and a replacer
      function that receives the captured text. */
  function ReplaceAll<E>(s: string, f: string -> Result<string, E>): (r: Result<string, E>)
    ensures Matches(s, 0) == [] ==> r == Success(s)
  {
    MatchesChain(s, 0);
    Substitute(s, Matches(s, 0), f, 0)
  }

  /** The unmatched stretches of s: before the first match, between
      consecutive matches and after the last one. */
  function Gaps(s: string, ms: seq<Match>, pos: nat): (gs: seq<string>)
    requires Chain(s, ms, pos)
    ensures |gs| == |ms| + 1
    decreases |ms|
  {
    if ms == [] then [s[pos..]]
    else ChainTail(s, ms, pos); [s[pos..ms[0].start]] + Gaps(s, ms[1..], ms[0].close + 2)
  }

  /** gs[0] + rs[0] + gs[1] + rs[1] + ... + gs[|rs|]. */
  function Weave(gs: seq<string>, rs: seq<string>): string
    requires |gs| == |rs| + 1
    decreases |rs|
  {
    if rs == [] then gs[0] else gs[0] + rs[0] + Weave(gs[1..], rs[1..])
  }

  /** With a single match the output is the text before it, the
      replacement, and the text after it. */
  lemma WeaveOne(s: string, m: Match, r: string)
    requires Chain(s, [m], 0)
    ensures Weave(Gaps(s, [m], 0), [r]) == s[..m.start] + r + s[m.close + 2..]
  {
    assert [m][1..] == [];
    assert Gaps(s, [m], 0) == [s[0..m.start], s[m.close + 2..]];
  }

  /** The match texts of ms, in order. */
  function Texts(s: string, ms: seq<Match>, pos: nat): (ts: seq<string>)
    requires Chain(s, ms, pos)
    ensures |ts| == |ms|
    decreases |ms|
  {
    if ms == [] then [] else ChainTail(s, ms, pos); [Text(s, ms[0])] + Texts(s, ms[1..], ms[0].close + 2)
  }

  /** Three consecutive slices of s make up the suffix they start. */
  lemma SliceThree(s: string, a: nat, b: nat, c: nat)
    requires a <= b <= c <= |s|
    ensures s[a..b] + s[b..c] + s[c..] == s[a..]
  {
  }

  /** Putting the match texts back between the gaps rebuilds the input:
      gaps and matches together tile s[pos..] without loss or overlap. */
  lemma {:induction false} WeaveGapsTexts(s: string, ms: seq<Match>, pos: nat)
    requires Chain(s, ms, pos)
    ensures Weave(Gaps(s, ms, pos), Texts(s, ms, pos)) == s[pos..]
    decreases |ms|
  {
    if ms != [] {
      ChainTail(s, ms, pos);
      var m := ms[0];
      var gs, ts := Gaps(s, ms, pos), Texts(s, ms, pos);
      WeaveGapsTexts(s, ms[1..], m.close + 2);
      assert gs[0] == s[pos..m.start] && gs[1..] == Gaps(s, ms[1..], m.close + 2);
      assert ts[0] == s[m.start..m.close + 2] && ts[1..] == Texts(s, ms[1..], m.close + 2);
      assert Weave(gs, ts) == gs[0] + ts[0] + Weave(gs[1..], ts[1..]);
      SliceThree(s, pos, m.start, m.close + 2);
    }
  }

  /** When the replacer succeeds on every match, the output is the gaps of
      the input, copied verbatim, with the k-th replacement between the k-th
      and the next gap; the replacements are never scanned again. */
  lemma {:induction false} SubstituteShape<E>(s: string, ms: seq<Match>, f: string -> Result<string, E>, pos: nat, rs: seq<string>)
    requires Chain(s, ms, pos) && |rs| == |ms|
    requires forall k :: 0 <= k < |ms| ==> f(Inner(s, ms[k])) == Success(rs[k])
    ensures Substitute(s, ms, f, pos) == Success(Weave(Gaps(s, ms, pos), rs))
    decreases |ms|
  {
    if ms != [] {
      ChainTail(s, ms, pos);
      assert f(Inner(s, ms[0])) == Success(rs[0]);
      forall k | 0 <= k < |ms| - 1 ensures f(Inner(s, ms[1..][k])) == Success(rs[1..][k]) {
        assert ms[1..][k] == ms[k + 1];
      }
      SubstituteShape(s, ms[1..], f, ms[0].close + 2, rs[1..]);
      assert Gaps(s, ms, pos)[1..] == Gaps(s, ms[1..], ms[0].close + 2);
    }
  }

  /** The k-th of ms is the first match on which f fails, and it fails
      with e. */
  ghost predicate FirstFailure<E>(s: string, ms: seq<Match>, f: string -> Result<string, E>, k: int, e: E)
    requires forall k :: 0 <= k < |ms| ==> ms[k].start + 2 <= ms[k].close <= |s|
  {
    0 <= k < |ms| && f(Inner(s, ms[k])) == Failure(e)
    && forall k' :: 0 <= k' < k ==> f(Inner(s, ms[k'])).Success?
  }

  /** Past a first match on which f succeeds, the first failure moves one
      place down the list. */
  lemma FirstFailureShift<E>(s: string, ms: seq<Match>, f: string -> Result<string, E>, k: int, e: E)
    requires forall k :: 0 <= k < |ms| ==> ms[k].start + 2 <= ms[k].close <= |s|
    requires ms != [] && f(Inner(s, ms[0])).Success?
    ensures FirstFailure(s, ms, f, k + 1, e) <==> FirstFailure(s, ms[1..], f, k, e)
  {
    var tail := ms[1..];
    if FirstFailure(s, tail, f, k, e) {
      assert ms[k + 1] == tail[k];
      forall k' | 0 <= k' < k + 1 ensures f(Inner(s, ms[k'])).Success? {
        if k' > 0 { assert ms[k'] == tail[k' - 1]; }
      }
    }
    if FirstFailure(s, ms, f, k + 1, e) {
      assert ms[k + 1] == tail[k];
      forall k' | 0 <= k' < k ensures f(Inner(s, tail[k'])).Success? {
        assert tail[k'] == ms[k' + 1];
      }
    }
  }

  /** The replacement fails exactly when the replacer fails on some match,
      and then with the error of the leftmost such match: no later match is
      looked at and no partial output is produced. */
  lemma {:induction false} SubstituteFailure<E>(s: string, ms: seq<Match>, f: string -> Result<string, E>, pos: nat, e: E)
    requires Chain(s, ms, pos)
    ensures Substitute(s, ms, f, pos) == Failure(e) <==> exists k :: FirstFailure(s, ms, f, k, e)
    decreases |ms|
  {
    if ms != [] {
      ChainTail(s, ms, pos);
      var tail := ms[1..];
      SubstituteFailure(s, tail, f, ms[0].close + 2, e);
      if f(Inner(s, ms[0])).Success? {
        if exists k :: FirstFailure(s, ms, f, k, e) {
          var k :| FirstFailure(s, ms, f, k, e);
          FirstFailureShift(s, ms, f, k - 1, e);
        }
        if exists k :: FirstFailure(s, tail, f, k, e) {
          var k :| FirstFailure(s, tail, f, k, e);
          FirstFailureShift(s, ms, f, k, e);
        }
      } else if exists k :: FirstFailure(s, ms, f, k, e) {
        var k :| FirstFailure(s, ms, f, k, e);
        assert k == 0;
      } else {
        assert !FirstFailure(s, ms, f, 0, e);
      }
    }
  }

  /** The k-th match of s is the first one on which f fails, and it fails with e. */
  ghost predicate FailsFirstAt<E>(s: string, f: string -> Result<string, E>, k: int, e: E) {
    FirstFailure(s, Matches(s, 0), f, k, e)
  }

  /** The replacement fails exactly when the replacer fails on some match of
      s, with the error of the leftmost such match. */
  lemma ReplaceAllFailure<E>(s: string, f: string -> Result<string, E>, e: E)
    ensures ReplaceAll(s, f) == Failure(e) <==> exists k :: FailsFirstAt(s, f, k, e)
  {
    var ms := Matches(s, 0);
    MatchesChain(s, 0);
    SubstituteFailure(s, ms, f, 0, e);
    if exists k :: FirstFailure(s, ms, f, k, e) {
      var k :| FirstFailure(s, ms, f, k, e);
      assert FailsFirstAt(s, f, k, e);
    }
    if exists k :: FailsFirstAt(s, f, k, e) {
      var k :| FailsFirstAt(s, f, k, e);
      assert FirstFailure(s, ms, f, k, e);
    }
  }

  /** When the replacer succeeds on every match of s, with the k-th result
      rs[k], the replacement weaves rs between the gaps of s. */
  lemma ReplaceAllShape<E>(s: string, f: string -> Result<string, E>, rs: seq<string>)
    requires |rs| == |Matches(s, 0)|
    requires forall k :: 0 <= k < |rs| ==> f(Inner(s, Matches(s, 0)[k])) == Success(rs[k])
    ensures ReplaceAll(s, f) == Success(Weave(Gaps(s, Matches(s, 0), 0), rs))
  {
    MatchesChain(s, 0);
    SubstituteShape(s, Matches(s, 0), f, 0, rs);
  }

  /** Replacing every match with its own text gives back the input. */
  lemma ReplaceAllRoundTrip<E>(s: string, f: string -> Result<string, E>)
    requires forall t :: f(t) == Success("{{" + t + "}}")
    ensures ReplaceAll(s, f) == Success(s)
  {
    var ms := Matches(s, 0);
    MatchesChain(s, 0);
    var ts := Texts(s, ms, 0);
    TextsOfMatches(s, ms, 0);
    SubstituteShape(s, ms, f, 0, ts);
    WeaveGapsTexts(s, ms, 0);
  }

  /** Texts lists the text of every match, in order. */
  lemma {:induction false} TextsAt(s: string, ms: seq<Match>, pos: nat, k: nat)
    requires Chain(s, ms, pos) && k < |ms|
    ensures Texts(s, ms, pos)[k] == Text(s, ms[k])
    decreases k
  {
    if k > 0 {
      ChainTail(s, ms, pos);
      TextsAt(s, ms[1..], ms[0].close + 2, k - 1);
      assert ms[1..][k - 1] == ms[k];
    }
  }

  /** The text of each match is its captured text between double braces. */
  lemma TextsOfMatches(s: string, ms: seq<Match>, pos: nat)
    requires Chain(s, ms, pos)
    requires forall k :: 0 <= k < |ms| ==> IsMatch(s, ms[k].start, ms[k].close)
    ensures forall k :: 0 <= k < |ms| ==> Texts(s, ms, pos)[k] == "{{" + Inner(s, ms[k]) + "}}"
  {
    forall k | 0 <= k < |ms| ensures Texts(s, ms, pos)[k] == "{{" + Inner(s, ms[k]) + "}}" {
      TextsAt(s, ms, pos, k);
      TextOfMatch(s, ms[k]);
    }
  }

  lemma TextOfMatch(s: string, m: Match)
    requires IsMatch(s, m.start, m.close)
    ensures Text(s, m) == "{{" + Inner(s, m) + "}}"
  {
    var i, j := m.start, m.close;
    assert s[i..i + 2] == "{{" && s[j..j + 2] == "}}";
    assert s[i..j + 2] == s[i..i + 2] + s[i + 2..j] + s[j..j + 2];
  }

  /** With no match in s the replacement returns s itself. */
  lemma ReplaceAllNoMatch<E>(s: string, f: string -> Result<string, E>)
    requires Matches(s, 0) == []
    ensures ReplaceAll(s, f) == Success(s)
  {
    assert s[0..] == s;
  }
}
