/** The few JavaScript string operations the interpolator relies on:
    String.prototype.indexOf for one character, the `~` operator applied to its
    result, String.prototype.trim and String.prototype.split with a
    one-character separator. A Dafny char is a Unicode scalar value, so the
    model covers strings without surrogate code units, where each char is one
    JavaScript code unit; positions and lengths here count chars. */
module JsString {

  /** The characters String.prototype.trim removes: the ECMAScript WhiteSpace
      productions (tab, vertical tab, form feed, the byte order mark and every
      Unicode space separator) and the LineTerminator productions (line feed,
      carriage return, line and paragraph separators). */
  predicate IsWhiteSpace(c: char) {
    var n := c as int;
    if n < 0xA0 then n == 0x20 || 0x09 <= n <= 0x0D
    else if n < 0x2000 then n == 0xA0 || n == 0x1680
    else n <= 0x200A || n == 0x2028 || n == 0x2029 || n == 0x202F || n == 0x205F || n == 0x3000 || n == 0xFEFF
  }

  predicate AllWhiteSpace(s: string) {
    forall k :: 0 <= k < |s| ==> IsWhiteSpace(s[k])
  }

  /** s without its leading white space. */
  function TrimStart(s: string): string
    decreases |s|
  {
    if s != [] && IsWhiteSpace(s[0]) then TrimStart(s[1..]) else s
  }

  /** s without its trailing white space. */
  function TrimEnd(s: string): string
    decreases |s|
  {
    if s != [] && IsWhiteSpace(s[|s| - 1]) then TrimEnd(s[..|s| - 1]) else s
  }

  /** String.prototype.trim: it drops white space at both ends and keeps
      everything in between. */
  function Trim(s: string): (r: string)
    ensures |r| <= |s|
    ensures r != [] ==> !IsWhiteSpace(r[0]) && !IsWhiteSpace(r[|r| - 1])
  {
    TrimStartSpec(s);
    TrimEndSpec(TrimStart(s));
    TrimEnd(TrimStart(s))
  }

  /** Everything TrimStart drops is white space, and what it keeps does not
      start with white space. */
  lemma {:induction false} TrimStartSpec(s: string)
    ensures |TrimStart(s)| <= |s| && TrimStart(s) == s[|s| - |TrimStart(s)|..]
    ensures AllWhiteSpace(s[..|s| - |TrimStart(s)|])
    ensures TrimStart(s) != [] ==> !IsWhiteSpace(TrimStart(s)[0])
    decreases |s|
  {
    if s != [] && IsWhiteSpace(s[0]) {
      TrimStartSpec(s[1..]);
      var n := |s| - |TrimStart(s)|;
      forall k | 0 <= k < n ensures IsWhiteSpace(s[..n][k]) {
        if k > 0 { assert s[..n][k] == s[1..][..n - 1][k - 1]; } else { assert s[..n][0] == s[0]; }
      }
    }
  }

  /** Everything TrimEnd drops is white space, and what it keeps does not
      end with white space. */
  lemma {:induction false} TrimEndSpec(s: string)
    ensures |TrimEnd(s)| <= |s| && TrimEnd(s) == s[..|TrimEnd(s)|]
    ensures AllWhiteSpace(s[|TrimEnd(s)|..])
    ensures TrimEnd(s) != [] ==> !IsWhiteSpace(TrimEnd(s)[|TrimEnd(s)| - 1])
    decreases |s|
  {
    if s != [] && IsWhiteSpace(s[|s| - 1]) {
      var t := s[..|s| - 1];
      TrimEndSpec(t);
      var n := |TrimEnd(s)|;
      forall k | n <= k < |s| ensures IsWhiteSpace(s[k]) {
        if k < |s| - 1 { assert t[n..][k - n] == s[k]; }
      }
      assert forall k :: 0 <= k < |s[n..]| ==> s[n..][k] == s[n + k];
    }
  }

  /** TrimStart stops at the first character that is not white space. */
  lemma {:induction false} TrimStartAt(s: string, a: nat)
    requires a <= |s| && AllWhiteSpace(s[..a])
    requires a < |s| ==> !IsWhiteSpace(s[a])
    ensures TrimStart(s) == s[a..]
    decreases a
  {
    if a > 0 {
      assert IsWhiteSpace(s[..a][0]);
      assert s[1..][..a - 1] == s[1..a] && s[1..a] == s[..a][1..];
      TrimStartAt(s[1..], a - 1);
      assert s[1..][a - 1..] == s[a..];
    }
  }

  /** TrimEnd stops at the last character that is not white space. */
  lemma {:induction false} TrimEndAt(s: string, b: nat)
    requires b <= |s| && AllWhiteSpace(s[b..])
    requires 0 < b ==> !IsWhiteSpace(s[b - 1])
    ensures TrimEnd(s) == s[..b]
    decreases |s| - b
  {
    if b < |s| {
      assert IsWhiteSpace(s[b..][|s| - 1 - b]);
      var t := s[..|s| - 1];
      assert t[b..] == s[b..|s| - 1];
      TrimEndAt(t, b);
      assert t[..b] == s[..b];
    }
  }

  /** Trim is determined by where the white space ends: whenever s is white
      space, then s[a..b], then white space again, and s[a..b] neither starts
      nor ends with white space, trimming s gives exactly s[a..b]. */
  lemma TrimCharacterization(s: string, a: nat, b: nat)
    requires a <= b <= |s|
    requires AllWhiteSpace(s[..a]) && AllWhiteSpace(s[b..])
    requires a < b ==> !IsWhiteSpace(s[a]) && !IsWhiteSpace(s[b - 1])
    ensures Trim(s) == s[a..b]
  {
    if a < b {
      TrimStartAt(s, a);
      var t := s[a..];
      assert t[b - a..] == s[b..];
      TrimEndAt(t, b - a);
      assert t[..b - a] == s[a..b];
    } else {
      assert AllWhiteSpace(s) by {
        forall k | 0 <= k < |s| ensures IsWhiteSpace(s[k]) {
          if k < a { assert s[..a][k] == s[k]; } else { assert s[b..][k - b] == s[k]; }
        }
      }
      assert s[..|s|] == s;
      TrimStartAt(s, |s|);
    }
  }

  /** Trimming twice is trimming once. */
  lemma TrimIdempotent(s: string)
    ensures Trim(Trim(s)) == Trim(s)
  {
    var t := Trim(s);
    TrimCharacterization(t, 0, |t|);
  }

  /** Position of the first occurrence of c in s, or -1 when there is none. */
  function IndexOf(s: string, c: char): (k: int)
    ensures -1 <= k < |s|
    ensures k == -1 <==> c !in s
    ensures 0 <= k ==> s[k] == c && c !in s[..k]
    decreases |s|
  {
    if s == [] then -1
    else if s[0] == c then 0
    else
      var k := IndexOf(s[1..], c);
      if k == -1 then -1 else k + 1
  }

  const TWO_TO_32: int := 0x1_0000_0000
  const TWO_TO_31: int := 0x8000_0000

  /** ECMAScript ToInt32 for an integral number: wrap into the signed 32-bit range. */
  function ToInt32(x: int): (r: int)
    ensures -TWO_TO_31 <= r < TWO_TO_31
    ensures (r - x) % TWO_TO_32 == 0
  {
    var m := x % TWO_TO_32;
    if m >= TWO_TO_31 then m - TWO_TO_32 else m
  }

  /** The `~` operator on a number: its 32-bit two's complement. */
  function BitNot(x: int): (r: int)
    ensures -TWO_TO_31 <= r < TWO_TO_31
    ensures (r + x + 1) % TWO_TO_32 == 0
  {
    -ToInt32(x) - 1
  }

  /** `~x` is zero (falsy) exactly when x is -1 modulo 2^32. */
  lemma BitNotZero(x: int)
    ensures BitNot(x) == 0 <==> x % TWO_TO_32 == TWO_TO_32 - 1
  {
  }

  /** String.prototype.split with a one-character separator: the pieces
      between consecutive occurrences of sep, empty pieces included. */
  function Split(s: string, sep: char): (parts: seq<string>)
    ensures |parts| >= 1
    ensures forall k :: 0 <= k < |parts| ==> sep !in parts[k]
    decreases |s|
  {
    if s == [] then [""]
    else
      var rest := Split(s[1..], sep);
      if s[0] == sep then [""] + rest
      else [[s[0]] + rest[0]] + rest[1..]
  }

  /** Array.prototype.join with a one-character separator. */
  function Join(parts: seq<string>, sep: char): string
    requires |parts| >= 1
    decreases |parts|
  {
    if |parts| == 1 then parts[0] else parts[0] + [sep] + Join(parts[1..], sep)
  }

  /** Splitting loses nothing: joining the pieces gives back the string. */
  lemma {:induction false} JoinSplit(s: string, sep: char)
    ensures Join(Split(s, sep), sep) == s
    decreases |s|
  {
    if s != [] {
      JoinSplit(s[1..], sep);
      var rest := Split(s[1..], sep);
      if s[0] == sep {
        assert Split(s, sep) == [""] + rest;
        assert ([""] + rest)[1..] == rest;
      } else {
        var parts := Split(s, sep);
        assert parts[0] == [s[0]] + rest[0];
        if |rest| > 1 {
          assert parts[1..] == rest[1..];
          assert Join(rest, sep) == rest[0] + [sep] + Join(rest[1..], sep);
          assert s == [s[0]] + s[1..];
        } else {
          assert s == [s[0]] + s[1..];
        }
      }
    }
  }

  /** Splitting a string that starts with a separator-free piece. */
  lemma {:induction false} SplitPrefix(a: string, rest: string, sep: char)
    requires sep !in a
    ensures Split(a + rest, sep) == [a + Split(rest, sep)[0]] + Split(rest, sep)[1..]
    decreases |a|
  {
    if a != [] {
      assert (a + rest)[1..] == a[1..] + rest;
      SplitPrefix(a[1..], rest, sep);
      assert [a[0]] + (a[1..] + Split(rest, sep)[0]) == a + Split(rest, sep)[0];
    } else {
      var r := Split(rest, sep);
      assert a + rest == rest && a + r[0] == r[0];
      assert [r[0]] + r[1..] == r;
    }
  }

  /** Joining separator-free pieces and splitting again gives the pieces back. */
  lemma {:induction false} SplitJoin(parts: seq<string>, sep: char)
    requires |parts| >= 1
    requires forall k :: 0 <= k < |parts| ==> sep !in parts[k]
    ensures Split(Join(parts, sep), sep) == parts
    decreases |parts|
  {
    if |parts| == 1 {
      SplitPrefix(parts[0], "", sep);
      assert parts[0] + "" == parts[0];
    } else {
      var tail := Join(parts[1..], sep);
      SplitJoin(parts[1..], sep);
      assert Split([sep] + tail, sep) == [""] + parts[1..];
      assert Join(parts, sep) == parts[0] + ([sep] + tail);
      SplitPrefix(parts[0], [sep] + tail, sep);
      assert parts[0] + "" == parts[0];
      assert ([""] + parts[1..])[1..] == parts[1..];
    }
  }

  /** The first piece is everything before the first separator, untouched. */
  lemma {:induction false} SplitHead(s: string, sep: char)
    ensures Split(s, sep)[0] == if sep in s then s[..IndexOf(s, sep)] else s
    decreases |s|
  {
    if s != [] && s[0] != sep {
      var tail := s[1..];
      SplitHead(tail, sep);
      assert Split(s, sep)[0] == [s[0]] + Split(tail, sep)[0];
      assert s == [s[0]] + tail;
      assert sep in s <==> sep in tail;
      if sep in tail {
        var i := IndexOf(tail, sep);
        assert IndexOf(s, sep) == i + 1;
        assert s[..i + 1] == [s[0]] + tail[..i];
      }
    }
  }
}
