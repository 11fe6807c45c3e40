/** Text operations the core relies on: whitespace trimming as Rust's `str::trim` and
    JavaScript's `String.prototype.trim` do it, and the `ILIKE '%' || p || '%'` test
    PostgreSQL applies in the search query. */
module Text {

  /** Rust's `char::is_whitespace`: the Unicode `White_Space` property. */
  predicate IsRustWhitespace(c: char) {
    ('\t' <= c <= '\r') || c == ' ' || c == '\U{0085}' || c == '\U{00A0}' || c == '\U{1680}'
    || ('\U{2000}' <= c <= '\U{200A}') || c == '\U{2028}' || c == '\U{2029}'
    || c == '\U{202F}' || c == '\U{205F}' || c == '\U{3000}'
  }

  /** JavaScript's WhiteSpace and LineTerminator code points, which `trim` strips.
      Unlike Rust it strips U+FEFF and keeps U+0085. */
  predicate IsJsWhitespace(c: char) {
    ('\t' <= c <= '\r') || c == ' ' || c == '\U{00A0}' || c == '\U{FEFF}' || c == '\U{1680}'
    || ('\U{2000}' <= c <= '\U{200A}') || c == '\U{2028}' || c == '\U{2029}'
    || c == '\U{202F}' || c == '\U{205F}' || c == '\U{3000}'
  }

  predicate AllWhitespace(s: string, isWs: char -> bool) {
    forall k | 0 <= k < |s| :: isWs(s[k])
  }

  /** Drops the leading whitespace: the result is the suffix that starts at the first
      non-whitespace character. */
  function TrimStart(s: string, isWs: char -> bool): (r: string)
    ensures |r| <= |s| && r == s[|s| - |r|..]
    ensures AllWhitespace(s[..|s| - |r|], isWs)
    ensures r != [] ==> !isWs(r[0])
  {
    if s != [] && isWs(s[0]) then
      var r := TrimStart(s[1..], isWs);
      assert s[1..][|s| - 1 - |r|..] == s[|s| - |r|..];
      assert forall k | 1 <= k < |s| - |r| :: s[k] == s[1..][..|s| - 1 - |r|][k - 1];
      r
    else s
  }

  /** Drops the trailing whitespace: the result is the prefix that ends at the last
      non-whitespace character. */
  function TrimEnd(s: string, isWs: char -> bool): (r: string)
    ensures |r| <= |s| && r == s[..|r|]
    ensures AllWhitespace(s[|r|..], isWs)
    ensures r != [] ==> !isWs(r[|r| - 1])
  {
    if s != [] && isWs(s[|s| - 1]) then
      var r := TrimEnd(s[..|s| - 1], isWs);
      assert forall k | |r| <= k < |s| - 1 :: s[k] == s[..|s| - 1][|r|..][k - |r|];
      r
    else s
  }

  /** `r` occurs in `s` at position `i`. */
  predicate SliceAt(s: string, r: string, i: int) {
    0 <= i && i + |r| <= |s| && s[i..i + |r|] == r
  }

  /** Both ends trimmed; `Trim(s, IsRustWhitespace)` is Rust's `trim`,
      `Trim(s, IsJsWhitespace)` is JavaScript's. */
  function Trim(s: string, isWs: char -> bool): (r: string)
    ensures |r| <= |s|
    ensures r == [] <==> AllWhitespace(s, isWs)
    ensures r != [] ==> !isWs(r[0]) && !isWs(r[|r| - 1])
    ensures exists i :: SliceAt(s, r, i)
  {
    var t := TrimStart(s, isWs);
    var r := TrimEnd(t, isWs);
    TrimParts(s, t, r, isWs);
    r
  }

  lemma TrimParts(s: string, t: string, r: string, isWs: char -> bool)
    requires |t| <= |s| && t == s[|s| - |t|..] && AllWhitespace(s[..|s| - |t|], isWs)
    requires |r| <= |t| && r == t[..|r|] && AllWhitespace(t[|r|..], isWs)
    requires r != [] ==> !isWs(r[0])
    ensures SliceAt(s, r, |s| - |t|)
    ensures r == [] <==> AllWhitespace(s, isWs)
  {
    var n := |s| - |t|;
    assert t == s[n..];
    assert r == t[..|r|];
    assert s[n..n + |r|] == r;
    if r == [] {
      assert t[|r|..] == t == s[n..];
      BlankWhenBothEndsBlank(s, n, isWs);
    } else {
      assert r[0] == s[n];
      assert !AllWhitespace(s, isWs);
    }
  }

  lemma BlankWhenBothEndsBlank(s: string, n: nat, isWs: char -> bool)
    requires n <= |s|
    requires AllWhitespace(s[..n], isWs) && AllWhitespace(s[n..], isWs)
    ensures AllWhitespace(s, isWs)
  {
    forall k | 0 <= k < |s| ensures isWs(s[k]) {
      if k >= n {
        assert s[k] == s[n..][k - n];
      } else {
        assert s[k] == s[..n][k];
      }
    }
  }

  /** Trimming a trimmed string changes nothing. */
  lemma {:induction false} TrimIdempotent(s: string, isWs: char -> bool)
    ensures Trim(Trim(s, isWs), isWs) == Trim(s, isWs)
  {
    var r := Trim(s, isWs);
    if r != [] {
      assert TrimStart(r, isWs) == r;
      assert TrimEnd(r, isWs) == r;
    }
  }

  /** Leading whitespace in front of a string that does not start with whitespace is
      exactly what `TrimStart` drops. */
  lemma {:induction false} TrimStartPadded(pre: string, u: string, isWs: char -> bool)
    requires AllWhitespace(pre, isWs)
    requires u != [] ==> !isWs(u[0])
    ensures TrimStart(pre + u, isWs) == u
  {
    if pre != [] {
      assert (pre + u)[1..] == pre[1..] + u;
      TrimStartPadded(pre[1..], u, isWs);
    } else {
      assert pre + u == u;
    }
  }

  /** Trailing whitespace after a string that does not end with whitespace is exactly
      what `TrimEnd` drops. */
  lemma {:induction false} TrimEndPadded(u: string, post: string, isWs: char -> bool)
    requires AllWhitespace(post, isWs)
    requires u != [] ==> !isWs(u[|u| - 1])
    ensures TrimEnd(u + post, isWs) == u
  {
    if post != [] {
      var shorter := post[..|post| - 1];
      assert (u + post)[..|u + post| - 1] == u + shorter;
      TrimEndPadded(u, shorter, isWs);
    } else {
      assert u + post == u;
    }
  }

  /** `Trim` recovers a string from any whitespace padding around it. */
  lemma TrimPadded(pre: string, u: string, post: string, isWs: char -> bool)
    requires AllWhitespace(pre, isWs) && AllWhitespace(post, isWs)
    requires u != [] ==> !isWs(u[0]) && !isWs(u[|u| - 1])
    ensures Trim(pre + u + post, isWs) == u
  {
    var s := pre + u + post;
    if u != [] {
      assert s == pre + (u + post);
      assert (u + post)[0] == u[0];
      TrimStartPadded(pre, u + post, isWs);
      TrimEndPadded(u, post, isWs);
    } else {
      assert s[..|pre|] == pre && s[|pre|..] == post;
      BlankWhenBothEndsBlank(s, |pre|, isWs);
    }
  }

  /** ASCII case folding; the locale-dependent folding of other letters is not part of this model. */
  function FoldChar(c: char): (d: char)
    ensures 'A' <= c <= 'Z' ==> 'a' <= d <= 'z' && d as int == c as int + 32
    ensures !('A' <= c <= 'Z') ==> d == c
  {
    if 'A' <= c <= 'Z' then (c as int + 32) as char else c
  }

  function Lower(s: string): (r: string)
    ensures |r| == |s|
    ensures forall k | 0 <= k < |s| :: r[k] == FoldChar(s[k])
  {
    seq(|s|, k requires 0 <= k < |s| => FoldChar(s[k]))
  }

  predicate ContainsInfix(hay: string, needle: string) {
    exists i | 0 <= i <= |hay| :: SliceAt(hay, needle, i)
  }

  /** Folding twice is folding once. */
  lemma {:induction false} LowerIdempotent(s: string)
    ensures Lower(Lower(s)) == Lower(s)
  {
    var once := Lower(s);
    forall k | 0 <= k < |s| ensures Lower(once)[k] == once[k] {
      assert Lower(once)[k] == FoldChar(FoldChar(s[k]));
    }
  }

  /** `value ILIKE '%' || pattern || '%'` with `%`, `_` and `\` in `pattern` taken
      literally. */
  predicate ILikeInfix(value: string, pattern: string)
    ensures ILikeInfix(value, pattern) ==> |pattern| <= |value|
  {
    ContainsInfix(Lower(value), Lower(pattern))
  }

  /** ILIKE ignores ASCII case on both sides: folding the value or the pattern first
      changes no answer. */
  lemma ILikeIgnoresCase(value: string, pattern: string)
    ensures ILikeInfix(value, pattern) <==> ILikeInfix(value, Lower(pattern))
    ensures ILikeInfix(value, pattern) <==> ILikeInfix(Lower(value), pattern)
  {
    LowerIdempotent(value);
    LowerIdempotent(pattern);
  }

  /** The empty pattern (`ILIKE '%%'`) matches every value, and a value matches itself. */
  lemma ILikeBasics(value: string)
    ensures ILikeInfix(value, "")
    ensures ILikeInfix(value, value)
  {
    assert SliceAt(Lower(value), Lower(""), 0);
    assert SliceAt(Lower(value), Lower(value), 0);
  }
}
