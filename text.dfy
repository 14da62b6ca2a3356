/**
  The pieces of Rust's `str` API that the core relies on: `trim`, `find`,
  `contains`, `starts_with` and `split`, over strings modelled as sequences
  of characters. Whitespace is the ASCII part of Unicode's White_Space
  property, which is what `char::is_whitespace` accepts below U+0080.
*/
module Text {
  import opened Base

  type String = seq<char>

  /** Space and U+0009..U+000D (tab, line feed, vertical tab, form feed, carriage return). */
  predicate IsWhitespace(c: char) {
    c == ' ' || '\t' <= c <= '\r'
  }

  predicate AllWhitespace(s: String) {
    forall k :: 0 <= k < |s| ==> IsWhitespace(s[k])
  }

  /** Neither end of `s` is whitespace: what a trimmed string looks like. */
  predicate Bordered(s: String) {
    s == [] || (!IsWhitespace(s[0]) && !IsWhitespace(s[|s| - 1]))
  }

  /** `str::trim_start`: drops the longest all-whitespace prefix. */
  function TrimStart(s: String): (r: String)
    ensures |r| <= |s|
    ensures r == [] || !IsWhitespace(r[0])
  {
    if s != [] && IsWhitespace(s[0]) then TrimStart(s[1..]) else s
  }

  /** `str::trim_end`: drops the longest all-whitespace suffix. */
  function TrimEnd(s: String): (r: String)
    ensures |r| <= |s|
    ensures r == [] || !IsWhitespace(r[|r| - 1])
    ensures r != [] ==> r[0] == s[0]
  {
    if s != [] && IsWhitespace(s[|s| - 1]) then TrimEnd(s[..|s| - 1]) else s
  }

  /** `str::trim`: drops whitespace from both ends. */
  function Trim(s: String): (r: String)
    ensures Bordered(r) && |r| <= |s|
  {
    TrimEnd(TrimStart(s))
  }

  /** What `TrimStart` drops is whitespace, and it drops only a prefix. */
  lemma {:induction false} TrimStartSplits(s: String) returns (pre: String)
    ensures AllWhitespace(pre) && s == pre + TrimStart(s)
    decreases |s|
  {
    if s != [] && IsWhitespace(s[0]) {
      var p := TrimStartSplits(s[1..]);
      pre := [s[0]] + p;
      assert s == [s[0]] + s[1..];
      forall k | 0 <= k < |pre| ensures IsWhitespace(pre[k]) {
        if k > 0 { assert pre[k] == p[k - 1]; }
      }
    } else {
      pre := [];
    }
  }

  /** What `TrimEnd` drops is whitespace, and it drops only a suffix. */
  lemma {:induction false} TrimEndSplits(s: String) returns (post: String)
    ensures AllWhitespace(post) && s == TrimEnd(s) + post
    decreases |s|
  {
    if s != [] && IsWhitespace(s[|s| - 1]) {
      var init := s[..|s| - 1];
      var p := TrimEndSplits(init);
      post := p + [s[|s| - 1]];
      assert s == init + [s[|s| - 1]];
      forall k | 0 <= k < |post| ensures IsWhitespace(post[k]) {
        if k < |p| { assert post[k] == p[k]; }
      }
    } else {
      post := [];
    }
  }

  /** `s` is its trimmed core padded on both sides with whitespace only. */
  lemma {:induction false} TrimSplits(s: String) returns (pre: String, post: String)
    ensures AllWhitespace(pre) && AllWhitespace(post)
    ensures s == pre + Trim(s) + post
  {
    var t := TrimStart(s);
    pre := TrimStartSplits(s);
    post := TrimEndSplits(t);
    assert pre + (TrimEnd(t) + post) == pre + TrimEnd(t) + post;
  }

  /** `TrimSplits` as a statement: some whitespace padding around `Trim(s)` makes up `s`. */
  lemma {:induction false} TrimIsPadded(s: String)
    ensures exists pre: String, post: String ::
      AllWhitespace(pre) && AllWhitespace(post) && s == pre + Trim(s) + post
  {
    var pre, post := TrimSplits(s);
  }

  lemma {:induction false} TrimStartOfPadded(pre: String, y: String)
    requires AllWhitespace(pre) && (y == [] || !IsWhitespace(y[0]))
    ensures TrimStart(pre + y) == y
    decreases |pre|
  {
    if pre == [] {
      assert pre + y == y;
    } else {
      assert (pre + y)[0] == pre[0];
      assert (pre + y)[1..] == pre[1..] + y;
      TrimStartOfPadded(pre[1..], y);
    }
  }

  lemma {:induction false} TrimEndOfPadded(y: String, post: String)
    requires AllWhitespace(post) && (y == [] || !IsWhitespace(y[|y| - 1]))
    ensures TrimEnd(y + post) == y
    decreases |post|
  {
    if post == [] {
      assert y + post == y;
    } else {
      var s := y + post;
      assert s[|s| - 1] == post[|post| - 1];
      assert s[..|s| - 1] == y + post[..|post| - 1];
      TrimEndOfPadded(y, post[..|post| - 1]);
    }
  }

  /** The trimmed core of a padded string is the string itself: `Trim` is determined by its contract. */
  lemma {:induction false} TrimOfPadded(pre: String, x: String, post: String)
    requires AllWhitespace(pre) && AllWhitespace(post) && Bordered(x)
    ensures Trim(pre + x + post) == x
  {
    if x == [] {
      assert pre + x + post == pre + post;
      TrimStartOfPadded(pre + post, []);
      assert pre + post + [] == pre + post;
    } else {
      assert pre + x + post == pre + (x + post);
      TrimStartOfPadded(pre, x + post);
      TrimEndOfPadded(x, post);
    }
  }

  lemma {:induction false} AllWhitespaceConcat(a: String, b: String)
    requires AllWhitespace(a) && AllWhitespace(b)
    ensures AllWhitespace(a + b)
  {
    forall k | 0 <= k < |a + b| ensures IsWhitespace((a + b)[k]) {
      if k >= |a| { assert (a + b)[k] == b[k - |a|]; }
    }
  }

  /** Whitespace added on either side never changes what `Trim` returns. */
  lemma {:induction false} TrimIgnoresPadding(pre: String, x: String, post: String)
    requires AllWhitespace(pre) && AllWhitespace(post)
    ensures Trim(pre + x + post) == Trim(x)
  {
    var p, q := TrimSplits(x);
    var a, b := pre + p, q + post;
    AllWhitespaceConcat(pre, p);
    AllWhitespaceConcat(q, post);
    Regroup(pre, p, Trim(x), q, post);
    TrimOfPadded(a, Trim(x), b);
  }

  lemma {:induction false} Regroup(a: String, b: String, c: String, d: String, e: String)
    ensures a + (b + c + d) + e == (a + b) + c + (d + e)
  {
  }

  /** Trimming only removes characters, so it keeps a string free of any separator. */
  lemma {:induction false} TrimFreeOf(s: String, seps: set<char>)
    requires FreeOf(s, seps)
    ensures FreeOf(Trim(s), seps)
  {
    var pre, post := TrimSplits(s);
    forall k | 0 <= k < |Trim(s)| ensures Trim(s)[k] !in seps {
      assert Trim(s)[k] == s[|pre| + k];
    }
  }

  /** `c` occurs at `i` and nowhere before. */
  predicate FirstAt(s: String, c: char, i: nat) {
    i < |s| && s[i] == c && c !in s[..i]
  }

  /** `str::find` for one character: the index of its first occurrence. */
  function Find(s: String, c: char): (r: Option<nat>)
    ensures r.None? <==> c !in s
    ensures r.Some? ==> FirstAt(s, c, r.value)
  {
    if s == [] then None
    else if s[0] == c then Some(0)
    else
      match Find(s[1..], c)
      case None => None
      case Some(i) =>
        assert s[..i + 1] == [s[0]] + s[1..][..i];
        Some(i + 1)
  }

  /** `Find` reports exactly the first occurrence. */
  lemma {:induction false} FindFirst(s: String, c: char, i: nat)
    requires FirstAt(s, c, i)
    ensures Find(s, c) == Some(i)
  {
    var r := Find(s, c);
    assert forall j :: 0 <= j < i ==> s[..i][j] == s[j];
    assert forall j :: 0 <= j < r.value ==> s[..r.value][j] == s[j];
  }

  /** `str::starts_with`. */
  predicate StartsWith(s: String, prefix: String) {
    |prefix| <= |s| && s[..|prefix|] == prefix
  }

  /** `str::contains` for a string pattern: some suffix of `s` starts with `pat`. */
  predicate Contains(s: String, pat: String)
    decreases |s|
  {
    StartsWith(s, pat) || (s != [] && Contains(s[1..], pat))
  }

  /** A string contains whatever it ends with. */
  lemma {:induction false} ContainsSuffix(prefix: String, pat: String)
    ensures Contains(prefix + pat, pat)
    decreases |prefix|
  {
    if prefix != [] {
      assert (prefix + pat)[1..] == prefix[1..] + pat;
      ContainsSuffix(prefix[1..], pat);
    }
  }

  /** No character of `s` is one of `seps`. */
  predicate FreeOf(s: String, seps: set<char>) {
    forall k :: 0 <= k < |s| ==> s[k] !in seps
  }

  /**
    `str::split` with a set of separator characters: the pieces between
    separators, in order, always at least one (an empty string splits into
    one empty piece).
  */
  function Split(s: String, seps: set<char>): (parts: seq<String>)
    ensures |parts| >= 1
    ensures forall i :: 0 <= i < |parts| ==> FreeOf(parts[i], seps)
    decreases |s|
  {
    if s == [] then [[]]
    else
      var rest := Split(s[1..], seps);
      if s[0] in seps then [[]] + rest
      else [[s[0]] + rest[0]] + rest[1..]
  }

  /** The pieces glued back together with `sep` between neighbours. */
  function Join(parts: seq<String>, sep: char): String
    decreases |parts|
  {
    if parts == [] then []
    else if |parts| == 1 then parts[0]
    else parts[0] + [sep] + Join(parts[1..], sep)
  }

  /** Splitting at a separator splits the two sides independently. */
  lemma {:induction false} SplitAtSeparator(a: String, c: char, b: String, seps: set<char>)
    requires c in seps
    ensures Split(a + [c] + b, seps) == Split(a, seps) + Split(b, seps)
    decreases |a|
  {
    if a == [] {
      assert a + [c] + b == [c] + b;
      assert ([c] + b)[1..] == b;
    } else {
      assert (a + [c] + b)[1..] == a[1..] + [c] + b;
      SplitAtSeparator(a[1..], c, b, seps);
    }
  }

  /** A separator-free prefix lands entirely in the first piece. */
  lemma {:induction false} SplitFreePrefix(p: String, s: String, seps: set<char>)
    requires FreeOf(p, seps)
    ensures Split(p + s, seps) == [p + Split(s, seps)[0]] + Split(s, seps)[1..]
    decreases |p|
  {
    if p != [] {
      assert (p + s)[0] == p[0];
      assert (p + s)[1..] == p[1..] + s;
      SplitFreePrefix(p[1..], s, seps);
      assert [p[0]] + (p[1..] + Split(s, seps)[0]) == p + Split(s, seps)[0];
    } else {
      var parts := Split(s, seps);
      assert p + s == s && p + parts[0] == parts[0];
      assert parts == [parts[0]] + parts[1..];
    }
  }

  /** Joining pieces that hold no separator and splitting again gives back the pieces. */
  lemma {:induction false} SplitJoin(parts: seq<String>, sep: char, seps: set<char>)
    requires |parts| >= 1 && sep in seps
    requires forall i :: 0 <= i < |parts| ==> FreeOf(parts[i], seps)
    ensures Split(Join(parts, sep), seps) == parts
    decreases |parts|
  {
    if |parts| == 1 {
      SplitFreePrefix(parts[0], [], seps);
      assert parts[0] + [] == parts[0];
    } else {
      var rest := Join(parts[1..], sep);
      SplitJoin(parts[1..], sep, seps);
      SplitAtSeparator(parts[0], sep, rest, seps);
      SplitFreePrefix(parts[0], [], seps);
      assert parts[0] + [] == parts[0];
      assert parts == [parts[0]] + parts[1..];
    }
  }

  /** Splitting at one separator and joining again gives back the string. */
  lemma {:induction false} JoinSplit(s: String, sep: char)
    ensures Join(Split(s, {sep}), sep) == s
    decreases |s|
  {
    if s != [] {
      var rest := Split(s[1..], {sep});
      JoinSplit(s[1..], sep);
      if s[0] == sep {
        assert Split(s, {sep})[1..] == rest;
      } else {
        var parts := Split(s, {sep});
        assert parts[0] == [s[0]] + rest[0];
        assert parts[1..] == rest[1..];
        if |rest| > 1 {
          assert Join(rest, sep) == rest[0] + [sep] + Join(rest[1..], sep);
        }
      }
    }
  }
}
