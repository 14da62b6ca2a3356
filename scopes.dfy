/**
  The OAuth scope check of src/auth.rs: the `scope` field of GitHub's token
  response is split on commas and spaces, each piece trimmed, empty pieces
  dropped, and the grant is accepted only when both `repo` and `read:org`
  are among the tokens.
*/
module Scopes {
  import opened Text

  const SCOPE_SEPARATORS: set<char> := {',', ' '}
  const REPO: String := "repo"
  const READ_ORG: String := "read:org"

  /** What a token of the normalised list looks like. */
  predicate IsScopeToken(t: String) {
    t != [] && Bordered(t) && FreeOf(t, SCOPE_SEPARATORS)
  }

  /** Each piece with its outer whitespace removed, empty results dropped, in the order of the pieces. */
  function TrimNonEmpty(pieces: seq<String>): (tokens: seq<String>)
    ensures |tokens| <= |pieces|
    ensures forall i :: 0 <= i < |tokens| ==> tokens[i] != [] && Bordered(tokens[i])
  {
    if pieces == [] then []
    else
      var t := Trim(pieces[0]);
      if t == [] then TrimNonEmpty(pieces[1..]) else [t] + TrimNonEmpty(pieces[1..])
  }

  /** The `normalized` vector: every entry is a clean scope token. */
  function Normalized(scopes: String): (tokens: seq<String>)
    ensures forall i :: 0 <= i < |tokens| ==> IsScopeToken(tokens[i])
  {
    var pieces := Split(scopes, SCOPE_SEPARATORS);
    var tokens := TrimNonEmpty(pieces);
    NormalizedTokensClean(pieces);
    tokens
  }

  lemma {:induction false} NormalizedTokensClean(pieces: seq<String>)
    requires forall i :: 0 <= i < |pieces| ==> FreeOf(pieces[i], SCOPE_SEPARATORS)
    ensures forall i :: 0 <= i < |TrimNonEmpty(pieces)| ==> IsScopeToken(TrimNonEmpty(pieces)[i])
    decreases |pieces|
  {
    if pieces != [] {
      TrimFreeOf(pieces[0], SCOPE_SEPARATORS);
      NormalizedTokensClean(pieces[1..]);
    }
  }

  /** `has_required_scopes`. */
  predicate HasRequiredScopes(scopes: String) {
    var tokens := Normalized(scopes);
    REPO in tokens && READ_ORG in tokens
  }

  /** Trimming and dropping empties works piece by piece. */
  lemma {:induction false} TrimNonEmptyAppend(a: seq<String>, b: seq<String>)
    ensures TrimNonEmpty(a + b) == TrimNonEmpty(a) + TrimNonEmpty(b)
    decreases |a|
  {
    if a == [] {
      assert a + b == b;
    } else {
      assert (a + b)[0] == a[0];
      assert (a + b)[1..] == a[1..] + b;
      TrimNonEmptyAppend(a[1..], b);
    }
  }

  /** A separator cuts the scope string into two independently normalised halves. */
  lemma {:induction false} NormalizedAtSeparator(a: String, sep: char, b: String)
    requires sep in SCOPE_SEPARATORS
    ensures Normalized(a + [sep] + b) == Normalized(a) + Normalized(b)
  {
    SplitAtSeparator(a, sep, b, SCOPE_SEPARATORS);
    TrimNonEmptyAppend(Split(a, SCOPE_SEPARATORS), Split(b, SCOPE_SEPARATORS));
  }

  /** The empty string normalises to no tokens at all. */
  lemma {:induction false} NormalizedEmpty()
    ensures Normalized([]) == []
  {
    assert Split([], SCOPE_SEPARATORS) == [[]];
    assert Trim([]) == [];
  }

  /** Clean tokens joined by a separator normalise back to exactly those tokens. */
  lemma {:induction false} NormalizedOfTokens(tokens: seq<String>, sep: char)
    requires |tokens| >= 1 && sep in SCOPE_SEPARATORS
    requires forall i :: 0 <= i < |tokens| ==> IsScopeToken(tokens[i])
    ensures Normalized(Join(tokens, sep)) == tokens
  {
    SplitJoin(tokens, sep, SCOPE_SEPARATORS);
    TrimNonEmptyOfTokens(tokens);
  }

  lemma {:induction false} TrimNonEmptyOfTokens(tokens: seq<String>)
    requires forall i :: 0 <= i < |tokens| ==> IsScopeToken(tokens[i])
    ensures TrimNonEmpty(tokens) == tokens
    decreases |tokens|
  {
    if tokens != [] {
      TrimOfPadded([], tokens[0], []);
      assert [] + tokens[0] + [] == tokens[0];
      TrimNonEmptyOfTokens(tokens[1..]);
      assert tokens == [tokens[0]] + tokens[1..];
    }
  }

  /**
    The check in terms of the scopes granted: for a list of clean tokens
    written with commas or spaces between them, the grant is accepted iff
    both `repo` and `read:org` are among them.
  */
  lemma {:induction false} HasRequiredScopesOfTokens(tokens: seq<String>, sep: char)
    requires |tokens| >= 1 && sep in SCOPE_SEPARATORS
    requires forall i :: 0 <= i < |tokens| ==> IsScopeToken(tokens[i])
    ensures HasRequiredScopes(Join(tokens, sep)) <==> REPO in tokens && READ_ORG in tokens
  {
    NormalizedOfTokens(tokens, sep);
  }

  /** Token order is irrelevant. */
  lemma {:induction false} ScopeOrderIrrelevant(a: String, sep: char, b: String)
    requires sep in SCOPE_SEPARATORS
    ensures HasRequiredScopes(a + [sep] + b) == HasRequiredScopes(b + [sep] + a)
  {
    NormalizedAtSeparator(a, sep, b);
    NormalizedAtSeparator(b, sep, a);
  }

  /** Granting extra scopes, before or after, never turns acceptance into rejection. */
  lemma {:induction false} ExtraScopesKeepAcceptance(a: String, sep: char, extra: String)
    requires sep in SCOPE_SEPARATORS && HasRequiredScopes(a)
    ensures HasRequiredScopes(a + [sep] + extra) && HasRequiredScopes(extra + [sep] + a)
  {
    NormalizedAtSeparator(a, sep, extra);
    NormalizedAtSeparator(extra, sep, a);
  }

  /** A lone separator holds no token. */
  lemma {:induction false} NormalizedSeparator(sep: char)
    requires sep in SCOPE_SEPARATORS
    ensures Normalized([sep]) == []
  {
    NormalizedEmpty();
    assert [sep] == [] + [sep] + [];
    NormalizedAtSeparator([], sep, []);
  }

  /** A doubled separator gives the same tokens as a single one. */
  lemma {:induction false} EmptyPiecesIgnored(a: String, sep: char, sep': char, b: String)
    requires sep in SCOPE_SEPARATORS && sep' in SCOPE_SEPARATORS
    ensures Normalized(a + [sep, sep'] + b) == Normalized(a + [sep] + b)
  {
    assert a + [sep, sep'] + b == (a + [sep]) + [sep'] + b;
    NormalizedAtSeparator(a + [sep], sep', b);
    assert a + [sep] == a + [sep] + [];
    NormalizedAtSeparator(a, sep, []);
    NormalizedEmpty();
    NormalizedAtSeparator(a, sep, b);
  }

  /** A leading or a trailing separator changes nothing. */
  lemma {:induction false} OuterSeparatorsIgnored(sep: char, s: String)
    requires sep in SCOPE_SEPARATORS
    ensures Normalized([sep] + s) == Normalized(s)
    ensures Normalized(s + [sep]) == Normalized(s)
  {
    NormalizedEmpty();
    assert [sep] + s == [] + [sep] + s;
    NormalizedAtSeparator([], sep, s);
    assert s + [sep] == s + [sep] + [];
    NormalizedAtSeparator(s, sep, []);
  }

  /** The empty grant, and a grant of only one of the two scopes, is rejected. */
  lemma {:induction false} MissingScopeRejected(scopes: String)
    requires scopes == [] || Normalized(scopes) == [REPO] || Normalized(scopes) == [READ_ORG]
    ensures !HasRequiredScopes(scopes)
  {
    NormalizedEmpty();
  }

  /** Two clean tokens with one separator between them. */
  lemma {:induction false} PairOfTokens(s: String, x: String, sep: char, y: String)
    requires s == x + [sep] + y
    requires IsScopeToken(x) && IsScopeToken(y) && sep in SCOPE_SEPARATORS
    ensures HasRequiredScopes(s) <==> REPO in [x, y] && READ_ORG in [x, y]
  {
    assert Join([x, y], sep) == x + [sep] + Join([y], sep);
    HasRequiredScopesOfTokens([x, y], sep);
  }

  lemma {:induction false} KnownTokens()
    ensures IsScopeToken(REPO) && IsScopeToken(READ_ORG)
    ensures IsScopeToken("Repo") && IsScopeToken("public_repo")
  {
  }

  /** A comma separates: `repo,read:org` is accepted. */
  lemma {:induction false} CommaSeparatedAccepted()
    ensures HasRequiredScopes("repo,read:org")
  {
    KnownTokens();
    PairOfTokens("repo,read:org", REPO, ',', READ_ORG);
  }

  /** A space separates too: `repo read:org` is accepted. */
  lemma {:induction false} SpaceSeparatedAccepted()
    ensures HasRequiredScopes("repo read:org")
  {
    KnownTokens();
    PairOfTokens("repo read:org", REPO, ' ', READ_ORG);
  }

  /** A comma followed by a space, and the reverse order: `read:org, repo` is accepted. */
  lemma {:induction false} CommaSpaceExampleAccepted()
    ensures HasRequiredScopes("read:org, repo")
  {
    KnownTokens();
    PairOfTokens(READ_ORG + [','] + REPO, READ_ORG, ',', REPO);
    EmptyPiecesIgnored(READ_ORG, ',', ' ', REPO);
    assert "read:org, repo" == READ_ORG + [',', ' '] + REPO;
  }

  /** Matching is case-sensitive: `Repo` does not grant `repo`. */
  lemma {:induction false} CapitalisedScopeRejected()
    ensures !HasRequiredScopes("Repo,read:org")
  {
    KnownTokens();
    PairOfTokens("Repo,read:org", "Repo", ',', READ_ORG);
  }

  /** Matching is exact: `public_repo` does not grant `repo`. */
  lemma {:induction false} NarrowerScopeRejected()
    ensures !HasRequiredScopes("public_repo read:org")
  {
    KnownTokens();
    PairOfTokens("public_repo read:org", "public_repo", ' ', READ_ORG);
  }
}
