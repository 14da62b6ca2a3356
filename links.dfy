/**
  The pagination cursor parser of src/utils.rs: reads the `link` response
  header of the GitHub REST API (the `<uri>; rel="..."` syntax of section 3
  of RFC 8288, items separated by commas) and returns the target of the
  first item that mentions `rel="next"`.
*/
module Links {
  import opened Base
  import opened Text

  const REL_NEXT: String := "rel=\"next\""

  /**
    What `parse_next_link` does: returns `Some(url)` (here `Next`), returns
    `None` (here `NoNext`), or panics on the slice `trimmed[start + 1..end]`
    when the first `>` of the matching item comes before its first `<`.
  */
  datatype NextLink = Next(url: String) | NoNext | Panics

  /**
    The target of one trimmed item: the characters strictly between its first
    `<` and its first `>`. A missing bracket is `None` (the `?` on each `find`),
    brackets in the wrong order are the slice panic.
  */
  function Target(t: String): (r: NextLink)
    ensures r.NoNext? <==> '<' !in t || '>' !in t
    ensures r.Next? ==> exists open: nat, close: nat ::
      FirstAt(t, '<', open) && FirstAt(t, '>', close) && open < close && r.url == t[open + 1..close]
    ensures r.Panics? ==> exists open: nat, close: nat ::
      FirstAt(t, '<', open) && FirstAt(t, '>', close) && close < open
    ensures r.Next? ==> '>' !in r.url && |r.url| < |t|
  {
    match Find(t, '<')
    case None => NoNext
    case Some(open) =>
      match Find(t, '>')
      case None => NoNext
      case Some(close) =>
        assert FirstAt(t, '<', open) && FirstAt(t, '>', close);
        if open < close then
          assert t[..close][open + 1..] == t[open + 1..close];
          Next(t[open + 1..close])
        else
          Panics
  }

  /** The converse of the panic case: brackets in the wrong order always hit the slice panic. */
  lemma {:induction false} MisorderedBracketsPanic(t: String, open: nat, close: nat)
    requires FirstAt(t, '<', open) && FirstAt(t, '>', close) && close < open
    ensures Target(t) == Panics
  {
    FindFirst(t, '<', open);
    FindFirst(t, '>', close);
  }

  /** Whether a (trimmed) item is the one the parser acts on. */
  predicate MentionsNext(item: String) {
    Contains(Trim(item), REL_NEXT)
  }

  /** The `for` loop over the comma-split items, with its early `return`. */
  function FirstNext(items: seq<String>): (r: NextLink)
    ensures r.Next? ==> '>' !in r.url
    ensures r != NoNext ==> exists k :: 0 <= k < |items| && MentionsNext(items[k])
  {
    if items == [] then NoNext
    else if MentionsNext(items[0]) then Target(Trim(items[0]))
    else FirstNext(items[1..])
  }

  /** `parse_next_link`: an absent header has no next link. */
  function ParseNextLink(header: Option<String>): (r: NextLink)
    ensures header.None? ==> r == NoNext
    ensures r.Next? ==> '>' !in r.url
  {
    match header
    case None => NoNext
    case Some(h) => FirstNext(Split(h, {','}))
  }

  /** The outcome is that of the first item mentioning `rel="next"`; later items are never consulted. */
  lemma {:induction false} FirstMatchDecides(items: seq<String>, k: nat)
    requires k < |items| && MentionsNext(items[k])
    requires forall j :: 0 <= j < k ==> !MentionsNext(items[j])
    ensures FirstNext(items) == Target(Trim(items[k]))
    decreases k
  {
    if k > 0 {
      FirstMatchDecides(items[1..], k - 1);
    }
  }

  /** With no item mentioning `rel="next"` (only `prev`, `last`, ...) there is no next link. */
  lemma {:induction false} NoMatchNoNext(items: seq<String>)
    requires forall j :: 0 <= j < |items| ==> !MentionsNext(items[j])
    ensures FirstNext(items) == NoNext
    decreases |items|
  {
    if items != [] {
      NoMatchNoNext(items[1..]);
    }
  }

  /**
    A first matching item without a `<` (or without a `>`) ends the search
    with no link, even when a later item would have given one.
  */
  lemma {:induction false} MalformedFirstMatchHidesLater(items: seq<String>, k: nat)
    requires k < |items| && MentionsNext(items[k])
    requires forall j :: 0 <= j < k ==> !MentionsNext(items[j])
    requires '<' !in Trim(items[k]) || '>' !in Trim(items[k])
    ensures FirstNext(items) == NoNext
  {
    FirstMatchDecides(items, k);
  }

  /** The item `<url>; rel="next"` as GitHub writes it. */
  function NextItem(url: String): String {
    "<" + url + ">; " + REL_NEXT
  }

  /** `<url>; rel="next"` is its own trim and mentions `rel="next"`. */
  lemma {:induction false} NextItemMentionsNext(url: String)
    ensures Trim(NextItem(url)) == NextItem(url)
    ensures MentionsNext(NextItem(url))
  {
    var head := "<" + url + ">; ";
    var item := NextItem(url);
    assert item == head + REL_NEXT;
    assert item[0] == '<' && item[|item| - 1] == '"';
    TrimOfPadded([], item, []);
    assert [] + item + [] == item;
    ContainsSuffix(head, REL_NEXT);
  }

  /** The target of `<url>; rel="next"` is `url` when `url` holds no bracket. */
  lemma {:induction false} NextItemTarget(url: String)
    requires '<' !in url && '>' !in url
    ensures Target(NextItem(url)) == Next(url)
  {
    var item := NextItem(url);
    assert item[0] == '<';
    FindFirst(item, '<', 0);
    assert item[..|url| + 1] == "<" + url;
    assert item[|url| + 1] == '>';
    FindFirst(item, '>', |url| + 1);
    assert item[1..|url| + 1] == url;
  }

  lemma {:induction false} NextItemParses(url: String)
    requires '<' !in url && '>' !in url
    ensures MentionsNext(NextItem(url)) && Target(Trim(NextItem(url))) == Next(url)
  {
    NextItemMentionsNext(url);
    NextItemTarget(url);
  }

  /**
    Round trip: a header whose first `rel="next"` item is `<url>; rel="next"`
    gives back `url`, whatever non-next items come before it, whatever items
    come after it, and whatever whitespace surrounds it (GitHub writes `, `
    between items, so every item but the first starts with a space).
  */
  lemma {:induction false} ParseNextLinkRoundTrip(before: seq<String>, pre: String, url: String, post: String, after: seq<String>)
    requires FreeOf(url, {',', '<', '>'})
    requires AllWhitespace(pre) && AllWhitespace(post)
    requires forall j :: 0 <= j < |before| ==> FreeOf(before[j], {','}) && !MentionsNext(before[j])
    requires forall j :: 0 <= j < |after| ==> FreeOf(after[j], {','})
    ensures ParseNextLink(Some(Join(before + [pre + NextItem(url) + post] + after, ','))) == Next(url)
  {
    var item := pre + NextItem(url) + post;
    var items := before + [item] + after;
    NoBrackets(url);
    NextItemParses(url);
    TrimIgnoresPadding(pre, NextItem(url), post);
    PaddedItemFreeOfComma(pre, url, post);
    ItemsFreeOfComma(before, item, after);
    SplitJoin(items, ',', {','});
    FirstMatchAfter(before, item, after);
    ParseJoined(items, Next(url));
  }

  /** The padded item `<url>; rel="next"` holds no comma when `url` holds none. */
  lemma {:induction false} PaddedItemFreeOfComma(pre: String, url: String, post: String)
    requires FreeOf(url, {',', '<', '>'})
    requires AllWhitespace(pre) && AllWhitespace(post)
    ensures FreeOf(pre + NextItem(url) + post, {','})
  {
    var item := NextItem(url);
    assert FreeOf(item, {','});
    var padded := pre + item + post;
    forall k | 0 <= k < |padded| ensures padded[k] !in {','} {
      if k < |pre| {
        assert padded[k] == pre[k];
      } else if k < |pre| + |item| {
        assert padded[k] == item[k - |pre|];
      } else {
        assert padded[k] == post[k - |pre| - |item|];
      }
    }
  }

  /** A header made of items that split back into themselves is parsed item by item. */
  lemma {:induction false} ParseJoined(items: seq<String>, r: NextLink)
    requires Split(Join(items, ','), {','}) == items
    requires FirstNext(items) == r
    ensures ParseNextLink(Some(Join(items, ','))) == r
  {
  }

  lemma {:induction false} NoBrackets(url: String)
    requires FreeOf(url, {',', '<', '>'})
    ensures '<' !in url && '>' !in url
  {
    forall k | 0 <= k < |url| ensures url[k] != '<' && url[k] != '>' {
      assert url[k] !in {',', '<', '>'};
    }
  }

  /** `FirstMatchDecides` for an item placed after non-matching ones. */
  lemma {:induction false} FirstMatchAfter(before: seq<String>, item: String, after: seq<String>)
    requires MentionsNext(item)
    requires forall j :: 0 <= j < |before| ==> !MentionsNext(before[j])
    ensures FirstNext(before + [item] + after) == Target(Trim(item))
  {
    var items := before + [item] + after;
    assert items[|before|] == item;
    assert forall j :: 0 <= j < |before| ==> items[j] == before[j];
    FirstMatchDecides(items, |before|);
  }

  lemma {:induction false} ItemsFreeOfComma(before: seq<String>, item: String, after: seq<String>)
    requires FreeOf(item, {','})
    requires forall j :: 0 <= j < |before| ==> FreeOf(before[j], {','})
    requires forall j :: 0 <= j < |after| ==> FreeOf(after[j], {','})
    ensures forall i :: 0 <= i < |before + [item] + after| ==> FreeOf((before + [item] + after)[i], {','})
  {
    var items := before + [item] + after;
    forall i | 0 <= i < |items| ensures FreeOf(items[i], {','}) {
      if i < |before| {
        assert items[i] == before[i];
      } else if i > |before| {
        assert items[i] == after[i - |before| - 1];
      } else {
        assert items[i] == item;
      }
    }
  }
}
