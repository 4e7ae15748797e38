/**
 * URL detection and content extraction, shared by the web prototype and the chat bot:
 * both define `extract_first_url`, `is_url_or_contains_url` and `extract_content` with the
 * same text. The regex `(https?://[^\s]+)` is written out as a leftmost search.
 */
module UrlParser {
  import opened Wrappers
  import opened PyText

  /** The pattern `https?://[^\s]+` has a match starting at `i`: a scheme, then a non-space. */
  predicate UrlStartsAt(s: string, i: nat) {
    || (HasAt(s, i, "https://") && i + 8 < |s| && !IsSpace(s[i + 8]))
    || (HasAt(s, i, "http://") && i + 7 < |s| && !IsSpace(s[i + 7]))
  }

  /** No position of `s` starts a match. */
  predicate NoUrl(s: string) {
    forall j :: 0 <= j < |s| ==> !UrlStartsAt(s, j)
  }

  /** `u` is the match the search returns when it first succeeds at `i`. */
  predicate IsFirstUrlAt(s: string, i: nat, u: string) {
    && i + |u| <= |s|
    && s[i..i + |u|] == u
    && UrlStartsAt(s, i)
    && (StartsWith(u, "https://") || StartsWith(u, "http://"))
    && (forall k :: 0 <= k < |u| ==> !IsSpace(u[k]))
    && (i + |u| == |s| || IsSpace(s[i + |u|]))
    && (forall j :: 0 <= j < i ==> !UrlStartsAt(s, j))
  }

  /** Length of the scheme `https?://` the engine consumes at `i` (`s?` tried first), or 0. */
  function SchemeLength(s: string, i: nat): (k: nat)
    ensures k == 0 || k == 7 || k == 8
  {
    if HasAt(s, i, "https://") then 8 else if HasAt(s, i, "http://") then 7 else 0
  }

  /** End of the greedy run `[^\s]+` that starts at `j`. */
  function NonSpaceRunEnd(s: string, j: nat): (e: nat)
    requires j <= |s|
    ensures j <= e <= |s|
    ensures forall k :: j <= k < e ==> !IsSpace(s[k])
    ensures e == |s| || IsSpace(s[e])
    decreases |s| - j
  {
    if j == |s| || IsSpace(s[j]) then j else NonSpaceRunEnd(s, j + 1)
  }

  /** `http://` and `https://` cannot both start at `i`: index 4 is `:` in one and `s` in the other. */
  lemma SchemesDisjoint(s: string, i: nat)
    ensures !(HasAt(s, i, "https://") && HasAt(s, i, "http://"))
  {
    if HasAt(s, i, "https://") && HasAt(s, i, "http://") {
      HasAtChar(s, i, "https://", 4);
      HasAtChar(s, i, "http://", 4);
    }
  }

  /**
   * The end of the match the engine finds when it tries position `i`. With `https://` there
   * and a space after it, backtracking `s?` cannot help, since `http://` needs `:` where `s` is.
   */
  function MatchAt(s: string, i: nat): (m: Option<nat>)
    requires i <= |s|
    ensures m.Some? <==> UrlStartsAt(s, i)
    ensures m.Some? ==> i + SchemeLength(s, i) < m.value <= |s|
  {
    SchemesDisjoint(s, i);
    var k := SchemeLength(s, i);
    if k > 0 && i + k < |s| && !IsSpace(s[i + k]) then Some(NonSpaceRunEnd(s, i + k)) else None
  }

  /** `re.search`: the leftmost position at or after `i` where a match starts, with its end. */
  function SearchFrom(s: string, i: nat): (r: Option<(nat, nat)>)
    requires i <= |s|
    ensures r.None? <==> forall j :: i <= j < |s| ==> !UrlStartsAt(s, j)
    ensures r.Some? ==> var (a, b) := r.value;
      && i <= a < b <= |s|
      && UrlStartsAt(s, a)
      && MatchAt(s, a) == Some(b)
      && forall j :: i <= j < a ==> !UrlStartsAt(s, j)
    decreases |s| - i
  {
    if i == |s| then None
    else match MatchAt(s, i)
      case Some(e) => Some((i, e))
      case None => SearchFrom(s, i + 1)
  }

  /** `extract_first_url`: `match.group(0)` of the first match, or `None`. */
  function ExtractFirstUrl(text: string): (url: Option<string>)
    ensures url.None? <==> NoUrl(text)
    ensures url.Some? ==> exists i :: 0 <= i < |text| && IsFirstUrlAt(text, i, url.value)
  {
    match SearchFrom(text, 0)
    case None => None
    case Some((a, b)) =>
      FirstMatchShape(text, a, b);
      Some(text[a..b])
  }

  /** The match found at `a` ending at `b` has every property of `IsFirstUrlAt`. */
  lemma FirstMatchShape(s: string, a: nat, b: nat)
    requires a < b <= |s| && MatchAt(s, a) == Some(b)
    requires forall j :: 0 <= j < a ==> !UrlStartsAt(s, j)
    ensures IsFirstUrlAt(s, a, s[a..b])
  {
    SchemesDisjoint(s, a);
    var u := s[a..b];
    var k := SchemeLength(s, a);
    var p := if k == 8 then "https://" else "http://";
    assert HasAt(s, a, p);
    assert u[..|p|] == s[a..a + |p|];
    forall m | 0 <= m < |u| ensures !IsSpace(u[m]) {
      if m < |p| {
        HasAtChar(s, a, p, m);
      }
    }
  }

  /**
   * The converse: whatever `IsFirstUrlAt` describes is what `extract_first_url` returns, so
   * the properties there characterise the result completely.
   */
  lemma {:induction false} ExtractFirstUrlComplete(s: string, i: nat, u: string)
    requires IsFirstUrlAt(s, i, u)
    ensures ExtractFirstUrl(s) == Some(u)
  {
    FirstUrlIsFound(s, i, u);
    ExtractFromSearch(s, i, i + |u|, u);
  }

  /** The search from the start finds the match at `i`, and it ends where `u` ends. */
  lemma FirstUrlIsFound(s: string, i: nat, u: string)
    requires IsFirstUrlAt(s, i, u)
    ensures SearchFrom(s, 0) == Some((i, i + |u|))
  {
    MatchIsWholeUrl(s, i, u);
    SearchFindsFirst(s, 0, i);
  }

  /** `extract_first_url` returns the text of the match the search finds. */
  lemma ExtractFromSearch(s: string, a: nat, b: nat, u: string)
    requires SearchFrom(s, 0) == Some((a, b))
    requires b <= |s| && s[a..b] == u
    ensures ExtractFirstUrl(s) == Some(u)
  {
  }

  /** The match at `i` ends where `u` ends. */
  lemma MatchIsWholeUrl(s: string, i: nat, u: string)
    requires IsFirstUrlAt(s, i, u)
    ensures MatchAt(s, i) == Some(i + |u|)
  {
    var k := SchemeLength(s, i);
    SchemeInsideUrl(s, i, u);
    forall m | i + k <= m < i + |u|
      ensures !IsSpace(s[m])
    {
      assert s[m] == u[m - i];
    }
    RunEndAt(s, i + k, i + |u|);
  }

  /** The search from `j` stops at the first position where a match starts. */
  lemma {:induction false} SearchFindsFirst(s: string, j: nat, i: nat)
    requires j <= i < |s| && UrlStartsAt(s, i)
    requires forall m :: j <= m < i ==> !UrlStartsAt(s, m)
    ensures SearchFrom(s, j) == Some((i, MatchAt(s, i).value))
    decreases i - j
  {
    if j < i {
      assert MatchAt(s, j).None?;
      SearchFindsFirst(s, j + 1, i);
    }
  }

  /** The scheme found in `s` at `i` is the one `u` starts with, so it ends inside `u`. */
  lemma SchemeInsideUrl(s: string, i: nat, u: string)
    requires IsFirstUrlAt(s, i, u)
    ensures SchemeLength(s, i) < |u|
  {
    SchemesDisjoint(s, i);
    if StartsWith(u, "https://") {
      HasAtChar(u, 0, "https://", 4);
    } else {
      HasAtChar(u, 0, "http://", 4);
    }
    assert s[i + 4] == u[4];
  }

  /** The greedy run that starts at `j` ends exactly where the first space or the end is. */
  lemma {:induction false} RunEndAt(s: string, j: nat, e: nat)
    requires j <= e <= |s|
    requires forall m :: j <= m < e ==> !IsSpace(s[m])
    requires e == |s| || IsSpace(s[e])
    ensures NonSpaceRunEnd(s, j) == e
    decreases e - j
  {
    if j < e {
      RunEndAt(s, j + 1, e);
    }
  }

  /** `is_url_or_contains_url`: `(True, url)` when the URL is truthy, otherwise `(False, None)`. */
  function IsUrlOrContainsUrl(input: string): (r: (bool, Option<string>))
    ensures r.0 <==> !NoUrl(input)
    ensures r.1 == ExtractFirstUrl(input)
  {
    var url := ExtractFirstUrl(input);
    if url.Some? && |url.value| > 0 then (true, url) else (false, None)
  }

  /**
   * `extract_content`. `fetch` stands for newspaper3k's `Article(url)`, `download()`, `parse()`
   * and `.text`; an exception it raises is a `Failure`.
   */
  function ExtractContent(input: string, fetch: string -> Result<string, string>): (r: Result<string, string>)
    ensures NoUrl(input) ==> r == Success(input)
    ensures forall u :: ExtractFirstUrl(input) == Some(u) ==> r == fetch(u)
  {
    var (isUrl, url) := IsUrlOrContainsUrl(input);
    if isUrl then fetch(url.value) else Success(input)
  }

  /** Every match has the `p` of `http` three characters after its start. */
  lemma UrlStartHasP(s: string, j: nat)
    requires UrlStartsAt(s, j)
    ensures j + 3 < |s| && s[j + 3] == 'p'
  {
    if HasAt(s, j, "https://") {
      HasAtChar(s, j, "https://", 3);
    } else {
      HasAtChar(s, j, "http://", 3);
    }
  }

  /** Input with neither `http://` nor `https://` in it is passed through unchanged. */
  lemma PlainTextPassesThrough(s: string, fetch: string -> Result<string, string>)
    requires !Contains(s, "http://") && !Contains(s, "https://")
    ensures ExtractContent(s, fetch) == Success(s)
  {
  }

  /** Every match has a `p` in it, so text without the letter `p` holds no URL. */
  lemma NoLetterPNoUrl(s: string)
    requires Lacks(s, 'p')
    ensures NoUrl(s)
  {
    forall j | 0 <= j < |s| ensures !UrlStartsAt(s, j) {
      if UrlStartsAt(s, j) {
        UrlStartHasP(s, j);
      }
    }
  }

  /** A plain sentence is handed on verbatim, and nothing is fetched. */
  lemma PlainSentenceIsContent(s: string, fetch: string -> Result<string, string>)
    requires s == "The sky is blue."
    ensures ExtractContent(s, fetch) == Success(s)
  {
    NoLetterPNoUrl(s);
  }

  /**
   * Only the first whitespace-delimited URL is taken; the text after it is ignored. The input is
   * `"Check this out: https://example.com/article not-a-real-url-after"`, given in three parts.
   */
  lemma UrlInSentenceIsFetched(pre: string, u: string, post: string, fetch: string -> Result<string, string>)
    requires pre == "Check this out: "
    requires u == "https://example.com/article"
    requires post == " not-a-real-url-after"
    ensures ExtractFirstUrl(pre + u + post) == Some(u)
    ensures ExtractContent(pre + u + post, fetch) == fetch(u)
  {
    var s := pre + u + post;
    UrlAfterPrefix(pre, u, post);
    assert Lacks(pre + u[..3], 'p');
    assert s[..19] == pre + u[..3];
    SentenceHasNoEarlierUrl(s);
    SentenceUrlHasNoSpace(u);
    ExtractFirstUrlComplete(s, 16, u);
  }

  lemma UrlAfterPrefix(pre: string, u: string, post: string)
    requires |pre| == 16 && |u| > 8 && u[..8] == "https://" && !IsSpace(u[8])
    requires post != [] && IsSpace(post[0])
    ensures var s := pre + u + post;
      && s[16..16 + |u|] == u
      && UrlStartsAt(s, 16)
      && StartsWith(u, "https://")
      && IsSpace(s[16 + |u|])
  {
    var s := pre + u + post;
    assert s[16..16 + |u|] == u;
    assert s[16..24] == u[..8];
  }

  lemma SentenceHasNoEarlierUrl(s: string)
    requires |s| >= 19 && Lacks(s[..19], 'p')
    ensures forall j :: 0 <= j < 16 ==> !UrlStartsAt(s, j)
  {
    forall j | 0 <= j < 16 ensures !UrlStartsAt(s, j) {
      if UrlStartsAt(s, j) {
        UrlStartHasP(s, j);
      }
    }
  }

  lemma SentenceUrlHasNoSpace(u: string)
    requires u == "https://example.com/article"
    ensures forall k :: 0 <= k < |u| ==> !IsSpace(u[k])
  {
    forall k | 0 <= k < |u| ensures !IsSpace(u[k]) {
      assert '!' <= u[k] <= '~';
    }
  }
}
