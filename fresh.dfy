/**
  Conditional-GET evaluation (`fresh` and its `parseTokenList`): whether the client's cached
  copy, described by `If-None-Match` / `If-Modified-Since`, is still valid for a response with
  the given entity tag and last-modified date. Entity tags are compared with the weak comparison
  of section 2.3.2 of RFC 7232 (a `W/` prefix on either side is ignored).
*/
module Fresh {
  import opened Wrappers
  import opened JsText

  /** The request headers the optimiser reads; `""` stands for an absent header. */
  datatype RequestHeaders = RequestHeaders(
    ifModifiedSince: string,
    ifNoneMatch: string,
    cacheControl: string,
    accept: string)

  /** `Date.parse`, supplied by the caller: `None` is NaN. */
  type DateParser = string -> Option<int>

  // ---------------------------------------------------------------------------------------------
  // parseTokenList

  /** Removes leading U+0020 spaces (the only character the token scanner skips). */
  function TrimLeadingSpaces(s: string): (r: string)
    ensures |r| <= |s|
  {
    if |s| > 0 && s[0] == ' ' then TrimLeadingSpaces(s[1..]) else s
  }

  /** Removes trailing U+0020 spaces. */
  function TrimTrailingSpaces(s: string): (r: string)
    ensures |r| <= |s|
  {
    if |s| > 0 && s[|s| - 1] == ' ' then TrimTrailingSpaces(s[..|s| - 1]) else s
  }

  function TrimSpaces(s: string): string {
    TrimTrailingSpaces(TrimLeadingSpaces(s))
  }

  /** The tokens of a comma-separated list: each piece between commas, without its outer spaces. */
  function TokenList(s: string): (r: seq<string>)
    ensures |r| == |Split(s, ',')|
  {
    TrimAll(Split(s, ','))
  }

  function TrimAll(pieces: seq<string>): (r: seq<string>)
    ensures |r| == |pieces|
    ensures forall i :: 0 <= i < |pieces| ==> r[i] == TrimSpaces(pieces[i])
  {
    seq(|pieces|, i requires 0 <= i < |pieces| => TrimSpaces(pieces[i]))
  }

  lemma {:induction false} LeadingSpaces(p: string, k: nat)
    requires k <= |p|
    requires forall j :: 0 <= j < k ==> p[j] == ' '
    requires k == |p| || p[k] != ' '
    ensures TrimLeadingSpaces(p) == p[k..]
  {
    if k > 0 {
      LeadingSpaces(p[1..], k - 1);
      assert p[1..][k - 1..] == p[k..];
    }
  }

  lemma {:induction false} TrailingSpaces(p: string, k: nat)
    requires k <= |p|
    requires forall j :: k <= j < |p| ==> p[j] == ' '
    requires k == 0 || p[k - 1] != ' '
    ensures TrimTrailingSpaces(p) == p[..k]
    decreases |p| - k
  {
    if k < |p| {
      var q := p[..|p| - 1];
      TrailingSpaces(q, k);
      assert q[..k] == p[..k];
    }
  }

  /**
    A piece `s[lo..hi]` that is spaces, then `s[a..b]` (empty, or starting and ending with a
    non-space), then spaces, trims to `s[a..b]`.
  */
  lemma TrimOfPadded(s: string, lo: nat, a: nat, b: nat, hi: nat)
    requires lo <= a <= b <= hi <= |s|
    requires forall k :: lo <= k < a ==> s[k] == ' '
    requires forall k :: b <= k < hi ==> s[k] == ' '
    requires a < b ==> s[a] != ' ' && s[b - 1] != ' '
    ensures TrimSpaces(s[lo..hi]) == s[a..b]
  {
    if a < b {
      LeadingOfSlice(s, lo, a, hi);
      TrailingOfSlice(s, a, b, hi);
    } else {
      LeadingOfSlice(s, lo, hi, hi);
      assert TrimTrailingSpaces(s[hi..hi]) == [];
    }
  }

  /** Spaces in `s[lo..a]` followed by the end or a non-space: trimming the front of `s[lo..hi]` leaves `s[a..hi]`. */
  lemma LeadingOfSlice(s: string, lo: nat, a: nat, hi: nat)
    requires lo <= a <= hi <= |s|
    requires forall k :: lo <= k < a ==> s[k] == ' '
    requires a == hi || s[a] != ' '
    ensures TrimLeadingSpaces(s[lo..hi]) == s[a..hi]
  {
    var p := s[lo..hi];
    assert forall j :: 0 <= j < a - lo ==> p[j] == s[lo + j];
    assert a < hi ==> p[a - lo] == s[a];
    LeadingSpaces(p, a - lo);
    assert p[a - lo..] == s[a..hi];
  }

  /** Spaces in `s[b..hi]` preceded by the start or a non-space: trimming the back of `s[a..hi]` leaves `s[a..b]`. */
  lemma TrailingOfSlice(s: string, a: nat, b: nat, hi: nat)
    requires a <= b <= hi <= |s|
    requires forall k :: b <= k < hi ==> s[k] == ' '
    requires a == b || s[b - 1] != ' '
    ensures TrimTrailingSpaces(s[a..hi]) == s[a..b]
  {
    var q := s[a..hi];
    assert forall j :: b - a <= j < |q| ==> q[j] == s[a + j];
    assert a < b ==> q[b - a - 1] == s[b - 1];
    TrailingSpaces(q, b - a);
    assert q[..b - a] == s[a..b];
  }

  /**
    What the scanner knows after reading `str[..i]`: the pieces closed so far are `raw`, the open
    piece is `str[segStart..i]`, and its token is `str[start..end]` with only spaces around it.
  */
  ghost predicate ScanState(str: string, i: nat, segStart: nat, start: nat, end: nat, raw: seq<string>) {
    && segStart <= start <= end <= i <= |str|
    && Split(str[..i], ',') == raw + [str[segStart..i]]
    && (forall k :: segStart <= k < start ==> str[k] == ' ')
    && (forall k :: end <= k < i ==> str[k] == ' ')
    && (start < end ==> str[start] != ' ' && str[end - 1] != ' ')
    && (start == end ==> start == i)
  }

  /** Reading one more character that is not a comma extends the open piece. */
  lemma ExtendOpenPiece(str: string, i: nat, segStart: nat, raw: seq<string>)
    requires segStart <= i < |str| && str[i] != ','
    requires Split(str[..i], ',') == raw + [str[segStart..i]]
    ensures Split(str[..i + 1], ',') == raw + [str[segStart..i + 1]]
  {
    assert str[..i + 1] == str[..i] + [str[i]];
    SplitSnoc(str[..i], str[i], ',');
    assert str[segStart..i + 1] == str[segStart..i] + [str[i]];
  }

  lemma ScanSpace(str: string, i: nat, segStart: nat, start: nat, end: nat, raw: seq<string>)
    requires ScanState(str, i, segStart, start, end, raw)
    requires i < |str| && str[i] == ' '
    ensures start == end ==> ScanState(str, i + 1, segStart, i + 1, i + 1, raw)
    ensures start != end ==> ScanState(str, i + 1, segStart, start, end, raw)
  {
    ExtendOpenPiece(str, i, segStart, raw);
  }

  lemma ScanOther(str: string, i: nat, segStart: nat, start: nat, end: nat, raw: seq<string>)
    requires ScanState(str, i, segStart, start, end, raw)
    requires i < |str| && str[i] != ' ' && str[i] != ','
    ensures ScanState(str, i + 1, segStart, start, i + 1, raw)
  {
    ExtendOpenPiece(str, i, segStart, raw);
  }

  lemma ScanComma(str: string, i: nat, segStart: nat, start: nat, end: nat, raw: seq<string>)
    requires ScanState(str, i, segStart, start, end, raw)
    requires i < |str| && str[i] == ','
    ensures ScanState(str, i + 1, i + 1, i + 1, i + 1, raw + [str[segStart..i]])
    ensures TrimSpaces(str[segStart..i]) == str[start..end]
  {
    assert str[..i + 1] == str[..i] + [str[i]];
    SplitSnoc(str[..i], str[i], ',');
    assert Split(str[..i + 1], ',') == raw + [str[segStart..i]] + [""];
    assert str[i + 1..i + 1] == "";
    TrimOfPadded(str, segStart, start, end, i);
  }

  lemma TrimAllSnoc(raw: seq<string>, x: string)
    ensures TrimAll(raw + [x]) == TrimAll(raw) + [TrimSpaces(x)]
  {
  }

  /**
    The token scanner of `fresh`: a space before any other character of a token moves the
    token's start, a comma closes the token, anything else extends its end; the text after the
    last comma is the final token.
  */
  method ParseTokenList(str: string) returns (list: seq<string>)
    ensures list == TokenList(str)
  {
    var end := 0;
    var start := 0;
    list := [];
    ghost var raw: seq<string> := [];
    ghost var segStart := 0;
    var i := 0;
    while i < |str|
      invariant ScanState(str, i, segStart, start, end, raw)
      invariant list == TrimAll(raw)
    {
      if str[i] == ' ' {
        ScanSpace(str, i, segStart, start, end, raw);
        if start == end {
          start, end := i + 1, i + 1;
        }
      } else if str[i] == ',' {
        ScanComma(str, i, segStart, start, end, raw);
        TrimAllSnoc(raw, str[segStart..i]);
        list := list + [str[start..end]];
        raw := raw + [str[segStart..i]];
        start, end := i + 1, i + 1;
        segStart := i + 1;
      } else {
        ScanOther(str, i, segStart, start, end, raw);
        end := i + 1;
      }
      i := i + 1;
    }
    ScanEnd(str, segStart, start, end, raw);
    list := list + [str[start..end]];
  }

  /** At the end of the input the open piece is the last one, and its token is `str[start..end]`. */
  lemma ScanEnd(str: string, segStart: nat, start: nat, end: nat, raw: seq<string>)
    requires ScanState(str, |str|, segStart, start, end, raw)
    ensures TokenList(str) == TrimAll(raw) + [str[start..end]]
  {
    assert str[..|str|] == str;
    TrimOfPadded(str, segStart, start, end, |str|);
    TrimAllSnoc(raw, str[segStart..]);
  }

  lemma {:induction false} LeadingSpacesKeep(p: string, c: char)
    requires c in TrimLeadingSpaces(p)
    ensures c in p
  {
    if |p| > 0 && p[0] == ' ' {
      LeadingSpacesKeep(p[1..], c);
    }
  }

  lemma {:induction false} TrailingSpacesKeep(p: string, c: char)
    requires c in TrimTrailingSpaces(p)
    ensures c in p
  {
    if |p| > 0 && p[|p| - 1] == ' ' {
      TrailingSpacesKeep(p[..|p| - 1], c);
    }
  }

  /** There is one more token than there are commas, and no token contains a comma. */
  lemma TokenListShape(s: string)
    ensures |TokenList(s)| == Count(s, ',') + 1
    ensures forall i :: 0 <= i < |TokenList(s)| ==> ',' !in TokenList(s)[i]
  {
    SplitShape(s, ',');
    var p := Split(s, ',');
    forall i | 0 <= i < |p| ensures ',' !in TokenList(s)[i] {
      if ',' in TokenList(s)[i] {
        TrailingSpacesKeep(TrimLeadingSpaces(p[i]), ',');
        LeadingSpacesKeep(p[i], ',');
        assert false;
      }
    }
  }

  /** A list with one comma has the two trimmed pieces around it as its tokens. */
  lemma TwoTokens(a: string, b: string)
    requires ',' !in a && ',' !in b
    ensures TokenList(a + [','] + b) == [TrimSpaces(a), TrimSpaces(b)]
  {
    SplitFirst(a, ',', b);
    SplitNoSeparator(b, ',');
    assert Split(a + [','] + b, ',') == [a, b];
  }

  /** Tokens keep their inner spaces and lose their outer ones. */
  lemma TokenListExample()
    ensures TokenList(" W/\"a b\" ,  \"c\"") == ["W/\"a b\"", "\"c\""]
  {
    var first := " W/\"a b\" ";
    var second := "  \"c\"";
    PaddedWeakTag();
    PaddedStrongTag();
    TwoTokens(first, second);
    assert first + [','] + second == " W/\"a b\" ,  \"c\"";
  }

  lemma PaddedWeakTag()
    ensures TrimSpaces(" W/\"a b\" ") == "W/\"a b\""
  {
    var first := " W/\"a b\" ";
    LeadingSpaces(first, 1);
    TrailingSpaces(first[1..], 7);
    assert first[1..][..7] == "W/\"a b\"";
  }

  lemma PaddedStrongTag()
    ensures TrimSpaces("  \"c\"") == "\"c\""
  {
    var second := "  \"c\"";
    LeadingSpaces(second, 2);
    TrailingSpaces(second[2..], 3);
    assert second[2..][..3] == "\"c\"";
  }

  // ---------------------------------------------------------------------------------------------
  // fresh

  /**
    The `no-cache` test of the request's Cache-Control: some comma-separated piece is `no-cache`
    with nothing but white space around it.
  */
  predicate NoCacheRequested(cacheControl: string) {
    exists piece :: piece in Split(cacheControl, ',') && Trim(piece) == "no-cache"
  }

  /** Weak comparison: equal once a `W/` prefix is ignored on one side. */
  predicate EtagMatches(token: string, etag: string) {
    token == etag || token == "W/" + etag || "W/" + token == etag
  }

  /** `parseHttpDate(lastModified) <= parseHttpDate(modifiedSince)`; NaN compares false. */
  predicate NotModifiedSince(lastModified: Option<int>, modifiedSince: Option<int>) {
    lastModified.Some? && modifiedSince.Some? && lastModified.value <= modifiedSince.value
  }

  /** Some token of the list weakly matches the entity tag. */
  predicate AnyTokenMatches(tokens: seq<string>, etag: string) {
    exists j :: 0 <= j < |tokens| && EtagMatches(tokens[j], etag)
  }

  /** The If-None-Match condition: absent, `*`, or naming the (present) entity tag. */
  predicate NoneMatchPasses(noneMatch: string, etag: string) {
    noneMatch == "" || noneMatch == "*" || (etag != "" && AnyTokenMatches(TokenList(noneMatch), etag))
  }

  /** The If-Modified-Since condition: absent, or Last-Modified present and not later. */
  predicate ModifiedSincePasses(modifiedSince: string, lastModified: string, parseDate: DateParser) {
    modifiedSince == "" ||
    (lastModified != "" && NotModifiedSince(parseDate(lastModified), parseDate(modifiedSince)))
  }

  /** The verdict of `fresh`, stated condition by condition. */
  predicate IsFresh(h: RequestHeaders, etag: string, lastModified: string, parseDate: DateParser) {
    && (h.ifModifiedSince != "" || h.ifNoneMatch != "")
    && !(h.cacheControl != "" && NoCacheRequested(h.cacheControl))
    && NoneMatchPasses(h.ifNoneMatch, etag)
    && ModifiedSincePasses(h.ifModifiedSince, lastModified, parseDate)
  }

  /**
    `fresh(reqHeaders, resHeaders)`: the branch chain of the source, with the token scan that
    clears `etagStale` at the first matching token.
  */
  method Fresh(h: RequestHeaders, etag: string, lastModified: string, parseDate: DateParser)
    returns (r: bool)
    ensures r == IsFresh(h, etag, lastModified, parseDate)
  {
    var modifiedSince := h.ifModifiedSince;
    var noneMatch := h.ifNoneMatch;
    if modifiedSince == "" && noneMatch == "" {
      return false;
    }
    if h.cacheControl != "" && NoCacheRequested(h.cacheControl) {
      return false;
    }
    if noneMatch != "" && noneMatch != "*" {
      if etag == "" {
        return false;
      }
      var etagStale := true;
      var matches := ParseTokenList(noneMatch);
      var i := 0;
      while i < |matches|
        invariant 0 <= i <= |matches|
        invariant etagStale
        invariant forall j :: 0 <= j < i ==> !EtagMatches(matches[j], etag)
      {
        if EtagMatches(matches[i], etag) {
          etagStale := false;
          break;
        }
        i := i + 1;
      }
      if etagStale {
        assert !NoneMatchPasses(noneMatch, etag);
        return false;
      }
      assert AnyTokenMatches(matches, etag);
    }
    assert NoneMatchPasses(noneMatch, etag);
    if modifiedSince != "" {
      var modifiedStale := lastModified == "" ||
        !NotModifiedSince(parseDate(lastModified), parseDate(modifiedSince));
      if modifiedStale {
        return false;
      }
    }
    return true;
  }

  // ---------------------------------------------------------------------------------------------
  // Properties

  /** A token list without commas and outer spaces is one token: itself. */
  lemma SingleToken(s: string)
    requires ',' !in s
    requires s != [] ==> s[0] != ' ' && s[|s| - 1] != ' '
    ensures TokenList(s) == [s]
  {
    SplitNoSeparator(s, ',');
    LeadingSpaces(s, 0);
    TrailingSpaces(s, |s|);
  }

  /** With no validator at all the response is never fresh. */
  lemma UnconditionalIsStale(h: RequestHeaders, etag: string, lastModified: string, parseDate: DateParser)
    requires h.ifModifiedSince == "" && h.ifNoneMatch == ""
    ensures !IsFresh(h, etag, lastModified, parseDate)
  {
  }

  /** A standalone `no-cache` request directive wins over every validator. */
  lemma NoCacheIsStale(h: RequestHeaders, etag: string, lastModified: string, parseDate: DateParser,
                       before: string, after: string)
    requires h.cacheControl == before + "," + " no-cache " + "," + after
    requires ',' !in before
    ensures !IsFresh(h, etag, lastModified, parseDate)
  {
    var piece := " no-cache ";
    assert piece in Split(h.cacheControl, ',') by {
      var rest := piece + "," + after;
      assert h.cacheControl == before + [','] + rest;
      SplitFirst(before, ',', rest);
      assert rest == piece + [','] + after;
      SplitFirst(piece, ',', after);
    }
    assert piece == [' '] + "no-cache" + [' '];
    TrimPadded("no-cache", ' ', ' ');
  }

  /**
    When only If-None-Match is sent (the optimiser never sends Last-Modified), the response is
    fresh exactly when no `no-cache` is requested and the header is `*` or lists a token that
    weakly matches the non-empty entity tag.
  */
  lemma IfNoneMatchOnly(h: RequestHeaders, etag: string, parseDate: DateParser)
    requires h.ifModifiedSince == "" && h.ifNoneMatch != ""
    ensures IsFresh(h, etag, "", parseDate) <==>
      !(h.cacheControl != "" && NoCacheRequested(h.cacheControl)) &&
      (h.ifNoneMatch == "*" || (etag != "" && AnyTokenMatches(TokenList(h.ifNoneMatch), etag)))
  {
  }

  /**
    If-Modified-Since is evaluated even when If-None-Match matched; without a Last-Modified
    value it makes the response stale, so a matching entity tag plus any If-Modified-Since never
    gives 304 here (section 6 of RFC 7232 would ignore If-Modified-Since).
  */
  lemma ModifiedSinceWithoutLastModifiedIsStale(h: RequestHeaders, etag: string, parseDate: DateParser)
    requires h.ifModifiedSince != ""
    ensures !IsFresh(h, etag, "", parseDate)
  {
  }

  /** `If-None-Match: <etag>` against the same entity tag is fresh. */
  lemma SameEntityTagIsFresh(etag: string, parseDate: DateParser)
    requires etag != "" && ',' !in etag && etag[0] != ' ' && etag[|etag| - 1] != ' '
    ensures IsFresh(RequestHeaders("", etag, "", ""), etag, "", parseDate)
  {
    SingleToken(etag);
    assert EtagMatches(TokenList(etag)[0], etag);
  }

  /** `If-None-Match: W/<etag>` matches the strong entity tag under weak comparison. */
  lemma WeakEntityTagIsFresh(etag: string, parseDate: DateParser)
    requires etag != "" && ',' !in etag && etag[|etag| - 1] != ' '
    ensures IsFresh(RequestHeaders("", "W/" + etag, "", ""), etag, "", parseDate)
  {
    var weak := "W/" + etag;
    assert weak[0] == 'W' && weak[|weak| - 1] == etag[|etag| - 1];
    assert ',' !in weak by {
      assert forall k :: 2 <= k < |weak| ==> weak[k] == etag[k - 2];
    }
    SingleToken(weak);
    assert EtagMatches(TokenList(weak)[0], etag);
  }

  /** A list naming some other tag and then the entity tag is fresh; the other tag alone is not. */
  lemma ListedEntityTagIsFresh(etag: string, other: string, parseDate: DateParser)
    requires etag != "" && ',' !in etag && etag[0] != ' ' && etag[|etag| - 1] != ' '
    requires other != "" && ',' !in other && other[0] != ' ' && other[|other| - 1] != ' '
    requires other != "*"
    requires !EtagMatches(other, etag)
    ensures IsFresh(RequestHeaders("", other + ", " + etag, "", ""), etag, "", parseDate)
    ensures !IsFresh(RequestHeaders("", other, "", ""), etag, "", parseDate)
  {
    var padded := " " + etag;
    assert ',' !in padded by {
      assert forall k :: 1 <= k < |padded| ==> padded[k] == etag[k - 1];
    }
    assert TrimSpaces(padded) == etag by {
      assert forall k :: 1 <= k < |padded| ==> padded[k] == etag[k - 1];
      LeadingSpaces(padded, 1);
      assert padded[1..] == etag;
      TrailingSpaces(etag, |etag|);
    }
    TwoTokens(other, padded);
    assert other + ", " + etag == other + [','] + padded;
    assert EtagMatches(TokenList(other + ", " + etag)[1], etag);
    SingleToken(other);
    assert !AnyTokenMatches(TokenList(other), etag) by {
      forall j | 0 <= j < |TokenList(other)| ensures !EtagMatches(TokenList(other)[j], etag) {
        assert TokenList(other)[j] == other;
      }
    }
  }
}
