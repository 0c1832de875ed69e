/**
 * The helpers every fetcher shares: case-insensitive keyword matching, date
 * normalisation and link canonicalisation.
 */
module Common {
  import opened Wrappers
  import opened Text
  import opened Seqs

  // ---------------------------------------------------------------------
  // Keyword matching
  // ---------------------------------------------------------------------

  /** `keyword`, lower-cased, occurs in the already lower-cased `content`. */
  predicate Hit(content: string, keyword: string) {
    Contains(content, Lower(keyword))
  }

  function HitIn(content: string): string -> bool {
    keyword => Hit(content, keyword)
  }

  /** What `match_keywords(text, keywords)` returns: the keywords whose
      lower-cased form occurs in the lower-cased text, keeping only the first
      keyword of each lower-cased form, in input order and original casing. */
  function MatchedKeywords(text: string, keywords: seq<string>): seq<string> {
    DedupBy(Filter(keywords, HitIn(Lower(text))), Lower)
  }

  /** The loop of `match_keywords`: `seenLower` holds the lower-cased forms
      already emitted. */
  method MatchKeywords(text: string, keywords: seq<string>) returns (matched: seq<string>)
    ensures matched == MatchedKeywords(text, keywords)
  {
    var content := Lower(text);
    matched := [];
    var seenLower: set<string> := {};
    for i := 0 to |keywords|
      invariant matched == DedupBy(Filter(keywords[..i], HitIn(content)), Lower)
      invariant seenLower == KeySet(matched, Lower)
    {
      var keyword := keywords[i];
      var keywordLower := Lower(keyword);
      ghost var hits := Filter(keywords[..i], HitIn(content));
      assert keywords[..i + 1][..i] == keywords[..i];
      if Contains(content, keywordLower) {
        assert Filter(keywords[..i + 1], HitIn(content)) == hits + [keyword];
        assert (hits + [keyword])[..|hits|] == hits;
      } else {
        assert Filter(keywords[..i + 1], HitIn(content)) == hits + [];
        assert hits + [] == hits;
      }
      if keywordLower !in seenLower && Contains(content, keywordLower) {
        KeySetAppend(matched, keyword, Lower);
        matched := matched + [keyword];
        seenLower := seenLower + {keywordLower};
      }
    }
    assert keywords[..|keywords|] == keywords;
  }

  /** The result keeps the input's order and casing: it is a subsequence of
      the keywords. */
  lemma MatchedKeywordsAreKeywords(text: string, keywords: seq<string>)
    ensures IsSubsequence(MatchedKeywords(text, keywords), keywords)
  {
    var hits := Filter(keywords, HitIn(Lower(text)));
    FilterSubsequence(keywords, HitIn(Lower(text)));
    DedupBySubsequence(hits, Lower);
    SubsequenceTransitive(MatchedKeywords(text, keywords), hits, keywords);
  }

  /** The lower-cased forms in the result are exactly the lower-cased input
      keywords that occur in the lower-cased text: nothing unmatched is
      returned and nothing matched is missed. */
  lemma MatchedKeywordsExact(text: string, keywords: seq<string>)
    ensures forall w :: w in KeySet(MatchedKeywords(text, keywords), Lower) <==>
      w in KeySet(keywords, Lower) && Contains(Lower(text), w)
  {
    var p := HitIn(Lower(text));
    var hits := Filter(keywords, p);
    DedupByKeys(hits, Lower);
    FilterMembers(keywords, p);
    forall w ensures w in KeySet(hits, Lower) <==> w in KeySet(keywords, Lower) && Contains(Lower(text), w) {
      if w in KeySet(hits, Lower) {
        var i :| 0 <= i < |hits| && Lower(hits[i]) == w;
        assert hits[i] in hits;
        var j :| 0 <= j < |keywords| && keywords[j] == hits[i];
        assert Lower(keywords[j]) == w;
      }
      if w in KeySet(keywords, Lower) && Contains(Lower(text), w) {
        var j :| 0 <= j < |keywords| && Lower(keywords[j]) == w;
        assert keywords[j] in keywords && p(keywords[j]);
        var i :| 0 <= i < |hits| && hits[i] == keywords[j];
        assert Lower(hits[i]) == w;
      }
    }
  }

  /** No two returned keywords are equal ignoring case. */
  lemma MatchedKeywordsDistinct(text: string, keywords: seq<string>)
    ensures DistinctKeys(MatchedKeywords(text, keywords), Lower)
  {
    DedupByDistinct(Filter(keywords, HitIn(Lower(text))), Lower);
  }

  /** Each returned keyword is the first input keyword of its lower-cased
      form. */
  lemma MatchedKeywordsFirstOfEachCase(text: string, keywords: seq<string>)
    ensures EachFirstOfItsKey(MatchedKeywords(text, keywords), keywords, Lower)
  {
    DedupFilterFirst(keywords, Lower, HitIn(Lower(text)));
  }

  /** The returned keywords come in the order in which their lower-cased
      forms first appear among the input keywords. */
  lemma MatchedKeywordsInFirstSeenOrder(text: string, keywords: seq<string>)
    ensures InFirstSeenOrder(MatchedKeywords(text, keywords), keywords, Lower)
  {
    DedupFilterFirstSeenOrder(keywords, Lower, HitIn(Lower(text)));
  }

  lemma MatchedKeywordsEmpty(text: string)
    ensures MatchedKeywords(text, []) == []
  {
  }

  // ---------------------------------------------------------------------
  // Date normalisation
  // ---------------------------------------------------------------------

  /** A date as the permissive parser formats it (`%Y-%m-%d`); never empty. */
  type DateText = s: string | |s| > 0 witness "0"

  /** `\d`, read as an ASCII digit. */
  predicate IsDigit(c: char) {
    '0' <= c <= '9'
  }

  /** The pattern `\d{4}-\d{2}-\d{2}` matches at index `i`. */
  predicate IsoDateAt(s: string, i: nat) {
    i + 10 <= |s|
    && IsDigit(s[i]) && IsDigit(s[i + 1]) && IsDigit(s[i + 2]) && IsDigit(s[i + 3])
    && s[i + 4] == '-' && IsDigit(s[i + 5]) && IsDigit(s[i + 6])
    && s[i + 7] == '-' && IsDigit(s[i + 8]) && IsDigit(s[i + 9])
  }

  /** `re.search` for that pattern: the leftmost index at or after `from`. */
  function SearchIsoDate(s: string, from: nat): (r: Option<nat>)
    requires from <= |s|
    ensures r.Some? ==> from <= r.value && IsoDateAt(s, r.value)
    ensures r.Some? ==> forall j :: from <= j < r.value ==> !IsoDateAt(s, j)
    ensures r.None? ==> forall j :: from <= j ==> !IsoDateAt(s, j)
    decreases |s| - from
  {
    if from + 10 > |s| then None
    else if IsoDateAt(s, from) then Some(from)
    else SearchIsoDate(s, from + 1)
  }

  /** `normalize_date`. The permissive parse-and-format step is the parameter
      `parse`, which yields `None` where the parser raises. */
  function NormalizeDate(input: string, parse: string -> Option<DateText>): (r: string)
    ensures r == "" <==> input == ""
    ensures input != "" && parse(input).Some? ==> r == parse(input).value
    ensures input != "" && parse(input).None? ==>
      (exists i: nat :: IsoDateAt(input, i) && (forall j :: 0 <= j < i ==> !IsoDateAt(input, j))
         && r == input[i..i + 10])
      || ((forall i: nat :: !IsoDateAt(input, i)) && r == input)
  {
    if input == "" then ""
    else match parse(input)
      case Some(d) => d
      case None =>
        match SearchIsoDate(input, 0)
        case Some(i) => input[i..i + 10]
        case None => input
  }

  // ---------------------------------------------------------------------
  // Link canonicalisation
  // ---------------------------------------------------------------------

  /** A URL cut at its first '#' (fragment) and then at the first '?' before
      it (query); scheme, host and path stay together as `base`. */
  datatype UrlParts = UrlParts(base: string, query: string, fragment: string)

  /** `urlsplit`, reduced to the cuts canonicalisation depends on. */
  function SplitUrl(url: string): (p: UrlParts)
    ensures |p.base| <= |url| && p.base == url[..|p.base|]
    ensures '?' !in p.base && '#' !in p.base && '#' !in p.query
    ensures '#' !in url ==> p.fragment == ""
    ensures '?' !in url && '#' !in url ==> p.base == url && p.query == ""
  {
    var (rest, fragment) :=
      match Find(url, '#')
      case Some(i) => (url[..i], url[i + 1..])
      case None => (url, "");
    assert '#' !in rest;
    match Find(rest, '?')
    case Some(j) =>
      assert forall c :: c in rest[..j] ==> c in rest;
      assert forall c :: c in rest[j + 1..] ==> c in rest;
      UrlParts(rest[..j], rest[j + 1..], fragment)
    case None => UrlParts(rest, "", fragment)
  }

  /** `urlunsplit`: the query and fragment come back only when non-empty. */
  function UnsplitUrl(p: UrlParts): string {
    p.base + (if p.query == "" then "" else "?" + p.query)
    + (if p.fragment == "" then "" else "#" + p.fragment)
  }

  lemma SplitUnsplit(p: UrlParts)
    requires '?' !in p.base && '#' !in p.base && '#' !in p.query
    ensures SplitUrl(UnsplitUrl(p)) == p
  {
    var withQuery := p.base + (if p.query == "" then "" else "?" + p.query);
    var u := UnsplitUrl(p);
    assert '#' !in withQuery by {
      if p.query != "" { assert withQuery == p.base + ['?'] + p.query; }
    }
    if p.fragment == "" {
      assert u == withQuery;
    } else {
      assert u == withQuery + ['#'] + p.fragment;
      FindAfterPrefix(withQuery, '#', p.fragment);
      assert u[..|withQuery|] == withQuery;
      assert u[|withQuery| + 1..] == p.fragment;
    }
    if p.query != "" {
      assert withQuery == p.base + ['?'] + p.query;
      FindAfterPrefix(p.base, '?', p.query);
      assert withQuery[..|p.base|] == p.base;
      assert withQuery[|p.base| + 1..] == p.query;
    }
  }

  /** One `key=value` pair of a query string, kept without percent-decoding. */
  datatype QueryPair = QueryPair(key: string, value: string)

  /** One piece of `parse_qsl(..., keep_blank_values=True)`: the key is what
      precedes the first '=', and a piece without '=' has an empty value. */
  function ParsePair(piece: string): QueryPair {
    match Find(piece, '=')
    case Some(i) => QueryPair(piece[..i], piece[i + 1..])
    case None => QueryPair(piece, "")
  }

  /** Empty pieces are skipped. */
  function ParsePieces(pieces: seq<string>): seq<QueryPair> {
    if |pieces| == 0 then []
    else (if pieces[0] == "" then [] else [ParsePair(pieces[0])]) + ParsePieces(pieces[1..])
  }

  /** `parse_qsl(query, keep_blank_values=True)` without percent-decoding. */
  function ParseQuery(query: string): seq<QueryPair> {
    ParsePieces(Split(query, '&'))
  }

  function EncodePair(q: QueryPair): string {
    q.key + "=" + q.value
  }

  function EncodePairs(ps: seq<QueryPair>): (r: seq<string>)
    ensures |r| == |ps| && forall i :: 0 <= i < |ps| ==> r[i] == EncodePair(ps[i])
  {
    if |ps| == 0 then [] else [EncodePair(ps[0])] + EncodePairs(ps[1..])
  }

  /** `urlencode(pairs)` without percent-encoding. */
  function EncodeQuery(ps: seq<QueryPair>): string {
    Join(EncodePairs(ps), "&")
  }

  /** A pair the parser can have produced from a query without '#'. */
  predicate PlainPair(q: QueryPair) {
    '&' !in q.key && '=' !in q.key && '#' !in q.key && '&' !in q.value && '#' !in q.value
  }

  /** Splitting never introduces a character the input lacks. */
  lemma {:induction false} SplitKeepsOut(s: string, c: char, d: char)
    requires d !in s
    ensures forall k :: 0 <= k < |Split(s, c)| ==> d !in Split(s, c)[k]
    decreases |s|
  {
    match Find(s, c)
    case None =>
    case Some(i) =>
      assert forall x :: x in s[..i] ==> x in s;
      assert forall x :: x in s[i + 1..] ==> x in s;
      SplitKeepsOut(s[i + 1..], c, d);
  }

  lemma ParsePairPlain(piece: string)
    requires '&' !in piece && '#' !in piece
    ensures PlainPair(ParsePair(piece))
  {
    match Find(piece, '=')
    case Some(i) =>
      assert forall x :: x in piece[..i] ==> x in piece;
      assert forall x :: x in piece[i + 1..] ==> x in piece;
    case None =>
  }

  lemma {:induction false} ParsePiecesPlain(pieces: seq<string>)
    requires forall k :: 0 <= k < |pieces| ==> '&' !in pieces[k] && '#' !in pieces[k]
    ensures forall q :: q in ParsePieces(pieces) ==> PlainPair(q)
  {
    if |pieces| > 0 {
      if pieces[0] != "" { ParsePairPlain(pieces[0]); }
      ParsePiecesPlain(pieces[1..]);
    }
  }

  /** Every pair parsed out of a query without '#' is plain. */
  lemma ParseQueryPlain(query: string)
    requires '#' !in query
    ensures forall q :: q in ParseQuery(query) ==> PlainPair(q)
  {
    SplitKeepsOut(query, '&', '#');
    ParsePiecesPlain(Split(query, '&'));
  }

  lemma {:induction false} ParseEncodedPieces(ps: seq<QueryPair>)
    requires forall q :: q in ps ==> PlainPair(q)
    ensures ParsePieces(EncodePairs(ps)) == ps
  {
    if |ps| > 0 {
      var q := ps[0];
      assert q in ps;
      assert forall x :: x in ps[1..] ==> x in ps;
      FindAfterPrefix(q.key, '=', q.value);
      assert EncodePair(q) == q.key + ['='] + q.value;
      assert EncodePair(q)[..|q.key|] == q.key;
      assert EncodePair(q)[|q.key| + 1..] == q.value;
      assert EncodePairs(ps)[1..] == EncodePairs(ps[1..]);
      ParseEncodedPieces(ps[1..]);
    }
  }

  /** Parsing an encoded query gives back its pairs. */
  lemma ParseEncodedQuery(ps: seq<QueryPair>)
    requires forall q :: q in ps ==> PlainPair(q)
    ensures ParseQuery(EncodeQuery(ps)) == ps
  {
    var pieces := EncodePairs(ps);
    ParseEncodedPieces(ps);
    if |ps| == 0 {
      assert EncodeQuery(ps) == "";
      assert Split("", '&') == [""];
    } else {
      forall k | 0 <= k < |pieces| ensures '&' !in pieces[k] {
        assert ps[k] in ps;
        assert pieces[k] == ps[k].key + ['='] + ps[k].value;
      }
      SplitJoin(pieces, '&');
    }
  }

  lemma EncodedQueryHasNoHash(ps: seq<QueryPair>)
    requires forall q :: q in ps ==> PlainPair(q)
    ensures '#' !in EncodeQuery(ps)
  {
    var pieces := EncodePairs(ps);
    forall k | 0 <= k < |pieces| ensures '#' !in pieces[k] {
      assert ps[k] in ps;
      assert pieces[k] == ps[k].key + ['='] + ps[k].value;
    }
    if '#' in EncodeQuery(ps) {
      JoinChars(pieces, "&", '#');
    }
  }

  /** A query key the canonicaliser drops: lower-cased, it starts with `utm_`. */
  predicate IsTracking(q: QueryPair) {
    StartsWith(Lower(q.key), "utm_")
  }

  predicate Kept(q: QueryPair) {
    !IsTracking(q)
  }

  /** The list comprehension that drops tracking pairs. */
  function WithoutTracking(ps: seq<QueryPair>): seq<QueryPair> {
    Filter(ps, Kept)
  }

  /** `canonicalize_link`. */
  function CanonicalizeLink(url: string): string {
    var parts := SplitUrl(Strip(url));
    UnsplitUrl(UrlParts(parts.base, EncodeQuery(WithoutTracking(ParseQuery(parts.query))), ""))
  }

  /** Exactly the tracking pairs are dropped, and the others keep their
      relative order. */
  lemma WithoutTrackingKeepsOthers(ps: seq<QueryPair>)
    ensures forall q :: q in WithoutTracking(ps) <==> q in ps && !IsTracking(q)
    ensures IsSubsequence(WithoutTracking(ps), ps)
  {
    FilterMembers(ps, Kept);
    FilterSubsequence(ps, Kept);
  }

  /** The canonical link has no fragment, the same scheme, host and path as
      the trimmed input, and as its query exactly the input's non-tracking
      pairs in their original order. */
  lemma CanonicalizeLinkParts(url: string)
    ensures '#' !in CanonicalizeLink(url)
    ensures var input := SplitUrl(Strip(url));
      var output := SplitUrl(CanonicalizeLink(url));
      output.base == input.base && output.fragment == ""
      && ParseQuery(output.query) == WithoutTracking(ParseQuery(input.query))
  {
    var input := SplitUrl(Strip(url));
    var kept := WithoutTracking(ParseQuery(input.query));
    ParseQueryPlain(input.query);
    FilterMembers(ParseQuery(input.query), Kept);
    EncodedQueryHasNoHash(kept);
    ParseEncodedQuery(kept);
    var p := UrlParts(input.base, EncodeQuery(kept), "");
    SplitUnsplit(p);
  }

  /** Canonicalising a link that is already canonical (and has no trailing
      whitespace) changes nothing. */
  lemma CanonicalizeLinkIdempotent(url: string)
    requires Trimmed(CanonicalizeLink(url))
    ensures CanonicalizeLink(CanonicalizeLink(url)) == CanonicalizeLink(url)
  {
    var input := SplitUrl(Strip(url));
    var kept := WithoutTracking(ParseQuery(input.query));
    ParseQueryPlain(input.query);
    FilterMembers(ParseQuery(input.query), Kept);
    ParseEncodedQuery(kept);
    EncodedQueryHasNoHash(kept);
    SplitUnsplit(UrlParts(input.base, EncodeQuery(kept), ""));
    FilterIdempotent(ParseQuery(input.query), Kept);
  }

  /** A link without query or fragment comes back trimmed and otherwise
      untouched. */
  lemma CanonicalizeLinkPlain(url: string)
    requires '?' !in Strip(url) && '#' !in Strip(url)
    ensures CanonicalizeLink(url) == Strip(url)
  {
    assert Split("", '&') == [""];
  }

  /** The canonical link never starts with whitespace. */
  lemma CanonicalizeLinkNoLeadingSpace(url: string)
    ensures |CanonicalizeLink(url)| > 0 ==> !IsSpace(CanonicalizeLink(url)[0])
  {
    var s := Strip(url);
    var input := SplitUrl(s);
    var query := EncodeQuery(WithoutTracking(ParseQuery(input.query)));
    var out := input.base + (if query == "" then "" else "?" + query);
    assert CanonicalizeLink(url) == out;
    if |input.base| > 0 {
      assert out[0] == input.base[0] == s[0];
    } else if query != "" {
      assert out[0] == '?';
    }
  }
}
