/**
 * The APS Physical Review Letters fetcher: the normalised feed entries are
 * filtered by a section substring and by the keywords, and each survivor
 * becomes a paper whose missing date and authors are taken from the raw
 * feed entry.
 */
module ApsPrl {
  import opened Wrappers
  import opened Text
  import opened Seqs
  import opened Common
  import opened RawValues
  import opened Models
  import opened Fallbacks
  import opened Rss

  /** The source tag of every paper this fetcher emits. */
  const ApsSource := "aps-prl"

  /** The raw keys whose values the section filter also searches, in order. */
  const SectionKeys: seq<string> := ["dc_subject", "prism_section", "dc:subject", "prism:section"]

  // ---------------------------------------------------------------------
  // The section filter
  // ---------------------------------------------------------------------

  /** The texts the entry's `categories` contributes: only a list counts. */
  function CategoryTexts(entry: Entry): seq<string> {
    match RawGet(Record(entry), "categories")
    case Some(Items(items)) => Shown(items)
    case _ => []
  }

  /** The texts one raw value contributes: every element of a list, the text
      of any other present value, nothing for an absent one. */
  function ValueTexts(value: Option<Raw>): (r: seq<string>)
    ensures value.None? ==> r == []
    ensures value.Some? && !value.value.Items? ==> r == [Show(value.value)]
  {
    match value
    case None => []
    case Some(Items(items)) => Shown(items)
    case Some(v) => [Show(v)]
  }

  /** The texts the raw values under `keys` contribute, key by key. */
  function KeyTexts(raw: Raw, keys: seq<string>): seq<string> {
    if |keys| == 0 then []
    else KeyTexts(raw, keys[..|keys| - 1]) + ValueTexts(RawGet(raw, keys[|keys| - 1]))
  }

  /** The `haystacks` list `_matches_section_filter` builds. */
  function Haystacks(entry: Entry, raw: Raw): seq<string> {
    CategoryTexts(entry) + KeyTexts(raw, SectionKeys)
  }

  /** The filter as it is compared: trimmed, then lower-cased. */
  function FilterKey(sectionFilter: string): string {
    Lower(Strip(sectionFilter))
  }

  /** `_matches_section_filter(entry, raw)`: a blank filter accepts every
      entry; otherwise some haystack, lower-cased, contains the filter. */
  predicate MatchesSection(entry: Entry, raw: Raw, sectionFilter: string) {
    var key := FilterKey(sectionFilter);
    var hay := Haystacks(entry, raw);
    |key| == 0 || exists i :: 0 <= i < |hay| && Contains(Lower(hay[i]), key)
  }

  /** Appending the texts of one more key. */
  lemma KeyTextsStep(raw: Raw, keys: seq<string>, k: nat)
    requires k < |keys|
    ensures KeyTexts(raw, keys[..k + 1]) == KeyTexts(raw, keys[..k]) + ValueTexts(RawGet(raw, keys[k]))
  {
    assert keys[..k + 1][..k] == keys[..k];
  }

  /** The loop over the section keys: each present value adds its texts. */
  method AddKeyTexts(raw: Raw, keys: seq<string>, start: seq<string>) returns (haystacks: seq<string>)
    ensures haystacks == start + KeyTexts(raw, keys)
  {
    haystacks := start;
    for k := 0 to |keys|
      invariant haystacks == start + KeyTexts(raw, keys[..k])
    {
      var value := RawGet(raw, keys[k]);
      var texts: seq<string> := [];
      if value.Some? && value.value.Items? {
        texts := Shown(value.value.items);
      } else if value.Some? {
        texts := [Show(value.value)];
      }
      assert texts == ValueTexts(value);
      KeyTextsStep(raw, keys, k);
      assert start + KeyTexts(raw, keys[..k]) + texts == start + (KeyTexts(raw, keys[..k]) + texts);
      haystacks := haystacks + texts;
    }
    assert keys[..|keys|] == keys;
  }

  /** The first half of `_matches_section_filter`: the list of categories,
      then the values of the section keys. */
  method BuildHaystacks(entry: Entry, raw: Raw) returns (haystacks: seq<string>)
    ensures haystacks == Haystacks(entry, raw)
  {
    haystacks := [];
    var categories := RawGet(Record(entry), "categories");
    if categories.Some? && categories.value.Items? {
      haystacks := haystacks + Shown(categories.value.items);
    }
    haystacks := AddKeyTexts(raw, SectionKeys, haystacks);
  }

  /** `_matches_section_filter`: a blank filter accepts at once; otherwise
      look for the filter in each haystack, stopping at the first hit. */
  method MatchesSectionFilter(entry: Entry, raw: Raw, sectionFilter: string) returns (ok: bool)
    ensures ok == MatchesSection(entry, raw, sectionFilter)
  {
    var key := Lower(Strip(sectionFilter));
    if |key| == 0 {
      return true;
    }
    var haystacks := BuildHaystacks(entry, raw);
    ok := AnyContains(haystacks, key);
  }

  /** The `any(...)` over the haystacks, stopping at the first hit. */
  method AnyContains(haystacks: seq<string>, key: string) returns (found: bool)
    ensures found <==> exists i :: 0 <= i < |haystacks| && Contains(Lower(haystacks[i]), key)
  {
    for i := 0 to |haystacks|
      invariant forall j :: 0 <= j < i ==> !Contains(Lower(haystacks[j]), key)
    {
      if Contains(Lower(haystacks[i]), key) {
        return true;
      }
    }
    return false;
  }

  /** A filter of nothing but whitespace accepts every entry. */
  lemma BlankFilterAcceptsAll(entry: Entry, raw: Raw, sectionFilter: string)
    requires forall i :: 0 <= i < |sectionFilter| ==> IsSpace(sectionFilter[i])
    ensures MatchesSection(entry, raw, sectionFilter)
  {
  }

  /** A category whose text contains the filter, ignoring case, lets the
      entry through. */
  lemma CategoryHitPasses(entry: Entry, raw: Raw, sectionFilter: string, k: nat)
    requires RawGet(Record(entry), "categories").Some?
    requires RawGet(Record(entry), "categories").value.Items?
    requires k < |RawGet(Record(entry), "categories").value.items|
    requires Contains(Lower(Show(RawGet(Record(entry), "categories").value.items[k])), FilterKey(sectionFilter))
    ensures MatchesSection(entry, raw, sectionFilter)
  {
    assert Haystacks(entry, raw)[k] == CategoryTexts(entry)[k];
  }

  /** A section key whose value, or an element of whose list value, contains
      the filter, ignoring case, lets the entry through. */
  lemma SectionKeyHitPasses(entry: Entry, raw: Raw, sectionFilter: string, key: nat, text: string)
    requires key < |SectionKeys|
    requires text in ValueTexts(RawGet(raw, SectionKeys[key]))
    requires Contains(Lower(text), FilterKey(sectionFilter))
    ensures MatchesSection(entry, raw, sectionFilter)
  {
    KeyTextsWithin(raw, SectionKeys, key);
    var hay := Haystacks(entry, raw);
    assert text in hay;
    var i :| 0 <= i < |hay| && hay[i] == text;
  }

  /** The texts of any one key are among the texts of all the keys. */
  lemma {:induction false} KeyTextsWithin(raw: Raw, keys: seq<string>, key: nat)
    requires key < |keys|
    ensures forall t :: t in ValueTexts(RawGet(raw, keys[key])) ==> t in KeyTexts(raw, keys)
  {
    var init := keys[..|keys| - 1];
    if key < |keys| - 1 {
      KeyTextsWithin(raw, init, key);
      assert init[key] == keys[key];
    }
  }

  /** With a non-blank filter, an entry with nothing to search in is
      rejected: no list of categories and none of the section keys present. */
  lemma NothingToSearchRejects(entry: Entry, raw: Raw, sectionFilter: string)
    requires |FilterKey(sectionFilter)| > 0
    requires !(RawGet(Record(entry), "categories").Some? && RawGet(Record(entry), "categories").value.Items?)
    requires forall k :: 0 <= k < |SectionKeys| ==> RawGet(raw, SectionKeys[k]).None?
    ensures !MatchesSection(entry, raw, sectionFilter)
  {
    KeyTextsNone(raw, SectionKeys);
  }

  /** Keys that are all absent contribute nothing. */
  lemma {:induction false} KeyTextsNone(raw: Raw, keys: seq<string>)
    requires forall k :: 0 <= k < |keys| ==> RawGet(raw, keys[k]).None?
    ensures KeyTexts(raw, keys) == []
  {
    if |keys| > 0 {
      KeyTextsNone(raw, keys[..|keys| - 1]);
    }
  }

  // ---------------------------------------------------------------------
  // The entry loop
  // ---------------------------------------------------------------------

  /** The date of an entry: its trimmed `published`, else the raw fallback. */
  function PublishedOf(entry: Entry, parse: string -> Option<DateText>): (r: string)
    ensures |TextField(entry, "published")| > 0 ==> r == TextField(entry, "published")
    ensures |TextField(entry, "published")| == 0 ==> r == FallbackPublishedOf(Get(entry, "raw"), parse)
  {
    var published := TextField(entry, "published");
    if |published| > 0 then published else FallbackPublishedOf(Get(entry, "raw"), parse)
  }

  /** What one entry contributes to `fetch`: nothing when its title or link
      is blank, when the section filter rejects it or when no keyword
      matches; otherwise a paper from source "aps-prl". */
  function ApsPaper(entry: Entry, keywords: seq<string>, sectionFilter: string,
                    parse: string -> Option<DateText>): (r: Option<Paper>)
    ensures r.None? <==>
      (|TextField(entry, "title")| == 0 || |TextField(entry, "link")| == 0
       || !MatchesSection(entry, Get(entry, "raw"), sectionFilter)
       || |MatchedKeywords(MatchText(entry), keywords)| == 0)
  {
    var title := TextField(entry, "title");
    var link := TextField(entry, "link");
    if |title| == 0 || |link| == 0 then None
    else if !MatchesSection(entry, Get(entry, "raw"), sectionFilter) then None
    else
      var matched := MatchedKeywords(title + " " + TextField(entry, "summary"), keywords);
      if |matched| == 0 then None
      else Some(NewPaper(title, AuthorsOf(entry), link, PublishedOf(entry, parse), ApsSource, matched))
  }

  /** The loop body as a function value. */
  function ApsStep(keywords: seq<string>, sectionFilter: string, parse: string -> Option<DateText>)
    : Entry -> Option<Paper>
  {
    entry => ApsPaper(entry, keywords, sectionFilter, parse)
  }

  /** An emitted paper has the entry's trimmed title and link, source
      "aps-prl", the entry's date or its fallback, the entry's authors or
      their fallback, and the non-empty keyword match of title and summary. */
  lemma ApsPaperFields(entry: Entry, keywords: seq<string>, sectionFilter: string,
                       parse: string -> Option<DateText>)
    requires ApsPaper(entry, keywords, sectionFilter, parse).Some?
    ensures var p := ApsPaper(entry, keywords, sectionFilter, parse).value;
      p.title == TextField(entry, "title") && p.link == TextField(entry, "link")
      && |p.title| > 0 && |p.link| > 0 && Trimmed(p.title) && WellFormed(p)
      && p.source == ApsSource
      && p.keywordsMatched == MatchedKeywords(MatchText(entry), keywords) && |p.keywordsMatched| > 0
      && p.publishedDate == PublishedOf(entry, parse)
      && p.authors == AuthorsOf(entry)
  {
  }

  /** The per-entry body of `fetch`. */
  method FetchOne(entry: Entry, keywords: seq<string>, sectionFilter: string,
                  parse: string -> Option<DateText>) returns (paper: Option<Paper>)
    ensures paper == ApsPaper(entry, keywords, sectionFilter, parse)
  {
    var title := TextField(entry, "title");
    var link := TextField(entry, "link");
    if |title| == 0 || |link| == 0 {
      return None;
    }
    var raw := Get(entry, "raw");
    var passes := MatchesSectionFilter(entry, raw, sectionFilter);
    if !passes {
      return None;
    }
    var summary := TextField(entry, "summary");
    var matched := MatchKeywords(title + " " + summary, keywords);
    if |matched| == 0 {
      return None;
    }
    var published := TextField(entry, "published");
    if |published| == 0 {
      published := FallbackPublished(raw, parse);
    }
    var authorList := match Get(entry, "authors") case Items(items) => Shown(items) case _ => [];
    if |authorList| == 0 {
      authorList := FallbackAuthors(raw);
    }
    paper := Some(NewPaper(title, authorList, link, published, ApsSource, matched));
  }

  /** `ApsPrlRssFetcher.fetch`: a failed request gives no papers; otherwise
      the loop runs `FetchOne` on every entry in turn and keeps the papers
      it gives, in feed order. */
  method Fetch(feed: FetchResult<Entry>, keywords: seq<string>, sectionFilter: string,
               parse: string -> Option<DateText>) returns (papers: seq<Paper>)
    ensures feed.RequestFailed? ==> papers == []
    ensures feed.Fetched? ==> papers == Collect(feed.entries, ApsStep(keywords, sectionFilter, parse))
  {
    if feed.RequestFailed? {
      return [];
    }
    papers := CollectAll(feed.entries, ApsStep(keywords, sectionFilter, parse));
  }

  /** Every paper `fetch` emits is the paper of some entry, and every entry
      that gives a paper has it emitted. */
  lemma FetchedPapersFromEntries(entries: seq<Entry>, keywords: seq<string>, sectionFilter: string,
                                 parse: string -> Option<DateText>)
    ensures forall p :: p in Collect(entries, ApsStep(keywords, sectionFilter, parse)) <==>
      exists i :: 0 <= i < |entries| && ApsStep(keywords, sectionFilter, parse)(entries[i]) == Some(p)
  {
    CollectMembers(entries, ApsStep(keywords, sectionFilter, parse));
  }
}
