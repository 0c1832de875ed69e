/**
 * The Nature news fetcher: it accepts only an RSS feed address, and turns
 * each normalised feed entry whose title or HTML-stripped summary mentions a
 * keyword into a paper from source "nature".
 */
module Nature {
  import opened Wrappers
  import opened Text
  import opened Seqs
  import opened Common
  import opened Models
  import opened Rss

  /** The source tag of every paper this fetcher emits. */
  const NatureSource := "nature"

  /** The guard of `NatureFetcher.fetch`: the address must end in ".rss" or
      name the host feeds.nature.com. */
  predicate IsRssAddress(url: string) {
    EndsWith(url, ".rss") || Contains(url, "feeds.nature.com")
  }

  /** `_match_keywords(title, keywords, summary)`: the keywords found in the
      title and the summary joined by one space. */
  function TitleSummaryMatches(title: string, summary: string, keywords: seq<string>): (r: seq<string>)
    ensures IsSubsequence(r, keywords)
    ensures forall w :: w in KeySet(r, Lower) <==>
      w in KeySet(keywords, Lower) && Contains(Lower(title + " " + summary), w)
  {
    MatchedKeywordsAreKeywords(title + " " + summary, keywords);
    MatchedKeywordsExact(title + " " + summary, keywords);
    MatchedKeywords(title + " " + summary, keywords)
  }

  /** What one feed entry contributes: a paper that copies the entry's
      title, link, date and authors when the keywords match its title and
      stripped summary, otherwise nothing. `stripHtml` is the text
      extraction of the summary's markup. */
  function NaturePaper(entry: FeedEntry, keywords: seq<string>, stripHtml: string -> string): (r: Option<Paper>)
    ensures r.None? <==> |TitleSummaryMatches(entry.title, stripHtml(entry.summary), keywords)| == 0
  {
    var matched := TitleSummaryMatches(entry.title, stripHtml(entry.summary), keywords);
    if |matched| == 0 then None
    else Some(NewPaper(entry.title, entry.authors, entry.link, entry.published, NatureSource, matched))
  }

  /** The loop body as a function value. */
  function NatureStep(keywords: seq<string>, stripHtml: string -> string): FeedEntry -> Option<Paper> {
    entry => NaturePaper(entry, keywords, stripHtml)
  }

  /** An emitted paper copies the entry's title, link (trimmed by the
      constructor), date and authors, has source "nature" and a non-empty
      keyword match of title and stripped summary. */
  lemma NaturePaperFields(entry: FeedEntry, keywords: seq<string>, stripHtml: string -> string)
    requires NaturePaper(entry, keywords, stripHtml).Some?
    ensures var p := NaturePaper(entry, keywords, stripHtml).value;
      p.title == entry.title && p.link == Strip(entry.link)
      && p.authors == entry.authors && p.publishedDate == entry.published
      && p.source == NatureSource
      && p.keywordsMatched == TitleSummaryMatches(entry.title, stripHtml(entry.summary), keywords)
      && |p.keywordsMatched| > 0
  {
    var matched := TitleSummaryMatches(entry.title, stripHtml(entry.summary), keywords);
    assert NaturePaper(entry, keywords, stripHtml)
      == Some(NewPaper(entry.title, entry.authors, entry.link, entry.published, NatureSource, matched));
  }

  /** The per-entry body of `fetch`. */
  method FetchOne(entry: FeedEntry, keywords: seq<string>, stripHtml: string -> string)
    returns (paper: Option<Paper>)
    ensures paper == NaturePaper(entry, keywords, stripHtml)
  {
    var plainSummary := stripHtml(entry.summary);
    var matched := MatchKeywords(entry.title + " " + plainSummary, keywords);
    if |matched| == 0 {
      return None;
    }
    paper := Some(NewPaper(entry.title, entry.authors, entry.link, entry.published, NatureSource, matched));
  }

  /** `NatureFetcher.fetch`: an address that is not an RSS feed gives no
      papers and `feed` is never consulted; a failed request gives no papers;
      otherwise the papers of the entries, in feed order. `feed` is what
      the normaliser returned for the address. */
  method Fetch(url: string, feed: FetchResult<FeedEntry>, keywords: seq<string>, stripHtml: string -> string)
    returns (papers: seq<Paper>)
    ensures !IsRssAddress(url) ==> papers == []
    ensures feed.RequestFailed? ==> papers == []
    ensures IsRssAddress(url) && feed.Fetched? ==> papers == Collect(feed.entries, NatureStep(keywords, stripHtml))
  {
    if !IsRssAddress(url) {
      return [];
    }
    if feed.RequestFailed? {
      return [];
    }
    papers := CollectAll(feed.entries, NatureStep(keywords, stripHtml));
  }

  /** The papers `fetch` emits are, in feed order, those of the entries whose
      title and stripped summary match a keyword: every emitted paper comes
      from such an entry, and every such entry has its paper emitted. */
  lemma FetchedPapersFromEntries(entries: seq<FeedEntry>, keywords: seq<string>, stripHtml: string -> string)
    ensures forall p :: p in Collect(entries, NatureStep(keywords, stripHtml)) <==>
      exists i :: 0 <= i < |entries| && NatureStep(keywords, stripHtml)(entries[i]) == Some(p)
  {
    CollectMembers(entries, NatureStep(keywords, stripHtml));
  }

  /** Any address ending in ".rss" passes the guard. */
  lemma RssSuffixPasses(prefix: string)
    ensures IsRssAddress(prefix + ".rss")
  {
    assert (prefix + ".rss")[|prefix|..] == ".rss";
  }

  /** Any address that names feeds.nature.com passes the guard. */
  lemma FeedsHostPasses(before: string, after: string)
    ensures IsRssAddress(before + "feeds.nature.com" + after)
  {
    var url := before + "feeds.nature.com" + after;
    assert url[|before|..|before| + 16] == "feeds.nature.com";
    assert OccursAt(url, "feeds.nature.com", |before|);
  }

  /** The address `Config.from_env` falls back to when NATURE_URL is unset,
      "https://www.nature.com/subjects/physical-sciences/ncomms", written in
      eight-character pieces so that its characters can be checked piece by
      piece. */
  const DefaultNatureUrl := "https://" + "www.natu" + "re.com/s" + "ubjects/"
    + "physical" + "-science" + "s/ncomms"

  /** An address without the letter 'f' cannot name feeds.nature.com. */
  lemma NoFeedsHostWithoutF(url: string)
    requires 'f' !in url
    ensures !Contains(url, "feeds.nature.com")
  {
    forall i: nat | i <= |url| ensures !OccursAt(url, "feeds.nature.com", i) {
      if i + 16 <= |url| {
        assert url[i..i + 16][0] == url[i];
      }
    }
  }

  /** The default address is neither an ".rss" address nor on
      feeds.nature.com, so with NATURE_URL unset the fetcher returns no
      papers. */
  lemma DefaultAddressRejected()
    ensures !IsRssAddress(DefaultNatureUrl)
  {
    var url := DefaultNatureUrl;
    assert 'f' !in "https://" && 'f' !in "www.natu" && 'f' !in "re.com/s" && 'f' !in "ubjects/";
    assert 'f' !in "physical" && 'f' !in "-science" && 'f' !in "s/ncomms";
    NoFeedsHostWithoutF(url);
    assert url[|url| - 4] == 'o';
  }
}
