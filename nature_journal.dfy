/**
 * The Nature journal fetcher: the normalised feed entries are filtered by an
 * exact, case-insensitive category allowlist and by the keywords, and each
 * survivor becomes a paper whose missing authors are taken from the raw feed
 * entry.
 */
module NatureJournal {
  import opened Wrappers
  import opened Text
  import opened Seqs
  import opened Common
  import opened RawValues
  import opened Models
  import opened Fallbacks
  import opened Rss

  /** The source tag of every paper this fetcher emits. */
  const JournalSource := "nature-journal"

  // ---------------------------------------------------------------------
  // The category allowlist
  // ---------------------------------------------------------------------

  /** A category or allowlist item as compared: trimmed, then lower-cased. */
  function CategoryKey(s: string): string {
    Lower(Strip(s))
  }

  /** Some allowlist item is not blank, so the allowlist set
      `_matches_category_allowlist` builds is not empty. */
  predicate HasActiveItem(allowlist: seq<string>) {
    exists a :: 0 <= a < |allowlist| && |Strip(allowlist[a])| > 0
  }

  /** Category `c` of the list equals allowlist item `a`, which is not blank,
      once both are trimmed and lower-cased. */
  predicate SameCategory(categories: seq<Raw>, c: int, allowlist: seq<string>, a: int)
    requires 0 <= c < |categories| && 0 <= a < |allowlist|
  {
    |Strip(allowlist[a])| > 0 && CategoryKey(Show(categories[c])) == CategoryKey(allowlist[a])
  }

  /** `_matches_category_allowlist(entry)`: an empty allowlist, or one with
      only blank items, accepts everything; otherwise the entry's
      `categories` must be a list and one of its categories must equal a
      non-blank allowlist item exactly, after trimming and lower-casing both.
      (The source compares two sets of these keys; membership is all it
      uses, so the model compares the lists.) */
  predicate AllowlistAccepts(entry: Entry, allowlist: seq<string>) {
    if |allowlist| == 0 || !HasActiveItem(allowlist) then true
    else match Get(entry, "categories")
      case Items(categories) => CategoryListed(categories, allowlist)
      case _ => false
  }

  /** Some category of the list equals some non-blank allowlist item. */
  predicate CategoryListed(categories: seq<Raw>, allowlist: seq<string>) {
    exists c, a :: 0 <= c < |categories| && 0 <= a < |allowlist| && SameCategory(categories, c, allowlist, a)
  }

  /** With one category and one item, the only pair to compare is theirs. */
  lemma OnlyPair(categories: seq<Raw>, allowlist: seq<string>)
    requires |categories| == 1 && |allowlist| == 1
    ensures CategoryListed(categories, allowlist) <==> SameCategory(categories, 0, allowlist, 0)
  {
    if CategoryListed(categories, allowlist) {
      var c, a :| 0 <= c < |categories| && 0 <= a < |allowlist| && SameCategory(categories, c, allowlist, a);
      assert c == 0 && a == 0;
    }
  }

  /** An allowlist whose items are all blank accepts every entry. */
  lemma BlankAllowlistAcceptsAll(entry: Entry, allowlist: seq<string>)
    requires forall i :: 0 <= i < |allowlist| ==> forall k :: 0 <= k < |allowlist[i]| ==> IsSpace(allowlist[i][k])
    ensures AllowlistAccepts(entry, allowlist)
  {
  }

  /** With an allowlist that has a non-blank item, an entry whose
      `categories` is not a list is rejected. */
  lemma NonListCategoriesRejected(entry: Entry, allowlist: seq<string>, i: nat)
    requires i < |allowlist| && |Strip(allowlist[i])| > 0
    requires !Get(entry, "categories").Items?
    ensures !AllowlistAccepts(entry, allowlist)
  {
  }

  /** A trimmed, lower-case text is its own category key. */
  lemma CategoryKeyOfNormal(s: string)
    requires Trimmed(s) && Lower(s) == s
    ensures CategoryKey(s) == s
  {
    assert Strip(s) == s;
  }

  /** A single-category entry is accepted by a single-item allowlist
      exactly when the two keys are equal. */
  lemma SingleCategoryAccepts(entry: Entry, category: string, item: string)
    requires Get(entry, "categories") == Items([Text(category)])
    requires |Strip(item)| > 0
    ensures AllowlistAccepts(entry, [item]) <==> CategoryKey(category) == CategoryKey(item)
  {
    var cats, items := [Text(category)], [item];
    assert items[0] == item;
    assert HasActiveItem(items);
    OnlyPair(cats, items);
    assert Show(cats[0]) == category;
  }

  /** A category that merely contains an allowlist item, and is not equal to
      it, does not match: with the single category "astrophysics" and the
      single item "physics" the entry is rejected. */
  lemma SubstringIsNotEnough(entry: Entry, category: string, item: string)
    requires entry == map["categories" := Items([Text(category)])]
    requires Trimmed(category) && Trimmed(item) && |item| > 0
    requires Lower(category) == category && Lower(item) == item
    requires Contains(category, item) && category != item
    ensures !AllowlistAccepts(entry, [item])
  {
    CategoryKeyOfNormal(category);
    CategoryKeyOfNormal(item);
    assert Get(entry, "categories") == Items([Text(category)]);
    SingleCategoryAccepts(entry, category, item);
  }

  // ---------------------------------------------------------------------
  // The entry loop
  // ---------------------------------------------------------------------

  /** What one entry contributes to `fetch`: nothing when its title or link
      is blank, when the allowlist rejects it or when no keyword matches;
      otherwise a paper from source "nature-journal". */
  function JournalPaper(entry: Entry, keywords: seq<string>, allowlist: seq<string>): (r: Option<Paper>)
    ensures r.None? <==>
      (|TextField(entry, "title")| == 0 || |TextField(entry, "link")| == 0
       || !AllowlistAccepts(entry, allowlist)
       || |MatchedKeywords(MatchText(entry), keywords)| == 0)
  {
    var title := TextField(entry, "title");
    var link := TextField(entry, "link");
    if |title| == 0 || |link| == 0 then None
    else if !AllowlistAccepts(entry, allowlist) then None
    else
      var matched := MatchedKeywords(title + " " + TextField(entry, "summary"), keywords);
      if |matched| == 0 then None
      else Some(NewPaper(title, AuthorsOf(entry), link, TextField(entry, "published"), JournalSource, matched))
  }

  /** The loop body as a function value. */
  function JournalStep(keywords: seq<string>, allowlist: seq<string>): Entry -> Option<Paper> {
    entry => JournalPaper(entry, keywords, allowlist)
  }

  /** An emitted paper has the entry's trimmed title and link, source
      "nature-journal", the entry's trimmed `published` with no fallback,
      the entry's authors or their raw fallback, and the non-empty keyword
      match of title and summary. */
  lemma JournalPaperFields(entry: Entry, keywords: seq<string>, allowlist: seq<string>)
    requires JournalPaper(entry, keywords, allowlist).Some?
    ensures var p := JournalPaper(entry, keywords, allowlist).value;
      p.title == TextField(entry, "title") && p.link == TextField(entry, "link")
      && |p.title| > 0 && |p.link| > 0 && Trimmed(p.title) && WellFormed(p)
      && p.source == JournalSource
      && p.publishedDate == TextField(entry, "published")
      && p.keywordsMatched == MatchedKeywords(MatchText(entry), keywords) && |p.keywordsMatched| > 0
      && p.authors == AuthorsOf(entry)
  {
  }

  /** The per-entry body of `fetch`. */
  method FetchOne(entry: Entry, keywords: seq<string>, allowlist: seq<string>) returns (paper: Option<Paper>)
    ensures paper == JournalPaper(entry, keywords, allowlist)
  {
    var title := TextField(entry, "title");
    var link := TextField(entry, "link");
    if |title| == 0 || |link| == 0 {
      return None;
    }
    if !AllowlistAccepts(entry, allowlist) {
      return None;
    }
    var summary := TextField(entry, "summary");
    var matched := MatchKeywords(title + " " + summary, keywords);
    if |matched| == 0 {
      return None;
    }
    var authorList := match Get(entry, "authors") case Items(items) => Shown(items) case _ => [];
    if |authorList| == 0 {
      authorList := FallbackAuthors(Get(entry, "raw"));
    }
    paper := Some(NewPaper(title, authorList, link, TextField(entry, "published"), JournalSource, matched));
  }

  /** `NatureJournalRssFetcher.fetch`: a failed request gives no papers;
      otherwise the loop runs `FetchOne` on every entry in turn and keeps the
      papers it gives, in feed order. */
  method Fetch(feed: FetchResult<Entry>, keywords: seq<string>, allowlist: seq<string>)
    returns (papers: seq<Paper>)
    ensures feed.RequestFailed? ==> papers == []
    ensures feed.Fetched? ==> papers == Collect(feed.entries, JournalStep(keywords, allowlist))
  {
    if feed.RequestFailed? {
      return [];
    }
    papers := CollectAll(feed.entries, JournalStep(keywords, allowlist));
  }

  /** Every paper `fetch` emits is the paper of some entry, and every entry
      that gives a paper has it emitted. */
  lemma FetchedPapersFromEntries(entries: seq<Entry>, keywords: seq<string>, allowlist: seq<string>)
    ensures forall p :: p in Collect(entries, JournalStep(keywords, allowlist)) <==>
      exists i :: 0 <= i < |entries| && JournalStep(keywords, allowlist)(entries[i]) == Some(p)
  {
    CollectMembers(entries, JournalStep(keywords, allowlist));
  }
}
