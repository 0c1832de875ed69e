/**
 * The per-entry normalisation loop of `fetch_feed_entries`: each parsed feed
 * entry either is dropped (no title or no usable link) or becomes a
 * normalised entry with fallbacks applied, and the loop stops at the cap.
 */
module Rss {
  import opened Wrappers
  import opened Text
  import opened Seqs
  import opened Common
  import opened RawValues

  /** What fetching a feed gives a fetcher: the request failed (a
      `RequestException`), or the list of entries. */
  datatype FetchResult<T> = RequestFailed | Fetched(entries: seq<T>)

  /** A normalised feed entry. `raw` is the parsed entry it came from. */
  datatype FeedEntry = FeedEntry(
    title: string,
    link: string,
    published: string,
    authors: seq<string>,
    summary: string,
    categories: seq<string>,
    raw: Entry)

  /** The trimmed `field` of one element of a structured list, when it has
      `get` and the trimmed value is non-empty. */
  function NameOf(item: Raw, field: string): Option<string> {
    match item
    case Record(fields) =>
      var name := TextField(fields, field);
      if |name| > 0 then Some(name) else None
    case _ => None
  }

  /** The names the elements of a structured list give, in order. */
  function ListedNames(items: seq<Raw>, field: string): (r: seq<string>)
    ensures forall k :: 0 <= k < |r| ==> |r[k]| > 0 && Trimmed(r[k])
  {
    if |items| == 0 then []
    else
      ListedNames(items[..|items| - 1], field)
      + match NameOf(items[|items| - 1], field) case Some(n) => [n] case None => []
  }

  /** Every listed name is the name of some element of the list. */
  lemma {:induction false} ListedNamesFrom(items: seq<Raw>, field: string)
    ensures forall k :: 0 <= k < |ListedNames(items, field)| ==>
      exists i :: 0 <= i < |items| && NameOf(items[i], field) == Some(ListedNames(items, field)[k])
  {
    if |items| > 0 {
      var init := items[..|items| - 1];
      ListedNamesFrom(init, field);
      var r := ListedNames(items, field);
      var ri := ListedNames(init, field);
      var last := NameOf(items[|items| - 1], field);
      assert init == items[..|items| - 1];
      if last.Some? {
        assert r == ri + [last.value];
      } else {
        assert r == ri;
      }
      forall k | 0 <= k < |r|
        ensures exists i :: 0 <= i < |items| && NameOf(items[i], field) == Some(r[k])
      {
        if k < |ri| {
          var i :| 0 <= i < |init| && NameOf(init[i], field) == Some(ri[k]);
          assert items[i] == init[i];
          assert r[k] == ri[k];
        } else {
          assert NameOf(items[|items| - 1], field) == Some(r[k]);
        }
      }
    } else {
      assert ListedNames(items, field) == [];
    }
  }

  /** The names a structured field gives (`authors` with `name`, `tags` with
      `term`); if there are none, the single trimmed `singleKey` field when it
      is non-empty. */
  function NamesOrSingle(entry: Entry, listKey: string, field: string, singleKey: string): (r: seq<string>)
    ensures forall k :: 0 <= k < |r| ==> |r[k]| > 0 && Trimmed(r[k])
    ensures !Get(entry, listKey).Items? ==>
      r == (if |TextField(entry, singleKey)| > 0 then [TextField(entry, singleKey)] else [])
  {
    var listed := match Get(entry, listKey)
      case Items(items) => ListedNames(items, field)
      case _ => [];
    if |listed| > 0 then listed
    else
      var single := TextField(entry, singleKey);
      if |single| > 0 then [single] else []
  }

  /** The loops that build `authors` and `categories`. */
  method CollectNames(entry: Entry, listKey: string, field: string, singleKey: string)
    returns (names: seq<string>)
    ensures names == NamesOrSingle(entry, listKey, field, singleKey)
  {
    names := [];
    var data := Get(entry, listKey);
    if data.Items? {
      var items := data.items;
      for i := 0 to |items|
        invariant names == ListedNames(items[..i], field)
      {
        assert items[..i + 1][..i] == items[..i];
        if !items[i].Record? {
          continue;
        }
        var name := TextField(items[i].fields, field);
        if |name| > 0 {
          names := names + [name];
        }
      }
      assert items[..|items|] == items;
    }
    if |names| == 0 {
      var single := TextField(entry, singleKey);
      if |single| > 0 {
        names := [single];
      }
    }
  }

  /** The raw publication text: the first truthy of `published`, `updated`,
      `pubDate`, else "". */
  function PublishedRaw(entry: Entry): string {
    Show(FirstTruthy([Get(entry, "published"), Get(entry, "updated"), Get(entry, "pubDate"), Text("")]))
  }

  /** The summary: the first truthy of `summary`, `description`, else "",
      trimmed. */
  function SummaryOf(entry: Entry): string {
    Strip(Show(FirstTruthy([Get(entry, "summary"), Get(entry, "description"), Text("")])))
  }

  /** The canonical form of the entry's raw `link`. */
  function LinkOf(entry: Entry): string {
    CanonicalizeLink(Show(GetOr(entry, "link", Text(""))))
  }

  /** A kept entry: the title and link the drop rules checked, the fallback
      chains for the date, summary, authors and categories, and the parsed
      entry itself as `raw`. */
  function KeptEntry(title: string, link: string, entry: Entry, parse: string -> Option<DateText>): (e: FeedEntry)
    ensures e.title == title && e.link == link && e.raw == entry
  {
    FeedEntry(title, link, NormalizeDate(PublishedRaw(entry), parse),
      NamesOrSingle(entry, "authors", "name", "author"), SummaryOf(entry),
      NamesOrSingle(entry, "tags", "term", "category"), entry)
  }

  /** One pass of the loop body: the normalised entry, or `None` when the
      entry is dropped because its trimmed title or its canonical link is
      empty. */
  function NormalizedEntry(entry: Entry, parse: string -> Option<DateText>): (r: Option<FeedEntry>)
    ensures r.None? <==> |TextField(entry, "title")| == 0 || |LinkOf(entry)| == 0
    ensures r.Some? ==> r.value == KeptEntry(TextField(entry, "title"), LinkOf(entry), entry, parse)
  {
    var title := TextField(entry, "title");
    var link := LinkOf(entry);
    if |title| == 0 || |link| == 0 then None
    else Some(KeptEntry(title, link, entry, parse))
  }

  /** A kept entry has a non-empty trimmed title and a non-empty link with no
      fragment, keeps the parsed entry as `raw`, and every author and
      category it lists is a non-empty trimmed name. */
  lemma KeptEntryShape(entry: Entry, parse: string -> Option<DateText>)
    requires NormalizedEntry(entry, parse).Some?
    ensures var e := NormalizedEntry(entry, parse).value;
      |e.title| > 0 && Trimmed(e.title) && |e.link| > 0 && '#' !in e.link && e.raw == entry
      && (forall k :: 0 <= k < |e.authors| ==> |e.authors[k]| > 0 && Trimmed(e.authors[k]))
      && (forall k :: 0 <= k < |e.categories| ==> |e.categories[k]| > 0 && Trimmed(e.categories[k]))
  {
    CanonicalizeLinkParts(Show(GetOr(entry, "link", Text(""))));
  }

  /** The loop body as a function value. */
  function Normalizer(parse: string -> Option<DateText>): Entry -> Option<FeedEntry> {
    entry => NormalizedEntry(entry, parse)
  }

  /** How many entries the loop keeps: it checks the cap only after an
      append, so a cap below one still lets one entry through. */
  function CapLength(valid: nat, maxEntries: int): (n: nat)
    ensures n <= valid
    ensures maxEntries >= 1 ==> n <= maxEntries
    ensures n == valid || n == if maxEntries < 1 then 1 else maxEntries
  {
    var cap := if maxEntries < 1 then 1 else maxEntries;
    if valid < cap then valid else cap
  }

  /** The loop of `fetch_feed_entries`, for any loop body `f`: the values
      `f` gives, in order, and the loop stops as soon as an append reaches
      `maxCount`. */
  method CollectUpTo<T, U>(xs: seq<T>, maxCount: int, f: T -> Option<U>) returns (out: seq<U>)
    ensures var all := Collect(xs, f);
      out == all[..CapLength(|all|, maxCount)]
  {
    out := [];
    for i := 0 to |xs|
      invariant out == Collect(xs[..i], f)
      invariant |out| == 0 || |out| < maxCount
    {
      CollectAppend(xs[..i], xs[i], f);
      assert xs[..i] + [xs[i]] == xs[..i + 1];
      var r := f(xs[i]);
      if r.None? {
        continue;
      }
      out := out + [r.value];
      if |out| >= maxCount {
        CollectPrefix(xs, i + 1, f);
        return;
      }
    }
    assert xs[..|xs|] == xs;
  }

  /** The normalisation loop of `fetch_feed_entries(url, user_agent,
      max_entries)` over the entries the feed parser produced: the kept
      entries in feed order, cut at the cap. */
  method NormalizeEntries(entries: seq<Entry>, maxEntries: int, parse: string -> Option<DateText>)
    returns (normalized: seq<FeedEntry>)
    ensures var valid := Collect(entries, Normalizer(parse));
      normalized == valid[..CapLength(|valid|, maxEntries)]
  {
    normalized := CollectUpTo(entries, maxEntries, Normalizer(parse));
  }

  /** The body of the loop for one entry. */
  method NormalizeOne(entry: Entry, parse: string -> Option<DateText>) returns (r: Option<FeedEntry>)
    ensures r == NormalizedEntry(entry, parse)
  {
    var title := TextField(entry, "title");
    var link := LinkOf(entry);
    if |title| == 0 || |link| == 0 {
      return None;
    }
    var authors := CollectNames(entry, "authors", "name", "author");
    var categories := CollectNames(entry, "tags", "term", "category");
    r := Some(FeedEntry(title, link, NormalizeDate(PublishedRaw(entry), parse),
      authors, SummaryOf(entry), categories, entry));
  }

  /** What the loop emits: at most `max_entries` entries (one when the cap is
      below one, if any entry is kept), in feed order, each the normalisation
      of some feed entry. */
  lemma NormalizedEntriesShape(entries: seq<Entry>, maxEntries: int, parse: string -> Option<DateText>)
    ensures var valid := Collect(entries, Normalizer(parse));
      var out := valid[..CapLength(|valid|, maxEntries)];
      (maxEntries >= 1 ==> |out| <= maxEntries)
      && (|valid| > 0 ==> |out| > 0)
      && IsSubsequence(out, valid)
      && forall k :: 0 <= k < |out| ==>
           exists i :: 0 <= i < |entries| && Normalizer(parse)(entries[i]) == Some(out[k])
  {
    var valid := Collect(entries, Normalizer(parse));
    var out := valid[..CapLength(|valid|, maxEntries)];
    PrefixIsSubsequence(valid, |out|);
    CollectMembers(entries, Normalizer(parse));
    forall k | 0 <= k < |out|
      ensures exists i :: 0 <= i < |entries| && Normalizer(parse)(entries[i]) == Some(out[k])
    {
      assert out[k] in valid;
    }
  }

  /** The dictionary form of a normalised entry, as the fetchers receive it. */
  function EntryRecord(e: FeedEntry): (d: Entry)
    ensures d.Keys == {"title", "link", "published", "authors", "summary", "categories", "raw"}
  {
    map[
      "title" := Text(e.title),
      "link" := Text(e.link),
      "published" := Text(e.published),
      "authors" := Items(seq(|e.authors|, i requires 0 <= i < |e.authors| => Text(e.authors[i]))),
      "summary" := Text(e.summary),
      "categories" := Items(seq(|e.categories|, i requires 0 <= i < |e.categories| => Text(e.categories[i]))),
      "raw" := Record(e.raw)]
  }
}
