/**
 * `run_digest`: open the seen-link store, gather the papers of every
 * fetcher (a fetcher that raises contributes none), keep those not seen
 * before, send them, and mark them seen only once the digest went out.
 * The fetchers, the state file and the SMTP exchange are inputs.
 */
module Runner {
  import opened Wrappers
  import opened Seqs
  import opened Models
  import opened Storage
  import opened Emailer
  import Nature

  /** How one `fetcher.fetch()` call ended. */
  datatype FetchOutcome = Raised | Returned(papers: seq<Paper>)

  /** `all_papers`: the papers of the fetchers that returned, fetcher by
      fetcher, each list in its own order. */
  function AllPapers(outcomes: seq<FetchOutcome>): seq<Paper> {
    if |outcomes| == 0 then []
    else
      var last := match outcomes[|outcomes| - 1] case Returned(papers) => papers case Raised => [];
      AllPapers(outcomes[..|outcomes| - 1]) + last
  }

  /** The test of the `new_papers` comprehension, against the links the
      store held before any marking. */
  function NotSeenIn(seen: set<string>): Paper -> bool {
    (p: Paper) => p.link !in seen
  }

  /** `new_papers`. */
  function NewPapers(all: seq<Paper>, seen: set<string>): seq<Paper> {
    Filter(all, NotSeenIn(seen))
  }

  /** The new papers of a run over the state file `file`. */
  function PendingPapers(file: StoredFile, outcomes: seq<FetchOutcome>): seq<Paper> {
    NewPapers(AllPapers(outcomes), LoadedLinks(file))
  }

  /** The links of a list of papers. */
  function Links(papers: seq<Paper>): set<string> {
    if |papers| == 0 then {} else Links(papers[..|papers| - 1]) + {papers[|papers| - 1].link}
  }

  lemma {:induction false} LinksMembers(papers: seq<Paper>)
    ensures forall p :: p in papers ==> p.link in Links(papers)
  {
    if |papers| > 0 {
      var init := papers[..|papers| - 1];
      LinksMembers(init);
      assert papers == init + [papers[|papers| - 1]];
    }
  }

  /** What the state file holds once `PaperStorage(state_file)` is built. */
  function OpenedFile(onDisk: StoredFile): StoredFile {
    if onDisk.Missing? || ResetsState(onDisk) then Written([]) else onDisk
  }

  lemma {:induction false} AllPapersConcat(a: seq<FetchOutcome>, b: seq<FetchOutcome>)
    ensures AllPapers(a + b) == AllPapers(a) + AllPapers(b)
    decreases |b|
  {
    if |b| == 0 {
      assert a + b == a;
    } else {
      var init := b[..|b| - 1];
      AllPapersConcat(a, init);
      assert (a + b)[..|a + b| - 1] == a + init;
    }
  }

  /** A fetcher that raises contributes nothing, and the papers of the
      fetchers before and after it are all still gathered. */
  lemma FailedFetcherContributesNothing(before: seq<FetchOutcome>, after: seq<FetchOutcome>)
    ensures AllPapers(before + [Raised] + after) == AllPapers(before) + AllPapers(after)
  {
    AllPapersConcat(before + [Raised], after);
    assert (before + [Raised])[..|before|] == before;
  }

  /** The Nature news fetcher as `run_digest` builds it, from the `Config` of
      `paper_digest/config.py`. That record has no `rss_max_entries`, so once
      the address guard passes, reading it raises `AttributeError`, which the
      fetcher's `requests.RequestException` handler does not catch. */
  function NatureOutcomeAsWritten(url: string): FetchOutcome {
    if Nature.IsRssAddress(url) then Raised else Returned([])
  }

  /** As written, the Nature news fetcher adds no paper to a run, whatever
      its address: a non-RSS address returns nothing and an RSS address
      raises. */
  lemma NatureAsWrittenContributesNothing(url: string, before: seq<FetchOutcome>, after: seq<FetchOutcome>)
    ensures AllPapers(before + [NatureOutcomeAsWritten(url)] + after) == AllPapers(before) + AllPapers(after)
  {
    if Nature.IsRssAddress(url) {
      FailedFetcherContributesNothing(before, after);
    } else {
      AllPapersConcat(before + [Returned([])], after);
      assert (before + [Returned([])])[..|before|] == before;
    }
  }

  /** The new papers are, in gathering order, exactly the gathered papers
      whose link the store did not hold. */
  lemma NewPapersAreUnseen(all: seq<Paper>, seen: set<string>)
    ensures forall p :: p in NewPapers(all, seen) <==> p in all && p.link !in seen
    ensures IsSubsequence(NewPapers(all, seen), all)
  {
    FilterMembers(all, NotSeenIn(seen));
    FilterSubsequence(all, NotSeenIn(seen));
  }

  /** Once the new papers are marked, every gathered paper is seen, so the
      same fetch results a second time give no new papers and no e-mail. */
  lemma SecondRunFindsNothingNew(all: seq<Paper>, seen: set<string>)
    ensures forall p :: p in all ==> p.link in seen + Links(NewPapers(all, seen))
    ensures NewPapers(all, seen + Links(NewPapers(all, seen))) == []
  {
    var news := NewPapers(all, seen);
    var after := seen + Links(news);
    NewPapersAreUnseen(all, seen);
    LinksMembers(news);
    var again := NewPapers(all, after);
    NewPapersAreUnseen(all, after);
    if |again| > 0 {
      assert false;
    }
  }

  lemma LinksAppend(papers: seq<Paper>, p: Paper)
    ensures Links(papers + [p]) == Links(papers) + {p.link}
  {
    assert (papers + [p])[..|papers|] == papers;
  }

  /** The loop that extends `all_papers` with the result of each fetcher,
      skipping one that raised. */
  method GatherPapers(outcomes: seq<FetchOutcome>) returns (all: seq<Paper>)
    ensures all == AllPapers(outcomes)
  {
    all := [];
    for i := 0 to |outcomes|
      invariant all == AllPapers(outcomes[..i])
    {
      assert outcomes[..i + 1][..i] == outcomes[..i];
      match outcomes[i]
      case Returned(papers) =>
        all := all + papers;
      case Raised =>
    }
    assert outcomes[..|outcomes|] == outcomes;
  }

  /** `run_digest`. `onDisk` is the state file, or None when building the
      store raises; `outcomes` are the fetchers' results in order;
      `deliver` is the SMTP exchange. Returns the exit code, the store and
      the message handed to SMTP, if any. With no new papers nothing is
      sent and nothing marked; when sending fails the result is 1 and
      nothing is marked; after a successful send exactly the new papers
      are marked seen. */
  method RunDigest(onDisk: Option<StoredFile>, outcomes: seq<FetchOutcome>, deliver: Message -> bool)
    returns (code: int, store: PaperStorage?, sent: Option<Message>)
    ensures onDisk.None? ==> code == 1 && store == null && sent.None?
    ensures onDisk.Some? ==> store != null && fresh(store) && store.Valid()
    ensures onDisk.Some? && |PendingPapers(onDisk.value, outcomes)| == 0 ==>
      code == 0 && sent.None? && store.seenLinks == LoadedLinks(onDisk.value)
      && store.stateFile == OpenedFile(onDisk.value)
    ensures onDisk.Some? && |PendingPapers(onDisk.value, outcomes)| > 0 ==>
      sent == Some(DigestMessage(PendingPapers(onDisk.value, outcomes)))
    ensures onDisk.Some? && sent.Some? && !deliver(sent.value) ==>
      code == 1 && store.seenLinks == LoadedLinks(onDisk.value)
      && store.stateFile == OpenedFile(onDisk.value)
    ensures onDisk.Some? && sent.Some? && deliver(sent.value) ==>
      code == 0 && store.seenLinks == LoadedLinks(onDisk.value) + Links(PendingPapers(onDisk.value, outcomes))
  {
    if onDisk.None? {
      return 1, null, None;
    }
    store := new PaperStorage(onDisk.value);
    var all := GatherPapers(outcomes);
    var news := NewPapers(all, store.seenLinks);
    if |news| == 0 {
      return 0, store, None;
    }
    var outcome := SendDigest(news, deliver);
    sent := Some(outcome.message);
    if !outcome.Delivered? {
      return 1, store, sent;
    }
    MarkAll(store, news);
    code := 0;
  }

  /** The loop that calls `storage.mark_seen` on each new paper in turn. */
  method MarkAll(store: PaperStorage, papers: seq<Paper>)
    requires store.Valid()
    modifies store
    ensures store.Valid()
    ensures store.seenLinks == old(store.seenLinks) + Links(papers)
  {
    ghost var start := store.seenLinks;
    for i := 0 to |papers|
      invariant store.Valid()
      invariant store.seenLinks == start + Links(papers[..i])
    {
      LinksAppend(papers[..i], papers[i]);
      assert papers[..i + 1] == papers[..i] + [papers[i]];
      store.MarkSeen(papers[i]);
    }
    assert papers[..|papers|] == papers;
  }
}
