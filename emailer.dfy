/**
 * The digest e-mail: the keywords of all papers in first-seen order, the
 * number of papers per source, the plain-text body and the subject line,
 * and the guard that refuses to send an empty digest. The SMTP exchange is
 * a parameter that says whether delivery went through.
 */
module Emailer {
  import opened Text
  import opened Seqs
  import opened Models

  // ---------------------------------------------------------------------
  // The keywords of the digest
  // ---------------------------------------------------------------------

  /** Every matched keyword of every paper, paper by paper, in order. */
  function AllKeywords(papers: seq<Paper>): seq<string> {
    if |papers| == 0 then []
    else AllKeywords(papers[..|papers| - 1]) + papers[|papers| - 1].keywordsMatched
  }

  /** The key `_matched_keywords` and `_source_counts` compare by: the exact
      string, with no case folding. */
  function Exact(s: string): string { s }

  /** What `_matched_keywords` returns: each keyword once, at its first
      appearance. */
  function DigestKeywords(papers: seq<Paper>): seq<string> {
    DedupBy(AllKeywords(papers), Exact)
  }

  lemma {:induction false} AllKeywordsMembers(papers: seq<Paper>)
    ensures forall k :: k in AllKeywords(papers) <==>
      exists i :: 0 <= i < |papers| && k in papers[i].keywordsMatched
  {
    if |papers| > 0 {
      var init := papers[..|papers| - 1];
      AllKeywordsMembers(init);
      forall k ensures k in AllKeywords(papers) <==>
        exists i :: 0 <= i < |papers| && k in papers[i].keywordsMatched
      {
        if exists i :: 0 <= i < |papers| && k in papers[i].keywordsMatched {
          var i :| 0 <= i < |papers| && k in papers[i].keywordsMatched;
          if i < |init| {
            assert init[i] == papers[i];
          }
        }
        if k in AllKeywords(init) {
          var i :| 0 <= i < |init| && k in init[i].keywordsMatched;
          assert papers[i] == init[i];
        }
      }
    }
  }

  /** The digest keywords are the union of the papers' keywords: a keyword
      is listed exactly when some paper matched it. */
  lemma DigestKeywordsUnion(papers: seq<Paper>)
    ensures forall k :: k in DigestKeywords(papers) <==>
      exists i :: 0 <= i < |papers| && k in papers[i].keywordsMatched
  {
    AllKeywordsMembers(papers);
    DedupByKeys(AllKeywords(papers), Exact);
    var all := AllKeywords(papers);
    var d := DigestKeywords(papers);
    forall k ensures k in d <==> k in all {
      if k in d {
        var t :| 0 <= t < |d| && d[t] == k;
        assert Exact(d[t]) in KeySet(d, Exact);
        var i :| 0 <= i < |all| && Exact(all[i]) == k;
      }
      if k in all {
        var i :| 0 <= i < |all| && all[i] == k;
        assert Exact(all[i]) in KeySet(all, Exact);
        var t :| 0 <= t < |d| && Exact(d[t]) == k;
      }
    }
  }

  /** No keyword is listed twice, and each is listed in the order of its
      first appearance among the papers' keywords. */
  lemma DigestKeywordsOrdered(papers: seq<Paper>)
    ensures forall s, t :: 0 <= s < t < |DigestKeywords(papers)| ==>
      DigestKeywords(papers)[s] != DigestKeywords(papers)[t]
    ensures IsSubsequence(DigestKeywords(papers), AllKeywords(papers))
    ensures InFirstSeenOrder(DigestKeywords(papers), AllKeywords(papers), Exact)
  {
    DedupByFirstSeenOrder(AllKeywords(papers), Exact);
    DedupByDistinct(AllKeywords(papers), Exact);
    DedupBySubsequence(AllKeywords(papers), Exact);
    var d := DigestKeywords(papers);
    forall s, t | 0 <= s < t < |d| ensures d[s] != d[t] {
      assert Exact(d[s]) != Exact(d[t]);
    }
  }

  /** `_matched_keywords`: the loop over the papers and their keywords that
      appends a keyword not yet in the `seen` set. */
  method MatchedKeywords(papers: seq<Paper>) returns (ordered: seq<string>)
    ensures ordered == DigestKeywords(papers)
  {
    var seen: set<string> := {};
    ordered := [];
    for i := 0 to |papers|
      invariant ordered == DigestKeywords(papers[..i])
      invariant seen == KeySet(ordered, Exact)
    {
      var keywords := papers[i].keywordsMatched;
      assert papers[..i + 1][..i] == papers[..i];
      ghost var before := AllKeywords(papers[..i]);
      assert before + keywords[..0] == before;
      for j := 0 to |keywords|
        invariant ordered == DedupBy(before + keywords[..j], Exact)
        invariant seen == KeySet(ordered, Exact)
      {
        var keyword := keywords[j];
        assert before + keywords[..j + 1] == (before + keywords[..j]) + [keyword];
        DedupByAppend(before + keywords[..j], keyword, Exact);
        if keyword !in seen {
          KeySetAppend(ordered, keyword, Exact);
          seen := seen + {keyword};
          ordered := ordered + [keyword];
        }
      }
      assert keywords[..|keywords|] == keywords;
    }
    assert papers[..|papers|] == papers;
  }

  // ---------------------------------------------------------------------
  // Papers per source
  // ---------------------------------------------------------------------

  /** The number of papers from `source`. */
  function CountOf(papers: seq<Paper>, source: string): nat {
    if |papers| == 0 then 0
    else CountOf(papers[..|papers| - 1], source) + (if papers[|papers| - 1].source == source then 1 else 0)
  }

  /** `counts.get(source, 0)`. */
  function CountOrZero(counts: map<string, nat>, source: string): nat {
    if source in counts then counts[source] else 0
  }

  /** `_source_counts`: a source is a key exactly when some paper has it, and
      its value is the number of such papers, so `get(source, 0)` is the
      count for every source. */
  method SourceCounts(papers: seq<Paper>) returns (counts: map<string, nat>)
    ensures forall s :: s in counts <==> CountOf(papers, s) > 0
    ensures forall s :: CountOrZero(counts, s) == CountOf(papers, s)
  {
    counts := map[];
    for i := 0 to |papers|
      invariant forall s :: s in counts <==> CountOf(papers[..i], s) > 0
      invariant forall s :: CountOrZero(counts, s) == CountOf(papers[..i], s)
    {
      assert papers[..i + 1][..i] == papers[..i];
      var source := papers[i].source;
      counts := counts[source := CountOrZero(counts, source) + 1];
    }
    assert papers[..|papers|] == papers;
  }

  /** The source of each paper, in order. */
  function SourceList(papers: seq<Paper>): (r: seq<string>)
    ensures |r| == |papers|
    ensures forall i :: 0 <= i < |papers| ==> r[i] == papers[i].source
  {
    seq(|papers|, i requires 0 <= i < |papers| => papers[i].source)
  }

  /** The sum of the counts of `sources`. */
  function SumCounts(papers: seq<Paper>, sources: seq<string>): nat {
    if |sources| == 0 then 0
    else SumCounts(papers, sources[..|sources| - 1]) + CountOf(papers, sources[|sources| - 1])
  }

  lemma CountOfAppend(papers: seq<Paper>, p: Paper, source: string)
    ensures CountOf(papers + [p], source) == CountOf(papers, source) + (if p.source == source then 1 else 0)
  {
    assert (papers + [p])[..|papers|] == papers;
  }

  lemma {:induction false} SumCountsAppend(papers: seq<Paper>, p: Paper, sources: seq<string>)
    requires forall i, j :: 0 <= i < j < |sources| ==> sources[i] != sources[j]
    ensures SumCounts(papers + [p], sources) == SumCounts(papers, sources) + (if p.source in sources then 1 else 0)
  {
    if |sources| > 0 {
      var init := sources[..|sources| - 1];
      var last := sources[|sources| - 1];
      SumCountsAppend(papers, p, init);
      CountOfAppend(papers, p, last);
      assert sources == init + [last];
      if p.source == last {
        assert p.source !in init;
      }
    }
  }

  /** Summing the counts over a list of distinct sources that covers every
      paper gives the number of papers. */
  lemma {:induction false} CountsCoverAll(papers: seq<Paper>, sources: seq<string>)
    requires forall i, j :: 0 <= i < j < |sources| ==> sources[i] != sources[j]
    requires forall i :: 0 <= i < |papers| ==> papers[i].source in sources
    ensures SumCounts(papers, sources) == |papers|
  {
    if |papers| == 0 {
      SumCountsNone(sources);
    } else {
      var init := papers[..|papers| - 1];
      var last := papers[|papers| - 1];
      forall i | 0 <= i < |init| ensures init[i].source in sources {
        assert init[i] == papers[i];
      }
      CountsCoverAll(init, sources);
      SumCountsAppend(init, last, sources);
      assert papers == init + [last];
    }
  }

  lemma {:induction false} SumCountsNone(sources: seq<string>)
    ensures SumCounts([], sources) == 0
  {
    if |sources| > 0 {
      SumCountsNone(sources[..|sources| - 1]);
    }
  }

  /** The counts `_source_counts` holds, taken over its keys in insertion
      order (each source at its first paper), add up to the number of
      papers. */
  lemma SourceCountsSum(papers: seq<Paper>)
    ensures SumCounts(papers, DedupBy(SourceList(papers), Exact)) == |papers|
  {
    var sources := SourceList(papers);
    var keys := DedupBy(sources, Exact);
    DedupByDistinct(sources, Exact);
    DedupByKeys(sources, Exact);
    forall i, j | 0 <= i < j < |keys| ensures keys[i] != keys[j] {
      assert Exact(keys[i]) != Exact(keys[j]);
    }
    forall i | 0 <= i < |papers| ensures papers[i].source in keys {
      assert Exact(sources[i]) in KeySet(sources, Exact);
      var t :| 0 <= t < |keys| && Exact(keys[t]) == papers[i].source;
    }
    CountsCoverAll(papers, keys);
  }

  // ---------------------------------------------------------------------
  // The plain-text body and the subject
  // ---------------------------------------------------------------------

  const SourcesChecked := "Sources checked: arXiv (cond-mat/new), Nature Communications, Physical Review Letters, Nature (journal)"

  /** The ten lines before the papers: title, the sources checked, the
      number of papers and the count of each of the four sources. */
  function HeaderLines(papers: seq<Paper>): (r: seq<string>)
    ensures |r| == 10
  {
    ["Daily Paper Digest", "", SourcesChecked,
     "Related papers found: " + ShowNat(|papers|), "",
     "arXiv (cond-mat/new): " + ShowNat(CountOf(papers, "arxiv")),
     "Nature Communications: " + ShowNat(CountOf(papers, "nature")),
     "Physical Review Letters: " + ShowNat(CountOf(papers, "aps-prl")),
     "Nature (journal): " + ShowNat(CountOf(papers, "nature-journal")),
     ""]
  }

  /** The authors joined by ", ", or "N/A" when there are none. */
  function AuthorsText(authors: seq<string>): string {
    if |authors| == 0 then "N/A" else Join(authors, ", ")
  }

  /** The six lines of one paper. */
  function PaperBlock(p: Paper): seq<string> {
    ["Title: " + p.title, "Authors: " + AuthorsText(p.authors), "Link: " + p.link,
     "Date: " + p.publishedDate, "Keywords: " + Join(p.keywordsMatched, ", "), ""]
  }

  function PaperBlocks(papers: seq<Paper>): (r: seq<string>)
    ensures |r| == 6 * |papers|
  {
    if |papers| == 0 then []
    else PaperBlocks(papers[..|papers| - 1]) + PaperBlock(papers[|papers| - 1])
  }

  /** The lines of `_build_plain_body`. */
  function PlainLines(papers: seq<Paper>, keywords: seq<string>): seq<string> {
    HeaderLines(papers) + PaperBlocks(papers)
      + ["Matched keywords: " + Join(keywords, ", ")]
  }

  /** `_build_plain_body`: the lines joined by newlines. */
  function PlainBody(papers: seq<Paper>, keywords: seq<string>): string {
    Join(PlainLines(papers, keywords), "\n")
  }

  lemma {:induction false} PaperBlocksAt(papers: seq<Paper>, k: nat)
    requires k < |papers|
    ensures PaperBlocks(papers)[6 * k..6 * k + 6] == PaperBlock(papers[k])
  {
    var init := papers[..|papers| - 1];
    if k < |init| {
      PaperBlocksAt(init, k);
      assert init[k] == papers[k];
      assert PaperBlocks(papers)[6 * k..6 * k + 6] == PaperBlocks(init)[6 * k..6 * k + 6];
    } else {
      assert PaperBlocks(papers)[6 * k..6 * k + 6] == PaperBlock(papers[k]);
    }
  }

  /** The body has ten header lines, whose counts are the papers per
      source, then six lines per paper in input order, then the matched
      keywords line. */
  lemma PlainLinesLayout(papers: seq<Paper>, keywords: seq<string>)
    ensures var lines := PlainLines(papers, keywords);
      |lines| == 11 + 6 * |papers|
      && lines[..10] == HeaderLines(papers)
      && lines[|lines| - 1] == "Matched keywords: " + Join(keywords, ", ")
  {
    var lines := PlainLines(papers, keywords);
    assert lines[..10] == HeaderLines(papers);
  }

  /** Lines 10 + 6k to 15 + 6k of the body are the block of paper k. */
  lemma PlainLinesBlocks(papers: seq<Paper>, keywords: seq<string>, k: nat)
    requires k < |papers|
    ensures PlainLines(papers, keywords)[10 + 6 * k..16 + 6 * k] == PaperBlock(papers[k])
  {
    var blocks := PaperBlocks(papers);
    PaperBlocksAt(papers, k);
    assert PlainLines(papers, keywords)[10 + 6 * k..16 + 6 * k] == blocks[6 * k..6 * k + 6];
  }

  /** A paper without authors is shown with "N/A". */
  lemma NoAuthorsShownAsNotAvailable(p: Paper)
    requires |p.authors| == 0
    ensures PaperBlock(p)[1] == "Authors: N/A"
  {
  }

  /** `_build_plain_body` as written: the header lines, then each paper's
      block appended in turn, then the keywords line. */
  method BuildPlainBody(papers: seq<Paper>, keywords: seq<string>) returns (body: string)
    ensures body == PlainBody(papers, keywords)
  {
    var counts := SourceCounts(papers);
    var lines := ["Daily Paper Digest", "", SourcesChecked,
      "Related papers found: " + ShowNat(|papers|), "",
      "arXiv (cond-mat/new): " + ShowNat(CountOrZero(counts, "arxiv")),
      "Nature Communications: " + ShowNat(CountOrZero(counts, "nature")),
      "Physical Review Letters: " + ShowNat(CountOrZero(counts, "aps-prl")),
      "Nature (journal): " + ShowNat(CountOrZero(counts, "nature-journal")),
      ""];
    assert lines == HeaderLines(papers) + PaperBlocks(papers[..0]);
    for i := 0 to |papers|
      invariant lines == HeaderLines(papers) + PaperBlocks(papers[..i])
    {
      assert papers[..i + 1][..i] == papers[..i];
      lines := lines + PaperBlock(papers[i]);
    }
    assert papers[..|papers|] == papers;
    lines := lines + ["Matched keywords: " + Join(keywords, ", ")];
    body := Join(lines, "\n");
  }

  /** The subject line of `_build_message`. */
  function Subject(papers: seq<Paper>, keywords: seq<string>): string {
    "Paper Digest (" + ShowNat(|papers|) + "): " + Join(keywords, ", ")
  }

  /** The subject starts with the number of papers and names every digest
      keyword. */
  lemma SubjectNamesKeywords(papers: seq<Paper>, keywords: seq<string>)
    ensures StartsWith(Subject(papers, keywords), "Paper Digest (" + ShowNat(|papers|) + "): ")
    ensures forall k :: 0 <= k < |keywords| ==> Contains(Subject(papers, keywords), keywords[k])
  {
    var head := "Paper Digest (" + ShowNat(|papers|) + "): ";
    assert Subject(papers, keywords)[..|head|] == head;
    forall k | 0 <= k < |keywords| ensures Contains(Subject(papers, keywords), keywords[k]) {
      JoinContains(keywords, ", ", k);
      ContainsInConcat(head, Join(keywords, ", "), keywords[k]);
    }
  }

  // ---------------------------------------------------------------------
  // Sending
  // ---------------------------------------------------------------------

  /** The parts of the message the model keeps. */
  datatype Message = Message(subject: string, plainBody: string)

  /** The message `_build_message` assembles for the papers. */
  function DigestMessage(papers: seq<Paper>): Message {
    Message(Subject(papers, DigestKeywords(papers)), PlainBody(papers, DigestKeywords(papers)))
  }

  /** How a call to `send_digest` ends: it returns False without sending, it
      returns True after delivery, or the SMTP exchange raises. */
  datatype SendOutcome = NotSent | Delivered(message: Message) | TransportFailed(message: Message)

  /** `send_digest`: an empty list is refused without any SMTP exchange;
      otherwise the digest message is built and handed to `deliver`, the
      SMTP exchange, which says whether it went through. */
  method SendDigest(papers: seq<Paper>, deliver: Message -> bool) returns (outcome: SendOutcome)
    ensures outcome.NotSent? <==> |papers| == 0
    ensures !outcome.NotSent? ==> outcome.message == DigestMessage(papers)
    ensures outcome.Delivered? <==> |papers| > 0 && deliver(DigestMessage(papers))
  {
    if |papers| == 0 {
      return NotSent;
    }
    var keywords := MatchedKeywords(papers);
    var body := BuildPlainBody(papers, keywords);
    var message := Message(Subject(papers, keywords), body);
    if deliver(message) {
      outcome := Delivered(message);
    } else {
      outcome := TransportFailed(message);
    }
  }
}
