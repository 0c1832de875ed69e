# paper_digest in Dafny

This project models the core of paper_digest. paper_digest is a daily job with four steps:

1. It fetches new papers from several RSS feeds.
2. It keeps the papers whose title or summary mentions a configured keyword.
3. It drops the papers whose link it has already recorded.
4. It e-mails a plain-text digest, and only once the digest is sent does it record the links as seen.

The model covers each of these pieces:

- **Configuration** (`config.dfy`): parsing the `KEYWORDS` variable.
- **Shared fetcher helpers** (`common.dfy`): keyword matching, date normalisation and link canonicalisation.
- **Paper record** (`models.dfy`): the `Paper` record and its dictionary form.
- **Seen-link store** (`storage.dfy`): the JSON state file.
- **Feed-entry normaliser** (`rss.dfy`): turns parsed feed entries into normalised entries.
- **Three fetchers built on it:**
  - Nature news (`nature.dfy`).
  - Physical Review Letters (`aps_prl.dfy`), with its section filter.
  - Nature journal (`nature_journal.dfy`), with its category allowlist.
  - The author and date fallbacks these two read from the raw entry are in `fallbacks.dfy`.
- **The digest e-mail** (`emailer.dfy`).
- **The run** (`runner.dfy`), which ties them together.

Three modules are support code:

- `text.dfy` holds Python's string operations: `strip`, `lower`, `in`, `split` and `join`.
- `seqs.dfy` holds generic list reasoning: filtering, keeping the first of each key, and the collect-what-a-step-returns pattern every fetcher loop follows.
- `raw.dfy` holds the loosely typed values a parsed feed hands back.

Code that works step by step is imperative Dafny, and each such method is proved equal to a specification function:

- The loops: `match_keywords`, the feed-normalising loop, the fetch loops, the author and date fallbacks, `_matched_keywords`, `_source_counts`, `_build_plain_body`, the gathering loop of `run_digest` and its marking loop.
- `PaperStorage`, a class whose `seenLinks` field and state file `mark_seen` updates in place.

Everything the program does not compute itself is an input of the model:

- the network;
- `feedparser`;
- the HTML-to-text step;
- `dateutil`;
- the file system;
- SMTP.

Some modules of the code do not fit together. The model follows each module's own code:

- `run_digest` builds only the arXiv and Nature news fetchers (`paper_digest/runner.py:19`). `Runner.RunDigest` therefore takes the fetchers' outcomes as a list, which covers any set of fetchers.
- The APS and Nature-journal fetchers read configuration fields that `Config` does not declare: the feed addresses, `rss_max_entries`, the section filter and the allowlist. Their models take these as parameters.
- The Nature news fetcher also reads `rss_max_entries` (`paper_digest/fetchers/nature.py:34`), which `Config` does not declare. `Nature.Fetch` models the fetcher as its authors evidently meant it, with the entry limit applied upstream. The code as written is under "## Findings".
- The default `NATURE_URL` fails the Nature fetcher's own RSS-address guard (`Nature.DefaultAddressRejected`). With that variable unset, the Nature fetcher returns no papers.

## Model

| member | source | states |
|---|---|---|
| Config.ParsedKeywordsFromSegments | paper_digest/config.py:29-32 | a keyword is parsed exactly when some comma-separated segment, trimmed, is non-blank and lower-cases to it |
| Config.ParsedKeywordsWellFormed | paper_digest/config.py:29-32 | every parsed keyword is non-empty, trimmed, lower-case and free of commas |
| Config.ParseKeywordsConcat | paper_digest/config.py:29-32 | the keywords of `a,b` are those of `a` followed by those of `b`, so segment order is kept |
| Config.MissingVariableGivesNone | paper_digest/config.py:29-32 | with `KEYWORDS` unset the keyword list is empty |
| Config.ParseJoinRoundTrip | paper_digest/config.py:29-32 | writing well-formed keywords joined by commas and parsing the result gives the same list back |
| Common.MatchKeywords | paper_digest/fetchers/common.py:7-20 | the loop with its `seen_lower` set returns exactly the specification list: the hits, with only the first keyword of each lower-cased form kept |
| Common.MatchedKeywordsAreKeywords | paper_digest/fetchers/common.py:12-18 | the result is a subsequence of the keywords: input order and original casing are kept |
| Common.MatchedKeywordsExact | paper_digest/fetchers/common.py:8-18 | a lower-cased form is represented in the result iff it is the form of some keyword and occurs in the lower-cased text |
| Common.MatchedKeywordsDistinct | paper_digest/fetchers/common.py:13-15 | no two results are equal ignoring case |
| Common.MatchedKeywordsFirstOfEachCase | paper_digest/fetchers/common.py:13-18 | each result is the first keyword of its lower-cased form |
| Common.MatchedKeywordsInFirstSeenOrder | paper_digest/fetchers/common.py:12-18 | the results come in the order in which their lower-cased forms first appear among the keywords: a result occurs among the keywords before any keyword of a later result's form |
| Common.MatchedKeywordsEmpty | paper_digest/fetchers/common.py:7-20 | no keywords give no matches |
| Common.SearchIsoDate | paper_digest/fetchers/common.py:29 | finds the leftmost index where `\d{4}-\d{2}-\d{2}` matches, with `\d` read as an ASCII digit, or reports that there is none |
| Common.NormalizeDate | paper_digest/fetchers/common.py:23-30 | the result is empty iff the input is; a successful parse gives the parser's date; otherwise the leftmost ISO date in ASCII digits in the input, or the input itself |
| Common.SplitUrl | paper_digest/fetchers/common.py:35 | splits off the query and fragment: the base is a prefix of the URL without `?` or `#`, and a URL without them is all base |
| Common.SplitUnsplit | paper_digest/fetchers/common.py:35-42 | splitting a reassembled URL gives back its parts |
| Common.ParseEncodedQuery | paper_digest/fetchers/common.py:38-41 | encoding query pairs the parser can produce and parsing them again is the identity |
| Common.EncodedQueryHasNoHash | paper_digest/fetchers/common.py:41 | an encoded query never introduces a fragment |
| Common.ParseQueryPlain | paper_digest/fetchers/common.py:38 | the pairs parsed from a query without `#` contain no separator |
| Common.WithoutTrackingKeepsOthers | paper_digest/fetchers/common.py:36-40 | exactly the pairs whose key starts with `utm_` ignoring case are dropped, and the rest keep their order |
| Common.CanonicalizeLinkParts | paper_digest/fetchers/common.py:33-42 | the canonical link has the stripped input's base (as the model splits it, at the first `?` or `#`), no fragment, and the input's query minus its tracking pairs |
| Common.CanonicalizeLinkIdempotent | paper_digest/fetchers/common.py:33-42 | canonicalising a canonical link without trailing blanks changes nothing |
| Common.CanonicalizeLinkPlain | paper_digest/fetchers/common.py:33-42 | a link with neither query nor fragment is only stripped |
| Common.CanonicalizeLinkNoLeadingSpace | paper_digest/fetchers/common.py:34 | a canonical link never starts with whitespace |
| Models.NewPaper | paper_digest/models.py:25-30 | the constructor keeps every field as given except the link, which it strips |
| Models.NewPaperOfFields | paper_digest/models.py:25-30 | rebuilding a paper from its own fields gives the same paper |
| Models.Equals | paper_digest/models.py:32-35 | a paper equals another value iff that value is a paper with the same link |
| Models.NeverEqualsNonPaper | paper_digest/models.py:33-34 | a paper never equals a non-paper |
| Models.EqualsIsEquivalence | paper_digest/models.py:32-35 | equality of papers is reflexive, symmetric and transitive |
| Models.EqualIffTrimmedLinksEqual | paper_digest/models.py:25-35 | two constructed papers are equal iff their links agree once stripped |
| Models.EqualPapersHashEqually | paper_digest/models.py:32-38 | equal papers hash equally |
| Models.ToDict | paper_digest/models.py:40-48 | the dictionary always carries `keywords_matched` |
| Models.FromDict | paper_digest/models.py:50-59 | the fields are copied and the link stripped; a missing `keywords_matched` becomes the empty list |
| Models.FromDictToDict | paper_digest/models.py:40-59 | `from_dict(to_dict(p))` is `p` and equals it |
| Models.ToDictFromDict | paper_digest/models.py:40-59 | the dictionary round trip is stable exactly for papers whose link is already stripped |
| Models.FromDictStable | paper_digest/models.py:40-59 | a paper read from a dictionary survives a second round trip unchanged |
| Storage.Written | paper_digest/storage.py:49-51 | the written state is an object with only `seen_links`, a list of the given links |
| Storage.LoadSeenLinks | paper_digest/storage.py:23-47 | the file is reset iff it is unreadable, not JSON or not an object; the links are the strings of a `seen_links` list, else none |
| Storage.SortedLinks | paper_digest/storage.py:63 | `sorted(set)` lists every element once, in strictly increasing order |
| Storage.WrittenLoadsBack | paper_digest/storage.py:43-51 | a state written from a set of links loads back as exactly that set |
| Storage.PaperStorage.constructor | paper_digest/storage.py:13-21 | the seen set is what the file loads to; a missing or reset file is rewritten empty, and any other file is left untouched |
| Storage.PaperStorage.MarkSeen | paper_digest/storage.py:57-63 | afterwards the paper is seen, and the seen set gains exactly its link; an already-seen link leaves the file alone, and a new one rewrites it sorted, so the file and the set agree |
| Storage.MarkSeenTwice | paper_digest/storage.py:57-63 | marking the same paper twice is the same as marking it once |
| Storage.Reopen | paper_digest/storage.py:13-63 | a store reopened on the file the store wrote sees the same links |
| RawValues.FirstTruthy | paper_digest/fetchers/rss.py:41-44 | `a or b or c` gives the first truthy operand, else the last |
| RawValues.RawGet | paper_digest/fetchers/aps_prl_rss.py:119-126 | a key gives a value iff the object is a mapping holding it with a value other than None or "" |
| RawValues.TextField | paper_digest/fetchers/rss.py:36 | `str(entry.get(key, "")).strip()` is trimmed |
| Rss.ListedNames | paper_digest/fetchers/rss.py:48-54 | the names from a list of records are non-empty and trimmed |
| Rss.ListedNamesFrom | paper_digest/fetchers/rss.py:48-54 | each such name is the stripped field of some record in the list |
| Rss.NamesOrSingle | paper_digest/fetchers/rss.py:46-72 | the authors and categories are non-empty, trimmed names; without a list, they are the single field if it is non-blank |
| Rss.CollectNames | paper_digest/fetchers/rss.py:46-72 | the author and category loops compute the specification |
| Rss.NormalizedEntry | paper_digest/fetchers/rss.py:36-84 | an entry is dropped iff its stripped title or its canonical link is empty; otherwise it is normalised with those two |
| Rss.KeptEntryShape | paper_digest/fetchers/rss.py:36-84 | a kept entry has a non-empty trimmed title, a non-empty link without a fragment, trimmed authors and categories, and the raw entry |
| Rss.CapLength | paper_digest/fetchers/rss.py:85-86 | the cap, checked after each append, keeps at most `max_entries` entries but always at least one |
| Rss.NormalizeEntries | paper_digest/fetchers/rss.py:34-88 | the loop returns the first entries of the kept list, up to the cap |
| Rss.NormalizeOne | paper_digest/fetchers/rss.py:36-84 | the loop body computes the normalised entry |
| Rss.NormalizedEntriesShape | paper_digest/fetchers/rss.py:34-88 | the output respects the cap, is non-empty when some entry is kept, keeps the feed's order, and comes entry by entry from the input |
| Rss.EntryRecord | paper_digest/fetchers/rss.py:74-84 | the normalised dictionary has exactly the seven keys |
| Fallbacks.AuthorNames | paper_digest/fetchers/aps_prl_rss.py:113-114 | the names split on commas and ` and ` are non-empty, trimmed and comma-free |
| Fallbacks.AuthorNamesExample | paper_digest/fetchers/aps_prl_rss.py:113-114 | "Dana and Evan, Frank" splits into Dana, Evan and Frank |
| Fallbacks.SplitWord | paper_digest/fetchers/aps_prl_rss.py:113 | a word without separators is one piece |
| Fallbacks.AuthorPiecesHaveNoSeparator | paper_digest/fetchers/aps_prl_rss.py:113 | no piece of the split holds a comma or a match of `\s+and\s+`: the split leaves no separator inside a piece |
| Fallbacks.FallbackAuthors | paper_digest/fetchers/aps_prl_rss.py:108-117 | the key loop returns the specification: trimmed non-empty names of the first creator key that gives any |
| Fallbacks.FallbackPublished | paper_digest/fetchers/aps_prl_rss.py:91-106 | the key loop returns the first non-empty normalised date among the date keys |
| Fallbacks.AuthorsFromFirstKey | paper_digest/fetchers/aps_prl_rss.py:108-117 | the fallback is empty iff no key gives names; otherwise it is the names of the first key that gives any |
| Fallbacks.DateFromFirstKey | paper_digest/fetchers/aps_prl_rss.py:91-106 | the fallback is empty iff no key gives a date; otherwise it is the date of the first key that gives one |
| Fallbacks.AuthorsOf | paper_digest/fetchers/aps_prl_rss.py:53-56 | a non-empty author list gives each item's text, in order, and anything else falls back to the raw creator keys |
| ApsPrl.ValueTexts | paper_digest/fetchers/aps_prl_rss.py:83-87 | a missing value adds nothing, and a present non-list adds its text |
| ApsPrl.KeyTextsStep | paper_digest/fetchers/aps_prl_rss.py:82-87 | each section key appends its texts after those of the keys before it |
| ApsPrl.AddKeyTexts | paper_digest/fetchers/aps_prl_rss.py:82-87 | the key loop appends the texts of every key, in order |
| ApsPrl.BuildHaystacks | paper_digest/fetchers/aps_prl_rss.py:76-87 | the haystacks are the entry's categories followed by the texts of the section keys |
| ApsPrl.MatchesSectionFilter | paper_digest/fetchers/aps_prl_rss.py:71-89 | the method decides the section filter exactly as specified |
| ApsPrl.BlankFilterAcceptsAll | paper_digest/fetchers/aps_prl_rss.py:72-74 | a blank filter accepts every entry |
| ApsPrl.CategoryHitPasses | paper_digest/fetchers/aps_prl_rss.py:78-80 | a category containing the filter, ignoring case, passes |
| ApsPrl.SectionKeyHitPasses | paper_digest/fetchers/aps_prl_rss.py:82-89 | a raw section value containing the filter, ignoring case, passes |
| ApsPrl.KeyTextsWithin | paper_digest/fetchers/aps_prl_rss.py:82-87 | the texts of every key are among the haystacks |
| ApsPrl.NothingToSearchRejects | paper_digest/fetchers/aps_prl_rss.py:76-89 | a non-blank filter with no categories and no section values rejects |
| ApsPrl.KeyTextsNone | paper_digest/fetchers/aps_prl_rss.py:82-87 | keys that are all absent contribute no haystack |
| ApsPrl.PublishedOf | paper_digest/fetchers/aps_prl_rss.py:49-51 | a non-blank `published` is kept, and otherwise the raw date fallback is used |
| ApsPrl.ApsPaper | paper_digest/fetchers/aps_prl_rss.py:32-67 | an entry gives no paper iff its title or link is blank, the section filter rejects it, or no keyword matches |
| ApsPrl.ApsPaperFields | paper_digest/fetchers/aps_prl_rss.py:49-67 | a paper has the trimmed title and link, source "aps-prl", the non-empty match, the date with its fallback and the authors with theirs |
| ApsPrl.FetchOne | paper_digest/fetchers/aps_prl_rss.py:33-67 | the loop body computes the entry's paper |
| ApsPrl.Fetch | paper_digest/fetchers/aps_prl_rss.py:20-69 | a failed request gives no papers; otherwise the papers of the entries, in order |
| ApsPrl.FetchedPapersFromEntries | paper_digest/fetchers/aps_prl_rss.py:31-69 | a paper is fetched iff some entry gives it |
| NatureJournal.CategoryKeyOfNormal | paper_digest/fetchers/nature_journal_rss.py:70-84 | a trimmed lower-case category is its own comparison key |
| NatureJournal.BlankAllowlistAcceptsAll | paper_digest/fetchers/nature_journal_rss.py:67-76 | an allowlist of blank items accepts every entry |
| NatureJournal.NonListCategoriesRejected | paper_digest/fetchers/nature_journal_rss.py:78-80 | with an active allowlist, categories that are not a list reject |
| NatureJournal.SingleCategoryAccepts | paper_digest/fetchers/nature_journal_rss.py:66-85 | a single category passes a one-item allowlist iff the two agree once trimmed and lower-cased |
| NatureJournal.SubstringIsNotEnough | paper_digest/fetchers/nature_journal_rss.py:85 | a category that only contains the allowed item is rejected: the match is by equality, not substring |
| NatureJournal.JournalPaper | paper_digest/fetchers/nature_journal_rss.py:32-62 | an entry gives no paper iff its title or link is blank, the allowlist rejects it, or no keyword matches |
| NatureJournal.JournalPaperFields | paper_digest/fetchers/nature_journal_rss.py:48-62 | a paper has the trimmed title and link, source "nature-journal", `published` without fallback, the authors with their fallback and the non-empty match |
| NatureJournal.FetchOne | paper_digest/fetchers/nature_journal_rss.py:33-62 | the loop body computes the entry's paper |
| NatureJournal.Fetch | paper_digest/fetchers/nature_journal_rss.py:20-64 | a failed request gives no papers; otherwise the papers of the entries, in order |
| NatureJournal.FetchedPapersFromEntries | paper_digest/fetchers/nature_journal_rss.py:31-64 | a paper is fetched iff some entry gives it |
| Nature.TitleSummaryMatches | paper_digest/fetchers/nature.py:67-70 | the match of title and summary is a subsequence of the keywords, and a lower-cased form is represented iff it occurs in either |
| Nature.NaturePaper | paper_digest/fetchers/nature.py:49-52 | an entry gives no paper iff its title and stripped summary match no keyword |
| Nature.NaturePaperFields | paper_digest/fetchers/nature.py:43-63 | a paper copies the entry's title, authors and date, has its link stripped, source "nature" and the non-empty match |
| Nature.FetchOne | paper_digest/fetchers/nature.py:43-63 | the loop body computes the entry's paper |
| Nature.Fetch | paper_digest/fetchers/nature.py:20-65 | a non-RSS address or a failed request gives no papers; otherwise the papers of the entries, in order |
| Nature.FetchedPapersFromEntries | paper_digest/fetchers/nature.py:40-65 | a paper is fetched iff some entry gives it |
| Nature.RssSuffixPasses | paper_digest/fetchers/nature.py:21-24 | any address ending in ".rss" passes the guard |
| Nature.FeedsHostPasses | paper_digest/fetchers/nature.py:21-24 | any address containing "feeds.nature.com" passes the guard |
| Nature.DefaultAddressRejected | paper_digest/config.py:42-44 | the default `NATURE_URL` fails the guard in `paper_digest/fetchers/nature.py` lines 21-28 |
| Emailer.AllKeywordsMembers | paper_digest/emailer.py:113-114 | a keyword is visited iff some paper matched it |
| Emailer.DigestKeywordsUnion | paper_digest/emailer.py:110-118 | the digest keywords are exactly the union of the papers' matched keywords |
| Emailer.DigestKeywordsOrdered | paper_digest/emailer.py:110-118 | the digest keywords are pairwise distinct, a subsequence of the papers' keywords, and each comes before any later one first appears among them |
| Emailer.MatchedKeywords | paper_digest/emailer.py:110-118 | the nested loop with its `seen` set computes the digest keywords |
| Emailer.SourceCounts | paper_digest/emailer.py:120-124 | a source is a key iff some paper has it, and `get(source, 0)` is the number of papers from that source |
| Emailer.CountOfAppend | paper_digest/emailer.py:122-123 | one more paper adds one to its own source's count only |
| Emailer.SumCountsAppend | paper_digest/emailer.py:120-124 | over distinct sources, one more paper raises the total by one iff its source is listed |
| Emailer.CountsCoverAll | paper_digest/emailer.py:120-124 | over distinct sources covering every paper, the counts add up to the number of papers |
| Emailer.SourceCountsSum | paper_digest/emailer.py:120-124 | the counts of the distinct sources add up to the number of papers |
| Emailer.HeaderLines | paper_digest/emailer.py:45-57 | the header is ten lines |
| Emailer.PaperBlocks | paper_digest/emailer.py:59-71 | six lines per paper |
| Emailer.PaperBlocksAt | paper_digest/emailer.py:59-71 | the k-th six lines are the k-th paper's block |
| Emailer.PlainLinesLayout | paper_digest/emailer.py:42-74 | the body is the header, six lines per paper, and the matched-keywords line last |
| Emailer.PlainLinesBlocks | paper_digest/emailer.py:59-71 | lines 10+6k to 16+6k are the block of paper k |
| Emailer.NoAuthorsShownAsNotAvailable | paper_digest/emailer.py:60 | a paper without authors shows "Authors: N/A" |
| Emailer.BuildPlainBody | paper_digest/emailer.py:42-74 | the method builds the specified body |
| Emailer.SubjectNamesKeywords | paper_digest/emailer.py:29-31 | the subject opens with the paper count and names every digest keyword |
| Emailer.SendDigest | paper_digest/emailer.py:15-40 | an empty list is refused without sending; otherwise the digest message is handed over, and it is delivered iff the exchange succeeds |
| Runner.AllPapersConcat | paper_digest/runner.py:21-26 | gathering is compositional over the fetchers |
| Runner.FailedFetcherContributesNothing | paper_digest/runner.py:22-26 | a fetcher that raises adds nothing, and the papers of the others are all still gathered |
| Runner.GatherPapers | paper_digest/runner.py:21-26 | the gathering loop computes the specification |
| Runner.NewPapersAreUnseen | paper_digest/runner.py:28 | the new papers are, in order, exactly the gathered papers whose link was not seen |
| Runner.LinksMembers | paper_digest/runner.py:36-37 | the link of every marked paper is among the marked links |
| Runner.LinksAppend | paper_digest/runner.py:36-37 | one more paper adds its link |
| Runner.SecondRunFindsNothingNew | paper_digest/runner.py:28-38 | after marking, every gathered paper is seen, so the same results give no new papers a second time |
| Runner.MarkAll | paper_digest/runner.py:36-37 | the marking loop adds exactly the papers' links |
| Runner.NatureAsWrittenContributesNothing | paper_digest/fetchers/nature.py:20-38 | with the `Config` of `paper_digest/config.py`, the Nature news fetcher adds no paper to a run, whatever its address |
| Runner.RunDigest | paper_digest/runner.py:15-41 | construction failure gives 1; no new papers gives 0 with nothing sent or marked; a failed send gives 1 with nothing marked; otherwise 0 with exactly the new links marked |

## Left out

- HTTP requests and `feedparser` are not modelled. The result of a fetch is an input: either the parsed entries or a request failure.
- BeautifulSoup's text extraction (`paper_digest/fetchers/nature.py:49`) is the function parameter `stripHtml`.
- `dateutil` parsing is the function parameter `parse` of `Common.NormalizeDate`.
- Common.CanonicalizeLink: does not model percent-decoding and percent-encoding in `parse_qsl` and `urlencode`. It does not model the full `urlsplit` grammar either; the scheme, host and path are kept as one base string. So the model does not lower-case the scheme (`HTTP://x` stays as it is), does not remove tab, CR and LF characters inside the link, and does not rebuild a link such as `http:/p` as `http:///p`, as `urlsplit` and `urlunsplit` do.
- Common.CanonicalizeLink: `urlsplit` raising `ValueError` (an unbalanced `[` in the host, for instance) is not modelled. In the code the exception escapes `canonicalize_link`, the fetcher raises and `run_digest` drops it.
- Common.NormalizeDate: an `OverflowError` from `dateutil` (a year too large) is not modelled. It is not in the `(TypeError, ValueError)` handler, so in the code it escapes; the model's `parse` either gives a date or fails into the fallback.
- Storage.PaperStorage.constructor: a state file that is not valid UTF-8 is not modelled. `read_text` then raises `UnicodeDecodeError`, which the `(OSError, json.JSONDecodeError)` handler does not catch, so construction raises; in the model that is the `None` input of `Runner.RunDigest`.
- Nature.Fetch: assumes a configuration that has `rss_max_entries`. With the `Config` of `paper_digest/config.py`, the call at `paper_digest/fetchers/nature.py:31-35` raises `AttributeError`, which escapes the handler at line 36, and `run_digest` drops the fetcher. `Runner.NatureAsWrittenContributesNothing` states that behaviour; the entry limit itself is part of the fetched feed, an input.
- Common.SearchIsoDate: `\d` is modelled as the ASCII digits `0` to `9`. Python's `re` matches any Unicode decimal digit with `\d` in a `str` pattern, so a date written in other digits (Arabic-Indic, for instance) is found by the code but not by the model, and `Common.NormalizeDate` then returns the whole input instead of that date.
- Text.Lower: folds ASCII letters only; Python's Unicode case mapping is not modelled.
- RawValues.Show: `str()` of a list, a dictionary or an arbitrary object is a placeholder or a given string, not Python's exact rendering.
- The file system and JSON text are not modelled. The state file is a value, `StoredFile`: missing, unreadable, not JSON, or a parsed JSON document. The ordering of `sorted` is a total order on strings, not the JSON bytes.
- Storage.PaperStorage.MarkSeen: a write that fails after the link has been added is not modelled.
- SMTP, the MIME structure, the HTML body (`_build_html_body`) and the From/To headers are not modelled. Sending is the parameter `deliver`, which says whether the exchange succeeded.
- Emailer.SendDigest: an exception from SMTP is the `TransportFailed` outcome rather than a raised exception. `Runner.RunDigest` maps it to exit code 1, as the outer handler does.
- Runner.RunDigest: the fetchers are not run. Their outcomes, returned or raised, are inputs, so the arXiv fetcher (`paper_digest/fetchers/arxiv.py`) is not part of this model.
- Runner.RunDigest: construction of the store raising is the `None` input, and the store's own file is the `Some` input. Exceptions raised inside `mark_seen` are not modelled.
- Logging, `main`, `load_dotenv` and the configuration fields other than the keywords are not modelled.
- NatureJournal.AllowlistAccepts: Python's sets are modelled by indices into the lists; membership is the same.
- The `raw` field of a normalised entry is the parsed entry itself. It is not a separate feedparser object.

## Findings

| source | as written | input that shows it | evidently intended | confidence | as-written member | corrected member |
|---|---|---|---|---|---|---|
| paper_digest/fetchers/nature.py:34 | `fetch` reads `self.config.rss_max_entries`, which the `Config` of `paper_digest/config.py:15-25` does not declare; the `AttributeError` escapes the `requests.RequestException` handler and `run_digest` drops the fetcher | `NATURE_URL=https://www.nature.com/nature.rss`: the guard passes, the attribute read raises, and no Nature paper reaches the digest | the feed is fetched with an entry limit and the matching entries become papers | high that it raises, not executed | Runner.NatureAsWrittenContributesNothing | Nature.Fetch |
