/**
 * What the APS and Nature-journal fetchers read from a normalised entry the
 * same way: the text they match keywords against, the author list, and the
 * fallbacks taken from the entry's raw feed fields (authors from a creator
 * string split on `\s+and\s+` or `,`, a publication date from the first raw
 * date field that normalises).
 */
module Fallbacks {
  import opened Wrappers
  import opened Text
  import opened Seqs
  import opened Common
  import opened RawValues

  // ---------------------------------------------------------------------
  // re.split(r"\s+and\s+|,", s)
  // ---------------------------------------------------------------------

  /** The end of the run of whitespace starting at `i`. */
  function SpaceRunEnd(s: string, i: nat): (j: nat)
    requires i <= |s|
    ensures i <= j <= |s|
    ensures forall k :: i <= k < j ==> IsSpace(s[k])
    ensures j == |s| || !IsSpace(s[j])
    decreases |s| - i
  {
    if i < |s| && IsSpace(s[i]) then SpaceRunEnd(s, i + 1) else i
  }

  /** Where a match of `\s+and\s+` starting at `i` ends, if there is one. The
      greedy `\s+` must take the whole run, since "and" is not whitespace, so
      the match, when there is one, is unique. */
  function AndMatchEnd(s: string, i: nat): (r: Option<nat>)
    requires i < |s|
    ensures r.Some? ==> i < r.value <= |s|
    ensures r.Some? ==> IsSpace(s[i])
  {
    if !IsSpace(s[i]) then None
    else
      var j := SpaceRunEnd(s, i);
      if j + 3 < |s| && s[j..j + 3] == "and" && IsSpace(s[j + 3]) then Some(SpaceRunEnd(s, j + 3))
      else None
  }

  /** `re.split` scanning from `i`, with the current piece starting at
      `start`: the leftmost match of either alternative, tried at each
      position in turn, ends the piece. */
  function SplitFrom(s: string, start: nat, i: nat): (r: seq<string>)
    requires start <= i <= |s|
    requires ',' !in s[start..i]
    ensures |r| >= 1
    ensures forall k :: 0 <= k < |r| ==> ',' !in r[k]
    decreases |s| - i
  {
    if i == |s| then [s[start..]]
    else if s[i] == ',' then [s[start..i]] + SplitFrom(s, i + 1, i + 1)
    else match AndMatchEnd(s, i)
      case Some(k) => [s[start..i]] + SplitFrom(s, k, k)
      case None =>
        assert s[start..i + 1] == s[start..i] + [s[i]];
        SplitFrom(s, start, i + 1)
  }

  /** `re.split(r"\s+and\s+|,", s)`. */
  function AuthorPieces(s: string): (r: seq<string>)
    ensures |r| >= 1
    ensures forall k :: 0 <= k < |r| ==> ',' !in r[k]
  {
    SplitFrom(s, 0, 0)
  }

  /** `piece.strip()` when that is non-empty. */
  function NonBlank(piece: string): Option<string> {
    var t := Strip(piece);
    if |t| > 0 then Some(t) else None
  }

  /** `[piece.strip() for piece in pieces if piece.strip()]`. */
  function AuthorNames(s: string): (r: seq<string>)
    ensures forall k :: 0 <= k < |r| ==> |r[k]| > 0 && Trimmed(r[k]) && ',' !in r[k]
  {
    var pieces := AuthorPieces(s);
    var r := Collect(pieces, NonBlank);
    CollectMembers(pieces, NonBlank);
    forall k | 0 <= k < |r|
      ensures |r[k]| > 0 && Trimmed(r[k]) && ',' !in r[k]
    {
      assert r[k] in r;
      var i :| 0 <= i < |pieces| && NonBlank(pieces[i]) == Some(r[k]);
      assert forall c :: c in Strip(pieces[i]) ==> c in pieces[i];
    }
    r
  }

  /** Characters that are neither a comma nor whitespace never end a piece. */
  lemma {:induction false} SplitFromSkip(s: string, start: nat, i: nat, j: nat)
    requires start <= i <= j <= |s|
    requires ',' !in s[start..i]
    requires forall k :: i <= k < j ==> s[k] != ',' && !IsSpace(s[k])
    ensures ',' !in s[start..j]
    ensures SplitFrom(s, start, i) == SplitFrom(s, start, j)
    decreases j - i
  {
    if i < j {
      assert s[start..i + 1] == s[start..i] + [s[i]];
      SplitFromSkip(s, start, i + 1, j);
    }
  }

  /** A string with no comma and no whitespace is one piece. */
  lemma SplitWord(s: string)
    requires forall k :: 0 <= k < |s| ==> s[k] != ',' && !IsSpace(s[k])
    ensures AuthorPieces(s) == [s]
  {
    SplitFromSkip(s, 0, 0, |s|);
  }

  /** The whitespace run starting at `i` stops at the first non-space `j`. */
  lemma {:induction false} SpaceRunEndAt(s: string, i: nat, j: nat)
    requires i <= j < |s| && !IsSpace(s[j])
    requires forall k :: i <= k < j ==> IsSpace(s[k])
    ensures SpaceRunEnd(s, i) == j
    decreases j - i
  {
    if i < j {
      SpaceRunEndAt(s, i + 1, j);
    }
  }

  /** A match of `\s+and\s+` inside a slice of `s` is a match in `s`. */
  lemma AndMatchInSlice(s: string, a: nat, b: nat, q: nat)
    requires a <= b <= |s| && q < b - a
    requires AndMatchEnd(s[a..b], q).Some?
    ensures AndMatchEnd(s, a + q).Some?
  {
    var p := s[a..b];
    var j := SpaceRunEnd(p, q);
    assert p[j] == p[j..j + 3][0] == 'a';
    assert s[a + j] == p[j];
    SpaceRunEndAt(s, a + q, a + j);
    assert s[a + j..a + j + 3] == p[j..j + 3];
    assert s[a + j + 3] == p[j + 3];
  }

  /** No match of `\s+and\s+` starts anywhere in `p`. */
  predicate HasNoAndMatch(p: string) {
    forall q :: 0 <= q < |p| ==> AndMatchEnd(p, q).None?
  }

  /** A slice of `s` with no match starting in it holds no match itself. */
  lemma NoAndMatchInSlice(s: string, a: nat, b: nat)
    requires a <= b <= |s|
    requires forall q :: a <= q < b ==> AndMatchEnd(s, q).None?
    ensures HasNoAndMatch(s[a..b])
  {
    forall q | 0 <= q < b - a ensures AndMatchEnd(s[a..b], q).None? {
      if AndMatchEnd(s[a..b], q).Some? {
        AndMatchInSlice(s, a, b, q);
        assert false;
      }
    }
  }

  /** No piece `SplitFrom` returns holds a match of `\s+and\s+`. */
  lemma {:induction false} SplitFromNoAndInside(s: string, start: nat, i: nat)
    requires start <= i <= |s| && ',' !in s[start..i]
    requires forall q :: start <= q < i ==> AndMatchEnd(s, q).None?
    ensures forall k :: 0 <= k < |SplitFrom(s, start, i)| ==> HasNoAndMatch(SplitFrom(s, start, i)[k])
    decreases |s| - i
  {
    if i == |s| {
      NoAndMatchInSlice(s, start, |s|);
      assert s[start..] == s[start..|s|];
    } else if s[i] == ',' {
      NoAndMatchInSlice(s, start, i);
      SplitFromNoAndInside(s, i + 1, i + 1);
    } else {
      match AndMatchEnd(s, i)
      case Some(k) =>
        NoAndMatchInSlice(s, start, i);
        SplitFromNoAndInside(s, k, k);
      case None =>
        assert s[start..i + 1] == s[start..i] + [s[i]];
        SplitFromNoAndInside(s, start, i + 1);
    }
  }

  /** `re.split` leaves no separator inside a piece: no piece holds a comma
      or a match of `\s+and\s+`. */
  lemma AuthorPiecesHaveNoSeparator(s: string)
    ensures forall k :: 0 <= k < |AuthorPieces(s)| ==> ',' !in AuthorPieces(s)[k]
    ensures forall k :: 0 <= k < |AuthorPieces(s)| ==> HasNoAndMatch(AuthorPieces(s)[k])
  {
    SplitFromNoAndInside(s, 0, 0);
  }

  /** The example the APS tests pin down: "Dana and Evan, Frank" splits at
      " and " and at the comma. */
  lemma AuthorPiecesExample(s: string)
    requires s == "Dana and Evan, Frank"
    ensures AuthorPieces(s) == ["Dana", "Evan", " Frank"]
  {
    PiecesAfterAnd(s);
    AndMatchExample(s);
    SplitFromSkip(s, 0, 0, 4);
    assert s[0..4] == "Dana";
  }

  lemma PiecesAfterComma(s: string)
    requires s == "Dana and Evan, Frank"
    ensures SplitFrom(s, 14, 14) == [" Frank"]
  {
    NoAndMatchExample(s);
    SplitFromSkip(s, 14, 15, 20);
    assert s[14..] == " Frank";
  }

  lemma PiecesAfterAnd(s: string)
    requires s == "Dana and Evan, Frank"
    ensures SplitFrom(s, 9, 9) == ["Evan", " Frank"]
  {
    PiecesAfterComma(s);
    SplitFromSkip(s, 9, 9, 13);
    assert s[9..13] == "Evan";
  }

  lemma AndMatchExample(s: string)
    requires s == "Dana and Evan, Frank"
    ensures AndMatchEnd(s, 4) == Some(9)
  {
    assert SpaceRunEnd(s, 5) == 5;
    assert SpaceRunEnd(s, 9) == 9;
    assert SpaceRunEnd(s, 8) == 9;
    assert s[5..8] == "and";
  }

  lemma NoAndMatchExample(s: string)
    requires s == "Dana and Evan, Frank"
    ensures AndMatchEnd(s, 14) == None
  {
    assert SpaceRunEnd(s, 15) == 15;
    assert SpaceRunEnd(s, 14) == 15;
    assert s[15..18] != "and" by { assert s[15..18][0] == 'F'; }
  }

  /** ...and the pieces, stripped, are the three names. */
  lemma AuthorNamesExample()
    ensures AuthorNames("Dana and Evan, Frank") == ["Dana", "Evan", "Frank"]
  {
    AuthorPiecesExample("Dana and Evan, Frank");
    NamesExample(["Dana", "Evan", " Frank"]);
  }

  lemma NamesExample(pieces: seq<string>)
    requires pieces == ["Dana", "Evan", " Frank"]
    ensures Collect(pieces, NonBlank) == ["Dana", "Evan", "Frank"]
  {
    NonBlankExamples();
    CollectThree(pieces, NonBlank, "Dana", "Evan", "Frank");
  }

  lemma CollectThree<T, U>(xs: seq<T>, f: T -> Option<U>, a: U, b: U, c: U)
    requires |xs| == 3 && f(xs[0]) == Some(a) && f(xs[1]) == Some(b) && f(xs[2]) == Some(c)
    ensures Collect(xs, f) == [a, b, c]
  {
    var one := xs[..1];
    var two := xs[..2];
    assert one[..0] == [] && one[0] == xs[0];
    assert Collect(one, f) == [a];
    assert two[..1] == one && two[1] == xs[1];
    assert Collect(two, f) == [a, b];
    assert xs[..2] == two;
  }

  lemma NonBlankExamples()
    ensures NonBlank("Dana") == Some("Dana")
    ensures NonBlank("Evan") == Some("Evan")
    ensures NonBlank(" Frank") == Some("Frank")
  {
    NonBlankWord("Dana");
    NonBlankWord("Evan");
    assert " Frank" == [' '] + "Frank";
    StripLeadingSpace(' ', "Frank");
  }

  lemma NonBlankWord(s: string)
    requires |s| > 0 && !IsSpace(s[0]) && !IsSpace(s[|s| - 1])
    ensures NonBlank(s) == Some(s)
  {
  }

  // ---------------------------------------------------------------------
  // Fallback chains over raw keys
  // ---------------------------------------------------------------------

  /** The raw keys the author fallback tries, in order. */
  const CreatorKeys: seq<string> := ["dc_creator", "dc:creator", "author"]

  /** The raw keys the publication-date fallback tries, in order. */
  const DateKeys: seq<string> := ["dc_date", "dc:date", "prism_publicationdate",
    "prism:publicationdate", "prism_publicationDate", "prism:publicationDate"]

  /** The names one raw key gives: none when the key is absent, else the
      split of its text. */
  function NamesAt(raw: Raw, key: string): seq<string> {
    match RawGet(raw, key)
    case None => []
    case Some(v) => AuthorNames(Show(v))
  }

  /** The date one raw key gives: empty when the key is absent, else the
      normalised trimmed text. */
  function DateAt(raw: Raw, key: string, parse: string -> Option<DateText>): string {
    match RawGet(raw, key)
    case None => ""
    case Some(v) => NormalizeDate(Strip(Show(v)), parse)
  }

  /** The names each key gives, as a function of the key. */
  function NamesFor(raw: Raw): string -> seq<string> {
    key => NamesAt(raw, key)
  }

  /** The date each key gives, as a function of the key. */
  function DateFor(raw: Raw, parse: string -> Option<DateText>): string -> string {
    key => DateAt(raw, key, parse)
  }

  /** The names of the first of `keys` that gives any. */
  function AuthorsFromKeys(raw: Raw, keys: seq<string>): seq<string> {
    FirstNonEmpty(Candidates(keys, NamesFor(raw)))
  }

  /** The date of the first of `keys` that gives a non-empty one. */
  function DateFromKeys(raw: Raw, keys: seq<string>, parse: string -> Option<DateText>): string {
    FirstNonEmpty(Candidates(keys, DateFor(raw, parse)))
  }

  /** What `_fallback_authors(raw)` returns. */
  function FallbackAuthorsOf(raw: Raw): seq<string> {
    AuthorsFromKeys(raw, CreatorKeys)
  }

  /** What `_fallback_published(raw)` returns. */
  function FallbackPublishedOf(raw: Raw, parse: string -> Option<DateText>): string {
    DateFromKeys(raw, DateKeys, parse)
  }

  /** `_fallback_authors`: try each creator key in turn (an absent key gives
      no names) and return the first non-empty split. */
  method FallbackAuthors(raw: Raw) returns (authors: seq<string>)
    ensures authors == FallbackAuthorsOf(raw)
    ensures forall k :: 0 <= k < |authors| ==> |authors[k]| > 0 && Trimmed(authors[k])
  {
    authors := FirstNonEmptyAmong(CreatorKeys, NamesFor(raw));
    AuthorsFromFirstKey(raw, CreatorKeys);
  }

  /** `_fallback_published`: try each date key in turn (an absent key gives
      the empty date) and return the first non-empty normalised date. */
  method FallbackPublished(raw: Raw, parse: string -> Option<DateText>) returns (published: string)
    ensures published == FallbackPublishedOf(raw, parse)
  {
    published := FirstNonEmptyAmong(DateKeys, DateFor(raw, parse));
  }

  // ---------------------------------------------------------------------
  // Entry fields both fetchers read the same way
  // ---------------------------------------------------------------------

  /** `str(item)` of every element of a list, in order. */
  function Shown(items: seq<Raw>): (r: seq<string>)
    ensures |r| == |items|
    ensures forall i :: 0 <= i < |items| ==> r[i] == Show(items[i])
  {
    seq(|items|, i requires 0 <= i < |items| => Show(items[i]))
  }

  /** The authors of an entry: its `authors` list when that is a non-empty
      list, else the raw fallback. */
  function AuthorsOf(entry: Entry): (r: seq<string>)
    ensures Get(entry, "authors").Items? && |Get(entry, "authors").items| > 0 ==>
      r == Shown(Get(entry, "authors").items)
    ensures !(Get(entry, "authors").Items? && |Get(entry, "authors").items| > 0) ==>
      r == FallbackAuthorsOf(Get(entry, "raw"))
  {
    var listed := match Get(entry, "authors") case Items(items) => Shown(items) case _ => [];
    if |listed| > 0 then listed else FallbackAuthorsOf(Get(entry, "raw"))
  }

  /** The text the keywords are matched against. */
  function MatchText(entry: Entry): string {
    TextField(entry, "title") + " " + TextField(entry, "summary")
  }

  /** The author fallback is empty exactly when no key gives a name, and
      otherwise is the names of the first key that gives any. */
  lemma AuthorsFromFirstKey(raw: Raw, keys: seq<string>)
    ensures |AuthorsFromKeys(raw, keys)| == 0 <==> forall i :: 0 <= i < |keys| ==> |NamesAt(raw, keys[i])| == 0
    ensures |AuthorsFromKeys(raw, keys)| > 0 ==>
      exists i :: 0 <= i < |keys| && AuthorsFromKeys(raw, keys) == NamesAt(raw, keys[i])
        && forall j :: 0 <= j < i ==> |NamesAt(raw, keys[j])| == 0
  {
    var cands := Candidates(keys, NamesFor(raw));
    var r := FirstNonEmpty(cands);
    if |r| > 0 {
      var i :| FirstNonEmptyIndex(cands, i) && r == cands[i];
      assert r == NamesAt(raw, keys[i]);
    }
  }

  /** The date fallback is empty exactly when no key gives a date, and
      otherwise is the normalised value of the first key that does. */
  lemma DateFromFirstKey(raw: Raw, keys: seq<string>, parse: string -> Option<DateText>)
    ensures |DateFromKeys(raw, keys, parse)| == 0 <==> forall i :: 0 <= i < |keys| ==> |DateAt(raw, keys[i], parse)| == 0
    ensures |DateFromKeys(raw, keys, parse)| > 0 ==>
      exists i :: 0 <= i < |keys| && DateFromKeys(raw, keys, parse) == DateAt(raw, keys[i], parse)
        && forall j :: 0 <= j < i ==> |DateAt(raw, keys[j], parse)| == 0
  {
    var cands := Candidates(keys, DateFor(raw, parse));
    var r := FirstNonEmpty(cands);
    if |r| > 0 {
      var i :| FirstNonEmptyIndex(cands, i) && r == cands[i];
      assert r == DateAt(raw, keys[i], parse);
    }
  }
}
