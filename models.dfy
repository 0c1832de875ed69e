/**
 * The paper record: its link is held trimmed, two records are the same paper
 * exactly when their links are, and the record survives a trip through its
 * dictionary form.
 */
module Models {
  import opened Wrappers
  import opened Text

  /** A paper as the fetchers emit it. `link` is always held trimmed: the only
      way the model builds one from outside values is `NewPaper`. */
  datatype Paper = Paper(
    title: string,
    authors: seq<string>,
    link: string,
    publishedDate: string,
    source: string,
    keywordsMatched: seq<string>)

  /** The invariant `__post_init__` establishes. */
  predicate WellFormed(p: Paper) {
    Trimmed(p.link)
  }

  /** The constructor: every field is taken as given except `link`, which is
      stripped of surrounding whitespace. */
  function NewPaper(title: string, authors: seq<string>, link: string, publishedDate: string,
                    source: string, keywordsMatched: seq<string>): (p: Paper)
    ensures WellFormed(p)
    ensures p.title == title && p.authors == authors && p.publishedDate == publishedDate
    ensures p.source == source && p.keywordsMatched == keywordsMatched
    ensures |p.link| <= |link| && (Trimmed(link) ==> p.link == link)
    ensures |p.link| == 0 <==> forall i :: 0 <= i < |link| ==> IsSpace(link[i])
  {
    Paper(title, authors, Strip(link), publishedDate, source, keywordsMatched)
  }

  /** Rebuilding a well-formed paper from its own fields gives it back. */
  lemma NewPaperOfFields(p: Paper)
    requires WellFormed(p)
    ensures NewPaper(p.title, p.authors, p.link, p.publishedDate, p.source, p.keywordsMatched) == p
  {
  }

  // ---------------------------------------------------------------------
  // Identity
  // ---------------------------------------------------------------------

  /** What `__eq__` may be handed: a paper or any other object. */
  datatype Value = PaperValue(paper: Paper) | OtherValue

  /** `self == other`. */
  function Equals(self: Paper, other: Value): (r: bool)
    ensures r ==> other.PaperValue?
    ensures other.PaperValue? ==> (r <==> self.link == other.paper.link)
  {
    match other
    case PaperValue(o) => self.link == o.link
    case OtherValue => false
  }

  /** `hash(self)`: the string hash of the link, whatever that hash is. */
  function Hash(self: Paper, stringHash: string -> int): int {
    stringHash(self.link)
  }

  /** A paper never equals anything that is not a paper. */
  lemma NeverEqualsNonPaper(p: Paper)
    ensures !Equals(p, OtherValue)
  {
  }

  /** `__eq__` is an equivalence relation on papers. */
  lemma EqualsIsEquivalence(a: Paper, b: Paper, c: Paper)
    ensures Equals(a, PaperValue(a))
    ensures Equals(a, PaperValue(b)) <==> Equals(b, PaperValue(a))
    ensures Equals(a, PaperValue(b)) && Equals(b, PaperValue(c)) ==> Equals(a, PaperValue(c))
  {
  }

  /** Two constructed papers are equal exactly when their trimmed links are,
      whatever their other fields hold. */
  lemma EqualIffTrimmedLinksEqual(
    t1: string, a1: seq<string>, l1: string, d1: string, s1: string, k1: seq<string>,
    t2: string, a2: seq<string>, l2: string, d2: string, s2: string, k2: seq<string>)
    ensures Equals(NewPaper(t1, a1, l1, d1, s1, k1), PaperValue(NewPaper(t2, a2, l2, d2, s2, k2)))
      <==> Strip(l1) == Strip(l2)
  {
  }

  /** Equal papers hash equally, for every string hash. */
  lemma EqualPapersHashEqually(a: Paper, b: Paper, stringHash: string -> int)
    requires Equals(a, PaperValue(b))
    ensures Hash(a, stringHash) == Hash(b, stringHash)
  {
  }

  // ---------------------------------------------------------------------
  // Dictionary form
  // ---------------------------------------------------------------------

  /** The dictionary form. Only `keywords_matched` may be absent. */
  datatype PaperDict = PaperDict(
    title: string,
    authors: seq<string>,
    link: string,
    publishedDate: string,
    source: string,
    keywordsMatched: Option<seq<string>>)

  /** `to_dict`: every field, all present. */
  function ToDict(p: Paper): (d: PaperDict)
    ensures d.keywordsMatched.Some?
  {
    PaperDict(p.title, p.authors, p.link, p.publishedDate, p.source, Some(p.keywordsMatched))
  }

  /** `from_dict`: goes through the constructor, so the link is trimmed, and an
      absent `keywords_matched` becomes the empty list. */
  function FromDict(d: PaperDict): (p: Paper)
    ensures WellFormed(p)
    ensures d.keywordsMatched.None? ==> p.keywordsMatched == []
    ensures d.keywordsMatched.Some? ==> p.keywordsMatched == d.keywordsMatched.value
    ensures p.title == d.title && p.authors == d.authors && p.source == d.source
    ensures p.publishedDate == d.publishedDate
  {
    var keywords := match d.keywordsMatched
      case Some(k) => k
      case None => [];
    NewPaper(d.title, d.authors, d.link, d.publishedDate, d.source, keywords)
  }

  /** A well-formed paper survives the dictionary round trip field for field
      (so in particular it is `__eq__`-equal to the original). */
  lemma FromDictToDict(p: Paper)
    requires WellFormed(p)
    ensures FromDict(ToDict(p)) == p
    ensures Equals(FromDict(ToDict(p)), PaperValue(p))
  {
  }

  /** The dictionary of a restored paper equals the dictionary it came from,
      for every paper (a restored paper has its link trimmed, and trimming is
      idempotent). */
  lemma ToDictFromDict(p: Paper)
    ensures ToDict(FromDict(ToDict(p))) == ToDict(p) <==> WellFormed(p)
  {
    if WellFormed(p) {
      FromDictToDict(p);
    }
  }

  /** Any dictionary, restored, written back and restored again, gives the
      same paper. */
  lemma FromDictStable(d: PaperDict)
    ensures FromDict(ToDict(FromDict(d))) == FromDict(d)
  {
    FromDictToDict(FromDict(d));
  }
}
