/**
 * The keyword list of `Config.from_env`: the `KEYWORDS` variable split on
 * commas, each segment trimmed and lower-cased, blank segments dropped.
 */
module Config {
  import opened Wrappers
  import opened Text
  import opened Seqs

  /** The keyword one comma-separated segment gives, if it is not blank. */
  function KeywordOf(segment: string): Option<string> {
    var t := Strip(segment);
    if |t| == 0 then None else Some(Lower(t))
  }

  /** The list comprehension over `keywords_raw.split(",")`. */
  function ParseKeywords(raw: string): seq<string> {
    Collect(Split(raw, ','), KeywordOf)
  }

  /** `os.getenv("KEYWORDS", "")`, then the parse. */
  function KeywordsFromEnv(env: map<string, string>): seq<string> {
    ParseKeywords(if "KEYWORDS" in env then env["KEYWORDS"] else "")
  }

  /** What a parsed keyword looks like: not empty, trimmed, lower-case and
      without a comma. */
  predicate IsKeyword(k: string) {
    |k| > 0 && Trimmed(k) && Lower(k) == k && ',' !in k
  }

  lemma KeywordOfShape(segment: string)
    requires ',' !in segment
    ensures KeywordOf(segment).Some? ==> IsKeyword(KeywordOf(segment).value)
  {
    var t := Strip(segment);
    if |t| > 0 {
      StripWithin(segment);
      LowerKeepsTrimmed(t);
      LowerIdempotent(t);
    }
  }

  /** Each parsed keyword is the keyword of one of the segments, and every
      non-blank segment gives one. */
  lemma ParsedKeywordsFromSegments(raw: string, segments: seq<string>)
    requires segments == Split(raw, ',')
    ensures forall k :: k in ParseKeywords(raw) <==>
      exists i :: 0 <= i < |segments| && KeywordOf(segments[i]) == Some(k)
  {
    CollectMembers(segments, KeywordOf);
  }

  /** Every parsed keyword is non-empty, trimmed, lower-case and free of
      commas. */
  lemma ParsedKeywordsWellFormed(raw: string)
    ensures forall k :: k in ParseKeywords(raw) ==> IsKeyword(k)
  {
    var segments := Split(raw, ',');
    ParsedKeywordsFromSegments(raw, segments);
    forall k | k in ParseKeywords(raw) ensures IsKeyword(k) {
      var i :| 0 <= i < |segments| && KeywordOf(segments[i]) == Some(k);
      KeywordOfShape(segments[i]);
    }
  }

  /** The segments before a comma come first and those after it follow, so
      the keywords keep the order of their segments. */
  lemma ParseKeywordsConcat(a: string, b: string)
    ensures ParseKeywords(a + "," + b) == ParseKeywords(a) + ParseKeywords(b)
  {
    SplitConcat(a, ',', b);
    CollectConcat(Split(a, ','), Split(b, ','), KeywordOf);
  }

  /** Without a `KEYWORDS` variable there are no keywords. */
  lemma MissingVariableGivesNone(env: map<string, string>)
    requires "KEYWORDS" !in env
    ensures KeywordsFromEnv(env) == []
  {
    assert Split("", ',') == [""];
    assert Collect([""], KeywordOf) == Collect([], KeywordOf) + [];
  }

  /** Writing well-formed keywords separated by commas and parsing the result
      gives them back. */
  lemma ParseJoinRoundTrip(ks: seq<string>)
    requires forall i :: 0 <= i < |ks| ==> IsKeyword(ks[i])
    ensures ParseKeywords(Join(ks, ",")) == ks
  {
    if |ks| == 0 {
      assert Split("", ',') == [""];
      assert Collect([""], KeywordOf) == Collect([], KeywordOf) + [];
    } else {
      SplitJoin(ks, ',');
      forall i | 0 <= i < |ks| ensures KeywordOf(ks[i]) == Some(ks[i]) {
        assert Strip(ks[i]) == ks[i];
      }
      CollectKeepsAll(ks, KeywordOf);
    }
  }
}
