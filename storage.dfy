/**
 * The seen-link store: an in-memory set of links mirrored into a state file
 * that holds `{"seen_links": [...]}` with the links in sorted order.
 */
module Storage {
  import opened Models

  // ---------------------------------------------------------------------
  // The state file
  // ---------------------------------------------------------------------

  /** The JSON values the loader tells apart; numbers, booleans and null are
      all `JOther` to it. */
  datatype Json =
    | JString(s: string)
    | JArray(items: seq<Json>)
    | JObject(fields: map<string, Json>)
    | JOther

  /** What reading the state file finds: nothing, an operating-system read
      error, text that is not JSON, or a JSON document. */
  datatype StoredFile = Missing | Unreadable | Malformed | Parsed(doc: Json)

  /** The key under which the links are stored. */
  const SeenLinksKey := "seen_links"

  /** The file `_write_state(links)` leaves behind. */
  function Written(links: seq<string>): (f: StoredFile)
    ensures f.Parsed? && f.doc.JObject? && f.doc.fields.Keys == {SeenLinksKey}
    ensures f.doc.fields[SeenLinksKey].JArray?
    ensures |f.doc.fields[SeenLinksKey].items| == |links|
  {
    Parsed(JObject(map[SeenLinksKey := JArray(seq(|links|, i requires 0 <= i < |links| => JString(links[i])))]))
  }

  /** The string elements of a JSON list; every other element is skipped. */
  function StringsIn(items: seq<Json>): set<string> {
    set j | j in items && j.JString? :: j.s
  }

  /** The loader gives up on the file and rewrites it empty: it could not be
      read, it is not JSON, or its top level is not an object. */
  predicate ResetsState(f: StoredFile) {
    !(f.Parsed? && f.doc.JObject?)
  }

  /** The set `_load_seen_links` returns for a file. A `seen_links` entry that
      is absent counts as the empty list; one that is not a list gives the
      empty set without the file being rewritten. */
  function LoadedLinks(f: StoredFile): set<string> {
    if ResetsState(f) then {}
    else if SeenLinksKey !in f.doc.fields then {}
    else match f.doc.fields[SeenLinksKey]
      case JArray(items) => StringsIn(items)
      case _ => {}
  }

  /** `_load_seen_links`, given what reading the file found: the links, and
      whether the file is to be reset to the empty list. */
  method LoadSeenLinks(f: StoredFile) returns (links: set<string>, reset: bool)
    ensures reset <==> ResetsState(f)
    ensures links == LoadedLinks(f)
    ensures reset ==> links == {}
  {
    if !(f.Parsed? && f.doc.JObject?) {
      return {}, true;
    }
    reset := false;
    var fields := f.doc.fields;
    var linksObj := if SeenLinksKey in fields then fields[SeenLinksKey] else JArray([]);
    if !linksObj.JArray? {
      return {}, false;
    }
    var items := linksObj.items;
    links := {};
    for i := 0 to |items|
      invariant links == StringsIn(items[..i])
    {
      assert items[..i + 1] == items[..i] + [items[i]];
      if items[i].JString? {
        links := links + {items[i].s};
      }
    }
    assert items[..|items|] == items;
  }

  // ---------------------------------------------------------------------
  // Python's string order, for `sorted`
  // ---------------------------------------------------------------------

  /** `a <= b` on Python strings: lexicographic by code point. */
  predicate Below(a: string, b: string)
    decreases |a|
  {
    |a| == 0 || (|b| > 0 && (a[0] < b[0] || (a[0] == b[0] && Below(a[1..], b[1..]))))
  }

  lemma {:induction false} BelowReflexive(a: string)
    ensures Below(a, a)
    decreases |a|
  {
    if |a| > 0 {
      BelowReflexive(a[1..]);
    }
  }

  lemma {:induction false} BelowAntisymmetric(a: string, b: string)
    requires Below(a, b) && Below(b, a)
    ensures a == b
    decreases |a|
  {
    if |a| > 0 {
      BelowAntisymmetric(a[1..], b[1..]);
      assert a == [a[0]] + a[1..] && b == [b[0]] + b[1..];
    }
  }

  lemma {:induction false} BelowTransitive(a: string, b: string, c: string)
    requires Below(a, b) && Below(b, c)
    ensures Below(a, c)
    decreases |a|
  {
    if |a| > 0 && a[0] == b[0] && b[0] == c[0] {
      BelowTransitive(a[1..], b[1..], c[1..]);
    }
  }

  lemma {:induction false} BelowTotal(a: string, b: string)
    ensures Below(a, b) || Below(b, a)
    decreases |a|
  {
    if |a| > 0 && |b| > 0 && a[0] == b[0] {
      BelowTotal(a[1..], b[1..]);
    }
  }

  /** `s` lists distinct strings in increasing order. */
  ghost predicate StrictlySorted(s: seq<string>) {
    forall i, j :: 0 <= i < j < |s| ==> Below(s[i], s[j]) && s[i] != s[j]
  }

  /** Every non-empty set of strings has a least element. */
  lemma {:induction false} MinExists(s: set<string>)
    requires s != {}
    ensures exists m :: m in s && forall y :: y in s ==> Below(m, y)
    decreases |s|
  {
    var x :| x in s;
    var rest := s - {x};
    if rest == {} {
      BelowReflexive(x);
      assert s == rest + {x};
    } else {
      MinExists(rest);
      var m :| m in rest && forall y :: y in rest ==> Below(m, y);
      BelowTotal(m, x);
      if Below(m, x) {
        assert forall y :: y in s ==> Below(m, y);
      } else {
        forall y | y in s
          ensures Below(x, y)
        {
          if y == x {
            BelowReflexive(x);
          } else {
            BelowTransitive(x, m, y);
          }
        }
      }
    }
  }

  /** `sorted(s)`: the elements of `s` in increasing order. */
  ghost function SortedLinks(s: set<string>): (r: seq<string>)
    ensures StrictlySorted(r)
    ensures forall x :: x in r <==> x in s
    ensures |r| == |s|
    decreases |s|
  {
    if s == {} then []
    else
      MinExists(s);
      var m :| m in s && forall y :: y in s ==> Below(m, y);
      var rest := SortedLinks(s - {m});
      assert forall j :: 0 <= j < |rest| ==> rest[j] in s - {m};
      [m] + rest
  }

  /** What the store writes can be read back: loading the file written for a
      set of links yields that set, without a reset. */
  lemma WrittenLoadsBack(s: set<string>)
    ensures !ResetsState(Written(SortedLinks(s)))
    ensures LoadedLinks(Written(SortedLinks(s))) == s
  {
    var sorted := SortedLinks(s);
    var items := Written(sorted).doc.fields[SeenLinksKey].items;
    forall x
      ensures x in StringsIn(items) <==> x in s
    {
      if x in s {
        var i :| 0 <= i < |sorted| && sorted[i] == x;
        assert items[i] == JString(x);
      }
      if x in StringsIn(items) {
        var j :| j in items && j.JString? && j.s == x;
        var i :| 0 <= i < |items| && items[i] == j;
        assert sorted[i] == x;
      }
    }
  }

  // ---------------------------------------------------------------------
  // The store
  // ---------------------------------------------------------------------

  class PaperStorage {
    /** The in-memory set of seen links. */
    var seenLinks: set<string>
    /** What the state file holds. */
    ghost var stateFile: StoredFile

    /** The in-memory set is what loading the state file would give: a store
        opened later over the same file sees the same links. */
    ghost predicate Valid()
      reads this
    {
      LoadedLinks(stateFile) == seenLinks
    }

    /** `PaperStorage(state_file)` over a file that holds `onDisk`: a missing
        file is first written as the empty list, then the file is loaded, and a
        file the loader gives up on is reset to the empty list. */
    constructor (onDisk: StoredFile)
      ensures Valid()
      ensures seenLinks == LoadedLinks(onDisk)
      ensures onDisk.Missing? || ResetsState(onDisk) ==> stateFile == Written([])
      ensures !ResetsState(onDisk) ==> stateFile == onDisk
    {
      var current := onDisk;
      if current.Missing? {
        current := Written([]);
      }
      var links, reset := LoadSeenLinks(current);
      seenLinks := links;
      stateFile := if reset then Written([]) else current;
    }

    /** `is_seen`: exact membership of the paper's link. */
    predicate IsSeen(paper: Paper)
      reads this
    {
      paper.link in seenLinks
    }

    /** `mark_seen`: a link already present changes nothing; a new link is
        added and the whole set is written back in sorted order. */
    method MarkSeen(paper: Paper)
      requires Valid()
      modifies this
      ensures Valid()
      ensures IsSeen(paper)
      ensures seenLinks == old(seenLinks) + {paper.link}
      ensures paper.link in old(seenLinks) ==> stateFile == old(stateFile)
      ensures paper.link !in old(seenLinks) ==> stateFile == Written(SortedLinks(seenLinks))
    {
      var link := paper.link;
      if link in seenLinks {
        return;
      }
      seenLinks := seenLinks + {link};
      stateFile := Written(SortedLinks(seenLinks));
      WrittenLoadsBack(seenLinks);
    }
  }

  /** Marking the same paper twice leaves the store as the first mark did. */
  method MarkSeenTwice(store: PaperStorage, paper: Paper)
    requires store.Valid()
    modifies store
    ensures store.Valid() && store.IsSeen(paper)
    ensures store.seenLinks == old(store.seenLinks) + {paper.link}
    ensures store.stateFile == (if paper.link in old(store.seenLinks) then old(store.stateFile)
                                else Written(SortedLinks(store.seenLinks)))
  {
    store.MarkSeen(paper);
    ghost var afterFirst := (store.seenLinks, store.stateFile);
    store.MarkSeen(paper);
    assert (store.seenLinks, store.stateFile) == afterFirst;
  }

  /** A store reopened over the file another store left behind sees exactly
      the links the first one had marked. */
  method Reopen(store: PaperStorage, onDisk: StoredFile) returns (reopened: PaperStorage)
    requires store.Valid() && onDisk == store.stateFile
    ensures reopened.seenLinks == store.seenLinks
  {
    reopened := new PaperStorage(onDisk);
  }
}
