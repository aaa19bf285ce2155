/**
 * The listing side of main.py: the `PaperEntry` record built for every item of a
 * year's listing page, the author list split out of the item's italic text, and
 * the entry's printed form.
 */
module Listing {

  const MainSite: string := "papers.nips.cc"

  /** The separator the listing page puts between author names. */
  const AuthorSeparator: string := ", "

  /** A URL reduced to the parts the scraper uses. */
  datatype Url = Url(scheme: string, host: string, path: string)
  {
    /** The URL as text: `scheme://host` followed by the path. */
    function Text(): string
    {
      scheme + "://" + host + path
    }
  }

  /** One item of the listing: its link, its title and its authors. Never changed once built. */
  datatype PaperEntry = PaperEntry(url: Url, title: string, authors: seq<string>)

  /** What the HTML parser extracted from one list item: the anchor's href and text, and the italic text. */
  datatype ListItem = ListItem(href: string, title: string, authorText: string)

  /**
   * The path urllib3's `Url` constructor stores: a non-empty path that does not
   * start with `/` gets one put in front.
   */
  function RootedPath(path: string): (p: string)
    ensures p == [] <==> path == []
    ensures p != [] ==> p[0] == '/'
    ensures p == path || p == "/" + path
    ensures path != [] && path[0] == '/' ==> p == path
  {
    if path != [] && path[0] != '/' then "/" + path else path
  }

  /** `PaperEntry.__init__`: the entry's URL is the href, rooted, on the main site, over https. */
  function NewEntry(path: string, title: string, authors: seq<string>): PaperEntry
  {
    PaperEntry(Url("https", MainSite, RootedPath(path)), title, authors)
  }

  /**
   * A new entry's URL is https on the main site; its path is empty exactly when
   * the href is, and otherwise starts with `/` and ends with the whole href,
   * at most one character longer than it.
   */
  lemma NewEntryUrl(path: string, title: string, authors: seq<string>)
    ensures var url := NewEntry(path, title, authors).url;
            && url.scheme == "https" && url.host == MainSite
            && (url.path == [] <==> path == [])
            && (path != [] ==> url.path[0] == '/')
            && |path| <= |url.path| <= |path| + 1
            && url.path[|url.path| - |path|..] == path
  {
    var p := RootedPath(path);
    if p != path {
      assert p == "/" + path;
      assert p[1..] == path;
    }
  }

  // ---------------------------------------------------------------------------
  // Splitting and joining author names

  predicate IsSeparatorAt(s: string, i: int)
  {
    0 <= i && i + 1 < |s| && s[i] == ',' && s[i + 1] == ' '
  }

  /** True when `s` holds the separator `", "` somewhere. */
  predicate ContainsSeparator(s: string)
  {
    exists i :: 0 <= i < |s| && IsSeparatorAt(s, i)
  }

  /**
   * `s.split(", ")` with the current piece `cur` already consumed: scans left to
   * right and cuts at every occurrence of the separator that does not overlap an
   * earlier one.
   */
  function SplitFrom(s: string, cur: string): (parts: seq<string>)
    ensures |parts| >= 1
    decreases |s|
  {
    if |s| >= 2 && s[..2] == AuthorSeparator then [cur] + SplitFrom(s[2..], "")
    else if s == [] then [cur]
    else SplitFrom(s[1..], cur + [s[0]])
  }

  /** `s.split(", ")`: always at least one piece, as in Python. */
  function SplitAuthors(s: string): (parts: seq<string>)
    ensures |parts| >= 1
  {
    SplitFrom(s, "")
  }

  /** `", ".join(parts)`. */
  function JoinAuthors(parts: seq<string>): string
  {
    if parts == [] then ""
    else if |parts| == 1 then parts[0]
    else parts[0] + AuthorSeparator + JoinAuthors(parts[1..])
  }

  lemma {:induction false} JoinSplitFrom(s: string, cur: string)
    ensures JoinAuthors(SplitFrom(s, cur)) == cur + s
    decreases |s|
  {
    if |s| >= 2 && s[..2] == AuthorSeparator {
      JoinSplitFrom(s[2..], "");
      assert s == AuthorSeparator + s[2..];
    } else if s == [] {
    } else {
      JoinSplitFrom(s[1..], cur + [s[0]]);
      assert cur + [s[0]] + s[1..] == cur + s;
    }
  }

  /** Joining the split author names gives back the author text exactly. */
  lemma JoinSplit(s: string)
    ensures JoinAuthors(SplitAuthors(s)) == s
  {
    JoinSplitFrom(s, "");
  }

  /** Scanning a piece that holds no separator just moves it into the current piece. */
  lemma {:induction false} SplitFromPlain(x: string, t: string, cur: string)
    requires !ContainsSeparator(x)
    requires !(x != [] && t != [] && x[|x| - 1] == ',' && t[0] == ' ')
    ensures SplitFrom(x + t, cur) == SplitFrom(t, cur + x)
    decreases |x|
  {
    if x == [] {
      assert x + t == t && cur + x == cur;
    } else {
      var s := x + t;
      if |s| >= 2 {
        if |x| >= 2 {
          assert !IsSeparatorAt(x, 0);
          assert s[0] == x[0] && s[1] == x[1];
        } else {
          assert s[0] == x[0] && s[1] == t[0];
        }
        assert s[..2][0] == s[0] && s[..2][1] == s[1];
      }
      assert s[1..] == x[1..] + t;
      forall i | 0 <= i < |x[1..]| ensures !IsSeparatorAt(x[1..], i) {
        assert !IsSeparatorAt(x, i + 1);
      }
      SplitFromPlain(x[1..], t, cur + [x[0]]);
      assert cur + [x[0]] + x[1..] == cur + x;
    }
  }

  /**
   * Splitting joined author names gives back the names, as long as no name
   * contains the separator itself.
   */
  lemma {:induction false} SplitJoin(parts: seq<string>)
    requires |parts| >= 1
    requires forall k :: 0 <= k < |parts| ==> !ContainsSeparator(parts[k])
    ensures SplitAuthors(JoinAuthors(parts)) == parts
    decreases |parts|
  {
    if |parts| == 1 {
      SplitFromPlain(parts[0], "", "");
      assert parts[0] + "" == parts[0];
    } else {
      var rest := JoinAuthors(parts[1..]);
      var s := AuthorSeparator + rest;
      assert s[0] == ',' && s[..2] == AuthorSeparator && s[2..] == rest;
      SplitFromPlain(parts[0], s, "");
      assert parts[0] + s == JoinAuthors(parts);
      assert "" + parts[0] == parts[0];
      assert SplitFrom(s, parts[0]) == [parts[0]] + SplitFrom(rest, "");
      SplitJoin(parts[1..]);
      assert [parts[0]] + parts[1..] == parts;
    }
  }

  // ---------------------------------------------------------------------------
  // The printed form

  /** `PaperEntry.__str__`: the title followed by the authors in parentheses. */
  function EntryText(e: PaperEntry): string
  {
    e.title + " (" + JoinAuthors(e.authors) + ")"
  }

  /** An entry built from a list item prints the item's title and its author text verbatim. */
  lemma EntryTextOfItem(item: ListItem)
    ensures EntryText(NewEntry(item.href, item.title, SplitAuthors(item.authorText)))
         == item.title + " (" + item.authorText + ")"
  {
    JoinSplit(item.authorText);
  }

  // ---------------------------------------------------------------------------
  // get_paper_entries

  /**
   * `get_paper_entries` after HTML parsing: one entry per list item, in page
   * order, each pointing to the item's rooted href on https://papers.nips.cc, carrying
   * the item's title and the authors split out of its italic text.
   */
  method GetPaperEntries(items: seq<ListItem>) returns (entries: seq<PaperEntry>)
    ensures |entries| == |items|
    ensures forall i :: 0 <= i < |items| ==>
      && entries[i].url == Url("https", MainSite, RootedPath(items[i].href))
      && entries[i].url.Text() == "https://papers.nips.cc" + RootedPath(items[i].href)
      && entries[i].title == items[i].title
      && entries[i].authors == SplitAuthors(items[i].authorText)
      && JoinAuthors(entries[i].authors) == items[i].authorText
      && EntryText(entries[i]) == items[i].title + " (" + items[i].authorText + ")"
  {
    entries := [];
    for n := 0 to |items|
      invariant |entries| == n
      invariant forall i :: 0 <= i < n ==>
        && entries[i] == NewEntry(items[i].href, items[i].title, SplitAuthors(items[i].authorText))
        && JoinAuthors(entries[i].authors) == items[i].authorText
    {
      var item := items[n];
      JoinSplit(item.authorText);
      entries := entries + [NewEntry(item.href, item.title, SplitAuthors(item.authorText))];
    }
  }
}
