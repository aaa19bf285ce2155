/**
 * The detail side of main.py (`get_paper`): the button links on a paper's page are
 * sorted into six document slots by their exact visible label, and each href is
 * resolved against the scheme and host of the paper's own URL.
 */
module Detail {
  import opened Wrappers
  import opened Listing
  import Slugifier

  /** The six kinds of document a paper page links to. */
  datatype Kind = AuthorFeedback | Bibtex | MetaReview | PaperPdf | Review | Supplemental

  /** The exact text of the button that links to a document of kind `k`. */
  function Label(k: Kind): string
  {
    match k
    case AuthorFeedback => "AuthorFeedback »"
    case Bibtex => "Bibtex »"
    case MetaReview => "MetaReview »"
    case PaperPdf => "Paper »"
    case Review => "Review »"
    case Supplemental => "Supplemental »"
  }

  /**
   * The kind whose label is exactly `text`, if any. The match is exact: no
   * trimming, no case folding, and `"Paper"` without the arrow is no label.
   */
  function KindOf(text: string): Option<Kind>
  {
    if text == Label(AuthorFeedback) then Some(AuthorFeedback)
    else if text == Label(Bibtex) then Some(Bibtex)
    else if text == Label(MetaReview) then Some(MetaReview)
    else if text == Label(PaperPdf) then Some(PaperPdf)
    else if text == Label(Review) then Some(Review)
    else if text == Label(Supplemental) then Some(Supplemental)
    else None
  }

  /** A button link as the HTML parser delivers it: its visible text and its href. */
  datatype Anchor = Anchor(text: string, href: string)

  /** The anchor's text is exactly one of the six labels. */
  predicate Recognized(a: Anchor)
  {
    exists k :: Label(k) == a.text
  }

  /** The exception `get_paper` raises for a button it cannot sort. */
  datatype LinkError = UnrecognizedLink(text: string, href: string)

  /** The URLs of a paper's six documents; a slot is `None` when the page has no such link. */
  datatype Links = Links(
    authorFeedbackUrl: Option<Url>,
    bibtexUrl: Option<Url>,
    metaReviewUrl: Option<Url>,
    paperUrl: Option<Url>,
    reviewUrl: Option<Url>,
    supplementalUrl: Option<Url>)
  {
    /** The slot that holds the document of kind `k`. */
    function Slot(k: Kind): Option<Url>
    {
      match k
      case AuthorFeedback => authorFeedbackUrl
      case Bibtex => bibtexUrl
      case MetaReview => metaReviewUrl
      case PaperPdf => paperUrl
      case Review => reviewUrl
      case Supplemental => supplementalUrl
    }
  }

  /** A paper: its listing entry, its abstract and the links to its documents. */
  datatype Paper = Paper(entry: PaperEntry, abstractText: string, links: Links)

  /**
   * `parse_url(f"{url.scheme}://{url.host}{href}")`: the href taken as a path on
   * the host of `base`, so that the text of the result is the scheme, `://`, the
   * host and the href.
   */
  function Resolve(base: Url, href: string): (r: Url)
    ensures r.Text() == base.scheme + "://" + base.host + href
  {
    Url(base.scheme, base.host, href)
  }

  /** No two kinds share a label. */
  lemma LabelsDistinct()
    ensures forall k1, k2 :: Label(k1) == Label(k2) ==> k1 == k2
  {
    forall k1, k2 | Label(k1) == Label(k2) ensures k1 == k2 {
      assert KindOf(Label(k1)) == Some(k1);
      assert KindOf(Label(k2)) == Some(k2);
    }
  }

  /** A text is sorted into kind `k` exactly when it is `k`'s label. */
  lemma KindOfIsLabel(text: string, k: Kind)
    ensures KindOf(text) == Some(k) <==> text == Label(k)
  {
    LabelsDistinct();
  }

  /** An anchor is recognised exactly when `KindOf` sorts it into some kind. */
  lemma RecognizedIffSorted(a: Anchor)
    ensures Recognized(a) <==> KindOf(a.text).Some?
  {
    if KindOf(a.text).Some? {
      KindOfIsLabel(a.text, KindOf(a.text).value);
    }
  }

  // ---------------------------------------------------------------------------
  // The reference definition: the last anchor with a kind's label fills its slot

  /** The href of the last anchor sorted into kind `k`, if there is one. */
  function LastHref(anchors: seq<Anchor>, k: Kind): Option<string>
  {
    if anchors == [] then None
    else if KindOf(anchors[|anchors| - 1].text) == Some(k) then Some(anchors[|anchors| - 1].href)
    else LastHref(anchors[..|anchors| - 1], k)
  }

  /** What slot `k` should hold after the anchors have been sorted. */
  function ExpectedSlot(base: Url, anchors: seq<Anchor>, k: Kind): Option<Url>
  {
    match LastHref(anchors, k)
    case None => None
    case Some(href) => Some(Resolve(base, href))
  }

  /** Taking one more anchor into account changes only the slot it is sorted into. */
  lemma ExpectedSlotStep(base: Url, anchors: seq<Anchor>, i: int)
    requires 0 <= i < |anchors|
    ensures forall k ::
              ExpectedSlot(base, anchors[..i + 1], k) ==
              if KindOf(anchors[i].text) == Some(k) then Some(Resolve(base, anchors[i].href))
              else ExpectedSlot(base, anchors[..i], k)
  {
    assert anchors[..i + 1][..i] == anchors[..i];
  }

  /** Every anchor's text is one of the six labels. */
  predicate AllRecognized(anchors: seq<Anchor>)
  {
    anchors == [] || (AllRecognized(anchors[..|anchors| - 1]) && Recognized(anchors[|anchors| - 1]))
  }

  lemma {:induction false} AllRecognizedMeansEach(anchors: seq<Anchor>)
    ensures AllRecognized(anchors) <==> forall i :: 0 <= i < |anchors| ==> Recognized(anchors[i])
    decreases |anchors|
  {
    if anchors != [] {
      var init := anchors[..|anchors| - 1];
      AllRecognizedMeansEach(init);
      assert forall i :: 0 <= i < |init| ==> init[i] == anchors[i];
    }
  }

  /** Index `i` is the first anchor that no label matches. */
  predicate FirstUnrecognized(anchors: seq<Anchor>, i: int)
  {
    && 0 <= i < |anchors|
    && !Recognized(anchors[i])
    && AllRecognized(anchors[..i])
  }

  /** An unrecognised anchor makes the whole sequence unrecognised. */
  lemma FirstUnrecognizedBlocks(anchors: seq<Anchor>, i: int)
    requires FirstUnrecognized(anchors, i)
    ensures !AllRecognized(anchors)
  {
    AllRecognizedMeansEach(anchors);
  }

  // ---------------------------------------------------------------------------
  // get_paper

  /**
   * The loop of `get_paper`: sorts the button anchors into the six slots. It
   * fails at the first anchor whose text is none of the six labels; otherwise
   * every slot holds the resolved href of the last anchor carrying its label,
   * or `None` when there is none.
   */
  method SortLinks(url: Url, anchors: seq<Anchor>) returns (r: Result<Links, LinkError>)
    ensures r.Success? <==> AllRecognized(anchors)
    ensures r.Failure? ==> exists i :: FirstUnrecognized(anchors, i)
                                       && r.error == UnrecognizedLink(anchors[i].text, anchors[i].href)
    ensures r.Success? ==> forall k :: r.value.Slot(k) == ExpectedSlot(url, anchors, k)
  {
    var authorFeedbackUrl: Option<Url> := None;
    var bibtexUrl: Option<Url> := None;
    var metaReviewUrl: Option<Url> := None;
    var paperUrl: Option<Url> := None;
    var reviewUrl: Option<Url> := None;
    var supplementalUrl: Option<Url> := None;
    for i := 0 to |anchors|
      invariant AllRecognized(anchors[..i])
      invariant authorFeedbackUrl == ExpectedSlot(url, anchors[..i], AuthorFeedback)
      invariant bibtexUrl == ExpectedSlot(url, anchors[..i], Bibtex)
      invariant metaReviewUrl == ExpectedSlot(url, anchors[..i], MetaReview)
      invariant paperUrl == ExpectedSlot(url, anchors[..i], PaperPdf)
      invariant reviewUrl == ExpectedSlot(url, anchors[..i], Review)
      invariant supplementalUrl == ExpectedSlot(url, anchors[..i], Supplemental)
    {
      var a := anchors[i];
      assert anchors[..i + 1][..i] == anchors[..i];
      ExpectedSlotStep(url, anchors, i);
      match KindOf(a.text) {
        case Some(AuthorFeedback) =>
          authorFeedbackUrl := Some(Resolve(url, a.href));
        case Some(Bibtex) =>
          bibtexUrl := Some(Resolve(url, a.href));
        case Some(MetaReview) =>
          metaReviewUrl := Some(Resolve(url, a.href));
        case Some(PaperPdf) =>
          paperUrl := Some(Resolve(url, a.href));
        case Some(Review) =>
          reviewUrl := Some(Resolve(url, a.href));
        case Some(Supplemental) =>
          supplementalUrl := Some(Resolve(url, a.href));
        case None =>
          assert FirstUnrecognized(anchors, i);
          FirstUnrecognizedBlocks(anchors, i);
          return Failure(UnrecognizedLink(a.text, a.href));
      }
    }
    var links := Links(authorFeedbackUrl, bibtexUrl, metaReviewUrl, paperUrl, reviewUrl, supplementalUrl);
    assert forall k :: links.Slot(k) == ExpectedSlot(url, anchors[..|anchors|], k);
    assert anchors[..|anchors|] == anchors;
    r := Success(links);
  }

  /**
   * `get_paper` after HTML parsing: the links sorted against the paper's own
   * URL, and the abstract as the text of its re-parsed node with surrounding
   * whitespace stripped. An unsortable link aborts before the abstract is read.
   */
  method GetPaper(db: Slugifier.UnicodeDb, entry: PaperEntry, anchors: seq<Anchor>, abstractNodeText: string)
    returns (r: Result<Paper, LinkError>)
    ensures r.Success? <==> AllRecognized(anchors)
    ensures r.Failure? ==> exists i :: FirstUnrecognized(anchors, i)
                                       && r.error == UnrecognizedLink(anchors[i].text, anchors[i].href)
    ensures r.Success? ==> r.value.entry == entry && r.value.abstractText == Slugifier.Strip(db, abstractNodeText)
    ensures r.Success? ==> forall k :: r.value.links.Slot(k) == ExpectedSlot(entry.url, anchors, k)
  {
    var links := SortLinks(entry.url, anchors);
    match links {
      case Failure(e) =>
        return Failure(e);
      case Success(slots) =>
        r := Success(Paper(entry, Slugifier.Strip(db, abstractNodeText), slots));
    }
  }

  // ---------------------------------------------------------------------------
  // Properties of the sorting

  /**
   * An anchor labelled for kind `k` sets slot `k` to its resolved href,
   * overwriting any earlier value, and leaves the five other slots as they were.
   */
  lemma AnchorSetsOnlyItsSlot(base: Url, anchors: seq<Anchor>, k: Kind, href: string)
    ensures ExpectedSlot(base, anchors + [Anchor(Label(k), href)], k) == Some(Resolve(base, href))
    ensures forall other :: other != k ==>
      ExpectedSlot(base, anchors + [Anchor(Label(k), href)], other) == ExpectedSlot(base, anchors, other)
  {
    var s := anchors + [Anchor(Label(k), href)];
    assert s[..|s| - 1] == anchors;
    KindOfIsLabel(Label(k), k);
  }

  /** When a label occurs several times, the last occurrence decides the slot. */
  lemma {:induction false} LastOccurrenceWins(base: Url, anchors: seq<Anchor>, i: int, k: Kind)
    requires 0 <= i < |anchors| && anchors[i].text == Label(k)
    requires forall j :: i < j < |anchors| ==> anchors[j].text != Label(k)
    ensures ExpectedSlot(base, anchors, k) == Some(Resolve(base, anchors[i].href))
    decreases |anchors|
  {
    var last := anchors[|anchors| - 1];
    KindOfIsLabel(last.text, k);
    if i < |anchors| - 1 {
      LastOccurrenceWins(base, anchors[..|anchors| - 1], i, k);
    }
  }

  /** A slot stays `None` exactly when no anchor carries its label. */
  lemma {:induction false} AbsentLabelLeavesNone(base: Url, anchors: seq<Anchor>, k: Kind)
    ensures ExpectedSlot(base, anchors, k).None? <==> forall i :: 0 <= i < |anchors| ==> anchors[i].text != Label(k)
    decreases |anchors|
  {
    if anchors != [] {
      var init := anchors[..|anchors| - 1];
      KindOfIsLabel(anchors[|anchors| - 1].text, k);
      AbsentLabelLeavesNone(base, init, k);
      assert forall i :: 0 <= i < |init| ==> init[i] == anchors[i];
    }
  }
}
