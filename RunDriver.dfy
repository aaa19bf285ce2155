/**
 * The run at the bottom of main.py: every paper of the year gets a home
 * directory named after its slug, its supplemental material is classified by
 * the file extension of its URL path, and four counters are reported at the end.
 */
module RunDriver {
  import opened Wrappers
  import opened Detail
  import Slugifier

  // ---------------------------------------------------------------------------
  // os.path.splitext on POSIX paths

  /** `str.rfind`: the index of the last `c` in `s`, or -1 when `s` has none. */
  function LastIndex(s: string, c: char): (r: int)
    ensures -1 <= r < |s|
    ensures r >= 0 ==> s[r] == c
    ensures forall j :: r < j < |s| ==> s[j] != c
  {
    if s == [] then -1
    else if s[|s| - 1] == c then |s| - 1
    else LastIndex(s[..|s| - 1], c)
  }

  /**
   * The scan `splitext` makes over the final component before its last dot:
   * some character of `s[lo..hi]` is not a `.`.
   */
  function HasNonDot(s: string, lo: int, hi: int): (b: bool)
    requires 0 <= lo <= hi <= |s|
    ensures b <==> exists j :: lo <= j < hi && s[j] != '.'
    decreases hi - lo
  {
    lo < hi && (s[lo] != '.' || HasNonDot(s, lo + 1, hi))
  }

  /**
   * The extension `os.path.splitext` splits off a POSIX path: everything from
   * the last `.` of the final component on, provided the component has some
   * character other than `.` before that dot (so `.zip` alone has none).
   */
  function Ext(path: string): (r: string)
    ensures |r| <= |path|
    ensures r == [] || (r[0] == '.' && r == path[|path| - |r|..] && '/' !in r && '.' !in r[1..])
    ensures r != [] ==> exists j :: LastIndex(path, '/') < j < |path| - |r| && path[j] != '.'
  {
    var sep := LastIndex(path, '/');
    var dot := LastIndex(path, '.');
    if dot > sep && HasNonDot(path, sep + 1, dot) then path[dot..] else []
  }

  /** Characters that `b` lacks do not move the last index past `a`. */
  lemma {:induction false} LastIndexAppend(a: string, b: string, c: char)
    requires c !in b
    ensures LastIndex(a + b, c) == LastIndex(a, c)
    decreases |b|
  {
    if b == [] {
      assert a + b == a;
    } else {
      var s := a + b;
      assert s[..|s| - 1] == a + b[..|b| - 1];
      assert s[|s| - 1] == b[|b| - 1];
      LastIndexAppend(a, b[..|b| - 1], c);
    }
  }

  /**
   * A file name with a proper stem: `stem.ext` splits into `stem` and `.ext`
   * whenever `ext` has no `.` and no `/` and the last component of `stem` has a
   * character other than `.`.
   */
  lemma ExtOfName(stem: string, ext: string)
    requires '.' !in ext && '/' !in ext
    requires exists j :: LastIndex(stem, '/') < j < |stem| && stem[j] != '.'
    ensures Ext(stem + "." + ext) == "." + ext
  {
    var path := stem + "." + ext;
    NameFacts(stem, ext);
    var j :| LastIndex(stem, '/') < j < |stem| && stem[j] != '.';
    ExtFrom(path, j);
  }

  /** In `stem.ext`, the last `/` is that of `stem`, the last `.` is the one added, and `.ext` ends it. */
  lemma NameFacts(stem: string, ext: string)
    requires '.' !in ext && '/' !in ext
    ensures LastIndex(stem + "." + ext, '/') == LastIndex(stem, '/')
    ensures LastIndex(stem + "." + ext, '.') == |stem|
    ensures (stem + "." + ext)[|stem|..] == "." + ext
    ensures forall j :: 0 <= j < |stem| ==> (stem + "." + ext)[j] == stem[j]
  {
    var dotExt := "." + ext;
    assert stem + "." + ext == stem + dotExt;
    assert '/' !in dotExt;
    LastIndexAppend(stem, dotExt, '/');
    var withDot := stem + ['.'];
    assert stem + "." + ext == withDot + ext;
    LastIndexAppend(withDot, ext, '.');
  }

  /** A non-dot character `j` between the last `/` and the last `.` makes the extension start at that dot. */
  lemma ExtFrom(path: string, j: int)
    requires LastIndex(path, '/') < j < LastIndex(path, '.') && path[j] != '.'
    ensures Ext(path) == path[LastIndex(path, '.')..]
  {
  }

  /** A final component made only of dots up to its last dot, like `.zip`, has no extension. */
  lemma DotsOnlyHaveNoExt(path: string)
    requires forall j :: LastIndex(path, '/') < j < LastIndex(path, '.') ==> path[j] == '.'
    ensures Ext(path) == []
  {
  }

  // ---------------------------------------------------------------------------
  // The directory each paper is stored in

  const OutDir := "out"

  /** `str(year)` for the year the run scrapes, 2020. */
  const YearDir := "2020"

  /**
   * `Path('out', str(year), slug)` as a list of components; pathlib drops an
   * empty component, so an empty slug names the year directory itself.
   */
  function PaperHome(slug: string): (parts: seq<string>)
    ensures |parts| == if slug == [] then 2 else 3
    ensures parts[..2] == [OutDir, YearDir]
    ensures slug != [] ==> parts[2] == slug
  {
    [OutDir, YearDir] + (if slug == [] then [] else [slug])
  }

  /** `Path(paper_home, f'Supplemental{ext}')`: the file the supplemental material is written to. */
  function SupplementalFile(slug: string, ext: string): (parts: seq<string>)
    ensures |parts| == |PaperHome(slug)| + 1
    ensures parts[..|parts| - 1] == PaperHome(slug)
    ensures parts[|parts| - 1] == "Supplemental" + ext
  {
    PaperHome(slug) + ["Supplemental" + ext]
  }

  /** `Path(paper_home, 'Supplemental')`: the directory a zip archive is extracted into. */
  function ExtractionDir(slug: string): (parts: seq<string>)
    ensures |parts| == |PaperHome(slug)| + 1
    ensures parts[..|parts| - 1] == PaperHome(slug)
  {
    PaperHome(slug) + ["Supplemental"]
  }

  /** Two papers share a home directory exactly when their slugs are equal. */
  lemma PaperHomeInjective(a: string, b: string)
    ensures PaperHome(a) == PaperHome(b) <==> a == b
  {
    if PaperHome(a) == PaperHome(b) && a != [] {
      assert PaperHome(a)[2] == a;
    }
  }

  /**
   * Two papers write to the same directory exactly when their titles have the
   * same slug; nothing else tells their files apart.
   */
  lemma SharedHomeIffSameSlug(db: Slugifier.UnicodeDb, t1: string, t2: string)
    ensures PaperHome(Slugifier.Slugify(db, t1, false)) == PaperHome(Slugifier.Slugify(db, t2, false))
        <==> Slugifier.Slugify(db, t1, false) == Slugifier.Slugify(db, t2, false)
  {
    PaperHomeInjective(Slugifier.Slugify(db, t1, false), Slugifier.Slugify(db, t2, false));
  }

  /**
   * A paper whose slug is empty has the year directory as its home, which holds
   * every other paper's home.
   */
  lemma EmptySlugHomeHoldsOthers(slug: string)
    requires slug != []
    ensures PaperHome([]) < PaperHome(slug)
  {
  }

  /**
   * Supplemental files differ exactly when their slugs or their extensions do:
   * a second paper with the same slug and extension overwrites the first's file.
   */
  lemma SupplementalFileInjective(s1: string, e1: string, s2: string, e2: string)
    ensures SupplementalFile(s1, e1) == SupplementalFile(s2, e2) <==> s1 == s2 && e1 == e2
  {
    var f1, f2 := SupplementalFile(s1, e1), SupplementalFile(s2, e2);
    if f1 == f2 {
      assert f1[..|f1| - 1] == f2[..|f2| - 1];
      PaperHomeInjective(s1, s2);
      var n := |"Supplemental"|;
      assert ("Supplemental" + e1)[n..] == e1;
      assert ("Supplemental" + e2)[n..] == e2;
    }
  }

  /**
   * The extraction directory is never a supplemental file of a non-empty
   * extension, so extracting never overwrites the downloaded archive.
   */
  lemma ExtractionDirIsNoFile(slug: string, s: string, ext: string)
    requires ext != []
    ensures ExtractionDir(slug) != SupplementalFile(s, ext)
  {
    var d, f := ExtractionDir(slug), SupplementalFile(s, ext);
    if |d| == |f| {
      assert |d[|d| - 1]| != |f[|f| - 1]|;
    }
  }

  /**
   * The home of a paper is a single directory below `out/2020`: its slug holds
   * neither `/` nor `.`, so it can neither name a nested path nor `.` or `..`.
   */
  lemma PaperHomeIsOneComponent(db: Slugifier.UnicodeDb, title: string)
    ensures var slug := Slugifier.Slugify(db, title, false);
            '/' !in slug && '.' !in slug
  {
    PathCharsNotInSlugs(db);
  }

  lemma PathCharsNotInSlugs(db: Slugifier.UnicodeDb)
    ensures !Slugifier.IsWordChar(db, '/') && !Slugifier.IsWordChar(db, '.')
  {
  }

  // ---------------------------------------------------------------------------
  // The supplemental tally

  /** The four counters the run prints at its end. */
  datatype Counters = Counters(
    noAuthorFeedback: nat,
    noSupplementalMaterial: nat,
    supplementalMaterialZipped: nat,
    supplementalMaterialPdf: nat)

  /** The failed assertion on a supplemental file that is neither a PDF nor a zip archive. */
  datatype TallyError = UnexpectedExtension(path: string, ext: string)

  const Pdf := ".pdf"
  const Zip := ".zip"

  /** The paper's supplemental material is absent, a PDF or a zip archive. */
  predicate Accepted(p: Paper)
  {
    p.links.supplementalUrl.None? || Ext(p.links.supplementalUrl.value.path) in {Pdf, Zip}
  }

  /** Every paper passes the extension assertion. */
  predicate AllAccepted(papers: seq<Paper>)
  {
    papers == [] || (AllAccepted(papers[..|papers| - 1]) && Accepted(papers[|papers| - 1]))
  }

  lemma {:induction false} AllAcceptedMeansEach(papers: seq<Paper>)
    ensures AllAccepted(papers) <==> forall i :: 0 <= i < |papers| ==> Accepted(papers[i])
    decreases |papers|
  {
    if papers != [] {
      var init := papers[..|papers| - 1];
      AllAcceptedMeansEach(init);
      assert forall i :: 0 <= i < |init| ==> init[i] == papers[i];
    }
  }

  /** Index `i` is the first paper whose supplemental file fails the assertion. */
  predicate FirstRejected(papers: seq<Paper>, i: int)
  {
    && 0 <= i < |papers|
    && !Accepted(papers[i])
    && AllAccepted(papers[..i])
  }

  /** The number of papers without supplemental material. */
  function CountWithout(papers: seq<Paper>): nat
  {
    if papers == [] then 0
    else CountWithout(papers[..|papers| - 1]) + (if papers[|papers| - 1].links.supplementalUrl.None? then 1 else 0)
  }

  /** The number of papers whose supplemental material has extension `ext`. */
  function CountExt(papers: seq<Paper>, ext: string): nat
  {
    if papers == [] then 0
    else
      var p := papers[|papers| - 1];
      CountExt(papers[..|papers| - 1], ext) + (if p.links.supplementalUrl.Some? && Ext(p.links.supplementalUrl.value.path) == ext then 1 else 0)
  }

  /**
   * The supplemental part of the run's loop over the papers. It stops at the
   * first paper whose supplemental file is neither `.pdf` nor `.zip`; otherwise
   * it returns the counters, of which `no_author_feedback` is never incremented.
   */
  method Tally(papers: seq<Paper>) returns (r: Result<Counters, TallyError>)
    ensures r.Success? <==> AllAccepted(papers)
    ensures r.Failure? ==> exists i :: FirstRejected(papers, i)
                                       && r.error == UnexpectedExtension(papers[i].links.supplementalUrl.value.path,
                                                                         Ext(papers[i].links.supplementalUrl.value.path))
    ensures r.Success? ==> r.value == Counters(0, CountWithout(papers), CountExt(papers, Zip), CountExt(papers, Pdf))
  {
    var noAuthorFeedback := 0;
    var noSupplementalMaterial := 0;
    var supplementalMaterialZipped := 0;
    var supplementalMaterialPdf := 0;
    for i := 0 to |papers|
      invariant AllAccepted(papers[..i])
      invariant noSupplementalMaterial == CountWithout(papers[..i])
      invariant supplementalMaterialZipped == CountExt(papers[..i], Zip)
      invariant supplementalMaterialPdf == CountExt(papers[..i], Pdf)
    {
      var p := papers[i];
      assert papers[..i + 1][..i] == papers[..i];
      if p.links.supplementalUrl.None? {
        noSupplementalMaterial := noSupplementalMaterial + 1;
        continue;
      }
      var ext := Ext(p.links.supplementalUrl.value.path);
      if ext != Pdf && ext != Zip {
        assert FirstRejected(papers, i);
        AllAcceptedMeansEach(papers);
        return Failure(UnexpectedExtension(p.links.supplementalUrl.value.path, ext));
      }
      if ext == Zip {
        supplementalMaterialZipped := supplementalMaterialZipped + 1;
      } else {
        supplementalMaterialPdf := supplementalMaterialPdf + 1;
      }
    }
    assert papers[..|papers|] == papers;
    r := Success(Counters(noAuthorFeedback, noSupplementalMaterial, supplementalMaterialZipped, supplementalMaterialPdf));
  }

  // ---------------------------------------------------------------------------
  // Properties of the tally

  /** When every paper passes, the three supplemental counters partition the papers. */
  lemma {:induction false} CountersPartition(papers: seq<Paper>)
    requires AllAccepted(papers)
    ensures CountWithout(papers) + CountExt(papers, Zip) + CountExt(papers, Pdf) == |papers|
    decreases |papers|
  {
    if papers != [] {
      CountersPartition(papers[..|papers| - 1]);
    }
  }

  /**
   * One more accepted paper increments exactly one of the three supplemental
   * counters, the one its supplemental material calls for.
   */
  lemma OneCounterPerPaper(papers: seq<Paper>, p: Paper)
    requires Accepted(p)
    ensures var s := papers + [p];
            var dNone := CountWithout(s) - CountWithout(papers);
            var dZip := CountExt(s, Zip) - CountExt(papers, Zip);
            var dPdf := CountExt(s, Pdf) - CountExt(papers, Pdf);
            || (p.links.supplementalUrl.None? && dNone == 1 && dZip == 0 && dPdf == 0)
            || (p.links.supplementalUrl.Some? && Ext(p.links.supplementalUrl.value.path) == Zip && dNone == 0 && dZip == 1 && dPdf == 0)
            || (p.links.supplementalUrl.Some? && Ext(p.links.supplementalUrl.value.path) == Pdf && dNone == 0 && dZip == 0 && dPdf == 1)
  {
    var s := papers + [p];
    assert s[..|s| - 1] == papers;
  }
}
