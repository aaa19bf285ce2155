# NeurIPS paper scraper — a Dafny model of its core

The scraper in `main.py` walks the NeurIPS proceedings site for one year
(2020). From the year's listing page it reads one `PaperEntry` per paper:
- the paper's URL on `https://papers.nips.cc`;
- its title;
- its authors, split out of the italic author line.

From each paper's own page it then sorts the button links into six document
slots by their exact visible label:
- `AuthorFeedback »`, `Bibtex »`, `MetaReview »`, `Paper »`, `Review »` and `Supplemental »`;
- an unknown label aborts the run;
- when a label occurs more than once, the last link carrying it wins.

Each paper is stored in a directory named by `slugify(title)`. Its
supplemental material must be a `.pdf` or a `.zip` file, and four counters
are reported at the end.

The model has five modules:

- `Wrappers`: `Option` and `Result`.
- `Slugifier`: `slugify` as a pipeline of four functions.
  - Unicode normalisation comes first.
  - The substitution `re.sub(r'[^\w\s-]', '', s)` comes next.
  - Then `str.strip()`.
  - Last, `re.sub(r'[-\s]+', '-', s)`.
  - Proved about it:
    - the characters the slug may contain;
    - that it never has whitespace or `--`;
    - that it is pure ASCII unless Unicode is allowed;
    - that it keeps the normalised title's word characters in order and case;
    - when it is empty;
    - that it is idempotent in ASCII mode (`allow_unicode` false, the mode main.py:161 uses), given that NFKD leaves ASCII unchanged;
    - that a title of plain ASCII words becomes the words joined by `-`.
- `Listing`:
  - the `PaperEntry` record and its `__str__`;
  - the author split `split(', ')` and its inverse `', '.join`;
  - `get_paper_entries` as a loop that appends one entry per list item.
- `Detail`:
  - the button-sorting loop of `get_paper`, proved against a reference
    definition (the slot of a kind holds the resolved href of the last anchor
    carrying its label);
  - lemmas for the "only its own slot", "last occurrence wins" and "absent
    label leaves `None`" properties.
- `RunDriver`:
  - `os.path.splitext` on POSIX paths;
  - the path of each paper's home directory;
  - the supplemental tally as a loop with its four counters.

Python's Unicode database is a parameter, `Slugifier.UnicodeDb`. It supplies
NFKC, NFKD and the meaning of `\w` and `\s` on non-ASCII characters. On ASCII
the classes are fixed in the model:
- `\w` is letters, digits and `_`;
- `\s` is space, code points 9–13 and 28–31.

The only property of the normal forms that is assumed is that NFKD leaves
pure-ASCII text unchanged (`Slugifier.NfkdFixesAscii`). Only the lemmas that
need it carry it as a precondition.

## Model

| member | source | states |
|---|---|---|
| Slugifier.DropNonAscii | main.py:120 | the result holds exactly the ASCII characters of the input, so it is all ASCII; pure-ASCII input comes back unchanged |
| Slugifier.DropNonAsciiConcat | main.py:120 | dropping non-ASCII characters distributes over concatenation, so the kept characters stay in order and keep their multiplicity |
| Slugifier.DropNonAsciiAppend | main.py:120 | one more character is kept, at the end, exactly when it is ASCII |
| Slugifier.Normalize | main.py:114-120 | in ASCII mode the result is all ASCII, and an ASCII title comes back unchanged when NFKD leaves ASCII alone |
| Slugifier.DropDisallowed | main.py:121 | the result holds exactly the input's characters from `\w`, `\s` and `-`; input made only of such characters comes back unchanged |
| Slugifier.DropDisallowedConcat | main.py:121 | deleting characters outside `[\w\s-]` distributes over concatenation, so every kept character stays in its order and multiplicity |
| Slugifier.DropDisallowedAppend | main.py:121 | one more character is kept, at the end, exactly when it is in `[\w\s-]` |
| Slugifier.TrimStart | main.py:121 | the result is a suffix of the input; every removed character is whitespace; the result does not start with whitespace |
| Slugifier.TrimEnd | main.py:121 | the result is a prefix of the input; every removed character is whitespace; the result does not end with whitespace |
| Slugifier.Strip | main.py:121 | `str.strip()`: the result is a slice of the input with only whitespace cut at both ends; it neither starts nor ends with whitespace; it is empty exactly when the input is all whitespace |
| Slugifier.DropSeparators | main.py:122 | the rest after a run of `[-\s]`: a suffix of the input, everything cut is a separator, and the rest does not start with one |
| Slugifier.Collapse | main.py:122 | the result is empty exactly when the input is; it starts with `-` when the input starts with a separator, and with the input's first character otherwise |
| Slugifier.CollapseChars | main.py:122 | every character of the collapsed text is `-` or a non-separator character of the input |
| Slugifier.CollapseNoDoubleHyphen | main.py:122 | the collapsed text never has two hyphens in a row |
| Slugifier.CollapseRetains | main.py:122 | collapsing keeps the input's non-separator characters, in order |
| Slugifier.StripRetains | main.py:121 | stripping keeps the input's non-separator characters, in order |
| Slugifier.DropDisallowedRetains | main.py:121 | after the first substitution, the non-separator characters left are exactly the input's word characters, in order |
| Slugifier.Slugify | main.py:107-122 | every slug character is `-` or a word character; no whitespace; no `--`; pure ASCII when `allow_unicode` is false |
| Slugifier.SlugKeepsWordChars | main.py:114-122 | the slug's non-hyphen characters are exactly the word characters of the normalised title, in order and with their case |
| Slugifier.SlugEmptyIff | main.py:114-122 | the slug is empty exactly when every character of the normalised title is whitespace or outside `[\w\s-]` |
| Slugifier.CollapseFixed | main.py:122 | text without whitespace and without `--` is unchanged by the second substitution |
| Slugifier.SlugifyIdempotent | main.py:107-122 | in ASCII mode (`allow_unicode` false, the mode main.py:161 uses), given that NFKD leaves ASCII unchanged, slugifying a slug again gives the same slug |
| Slugifier.CollapseRun | main.py:122 | a run of separators followed by a non-separator becomes one `-` |
| Slugifier.CollapseWordThenRun | main.py:122 | a word followed by a run of separators becomes the word and one `-` |
| Slugifier.DropSeparatorsRun | main.py:122 | a run of separators is consumed up to the first non-separator |
| Slugifier.CollapseJoined | main.py:122 | plain words joined by single spaces collapse to the words joined by `-` |
| Slugifier.PlainTitleUnchanged | main.py:114-121 | a title of plain ASCII words separated by single spaces passes the first three steps unchanged |
| Slugifier.SlugOfPlainTitle | main.py:107-122 | the slug of plain ASCII words separated by single spaces is those words joined by `-` |
| Listing.SplitAuthors | main.py:64 | `split(', ')` always yields at least one piece |
| Listing.JoinSplit | main.py:64 | joining the split author names with `', '` gives back the author text exactly |
| Listing.SplitJoin | main.py:29 | `JoinAuthors` is `', '.join`: splitting names joined by `', '` gives back the names, when no name contains `', '` |
| Listing.RootedPath | main.py:24 | urllib3's `Url` path: empty exactly when the href is; otherwise it starts with `/`; it is the href or `/` followed by the href, and an href that already starts with `/` is kept as it is |
| Listing.NewEntryUrl | main.py:23-26 | `PaperEntry.__init__` (`NewEntry`): the URL is https on papers.nips.cc; its path is empty exactly when the href is, otherwise starts with `/`, ends with the whole href and is at most one character longer |
| Listing.EntryTextOfItem | main.py:28-29 | `PaperEntry.__str__` (`EntryText`): an entry built from a list item prints as the item's title followed by its author text in parentheses |
| Listing.GetPaperEntries | main.py:57-65 | one entry per list item, in order; each URL is https on papers.nips.cc with the item's href, rooted by a leading `/`, as path, and reads `https://papers.nips.cc` followed by that path; each title is the item's; the authors are the split author text and join back to it |
| Detail.KindOfIsLabel | main.py:77-91 | the `if`/`elif` chain (`KindOf`) sorts a text into kind `k` exactly when the text equals `k`'s label; matching is exact, and any other text falls to the `else` |
| Detail.LabelsDistinct | main.py:77-89 | no two kinds share a label |
| Detail.RecognizedIffSorted | main.py:77-91 | an anchor passes the label chain exactly when `KindOf` gives it a kind |
| Detail.Resolve | main.py:79 | the resolved URL's text is the base's scheme, `://`, the base's host, then the href |
| Detail.ExpectedSlotStep | main.py:76-91 | taking one more anchor into account changes only the slot of its kind, to its resolved href |
| Detail.AllRecognizedMeansEach | main.py:76-91 | the recursive "every anchor recognised" holds exactly when each anchor's text is a label |
| Detail.FirstUnrecognizedBlocks | main.py:90-91 | an unrecognised anchor makes the whole page unrecognised |
| Detail.SortLinks | main.py:70-91 | fails exactly when some anchor has no label, reporting the first such anchor's text and href; otherwise every slot equals the reference definition |
| Detail.GetPaper | main.py:68-104 | the paper keeps its entry; its abstract is the stripped text of the abstract node; its slots are the reference slots; it fails exactly as the sorting loop does |
| Detail.AnchorSetsOnlyItsSlot | main.py:77-89 | an anchor labelled for `k` sets slot `k` to its resolved href, overwriting any earlier value, and leaves the other five slots unchanged |
| Detail.LastOccurrenceWins | main.py:77-89 | when a label occurs several times, the slot holds the href of the last occurrence |
| Detail.AbsentLabelLeavesNone | main.py:71-91 | a slot stays `None` exactly when no anchor carries its label |
| RunDriver.LastIndex | main.py:216 | `rfind`: -1 or an index holding the character, with no occurrence after it |
| RunDriver.HasNonDot | main.py:216 | the `splitext` scan: true exactly when some character in the range is not `.` |
| RunDriver.Ext | main.py:216 | the extension is empty, or it starts with `.`, ends the path, has no `/` and no further `.`, and follows a non-dot character of the last component |
| RunDriver.LastIndexAppend | main.py:216 | appending text without the character leaves its last index unchanged |
| RunDriver.ExtOfName | main.py:216 | `stem.ext` has extension `.ext` when `ext` has no `.` or `/` and the stem's last component has a non-dot character |
| RunDriver.DotsOnlyHaveNoExt | main.py:216 | a last component of only dots before its last dot, such as `.zip`, has no extension |
| RunDriver.PaperHomeInjective | main.py:161 | `PaperHome`, the path `out/2020/<slug>`: two slugs give the same home exactly when they are equal |
| RunDriver.SharedHomeIffSameSlug | main.py:161 | two papers share a home directory exactly when their titles have the same slug |
| RunDriver.EmptySlugHomeHoldsOthers | main.py:161 | pathlib drops an empty slug, so such a paper's home is `out/2020` itself, a proper prefix of every other paper's home |
| RunDriver.PaperHomeIsOneComponent | main.py:161 | a slug never contains `/` or `.`, so a paper's home is one directory directly under `out/2020` and never `.` or `..` |
| RunDriver.SupplementalFileInjective | main.py:218 | `SupplementalFile`, the path `<home>/Supplemental<ext>`: two such files coincide exactly when both slug and extension are equal |
| RunDriver.ExtractionDirIsNoFile | main.py:224 | `ExtractionDir`, the path `<home>/Supplemental`: never the same path as a supplemental file with a non-empty extension |
| RunDriver.AllAcceptedMeansEach | main.py:217 | the recursive "every paper passes the assertion" holds exactly when each paper's supplemental file is absent, `.pdf` or `.zip` |
| RunDriver.Tally | main.py:154-233 | fails exactly when some supplemental extension is neither `.pdf` nor `.zip`, reporting the first such path and extension; otherwise returns the papers without supplemental material, the zip count and the PDF count, with `no_author_feedback` at 0 |
| RunDriver.CountersPartition | main.py:212-233 | when every paper passes, the three supplemental counters add up to the number of papers |
| RunDriver.OneCounterPerPaper | main.py:212-233 | a paper that passes increments exactly one supplemental counter, the one its supplemental material calls for |

## Left out

- Fetching and HTTP are not modelled: the browser, its file cache and the request delay. The HTML parsing is not modelled either. The model takes three kinds of input:
  - the list items of the listing page (href, title text, italic text);
  - the button anchors of each paper page (text, href);
  - the text of the re-parsed abstract node.
- A listing item or paper page that lacks the expected node is not modelled: Python raises `AttributeError` there.
- The HTML unescaping done by re-parsing the abstract is not modelled.
- Unicode normalisation and the non-ASCII meaning of `\w` and `\s` are parameters (`Slugifier.UnicodeDb`), not computed.
- `str(string)` in `slugify` is the identity: titles are already strings.
- `parse_url` in `get_paper` is not modelled beyond taking the href as the path. Splitting a query or fragment off the href is not modelled, and neither is normalisation. A resolved URL is `Url(scheme, host, href)`.
- The `Url` constructor of `PaperEntry.__init__` is modelled only in its path rooting (`Listing.RootedPath`). Its lower-casing of the scheme does not matter, since the scheme is the literal `https`.
- `splitext` follows the POSIX algorithm for `/` and `.`. Bytes paths and alternative separators are not modelled.
- File writes, `mkdir`, downloading the supplemental file, zip extraction and the `BadZipFile` message are I/O and are not modelled. `RunDriver.PaperHome`, `RunDriver.SupplementalFile` and `RunDriver.ExtractionDir` name the paths used.
- Two titles with the same slug share one directory (`RunDriver.SharedHomeIffSameSlug`). When the second of them in the same run has supplemental material with the same extension, its `Supplemental<ext>` file overwrites the first's (`RunDriver.SupplementalFileInjective`). The source does not handle this. The model does not track files, so the overwrite itself is not modelled.
- The run's loop interleaves fetching a paper with tallying it. `RunDriver.Tally` runs over the papers already fetched. When `get_paper` raises, the run ends before the counters are printed; which exception appears first is not modelled.
- `print` output is not modelled.
- The commented-out code is not modelled, including the author-feedback, bibtex, meta-review, paper and review downloads. That is why `no_author_feedback` is never incremented.
- Running Python with `-O` removes the `assert` on the extension. That is not modelled: the model always checks it.
- `Paper.__str__` (main.py:53-54) is not modelled: it prints the entry, which `Listing.EntryText` covers, and the run never prints a `Paper`.
- Listing.SplitAuthors: its contract states only that the result is non-empty. Its meaning as `split(', ')` is stated by `Listing.JoinSplit` and `Listing.SplitJoin`.
- Detail.Resolve: its contract states the URL's text, not how `parse_url` would re-split it.
