# Scholarly-PDF enrichment scripts, modelled in Dafny

The `python-app` scripts send every PDF in a folder to a PDF-extraction
service. They store what comes back in one folder per PDF, named after the
PDF's base name:

- the keyword-cloud script stores `keyword_cloud/tei.xml` and `keyword_cloud/keyword_cloud.png`;
- the links script stores `links_in_pdf/tei.xml` and `links_in_pdf/links.txt`;
- the figures script stores `visualization_figures/visualization_figures.png`;
- `main.py` stores the header and the cloud directly in `<base>`.

Two readiness probes guard the run:

- a bounded probe, `tester()` in `main.py` and `main()` in `tester.py`;
- an unbounded one, `tests.py`, which also checks the service version.

A final check, `tester_final.py`, verifies that the expected files exist.

The model has these modules:

- `Text`: Python's `str.strip`/`lstrip`, ASCII `lower`, `os.path.splitext` and the `.pdf` filter.
- `Order`: string order, and the strictly ascending list that `sorted(set)` returns.
- `Xml`: a parsed ElementTree element, with `iter`, `itertext` and `find(".//tag")`.
- `Files`: the directory tree.
  - The value `Fs` holds a set of folders and a map of files; its `Valid` says that every parent folder exists.
  - The class `Disk` holds the same state and is updated in place by `MakeDirs` (`os.makedirs(..., exist_ok=True)`) and `Write` (`open(...).write`).
- `LinksInPdf`, `KeywordCloud`, `FiguresVisualization` and `MainPipeline`: one module per generator script.
  - Each script is a method that loops over the listed PDFs.
  - Each method is proved equal to a step function folded over the PDFs (`...Step`/`...Run`).
  - The skip rule, the status-to-file mapping, idempotence and "nothing is deleted" are lemmas about those functions.
- `Probe`: the readiness probes (`main.py`, `tester.py`, `tests.py`). Each probe's sequence of requests and sleeps is recorded as a trace of events.
- `FinalTests`: the five checks of `tester_final.py`.
  - Each check is a loop method proved equal to a predicate over the tree.
  - Lemmas show which runs of the generator scripts make which checks pass.

The service, the XML parser and the word-cloud renderer are parameters:

- `service: string -> Response` gives the answer for each PDF during a run.
- `parse: string -> Option<Element>` gives the parsed tree, or `None` on a parse error.
- `renders: string -> bool` says whether WordCloud can draw a text.
- For the probes, `version`/`isalive: nat -> Response` give the answer at each attempt.

Behaviour of the code worth noting:

- The abstract is looked up with `find(".//abstract")`. That matches only the un-namespaced tag `abstract`, and never the root. So on a namespaced TEI header no abstract is found (`KeywordCloud.NamespacedAbstractNotFound`).
- In the links script, a 200 answer with an empty body behaves differently from a 204:
  - `tei.xml` is written;
  - `links.txt` is not written;
  - the PDF is asked for again on the next run (`LinksInPdf.FetchLinksOutcome`, `LinksInPdf.LinksRetriedAfterFailure`).
- `os.listdir` returns folders as well as files, and the `.pdf` filter never checks which. The folder made for `a.pdf.pdf` is `a.pdf`, and every later listing selects it as one more PDF (`Text.DoublePdfExtension`, `Text.RelistSelectsFolder`).
- `extract_links_from_tei` builds a namespace map and never uses it. Every element's `target` is considered, in whatever namespace.
- Nothing in the modelled scripts writes `pdf_full_text_document/tei.xml` or the root-level `figures_in_articles.png`. `tester_final.py` checks both, and it never checks `visualization_figures`.

## Model

| member | source | states |
|---|---|---|
| Text.LStripSpec | python-app/keyword_cloud_generator.py:60 | `lstrip` removes exactly the leading whitespace: the result is a suffix, every removed character is whitespace, and the result does not start with whitespace |
| Text.RStripSpec | python-app/keyword_cloud_generator.py:22 | the trailing half of `strip`: the result is a prefix, every removed character is whitespace, and the result does not end with whitespace |
| Text.StripSpec | python-app/keyword_cloud_generator.py:34 | `strip` gives a text with no whitespace at either end, and the input is that text with only whitespace before and after it |
| Text.LowerAt | python-app/main.py:27 | `lower` keeps the length and maps every character to its lower-case form |
| Text.LastDot | python-app/keyword_cloud_generator.py:96 | finds the last `.` in a name, and finds none exactly when the name has no dot |
| Text.BaseName | python-app/keyword_cloud_generator.py:96 | `splitext(name)[0]` is a prefix of the name. Either it is the whole name, or the name continues with its last dot, and the base is not made only of dots (leading dots never start an extension); that the cut does happen is stated by `Text.BaseNameCuts` |
| Text.BaseNameCuts | python-app/keyword_cloud_generator.py:96 | the extension is cut exactly when some dot has a character other than a dot before it, and then the base is everything before the last dot |
| Text.PdfFiles | python-app/keyword_cloud_generator.py:89 | the listing filter keeps exactly the listed names whose lower-cased form ends in `.pdf`, and never yields more names than were listed; listing order is stated by `Text.PdfFilesAppend` |
| Text.PdfFilesAppend | python-app/keyword_cloud_generator.py:89 | filtering a listing split in two gives the filtered first part followed by the filtered second part, so the selected PDFs keep the order of the listing |
| Text.PdfFilesSingle | python-app/keyword_cloud_generator.py:89 | a single name is kept exactly when it names a PDF |
| Text.PdfBaseName | python-app/keyword_cloud_generator.py:89-96 | for a selected PDF, the base name is the name without its last four characters, or the whole name when everything before the `.pdf` is dots (`.pdf`, `..pdf`) |
| Text.RelistSelectsSame | python-app/keyword_cloud_generator.py:89 | listing the folder again, with the folders made for the PDFs added, selects the same PDFs in the same order when no PDF's folder name is itself a PDF name |
| Text.RelistSelectsFolder | python-app/keyword_cloud_generator.py:89 | when a PDF's folder name is a PDF name, the next listing selects that folder as one more PDF, since the filter never checks for a file |
| Text.DoublePdfExtension | python-app/keyword_cloud_generator.py:89-96 | `a.pdf.pdf` is such a PDF: its folder `a.pdf` is itself selected as a PDF |
| Order.AscendingHasNoDuplicates | python-app/links_in_pdf_generator.py:56 | a strictly ascending list holds no element twice |
| Order.SortedOf | python-app/links_in_pdf_generator.py:56 | every finite set of strings has a strictly ascending list with exactly its elements, the order `sorted` uses |
| Order.AscendingUnique | python-app/links_in_pdf_generator.py:56 | two strictly ascending lists with the same elements are equal, so `sorted(set)` is determined by the set |
| Xml.Iter | python-app/links_in_pdf_generator.py:50 | `iter()` starts with the element itself |
| Xml.IterIsSubtree | python-app/links_in_pdf_generator.py:50 | an element occurs in `root.iter()` exactly when it is in the subtree of the root, the root included |
| Xml.FindFirst | python-app/keyword_cloud_generator.py:20 | an element of the sequence carrying the tag, or none exactly when no element has that tag |
| Xml.Itertext | python-app/keyword_cloud_generator.py:22 | `"".join(e.itertext())`: the element's text, then each child's joined text followed by that child's tail; the element's own tail is left out. What it covers is stated by `Xml.ItertextCovers` |
| Xml.ItertextCovers | python-app/keyword_cloud_generator.py:22 | the text of every element in the subtree appears, unbroken, in the joined text |
| Xml.FindDescendant | python-app/keyword_cloud_generator.py:20 | `find(".//tag")`: the first element after the root, in document order, whose tag is exactly the one asked for. Its meaning is stated by `Xml.FindDescendantMeaning` |
| Xml.FindDescendantMeaning | python-app/keyword_cloud_generator.py:20 | what the lookup finds carries the tag and lies strictly below the root. When it finds nothing, no element below the root carries the tag |
| Files.MakeDirsExisting | python-app/links_in_pdf_generator.py:70 | with `exist_ok=True`, making a folder that exists changes nothing |
| Files.MakeDirsValid | python-app/links_in_pdf_generator.py:70 | `makedirs` keeps every parent present and the folder exists afterwards |
| Files.MakeDirsTopLevel | python-app/links_in_pdf_generator.py:70 | `makedirs` creates at most one top-level folder, named by the first part of the path |
| Files.WriteValid | python-app/links_in_pdf_generator.py:22-23 | writing a file into an existing folder keeps every parent present |
| Files.MakeDirsShallow | python-app/keyword_cloud_generator.py:98-106 | making a folder at most two levels deep keeps every folder at most two levels deep |
| Files.Disk.MakeDirs | python-app/links_in_pdf_generator.py:70 | the tree after `os.makedirs(p, exist_ok=True)` is the old tree with `p` and its ancestors added, and it stays valid |
| Files.Disk.Write | python-app/links_in_pdf_generator.py:22-23 | the tree after `open(p, "w").write(c)` maps `p` to `c`, and nothing else changes |
| LinksInPdf.LinksAmong | python-app/links_in_pdf_generator.py:50-53 | every collected link is some visited element's `target` that starts with `http`, and every such target is collected |
| LinksInPdf.LinkSet | python-app/links_in_pdf_generator.py:46-56 | a parse error gives no links. Otherwise the links are exactly the `target` values starting with `http` of all elements of the tree, the root included |
| LinksInPdf.ExtractLinksFromTei | python-app/links_in_pdf_generator.py:40-56 | the returned list is strictly ascending (so it has no duplicates) and holds exactly the link set |
| LinksInPdf.Sorted | python-app/links_in_pdf_generator.py:56 | the result is strictly ascending and holds exactly the given set |
| LinksInPdf.LinesRoundTrip | python-app/links_in_pdf_generator.py:87-89 | reading `links.txt` line by line gives back the written links, when no link contains a newline |
| LinksInPdf.LinksListText | python-app/links_in_pdf_generator.py:86-94 | the content of `links.txt`: each link followed by a newline, or the fixed "no links" sentence when there are none. Its round trip is `LinksInPdf.LinesRoundTrip` |
| LinksInPdf.LinesEndWithNewline | python-app/links_in_pdf_generator.py:87-89 | a non-empty link list is written with a newline after the last link |
| LinksInPdf.LinksOutcomesDistinct | python-app/links_in_pdf_generator.py:86-94 | the two sentinel texts differ, a written link list is never a sentinel, and the no-links sentinel is written exactly when the list is empty |
| LinksInPdf.SaveReferencesTei | python-app/links_in_pdf_generator.py:7-38 | on 200, writes `tei.xml` and returns the body. On 204, writes the 204 sentinel to `links.txt` and returns `""`. Otherwise writes nothing and returns none |
| LinksInPdf.ProcessPdfExtractLinks | python-app/links_in_pdf_generator.py:58-94 | one PDF changes the tree exactly as the step function says: folder first, skip when `links.txt` exists, then fetch and write |
| LinksInPdf.LinksMain | python-app/links_in_pdf_generator.py:96-113 | the loop over the listed PDFs ends in the state, and with the request list, of the step function folded over the PDFs |
| LinksInPdf.LinksStep | python-app/links_in_pdf_generator.py:67-83 | one PDF: make `<base>/links_in_pdf`, then skip if `links.txt` exists, otherwise send the request. Stated by `LinksInPdf.LinksSkipWhenPresent`, `LinksInPdf.LinksRequestWhenAbsent` and `LinksInPdf.LinksStepFrame` |
| LinksInPdf.FetchLinks | python-app/links_in_pdf_generator.py:77-94 | what one answer writes: on a 200, `tei.xml` with the body and, unless the body is empty, the sorted links in `links.txt`; on a 204, the fixed 204 text in `links.txt`; on anything else, nothing. Stated by `LinksInPdf.FetchLinksCases` and `LinksInPdf.FetchLinksOutcome` |
| LinksInPdf.LinksSkipWhenPresent | python-app/links_in_pdf_generator.py:70-75 | when `links.txt` exists, no request is made and nothing changes |
| LinksInPdf.FetchLinksCases | python-app/links_in_pdf_generator.py:77-94 | what each kind of answer writes: 200 with an empty body, 200 with a TEI, 204, and any other status or an exception |
| LinksInPdf.FetchLinksFrame | python-app/links_in_pdf_generator.py:77-94 | fetching keeps the tree valid, adds no folder and deletes no file |
| LinksInPdf.FetchLinksOutcome | python-app/links_in_pdf_generator.py:77-94 | no file other than `tei.xml` and `links.txt` changes. A 200 stores the body in `tei.xml`; a 204 adds only the sentinel `links.txt`; any other answer writes nothing. `links.txt` exists afterwards exactly for a 204 or a non-empty 200 |
| LinksInPdf.LinksRequestWhenAbsent | python-app/links_in_pdf_generator.py:69-77 | when `links.txt` is absent, the folder is made and the service is asked |
| LinksInPdf.LinksListWritten | python-app/links_in_pdf_generator.py:85-94 | after a non-empty TEI, `links.txt` holds the no-links sentinel when there are no links, and otherwise the sorted links one per line |
| LinksInPdf.LinksRetriedAfterFailure | python-app/links_in_pdf_generator.py:77-80 | when the answer neither was a 204 nor a non-empty 200, `links.txt` is still absent, so the next run asks again |
| LinksInPdf.LinksStepFrame | python-app/links_in_pdf_generator.py:67-94 | one PDF keeps the tree valid, and at most two levels deep when it was. Every folder it makes is at most two levels deep, and the only top-level one is the PDF's own. It deletes nothing and changes no file except its own `tei.xml` |
| LinksInPdf.LinksStepSettles | python-app/links_in_pdf_generator.py:73-94 | after a 204 or a non-empty 200, `links.txt` exists, and it is a file unless a folder already sat at that path |
| LinksInPdf.LinksRunShallow | python-app/links_in_pdf_generator.py:111-113 | a batch keeps the tree valid and at most two levels deep |
| LinksInPdf.LinksRunFrame | python-app/links_in_pdf_generator.py:111-113 | a batch keeps the tree valid. It makes no folder more than two levels deep, and no top-level folder other than its PDFs' own. It deletes no folder and no file, and changes no file other than a `tei.xml` |
| LinksInPdf.LinksRerunRequestsNothing | python-app/links_in_pdf_generator.py:73-75 | when every PDF has its `links.txt`, a batch asks for nothing and changes nothing |
| LinksInPdf.LinksRunSettles | python-app/links_in_pdf_generator.py:111-113 | when every answer settles, a listed PDF has its `links.txt` at the end, as a file unless a folder sat at that path before the run |
| LinksInPdf.LinksRunCompletes | python-app/links_in_pdf_generator.py:111-113 | when every answer settles, every listed PDF has its `links.txt` at the end, as a file wherever no folder sat at that path before the run |
| LinksInPdf.LinksIdempotent | python-app/links_in_pdf_generator.py:96-113 | on any valid tree, once every PDF's answer settled, a second run asks for nothing, whatever the service answers. The second run's listing is the first plus the folders the first run made, provided no PDF's folder name is a PDF name |
| KeywordCloud.ExtractAbstractFromXml | python-app/keyword_cloud_generator.py:16-28 | a parse error gives none, and an abstract found is stripped |
| KeywordCloud.XmlAbstractIsFirst | python-app/keyword_cloud_generator.py:20-23 | an abstract is found only when some element after the root is tagged `abstract` |
| KeywordCloud.XmlAbstractFound | python-app/keyword_cloud_generator.py:19-25 | an abstract is found exactly when some element below the root, in the subtree of one of its children, has tag exactly `abstract` |
| KeywordCloud.NamespacedAbstractNotFound | python-app/keyword_cloud_generator.py:20 | in a tree whose tags are all namespaced (`{uri}abstract`), no abstract is ever found |
| KeywordCloud.XmlAbstractExample | python-app/keyword_cloud_generator.py:16-23 | a header with `<abstract> Deep <hi>learning</hi> works </abstract>` gives `Deep learning works` |
| KeywordCloud.SkipSpaces | python-app/keyword_cloud_generator.py:32 | `\s*` consumes the longest run of whitespace |
| KeywordCloud.IndexFrom | python-app/keyword_cloud_generator.py:32 | the lazy `.*?\}` stops at the first `}`, or there is none |
| KeywordCloud.MatchAt | python-app/keyword_cloud_generator.py:32 | a match's group never contains `}` |
| KeywordCloud.MatchAtSound | python-app/keyword_cloud_generator.py:32 | what the matcher returns at a position is a match of the pattern there |
| KeywordCloud.MatchAtComplete | python-app/keyword_cloud_generator.py:32 | every split of the text that fits the pattern at a position is what the matcher returns there |
| KeywordCloud.MatchAtMeansPattern | python-app/keyword_cloud_generator.py:32 | the matcher returns group `g` at a position exactly when the pattern matches there with group `g` |
| KeywordCloud.SearchFrom | python-app/keyword_cloud_generator.py:32 | a search result never contains `}` |
| KeywordCloud.SearchFromNone | python-app/keyword_cloud_generator.py:32 | the search finds nothing exactly when the pattern matches at no position |
| KeywordCloud.SearchFromFirst | python-app/keyword_cloud_generator.py:32 | the search returns the match at the leftmost position where the pattern matches |
| KeywordCloud.StripKeepsOut | python-app/keyword_cloud_generator.py:34 | stripping adds no character |
| KeywordCloud.ExtractAbstractFromBibtex | python-app/keyword_cloud_generator.py:30-38 | an extracted abstract is stripped and contains no `}` |
| KeywordCloud.BibtexLeftmostMatch | python-app/keyword_cloud_generator.py:32-38 | none exactly when no position matches. Otherwise the result is the stripped group of the leftmost match, with no match at any earlier position |
| KeywordCloud.BibtexExample | python-app/keyword_cloud_generator.py:32-35 | `@article{k, abstract = {Hello world}}` gives `Hello world` |
| KeywordCloud.AbstractOf | python-app/keyword_cloud_generator.py:59-65 | any abstract found is stripped |
| KeywordCloud.AbstractDispatch | python-app/keyword_cloud_generator.py:59-65 | after `lstrip`, `<` goes to the XML extractor and `@` to the BibTeX extractor. Any other start gives no abstract |
| KeywordCloud.GenerateKeywordCloud | python-app/keyword_cloud_generator.py:40-76 | the tree after one request is the outcome function of the answer: `tei.xml` on every 200, then the cloud when the abstract is non-empty and can be drawn |
| KeywordCloud.HeaderOutcome | python-app/keyword_cloud_generator.py:50-74 | what one answer writes: on a 200, `tei.xml` with the body, and `keyword_cloud.png` when an abstract is found and can be drawn; nothing otherwise. Stated by `KeywordCloud.HeaderOutcomeFrame` and `KeywordCloud.HeaderOutcomeWrites` |
| KeywordCloud.HeaderOutcomeFrame | python-app/keyword_cloud_generator.py:50-74 | a request keeps the tree valid, makes no folder and touches only `tei.xml` and `keyword_cloud.png`. A non-200 answer changes nothing |
| KeywordCloud.HeaderOutcomeWrites | python-app/keyword_cloud_generator.py:50-71 | a 200 always stores the body in `tei.xml`. When the abstract is non-empty and WordCloud can draw it, `keyword_cloud.png` holds its cloud; otherwise `tei.xml` is the only file that changes |
| KeywordCloud.ProcessPdf | python-app/keyword_cloud_generator.py:94-108 | one PDF changes the tree exactly as the step function says: skip, else make the folder and send |
| KeywordCloud.KeywordMain | python-app/keyword_cloud_generator.py:78-108 | the loop over the listed PDFs ends in the folded step function's state and request list |
| KeywordCloud.KeywordStep | python-app/keyword_cloud_generator.py:96-108 | one PDF: skip when both `tei.xml` and `keyword_cloud.png` exist, otherwise make `<base>/keyword_cloud` and send the request. Stated by `KeywordCloud.KeywordSkipRule` and `KeywordCloud.KeywordStepFrame` |
| KeywordCloud.KeywordSkipRule | python-app/keyword_cloud_generator.py:100-104 | a PDF is sent exactly unless both `tei.xml` and `keyword_cloud.png` exist, so `tei.xml` alone means it is sent again. A skipped PDF changes nothing |
| KeywordCloud.KeywordStepFrame | python-app/keyword_cloud_generator.py:98-108 | one PDF keeps the tree valid (and shallow when it was). It makes no folder more than two levels deep and no top-level folder but its own. It deletes nothing, changes only its own two files, and its `keyword_cloud` folder exists afterwards |
| KeywordCloud.KeywordStepCompletes | python-app/keyword_cloud_generator.py:102-108 | after an answer that completes, both files of the PDF exist |
| KeywordCloud.KeywordRunGrows | python-app/keyword_cloud_generator.py:94-108 | a batch keeps the tree valid (and shallow when it was). It makes no folder more than two levels deep and no top-level folder but its PDFs' own. It deletes no folder and no file |
| KeywordCloud.KeywordRunCompletesOne | python-app/keyword_cloud_generator.py:94-108 | a PDF whose answer completes has both files at the end of the batch |
| KeywordCloud.KeywordRerunRequestsNothing | python-app/keyword_cloud_generator.py:100-104 | when every PDF has both files, a batch asks for nothing and changes nothing |
| KeywordCloud.KeywordIdempotent | python-app/keyword_cloud_generator.py:89-108 | once every answer completed, a second run asks for nothing. Its listing is the first plus the folders the first run made, provided no PDF's folder name is a PDF name |
| FiguresVisualization.GenerateFiguresVisualization | python-app/figures_visualization_generator.py:4-24 | a 200 writes the raw body bytes to `visualization_figures.png`; any other status or an exception writes nothing |
| FiguresVisualization.ProcessPdf | python-app/figures_visualization_generator.py:42-55 | one PDF changes the tree exactly as the step function says |
| FiguresVisualization.FiguresMain | python-app/figures_visualization_generator.py:26-55 | the loop ends in the folded step function's state and request list. With no PDFs nothing changes |
| FiguresVisualization.FiguresStep | python-app/figures_visualization_generator.py:44-55 | one PDF: skip when its figure image exists, otherwise make `<base>/visualization_figures` and send the request. Stated by `FiguresVisualization.FiguresSkipRule` and `FiguresVisualization.FiguresStepOutcome` |
| FiguresVisualization.FiguresSkipRule | python-app/figures_visualization_generator.py:48-51 | a PDF is sent exactly when its picture does not exist, and a skipped PDF changes nothing |
| FiguresVisualization.FiguresStepOutcome | python-app/figures_visualization_generator.py:43-55 | a sent PDF gets its folder whatever the answer. Its picture exists afterwards exactly on a 200, with the raw bytes, and no other file changes |
| FiguresVisualization.FiguresRetriedAfterFailure | python-app/figures_visualization_generator.py:15-24 | after a failed request the picture is absent, so the next run sends the PDF again |
| FiguresVisualization.FiguresStepFrame | python-app/figures_visualization_generator.py:42-55 | one PDF keeps the tree valid, makes no top-level folder but its own, deletes nothing and changes no existing file |
| FiguresVisualization.FiguresRunGrows | python-app/figures_visualization_generator.py:42-55 | a batch keeps the tree valid, makes no top-level folder but its PDFs' own, and deletes no folder and no file |
| FiguresVisualization.FiguresRunCompletesOne | python-app/figures_visualization_generator.py:42-55 | a PDF answered with 200 has its picture at the end of the batch |
| FiguresVisualization.FiguresRerunRequestsNothing | python-app/figures_visualization_generator.py:48-51 | when every PDF has its picture, a batch sends nothing and changes nothing |
| FiguresVisualization.FiguresIdempotent | python-app/figures_visualization_generator.py:37-55 | once every PDF was answered with 200, a second run sends nothing. Its listing is the first plus the folders the first run made, provided no PDF's folder name is a PDF name |
| MainPipeline.MainLoop | python-app/main.py:123-140 | the loop ends in the folded step function's state and request list. With no PDFs nothing changes |
| MainPipeline.Script | python-app/main.py:142-144 | the PDFs are processed only when the probe succeeds; otherwise the tree is unchanged. The probe's trace is that of `tester()` |
| MainPipeline.MainRequestsEvery | python-app/main.py:133-140 | there is no skip check: every listed PDF is sent, in listing order |
| MainPipeline.MainStep | python-app/main.py:133-140 | one PDF: make its `<base>` folder and always send the request. Stated by `MainPipeline.MainStepOutcome` |
| MainPipeline.MainStepOutcome | python-app/main.py:133-140 | one PDF makes its `<base>` folder, deletes nothing, and on a 200 overwrites `<base>/tei.xml` with the body. Any other answer only makes the folder |
| MainPipeline.MainRunGrows | python-app/main.py:133-140 | a batch keeps the tree valid, makes no top-level folder but its PDFs' own, and deletes no folder and no file |
| MainPipeline.MainRunMakesFolder | python-app/main.py:135-138 | after a batch every listed PDF has its folder, whatever the service answered |
| Probe.CheckApiVersion | python-app/main.py:8-20 | `/api/version` is ready on a 200 answer. Its meaning is stated by `Probe.VersionIgnoresBody` |
| Probe.CheckApiIsAlive | python-app/main.py:22-34 | `/api/isalive` is ready on a 200 whose stripped, lower-cased body is `true`. Its meaning is stated by `Probe.IsAliveMeaning` |
| Probe.VersionIgnoresBody | python-app/main.py:8-20 | the version check succeeds exactly on status 200, whatever the body. An exception gives false |
| Probe.IsAliveMeaning | python-app/main.py:22-34 | the isalive check succeeds exactly on status 200 with a stripped body that reads `true` in any letter case |
| Probe.IsAliveExamples | python-app/main.py:26-29 | `" TRUE\n"` passes; `"truex"`, a 503 and an exception fail |
| Probe.FirstTrue | python-app/main.py:41-47 | the first attempt below 10 at which both checks succeed, or none when every one of the 10 fails |
| Probe.FirstOkMeaning | python-app/main.py:41-52 | the probe succeeds exactly when one of the 10 attempts has both checks succeed. The succeeding attempt is the first such one |
| Probe.Tester | python-app/main.py:36-52 | returns true exactly when some attempt of the 10 succeeds. The trace has both checks on every attempt and a sleep after every failed one, the tenth included |
| Probe.TesterMain | python-app/tester.py:33-48 | `tester.py`'s loop makes the same requests and sleeps as `tester()` |
| Probe.FailedAttemptsCounts | python-app/tests.py:49-58 | `k` failed attempts are `k` version requests, `k` isalive requests and `k` sleeps |
| Probe.TesterTraceCounts | python-app/main.py:41-49 | both checks are asked equally often, at most 10 times. Success at attempt `k` leaves `k` sleeps; failure leaves 10 sleeps, the last event being a sleep |
| Probe.RunTester | python-app/tests.py:6-44 | passes exactly when the version is 200 with stripped body `0.8.1` and isalive is 200 with stripped lower-cased body `true`. Both requests are always made |
| Probe.TestsStricterThanProbe | python-app/tests.py:14-19 | passing the tests implies passing the probe checks. A 200 with version `0.8.2` passes the probe and fails the test |
| Probe.RetryUntilPass | python-app/tests.py:46-62 | the loop stops at the first attempt that passes, having counted every earlier failure. Its trace is the failed attempts followed by the passing one |
| FinalTests.TestFolderPerPdf | python-app/tester_final.py:4-20 | true exactly when every listed PDF has its `<base>` folder |
| FinalTests.TestKeywordCloudFolder | python-app/tester_final.py:22-50 | true exactly when every PDF has the `keyword_cloud` folder with both `keyword_cloud.png` and `tei.xml` as files |
| FinalTests.TestFullTextFolder | python-app/tester_final.py:52-74 | true exactly when every PDF has `pdf_full_text_document/tei.xml` as a file in its folder |
| FinalTests.TestLinksFolder | python-app/tester_final.py:76-99 | true exactly when every PDF has `links_in_pdf/links.txt` as a file in its folder |
| FinalTests.TestFiguresInArticles | python-app/tester_final.py:101-111 | true exactly when `figures_in_articles.png` is a file at the root |
| FinalTests.FinalMain | python-app/tester_final.py:113-129 | all five results are computed, and the verdict is their conjunction |
| FinalTests.NoPdfsVacuous | python-app/tester_final.py:8-10 | with no PDFs, the four per-PDF tests pass |
| FinalTests.TeiAloneFails | python-app/tester_final.py:36-45 | a `tei.xml` without its `keyword_cloud.png` fails the keyword-cloud test |
| FinalTests.FilesImplyFolders | python-app/tester_final.py:29-45 | in a valid tree, each per-PDF test comes down to its files alone, and any of them implies the PDF's folder |
| FinalTests.LinksScriptPassesTests | python-app/tester_final.py:76-99 | after a links run in which every answer settled, tests 1 and 4 pass on the tests' own listing, which adds the folders the run made. This needs that no folder sat where a `links.txt` goes, and that no PDF's folder name is a PDF name |
| FinalTests.KeywordScriptPassesTests | python-app/tester_final.py:22-50 | after a keyword-cloud run in which every answer completed, tests 1 and 2 pass on the tests' own listing, which adds the folders the run made. This needs that no folder sat where its `tei.xml` or `keyword_cloud.png` goes, and that no PDF's folder name is a PDF name |
| FinalTests.MainScriptPassesFolderTest | python-app/tester_final.py:4-20 | after a `main.py` batch, test 1 passes on the tests' own listing, which adds the folders the batch made, whatever the service answered, provided no PDF's folder name is a PDF name |

## Left out

- Printing and logging are left out: they are not behaviour.
- HTTP transport is left out.
  - A request's outcome is a `Response`: a status with text and bytes, or `Raised` for an exception.
  - Which answer arrives is a parameter.
- `time.sleep` is left out. Only its place in the sequence of requests is recorded, as a `Sleep` event.
- Environment variables (`GROBID_URL`, `PDF_FOLDER`) and their defaults are left out. Paths are relative to the PDF folder.
- `os.listdir` is a given listing; its order is the listing order.
  - A later run, or the tests, list the folder again. That listing is modelled as the earlier one followed by the top-level folders the run made (`Files.NewTopLevelFolders`).
  - Whatever else may have changed in the folder between runs is not modelled.
- LinksInPdf.LinksIdempotent: requires that no PDF's folder name is itself a PDF name (`Text.FolderNamesNotPdfs`), because otherwise the fresh listing selects that folder as one more PDF and the model does not describe what the run or the tests then do with it.
- KeywordCloud.KeywordIdempotent: the same requirement, for the same reason.
- FiguresVisualization.FiguresIdempotent: the same requirement, for the same reason.
- FinalTests.LinksScriptPassesTests: the same requirement, for the same reason.
- FinalTests.KeywordScriptPassesTests: the same requirement, for the same reason.
- FinalTests.MainScriptPassesFolderTest: the same requirement, for the same reason.
  - For example, `a.pdf.pdf` gets the folder `a.pdf`, which the next listing selects (`Text.RelistSelectsFolder`). The scripts then request it on every later run, and the tests check it too.
- XML syntax and parsing are not modelled. The parsed tree, or a parse error, comes from the `parse` parameter.
- WordCloud rendering is not modelled.
  - The written `keyword_cloud.png` holds the abstract it was drawn from.
  - The `renders` parameter says whether WordCloud draws it or raises.
- Failures of `os.makedirs` and `open` are not modelled, for example a file sitting where a folder should go. Every write succeeds once its folder exists.
  - One such case follows from the listing itself. A PDF named `.pdf` or `..pdf` has its whole name as its folder name (`Text.PdfBaseName`). So `os.makedirs` meets the PDF file itself and raises outside any `try`, and in the source the whole batch stops there.
- Unicode case mapping is left out. `Text.LowerAt` maps only ASCII letters, which is exact for the comparisons the scripts make (`.pdf`, `true`).
- `Probe.RetryUntilPass` models the unbounded `while` loop of `tests.py` with a `fuel` bound. It says nothing about runs that make more than `fuel` attempts.
- The exit codes (`sys.exit(0)`) are left out. Every script exits 0 whatever happened.
- No modelled script writes `pdf_full_text_document/tei.xml` or `figures_in_articles.png`. The final tests check them only as files that may or may not exist.
