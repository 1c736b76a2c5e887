/** links_in_pdf_generator.py: for every PDF, ask the references endpoint for
    TEI, keep it in <base>/links_in_pdf/tei.xml, and list in links.txt the
    sorted, de-duplicated "http" targets found in it.  A PDF whose links.txt
    already exists is skipped, so a later run retries only what is missing. */
module LinksInPdf {

  import opened Text
  import opened Order
  import opened Xml
  import opened Files

  /** What links.txt holds when the references endpoint answers 204. */
  const NoAnalysis204 := "El archivo no gener\U{F3} un analisis de referencias. Error 204 de la api processReferences"

  /** What links.txt holds when the TEI has no link. */
  const NoLinksFound := "No se encontraron links en las referencias del archivo."

  // ---------------------------------------------------------------------------
  // extract_links_from_tei

  /** elem.attrib.get("target", "") */
  function Target(e: Element): string {
    if "target" in e.attrib then e.attrib["target"] else ""
  }

  predicate IsLink(t: string) {
    StartsWith(t, "http")
  }

  /** The "http" targets among a list of elements. */
  function LinksAmong(nodes: seq<Element>): (links: set<string>)
    ensures forall l :: l in links ==> IsLink(l) && exists x :: x in nodes && Target(x) == l
    ensures forall x :: x in nodes && IsLink(Target(x)) ==> Target(x) in links
    decreases |nodes|
  {
    if nodes == [] then {}
    else
      var last := nodes[|nodes| - 1];
      assert nodes == nodes[..|nodes| - 1] + [last];
      LinksAmong(nodes[..|nodes| - 1]) + if IsLink(Target(last)) then {Target(last)} else {}
  }

  /** The links a TEI document holds: the "target" of every element of the tree,
      the root and elements of any namespace included, that starts with "http".
      A document that does not parse holds none. */
  function LinkSet(parsed: Option<Element>): (links: set<string>)
    ensures parsed.None? ==> links == {}
    ensures parsed.Some? ==> forall l :: l in links ==>
              IsLink(l) && exists x :: InSubtree(x, parsed.value) && Target(x) == l
    ensures parsed.Some? ==> forall x :: InSubtree(x, parsed.value) && IsLink(Target(x)) ==>
              Target(x) in links
  {
    match parsed
    case None => {}
    case Some(root) =>
      assert forall x :: x in Iter(root) <==> InSubtree(x, root) by {
        forall x ensures x in Iter(root) <==> InSubtree(x, root) { IterIsSubtree(x, root); }
      }
      LinksAmong(Iter(root))
  }

  /** sorted(links): the links in ascending order, each once. */
  ghost function SortedLinks(parsed: Option<Element>): seq<string> {
    SortedOf(LinkSet(parsed))
  }

  /** extract_links_from_tei: collect the link targets while walking root.iter(),
      then sort them. */
  method ExtractLinksFromTei(parsed: Option<Element>) returns (links: seq<string>)
    ensures StrictlyAscending(links)
    ensures Elems(links) == LinkSet(parsed)
    ensures links == SortedLinks(parsed)
  {
    var found: set<string> := {};
    if parsed.Some? {
      var nodes := Iter(parsed.value);
      var i := 0;
      while i < |nodes|
        invariant 0 <= i <= |nodes|
        invariant found == LinksAmong(nodes[..i])
      {
        assert nodes[..i + 1][..i] == nodes[..i];
        var target := Target(nodes[i]);
        if IsLink(target) {
          found := found + {target};
        }
        i := i + 1;
      }
      assert nodes[..i] == nodes;
    }
    links := Sorted(found);
    AscendingUnique(links, SortedLinks(parsed));
  }

  /** sorted(s) for a set of strings: take the least remaining string each time. */
  method Sorted(s: set<string>) returns (r: seq<string>)
    ensures StrictlyAscending(r) && Elems(r) == s
  {
    r := [];
    var rest := s;
    while rest != {}
      invariant StrictlyAscending(r)
      invariant Elems(r) !! rest && Elems(r) + rest == s
      invariant forall a, b :: a in r && b in rest ==> Less(a, b)
      decreases |rest|
    {
      LeastExists(rest);
      var m :| IsLeast(m, rest);
      r := r + [m];
      rest := rest - {m};
    }
  }

  // ---------------------------------------------------------------------------
  // The text of links.txt

  /** Each link followed by a newline. */
  function Lines(links: seq<string>): string {
    if links == [] then "" else links[0] + "\n" + Lines(links[1..])
  }

  /** What links.txt holds once a non-empty TEI has been analysed. */
  function LinksListText(links: seq<string>): string {
    if links == [] then NoLinksFound else Lines(links)
  }

  /** Reading the lines of a text back, each ended by a newline. */
  function ReadLines(s: string): seq<string>
    decreases |s|
  {
    if s == [] then []
    else if '\n' !in s then [s]
    else
      var k := FirstNewline(s);
      [s[..k]] + ReadLines(s[k + 1..])
  }

  function FirstNewline(s: string): (k: nat)
    requires '\n' in s
    ensures k < |s| && s[k] == '\n' && '\n' !in s[..k]
  {
    if s[0] == '\n' then 0 else 1 + FirstNewline(s[1..])
  }

  /** A newline with none before it is the first newline. */
  lemma {:induction false} FirstNewlineAt(s: string, j: nat)
    requires j < |s| && s[j] == '\n' && '\n' !in s[..j]
    ensures FirstNewline(s) == j
  {
    if j > 0 {
      assert s[0] == s[..j][0];
      assert s[1..][..j - 1] == s[1..j];
      assert forall c :: c in s[1..j] ==> c in s[..j];
      FirstNewlineAt(s[1..], j - 1);
    }
  }

  /** A line without a newline, followed by one, reads back as that line
      followed by the lines of what comes after. */
  lemma ReadLinesCons(l: string, rest: string)
    requires '\n' !in l
    ensures ReadLines(l + "\n" + rest) == [l] + ReadLines(rest)
  {
    var s := l + "\n" + rest;
    assert s[..|l|] == l;
    assert s[|l|] == '\n';
    assert s[|l| + 1..] == rest;
    FirstNewlineAt(s, |l|);
  }

  /** The lines written to links.txt read back as the link list, provided no
      link holds a newline (an attribute can, through a character reference). */
  lemma {:induction false} LinesRoundTrip(links: seq<string>)
    requires forall i :: 0 <= i < |links| ==> '\n' !in links[i]
    ensures ReadLines(Lines(links)) == links
  {
    if links != [] {
      assert '\n' !in links[0];
      assert Lines(links) == links[0] + "\n" + Lines(links[1..]);
      ReadLinesCons(links[0], Lines(links[1..]));
      assert forall i :: 0 <= i < |links[1..]| ==> links[1..][i] == links[i + 1];
      LinesRoundTrip(links[1..]);
      assert links == [links[0]] + links[1..];
    }
  }

  lemma {:induction false} LinesEndWithNewline(links: seq<string>)
    requires links != []
    ensures |Lines(links)| > 0 && Lines(links)[|Lines(links)| - 1] == '\n'
  {
    if links[1..] != [] {
      LinesEndWithNewline(links[1..]);
    }
  }

  /** The three texts links.txt can hold tell apart "the service found no
      references" (204), "the TEI had no link" and "these links". */
  lemma LinksOutcomesDistinct(links: seq<string>)
    ensures NoAnalysis204 != NoLinksFound
    ensures links != [] ==> LinksListText(links) != NoLinksFound && LinksListText(links) != NoAnalysis204
    ensures LinksListText(links) == NoLinksFound <==> links == []
  {
    assert |NoAnalysis204| != |NoLinksFound|;
    if links != [] {
      LinesEndWithNewline(links);
      assert NoLinksFound[|NoLinksFound| - 1] == '.';
      assert NoAnalysis204[|NoAnalysis204| - 1] == 's';
    }
  }

  // ---------------------------------------------------------------------------
  // process_pdf_save_references_tei

  datatype Saved = Saved(fs: Fs, tei: Option<string>)

  /** 200 keeps the TEI in tei.xml and returns it; 204 writes the 204 text to
      links.txt and returns ""; any other status or an exception writes nothing
      and returns None. */
  function SaveReferencesOutcome(fs: Fs, folder: Path, resp: Response): Saved {
    if IsStatus(resp, 200) then Saved(fs.Write(folder + ["tei.xml"], Text(resp.text)), Some(resp.text))
    else if IsStatus(resp, 204) then Saved(fs.Write(folder + ["links.txt"], Text(NoAnalysis204)), Some(""))
    else Saved(fs, None)
  }

  method SaveReferencesTei(disk: Disk, folder: Path, resp: Response) returns (tei: Option<string>)
    requires disk.Valid() && folder in disk.dirs
    modifies disk
    ensures disk.Valid()
    ensures Saved(disk.State(), tei) == SaveReferencesOutcome(old(disk.State()), folder, resp)
  {
    if resp.Reply? && resp.status == 200 {
      disk.Write(folder + ["tei.xml"], Text(resp.text));
      return Some(resp.text);
    } else if resp.Reply? && resp.status == 204 {
      disk.Write(folder + ["links.txt"], Text(NoAnalysis204));
      return Some("");
    }
    return None;
  }

  // ---------------------------------------------------------------------------
  // process_pdf_extract_links

  function LinksFolder(name: string): Path {
    [BaseName(name), "links_in_pdf"]
  }

  function LinksFile(name: string): Path {
    LinksFolder(name) + ["links.txt"]
  }

  function ReferencesTeiFile(name: string): Path {
    LinksFolder(name) + ["tei.xml"]
  }

  /** Make the links folder; stop if links.txt exists; otherwise fetch. */
  ghost function LinksStep(fs: Fs, name: string, resp: Response, parse: string -> Option<Element>): Step {
    var made := fs.MakeDirs(LinksFolder(name));
    if made.Exists(LinksFile(name)) then Step(made, false)
    else Step(FetchLinks(made, name, resp, parse), true)
  }

  /** Fetch the references TEI and, when it is non-empty, write the link list
      or the no-links text to links.txt. */
  ghost function FetchLinks(fs: Fs, name: string, resp: Response, parse: string -> Option<Element>): Fs {
    var saved := SaveReferencesOutcome(fs, LinksFolder(name), resp);
    if saved.tei.None? || saved.tei.value == "" then saved.fs
    else saved.fs.Write(LinksFile(name), Text(LinksListText(SortedLinks(parse(saved.tei.value)))))
  }

  method ProcessPdfExtractLinks(disk: Disk, name: string, resp: Response, parse: string -> Option<Element>)
    returns (requested: bool)
    requires disk.Valid()
    modifies disk
    ensures disk.Valid()
    ensures Step(disk.State(), requested) == LinksStep(old(disk.State()), name, resp, parse)
  {
    var folder := LinksFolder(name);
    disk.MakeDirs(folder);
    ghost var made := disk.State();
    if disk.State().Exists(LinksFile(name)) {
      return false;
    }
    var tei := SaveReferencesTei(disk, folder, resp);
    ghost var saved := SaveReferencesOutcome(made, folder, resp);
    assert disk.State() == saved.fs && tei == saved.tei;
    if tei.None? {
      return true;
    }
    if tei.value == "" {
      return true;
    }
    var links := ExtractLinksFromTei(parse(tei.value));
    assert Parent(LinksFile(name)) == folder;
    assert folder in saved.fs.dirs;
    disk.Write(LinksFile(name), Text(LinksListText(links)));
    return true;
  }

  // ---------------------------------------------------------------------------
  // main

  ghost function LinksRun(fs: Fs, pdfs: seq<string>, service: string -> Response,
                          parse: string -> Option<Element>): Run
    decreases |pdfs|
  {
    if pdfs == [] then Run(fs, [])
    else
      var name := pdfs[|pdfs| - 1];
      var before := LinksRun(fs, pdfs[..|pdfs| - 1], service, parse);
      var step := LinksStep(before.fs, name, service(name), parse);
      Run(step.fs, before.requested + if step.requested then [name] else [])
  }

  /** One more PDF of the listing extends the batch by its step. */
  lemma LinksRunExtend(fs: Fs, pdfs: seq<string>, i: nat, service: string -> Response,
                       parse: string -> Option<Element>)
    requires i < |pdfs|
    ensures var before := LinksRun(fs, pdfs[..i], service, parse);
            var step := LinksStep(before.fs, pdfs[i], service(pdfs[i]), parse);
            LinksRun(fs, pdfs[..i + 1], service, parse)
              == Run(step.fs, before.requested + if step.requested then [pdfs[i]] else [])
  {
    assert pdfs[..i + 1][..i] == pdfs[..i];
  }

  /** main: every listed PDF in listing order; service gives the answer the
      references endpoint sends for each PDF during this run. */
  method LinksMain(disk: Disk, listing: seq<string>, service: string -> Response,
                   parse: string -> Option<Element>) returns (requested: seq<string>)
    requires disk.Valid()
    modifies disk
    ensures disk.Valid()
    ensures Run(disk.State(), requested) == LinksRun(old(disk.State()), PdfFiles(listing), service, parse)
  {
    var pdfs := PdfFiles(listing);
    requested := [];
    if pdfs == [] {
      return;
    }
    var i := 0;
    while i < |pdfs|
      invariant 0 <= i <= |pdfs|
      invariant disk.Valid()
      invariant Run(disk.State(), requested) == LinksRun(old(disk.State()), pdfs[..i], service, parse)
    {
      var asked := ProcessPdfExtractLinks(disk, pdfs[i], service(pdfs[i]), parse);
      LinksRunExtend(old(disk.State()), pdfs, i, service, parse);
      if asked {
        requested := requested + [pdfs[i]];
      }
      i := i + 1;
    }
    assert pdfs[..i] == pdfs;
  }

  // ---------------------------------------------------------------------------
  // Properties of one PDF and of a batch

  /** The answers after which links.txt exists: 204, or 200 with a non-empty TEI. */
  predicate Settles(resp: Response) {
    IsStatus(resp, 204) || (IsStatus(resp, 200) && resp.text != "")
  }

  /** A PDF whose links.txt exists is left alone: no request, nothing changes. */
  lemma LinksSkipWhenPresent(fs: Fs, name: string, resp: Response, parse: string -> Option<Element>)
    requires fs.Valid() && fs.Exists(LinksFile(name))
    ensures LinksStep(fs, name, resp, parse) == Step(fs, false)
  {
    assert Parent(LinksFile(name)) == LinksFolder(name);
    MakeDirsExisting(fs, LinksFolder(name));
  }

  /** What the fetch amounts to, answer by answer. */
  lemma FetchLinksCases(fs: Fs, name: string, resp: Response, parse: string -> Option<Element>)
    ensures IsStatus(resp, 200) && resp.text == "" ==>
              FetchLinks(fs, name, resp, parse) == fs.Write(ReferencesTeiFile(name), Text(resp.text))
    ensures IsStatus(resp, 200) && resp.text != "" ==>
              FetchLinks(fs, name, resp, parse)
                == fs.Write(ReferencesTeiFile(name), Text(resp.text))
                     .Write(LinksFile(name), Text(LinksListText(SortedLinks(parse(resp.text)))))
    ensures IsStatus(resp, 204) ==> FetchLinks(fs, name, resp, parse) == fs.Write(LinksFile(name), Text(NoAnalysis204))
    ensures !IsStatus(resp, 200) && !IsStatus(resp, 204) ==> FetchLinks(fs, name, resp, parse) == fs
  {
  }

  /** The fetch keeps the tree valid, adds no folder, adds at most tei.xml and
      links.txt, and changes no existing file but tei.xml. */
  lemma FetchLinksFrame(fs: Fs, name: string, resp: Response, parse: string -> Option<Element>)
    requires fs.Valid() && LinksFolder(name) in fs.dirs
    ensures FetchLinks(fs, name, resp, parse).Valid()
    ensures FetchLinks(fs, name, resp, parse).dirs == fs.dirs
    ensures fs.files.Keys <= FetchLinks(fs, name, resp, parse).files.Keys
              <= fs.files.Keys + {ReferencesTeiFile(name), LinksFile(name)}
  {
    var tei := ReferencesTeiFile(name);
    var lf := LinksFile(name);
    assert Parent(tei) == LinksFolder(name) && Parent(lf) == LinksFolder(name);
    FetchLinksCases(fs, name, resp, parse);
    if IsStatus(resp, 200) {
      var withTei := fs.Write(tei, Text(resp.text));
      WriteValid(fs, tei, Text(resp.text));
      if resp.text != "" {
        WriteValid(withTei, lf, Text(LinksListText(SortedLinks(parse(resp.text)))));
      }
    } else if IsStatus(resp, 204) {
      WriteValid(fs, lf, Text(NoAnalysis204));
    }
  }

  /** What the fetch writes: 200 leaves the TEI in tei.xml; 204 adds links.txt
      with the 204 text and nothing else; any other status or an exception
      writes no file; no file but tei.xml changes.  links.txt exists afterwards
      exactly when the answer settles the PDF: a 200 with an empty body writes
      tei.xml but no links.txt. */
  lemma FetchLinksOutcome(fs: Fs, name: string, resp: Response, parse: string -> Option<Element>)
    requires LinksFile(name) !in fs.files
    ensures forall p :: p in fs.files && p != ReferencesTeiFile(name) ==>
              FetchLinks(fs, name, resp, parse).files[p] == fs.files[p]
    ensures IsStatus(resp, 200) ==> FetchLinks(fs, name, resp, parse).files[ReferencesTeiFile(name)] == Text(resp.text)
    ensures IsStatus(resp, 204) ==> FetchLinks(fs, name, resp, parse).files == fs.files[LinksFile(name) := Text(NoAnalysis204)]
    ensures !IsStatus(resp, 200) && !IsStatus(resp, 204) ==> FetchLinks(fs, name, resp, parse).files == fs.files
    ensures LinksFile(name) in FetchLinks(fs, name, resp, parse).files <==> Settles(resp)
  {
    var tei := ReferencesTeiFile(name);
    var lf := LinksFile(name);
    assert tei != lf by {
      assert tei[2] != lf[2];
    }
    FetchLinksCases(fs, name, resp, parse);
  }

  /** A PDF without links.txt gets its links folder and is sent to the service. */
  lemma LinksRequestWhenAbsent(fs: Fs, name: string, resp: Response, parse: string -> Option<Element>)
    requires fs.Valid() && !fs.Exists(LinksFile(name))
    ensures LinksStep(fs, name, resp, parse).requested
    ensures LinksStep(fs, name, resp, parse).fs == FetchLinks(fs.MakeDirs(LinksFolder(name)), name, resp, parse)
    ensures fs.MakeDirs(LinksFolder(name)).Valid()
    ensures LinksFolder(name) in fs.MakeDirs(LinksFolder(name)).dirs
  {
    MakeDirsValid(fs, LinksFolder(name));
    AncestorsNoLonger(LinksFolder(name));
  }

  /** After a 200 with a non-empty TEI, links.txt lists the links of the TEI in
      ascending order, one per line, or holds the no-links text when there is none. */
  lemma LinksListWritten(fs: Fs, name: string, resp: Response, parse: string -> Option<Element>)
    requires fs.Valid() && LinksFolder(name) in fs.dirs && LinksFile(name) !in fs.files
    requires IsStatus(resp, 200) && resp.text != ""
    ensures LinksFile(name) in FetchLinks(fs, name, resp, parse).files
    ensures LinkSet(parse(resp.text)) == {} ==>
              FetchLinks(fs, name, resp, parse).files[LinksFile(name)] == Text(NoLinksFound)
    ensures LinkSet(parse(resp.text)) != {} ==>
              exists links :: StrictlyAscending(links) && Elems(links) == LinkSet(parse(resp.text))
                && FetchLinks(fs, name, resp, parse).files[LinksFile(name)] == Text(Lines(links))
  {
    var links := SortedLinks(parse(resp.text));
    if links != [] {
      assert links[0] in Elems(links);
    }
  }

  /** A PDF the service did not settle has no links.txt afterwards, so the next
      run asks again. */
  lemma LinksRetriedAfterFailure(fs: Fs, name: string, resp: Response, later: Response,
                                 parse: string -> Option<Element>)
    requires fs.Valid() && !fs.Exists(LinksFile(name)) && !Settles(resp)
    ensures LinksStep(LinksStep(fs, name, resp, parse).fs, name, later, parse).requested
  {
    LinksRequestWhenAbsent(fs, name, resp, parse);
    var made := fs.MakeDirs(LinksFolder(name));
    MakeDirsValid(fs, LinksFolder(name));
    FetchLinksFrame(made, name, resp, parse);
    FetchLinksOutcome(made, name, resp, parse);
    LinksRequestWhenAbsent(LinksStep(fs, name, resp, parse).fs, name, later, parse);
  }

  /** One PDF keeps the tree valid (and shallow when it was), only adds folders
      at most two levels deep, of which the only top-level one is its own
      folder, only adds its tei.xml and links.txt, and changes no existing
      file but its tei.xml. */
  lemma LinksStepFrame(fs: Fs, name: string, resp: Response, parse: string -> Option<Element>)
    requires fs.Valid()
    ensures LinksStep(fs, name, resp, parse).fs.Valid()
    ensures fs.Shallow() ==> LinksStep(fs, name, resp, parse).fs.Shallow()
    ensures fs.dirs <= LinksStep(fs, name, resp, parse).fs.dirs
    ensures fs.files.Keys <= LinksStep(fs, name, resp, parse).fs.files.Keys
              <= fs.files.Keys + {ReferencesTeiFile(name), LinksFile(name)}
    ensures forall p :: p in fs.files && p != ReferencesTeiFile(name) ==>
              LinksStep(fs, name, resp, parse).fs.files[p] == fs.files[p]
    ensures NewDirsShallow(fs, LinksStep(fs, name, resp, parse).fs)
    ensures NewTopLevelAmong(fs, LinksStep(fs, name, resp, parse).fs, {BaseName(name)})
  {
    var made := fs.MakeDirs(LinksFolder(name));
    MakeDirsValid(fs, LinksFolder(name));
    AncestorsNoLonger(LinksFolder(name));
    MakeDirsTopLevel(fs, LinksFolder(name));
    if fs.Shallow() { MakeDirsShallow(fs, LinksFolder(name)); }
    if !made.Exists(LinksFile(name)) {
      FetchLinksFrame(made, name, resp, parse);
      FetchLinksOutcome(made, name, resp, parse);
    }
  }

  /** An answer that settles the PDF leaves its links.txt in place after the
      step, whether it existed before or not; it is a file unless a folder of
      that name was there before. */
  lemma LinksStepSettles(fs: Fs, name: string, resp: Response, parse: string -> Option<Element>)
    requires fs.Valid() && Settles(resp)
    ensures LinksStep(fs, name, resp, parse).fs.Exists(LinksFile(name))
    ensures LinksFile(name) !in fs.dirs ==> LinksStep(fs, name, resp, parse).fs.IsFile(LinksFile(name))
  {
    LinksStepFrame(fs, name, resp, parse);
    if fs.Exists(LinksFile(name)) {
      LinksSkipWhenPresent(fs, name, resp, parse);
    } else {
      LinksRequestWhenAbsent(fs, name, resp, parse);
      FetchLinksFrame(fs.MakeDirs(LinksFolder(name)), name, resp, parse);
      FetchLinksOutcome(fs.MakeDirs(LinksFolder(name)), name, resp, parse);
    }
  }

  lemma {:induction false} LinksRunShallow(fs: Fs, pdfs: seq<string>, service: string -> Response,
                                           parse: string -> Option<Element>)
    requires fs.Valid() && fs.Shallow()
    ensures LinksRun(fs, pdfs, service, parse).fs.Valid() && LinksRun(fs, pdfs, service, parse).fs.Shallow()
  {
    LinksRunFrame(fs, pdfs, service, parse);
  }

  /** A batch keeps the tree valid (and shallow when it was), makes no folder
      deeper than two levels, deletes nothing, and changes no existing file
      other than a tei.xml: in particular an existing links.txt is never
      rewritten. */
  lemma {:induction false} LinksRunFrame(fs: Fs, pdfs: seq<string>, service: string -> Response,
                                         parse: string -> Option<Element>)
    requires fs.Valid()
    ensures LinksRun(fs, pdfs, service, parse).fs.Valid()
    ensures fs.Shallow() ==> LinksRun(fs, pdfs, service, parse).fs.Shallow()
    ensures fs.dirs <= LinksRun(fs, pdfs, service, parse).fs.dirs
    ensures fs.files.Keys <= LinksRun(fs, pdfs, service, parse).fs.files.Keys
    ensures forall p :: p in fs.files && p[|p| - 1] != "tei.xml" ==>
              LinksRun(fs, pdfs, service, parse).fs.files[p] == fs.files[p]
    ensures NewDirsShallow(fs, LinksRun(fs, pdfs, service, parse).fs)
    ensures NewTopLevelAmong(fs, LinksRun(fs, pdfs, service, parse).fs, BaseNames(pdfs))
    decreases |pdfs|
  {
    if pdfs != [] {
      var name := pdfs[|pdfs| - 1];
      var before := LinksRun(fs, pdfs[..|pdfs| - 1], service, parse);
      LinksRunFrame(fs, pdfs[..|pdfs| - 1], service, parse);
      LinksStepFrame(before.fs, name, service(name), parse);
      BaseNamesGrow(pdfs);
    }
  }

  /** A batch over PDFs that all have their links.txt asks nothing and changes nothing. */
  lemma {:induction false} LinksRerunRequestsNothing(fs: Fs, pdfs: seq<string>, service: string -> Response,
                                                     parse: string -> Option<Element>)
    requires fs.Valid()
    requires forall n :: n in pdfs ==> fs.Exists(LinksFile(n))
    ensures LinksRun(fs, pdfs, service, parse) == Run(fs, [])
    decreases |pdfs|
  {
    if pdfs != [] {
      var name := pdfs[|pdfs| - 1];
      assert forall n :: n in pdfs[..|pdfs| - 1] ==> n in pdfs;
      LinksRerunRequestsNothing(fs, pdfs[..|pdfs| - 1], service, parse);
      LinksSkipWhenPresent(fs, name, service(name), parse);
    }
  }

  /** A PDF the service settles during a batch has its links.txt at the end
      of it, as a file unless a folder of that name was there before the batch. */
  lemma {:induction false} LinksRunSettles(fs: Fs, pdfs: seq<string>, n: string, service: string -> Response,
                                           parse: string -> Option<Element>)
    requires fs.Valid()
    requires forall m :: m in pdfs ==> Settles(service(m))
    requires n in pdfs
    ensures LinksRun(fs, pdfs, service, parse).fs.Exists(LinksFile(n))
    ensures LinksFile(n) !in fs.dirs ==> LinksRun(fs, pdfs, service, parse).fs.IsFile(LinksFile(n))
    decreases |pdfs|
  {
    var name := pdfs[|pdfs| - 1];
    var prefix := pdfs[..|pdfs| - 1];
    assert pdfs == prefix + [name];
    var before := LinksRun(fs, prefix, service, parse);
    LinksRunFrame(fs, prefix, service, parse);
    LinksRunFrame(fs, pdfs, service, parse);
    LinksStepFrame(before.fs, name, service(name), parse);
    if n == name {
      LinksStepSettles(before.fs, name, service(name), parse);
    } else {
      assert n in prefix;
      LinksRunSettles(fs, prefix, n, service, parse);
    }
    assert |LinksFile(n)| == 3;
  }

  /** When the service settles every PDF, a batch leaves a links.txt for each
      of them, a file wherever no folder of that name was there before. */
  lemma LinksRunCompletes(fs: Fs, pdfs: seq<string>, service: string -> Response,
                          parse: string -> Option<Element>)
    requires fs.Valid()
    requires forall n :: n in pdfs ==> Settles(service(n))
    ensures forall n :: n in pdfs ==> LinksRun(fs, pdfs, service, parse).fs.Exists(LinksFile(n))
    ensures forall n :: n in pdfs && LinksFile(n) !in fs.dirs ==> LinksRun(fs, pdfs, service, parse).fs.IsFile(LinksFile(n))
  {
    forall n | n in pdfs
      ensures LinksRun(fs, pdfs, service, parse).fs.Exists(LinksFile(n))
      ensures LinksFile(n) !in fs.dirs ==> LinksRun(fs, pdfs, service, parse).fs.IsFile(LinksFile(n))
    {
      LinksRunSettles(fs, pdfs, n, service, parse);
    }
  }

  /** Idempotence: once a batch has settled every PDF, running the script
      again sends nothing to the service, whatever it would answer.  The
      second run lists the PDF folder afresh, and so also sees the folders the
      first run made (extra); they are not taken for PDFs as long as no PDF's
      folder is named like a PDF (RelistSelectsFolder shows what happens
      otherwise). */
  lemma LinksIdempotent(fs: Fs, listing: seq<string>, extra: seq<string>, first: string -> Response,
                        again: string -> Response, parse: string -> Option<Element>)
    requires fs.Valid()
    requires FolderNamesNotPdfs(PdfFiles(listing))
    requires forall n :: n in PdfFiles(listing) ==> Settles(first(n))
    requires NewTopLevelFolders(fs, LinksRun(fs, PdfFiles(listing), first, parse).fs, extra)
    ensures LinksRun(LinksRun(fs, PdfFiles(listing), first, parse).fs, PdfFiles(listing + extra), again, parse).requested == []
  {
    var pdfs := PdfFiles(listing);
    var after := LinksRun(fs, pdfs, first, parse).fs;
    LinksRunCompletes(fs, pdfs, first, parse);
    LinksRunFrame(fs, pdfs, first, parse);
    NewFoldersAmong(fs, after, BaseNames(pdfs), extra);
    RelistSelectsSame(listing, extra);
    LinksRerunRequestsNothing(after, pdfs, again, parse);
  }
}
