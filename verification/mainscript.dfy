/** main.py: once the readiness probe succeeds, every PDF is sent to
    /api/processHeaderDocument and its header and keyword cloud land directly
    in the PDF's own folder <base>, with no skip check. */
module MainPipeline {

  import opened Text
  import opened Xml
  import opened Files
  import opened KeywordCloud
  import opened Probe

  function MainFolder(name: string): Path {
    [BaseName(name)]
  }

  /** One PDF: its folder is made, then the header is asked for, every time. */
  function MainStep(fs: Fs, name: string, resp: Response, parse: string -> Option<Element>,
                    renders: string -> bool): Fs
  {
    HeaderOutcome(fs.MakeDirs(MainFolder(name)), MainFolder(name), resp, parse, renders)
  }

  function MainRun(fs: Fs, pdfs: seq<string>, service: string -> Response, parse: string -> Option<Element>,
                   renders: string -> bool): Run
    decreases |pdfs|
  {
    if pdfs == [] then Run(fs, [])
    else
      var name := pdfs[|pdfs| - 1];
      var before := MainRun(fs, pdfs[..|pdfs| - 1], service, parse, renders);
      Run(MainStep(before.fs, name, service(name), parse, renders), before.requested + [name])
  }

  /** main(): every listed PDF in listing order; nothing happens without PDFs. */
  method MainLoop(disk: Disk, listing: seq<string>, service: string -> Response, parse: string -> Option<Element>,
                  renders: string -> bool) returns (requested: seq<string>)
    requires disk.Valid()
    modifies disk
    ensures disk.Valid()
    ensures Run(disk.State(), requested) == MainRun(old(disk.State()), PdfFiles(listing), service, parse, renders)
    ensures PdfFiles(listing) == [] ==> disk.State() == old(disk.State()) && requested == []
  {
    var pdfs := PdfFiles(listing);
    requested := [];
    if pdfs == [] {
      return;
    }
    var i := 0;
    while i < |pdfs|
      invariant 0 <= i <= |pdfs|
      invariant disk.Valid()
      invariant Run(disk.State(), requested) == MainRun(old(disk.State()), pdfs[..i], service, parse, renders)
    {
      var name := pdfs[i];
      disk.MakeDirs(MainFolder(name));
      GenerateKeywordCloud(disk, MainFolder(name), service(name), parse, renders);
      requested := requested + [name];
      assert pdfs[..i + 1][..i] == pdfs[..i];
      i := i + 1;
    }
    assert pdfs[..i] == pdfs;
  }

  /** The script: main() runs only when tester() confirms the service is up. */
  method Script(disk: Disk, listing: seq<string>, version: nat -> Response, isalive: nat -> Response,
                service: string -> Response, parse: string -> Option<Element>, renders: string -> bool)
    returns (ready: bool, probe: seq<Event>, requested: seq<string>)
    requires disk.Valid()
    modifies disk
    ensures disk.Valid()
    ensures ready <==> FirstOk(version, isalive).Some?
    ensures probe == TesterTrace(version, isalive)
    ensures !ready ==> disk.State() == old(disk.State()) && requested == []
    ensures ready ==> Run(disk.State(), requested) == MainRun(old(disk.State()), PdfFiles(listing), service, parse, renders)
  {
    ready, probe := Tester(version, isalive);
    requested := [];
    if ready {
      requested := MainLoop(disk, listing, service, parse, renders);
    }
  }

  // ---------------------------------------------------------------------------
  // Properties

  /** There is no skip check: every listed PDF is sent, in listing order, on
      every run. */
  lemma {:induction false} MainRequestsEvery(fs: Fs, pdfs: seq<string>, service: string -> Response,
                                             parse: string -> Option<Element>, renders: string -> bool)
    ensures MainRun(fs, pdfs, service, parse, renders).requested == pdfs
    decreases |pdfs|
  {
    if pdfs != [] {
      MainRequestsEvery(fs, pdfs[..|pdfs| - 1], service, parse, renders);
      assert pdfs == pdfs[..|pdfs| - 1] + [pdfs[|pdfs| - 1]];
    }
  }

  /** One PDF keeps the tree valid, makes its folder, deletes nothing, and on
      a 200 replaces the header in <base>/tei.xml even when earlier results
      are there. */
  lemma MainStepOutcome(fs: Fs, name: string, resp: Response, parse: string -> Option<Element>,
                        renders: string -> bool)
    requires fs.Valid()
    ensures MainStep(fs, name, resp, parse, renders).Valid()
    ensures MainStep(fs, name, resp, parse, renders).dirs == fs.dirs + Ancestors(MainFolder(name))
    ensures fs.files.Keys <= MainStep(fs, name, resp, parse, renders).files.Keys
    ensures IsStatus(resp, 200) ==>
              MainStep(fs, name, resp, parse, renders).files[MainFolder(name) + ["tei.xml"]] == Text(resp.text)
    ensures !IsStatus(resp, 200) ==> MainStep(fs, name, resp, parse, renders) == fs.MakeDirs(MainFolder(name))
  {
    MakeDirsValid(fs, MainFolder(name));
    HeaderOutcomeFrame(fs.MakeDirs(MainFolder(name)), MainFolder(name), resp, parse, renders);
    if IsStatus(resp, 200) {
      HeaderOutcomeWrites(fs.MakeDirs(MainFolder(name)), MainFolder(name), resp, parse, renders);
    }
  }

  /** A batch keeps the tree valid, makes no top-level folder but its PDFs'
      own, and deletes no folder and no file. */
  lemma {:induction false} MainRunGrows(fs: Fs, pdfs: seq<string>, service: string -> Response,
                                        parse: string -> Option<Element>, renders: string -> bool)
    requires fs.Valid()
    ensures MainRun(fs, pdfs, service, parse, renders).fs.Valid()
    ensures fs.dirs <= MainRun(fs, pdfs, service, parse, renders).fs.dirs
    ensures fs.files.Keys <= MainRun(fs, pdfs, service, parse, renders).fs.files.Keys
    ensures NewTopLevelAmong(fs, MainRun(fs, pdfs, service, parse, renders).fs, BaseNames(pdfs))
    decreases |pdfs|
  {
    if pdfs != [] {
      var name := pdfs[|pdfs| - 1];
      var before := MainRun(fs, pdfs[..|pdfs| - 1], service, parse, renders);
      MainRunGrows(fs, pdfs[..|pdfs| - 1], service, parse, renders);
      MainStepOutcome(before.fs, name, service(name), parse, renders);
      MakeDirsTopLevel(before.fs, MainFolder(name));
      BaseNamesGrow(pdfs);
    }
  }

  /** After a batch every PDF of it has its own folder, whatever the service
      answered. */
  lemma {:induction false} MainRunMakesFolder(fs: Fs, pdfs: seq<string>, n: string, service: string -> Response,
                                              parse: string -> Option<Element>, renders: string -> bool)
    requires fs.Valid() && n in pdfs
    ensures MainFolder(n) in MainRun(fs, pdfs, service, parse, renders).fs.dirs
    decreases |pdfs|
  {
    var name := pdfs[|pdfs| - 1];
    var prefix := pdfs[..|pdfs| - 1];
    assert pdfs == prefix + [name];
    var before := MainRun(fs, prefix, service, parse, renders);
    MainRunGrows(fs, prefix, service, parse, renders);
    MainStepOutcome(before.fs, name, service(name), parse, renders);
    if n != name {
      assert n in prefix;
      MainRunMakesFolder(fs, prefix, n, service, parse, renders);
    } else {
      assert MainFolder(n) == MainFolder(n)[..|MainFolder(n)|];
    }
  }
}
