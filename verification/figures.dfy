/** figures_visualization_generator.py: for each PDF, the picture the
    extraction service draws of its figures, kept as the raw bytes of the answer
    in <base>/visualization_figures/visualization_figures.png. */
module FiguresVisualization {

  import opened Text
  import opened Files

  function FiguresFolder(name: string): Path {
    [BaseName(name), "visualization_figures"]
  }

  function FiguresFile(name: string): Path {
    FiguresFolder(name) + ["visualization_figures.png"]
  }

  // ---------------------------------------------------------------------------
  // process_pdf_generate_figures_visualization

  /** A 200 writes the raw body to visualization_figures.png in folder; any
      other status or an exception writes nothing. */
  function FiguresOutcome(fs: Fs, folder: Path, resp: Response): Fs {
    if IsStatus(resp, 200) then fs.Write(folder + ["visualization_figures.png"], Bytes(resp.content))
    else fs
  }

  method GenerateFiguresVisualization(disk: Disk, folder: Path, resp: Response)
    requires disk.Valid() && folder in disk.dirs
    modifies disk
    ensures disk.Valid()
    ensures disk.State() == FiguresOutcome(old(disk.State()), folder, resp)
  {
    if resp.Reply? && resp.status == 200 {
      disk.Write(folder + ["visualization_figures.png"], Bytes(resp.content));
    }
  }

  // ---------------------------------------------------------------------------
  // main

  /** One PDF: skipped when its picture exists; otherwise the folder is made
      before the service is asked, so it stays even when the request fails. */
  function FiguresStep(fs: Fs, name: string, resp: Response): Step {
    if fs.Exists(FiguresFile(name)) then Step(fs, false)
    else Step(FiguresOutcome(fs.MakeDirs(FiguresFolder(name)), FiguresFolder(name), resp), true)
  }

  function FiguresRun(fs: Fs, pdfs: seq<string>, service: string -> Response): Run
    decreases |pdfs|
  {
    if pdfs == [] then Run(fs, [])
    else
      var name := pdfs[|pdfs| - 1];
      var before := FiguresRun(fs, pdfs[..|pdfs| - 1], service);
      var step := FiguresStep(before.fs, name, service(name));
      Run(step.fs, before.requested + if step.requested then [name] else [])
  }

  method ProcessPdf(disk: Disk, name: string, resp: Response) returns (requested: bool)
    requires disk.Valid()
    modifies disk
    ensures disk.Valid()
    ensures Step(disk.State(), requested) == FiguresStep(old(disk.State()), name, resp)
  {
    if disk.State().Exists(FiguresFile(name)) {
      return false;
    }
    disk.MakeDirs(FiguresFolder(name));
    GenerateFiguresVisualization(disk, FiguresFolder(name), resp);
    return true;
  }

  /** main: every listed PDF in listing order; service gives the answer of the
      figures endpoint for each PDF during this run.  Without PDFs nothing is
      made. */
  method FiguresMain(disk: Disk, listing: seq<string>, service: string -> Response) returns (requested: seq<string>)
    requires disk.Valid()
    modifies disk
    ensures disk.Valid()
    ensures Run(disk.State(), requested) == FiguresRun(old(disk.State()), PdfFiles(listing), service)
    ensures PdfFiles(listing) == [] ==> disk.State() == old(disk.State()) && requested == []
  {
    var pdfs := PdfFiles(listing);
    requested := [];
    if pdfs == [] {
      return;
    }
    var i := 0;
    while i < |pdfs|
      invariant 0 <= i <= |pdfs|
      invariant disk.Valid()
      invariant Run(disk.State(), requested) == FiguresRun(old(disk.State()), pdfs[..i], service)
    {
      ghost var before := FiguresRun(old(disk.State()), pdfs[..i], service);
      var asked := ProcessPdf(disk, pdfs[i], service(pdfs[i]));
      ghost var step := FiguresStep(before.fs, pdfs[i], service(pdfs[i]));
      assert Step(disk.State(), asked) == step;
      if asked {
        requested := requested + [pdfs[i]];
      }
      assert pdfs[..i + 1][..i] == pdfs[..i];
      assert FiguresRun(old(disk.State()), pdfs[..i + 1], service)
          == Run(step.fs, before.requested + if step.requested then [pdfs[i]] else []);
      i := i + 1;
    }
    assert pdfs[..i] == pdfs;
  }

  // ---------------------------------------------------------------------------
  // Properties of one PDF and of a batch

  /** The skip rule: a PDF is sent exactly when its picture does not exist,
      and a skipped PDF changes nothing. */
  lemma FiguresSkipRule(fs: Fs, name: string, resp: Response)
    ensures FiguresStep(fs, name, resp).requested <==> !fs.Exists(FiguresFile(name))
    ensures !FiguresStep(fs, name, resp).requested ==> FiguresStep(fs, name, resp).fs == fs
  {
  }

  /** A PDF that is sent gets its folder whatever the answer; the picture is
      written with the raw body exactly on a 200, and no other file changes. */
  lemma FiguresStepOutcome(fs: Fs, name: string, resp: Response)
    requires fs.Valid() && !fs.Exists(FiguresFile(name))
    ensures FiguresStep(fs, name, resp).fs.Valid()
    ensures FiguresStep(fs, name, resp).fs.dirs == fs.dirs + Ancestors(FiguresFolder(name))
    ensures FiguresFolder(name) in FiguresStep(fs, name, resp).fs.dirs
    ensures FiguresFile(name) in FiguresStep(fs, name, resp).fs.files <==> IsStatus(resp, 200)
    ensures IsStatus(resp, 200) ==> FiguresStep(fs, name, resp).fs.files == fs.files[FiguresFile(name) := Bytes(resp.content)]
    ensures !IsStatus(resp, 200) ==> FiguresStep(fs, name, resp).fs.files == fs.files
  {
    MakeDirsValid(fs, FiguresFolder(name));
    assert Parent(FiguresFile(name)) == FiguresFolder(name);
    if resp.Reply? {
      WriteValid(fs.MakeDirs(FiguresFolder(name)), FiguresFile(name), Bytes(resp.content));
    }
  }

  /** A PDF whose request failed has no picture afterwards, so the next run
      sends it again. */
  lemma FiguresRetriedAfterFailure(fs: Fs, name: string, resp: Response, later: Response)
    requires fs.Valid() && !fs.Exists(FiguresFile(name)) && !IsStatus(resp, 200)
    ensures FiguresStep(FiguresStep(fs, name, resp).fs, name, later).requested
  {
    FiguresStepOutcome(fs, name, resp);
    AncestorsNoLonger(FiguresFolder(name));
  }

  /** One PDF keeps the tree valid, makes no top-level folder but its own,
      deletes nothing and changes no existing file. */
  lemma FiguresStepFrame(fs: Fs, name: string, resp: Response)
    requires fs.Valid()
    ensures FiguresStep(fs, name, resp).fs.Valid()
    ensures fs.dirs <= FiguresStep(fs, name, resp).fs.dirs
    ensures fs.files.Keys <= FiguresStep(fs, name, resp).fs.files.Keys
    ensures forall p :: p in fs.files ==> FiguresStep(fs, name, resp).fs.files[p] == fs.files[p]
    ensures NewTopLevelAmong(fs, FiguresStep(fs, name, resp).fs, {BaseName(name)})
  {
    if !fs.Exists(FiguresFile(name)) {
      FiguresStepOutcome(fs, name, resp);
      MakeDirsTopLevel(fs, FiguresFolder(name));
    }
  }

  /** A batch keeps the tree valid, makes no top-level folder but its PDFs'
      own, and deletes no folder and no file. */
  lemma {:induction false} FiguresRunGrows(fs: Fs, pdfs: seq<string>, service: string -> Response)
    requires fs.Valid()
    ensures FiguresRun(fs, pdfs, service).fs.Valid()
    ensures fs.dirs <= FiguresRun(fs, pdfs, service).fs.dirs
    ensures fs.files.Keys <= FiguresRun(fs, pdfs, service).fs.files.Keys
    ensures NewTopLevelAmong(fs, FiguresRun(fs, pdfs, service).fs, BaseNames(pdfs))
    decreases |pdfs|
  {
    if pdfs != [] {
      var before := FiguresRun(fs, pdfs[..|pdfs| - 1], service);
      FiguresRunGrows(fs, pdfs[..|pdfs| - 1], service);
      FiguresStepFrame(before.fs, pdfs[|pdfs| - 1], service(pdfs[|pdfs| - 1]));
      BaseNamesGrow(pdfs);
    }
  }

  /** A PDF answered with 200 during a batch has its picture at the end of it. */
  lemma {:induction false} FiguresRunCompletesOne(fs: Fs, pdfs: seq<string>, n: string, service: string -> Response)
    requires fs.Valid() && n in pdfs && IsStatus(service(n), 200)
    ensures FiguresRun(fs, pdfs, service).fs.Exists(FiguresFile(n))
    decreases |pdfs|
  {
    var name := pdfs[|pdfs| - 1];
    var prefix := pdfs[..|pdfs| - 1];
    assert pdfs == prefix + [name];
    var before := FiguresRun(fs, prefix, service);
    FiguresRunGrows(fs, prefix, service);
    if n == name {
      if !before.fs.Exists(FiguresFile(name)) {
        FiguresStepOutcome(before.fs, name, service(name));
      }
    } else {
      assert n in prefix;
      FiguresRunCompletesOne(fs, prefix, n, service);
      FiguresStepFrame(before.fs, name, service(name));
    }
  }

  /** A batch over PDFs that all have their picture sends nothing and changes nothing. */
  lemma {:induction false} FiguresRerunRequestsNothing(fs: Fs, pdfs: seq<string>, service: string -> Response)
    requires forall n :: n in pdfs ==> fs.Exists(FiguresFile(n))
    ensures FiguresRun(fs, pdfs, service) == Run(fs, [])
    decreases |pdfs|
  {
    if pdfs != [] {
      assert forall n :: n in pdfs[..|pdfs| - 1] ==> n in pdfs;
      FiguresRerunRequestsNothing(fs, pdfs[..|pdfs| - 1], service);
    }
  }

  /** Idempotence: once every PDF was answered with 200, running the script
      again sends nothing, whatever the service would answer.  The second run
      lists the PDF folder afresh, so it also sees the folders the first run
      made (extra); they are not taken for PDFs as long as no PDF's folder is
      named like a PDF. */
  lemma FiguresIdempotent(fs: Fs, listing: seq<string>, extra: seq<string>, first: string -> Response,
                          again: string -> Response)
    requires fs.Valid()
    requires FolderNamesNotPdfs(PdfFiles(listing))
    requires forall n :: n in PdfFiles(listing) ==> IsStatus(first(n), 200)
    requires NewTopLevelFolders(fs, FiguresRun(fs, PdfFiles(listing), first).fs, extra)
    ensures FiguresRun(FiguresRun(fs, PdfFiles(listing), first).fs, PdfFiles(listing + extra), again).requested == []
  {
    var pdfs := PdfFiles(listing);
    var after := FiguresRun(fs, pdfs, first).fs;
    forall n | n in pdfs ensures after.Exists(FiguresFile(n)) {
      FiguresRunCompletesOne(fs, pdfs, n, first);
    }
    FiguresRunGrows(fs, pdfs, first);
    NewFoldersAmong(fs, after, BaseNames(pdfs), extra);
    RelistSelectsSame(listing, extra);
    FiguresRerunRequestsNothing(after, pdfs, again);
  }
}
