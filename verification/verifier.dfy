/** tester_final.py: the five end-of-pipeline checks over the PDF folder,
    each a loop over the listed PDFs that clears a flag on the first missing
    artifact, and the verdict that joins them.  Each check is proved equal to a
    predicate over the filesystem, and the predicates are related to what the
    generator scripts leave behind. */
module FinalTests {

  import opened Text
  import opened Xml
  import opened Files
  import K = KeywordCloud
  import L = LinksInPdf
  import M = MainPipeline

  function FullTextFolder(name: string): Path {
    [BaseName(name), "pdf_full_text_document"]
  }

  function FullTextTei(name: string): Path {
    FullTextFolder(name) + ["tei.xml"]
  }

  /** The chart test 5 looks for, directly in the PDF folder. */
  const FiguresChart: Path := ["figures_in_articles.png"]

  // ---------------------------------------------------------------------------
  // What each test accepts, PDF by PDF

  predicate HasFolder(fs: Fs, n: string) {
    fs.IsDir([BaseName(n)])
  }

  predicate HasKeywordCloud(fs: Fs, n: string) {
    fs.IsDir(K.KeywordFolder(n)) && fs.IsFile(K.KeywordCloudFile(n)) && fs.IsFile(K.KeywordTeiFile(n))
  }

  predicate HasFullText(fs: Fs, n: string) {
    fs.IsDir(FullTextFolder(n)) && fs.IsFile(FullTextTei(n))
  }

  predicate HasLinks(fs: Fs, n: string) {
    fs.IsDir(L.LinksFolder(n)) && fs.IsFile(L.LinksFile(n))
  }

  predicate FolderPerPdf(fs: Fs, pdfs: seq<string>) {
    forall n :: n in pdfs ==> HasFolder(fs, n)
  }

  predicate KeywordCloudComplete(fs: Fs, pdfs: seq<string>) {
    forall n :: n in pdfs ==> HasKeywordCloud(fs, n)
  }

  predicate FullTextComplete(fs: Fs, pdfs: seq<string>) {
    forall n :: n in pdfs ==> HasFullText(fs, n)
  }

  predicate LinksComplete(fs: Fs, pdfs: seq<string>) {
    forall n :: n in pdfs ==> HasLinks(fs, n)
  }

  // ---------------------------------------------------------------------------
  // The five tests

  /** test_folder_per_pdf */
  method TestFolderPerPdf(fs: Fs, listing: seq<string>) returns (allOk: bool)
    ensures allOk == FolderPerPdf(fs, PdfFiles(listing))
  {
    var pdfs := PdfFiles(listing);
    allOk := true;
    var i := 0;
    while i < |pdfs|
      invariant 0 <= i <= |pdfs|
      invariant allOk == FolderPerPdf(fs, pdfs[..i])
    {
      assert pdfs[..i + 1] == pdfs[..i] + [pdfs[i]];
      assert FolderPerPdf(fs, pdfs[..i + 1]) == (FolderPerPdf(fs, pdfs[..i]) && HasFolder(fs, pdfs[i]));
      if !fs.IsDir([BaseName(pdfs[i])]) {
        allOk := false;
      }
      i := i + 1;
    }
    assert pdfs[..i] == pdfs;
  }

  /** test_keyword_cloud_folder: a missing keyword_cloud folder fails the PDF
      without looking at its files. */
  method TestKeywordCloudFolder(fs: Fs, listing: seq<string>) returns (allOk: bool)
    ensures allOk == KeywordCloudComplete(fs, PdfFiles(listing))
  {
    var pdfs := PdfFiles(listing);
    allOk := true;
    var i := 0;
    while i < |pdfs|
      invariant 0 <= i <= |pdfs|
      invariant allOk == KeywordCloudComplete(fs, pdfs[..i])
    {
      var pdf := pdfs[i];
      assert pdfs[..i + 1] == pdfs[..i] + [pdf];
      assert KeywordCloudComplete(fs, pdfs[..i + 1]) == (KeywordCloudComplete(fs, pdfs[..i]) && HasKeywordCloud(fs, pdf));
      i := i + 1;
      if !fs.IsDir(K.KeywordFolder(pdf)) {
        allOk := false;
        continue;
      }
      if !fs.IsFile(K.KeywordCloudFile(pdf)) {
        allOk := false;
      }
      if !fs.IsFile(K.KeywordTeiFile(pdf)) {
        allOk := false;
      }
    }
    assert pdfs[..i] == pdfs;
  }

  /** test_pdf_full_text_document_folder */
  method TestFullTextFolder(fs: Fs, listing: seq<string>) returns (allOk: bool)
    ensures allOk == FullTextComplete(fs, PdfFiles(listing))
  {
    var pdfs := PdfFiles(listing);
    allOk := true;
    var i := 0;
    while i < |pdfs|
      invariant 0 <= i <= |pdfs|
      invariant allOk == FullTextComplete(fs, pdfs[..i])
    {
      var pdf := pdfs[i];
      assert pdfs[..i + 1] == pdfs[..i] + [pdf];
      assert FullTextComplete(fs, pdfs[..i + 1]) == (FullTextComplete(fs, pdfs[..i]) && HasFullText(fs, pdf));
      i := i + 1;
      if !fs.IsDir(FullTextFolder(pdf)) {
        allOk := false;
        continue;
      }
      if !fs.IsFile(FullTextTei(pdf)) {
        allOk := false;
      }
    }
    assert pdfs[..i] == pdfs;
  }

  /** test_links_in_pdf_folder */
  method TestLinksFolder(fs: Fs, listing: seq<string>) returns (allOk: bool)
    ensures allOk == LinksComplete(fs, PdfFiles(listing))
  {
    var pdfs := PdfFiles(listing);
    allOk := true;
    var i := 0;
    while i < |pdfs|
      invariant 0 <= i <= |pdfs|
      invariant allOk == LinksComplete(fs, pdfs[..i])
    {
      var pdf := pdfs[i];
      assert pdfs[..i + 1] == pdfs[..i] + [pdf];
      assert LinksComplete(fs, pdfs[..i + 1]) == (LinksComplete(fs, pdfs[..i]) && HasLinks(fs, pdf));
      i := i + 1;
      if !fs.IsDir(L.LinksFolder(pdf)) {
        allOk := false;
        continue;
      }
      if !fs.IsFile(L.LinksFile(pdf)) {
        allOk := false;
      }
    }
    assert pdfs[..i] == pdfs;
  }

  /** test_figures_in_articles: one file in the PDF folder, whatever the PDFs. */
  method TestFiguresInArticles(fs: Fs) returns (ok: bool)
    ensures ok <==> FiguresChart in fs.files
  {
    ok := fs.IsFile(FiguresChart);
  }

  /** main(): all five tests run, in order, before the verdict joins them. */
  method FinalMain(fs: Fs, listing: seq<string>) returns (allPassed: bool, results: seq<bool>)
    ensures results == [FolderPerPdf(fs, PdfFiles(listing)), KeywordCloudComplete(fs, PdfFiles(listing)),
                        FullTextComplete(fs, PdfFiles(listing)), LinksComplete(fs, PdfFiles(listing)),
                        fs.IsFile(FiguresChart)]
    ensures allPassed <==> forall k :: 0 <= k < |results| ==> results[k]
  {
    var result1 := TestFolderPerPdf(fs, listing);
    var result2 := TestKeywordCloudFolder(fs, listing);
    var result3 := TestFullTextFolder(fs, listing);
    var result4 := TestLinksFolder(fs, listing);
    var result5 := TestFiguresInArticles(fs);
    results := [result1, result2, result3, result4, result5];
    allPassed := result1 && result2 && result3 && result4 && result5;
    assert results[0] == result1 && results[1] == result2 && results[2] == result3;
    assert results[3] == result4 && results[4] == result5;
  }

  // ---------------------------------------------------------------------------
  // Properties of the tests

  /** Without PDFs the four per-PDF tests pass and the verdict is test 5 alone. */
  lemma NoPdfsVacuous(fs: Fs)
    ensures FolderPerPdf(fs, []) && KeywordCloudComplete(fs, []) && FullTextComplete(fs, []) && LinksComplete(fs, [])
  {
  }

  /** A tei.xml without its keyword_cloud.png fails test 2. */
  lemma TeiAloneFails(fs: Fs, pdfs: seq<string>, n: string)
    requires n in pdfs && fs.IsFile(K.KeywordTeiFile(n)) && !fs.IsFile(K.KeywordCloudFile(n))
    ensures !KeywordCloudComplete(fs, pdfs)
  {
    assert !HasKeywordCloud(fs, n);
  }

  /** In a valid tree the folder checks are implied by the file checks: a
      file always sits in an existing folder, and so does that folder. */
  lemma FilesImplyFolders(fs: Fs, n: string)
    requires fs.Valid()
    ensures HasKeywordCloud(fs, n) <==> fs.IsFile(K.KeywordCloudFile(n)) && fs.IsFile(K.KeywordTeiFile(n))
    ensures HasFullText(fs, n) <==> fs.IsFile(FullTextTei(n))
    ensures HasLinks(fs, n) <==> fs.IsFile(L.LinksFile(n))
    ensures HasKeywordCloud(fs, n) || HasFullText(fs, n) || HasLinks(fs, n) ==> HasFolder(fs, n)
  {
    assert Parent(K.KeywordCloudFile(n)) == K.KeywordFolder(n) && Parent(K.KeywordFolder(n)) == [BaseName(n)];
    assert Parent(FullTextTei(n)) == FullTextFolder(n) && Parent(FullTextFolder(n)) == [BaseName(n)];
    assert Parent(L.LinksFile(n)) == L.LinksFolder(n) && Parent(L.LinksFolder(n)) == [BaseName(n)];
  }

  /** A run of links_in_pdf_generator.py whose every answer settles (204, or
      200 with a body) makes tests 1 and 4 pass, unless a folder already sat
      where a links.txt should go.  The tests list the PDF folder afresh, so
      they also see the folders the run made (extra); those are not taken for
      PDFs as long as no PDF's folder is named like a PDF. */
  lemma LinksScriptPassesTests(fs: Fs, listing: seq<string>, extra: seq<string>, service: string -> Response,
                               parse: string -> Option<Element>)
    requires fs.Valid()
    requires FolderNamesNotPdfs(PdfFiles(listing))
    requires forall n :: n in PdfFiles(listing) ==> L.LinksFile(n) !in fs.dirs
    requires forall n :: n in PdfFiles(listing) ==> L.Settles(service(n))
    requires NewTopLevelFolders(fs, L.LinksRun(fs, PdfFiles(listing), service, parse).fs, extra)
    ensures LinksComplete(L.LinksRun(fs, PdfFiles(listing), service, parse).fs, PdfFiles(listing + extra))
    ensures FolderPerPdf(L.LinksRun(fs, PdfFiles(listing), service, parse).fs, PdfFiles(listing + extra))
  {
    var pdfs := PdfFiles(listing);
    var after := L.LinksRun(fs, pdfs, service, parse).fs;
    L.LinksRunCompletes(fs, pdfs, service, parse);
    L.LinksRunFrame(fs, pdfs, service, parse);
    NewFoldersAmong(fs, after, BaseNames(pdfs), extra);
    RelistSelectsSame(listing, extra);
    forall n | n in pdfs ensures HasLinks(after, n) && HasFolder(after, n) {
      FilesImplyFolders(after, n);
    }
  }

  /** A run of keyword_cloud_generator.py whose every answer completes its
      PDF (a 200 with an abstract WordCloud can draw) makes tests 1 and 2 pass,
      unless a folder already sat where one of its files should go; the tests'
      fresh listing is read as for LinksScriptPassesTests. */
  lemma KeywordScriptPassesTests(fs: Fs, listing: seq<string>, extra: seq<string>, service: string -> Response,
                                 parse: string -> Option<Element>, renders: string -> bool)
    requires fs.Valid()
    requires FolderNamesNotPdfs(PdfFiles(listing))
    requires forall n :: n in PdfFiles(listing) ==> K.KeywordTeiFile(n) !in fs.dirs && K.KeywordCloudFile(n) !in fs.dirs
    requires forall n :: n in PdfFiles(listing) ==> K.Completes(service(n), parse, renders)
    requires NewTopLevelFolders(fs, K.KeywordRun(fs, PdfFiles(listing), service, parse, renders).fs, extra)
    ensures KeywordCloudComplete(K.KeywordRun(fs, PdfFiles(listing), service, parse, renders).fs, PdfFiles(listing + extra))
    ensures FolderPerPdf(K.KeywordRun(fs, PdfFiles(listing), service, parse, renders).fs, PdfFiles(listing + extra))
  {
    var pdfs := PdfFiles(listing);
    var after := K.KeywordRun(fs, pdfs, service, parse, renders).fs;
    K.KeywordRunGrows(fs, pdfs, service, parse, renders);
    NewFoldersAmong(fs, after, BaseNames(pdfs), extra);
    RelistSelectsSame(listing, extra);
    forall n | n in pdfs ensures HasKeywordCloud(after, n) && HasFolder(after, n) {
      K.KeywordRunCompletesOne(fs, pdfs, n, service, parse, renders);
      assert |K.KeywordTeiFile(n)| == 3 && |K.KeywordCloudFile(n)| == 3;
      FilesImplyFolders(after, n);
    }
  }

  /** main.py makes a folder for every PDF whatever the service answers, so
      test 1 passes after it, on a fresh listing read as for
      LinksScriptPassesTests; its results land outside keyword_cloud, so they
      never count for test 2. */
  lemma MainScriptPassesFolderTest(fs: Fs, listing: seq<string>, extra: seq<string>, service: string -> Response,
                                   parse: string -> Option<Element>, renders: string -> bool)
    requires fs.Valid()
    requires FolderNamesNotPdfs(PdfFiles(listing))
    requires NewTopLevelFolders(fs, M.MainRun(fs, PdfFiles(listing), service, parse, renders).fs, extra)
    ensures FolderPerPdf(M.MainRun(fs, PdfFiles(listing), service, parse, renders).fs, PdfFiles(listing + extra))
  {
    var pdfs := PdfFiles(listing);
    var after := M.MainRun(fs, pdfs, service, parse, renders).fs;
    M.MainRunGrows(fs, pdfs, service, parse, renders);
    NewFoldersAmong(fs, after, BaseNames(pdfs), extra);
    RelistSelectsSame(listing, extra);
    forall n | n in pdfs ensures HasFolder(after, n) {
      M.MainRunMakesFolder(fs, pdfs, n, service, parse, renders);
    }
  }
}
