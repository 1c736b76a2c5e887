/** The part of the filesystem the scripts touch, below the PDF folder, and the
    answers of the extraction service.  A path is the list of its components
    relative to the PDF folder: os.path.join(pdf_folder, a, b) is [a, b]. */
module Files {

  type Path = seq<string>

  /** What a written file holds: text written in "w" mode, bytes written in
      "wb" mode, or a word-cloud picture drawn from a text. */
  datatype Content = Text(s: string) | Bytes(b: seq<bv8>) | Cloud(words: string)

  /** One HTTP exchange: the status and the body (decoded as text, and raw),
      or an exception raised by the request or by opening the PDF. */
  datatype Response = Reply(status: int, text: string, content: seq<bv8>) | Raised

  predicate IsStatus(r: Response, code: int) {
    r.Reply? && r.status == code
  }

  function Parent(p: Path): Path
    requires p != []
  {
    p[..|p| - 1]
  }

  /** p and every folder above it, the PDF folder ([]) included. */
  function Ancestors(p: Path): set<Path> {
    set k | 0 <= k <= |p| :: p[..k]
  }

  datatype Fs = Fs(dirs: set<Path>, files: map<Path, Content>) {

    /** The PDF folder exists, and every folder and file sits in an existing folder. */
    ghost predicate Valid() {
      && [] in dirs
      && (forall p :: p in dirs && p != [] ==> Parent(p) in dirs)
      && (forall p :: p in files ==> p != [] && Parent(p) in dirs)
    }

    /** Every folder is the PDF folder, a PDF's folder or one of its artifact
        folders: the scripts never create deeper ones. */
    ghost predicate Shallow() {
      forall p :: p in dirs ==> |p| <= 2
    }

    /** os.path.exists */
    predicate Exists(p: Path) {
      p in dirs || p in files
    }

    /** os.path.isdir */
    predicate IsDir(p: Path) {
      p in dirs
    }

    /** os.path.isfile */
    predicate IsFile(p: Path) {
      p in files
    }

    /** os.makedirs(p, exist_ok=True) */
    function MakeDirs(p: Path): Fs {
      Fs(dirs + Ancestors(p), files)
    }

    /** open(p, "w" or "wb") followed by a write: creates or replaces the file. */
    function Write(p: Path, c: Content): Fs {
      Fs(dirs, files[p := c])
    }
  }

  /** In a valid tree every folder above an existing folder exists. */
  lemma {:induction false} AncestorsExist(fs: Fs, p: Path)
    requires fs.Valid() && p in fs.dirs
    ensures Ancestors(p) <= fs.dirs
    decreases |p|
  {
    if p != [] {
      AncestorsExist(fs, Parent(p));
      forall q | q in Ancestors(p) ensures q in fs.dirs {
        var k :| 0 <= k <= |p| && q == p[..k];
        if k < |p| {
          assert q == Parent(p)[..k];
          assert q in Ancestors(Parent(p));
        } else {
          assert q == p;
        }
      }
    }
  }

  /** Creating folders that already exist changes nothing. */
  lemma MakeDirsExisting(fs: Fs, p: Path)
    requires fs.Valid() && p in fs.dirs
    ensures fs.MakeDirs(p) == fs
  {
    AncestorsExist(fs, p);
  }

  /** Making a folder keeps the tree valid and makes the folder exist. */
  lemma MakeDirsValid(fs: Fs, p: Path)
    requires fs.Valid()
    ensures fs.MakeDirs(p).Valid() && p in fs.MakeDirs(p).dirs
  {
    assert p == p[..|p|] && [] == p[..0];
    forall q | q in Ancestors(p) && q != [] ensures Parent(q) in Ancestors(p) {
      var k :| 0 <= k <= |p| && q == p[..k];
      assert Parent(q) == p[..k - 1];
    }
  }

  /** The folders a makedirs creates are no deeper than the folder asked for. */
  lemma AncestorsNoLonger(p: Path)
    ensures forall q :: q in Ancestors(p) ==> |q| <= |p|
  {
  }

  /** Writing a file into an existing folder keeps the tree valid. */
  lemma WriteValid(fs: Fs, p: Path, c: Content)
    requires fs.Valid() && p != [] && Parent(p) in fs.dirs
    ensures fs.Write(p, c).Valid()
  {
  }

  /** Making a folder at most two levels deep keeps the tree shallow. */
  lemma MakeDirsShallow(fs: Fs, p: Path)
    requires fs.Shallow() && |p| <= 2
    ensures fs.MakeDirs(p).Shallow()
  {
  }

  /** Every folder that appears between two trees is at most two levels deep:
      a PDF's folder or one of its artifact folders. */
  ghost predicate NewDirsShallow(before: Fs, after: Fs) {
    forall p :: p in after.dirs && p !in before.dirs ==> |p| <= 2
  }

  /** Every top-level folder that appears between two trees is named in names:
      the folders a later os.listdir of the PDF folder returns besides the
      earlier entries. */
  ghost predicate NewTopLevelAmong(before: Fs, after: Fs, names: set<string>) {
    forall p :: p in after.dirs && p !in before.dirs && |p| == 1 ==> p[0] in names
  }

  /** extra names top-level folders that after has and before had not: what a
      later os.listdir of the PDF folder may return besides the earlier listing. */
  ghost predicate NewTopLevelFolders(before: Fs, after: Fs, extra: seq<string>) {
    forall e :: e in extra ==> [e] in after.dirs && [e] !in before.dirs
  }

  lemma NewFoldersAmong(before: Fs, after: Fs, names: set<string>, extra: seq<string>)
    requires NewTopLevelAmong(before, after, names) && NewTopLevelFolders(before, after, extra)
    ensures forall e :: e in extra ==> e in names
  {
    forall e | e in extra ensures e in names {
      assert [e][0] == e;
    }
  }

  /** makedirs creates one top-level folder at most, named by the path's first part. */
  lemma MakeDirsTopLevel(fs: Fs, p: Path)
    requires p != []
    ensures NewTopLevelAmong(fs, fs.MakeDirs(p), {p[0]})
  {
    forall q | q in fs.MakeDirs(p).dirs && q !in fs.dirs && |q| == 1 ensures q[0] == p[0] {
      var k :| 0 <= k <= |p| && q == p[..k];
    }
  }

  /** The filesystem after one PDF, and whether the service was asked about it. */
  datatype Step = Step(fs: Fs, requested: bool)

  /** The filesystem after a batch, and the PDFs sent to the service, in order. */
  datatype Run = Run(fs: Fs, requested: seq<string>)

  /** The filesystem as the scripts see it while they run. */
  class Disk {
    var dirs: set<Path>
    var files: map<Path, Content>

    function State(): Fs
      reads this
    {
      Fs(dirs, files)
    }

    ghost predicate Valid()
      reads this
    {
      State().Valid()
    }

    constructor (fs: Fs)
      requires fs.Valid()
      ensures Valid() && State() == fs
    {
      dirs, files := fs.dirs, fs.files;
    }

    method MakeDirs(p: Path)
      requires Valid()
      modifies this
      ensures Valid() && State() == old(State()).MakeDirs(p)
      ensures p in dirs
    {
      MakeDirsValid(State(), p);
      dirs := dirs + Ancestors(p);
    }

    /** Opening a file for writing needs its folder to exist. */
    method Write(p: Path, c: Content)
      requires Valid() && p != [] && Parent(p) in dirs
      modifies this
      ensures Valid() && State() == old(State()).Write(p, c)
    {
      files := files[p := c];
    }
  }
}
