/** Strings as the pipeline scripts handle them: Python's whitespace stripping,
    prefix and suffix tests, lower-casing of file names and probe bodies, and the
    os.path.splitext rule that turns a PDF file name into the name of its folder. */
module Text {

  datatype Option<+T> = None | Some(value: T)

  /** The characters Python's str.isspace() accepts; str.strip(), str.lstrip()
      and the regular-expression class \s all use this set. */
  predicate IsSpace(c: char) {
    || ('\t' <= c <= '\r')
    || ('\U{1C}' <= c <= '\U{1F}')
    || c == ' ' || c == '\U{85}' || c == '\U{A0}' || c == '\U{1680}'
    || ('\U{2000}' <= c <= '\U{200A}')
    || c == '\U{2028}' || c == '\U{2029}' || c == '\U{202F}' || c == '\U{205F}'
    || c == '\U{3000}'
  }

  /** No whitespace at either end: what str.strip() leaves behind. */
  predicate IsStripped(s: string) {
    s == [] || (!IsSpace(s[0]) && !IsSpace(s[|s| - 1]))
  }

  /** str.lstrip() */
  function LStrip(s: string): string {
    if s != [] && IsSpace(s[0]) then LStrip(s[1..]) else s
  }

  /** str.rstrip() */
  function RStrip(s: string): string {
    if s != [] && IsSpace(s[|s| - 1]) then RStrip(s[..|s| - 1]) else s
  }

  /** str.strip() */
  function Strip(s: string): string {
    RStrip(LStrip(s))
  }

  /** lstrip drops the leading whitespace and nothing else. */
  lemma {:induction false} LStripSpec(s: string)
    ensures |LStrip(s)| <= |s| && LStrip(s) == s[|s| - |LStrip(s)|..]
    ensures forall i :: 0 <= i < |s| - |LStrip(s)| ==> IsSpace(s[i])
    ensures LStrip(s) == [] || !IsSpace(LStrip(s)[0])
  {
    if s != [] && IsSpace(s[0]) {
      LStripSpec(s[1..]);
      assert s[1..][|s| - 1 - |LStrip(s)|..] == s[|s| - |LStrip(s)|..];
      forall i | 1 <= i < |s| - |LStrip(s)| ensures IsSpace(s[i]) {
        assert s[i] == s[1..][i - 1];
      }
    }
  }

  /** rstrip drops the trailing whitespace and nothing else. */
  lemma {:induction false} RStripSpec(s: string)
    ensures |RStrip(s)| <= |s| && RStrip(s) == s[..|RStrip(s)|]
    ensures forall i :: |RStrip(s)| <= i < |s| ==> IsSpace(s[i])
    ensures RStrip(s) == [] || !IsSpace(RStrip(s)[|RStrip(s)| - 1])
  {
    if s != [] && IsSpace(s[|s| - 1]) {
      RStripSpec(s[..|s| - 1]);
      assert s[..|s| - 1][..|RStrip(s)|] == s[..|RStrip(s)|];
    }
  }

  /** r is the infix of s that starts at a, and only whitespace surrounds it. */
  predicate InfixAmidSpaces(s: string, r: string, a: nat) {
    && a + |r| <= |s| && r == s[a..a + |r|]
    && (forall i :: 0 <= i < a ==> IsSpace(s[i]))
    && (forall i :: a + |r| <= i < |s| ==> IsSpace(s[i]))
  }

  /** strip leaves an infix of s with no whitespace at either end, obtained
      by removing only whitespace. */
  lemma {:induction false} StripSpec(s: string)
    ensures IsStripped(Strip(s))
    ensures exists a: nat :: InfixAmidSpaces(s, Strip(s), a)
  {
    var l := LStrip(s);
    var r := RStrip(l);
    LStripSpec(s);
    RStripSpec(l);
    InfixOfTrimmed(s, l, r, |s| - |l|);
    assert Strip(s) == r;
    assert InfixAmidSpaces(s, r, |s| - |l|);
  }

  /** Trimming whitespace off the front of s and then off the back of the
      rest leaves an infix amid whitespace. */
  lemma InfixOfTrimmed(s: string, l: string, r: string, a: nat)
    requires a <= |s| && l == s[a..] && |r| <= |l| && r == l[..|r|]
    requires forall i :: 0 <= i < a ==> IsSpace(s[i])
    requires forall i :: |r| <= i < |l| ==> IsSpace(l[i])
    requires l == [] || !IsSpace(l[0])
    ensures InfixAmidSpaces(s, r, a)
    ensures r == [] || !IsSpace(r[0])
  {
    if r != [] {
      assert r[0] == l[0];
    }
    assert r == s[a..a + |r|];
    forall i | a + |r| <= i < |s| ensures IsSpace(s[i]) {
      assert s[i] == l[i - a];
    }
  }

  /** str.startswith(p). */
  predicate StartsWith(s: string, p: string) {
    |p| <= |s| && s[..|p|] == p
  }

  /** str.endswith(p). */
  predicate EndsWith(s: string, p: string) {
    |p| <= |s| && s[|s| - |p|..] == p
  }

  function LowerChar(c: char): char {
    if 'A' <= c <= 'Z' then (c as int + 32) as char else c
  }

  /** str.lower() on the ASCII letters.  No other character lower-cases to one
      of the ASCII letters the scripts compare against, so comparisons with
      "true" and tests for the suffix ".pdf" come out as in Python. */
  function Lower(s: string): string {
    if s == [] then [] else [LowerChar(s[0])] + Lower(s[1..])
  }

  /** Lower-casing works character by character and keeps the length. */
  lemma {:induction false} LowerAt(s: string)
    ensures |Lower(s)| == |s|
    ensures forall i :: 0 <= i < |s| ==> Lower(s)[i] == LowerChar(s[i])
  {
    if s != [] {
      LowerAt(s[1..]);
    }
  }

  /** Whether every character of s is a dot. */
  predicate AllDots(s: string) {
    forall i :: 0 <= i < |s| ==> s[i] == '.'
  }

  /** The position of the last '.' in s, if any. */
  function LastDot(s: string): (r: Option<nat>)
    ensures r.None? <==> '.' !in s
    ensures r.Some? ==> r.value < |s| && s[r.value] == '.' && '.' !in s[r.value + 1..]
  {
    if s == [] then None
    else if s[|s| - 1] == '.' then Some(|s| - 1)
    else
      var r := LastDot(s[..|s| - 1]);
      assert s == s[..|s| - 1] + [s[|s| - 1]];
      r
  }

  /** os.path.splitext(name)[0] for a name without separators, as listed by
      os.listdir; the rule is stated by BaseNameCuts. */
  function BaseName(name: string): (base: string)
    ensures |base| <= |name| && base == name[..|base|]
    ensures base == name || (name[|base|] == '.' && '.' !in name[|base| + 1..] && !AllDots(base))
  {
    match LastDot(name)
    case None => name
    case Some(d) => if AllDots(name[..d]) then name else name[..d]
  }

  /** splitext's rule, both ways: the extension starts at the last dot, and
      it is cut exactly when some dot of the name follows a character other
      than a dot, so the dots leading a name never start an extension (".pdf"
      and "..pdf" have none). */
  lemma BaseNameCuts(name: string)
    ensures BaseName(name) != name <==> exists i :: 0 <= i < |name| && name[i] == '.' && !AllDots(name[..i])
    ensures BaseName(name) != name ==> BaseName(name) == name[..LastDot(name).value]
  {
    match LastDot(name)
    case None =>
    case Some(d) =>
      forall i | d < i < |name| ensures name[i] != '.' {
        assert name[i] == name[d + 1..][i - d - 1];
      }
      if AllDots(name[..d]) {
        forall i | 0 <= i < |name| && name[i] == '.' ensures AllDots(name[..i]) {
          assert i <= d;
          forall k | 0 <= k < i ensures name[..i][k] == '.' {
            assert name[..i][k] == name[..d][k];
          }
        }
      } else {
        assert name[d] == '.' && !AllDots(name[..d]);
      }
  }

  /** The listing filter of every script: the lower-cased name ends in ".pdf". */
  predicate IsPdfName(name: string) {
    EndsWith(Lower(name), ".pdf")
  }

  /** [f for f in os.listdir(folder) if f.lower().endswith(".pdf")]: the PDF
      names of a listing, in listing order. */
  function PdfFiles(listing: seq<string>): (pdfs: seq<string>)
    ensures forall n :: n in pdfs <==> n in listing && IsPdfName(n)
    ensures |pdfs| <= |listing|
  {
    if listing == [] then []
    else (if IsPdfName(listing[0]) then [listing[0]] else []) + PdfFiles(listing[1..])
  }

  /** The filter keeps the listing order: filtering a concatenation is
      concatenating the filtered parts, so each kept name stays where the
      listing put it relative to the others. */
  lemma {:induction false} PdfFilesAppend(a: seq<string>, b: seq<string>)
    ensures PdfFiles(a + b) == PdfFiles(a) + PdfFiles(b)
    decreases |a|
  {
    if a == [] {
      assert a + b == b;
    } else {
      assert (a + b)[0] == a[0] && (a + b)[1..] == a[1..] + b;
      PdfFilesAppend(a[1..], b);
    }
  }

  /** One listed name is kept exactly when it is a PDF name. */
  lemma PdfFilesSingle(n: string)
    ensures PdfFiles([n]) == if IsPdfName(n) then [n] else []
  {
    assert [n][1..] == [];
  }

  /** BaseNameCuts applied to a listed PDF: its folder is named by what comes
      before the four-character extension, or by the whole name when only dots
      come before it. */
  lemma PdfBaseName(name: string)
    requires IsPdfName(name)
    ensures |name| >= 4
    ensures AllDots(name[..|name| - 4]) ==> BaseName(name) == name
    ensures !AllDots(name[..|name| - 4]) ==> BaseName(name) == name[..|name| - 4]
  {
    var n := |name|;
    LowerAt(name);
    assert Lower(name)[n - 4..] == ".pdf";
    assert Lower(name)[n - 4] == '.' && Lower(name)[n - 3] == 'p';
    assert Lower(name)[n - 2] == 'd' && Lower(name)[n - 1] == 'f';
    assert name[n - 4] == '.';
    assert name[n - 3] != '.' && name[n - 2] != '.' && name[n - 1] != '.';
    var d := LastDot(name);
    assert d == Some(n - 4);
  }

  // ---------------------------------------------------------------------------
  // Listing the PDF folder again after a run

  /** The folder names a batch gives its PDFs. */
  function BaseNames(pdfs: seq<string>): set<string> {
    set n | n in pdfs :: BaseName(n)
  }

  lemma BaseNamesGrow(pdfs: seq<string>)
    requires pdfs != []
    ensures BaseNames(pdfs[..|pdfs| - 1]) + {BaseName(pdfs[|pdfs| - 1])} <= BaseNames(pdfs)
  {
    assert forall n :: n in pdfs[..|pdfs| - 1] ==> n in pdfs;
    assert pdfs[|pdfs| - 1] in pdfs;
  }

  /** No PDF's folder is itself named like a PDF.  os.listdir returns folders
      as well as files, so a later listing selects such a folder as one more
      PDF ("a.pdf.pdf" gets the folder "a.pdf"). */
  predicate FolderNamesNotPdfs(pdfs: seq<string>) {
    forall n :: n in pdfs ==> !IsPdfName(BaseName(n))
  }

  lemma {:induction false} PdfFilesNone(xs: seq<string>)
    requires forall x :: x in xs ==> !IsPdfName(x)
    ensures PdfFiles(xs) == []
  {
    if xs != [] {
      assert forall x :: x in xs[1..] ==> x in xs;
      PdfFilesNone(xs[1..]);
    }
  }

  /** Listing the folder again, with the folders a batch made for its PDFs
      appended, selects the same PDFs in the same order exactly when no
      folder name is a PDF name: the "if" half. */
  lemma RelistSelectsSame(listing: seq<string>, extra: seq<string>)
    requires FolderNamesNotPdfs(PdfFiles(listing))
    requires forall e :: e in extra ==> e in BaseNames(PdfFiles(listing))
    ensures PdfFiles(listing + extra) == PdfFiles(listing)
  {
    forall e | e in extra ensures !IsPdfName(e) {
      var n :| n in PdfFiles(listing) && BaseName(n) == e;
    }
    PdfFilesNone(extra);
    PdfFilesAppend(listing, extra);
    assert PdfFiles(listing) + [] == PdfFiles(listing);
  }

  /** The "only if" half: a PDF whose folder name is a PDF name brings that
      folder into the next listing as one more PDF. */
  lemma RelistSelectsFolder(listing: seq<string>, n: string)
    requires n in PdfFiles(listing) && IsPdfName(BaseName(n))
    ensures PdfFiles(listing + [BaseName(n)]) == PdfFiles(listing) + [BaseName(n)]
  {
    PdfFilesAppend(listing, [BaseName(n)]);
    PdfFilesSingle(BaseName(n));
  }

  /** "a.pdf.pdf" is such a PDF: its folder "a.pdf" is listed as a PDF. */
  lemma DoublePdfExtension()
    ensures IsPdfName("a.pdf.pdf") && BaseName("a.pdf.pdf") == "a.pdf" && IsPdfName("a.pdf")
    ensures !FolderNamesNotPdfs(["a.pdf.pdf"])
  {
    var name := "a.pdf.pdf";
    LowerAt(name);
    assert Lower(name)[5..] == ".pdf";
    PdfBaseName(name);
    assert name[..5] == "a.pdf" && name[..5][0] == 'a';
    LowerAt("a.pdf");
    assert Lower("a.pdf")[1..] == ".pdf";
  }
}
