/** keyword_cloud_generator.py: the abstract of each PDF, taken from the header
    the extraction service returns (TEI XML or BibTeX), drawn as a word cloud
    in <base>/keyword_cloud/keyword_cloud.png next to the header in tei.xml. */
module KeywordCloud {

  import opened Text
  import opened Xml
  import opened Files

  // ---------------------------------------------------------------------------
  // extract_abstract_from_xml

  /** The stripped text of the first element below the root whose tag is
      exactly "abstract"; None when the document does not parse or has no such
      element. */
  function ExtractAbstractFromXml(parsed: Option<Element>): (r: Option<string>)
    ensures parsed.None? ==> r.None?
    ensures r.Some? ==> IsStripped(r.value)
  {
    match parsed
    case None => None
    case Some(root) =>
      match FindDescendant(root, "abstract")
      case None => None
      case Some(a) =>
        StripSpec(Itertext(a));
        Some(Strip(Itertext(a)))
  }

  /** The abstract comes from the first element tagged "abstract" in document
      order, not counting the root. */
  lemma XmlAbstractIsFirst(root: Element)
    requires ExtractAbstractFromXml(Some(root)).Some?
    ensures exists i :: 1 <= i < |Iter(root)| && Iter(root)[i].tag == "abstract"
              && ExtractAbstractFromXml(Some(root)).value == Strip(Itertext(Iter(root)[i]))
              && forall j :: 1 <= j < i ==> Iter(root)[j].tag != "abstract"
  {
    var below := Iter(root)[1..];
    var a := FindFirst(below, "abstract").value;
    var k :| 0 <= k < |below| && below[k] == a && a.tag == "abstract"
             && forall j :: 0 <= j < k ==> below[j].tag != "abstract";
    assert Iter(root)[k + 1] == a;
    forall j | 1 <= j < k + 1 ensures Iter(root)[j].tag != "abstract" {
      assert Iter(root)[j] == below[j - 1];
    }
  }

  /** An abstract is found exactly when some element strictly below the root,
      at any depth, is tagged "abstract". */
  lemma XmlAbstractFound(root: Element)
    ensures ExtractAbstractFromXml(Some(root)).Some? <==>
              exists i, x :: 0 <= i < |root.children| && InSubtree(x, root.children[i]) && x.tag == "abstract"
  {
    var below := Iter(root)[1..];
    assert below == IterForest(root.children);
    var r := FindFirst(below, "abstract");
    if r.Some? {
      var k :| 0 <= k < |below| && below[k] == r.value && r.value.tag == "abstract";
      IterForestIsSubtrees(below[k], root.children);
    }
    if i, x :| 0 <= i < |root.children| && InSubtree(x, root.children[i]) && x.tag == "abstract" {
      IterForestIsSubtrees(x, root.children);
      var k :| 0 <= k < |below| && below[k] == x;
      assert below[k].tag == "abstract";
    }
  }

  /** The lookup compares whole tags: when every element carries a namespace
      ("{uri}local", as in a TEI document), no abstract is ever found. */
  lemma NamespacedAbstractNotFound(root: Element)
    requires forall x :: InSubtree(x, root) ==> StartsWith(x.tag, "{")
    ensures ExtractAbstractFromXml(Some(root)) == None
  {
    forall i, x | 0 <= i < |root.children| && InSubtree(x, root.children[i]) ensures x.tag != "abstract" {
      assert InSubtree(x, root);
      assert x.tag[0] == '{';
    }
    XmlAbstractFound(root);
  }

  const ExampleHi := Element("hi", map[], "learning", [], " works ")
  const ExampleAbstract := Element("abstract", map[], " Deep ", [ExampleHi], "tail")
  const ExampleHeader := Element("TEI", map[], "", [ExampleAbstract], "")

  lemma ExampleHeaderFind()
    ensures FindDescendant(ExampleHeader, "abstract") == Some(ExampleAbstract)
  {
    assert [ExampleHi][1..] == [] && [ExampleAbstract][1..] == [];
    assert Iter(ExampleHi) == [ExampleHi];
    assert IterForest([ExampleHi]) == [ExampleHi];
    assert Iter(ExampleAbstract) == [ExampleAbstract, ExampleHi];
    assert IterForest([ExampleAbstract]) == [ExampleAbstract, ExampleHi];
    assert Iter(ExampleHeader)[1..] == [ExampleAbstract, ExampleHi];
  }

  lemma ExampleAbstractText()
    ensures Itertext(ExampleAbstract) == " Deep learning works "
  {
    assert [ExampleHi][1..] == [];
    assert Itertext(ExampleHi) == "learning";
    assert ItertextForest([ExampleHi]) == "learning works ";
  }

  /** The text of an abstract element joins its own text, its children's text
      and their tails, and not the tail of the abstract itself; the result is
      stripped. */
  lemma XmlAbstractExample()
    ensures ExtractAbstractFromXml(Some(ExampleHeader)) == Some("Deep learning works")
  {
    ExampleHeaderFind();
    ExampleAbstractText();
    ExampleStrip();
  }

  lemma ExampleStrip()
    ensures Strip(" Deep learning works ") == "Deep learning works"
  {
    assert LStrip(" Deep learning works ") == "Deep learning works ";
    assert RStrip("Deep learning works ") == "Deep learning works";
  }

  // ---------------------------------------------------------------------------
  // extract_abstract_from_bibtex: re.search(r'abstract\s*=\s*\{(.*?)\}', text,
  // re.DOTALL | re.IGNORECASE), then .group(1).strip()

  const AbstractKeyword := "abstract"

  /** Whether c matches the lower-case pattern letter p under re.IGNORECASE:
      either ASCII case of p, and for 's' also U+017F (long s), which Python's
      regular expressions treat as a case variant of 's'. */
  predicate MatchesIgnoreCase(c: char, p: char) {
    LowerChar(c) == p || (p == 's' && c == '\U{17F}')
  }

  /** t spells the lower-case word w, letter by letter, under re.IGNORECASE. */
  predicate SpellsIgnoreCase(t: string, w: string) {
    |t| == |w| && (t == [] || (MatchesIgnoreCase(t[0], w[0]) && SpellsIgnoreCase(t[1..], w[1..])))
  }

  /** A lower-case word spells itself. */
  lemma {:induction false} SpellsItself(w: string)
    requires forall k :: 0 <= k < |w| ==> 'a' <= w[k] <= 'z'
    ensures SpellsIgnoreCase(w, w)
  {
    if w != [] {
      SpellsItself(w[1..]);
    }
  }

  /** The word "abstract", in any case, starts at i. */
  predicate KeywordAt(s: string, i: nat) {
    i + |AbstractKeyword| <= |s| && SpellsIgnoreCase(s[i..i + |AbstractKeyword|], AbstractKeyword)
  }

  /** The end of the run of whitespace that starts at i: what a greedy \s* takes. */
  function SkipSpaces(s: string, i: nat): (j: nat)
    requires i <= |s|
    ensures i <= j <= |s|
    ensures forall k :: i <= k < j ==> IsSpace(s[k])
    ensures j == |s| || !IsSpace(s[j])
    decreases |s| - i
  {
    if i < |s| && IsSpace(s[i]) then SkipSpaces(s, i + 1) else i
  }

  /** The first position at or after i that holds c. */
  function IndexFrom(s: string, c: char, i: nat): (r: Option<nat>)
    requires i <= |s|
    ensures r.None? ==> forall k :: i <= k < |s| ==> s[k] != c
    ensures r.Some? ==> i <= r.value < |s| && s[r.value] == c && forall k :: i <= k < r.value ==> s[k] != c
    decreases |s| - i
  {
    if i == |s| then None else if s[i] == c then Some(i) else IndexFrom(s, c, i + 1)
  }

  /** A slice of positions that do not hold c does not contain c. */
  lemma SliceAvoids(s: string, c: char, i: nat, m: nat)
    requires i <= m <= |s|
    requires forall k :: i <= k < m ==> s[k] != c
    ensures c !in s[i..m]
  {
    forall x | 0 <= x < m - i ensures s[i..m][x] != c {
      assert s[i..m][x] == s[i + x];
    }
  }

  /** The group captured by a match that starts at i, if a match starts there.
      Neither \s* can give back whitespace to let '=' or '{' match, and the
      lazy group stops at the first '}', so at most one match starts at i. */
  function MatchAt(s: string, i: nat): (r: Option<string>)
    requires i <= |s|
    ensures r.Some? ==> '}' !in r.value
  {
    if !KeywordAt(s, i) then None
    else
      var j := SkipSpaces(s, i + |AbstractKeyword|);
      if j == |s| || s[j] != '=' then None
      else
        var k := SkipSpaces(s, j + 1);
        if k == |s| || s[k] != '{' then None
        else
          match IndexFrom(s, '}', k + 1)
          case None => None
          case Some(m) =>
            SliceAvoids(s, '}', k + 1, m);
            Some(s[k + 1..m])
  }

  /** The pattern, read declaratively: the keyword at i, whitespace, '=' at j,
      whitespace, '{' at k, then the group g and the '}' that closes it; the
      lazy group holds no '}'. */
  ghost predicate MatchSplit(s: string, i: nat, j: nat, k: nat, g: string) {
    && KeywordAt(s, i) && i + |AbstractKeyword| <= j < k && k + 1 + |g| < |s|
    && (forall x :: i + |AbstractKeyword| <= x < j ==> IsSpace(s[x]))
    && s[j] == '='
    && (forall x :: j < x < k ==> IsSpace(s[x]))
    && s[k] == '{'
    && s[k + 1..k + 1 + |g|] == g && '}' !in g && s[k + 1 + |g|] == '}'
  }

  /** A match of the pattern starts at i and captures g. */
  ghost predicate PatternMatches(s: string, i: nat, g: string) {
    exists j: nat, k: nat :: MatchSplit(s, i, j, k, g)
  }

  /** A whitespace run ends at the first character that is not whitespace. */
  lemma {:induction false} SkipSpacesStopsAt(s: string, i: nat, j: nat)
    requires i <= j < |s| && !IsSpace(s[j])
    requires forall x :: i <= x < j ==> IsSpace(s[x])
    ensures SkipSpaces(s, i) == j
    decreases j - i
  {
    if i < j {
      SkipSpacesStopsAt(s, i + 1, j);
    }
  }

  /** Soundness of the matcher: a group it finds is one the pattern captures. */
  lemma MatchAtSound(s: string, i: nat)
    requires i <= |s| && MatchAt(s, i).Some?
    ensures PatternMatches(s, i, MatchAt(s, i).value)
  {
    var g := MatchAt(s, i).value;
    var j := SkipSpaces(s, i + |AbstractKeyword|);
    var k := SkipSpaces(s, j + 1);
    var m := IndexFrom(s, '}', k + 1).value;
    assert s[k + 1..m] == g;
    assert s[k + 1..k + 1 + |g|] == g;
    assert MatchSplit(s, i, j, k, g);
  }

  /** Completeness of the matcher: a group the pattern captures is the one it finds. */
  lemma MatchAtComplete(s: string, i: nat, j: nat, k: nat, g: string)
    requires MatchSplit(s, i, j, k, g)
    ensures i <= |s| && MatchAt(s, i) == Some(g)
  {
    assert !IsSpace('=') && !IsSpace('{');
    SkipSpacesStopsAt(s, i + |AbstractKeyword|, j);
    SkipSpacesStopsAt(s, j + 1, k);
    var m := k + 1 + |g|;
    forall x | k + 1 <= x < m ensures s[x] != '}' {
      assert s[x] == g[x - (k + 1)];
    }
    IndexFromFinds(s, '}', k + 1, m);
  }

  /** The matcher and the pattern agree: MatchAt finds a group at i exactly when
      the pattern matches there, and then finds the group the pattern captures;
      so the pattern captures at most one group at each position. */
  lemma MatchAtMeansPattern(s: string, i: nat, g: string)
    requires i <= |s|
    ensures MatchAt(s, i) == Some(g) <==> PatternMatches(s, i, g)
  {
    if MatchAt(s, i) == Some(g) {
      MatchAtSound(s, i);
    }
    if PatternMatches(s, i, g) {
      var j: nat, k: nat :| MatchSplit(s, i, j, k, g);
      MatchAtComplete(s, i, j, k, g);
    }
  }

  lemma {:induction false} IndexFromFinds(s: string, c: char, i: nat, m: nat)
    requires i <= m < |s| && s[m] == c
    requires forall x :: i <= x < m ==> s[x] != c
    ensures IndexFrom(s, c, i) == Some(m)
    decreases m - i
  {
    if i < m {
      IndexFromFinds(s, c, i + 1, m);
    }
  }

  /** re.search: the group of the leftmost match that starts at or after i. */
  function SearchFrom(s: string, i: nat): (r: Option<string>)
    requires i <= |s|
    ensures r.Some? ==> '}' !in r.value
    decreases |s| - i
  {
    var m := MatchAt(s, i);
    if m.Some? then m
    else if i == |s| then None
    else SearchFrom(s, i + 1)
  }

  /** The search comes back empty exactly when no match starts at or after i. */
  lemma {:induction false} SearchFromNone(s: string, i: nat)
    requires i <= |s|
    ensures SearchFrom(s, i).None? <==> forall p :: i <= p <= |s| ==> MatchAt(s, p).None?
    decreases |s| - i
  {
    if MatchAt(s, i).None? && i < |s| {
      SearchFromNone(s, i + 1);
    }
  }

  /** A match starts at p, and none starts between i and p. */
  predicate FirstMatchAt(s: string, i: nat, p: nat) {
    i <= p <= |s| && MatchAt(s, p).Some? && forall q :: i <= q < p ==> MatchAt(s, q).None?
  }

  /** The search returns the group of the leftmost match. */
  lemma {:induction false} SearchFromFirst(s: string, i: nat)
    requires i <= |s| && SearchFrom(s, i).Some?
    ensures exists p :: FirstMatchAt(s, i, p) && MatchAt(s, p) == SearchFrom(s, i)
    decreases |s| - i
  {
    if MatchAt(s, i).None? {
      SearchFromFirst(s, i + 1);
      var p :| FirstMatchAt(s, i + 1, p) && MatchAt(s, p) == SearchFrom(s, i + 1);
      assert FirstMatchAt(s, i, p);
    } else {
      assert FirstMatchAt(s, i, i);
    }
  }

  /** Whitespace stripping never brings in a character that was not there. */
  lemma StripKeepsOut(s: string, c: char)
    requires c !in s
    ensures c !in Strip(s)
  {
    var r := Strip(s);
    StripSpec(s);
    var a: nat :| InfixAmidSpaces(s, r, a);
    forall x | 0 <= x < |r| ensures r[x] != c {
      assert r[x] == s[a + x];
    }
  }

  /** extract_abstract_from_bibtex: the stripped group of the leftmost match,
      or None when the pattern matches nowhere. */
  function ExtractAbstractFromBibtex(s: string): (r: Option<string>)
    ensures r.Some? ==> IsStripped(r.value) && '}' !in r.value
  {
    match SearchFrom(s, 0)
    case None => None
    case Some(g) =>
      StripKeepsOut(g, '}');
      StripSpec(g);
      Some(Strip(g))
  }

  /** What the extraction means in terms of the pattern alone: None exactly
      when no position matches; otherwise the stripped group of a match that no
      match starts before. */
  lemma BibtexLeftmostMatch(s: string)
    ensures ExtractAbstractFromBibtex(s).None? <==> forall p: nat, g :: p <= |s| ==> !PatternMatches(s, p, g)
    ensures ExtractAbstractFromBibtex(s).Some? ==>
              exists p: nat, g :: p <= |s| && PatternMatches(s, p, g) && ExtractAbstractFromBibtex(s).value == Strip(g)
                && forall q: nat, h :: q < p ==> !PatternMatches(s, q, h)
  {
    forall p: nat, g | p <= |s| ensures MatchAt(s, p) == Some(g) <==> PatternMatches(s, p, g) {
      MatchAtMeansPattern(s, p, g);
    }
    SearchFromNone(s, 0);
    if ExtractAbstractFromBibtex(s).Some? {
      var g := SearchFrom(s, 0).value;
      SearchFromFirst(s, 0);
      var p :| FirstMatchAt(s, 0, p) && MatchAt(s, p) == Some(g);
      assert PatternMatches(s, p, g);
    }
  }

  /** The search stops at the leftmost match. */
  lemma {:induction false} SearchFindsFirst(s: string, i: nat, p: nat)
    requires FirstMatchAt(s, i, p)
    ensures SearchFrom(s, i) == MatchAt(s, p)
    decreases p - i
  {
    if i < p {
      assert FirstMatchAt(s, i + 1, p);
      SearchFindsFirst(s, i + 1, p);
    }
  }

  const ExampleEntry := "@article{k, abstract = {Hello world}}"

  /** A match can only start at an 'a' followed by a 'b', in either case. */
  lemma KeywordStart(s: string, p: nat)
    ensures KeywordAt(s, p) ==> MatchesIgnoreCase(s[p], 'a') && MatchesIgnoreCase(s[p + 1], 'b')
  {
    if KeywordAt(s, p) {
      var t := s[p..p + |AbstractKeyword|];
      var w := AbstractKeyword;
      assert w[0] == 'a' && w[1..][0] == 'b';
      assert SpellsIgnoreCase(t, w);
      assert MatchesIgnoreCase(t[0], w[0]) && SpellsIgnoreCase(t[1..], w[1..]);
      assert MatchesIgnoreCase(t[1..][0], w[1..][0]);
      assert t[0] == s[p] && t[1..][0] == s[p + 1];
    }
  }

  lemma ExampleNoEarlierMatch(p: nat)
    requires p < 12
    ensures MatchAt(ExampleEntry, p).None?
  {
    var s := ExampleEntry;
    KeywordStart(s, p);
    assert s[..13] == "@article{k, a";
    assert !MatchesIgnoreCase(s[p], 'a') || !MatchesIgnoreCase(s[p + 1], 'b');
  }

  lemma ExampleKeyword()
    ensures KeywordAt(ExampleEntry, 12)
  {
    var s := ExampleEntry;
    assert s == "@article{k, " + AbstractKeyword + " = {Hello world}}";
    assert s[12..20] == AbstractKeyword;
    SpellsItself(AbstractKeyword);
  }

  lemma ExampleSpaces()
    ensures SkipSpaces(ExampleEntry, 20) == 21 && SkipSpaces(ExampleEntry, 22) == 23
  {
    var s := ExampleEntry;
    assert s[20] == ' ' && s[21] == '=' && s[22] == ' ' && s[23] == '{';
    SkipSpacesStopsAt(s, 20, 21);
    SkipSpacesStopsAt(s, 22, 23);
  }

  lemma ExampleMatch()
    ensures MatchAt(ExampleEntry, 12) == Some("Hello world")
  {
    var s := ExampleEntry;
    var head := "@article{k, abstract = {";
    assert s == head + "Hello world" + "}}";
    assert s[24..35] == "Hello world";
    assert s[21] == '=' && s[23] == '{' && s[35] == '}';
    ExampleKeyword();
    ExampleSpaces();
    IndexFromFinds(s, '}', 24, 35);
  }

  lemma ExampleSearch()
    ensures SearchFrom(ExampleEntry, 0) == Some("Hello world")
  {
    forall p | 0 <= p < 12 ensures MatchAt(ExampleEntry, p).None? {
      ExampleNoEarlierMatch(p);
    }
    ExampleMatch();
    assert FirstMatchAt(ExampleEntry, 0, 12);
    SearchFindsFirst(ExampleEntry, 0, 12);
  }

  /** The example of a one-line BibTeX entry. */
  lemma BibtexExample()
    ensures ExtractAbstractFromBibtex(ExampleEntry) == Some("Hello world")
  {
    ExampleSearch();
    assert LStrip("Hello world") == "Hello world";
    assert RStrip("Hello world") == "Hello world";
  }

  // ---------------------------------------------------------------------------
  // process_pdf_generate_keyword_cloud

  /** The format test: after its leading whitespace, a header that starts with
      '<' is read as TEI XML (parse is ET.fromstring, None for a ParseError),
      one that starts with '@' as BibTeX; any other header has no abstract. */
  function AbstractOf(text: string, parse: string -> Option<Element>): (r: Option<string>)
    ensures r.Some? ==> IsStripped(r.value)
  {
    var t := LStrip(text);
    if StartsWith(t, "<") then ExtractAbstractFromXml(parse(text))
    else if StartsWith(t, "@") then ExtractAbstractFromBibtex(text)
    else None
  }

  /** The first character after the leading whitespace picks the extractor. */
  lemma AbstractDispatch(text: string, parse: string -> Option<Element>)
    ensures LStrip(text) != [] && LStrip(text)[0] == '<' ==> AbstractOf(text, parse) == ExtractAbstractFromXml(parse(text))
    ensures LStrip(text) != [] && LStrip(text)[0] == '@' ==> AbstractOf(text, parse) == ExtractAbstractFromBibtex(text)
    ensures AbstractOf(text, parse).Some? ==> LStrip(text) != [] && (LStrip(text)[0] == '<' || LStrip(text)[0] == '@')
  {
    var t := LStrip(text);
    assert t != [] ==> (StartsWith(t, "<") <==> t[0] == '<');
    assert t != [] ==> (StartsWith(t, "@") <==> t[0] == '@');
  }

  /** The abstract the keyword cloud is drawn from: an extracted, non-empty
      abstract (an empty string is false in Python, like None). */
  predicate Drawable(a: Option<string>) {
    a.Some? && a.value != ""
  }

  /** The answers after which a PDF is never asked for again: a 200 whose
      abstract is drawable and renders. */
  predicate Completes(resp: Response, parse: string -> Option<Element>, renders: string -> bool) {
    IsStatus(resp, 200) && Drawable(AbstractOf(resp.text, parse)) && renders(AbstractOf(resp.text, parse).value)
  }

  /** The files process_pdf_generate_keyword_cloud leaves in folder: on 200, the
      header in tei.xml, then the cloud of the abstract when there is a
      drawable one and WordCloud can draw it (renders is false where WordCloud
      raises, as for a text without words); on any other answer, nothing. */
  function HeaderOutcome(fs: Fs, folder: Path, resp: Response, parse: string -> Option<Element>,
                         renders: string -> bool): Fs
  {
    if IsStatus(resp, 200) then
      var saved := fs.Write(folder + ["tei.xml"], Text(resp.text));
      var a := AbstractOf(resp.text, parse);
      if Drawable(a) && renders(a.value) then saved.Write(folder + ["keyword_cloud.png"], Cloud(a.value))
      else saved
    else fs
  }

  method GenerateKeywordCloud(disk: Disk, folder: Path, resp: Response, parse: string -> Option<Element>,
                              renders: string -> bool)
    requires disk.Valid() && folder in disk.dirs
    modifies disk
    ensures disk.Valid()
    ensures disk.State() == HeaderOutcome(old(disk.State()), folder, resp, parse, renders)
  {
    if resp.Reply? && resp.status == 200 {
      disk.Write(folder + ["tei.xml"], Text(resp.text));
      var abstractText: Option<string> := None;
      var trimmed := LStrip(resp.text);
      if StartsWith(trimmed, "<") {
        abstractText := ExtractAbstractFromXml(parse(resp.text));
      } else if StartsWith(trimmed, "@") {
        abstractText := ExtractAbstractFromBibtex(resp.text);
      }
      if abstractText.Some? && abstractText.value != "" && renders(abstractText.value) {
        disk.Write(folder + ["keyword_cloud.png"], Cloud(abstractText.value));
      }
    }
  }

  /** One header answer keeps the tree valid, makes no folder, deletes no file
      and changes no file but tei.xml and keyword_cloud.png; anything but a 200
      changes nothing. */
  lemma HeaderOutcomeFrame(fs: Fs, folder: Path, resp: Response, parse: string -> Option<Element>,
                           renders: string -> bool)
    requires fs.Valid() && folder in fs.dirs
    ensures HeaderOutcome(fs, folder, resp, parse, renders).Valid()
    ensures HeaderOutcome(fs, folder, resp, parse, renders).dirs == fs.dirs
    ensures fs.files.Keys <= HeaderOutcome(fs, folder, resp, parse, renders).files.Keys
    ensures forall p :: p in fs.files && p != folder + ["tei.xml"] && p != folder + ["keyword_cloud.png"] ==>
              HeaderOutcome(fs, folder, resp, parse, renders).files[p] == fs.files[p]
    ensures !IsStatus(resp, 200) ==> HeaderOutcome(fs, folder, resp, parse, renders) == fs
  {
    var tei := folder + ["tei.xml"];
    var png := folder + ["keyword_cloud.png"];
    assert Parent(tei) == folder && Parent(png) == folder;
    if IsStatus(resp, 200) {
      var saved := fs.Write(tei, Text(resp.text));
      WriteValid(fs, tei, Text(resp.text));
      var a := AbstractOf(resp.text, parse);
      if Drawable(a) && renders(a.value) {
        assert HeaderOutcome(fs, folder, resp, parse, renders) == saved.Write(png, Cloud(a.value));
        WriteValid(saved, png, Cloud(a.value));
      } else {
        assert HeaderOutcome(fs, folder, resp, parse, renders) == saved;
      }
    }
  }

  /** What a 200 leaves behind: tei.xml holds the answer, whether or not an
      abstract comes out of it, and the cloud of the abstract is drawn exactly
      when the answer completes the PDF; otherwise an existing cloud stays. */
  lemma HeaderOutcomeWrites(fs: Fs, folder: Path, resp: Response, parse: string -> Option<Element>,
                            renders: string -> bool)
    requires IsStatus(resp, 200)
    ensures HeaderOutcome(fs, folder, resp, parse, renders).files[folder + ["tei.xml"]] == Text(resp.text)
    ensures Completes(resp, parse, renders) ==>
              HeaderOutcome(fs, folder, resp, parse, renders).files[folder + ["keyword_cloud.png"]]
                == Cloud(AbstractOf(resp.text, parse).value)
    ensures !Completes(resp, parse, renders) ==>
              HeaderOutcome(fs, folder, resp, parse, renders).files == fs.files[folder + ["tei.xml"] := Text(resp.text)]
  {
    assert (folder + ["tei.xml"])[|folder|] != (folder + ["keyword_cloud.png"])[|folder|];
  }

  // ---------------------------------------------------------------------------
  // main

  function KeywordFolder(name: string): Path {
    [BaseName(name), "keyword_cloud"]
  }

  function KeywordTeiFile(name: string): Path {
    KeywordFolder(name) + ["tei.xml"]
  }

  function KeywordCloudFile(name: string): Path {
    KeywordFolder(name) + ["keyword_cloud.png"]
  }

  /** One PDF: skipped when both tei.xml and keyword_cloud.png exist;
      otherwise its keyword_cloud folder is made and the header is asked for. */
  function KeywordStep(fs: Fs, name: string, resp: Response, parse: string -> Option<Element>,
                       renders: string -> bool): Step
  {
    if fs.Exists(KeywordTeiFile(name)) && fs.Exists(KeywordCloudFile(name)) then Step(fs, false)
    else
      var made := fs.MakeDirs(KeywordFolder(name));
      Step(HeaderOutcome(made, KeywordFolder(name), resp, parse, renders), true)
  }

  function KeywordRun(fs: Fs, pdfs: seq<string>, service: string -> Response,
                      parse: string -> Option<Element>, renders: string -> bool): Run
    decreases |pdfs|
  {
    if pdfs == [] then Run(fs, [])
    else
      var name := pdfs[|pdfs| - 1];
      var before := KeywordRun(fs, pdfs[..|pdfs| - 1], service, parse, renders);
      var step := KeywordStep(before.fs, name, service(name), parse, renders);
      Run(step.fs, before.requested + if step.requested then [name] else [])
  }

  method ProcessPdf(disk: Disk, name: string, resp: Response, parse: string -> Option<Element>,
                    renders: string -> bool) returns (requested: bool)
    requires disk.Valid()
    modifies disk
    ensures disk.Valid()
    ensures Step(disk.State(), requested) == KeywordStep(old(disk.State()), name, resp, parse, renders)
  {
    if disk.State().Exists(KeywordTeiFile(name)) && disk.State().Exists(KeywordCloudFile(name)) {
      return false;
    }
    disk.MakeDirs(KeywordFolder(name));
    GenerateKeywordCloud(disk, KeywordFolder(name), resp, parse, renders);
    return true;
  }

  /** main: every listed PDF in listing order; service gives the header
      answer for each PDF during this run. */
  method KeywordMain(disk: Disk, listing: seq<string>, service: string -> Response,
                     parse: string -> Option<Element>, renders: string -> bool) returns (requested: seq<string>)
    requires disk.Valid()
    modifies disk
    ensures disk.Valid()
    ensures Run(disk.State(), requested) == KeywordRun(old(disk.State()), PdfFiles(listing), service, parse, renders)
  {
    var pdfs := PdfFiles(listing);
    requested := [];
    if pdfs == [] {
      return;
    }
    var i := 0;
    while i < |pdfs|
      invariant 0 <= i <= |pdfs|
      invariant disk.Valid()
      invariant Run(disk.State(), requested) == KeywordRun(old(disk.State()), pdfs[..i], service, parse, renders)
    {
      ghost var before := KeywordRun(old(disk.State()), pdfs[..i], service, parse, renders);
      var asked := ProcessPdf(disk, pdfs[i], service(pdfs[i]), parse, renders);
      ghost var step := KeywordStep(before.fs, pdfs[i], service(pdfs[i]), parse, renders);
      assert Step(disk.State(), asked) == step;
      if asked {
        requested := requested + [pdfs[i]];
      }
      assert pdfs[..i + 1][..i] == pdfs[..i];
      assert KeywordRun(old(disk.State()), pdfs[..i + 1], service, parse, renders)
          == Run(step.fs, before.requested + if step.requested then [pdfs[i]] else []);
      i := i + 1;
    }
    assert pdfs[..i] == pdfs;
  }

  // ---------------------------------------------------------------------------
  // Properties of one PDF and of a batch

  /** The skip rule: a PDF is asked for exactly when tei.xml or
      keyword_cloud.png is missing, so tei.xml alone does not stop it; a
      skipped PDF changes nothing. */
  lemma KeywordSkipRule(fs: Fs, name: string, resp: Response, parse: string -> Option<Element>,
                        renders: string -> bool)
    ensures KeywordStep(fs, name, resp, parse, renders).requested <==>
              !fs.Exists(KeywordTeiFile(name)) || !fs.Exists(KeywordCloudFile(name))
    ensures !KeywordStep(fs, name, resp, parse, renders).requested ==> KeywordStep(fs, name, resp, parse, renders).fs == fs
  {
  }

  /** One PDF keeps the tree valid, makes no folder deeper than two levels and
      no top-level folder but its own, deletes nothing, and changes no
      existing file outside its keyword_cloud folder; that folder exists
      afterwards. */
  lemma KeywordStepFrame(fs: Fs, name: string, resp: Response, parse: string -> Option<Element>,
                         renders: string -> bool)
    requires fs.Valid()
    ensures KeywordStep(fs, name, resp, parse, renders).fs.Valid()
    ensures fs.Shallow() ==> KeywordStep(fs, name, resp, parse, renders).fs.Shallow()
    ensures fs.dirs <= KeywordStep(fs, name, resp, parse, renders).fs.dirs
    ensures fs.files.Keys <= KeywordStep(fs, name, resp, parse, renders).fs.files.Keys
    ensures forall p :: p in fs.files && p != KeywordTeiFile(name) && p != KeywordCloudFile(name) ==>
              KeywordStep(fs, name, resp, parse, renders).fs.files[p] == fs.files[p]
    ensures NewDirsShallow(fs, KeywordStep(fs, name, resp, parse, renders).fs)
    ensures NewTopLevelAmong(fs, KeywordStep(fs, name, resp, parse, renders).fs, {BaseName(name)})
    ensures KeywordFolder(name) in KeywordStep(fs, name, resp, parse, renders).fs.dirs
  {
    if !(fs.Exists(KeywordTeiFile(name)) && fs.Exists(KeywordCloudFile(name))) {
      MakeDirsValid(fs, KeywordFolder(name));
      AncestorsNoLonger(KeywordFolder(name));
      MakeDirsTopLevel(fs, KeywordFolder(name));
      if fs.Shallow() {
        MakeDirsShallow(fs, KeywordFolder(name));
      }
      HeaderOutcomeFrame(fs.MakeDirs(KeywordFolder(name)), KeywordFolder(name), resp, parse, renders);
    } else {
      assert Parent(KeywordTeiFile(name)) == KeywordFolder(name);
    }
  }

  /** After one PDF whose answer completes it, both of its files exist. */
  lemma KeywordStepCompletes(fs: Fs, name: string, resp: Response, parse: string -> Option<Element>,
                             renders: string -> bool)
    requires fs.Valid() && Completes(resp, parse, renders)
    ensures KeywordStep(fs, name, resp, parse, renders).fs.Exists(KeywordTeiFile(name))
    ensures KeywordStep(fs, name, resp, parse, renders).fs.Exists(KeywordCloudFile(name))
  {
    if !(fs.Exists(KeywordTeiFile(name)) && fs.Exists(KeywordCloudFile(name))) {
      MakeDirsValid(fs, KeywordFolder(name));
      HeaderOutcomeWrites(fs.MakeDirs(KeywordFolder(name)), KeywordFolder(name), resp, parse, renders);
    }
  }

  /** A batch keeps the tree valid (and shallow when it was), makes no folder
      deeper than two levels and no top-level folder but its PDFs' own, and
      deletes no folder and no file. */
  lemma {:induction false} KeywordRunGrows(fs: Fs, pdfs: seq<string>, service: string -> Response,
                                           parse: string -> Option<Element>, renders: string -> bool)
    requires fs.Valid()
    ensures KeywordRun(fs, pdfs, service, parse, renders).fs.Valid()
    ensures fs.Shallow() ==> KeywordRun(fs, pdfs, service, parse, renders).fs.Shallow()
    ensures fs.dirs <= KeywordRun(fs, pdfs, service, parse, renders).fs.dirs
    ensures fs.files.Keys <= KeywordRun(fs, pdfs, service, parse, renders).fs.files.Keys
    ensures NewDirsShallow(fs, KeywordRun(fs, pdfs, service, parse, renders).fs)
    ensures NewTopLevelAmong(fs, KeywordRun(fs, pdfs, service, parse, renders).fs, BaseNames(pdfs))
    decreases |pdfs|
  {
    if pdfs != [] {
      var name := pdfs[|pdfs| - 1];
      var before := KeywordRun(fs, pdfs[..|pdfs| - 1], service, parse, renders);
      KeywordRunGrows(fs, pdfs[..|pdfs| - 1], service, parse, renders);
      KeywordStepFrame(before.fs, name, service(name), parse, renders);
      BaseNamesGrow(pdfs);
    }
  }

  /** A PDF whose answer completes it during a batch has both files at the end. */
  lemma {:induction false} KeywordRunCompletesOne(fs: Fs, pdfs: seq<string>, n: string, service: string -> Response,
                                                  parse: string -> Option<Element>, renders: string -> bool)
    requires fs.Valid() && n in pdfs && Completes(service(n), parse, renders)
    ensures KeywordRun(fs, pdfs, service, parse, renders).fs.Exists(KeywordTeiFile(n))
    ensures KeywordRun(fs, pdfs, service, parse, renders).fs.Exists(KeywordCloudFile(n))
    decreases |pdfs|
  {
    var name := pdfs[|pdfs| - 1];
    var prefix := pdfs[..|pdfs| - 1];
    assert pdfs == prefix + [name];
    var before := KeywordRun(fs, prefix, service, parse, renders);
    KeywordRunGrows(fs, prefix, service, parse, renders);
    if n == name {
      KeywordStepCompletes(before.fs, name, service(name), parse, renders);
    } else {
      assert n in prefix;
      KeywordRunCompletesOne(fs, prefix, n, service, parse, renders);
      KeywordStepFrame(before.fs, name, service(name), parse, renders);
    }
  }

  /** A batch over PDFs that all have both files asks nothing and changes nothing. */
  lemma {:induction false} KeywordRerunRequestsNothing(fs: Fs, pdfs: seq<string>, service: string -> Response,
                                                       parse: string -> Option<Element>, renders: string -> bool)
    requires forall n :: n in pdfs ==> fs.Exists(KeywordTeiFile(n)) && fs.Exists(KeywordCloudFile(n))
    ensures KeywordRun(fs, pdfs, service, parse, renders) == Run(fs, [])
    decreases |pdfs|
  {
    if pdfs != [] {
      assert forall n :: n in pdfs[..|pdfs| - 1] ==> n in pdfs;
      KeywordRerunRequestsNothing(fs, pdfs[..|pdfs| - 1], service, parse, renders);
    }
  }

  /** Idempotence: once every PDF got a header with a drawable abstract,
      running the script again asks for nothing, whatever the service would
      answer.  The second run lists the PDF folder afresh, so it also sees the
      folders the first run made (extra); they are not taken for PDFs as long
      as no PDF's folder is named like a PDF. */
  lemma KeywordIdempotent(fs: Fs, listing: seq<string>, extra: seq<string>, first: string -> Response,
                          again: string -> Response, parse: string -> Option<Element>, renders: string -> bool)
    requires fs.Valid()
    requires FolderNamesNotPdfs(PdfFiles(listing))
    requires forall n :: n in PdfFiles(listing) ==> Completes(first(n), parse, renders)
    requires NewTopLevelFolders(fs, KeywordRun(fs, PdfFiles(listing), first, parse, renders).fs, extra)
    ensures KeywordRun(KeywordRun(fs, PdfFiles(listing), first, parse, renders).fs, PdfFiles(listing + extra),
                       again, parse, renders).requested == []
  {
    var pdfs := PdfFiles(listing);
    var after := KeywordRun(fs, pdfs, first, parse, renders).fs;
    forall n | n in pdfs ensures after.Exists(KeywordTeiFile(n)) && after.Exists(KeywordCloudFile(n)) {
      KeywordRunCompletesOne(fs, pdfs, n, first, parse, renders);
    }
    KeywordRunGrows(fs, pdfs, first, parse, renders);
    NewFoldersAmong(fs, after, BaseNames(pdfs), extra);
    RelistSelectsSame(listing, extra);
    KeywordRerunRequestsNothing(after, pdfs, again, parse, renders);
  }
}
