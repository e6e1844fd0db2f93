/**
  The export pipeline: choosing the reference document and the Lua filter
  from the front matter, post-processing the DOCX produced by pandoc, the
  file name of the export, and the decision logic of one export run with the
  external tools as given outcomes.
 */
module Export {
  import opened Opt
  import opened Text
  import opened Frontmatter
  import opened Sources
  import opened Naming

  /** `yaml.get(key, "")`. */
  function Get(yaml: Yaml, key: string): string {
    if key in yaml then yaml[key] else ""
  }

  // ------------------------------------------------------------ lua filter

  /** The three filters pandoc is run with. */
  datatype Filter = Coverpage | RunningHeader | Basic

  /** Headers are replaced by empty ones unless the style is MLA. */
  predicate StripsHeaders(yaml: Yaml) {
    Get(yaml, "style") != "mla"
  }

  /** Footers are replaced by empty ones only for MLA. */
  predicate StripsFooters(yaml: Yaml) {
    Get(yaml, "style") == "mla"
  }

  /**
    `_generate_lua_filter`: Chicago gets the cover page, MLA the running
    header, everything else the basic filter. The running header is chosen
    exactly when post-processing keeps the headers, so the header it writes
    is the one that survives.
   */
  function FilterFor(yaml: Yaml): (f: Filter)
    ensures f == Coverpage <==> Get(yaml, "style") == "chicago"
    ensures f == RunningHeader <==> !StripsHeaders(yaml)
    ensures f == RunningHeader <==> StripsFooters(yaml)
  {
    var style := Get(yaml, "style");
    if style == "chicago" then Coverpage
    else if style == "mla" then RunningHeader
    else Basic
  }

  // ------------------------------------------------------ reference document

  const DefaultSpacing := "double"

  predicate IsDocx(name: string) {
    EndsWith(name, ".docx")
  }

  /** The first `.docx` name in sorted order, if the listing has one. */
  function LeastDocx(names: seq<string>): (r: Option<string>)
    ensures r.None? <==> forall n :: n in names ==> !IsDocx(n)
    ensures r.Some? ==> r.value in names && IsDocx(r.value)
    ensures r.Some? ==> forall n :: n in names && IsDocx(n) ==> LexLe(r.value, n)
  {
    if names == [] then None
    else
      var rest := LeastDocx(names[1..]);
      assert forall n :: n in names ==> n == names[0] || n in names[1..];
      if !IsDocx(names[0]) then rest
      else if rest.None? then
        LexLeTotal(names[0], names[0]);
        assert names[0] in names;
        Some(names[0])
      else if LexLe(names[0], rest.value) then
        assert names[0] in names;
        LexLeTotal(names[0], names[0]);
        LeastBelow(names[0], rest.value, names[1..]);
        Some(names[0])
      else
        LexLeTotal(names[0], rest.value);
        rest
  }

  lemma LeastBelow(m: string, least: string, names: seq<string>)
    requires LexLe(m, least)
    requires forall n :: n in names && IsDocx(n) ==> LexLe(least, n)
    ensures forall n :: n in names && IsDocx(n) ==> LexLe(m, n)
  {
    forall n | n in names && IsDocx(n) ensures LexLe(m, n) {
      LexLeTransitive(m, least, n);
    }
  }

  /**
    `resolve_reference_doc`. `refs` lists the names in the reference
    directory, or is `None` when that directory does not exist. The file
    named by `spacing:` wins, then `double.docx`, then the first `.docx`
    in sorted order.
   */
  function ResolveReferenceDoc(yaml: Yaml, refs: Option<seq<string>>): (r: Option<string>)
    ensures refs.None? ==> r.None?
    ensures r.Some? ==> refs.Some? && r.value in refs.value && IsDocx(r.value)
  {
    match refs
    case None => None
    case Some(names) =>
      var spacing := Get(yaml, "spacing");
      if spacing != "" && spacing + ".docx" in names then
        Appended(spacing, ".docx");
        Some(spacing + ".docx")
      else if DefaultSpacing + ".docx" in names then
        Some(DefaultSpacing + ".docx")
      else LeastDocx(names)
  }

  /**
    The order of preference: the `spacing:` file when it exists, else
    `double.docx` when it exists, else the least `.docx` name; nothing only
    when the directory holds no `.docx` at all.
   */
  lemma ResolvePreference(yaml: Yaml, names: seq<string>)
    ensures var r := ResolveReferenceDoc(yaml, Some(names));
            var wanted := Get(yaml, "spacing") + ".docx";
            (r.None? <==> forall n :: n in names ==> !IsDocx(n))
            && (Get(yaml, "spacing") != "" && wanted in names ==> r == Some(wanted))
            && (!(Get(yaml, "spacing") != "" && wanted in names) && DefaultSpacing + ".docx" in names
                ==> r == Some(DefaultSpacing + ".docx"))
            && (r.Some? && r.value != wanted && r.value != DefaultSpacing + ".docx"
                ==> forall n :: n in names && IsDocx(n) ==> LexLe(r.value, n))
  {
    var spacing := Get(yaml, "spacing");
    if !(spacing != "" && spacing + ".docx" in names) && DefaultSpacing + ".docx" in names {
      Appended(DefaultSpacing, ".docx");
    }
  }

  /** Two listings with the same names resolve alike: directory order does not matter. */
  lemma ResolveIgnoresListingOrder(yaml: Yaml, a: seq<string>, b: seq<string>)
    requires forall n :: n in a <==> n in b
    ensures ResolveReferenceDoc(yaml, Some(a)) == ResolveReferenceDoc(yaml, Some(b))
  {
    LeastDocxIgnoresOrder(a, b);
    var spacing := Get(yaml, "spacing");
    assert spacing + ".docx" in a <==> spacing + ".docx" in b;
    assert DefaultSpacing + ".docx" in a <==> DefaultSpacing + ".docx" in b;
  }

  /** The least `.docx` name depends only on which names are listed. */
  lemma LeastDocxIgnoresOrder(a: seq<string>, b: seq<string>)
    requires forall n :: n in a <==> n in b
    ensures LeastDocx(a) == LeastDocx(b)
  {
    var la, lb := LeastDocx(a), LeastDocx(b);
    if la.Some? && lb.Some? {
      LexLeAntisymmetric(la.value, lb.value);
    }
  }

  // --------------------------------------------------------- post-processing

  /** One member of the DOCX archive, with its contents as text. */
  datatype Part = Part(name: string, data: string)

  const EmptyHeaderXml := "<?xml version=\"1.0\" encoding=\"UTF-8\" standalone=\"yes\"?>\n"
    + "<w:hdr xmlns:w=\"http://schemas.openxmlformats.org/wordprocessingml/2006/main\">\n"
    + "  <w:p>\n    <w:pPr>\n      <w:pStyle w:val=\"Header\"/>\n    </w:pPr>\n  </w:p>\n</w:hdr>"

  const EmptyFooterXml := "<?xml version=\"1.0\" encoding=\"UTF-8\" standalone=\"yes\"?>\n"
    + "<w:ftr xmlns:w=\"http://schemas.openxmlformats.org/wordprocessingml/2006/main\">\n"
    + "  <w:p>\n    <w:pPr>\n      <w:pStyle w:val=\"Footer\"/>\n    </w:pPr>\n  </w:p>\n</w:ftr>"

  /** End of the run of decimal digits starting at `i`. */
  function DigitsEnd(s: string, i: nat): (k: nat)
    requires i <= |s|
    ensures i <= k <= |s|
    ensures forall j :: i <= j < k ==> IsDigit(s[j])
    ensures k == |s| || !IsDigit(s[k])
    decreases |s| - i
  {
    if i == |s| || !IsDigit(s[i]) then i else DigitsEnd(s, i + 1)
  }

  /** `re.match(stem + r"\d*\.xml", name)`: a prefix match, so anything may follow. */
  predicate PartNamed(name: string, stem: string) {
    StartsWith(name, stem) && StartsWith(name[DigitsEnd(name, |stem|)..], ".xml")
  }

  predicate IsHeader(name: string) {
    PartNamed(name, "word/header")
  }

  predicate IsFooter(name: string) {
    PartNamed(name, "word/footer")
  }

  /** The numbered header and footer parts Word writes are recognised, and kept apart. */
  lemma NumberedPartsRecognised(n: nat)
    ensures IsHeader("word/header" + NatToString(n) + ".xml")
    ensures IsFooter("word/footer" + NatToString(n) + ".xml")
    ensures !IsFooter("word/header" + NatToString(n) + ".xml")
    ensures !IsHeader("word/footer" + NatToString(n) + ".xml")
  {
    NumberedPart("word/header", n);
    NumberedPart("word/footer", n);
    OtherStem("word/header", "word/footer", NatToString(n));
    OtherStem("word/footer", "word/header", NatToString(n));
  }

  /** A part named after one stem is not named after another stem of the same length. */
  lemma OtherStem(stem: string, other: string, d: string)
    requires |stem| == |other| && stem != other
    ensures !PartNamed(stem + d + ".xml", other)
  {
    assert (stem + d + ".xml")[..|stem|] == stem;
  }

  lemma NumberedPart(stem: string, n: nat)
    ensures PartNamed(stem + NatToString(n) + ".xml", stem)
  {
    var d := NatToString(n);
    var name := stem + d + ".xml";
    DigitsOver(name, |stem|, |stem| + |d|);
    assert name[|stem| + |d|..] == ".xml";
    Appended(stem, d + ".xml");
    assert name == stem + (d + ".xml");
  }

  lemma {:induction false} DigitsOver(s: string, i: nat, k: nat)
    requires i <= k < |s| && !IsDigit(s[k])
    requires forall j :: i <= j < k ==> IsDigit(s[j])
    ensures DigitsEnd(s, i) == k
    decreases k - i
  {
    if i < k {
      DigitsOver(s, i + 1, k);
    }
  }

  /**
    The surname for `{{LASTNAME}}`: the `lastname:` field, else the last
    word of `author:`, else nothing.
   */
  function Lastname(yaml: Yaml): (r: string)
    ensures Get(yaml, "lastname") != "" ==> r == Get(yaml, "lastname")
    ensures Get(yaml, "lastname") == "" && !AllSpace(Get(yaml, "author"))
            ==> IsWord(r) && r == LastWord(Get(yaml, "author"))
    ensures r == "" <==> Get(yaml, "lastname") == "" && AllSpace(Get(yaml, "author"))
  {
    var lastname := Get(yaml, "lastname");
    var author := Get(yaml, "author");
    if lastname == "" && author != "" then
      (if !AllSpace(author) then LastWord(author) else "")
    else lastname
  }

  const Placeholder := "{{LASTNAME}}"

  /**
    The placeholder substitution, for any pattern `p`: `p` followed by a
    space is replaced first, so that with no surname the space goes too;
    then any remaining `p`.
   */
  function Substitute(text: string, p: string, lastname: string): (r: string)
    requires p != []
    ensures !Contains(text, p) ==> r == text
  {
    if !Contains(text, p) then
      SpacedImpliesBare(text, p);
      ReplaceAbsent(text, p + " ", Spaced(lastname));
      ReplaceAbsent(text, p, lastname);
      Replace(Replace(text, p + " ", Spaced(lastname)), p, lastname)
    else
      Replace(Replace(text, p + " ", Spaced(lastname)), p, lastname)
  }

  /** What a placeholder followed by a space becomes. */
  function Spaced(lastname: string): string {
    if lastname != "" then lastname + " " else ""
  }

  /** The substitution of `{{LASTNAME}}` done in headers and footers. */
  function Fill(text: string, lastname: string): string {
    Substitute(text, Placeholder, lastname)
  }

  lemma SpacedImpliesBare(text: string, p: string)
    ensures !Contains(text, p) ==> !Contains(text, p + " ")
  {
    if Contains(text, p + " ") {
      var k :| 0 <= k <= |text| - |p + " "| && OccursAt(text, p + " ", k);
      assert text[k..k + |p|] == text[k..k + |p| + 1][..|p|];
      assert OccursAt(text, p, k);
    }
  }

  /** Text that cannot start the pattern passes through `Replace` untouched. */
  lemma {:induction false} ReplaceSkip(a: string, rest: string, p: string, r: string)
    requires p != [] && p[0] !in a
    ensures Replace(a + rest, p, r) == a + Replace(rest, p, r)
    decreases |a|
  {
    var s := a + rest;
    if a == [] {
      assert s == rest;
    } else if |s| < |p| {
      ReplaceShort(rest, p, r);
    } else {
      assert s[1..] == a[1..] + rest;
      ReplaceSkip(a[1..], rest, p, r);
      assert s[..|p|][0] == a[0];
      assert Replace(s, p, r) == [a[0]] + Replace(a[1..] + rest, p, r);
      assert [a[0]] + (a[1..] + Replace(rest, p, r)) == a + Replace(rest, p, r);
    }
  }

  lemma ReplaceShort(s: string, p: string, r: string)
    requires p != [] && |s| < |p|
    ensures Replace(s, p, r) == s
  {
  }

  lemma ReplaceHead(p: string, rest: string, r: string)
    requires p != []
    ensures Replace(p + rest, p, r) == r + Replace(rest, p, r)
  {
    assert (p + rest)[..|p|] == p && (p + rest)[|p|..] == rest;
  }

  /** Text without the pattern's first character is left as it is. */
  lemma ReplaceFree(s: string, p: string, r: string)
    requires p != [] && p[0] !in s
    ensures Replace(s, p, r) == s
  {
    ReplaceSkip(s, [], p, r);
    assert s + [] == s;
  }

  lemma SubstituteSpaced(a: string, b: string, p: string, lastname: string)
    requires p != [] && p[0] != ' ' && p[0] !in a && p[0] !in b && p[0] !in lastname
    ensures Substitute(a + (p + " ") + b, p, lastname) == a + Spaced(lastname) + b
  {
    FirstPass(a, b, p + " ", Spaced(lastname));
    SecondPass(a, Spaced(lastname), b, p, lastname);
  }

  lemma FirstPass(a: string, b: string, q: string, spaced: string)
    requires q != [] && q[0] !in a && q[0] !in b
    ensures Replace(a + q + b, q, spaced) == a + spaced + b
  {
    assert a + q + b == a + (q + b);
    ReplaceSkip(a, q + b, q, spaced);
    ReplaceHead(q, b, spaced);
    ReplaceFree(b, q, spaced);
  }

  lemma SecondPass(a: string, spaced: string, b: string, p: string, lastname: string)
    requires p != [] && p[0] !in a && p[0] !in spaced && p[0] !in b
    ensures Replace(a + spaced + b, p, lastname) == a + spaced + b
  {
    ReplaceFree(a + spaced + b, p, lastname);
  }

  lemma SubstituteAtEnd(a: string, p: string, lastname: string)
    requires p != [] && p[0] !in a && p[0] !in lastname
    ensures Substitute(a + p, p, lastname) == a + lastname
  {
    ReplaceSkip(a, p, p + " ", Spaced(lastname));
    ReplaceShort(p, p + " ", Spaced(lastname));
    ReplaceSkip(a, p, p, lastname);
    ReplaceHead(p, [], lastname);
    assert p + [] == p;
    assert a + lastname + [] == a + lastname;
  }

  /**
    A placeholder followed by a space becomes the surname and the space, or
    disappears together with the space when there is no surname.
   */
  lemma FillSpaced(a: string, b: string, lastname: string)
    requires '{' !in a && '{' !in b && '{' !in lastname
    ensures Fill(a + Placeholder + " " + b, lastname)
            == if lastname != "" then a + lastname + " " + b else a + b
  {
    assert a + Placeholder + " " + b == a + (Placeholder + " ") + b;
    SubstituteSpaced(a, b, Placeholder, lastname);
  }

  /** A placeholder at the very end becomes the surname. */
  lemma FillAtEnd(a: string, lastname: string)
    requires '{' !in a && '{' !in lastname
    ensures Fill(a + Placeholder, lastname) == a + lastname
  {
    SubstituteAtEnd(a, Placeholder, lastname);
  }

  /** `_postprocess_docx` on one archive member. */
  function Rewrite(part: Part, yaml: Yaml): Part {
    if StripsHeaders(yaml) && IsHeader(part.name) then part.(data := EmptyHeaderXml)
    else if StripsFooters(yaml) && IsFooter(part.name) then part.(data := EmptyFooterXml)
    else if IsHeader(part.name) || IsFooter(part.name) then part.(data := Fill(part.data, Lastname(yaml)))
    else part
  }

  /**
    `_postprocess_docx`: every member keeps its name and place; members other
    than headers and footers are untouched; headers are emptied unless the
    style is MLA, footers only when it is; the survivors get the surname.
   */
  function Postprocess(parts: seq<Part>, yaml: Yaml): (r: seq<Part>)
    ensures |r| == |parts|
    ensures forall i :: 0 <= i < |r| ==> r[i].name == parts[i].name
    ensures forall i :: 0 <= i < |r| && !IsHeader(parts[i].name) && !IsFooter(parts[i].name) ==> r[i] == parts[i]
    ensures forall i :: 0 <= i < |r| && IsHeader(parts[i].name) ==>
              r[i].data == (if StripsHeaders(yaml) then EmptyHeaderXml else Fill(parts[i].data, Lastname(yaml)))
    ensures forall i :: 0 <= i < |r| && IsFooter(parts[i].name) ==>
              r[i].data == (if StripsFooters(yaml) then EmptyFooterXml else Fill(parts[i].data, Lastname(yaml)))
  {
    forall n ensures !(IsHeader(n) && IsFooter(n)) {
      assert "word/header"[5] != "word/footer"[5];
    }
    seq(|parts|, i requires 0 <= i < |parts| => Rewrite(parts[i], yaml))
  }

  // -------------------------------------------------------------- file name

  /** Spaces made `_`, then the first 50 characters. */
  function Underscore(c: string): (s: string)
    ensures |s| <= 50 && |s| <= |c| && ' ' !in s
    ensures s == [] <==> c == []
    ensures forall i :: 0 <= i < |s| ==> s[i] == (if c[i] == ' ' then '_' else c[i])
  {
    var m := MapChar(c, ' ', '_');
    var s := Take(m, 50);
    assert forall i :: 0 <= i < |s| ==> s[i] == m[i];
    s
  }

  /** `s or "export"`. */
  function OrExport(s: string): (r: string)
    requires |s| <= 50 && ' ' !in s
    ensures r != [] && |r| <= 50 && ' ' !in r
    ensures r == if s == [] then "export" else s
  {
    if s == [] then "export" else s
  }

  /**
    The export's file name: the cleaned name with spaces made `_`, cut to
    50 characters, and `export` when nothing is left.
   */
  function SafeName(name: string, isWord: char -> bool): (r: string)
    ensures r != [] && |r| <= 50 && ' ' !in r
    ensures Cleaned(name, isWord) == [] ==> r == "export"
  {
    OrExport(Underscore(Cleaned(name, isWord)))
  }

  /** Unless it is the fallback, the name holds only `[\w\s-]` and the `_` put for spaces. */
  lemma SafeNameChars(name: string, isWord: char -> bool)
    requires Cleaned(name, isWord) != []
    ensures var r := SafeName(name, isWord);
            forall i :: 0 <= i < |r| ==> NameChar(r[i], isWord) || r[i] == '_'
  {
    var c := Cleaned(name, isWord);
    var r := Underscore(c);
    forall i | 0 <= i < |r| ensures NameChar(r[i], isWord) || r[i] == '_' {
      assert NameChar(c[i], isWord);
    }
  }

  /** A name already made of word characters and `-`, short enough, is used as it is. */
  lemma SafeNameKeepsClean(name: string, isWord: char -> bool)
    requires name != [] && |name| <= 50
    requires forall i :: 0 <= i < |name| ==> (isWord(name[i]) || name[i] == '-') && !IsSpace(name[i])
    ensures SafeName(name, isWord) == name
  {
    assert forall i :: 0 <= i < |name| ==> NameChar(name[i], isWord);
    KeepAll(name, isWord);
    StripUnchanged(name);
    assert ' ' !in name by {
      assert IsSpace(' ');
    }
    MapCharAbsent(name, ' ', '_');
  }

  lemma MapCharAbsent(s: string, a: char, b: char)
    requires a !in s
    ensures MapChar(s, a, b) == s
  {
  }

  // ------------------------------------------------------------- export run

  datatype Format = Pdf | Docx | Markdown

  datatype Level = Information | Warning | Failure

  /** A notification shown to the user. */
  datatype Note = Note(level: Level, message: string)

  /** How an external program run ended. */
  datatype Run = Exited(code: int, stderr: string) | TimedOut

  predicate Succeeded(run: Run) {
    run.Exited? && run.code == 0
  }

  /**
    What the run finds outside the program: the tool paths found (if any),
    the reference directory listing, how pandoc and LibreOffice end, the
    archive pandoc writes, and the files the export folder already holds.
   */
  datatype World = World(
    pandoc: Option<string>,
    office: Option<string>,
    refs: Option<seq<string>>,
    pandocRun: Run,
    officeRun: Run,
    written: seq<Part>,
    existing: set<string>)

  /** The directories involved, without trailing separators. */
  datatype Dirs = Dirs(exports: string, refs: string)

  /**
    The files of one run: the intermediate Markdown and filter files, named
    after the project id, and the three possible outputs, named after the
    export name.
   */
  datatype Names = Names(
    dirs: Dirs,
    markdown: string,
    filter: string,
    docx: string,
    pdf: string,
    md: string)

  function NamesFor(id: string, dirs: Dirs, safe: string): Names {
    Names(dirs, In(dirs.exports, id + ".md"), In(dirs.exports, id + "_filter.lua"),
          In(dirs.exports, safe + ".docx"), In(dirs.exports, safe + ".pdf"), In(dirs.exports, safe + ".md"))
  }

  /** Each file name ends with its own extension. */
  predicate Distinguished(n: Names) {
    EndsWith(n.markdown, ".md") && EndsWith(n.filter, ".lua") && EndsWith(n.docx, ".docx")
    && EndsWith(n.pdf, ".pdf") && EndsWith(n.md, ".md")
  }

  lemma NamesForDistinguished(id: string, dirs: Dirs, safe: string)
    ensures Distinguished(NamesFor(id, dirs, safe))
  {
    InEndsWith(dirs.exports, id, ".md");
    InEndsWith(dirs.exports, id, "_filter.lua");
    InEndsWith(dirs.exports, safe, ".docx");
    InEndsWith(dirs.exports, safe, ".pdf");
    InEndsWith(dirs.exports, safe, ".md");
  }

  /** A file named with an extension ends with it, whatever folder it is in. */
  lemma InEndsWith(dir: string, base: string, ext: string)
    ensures EndsWith(In(dir, base + ext), ext)
  {
    assert In(dir, base + ext) == (dir + "/" + base) + ext;
    Appended(dir + "/" + base, ext);
  }

  /**
    What a run did: its notifications, the commands it ran, the text written
    to a Markdown output, the post-processed archive, the files it created,
    those of them it leaves behind, and the export folder's files afterwards.
   */
  datatype Outcome = Outcome(
    notes: seq<Note>,
    markdown: Option<string>,
    pandocArgs: Option<seq<string>>,
    officeArgs: Option<seq<string>>,
    document: Option<seq<Part>>,
    created: set<string>,
    kept: set<string>,
    disk: set<string>)

  /**
    The clean-up list of the `finally` clause that every DOCX or PDF run
    reaching its temporary files goes through: the intermediate Markdown and
    filter files, and for PDF also the archive.
   */
  function Cleanup(fmt: Format, n: Names): set<string> {
    {n.markdown, n.filter} + (if fmt == Pdf then {n.docx} else {})
  }

  /** The file a run of the given format is meant to produce. */
  function Target(n: Names, fmt: Format): string {
    match fmt
    case Pdf => n.pdf
    case Docx => n.docx
    case Markdown => n.md
  }

  /** The options after the input file; `--citeproc` only when asked for. */
  function PandocOptions(ref: string, filter: string, cite: bool, output: string): (a: seq<string>)
    requires EndsWith(output, ".docx")
    ensures |a| >= 5 && a[|a| - 2..] == ["-o", output]
    ensures "--citeproc" in a <==> cite
  {
    var base := ["--standalone", "--reference-doc=" + ref, "--lua-filter=" + filter];
    var tail := ["-o", output];
    var a := base + (if cite then ["--citeproc"] else []) + tail;
    NotCiteproc(ref, filter, output);
    assert !cite ==> a == [base[0], base[1], base[2], tail[0], tail[1]];
    assert cite ==> a[3] == "--citeproc";
    a
  }

  lemma NotCiteproc(ref: string, filter: string, output: string)
    requires EndsWith(output, ".docx")
    ensures "--standalone" != "--citeproc"
    ensures "--reference-doc=" + ref != "--citeproc"
    ensures "--lua-filter=" + filter != "--citeproc"
    ensures "-o" != "--citeproc" && output != "--citeproc"
  {
    assert |"--citeproc"| == 10 && |"--standalone"| == 12 && |"-o"| == 2;
    assert |"--reference-doc=" + ref| >= 16 && |"--lua-filter=" + filter| >= 13;
    if |output| == 10 {
      assert output[9] == 'x' && "--citeproc"[9] == 'c';
    }
  }

  /** The pandoc command line: the tool, the Markdown file, then the options. */
  function PandocArgs(pandoc: string, n: Names, ref: string, yaml: Yaml): (a: seq<string>)
    requires EndsWith(n.docx, ".docx")
    ensures |a| >= 7 && a[0] == pandoc && a[1] == n.markdown
    ensures a[|a| - 2..] == ["-o", n.docx]
    ensures "--citeproc" in a[2..] <==> "bibliography" in yaml
  {
    var options := PandocOptions(In(n.dirs.refs, ref), n.filter, "bibliography" in yaml, n.docx);
    var a := [pandoc, n.markdown] + options;
    assert a[2..] == options;
    a
  }

  function Converting(fmt: Format): Note {
    Note(Information, if fmt == Pdf then "Converting to PDF\U{2026}" else "Converting to DOCX\U{2026}")
  }

  /** The notification for a failed tool: `<tool> error: ` and the first 200 characters of its stderr. */
  function ToolError(tool: string, run: Run): Note
    requires !Succeeded(run)
  {
    match run
    case TimedOut => Note(Failure, "Export timed out.")
    case Exited(_, stderr) => Note(Failure, tool + " error: " + Take(stderr, 200))
  }

  function Last(o: Outcome): Note
    requires o.notes != []
  {
    o.notes[|o.notes| - 1]
  }

  /**
    How a run reports: it ends with one notification, which is the success
    message exactly when the target was produced, and a warning or error
    exactly when nothing was; nothing but the target is left behind.
   */
  predicate Reported(o: Outcome, target: string) {
    o.notes != [] && o.kept <= {target}
    && (o.kept != {} <==> Last(o) == Note(Information, "Exported to " + target))
    && (o.kept == {} <==> Last(o).level != Information)
  }

  /** What stops a DOCX or PDF run before any file is written, or the reference document to use. */
  datatype Step = Halt(note: Note) | Proceed(ref: string)

  function Preflight(fmt: Format, yaml: Yaml, world: World): (s: Step)
    ensures s.Halt? ==> s.note.level != Information
    ensures s.Proceed? <==> world.pandoc.Some? && (fmt == Pdf ==> world.office.Some?)
                            && ResolveReferenceDoc(yaml, world.refs).Some?
    ensures s.Proceed? ==> ResolveReferenceDoc(yaml, world.refs) == Some(s.ref)
  {
    if world.pandoc.None? then
      Halt(Note(Warning, "Pandoc not found. Install pandoc for export."))
    else if fmt == Pdf && world.office.None? then
      Halt(Note(Warning, "LibreOffice not found. Install LibreOffice for PDF export."))
    else
      match ResolveReferenceDoc(yaml, world.refs)
      case None => Halt(Note(Failure, "No reference .docx found in refs/ directory."))
      case Some(ref) => Proceed(ref)
  }

  /**
    After pandoc wrote the archive: a DOCX run is done; a PDF run hands the
    archive to LibreOffice, which writes the PDF when it succeeds. The last
    notification is the success message exactly when the target now exists.
   */
  function Finish(ran: Outcome, fmt: Format, n: Names, world: World): (o: Outcome)
    requires fmt != Markdown && (fmt == Pdf ==> world.office.Some?)
    requires n.docx in ran.created && n.pdf !in ran.created && ran.officeArgs.None?
    ensures o.notes != [] && Last(o).level == Information <==> Target(n, fmt) in o.created
    ensures Target(n, fmt) in o.created ==> Last(o) == Note(Information, "Exported to " + Target(n, fmt))
    ensures o.officeArgs.Some? <==> fmt == Pdf
    ensures Target(n, fmt) in o.created <==> fmt == Docx || Succeeded(world.officeRun)
    ensures o.created - ran.created <= {Target(n, fmt)}
    ensures o.(notes := ran.notes, officeArgs := None, created := ran.created) == ran
  {
    var done := Note(Information, "Exported to " + Target(n, fmt));
    if fmt == Docx then
      ran.(notes := [Converting(fmt), done])
    else
      var office := [world.office.value, "--headless", "--convert-to", "pdf",
                     "--outdir", n.dirs.exports, n.docx];
      var handed := ran.(officeArgs := Some(office));
      if !Succeeded(world.officeRun) then
        handed.(notes := [Converting(fmt), ToolError("LibreOffice", world.officeRun)])
      else
        handed.(notes := [Converting(fmt), done], created := ran.created + {n.pdf})
  }

  /**
    The `try` block and its `finally`: the Markdown and filter files are
    written, pandoc runs and, when it succeeds, writes the archive, which is
    post-processed before finishing; whatever happened, the files of the
    clean-up list are then removed, whether this run wrote them or they were
    there before.
   */
  function Convert(fmt: Format, n: Names, yaml: Yaml, world: World, ref: string): (o: Outcome)
    requires fmt != Markdown && world.pandoc.Some? && (fmt == Pdf ==> world.office.Some?)
    requires Distinguished(n)
    ensures Reported(o, Target(n, fmt))
    ensures o.pandocArgs == Some(PandocArgs(world.pandoc.value, n, ref, yaml))
    ensures o.officeArgs.Some? <==> fmt == Pdf && Succeeded(world.pandocRun)
    ensures o.document.Some? <==> Succeeded(world.pandocRun)
    ensures o.document.Some? ==> o.document.value == Postprocess(world.written, yaml)
    ensures {n.markdown, n.filter} <= o.created
    ensures n.docx in o.created <==> Succeeded(world.pandocRun)
    ensures n.pdf in o.created <==> fmt == Pdf && Succeeded(world.pandocRun) && Succeeded(world.officeRun)
    ensures o.kept == o.created - Cleanup(fmt, n)
    ensures o.disk == (world.existing + o.created) - Cleanup(fmt, n)
    ensures o.kept != {} <==> Succeeded(world.pandocRun) && (fmt == Docx || Succeeded(world.officeRun))
  {
    var ran := Outcome([], None, Some(PandocArgs(world.pandoc.value, n, ref, yaml)), None, None,
                       {n.markdown, n.filter}, {}, world.existing);
    EndingsDiffer(n.markdown, n.docx, ".md", ".docx");
    EndingsDiffer(n.filter, n.docx, ".lua", ".docx");
    EndingsDiffer(n.markdown, n.pdf, ".md", ".pdf");
    EndingsDiffer(n.filter, n.pdf, ".lua", ".pdf");
    EndingsDiffer(n.docx, n.pdf, ".docx", ".pdf");
    var after :=
      if !Succeeded(world.pandocRun) then
        ran.(notes := [Converting(fmt), ToolError("Pandoc", world.pandocRun)])
      else
        Finish(ran.(document := Some(Postprocess(world.written, yaml)),
                    created := ran.created + {n.docx}), fmt, n, world);
    after.(kept := after.created - Cleanup(fmt, n),
           disk := (world.existing + after.created) - Cleanup(fmt, n))
  }

  /**
    `_run_export` for the three formats, on the project text and the run's
    file names. Markdown is written directly. For DOCX and PDF the tools are
    looked up first, then the reference document; pandoc converts, the
    archive is post-processed, and for PDF LibreOffice converts the archive.
    The intermediate Markdown and filter files, and for PDF the archive, are
    removed whatever happens; an output is kept only when its step succeeds.
   */
  function Export(content: string, fmt: Format, n: Names, world: World): (o: Outcome)
    requires Distinguished(n)
    ensures Reported(o, Target(n, fmt))
    ensures fmt == Markdown <==> o.markdown.Some?
    ensures fmt == Markdown ==> o.markdown == Some(content) && o.kept == {n.md} && o.pandocArgs.None?
    ensures o.pandocArgs.Some? ==>
              var a := o.pandocArgs.value;
              |a| >= 7 && a[1] == n.markdown && a[|a| - 2..] == ["-o", n.docx]
              && ("--citeproc" in a[2..] <==> "bibliography" in ParseFrontmatter(content))
    ensures o.officeArgs.Some? ==> fmt == Pdf && o.pandocArgs.Some? && Succeeded(world.pandocRun)
    ensures o.document.Some? ==> o.document.value == Postprocess(world.written, ParseFrontmatter(content))
    ensures fmt == Markdown ==> o.kept == o.created
    ensures fmt != Markdown ==> o.kept == o.created - Cleanup(fmt, n)
    ensures fmt == Markdown ==> o.disk == world.existing + o.created
    ensures fmt != Markdown && o.created == {} ==> o.disk == world.existing
    ensures fmt != Markdown && o.created != {} ==> o.disk == (world.existing + o.created) - Cleanup(fmt, n)
  {
    if fmt == Markdown then WriteMarkdown(content, n, world.existing)
    else
      var yaml := ParseFrontmatter(content);
      match Preflight(fmt, yaml, world)
      case Halt(note) => Halted(note, Target(n, fmt), world.existing)
      case Proceed(ref) => Convert(fmt, n, yaml, world, ref)
  }

  /** The Markdown branch: the text goes to the `.md` output as it is. */
  function WriteMarkdown(content: string, n: Names, existing: set<string>): (o: Outcome)
    ensures Reported(o, Target(n, Markdown))
    ensures o.markdown == Some(content) && o.created == o.kept == {n.md}
    ensures o.disk == existing + {n.md}
    ensures o.pandocArgs.None? && o.officeArgs.None? && o.document.None?
  {
    Outcome([Note(Information, "Exported to " + n.md)], Some(content), None, None, None, {n.md}, {n.md}, existing + {n.md})
  }

  /** A run stopped before any file is written: only its one notification. */
  function Halted(note: Note, target: string, existing: set<string>): (o: Outcome)
    requires note.level != Information
    ensures Reported(o, target) && o.created == o.kept == {} && o.disk == existing
    ensures o.markdown.None? && o.pandocArgs.None? && o.officeArgs.None? && o.document.None?
  {
    Outcome([note], None, None, None, None, {}, {}, existing)
  }

  /** `_run_export` on a project: the outputs are named after its sanitised name. */
  function RunExport(p: Project, fmt: Format, dirs: Dirs, world: World, isWord: char -> bool): (o: Outcome)
    ensures o.kept <= {In(dirs.exports, SafeName(p.name, isWord) + Extension(fmt))}
  {
    var names := NamesFor(p.id, dirs, SafeName(p.name, isWord));
    NamesForDistinguished(p.id, dirs, SafeName(p.name, isWord));
    Export(p.content, fmt, names, world)
  }

  function Extension(fmt: Format): string {
    match fmt
    case Pdf => ".pdf"
    case Docx => ".docx"
    case Markdown => ".md"
  }

  /** Strings ending in extensions with different last characters differ. */
  lemma EndingsDiffer(x: string, y: string, e: string, f: string)
    requires e != [] && f != [] && e[|e| - 1] != f[|f| - 1]
    requires EndsWith(x, e) && EndsWith(y, f)
    ensures x != y
  {
    assert x[|x| - 1] == e[|e| - 1] by { assert x[|x| - |e|..][|e| - 1] == x[|x| - 1]; }
    assert y[|y| - 1] == f[|f| - 1] by { assert y[|y| - |f|..][|f| - 1] == y[|y| - 1]; }
  }

  /**
    A run stopped by a missing tool or reference document writes no file at
    all; a Markdown run writes only its output.
   */
  lemma HaltedWritesNothing(content: string, fmt: Format, n: Names, world: World)
    requires Distinguished(n)
    ensures Export(content, fmt, n, world).created == {} <==>
              fmt != Markdown && Preflight(fmt, ParseFrontmatter(content), world).Halt?
    ensures fmt == Markdown ==> Export(content, fmt, n, world).created == {n.md}
  {
  }

  /**
    A DOCX or PDF run that gets past the checks writes the Markdown and
    filter files and removes both; a PDF run also removes the archive pandoc
    wrote for it, so it never leaves the archive behind.
   */
  lemma IntermediatesRemoved(content: string, fmt: Format, n: Names, world: World)
    requires Distinguished(n) && fmt != Markdown
    ensures Preflight(fmt, ParseFrontmatter(content), world).Proceed? ==>
              {n.markdown, n.filter} <= Export(content, fmt, n, world).created
    ensures n.markdown !in Export(content, fmt, n, world).kept
    ensures n.filter !in Export(content, fmt, n, world).kept
    ensures n.docx in Export(content, fmt, n, world).created <==>
              Preflight(fmt, ParseFrontmatter(content), world).Proceed? && Succeeded(world.pandocRun)
    ensures n.docx in Export(content, fmt, n, world).kept <==>
              fmt == Docx && n.docx in Export(content, fmt, n, world).created
  {
    EndingsDiffer(n.markdown, n.docx, ".md", ".docx");
    EndingsDiffer(n.filter, n.docx, ".lua", ".docx");
  }

  /**
    The `finally` clause removes the files of its list whether or not this
    run wrote them: after a DOCX or PDF run past the checks, the Markdown and
    filter files are gone, and after a PDF run so is any archive of the same
    name, an earlier DOCX export included, even when pandoc then fails.
   */
  lemma CleanupRemovesEarlier(content: string, fmt: Format, n: Names, world: World)
    requires Distinguished(n) && fmt != Markdown
    requires Preflight(fmt, ParseFrontmatter(content), world).Proceed?
    ensures n.markdown !in Export(content, fmt, n, world).disk
    ensures n.filter !in Export(content, fmt, n, world).disk
    ensures fmt == Pdf ==> n.docx !in Export(content, fmt, n, world).disk
  {
  }

  /**
    A run adds at most its target to the export folder and removes nothing
    outside the clean-up list; a run stopped by the checks changes nothing,
    and a successful run leaves its target there.
   */
  lemma DiskChanges(content: string, fmt: Format, n: Names, world: World)
    requires Distinguished(n)
    ensures Export(content, fmt, n, world).disk - world.existing <= {Target(n, fmt)}
    ensures forall f :: f in world.existing && f !in Cleanup(fmt, n) ==> f in Export(content, fmt, n, world).disk
    ensures fmt != Markdown && Preflight(fmt, ParseFrontmatter(content), world).Halt? ==>
              Export(content, fmt, n, world).disk == world.existing
    ensures Export(content, fmt, n, world).kept != {} ==> Target(n, fmt) in Export(content, fmt, n, world).disk
  {
    EndingsDiffer(n.markdown, n.docx, ".md", ".docx");
    EndingsDiffer(n.filter, n.docx, ".lua", ".docx");
    EndingsDiffer(n.markdown, n.pdf, ".md", ".pdf");
    EndingsDiffer(n.filter, n.pdf, ".lua", ".pdf");
    EndingsDiffer(n.docx, n.pdf, ".docx", ".pdf");
  }

  /**
    An export succeeds exactly when every step does: Markdown always; DOCX
    and PDF need pandoc, a reference document and a clean pandoc exit, and
    PDF also LibreOffice and its clean exit.
   */
  lemma ExportSucceedsExactly(content: string, fmt: Format, n: Names, world: World)
    requires Distinguished(n)
    ensures Export(content, fmt, n, world).kept == {Target(n, fmt)} <==>
              fmt == Markdown
              || (world.pandoc.Some?
                  && ResolveReferenceDoc(ParseFrontmatter(content), world.refs).Some?
                  && Succeeded(world.pandocRun)
                  && (fmt == Pdf ==> world.office.Some? && Succeeded(world.officeRun)))
  {
  }

  /** Two worlds that differ at most in what they say about LibreOffice. */
  predicate SameButOffice(w1: World, w2: World) {
    w1.pandoc == w2.pandoc && w1.refs == w2.refs && w1.pandocRun == w2.pandocRun && w1.written == w2.written
    && w1.existing == w2.existing
  }

  /** A DOCX export does not depend on anything about LibreOffice. */
  lemma DocxIgnoresOffice(content: string, n: Names, world: World, other: World)
    requires Distinguished(n) && SameButOffice(world, other)
    ensures Export(content, Docx, n, world) == Export(content, Docx, n, other)
  {
    var yaml := ParseFrontmatter(content);
    PreflightIgnoresOffice(yaml, world, other);
    match Preflight(Docx, yaml, world)
    case Halt(_) =>
    case Proceed(ref) =>
      ConvertIgnoresOffice(n, yaml, world, other, ref);
  }

  /** The DOCX preflight does not look at LibreOffice. */
  lemma PreflightIgnoresOffice(yaml: Yaml, world: World, other: World)
    requires SameButOffice(world, other)
    ensures Preflight(Docx, yaml, world) == Preflight(Docx, yaml, other)
  {
  }

  /** Converting to DOCX does not look at LibreOffice. */
  lemma ConvertIgnoresOffice(n: Names, yaml: Yaml, world: World, other: World, ref: string)
    requires world.pandoc.Some? && Distinguished(n) && SameButOffice(world, other)
    ensures Convert(Docx, n, yaml, world, ref) == Convert(Docx, n, yaml, other, ref)
  {
  }
}
