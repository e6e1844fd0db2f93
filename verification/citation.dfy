/**
  The bibliographic record and its house-style Chicago rendering: author-name
  reordering, citation keys, footnotes and bibliography entries.
 */
module Citation {
  import opened Opt
  import opened Text

  /** A bibliographic source; optional fields are empty strings when unset. */
  datatype Source = Source(
    id: string,
    sourceType: string,   // "book" | "book_section" | "article" | "website" | anything else
    author: string,
    title: string,
    year: string,
    publisher: string,
    city: string,
    journal: string,
    volume: string,
    issue: string,
    pages: string,
    bookTitle: string,
    editor: string,
    url: string,
    accessDate: string,
    siteName: string)

  /** A record with only the required fields set, as the source's constructor defaults do. */
  function NewSource(id: string, sourceType: string, author: string, title: string, year: string): Source {
    Source(id, sourceType, author, title, year, "", "", "", "", "", "", "", "", "", "", "")
  }

  /** The formatting branch a source type selects; unknown types share one fallback. */
  datatype Kind = Book | BookSection | Article | Website | OtherKind

  function KindOf(sourceType: string): Kind {
    if sourceType == "book" then Book
    else if sourceType == "article" then Article
    else if sourceType == "book_section" then BookSection
    else if sourceType == "website" then Website
    else OtherKind
  }

  // ------------------------------------------------------------ author names

  /** Index of the last occurrence of `c` in `s`, or -1. */
  function LastIndexOf(s: string, c: char): (i: int)
    ensures -1 <= i < |s|
    ensures i == -1 <==> c !in s
    ensures 0 <= i ==> s[i] == c && c !in s[i + 1..]
  {
    if s == [] then -1
    else if s[|s| - 1] == c then |s| - 1
    else
      var i := LastIndexOf(s[..|s| - 1], c);
      assert s[i + 1..] == s[..|s| - 1][i + 1..] + [s[|s| - 1]];
      i
  }

  /**
    "Last, First" becomes "First Last" for footnotes: split at the first
    comma, both halves stripped. Comma-free names are returned unchanged.
   */
  function AuthorFirst(author: string): (r: string)
    ensures ',' !in author ==> r == author
  {
    if author == "" then ""
    else if ',' in author then
      var k := IndexOf(author, ',');
      Strip(author[k + 1..]) + " " + Strip(author[..k])
    else author
  }

  /**
    "First Last" becomes "Last, First" for the bibliography: split at the last
    space. Names with a comma or without a space are returned unchanged.
   */
  function AuthorLast(author: string): (r: string)
    ensures ',' in author || ' ' !in author ==> r == author
    ensures ',' !in author && ' ' in author ==> |r| == |author| + 1
  {
    if author == "" then ""
    else if ',' !in author then
      var k := LastIndexOf(author, ' ');
      if k >= 0 then author[k + 1..] + ", " + author[..k] else author
    else author
  }

  /** A given-name part: non-empty, comma-free, no whitespace at either end. */
  predicate GivenNames(p: string) {
    p != [] && ',' !in p && !IsSpace(p[0]) && !IsSpace(p[|p| - 1])
  }

  /** A surname part: one comma-free word. */
  predicate Surname(p: string) {
    IsWord(p) && ',' !in p
  }

  lemma StripLeadingBlank(p: string)
    requires p != [] && !IsSpace(p[0]) && !IsSpace(p[|p| - 1])
    ensures Strip(" " + p) == p
  {
    assert (" " + p)[1..] == p;
    assert LStrip(" " + p) == LStrip(p);
  }

  /** The first comma of "Last, First" is the one after the surname. */
  lemma FirstCommaAfter(last: string, rest: string)
    requires ',' !in last
    ensures IndexOf(last + "," + rest, ',') == |last|
  {
    var s := last + "," + rest;
    assert s[..|last|] == last;
    assert s[|last|] == ',';
    var i := IndexOf(s, ',');
  }

  /** The last space of "First Last" is the one before the surname. */
  lemma LastSpaceBefore(first: string, last: string)
    requires ' ' !in last
    ensures LastIndexOf(first + " " + last, ' ') == |first|
  {
    var s := first + " " + last;
    assert s[|first| + 1..] == last;
    assert s[|first|] == ' ';
    var i := LastIndexOf(s, ' ');
  }

  /**
    Footnote order of any name with a comma: the text after the first comma,
    stripped, then a space, then the text before it, stripped.
   */
  lemma AuthorFirstSplits(last: string, rest: string)
    requires ',' !in last
    ensures AuthorFirst(last + "," + rest) == Strip(rest) + " " + Strip(last)
  {
    var author := last + "," + rest;
    FirstCommaAfter(last, rest);
    assert author[..|last|] == last;
    assert author[|last| + 1..] == rest;
  }

  /**
    Bibliography order of any comma-free name with a space: the text after the
    last space, ", ", then everything before that space.
   */
  lemma AuthorLastSplits(first: string, last: string)
    requires ' ' !in last && ',' !in first && ',' !in last
    ensures AuthorLast(first + " " + last) == last + ", " + first
  {
    var author := first + " " + last;
    JoinedNoComma(first, last);
    LastSpaceBefore(first, last);
    assert author[|first| + 1..] == last;
    assert author[..|first|] == first;
  }

  /** Footnote order of a "Last, First" name. */
  lemma AuthorFirstOfInverted(last: string, first: string)
    requires Surname(last) && GivenNames(first)
    ensures AuthorFirst(last + ", " + first) == first + " " + last
  {
    var author := last + ", " + first;
    assert author == last + "," + (" " + first);
    FirstCommaAfter(last, " " + first);
    assert author[..|last|] == last;
    assert author[|last| + 1..] == " " + first;
    StripLeadingBlank(first);
    StripUnchanged(last);
  }

  /** Bibliography order of a "First Last" name. */
  lemma AuthorLastOfNatural(first: string, last: string)
    requires GivenNames(first) && Surname(last)
    ensures AuthorLast(first + " " + last) == last + ", " + first
  {
    var author := first + " " + last;
    assert ',' !in author;
    assert ' ' !in last by { assert IsSpace(' '); }
    LastSpaceBefore(first, last);
    assert author[|first| + 1..] == last;
    assert author[..|first|] == first;
  }

  /** The bibliography form of a footnote-ordered name is the original "Last, First". */
  lemma AuthorLastUndoesAuthorFirst(last: string, first: string)
    requires Surname(last) && GivenNames(first)
    ensures AuthorLast(AuthorFirst(last + ", " + first)) == last + ", " + first
  {
    AuthorFirstOfInverted(last, first);
    AuthorLastOfNatural(first, last);
  }

  /** The footnote form of a bibliography-ordered name is the original "First Last". */
  lemma AuthorFirstUndoesAuthorLast(first: string, last: string)
    requires GivenNames(first) && Surname(last)
    ensures AuthorFirst(AuthorLast(first + " " + last)) == first + " " + last
  {
    AuthorLastOfNatural(first, last);
    AuthorFirstOfInverted(last, first);
  }

  // ------------------------------------------------------------ citation keys

  /**
    What one character contributes to a citation key once the surname is
    lower-cased and everything outside a-z is dropped. Besides A-Z, Python's
    `str.lower` sends KELVIN SIGN to "k" and LATIN CAPITAL I WITH DOT ABOVE to
    "i" followed by a combining dot, which the a-z filter then removes.
   */
  function KeyLetters(c: char): (r: string)
    ensures |r| <= 1 && forall i :: 0 <= i < |r| ==> 'a' <= r[i] <= 'z'
  {
    if 'a' <= c <= 'z' then [c]
    else if 'A' <= c <= 'Z' then [(c as int + 32) as char]
    else if c == '\U{212a}' then "k"
    else if c == '\U{130}' then "i"
    else []
  }

  /** `re.sub(r"[^a-z]", "", s.lower())`. */
  function KeyLettersOf(s: string): (r: string)
    ensures |r| <= |s| && forall i :: 0 <= i < |r| ==> 'a' <= r[i] <= 'z'
  {
    if s == [] then [] else KeyLetters(s[0]) + KeyLettersOf(s[1..])
  }

  /** `author.split(",")[0]`: the text before the first comma. */
  function BeforeComma(author: string): (r: string)
    ensures StartsWith(author, r) && ',' !in r
    ensures ',' !in author ==> r == author
  {
    var k := IndexOf(author, ',');
    if k < 0 then author else author[..k]
  }

  /**
    The citation key: the lower-cased letters of the last word before the
    first comma, then the year; "unknown" plus the year for an empty author.
    When the text before the comma is blank there is no last word and the
    source raises; that is `None` here.
   */
  function Citekey(s: Source): (key: Option<string>)
    ensures key.None? <==> s.author != "" && AllSpace(BeforeComma(s.author))
    ensures key.Some? ==> EndsWith(key.value, s.year)
    ensures key.Some? ==> forall i :: 0 <= i < |key.value| - |s.year| ==> 'a' <= key.value[i] <= 'z'
    ensures s.author == "" ==> key == Some("unknown" + s.year)
    ensures key.Some? && s.author != "" ==> |key.value| - |s.year| <= |LastWord(BeforeComma(s.author))|
  {
    if s.author != "" && AllSpace(BeforeComma(s.author)) then None
    else
      var last := if s.author != "" then LastWord(BeforeComma(s.author)) else "unknown";
      var letters := KeyLettersOf(last);
      assert s.author == "" ==> letters == last;
      Appended(letters, s.year);
      Some(letters + s.year)
  }

  /** A surname written in ASCII letters, the common case the key is built for. */
  predicate AsciiLetters(p: string) {
    forall i :: 0 <= i < |p| ==> 'a' <= p[i] <= 'z' || 'A' <= p[i] <= 'Z'
  }

  function AsciiLower(p: string): (r: string)
    ensures |r| == |p|
  {
    if p == [] then [] else [if 'A' <= p[0] <= 'Z' then (p[0] as int + 32) as char else p[0]] + AsciiLower(p[1..])
  }

  lemma {:induction false} KeyLettersOfAscii(p: string)
    requires AsciiLetters(p)
    ensures KeyLettersOf(p) == AsciiLower(p)
  {
    if p != [] {
      KeyLettersOfAscii(p[1..]);
    }
  }

  /**
    For an author written "Surname, Given Names" with an ASCII surname, the
    key is the lower-cased surname followed by the year, whatever the given
    names are.
   */
  lemma CitekeyOfSurname(s: Source, last: string, rest: string)
    requires Surname(last) && AsciiLetters(last)
    requires s.author == last + "," + rest
    ensures Citekey(s) == Some(AsciiLower(last) + s.year)
  {
    FirstCommaAfter(last, rest);
    assert s.author[..|last|] == last;
    assert BeforeComma(s.author) == last;
    assert !AllSpace(last) by { assert !IsSpace(last[0]); }
    var i, j := LastWordSpan(last);
    assert i == 0;
    assert LastWord(last) == last;
    KeyLettersOfAscii(last);
  }

  /**
    For an author written "Given Names Surname" without a comma and with an
    ASCII surname, the key is the lower-cased surname followed by the year.
   */
  lemma CitekeyOfNatural(s: Source, first: string, last: string)
    requires last != [] && AsciiLetters(last) && ',' !in first
    requires s.author == first + " " + last
    ensures Citekey(s) == Some(AsciiLower(last) + s.year)
  {
    assert ',' !in last && NoSpace(last) by {
      forall k | 0 <= k < |last| ensures last[k] != ',' && !IsSpace(last[k]) {
        assert 'a' <= last[k] <= 'z' || 'A' <= last[k] <= 'Z';
      }
    }
    JoinedNoComma(first, last);
    assert BeforeComma(s.author) == s.author;
    LastWordOfJoined(first, last);
    KeyLettersOfAscii(last);
  }

  /** Two comma-free parts joined by a space hold no comma. */
  lemma JoinedNoComma(first: string, last: string)
    requires ',' !in first && ',' !in last
    ensures ',' !in first + " " + last
  {
    var author := first + " " + last;
    forall k | 0 <= k < |author| ensures author[k] != ',' {
      if k < |first| { assert author[k] == first[k]; }
      else if k > |first| { assert author[k] == last[k - |first| - 1]; }
    }
  }

  /** The last word of "first last" is `last` when that is one word. */
  lemma LastWordOfJoined(first: string, last: string)
    requires IsWord(last)
    ensures !AllSpace(first + " " + last) && LastWord(first + " " + last) == last
  {
    var author := first + " " + last;
    var n := |first| + 1;
    assert author[n..] == last;
    assert forall k :: n <= k < |author| ==> !IsSpace(author[k]) by {
      forall k | n <= k < |author| ensures !IsSpace(author[k]) {
        assert author[k] == last[k - n];
      }
    }
    assert !AllSpace(author) by { assert !IsSpace(author[|author| - 1]); }
    var i, j := LastWordSpan(author);
    assert j == |author|;
    assert author[n - 1] == ' ' && IsSpace(' ');
    assert i == n;
    assert author[i..j] == last;
  }

  // ---------------------------------------------------------------- footnotes

  /** `pre + v + post` when the field `v` is set, nothing otherwise. */
  function Clause(pre: string, v: string, post: string): (r: string)
    ensures v == [] ==> r == []
    ensures v != [] ==> |r| == |pre| + |v| + |post| && StartsWith(r, pre) && EndsWith(r, post)
  {
    if v != "" then Framed(pre, v, post); pre + v + post else ""
  }

  /** " (Publisher, Year)", or " (Year)" without a publisher, or nothing. */
  function PublicationNote(s: Source): string {
    if s.publisher != "" then " (" + s.publisher + ", " + s.year + ")"
    else Clause(" (", s.year, ")")
  }

  /** " Volume" with ", no. Issue" when an issue is given; nothing without a volume. */
  function VolumeNote(s: Source): string {
    if s.volume != "" then " " + s.volume + Clause(", no. ", s.issue, "") else ""
  }

  /** The stored page range wins; the page argument is only a fallback. */
  function Locator(sep: string, pages: string, page: string): string {
    if pages != "" then sep + pages else Clause(sep, page, "")
  }

  /** What follows an article's quoted title in both of its forms, before the final period. */
  function ArticleRest(s: Source, page: string): string {
    "*" + s.journal + "*" + VolumeNote(s) + Clause(" (", s.year, ")") + Locator(": ", s.pages, page)
  }

  /** The footnote text between "Author, " and the final period, for non-website types. */
  function FootnoteMiddle(s: Source, page: string): string {
    match KindOf(s.sourceType)
    case Book => "*" + s.title + "*" + PublicationNote(s) + Clause(", ", page, "")
    case Article => "\"" + s.title + ",\" " + ArticleRest(s, page)
    case BookSection =>
      "\"" + s.title + ",\" in *" + s.bookTitle + "*" + Clause(", ed. ", s.editor, "")
      + PublicationNote(s) + Locator(", ", s.pages, page)
    case _ => "*" + s.title + "* (" + s.year + ")"
  }

  /** The website footnote text after "Author, ", before trailing commas are stripped. */
  function WebsiteMiddle(s: Source): (m: string)
    ensures m != [] && m[0] == '"'
  {
    "\"" + s.title + ",\"" + Clause(" *", s.siteName, "*,")
    + Clause(" accessed ", s.accessDate, ",") + Clause(" ", s.url, "")
  }

  /**
    The Chicago footnote for `s`, citing `page` when the record stores no page
    range. Every footnote opens with the footnote-ordered author and a comma
    and ends with a period; a website footnote has its trailing commas
    stripped first, so it never ends in ",.".
   */
  function Footnote(s: Source, page: string): (r: string)
    ensures StartsWith(r, AuthorFirst(s.author) + ", ")
    ensures EndsWith(r, ".")
    ensures KindOf(s.sourceType) == Website ==> !EndsWith(r, ",.")
  {
    var a := AuthorFirst(s.author);
    if KindOf(s.sourceType) == Website then
      var m := WebsiteMiddle(s);
      RStripCharAppend(a + ", ", m, ',');
      var stripped := RStripChar(m, ',');
      Framed(a + ", ", stripped, ".");
      var r := RStripChar(a + ", " + m, ',') + ".";
      assert r[..|r| - 1] == a + ", " + stripped;
      r
    else
      var m := FootnoteMiddle(s, page);
      Framed(a + ", ", m, ".");
      a + ", " + m + "."
  }

  /** Article and chapter footnotes ignore the page argument when a page range is stored. */
  lemma FootnoteIgnoresPageWhenStored(s: Source, page: string)
    requires KindOf(s.sourceType) in {Article, BookSection}
    requires s.pages != ""
    ensures Footnote(s, page) == Footnote(s, "")
  {
    assert FootnoteMiddle(s, page) == FootnoteMiddle(s, "");
  }

  /** The text a page argument adds: ": page" for articles, ", page" otherwise. */
  function PageLocator(k: Kind, page: string): string {
    (if k == Article then ": " else ", ") + page
  }

  lemma MiddleWithPage(s: Source, page: string)
    requires page != ""
    requires KindOf(s.sourceType) == Book || (KindOf(s.sourceType) in {Article, BookSection} && s.pages == "")
    ensures FootnoteMiddle(s, page) == FootnoteMiddle(s, "") + PageLocator(KindOf(s.sourceType), page)
  {
    var k := KindOf(s.sourceType);
    if k == Article {
      var head := "\"" + s.title + ",\" " + "*" + s.journal + "*" + VolumeNote(s) + Clause(" (", s.year, ")");
      assert ArticleRest(s, "") == "*" + s.journal + "*" + VolumeNote(s) + Clause(" (", s.year, ")");
      assert FootnoteMiddle(s, "") == head;
    }
  }

  /**
    When a page argument is used, the footnote is the page-less footnote with
    the locator inserted before the closing period: ", page" for books and
    chapters, ": page" for articles.
   */
  lemma FootnotePageInsertedBeforePeriod(s: Source, page: string)
    requires page != ""
    requires KindOf(s.sourceType) == Book || (KindOf(s.sourceType) in {Article, BookSection} && s.pages == "")
    ensures var plain := Footnote(s, "");
            Footnote(s, page) == plain[..|plain| - 1] + PageLocator(KindOf(s.sourceType), page) + "."
  {
    var a := AuthorFirst(s.author);
    var m := FootnoteMiddle(s, "");
    MiddleWithPage(s, page);
    InsertBeforePeriod(a + ", ", m, PageLocator(KindOf(s.sourceType), page));
  }

  lemma InsertBeforePeriod(x: string, m: string, l: string)
    ensures var plain := x + m + ".";
            x + (m + l) + "." == plain[..|plain| - 1] + l + "."
  {
    var plain := x + m + ".";
    assert plain[..|plain| - 1] == x + m;
  }

  /** The parts of a record a footnote or entry can print; the city is not among them. */
  predicate SamePrinted(s: Source, t: Source) {
    s.sourceType == t.sourceType && s.author == t.author && s.title == t.title && s.year == t.year
    && s.publisher == t.publisher && s.journal == t.journal && s.pages == t.pages
    && s.bookTitle == t.bookTitle && s.editor == t.editor && s.url == t.url
    && s.accessDate == t.accessDate && s.siteName == t.siteName
    && VolumeNote(s) == VolumeNote(t)
  }

  /** Records that print the same parts have the same footnote and entry. */
  lemma PrintedPartsDecide(s: Source, t: Source, page: string)
    requires SamePrinted(s, t)
    ensures Footnote(s, page) == Footnote(t, page)
    ensures Bibliography(s) == Bibliography(t)
  {
    assert PublicationNote(s) == PublicationNote(t);
    assert ArticleRest(s, page) == ArticleRest(t, page);
    assert ArticleRest(s, "") == ArticleRest(t, "");
    assert FootnoteMiddle(s, page) == FootnoteMiddle(t, page);
    assert WebsiteMiddle(s) == WebsiteMiddle(t);
    assert PublicationClause(s) == PublicationClause(t);
    assert EntryRest(s) == EntryRest(t);
  }

  /** Without a volume the issue number never appears in a footnote or bibliography entry. */
  lemma IssueNeedsVolume(s: Source, issue: string, page: string)
    requires s.volume == ""
    ensures Footnote(s.(issue := issue), page) == Footnote(s, page)
    ensures Bibliography(s.(issue := issue)) == Bibliography(s)
  {
    PrintedPartsDecide(s.(issue := issue), s, page);
  }

  /** The city is stored but never printed, in either form. */
  lemma CityNeverPrinted(s: Source, city: string, page: string)
    ensures Footnote(s.(city := city), page) == Footnote(s, page)
    ensures Bibliography(s.(city := city)) == Bibliography(s)
  {
    PrintedPartsDecide(s.(city := city), s, page);
  }

  /** With a volume and an issue, an article footnote cites "volume, no. issue". */
  lemma ArticleFootnoteCitesIssue(s: Source, page: string)
    requires KindOf(s.sourceType) == Article && s.volume != "" && s.issue != ""
    ensures Contains(Footnote(s, page), " " + s.volume + ", no. " + s.issue)
  {
    VolumeNoteWithIssue(s);
    var a, y, l := AuthorFirst(s.author), Clause(" (", s.year, ")"), Locator(": ", s.pages, page);
    ArticleFootnoteIs(s, page);
    var k := ArticleFootnoteShape(a, s.title, s.journal, VolumeNote(s), y, l);
    OccursContains(Footnote(s, page), VolumeNote(s), k);
  }

  lemma VolumeNoteWithIssue(s: Source)
    requires s.volume != "" && s.issue != ""
    ensures VolumeNote(s) == " " + s.volume + ", no. " + s.issue
  {
  }

  lemma ArticleFootnoteIs(s: Source, page: string)
    requires KindOf(s.sourceType) == Article
    ensures Footnote(s, page) == AuthorFirst(s.author) + ", " + ("\"" + s.title + ",\" " + ArticleRest(s, page)) + "."
  {
  }

  /** Where the volume note sits in an article footnote. */
  lemma ArticleFootnoteShape(a: string, t: string, j: string, v: string, y: string, l: string) returns (k: int)
    ensures OccursAt(a + ", " + ("\"" + t + ",\" " + ("*" + j + "*" + v + y + l)) + ".", v, k)
  {
    var r := a + ", " + ("\"" + t + ",\" " + ("*" + j + "*" + v + y + l)) + ".";
    var head := a + ", " + "\"" + t + ",\" " + "*" + j + "*";
    assert r == head + v + (y + l + ".");
    k := |head|;
    assert r[k..k + |v|] == v;
  }

  // ------------------------------------------------------------- bibliography

  /** " Publisher, Year." or " Year." or nothing: the bibliography's publication clause. */
  function PublicationClause(s: Source): (c: string)
    ensures c == [] || EndsWith(c, ".")
  {
    if s.publisher != "" then Appended(" " + s.publisher + ", " + s.year, "."); " " + s.publisher + ", " + s.year + "."
    else Clause(" ", s.year, ".")
  }

  /** A part ending in `z`, followed by a part that is empty or ends in `z`, ends in `z`. */
  lemma EndsWithEither(x: string, y: string, z: string)
    requires EndsWith(x, z) && (y == [] || EndsWith(y, z))
    ensures EndsWith(x + y, z)
  {
    if y == [] {
      assert x + y == x;
    } else {
      EndsWithAppend(x, y, z);
    }
  }

  lemma EndsWithLast(s: string, z: string)
    requires z != [] && EndsWith(s, z)
    ensures EndsWith(s, z[|z| - 1..])
  {
    assert s[|s| - 1..] == s[|s| - |z|..][|z| - 1..];
  }

  /**
    Three optional parts that each end in `z` when present: after any of them
    the whole ends in `z`, and with none the whole is the head.
   */
  lemma LastSetPartEnds(x: string, a: string, b: string, c: string, z: string)
    requires a == [] || EndsWith(a, z)
    requires b == [] || EndsWith(b, z)
    requires c == [] || EndsWith(c, z)
    ensures a != [] || b != [] || c != [] ==> EndsWith(x + a + b + c, z)
    ensures a == [] && b == [] && c == [] ==> x + a + b + c == x
  {
    if c != [] {
      EndsWithAppend(x + a + b, c, z);
    } else if b != [] {
      EndsWithAppend(x + a, b, z);
      assert x + a + b + c == x + a + b;
    } else if a != [] {
      EndsWithAppend(x, a, z);
      assert x + a + b + c == x + a;
    } else {
      assert x + a + b + c == x;
    }
  }

  /**
    A website entry: the quoted title, then a sentence each for the site name,
    the access date and the URL when they are set.
   */
  function WebsiteEntry(s: Source): (m: string)
    ensures s.siteName != "" || s.accessDate != "" || s.url != "" ==> EndsWith(m, ".")
    ensures s.siteName == "" && s.accessDate == "" && s.url == "" ==> EndsWith(m, ".\"")
  {
    var head := " \"" + s.title + ".\"";
    var site := Clause(" *", s.siteName, "*.");
    var accessed := Clause(" Accessed ", s.accessDate, ".");
    var link := Clause(" ", s.url, ".");
    Appended(" \"" + s.title, ".\"");
    assert s.siteName != "" ==> EndsWith(site, ".") by {
      if s.siteName != "" { EndsWithLast(site, "*."); }
    }
    LastSetPartEnds(head, site, accessed, link, ".");
    head + site + accessed + link
  }

  /**
    The bibliography entry after "Author.". All but website entries end with a
    period; a website entry ends with a period when it has a site name, access
    date or URL, and with the title's closing quote otherwise.
   */
  function EntryRest(s: Source): (m: string)
    ensures KindOf(s.sourceType) != Website ==> EndsWith(m, ".")
    ensures KindOf(s.sourceType) == Website ==> m == WebsiteEntry(s)
  {
    match KindOf(s.sourceType)
    case Book =>
      var head := " *" + s.title + "*.";
      Appended(" *" + s.title + "*", ".");
      EndsWithEither(head, PublicationClause(s), ".");
      head + PublicationClause(s)
    case Article =>
      var head := " \"" + s.title + ".\" " + ArticleRest(s, "");
      Appended(head, ".");
      head + "."
    case BookSection =>
      var head := " \"" + s.title + ".\" In *" + s.bookTitle + "*" + Clause(", edited by ", s.editor, "")
        + Clause(", ", s.pages, "");
      Appended(head, ".");
      EndsWithEither(head + ".", PublicationClause(s), ".");
      head + "." + PublicationClause(s)
    case Website => WebsiteEntry(s)
    case OtherKind =>
      var head := " *" + s.title + "*. " + s.year;
      Appended(head, ".");
      head + "."
  }

  /** The Chicago bibliography entry: the bibliography-ordered author, a period, the rest. */
  function Bibliography(s: Source): (r: string)
    ensures StartsWith(r, AuthorLast(s.author) + ".")
    ensures KindOf(s.sourceType) != Website ==> EndsWith(r, ".")
    ensures KindOf(s.sourceType) == Website && (s.siteName != "" || s.accessDate != "" || s.url != "") ==> EndsWith(r, ".")
    ensures KindOf(s.sourceType) == Website && s.siteName == "" && s.accessDate == "" && s.url == "" ==> EndsWith(r, ".\"")
  {
    var a := AuthorLast(s.author) + ".";
    var m := EntryRest(s);
    Appended(a, m);
    if KindOf(s.sourceType) != Website || s.siteName != "" || s.accessDate != "" || s.url != "" then
      EndsWithAppend(a, m, ".");
      a + m
    else
      EndsWithAppend(a, m, ".\"");
      a + m
  }

  /** A chapter entry puts the pages before its period and the publisher and year after it. */
  lemma BookSectionPagesThenPublisher(s: Source)
    requires KindOf(s.sourceType) == BookSection && s.pages != "" && s.publisher != ""
    ensures EndsWith(Bibliography(s), ", " + s.pages + ". " + s.publisher + ", " + s.year + ".")
  {
    var head := " \"" + s.title + ".\" In *" + s.bookTitle + "*" + Clause(", edited by ", s.editor, "");
    BookSectionShape(AuthorLast(s.author) + ".", head, s.pages, s.publisher, s.year);
  }

  lemma BookSectionShape(x: string, h: string, p: string, pub: string, y: string)
    ensures EndsWith(x + (h + (", " + p + "") + "." + (" " + pub + ", " + y + ".")), ", " + p + ". " + pub + ", " + y + ".")
  {
    var tail := ", " + p + ". " + pub + ", " + y + ".";
    assert x + (h + (", " + p + "") + "." + (" " + pub + ", " + y + ".")) == x + h + tail;
    Appended(x + h, tail);
  }

  /**
    An article's footnote and bibliography entry share everything after the
    title: they differ only in name order and in the commas after the name and
    inside the title's quotes, which the entry turns into periods.
   */
  lemma ArticleFootnoteMatchesEntry(s: Source) returns (tail: string)
    requires KindOf(s.sourceType) == Article
    ensures Footnote(s, "") == AuthorFirst(s.author) + ", \"" + s.title + ",\" " + tail
    ensures Bibliography(s) == AuthorLast(s.author) + ". \"" + s.title + ".\" " + tail
  {
    tail := ArticleRest(s, "") + ".";
    var m := ArticleRest(s, "");
    assert Footnote(s, "") == AuthorFirst(s.author) + ", " + ("\"" + s.title + ",\" " + m) + ".";
    assert Bibliography(s) == AuthorLast(s.author) + "." + (" \"" + s.title + ".\" " + m + ".");
    ArticleShapes(AuthorFirst(s.author), AuthorLast(s.author), s.title, m);
  }

  lemma ArticleShapes(a: string, b: string, t: string, m: string)
    ensures a + ", " + ("\"" + t + ",\" " + m) + "." == a + ", \"" + t + ",\" " + (m + ".")
    ensures b + "." + (" \"" + t + ".\" " + m + ".") == b + ". \"" + t + ".\" " + (m + ".")
  {
  }

  /** A book with a publisher cites "(Publisher, Year)" after its italic title. */
  lemma BookFootnoteWithPublisher(s: Source)
    requires KindOf(s.sourceType) == Book && s.publisher != ""
    ensures Footnote(s, "") == AuthorFirst(s.author) + ", *" + s.title + "* (" + s.publisher + ", " + s.year + ")."
  {
    var a := AuthorFirst(s.author);
    var p := " (" + s.publisher + ", " + s.year + ")";
    assert Footnote(s, "") == a + ", " + ("*" + s.title + "*" + p + "") + ".";
    BookShape(a, s.title, s.publisher, s.year);
  }

  lemma BookShape(a: string, t: string, p: string, y: string)
    ensures a + ", " + ("*" + t + "*" + (" (" + p + ", " + y + ")") + "") + "." == a + ", *" + t + "* (" + p + ", " + y + ")."
  {
  }
}
