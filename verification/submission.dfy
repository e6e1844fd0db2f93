/**
  What the two submission servers share: reading the multipart form of a
  submission, the defaults for missing fields, the cleaned name parts, and
  the replies sent back.
 */
module Submission {
  import opened Opt
  import opened Text
  import opened Naming

  /** One part of the multipart body; `contentType` is its header when sent. */
  datatype FormPart = FormPart(name: string, data: string, contentType: Option<string>)

  /** The part names the servers look at. */
  datatype Role = StudentPart | TitlePart | FilePart | PasswordPart | OtherPart

  const Roles: map<string, Role> :=
    map["student" := StudentPart, "title" := TitlePart, "file" := FilePart, "password" := PasswordPart]

  function RoleOf(name: string): Role {
    if name in Roles then Roles[name] else OtherPart
  }

  /** The two extensions a submission is saved with. */
  datatype Ext = Pdf | Md

  function ExtText(e: Ext): string {
    match e
      case Pdf => ".pdf"
      case Md => ".md"
  }

  /** An extension is a dot and a dot-free tail. */
  lemma ExtTextShape(e: Ext)
    ensures var t := ExtText(e);
            |t| >= 2 && t[0] == '.' && '.' !in t[1..]
  {
    match e
      case Pdf => assert ExtText(e)[1..] == "pdf";
      case Md => assert ExtText(e)[1..] == "md";
  }

  /** The fields a submission is read into. */
  datatype Fields = Fields(student: string, title: string, file: string, ext: Ext, password: string)

  /** The values before any part is read: no file yet, and a PDF by default. */
  const Blank := Fields("", "", "", Pdf, "")

  /** The part's content type; a part without the header counts as a PDF. */
  function ContentType(p: FormPart): string {
    match p.contentType
      case None => "application/pdf"
      case Some(t) => t
  }

  /** A content type naming markdown or plain text. */
  predicate TextType(t: string) {
    Contains(t, "markdown") || Contains(t, "text/plain")
  }

  /** A file part that asks to be saved as `.md`. */
  predicate MarksText(p: FormPart) {
    RoleOf(p.name) == FilePart && TextType(ContentType(p))
  }

  predicate Stripped(s: string) {
    s == [] || (!IsSpace(s[0]) && !IsSpace(s[|s| - 1]))
  }

  /**
    The effect of one part: a text field's value replaces what was read
    before, a file part replaces the file and may switch the extension to
    `.md` (never back). `withPassword` is false on the teacher's server,
    which has no password field.
   */
  function Absorb(f: Fields, p: FormPart, withPassword: bool): Fields {
    match RoleOf(p.name)
      case StudentPart => f.(student := p.data)
      case TitlePart => f.(title := p.data)
      case FilePart => f.(file := p.data, ext := if TextType(ContentType(p)) then Md else f.ext)
      case PasswordPart => if withPassword then f.(password := p.data) else f
      case OtherPart => f
  }

  /** The parts read in order, text values as sent. */
  function Collect(parts: seq<FormPart>, withPassword: bool): Fields {
    if parts == [] then Blank
    else Absorb(Collect(parts[..|parts| - 1], withPassword), parts[|parts| - 1], withPassword)
  }

  /**
    The form as the servers read it. Each text value is stripped as it is
    read; since only the last value of a name is kept, stripping the kept
    value instead gives the same fields.
   */
  function ReadForm(parts: seq<FormPart>, withPassword: bool): (f: Fields)
    ensures Stripped(f.student) && Stripped(f.title) && Stripped(f.password)
  {
    var r := Collect(parts, withPassword);
    r.(student := Strip(r.student), title := Strip(r.title), password := Strip(r.password))
  }

  /** The position of the last part in the role, if any. */
  function LastOf(parts: seq<FormPart>, role: Role): (k: Option<nat>)
    ensures k.Some? ==> k.value < |parts| && RoleOf(parts[k.value].name) == role
                        && forall j :: k.value < j < |parts| ==> RoleOf(parts[j].name) != role
    ensures k.None? ==> forall j :: 0 <= j < |parts| ==> RoleOf(parts[j].name) != role
  {
    if parts == [] then None
    else if RoleOf(parts[|parts| - 1].name) == role then Some(|parts| - 1)
    else LastOf(parts[..|parts| - 1], role)
  }

  /** The field a role fills. */
  function Value(f: Fields, role: Role): string {
    match role
      case StudentPart => f.student
      case TitlePart => f.title
      case FilePart => f.file
      case PasswordPart => f.password
      case OtherPart => ""
  }

  /** Reference reading of a field: the value of the last part in its role, else empty. */
  function Latest(parts: seq<FormPart>, role: Role): string {
    match LastOf(parts, role)
      case None => ""
      case Some(k) => parts[k].data
  }

  lemma {:induction false} CollectLastWins(parts: seq<FormPart>, withPassword: bool, role: Role)
    requires role != OtherPart && (role == PasswordPart ==> withPassword)
    ensures Value(Collect(parts, withPassword), role) == Latest(parts, role)
  {
    if parts != [] {
      CollectLastWins(parts[..|parts| - 1], withPassword, role);
    }
  }

  /**
    Each field comes from the last part carrying its name: text fields
    stripped, the file as sent; a field with no part is empty, and the
    teacher's server never reads a password.
   */
  lemma ReadFormLastWins(parts: seq<FormPart>, withPassword: bool)
    ensures var f := ReadForm(parts, withPassword);
            && f.student == Strip(Latest(parts, StudentPart))
            && f.title == Strip(Latest(parts, TitlePart))
            && f.file == Latest(parts, FilePart)
            && f.password == (if withPassword then Strip(Latest(parts, PasswordPart)) else "")
  {
    CollectLastWins(parts, withPassword, StudentPart);
    CollectLastWins(parts, withPassword, TitlePart);
    CollectLastWins(parts, withPassword, FilePart);
    if withPassword {
      CollectLastWins(parts, withPassword, PasswordPart);
    } else {
      CollectNoPassword(parts);
    }
  }

  lemma {:induction false} CollectNoPassword(parts: seq<FormPart>)
    ensures Collect(parts, false).password == ""
  {
    if parts != [] {
      CollectNoPassword(parts[..|parts| - 1]);
    }
  }

  lemma {:induction false} CollectExtension(parts: seq<FormPart>, withPassword: bool)
    ensures Collect(parts, withPassword).ext == Md <==> exists k :: 0 <= k < |parts| && MarksText(parts[k])
  {
    if parts != [] {
      var init, last := parts[..|parts| - 1], parts[|parts| - 1];
      CollectExtension(init, withPassword);
      AbsorbExtension(Collect(init, withPassword), last, withPassword);
      MarksSnoc(parts);
    }
  }

  /** Some part marks text exactly when an earlier one does or the last one does. */
  lemma MarksSnoc(parts: seq<FormPart>)
    requires parts != []
    ensures var init := parts[..|parts| - 1];
            (exists k :: 0 <= k < |parts| && MarksText(parts[k]))
            <==> (exists k :: 0 <= k < |init| && MarksText(init[k])) || MarksText(parts[|parts| - 1])
  {
    var flags := seq(|parts|, k requires 0 <= k < |parts| => MarksText(parts[k]));
    AnySnoc(flags);
    assert forall k :: 0 <= k < |parts| ==> (flags[k] <==> MarksText(parts[k]));
  }

  /** Some flag is set exactly when an earlier one is or the last one is. */
  lemma AnySnoc(flags: seq<bool>)
    requires flags != []
    ensures var init := flags[..|flags| - 1];
            (exists k :: 0 <= k < |flags| && flags[k])
            <==> (exists k :: 0 <= k < |init| && init[k]) || flags[|flags| - 1]
  {
    var init := flags[..|flags| - 1];
    if exists k :: 0 <= k < |flags| && flags[k] {
      var k :| 0 <= k < |flags| && flags[k];
      if k < |init| {
        assert init[k];
      }
    }
  }

  /** One part switches the extension to `.md` exactly when it marks text; nothing switches it back. */
  lemma AbsorbExtension(f: Fields, p: FormPart, withPassword: bool)
    ensures Absorb(f, p, withPassword).ext == Md <==> f.ext == Md || MarksText(p)
  {
  }

  /** The extension is `.md` exactly when some file part marks text, `.pdf` otherwise. */
  lemma ReadFormExtension(parts: seq<FormPart>, withPassword: bool)
    ensures ReadForm(parts, withPassword).ext == Md <==> exists k :: 0 <= k < |parts| && MarksText(parts[k])
  {
    CollectExtension(parts, withPassword);
  }

  // --------------------------------------------------------------- defaults

  /** `student or "Unknown Student"`. */
  function Student(f: Fields): (s: string)
    ensures s != [] && (f.student != [] ==> s == f.student)
  {
    if f.student == [] then "Unknown Student" else f.student
  }

  /** `title or "Untitled"`. */
  function Title(f: Fields): (s: string)
    ensures s != [] && (f.title != [] ==> s == f.title)
  {
    if f.title == [] then "Untitled" else f.title
  }

  /** A read student name is never blank once defaulted, so it always has a last word. */
  lemma StudentNotBlank(f: Fields)
    requires Stripped(f.student)
    ensures !AllSpace(Student(f))
  {
    if f.student == [] {
      assert !IsSpace(Student(f)[0]);
    } else {
      assert !IsSpace(f.student[0]);
    }
  }

  // ------------------------------------------------------------- name parts

  /** `re.sub(r"[^\w\s-]", "", s).strip()[:n]`. */
  function SafePart(s: string, isWord: char -> bool, n: nat): (r: string)
    ensures |r| <= n
    ensures forall i :: 0 <= i < |r| ==> NameChar(r[i], isWord)
    ensures r == [] || !IsSpace(r[0])
  {
    Take(Cleaned(s, isWord), n)
  }

  /** A part that is already clean, stripped and short enough is kept as it is. */
  lemma SafePartKeepsClean(s: string, isWord: char -> bool, n: nat)
    requires forall i :: 0 <= i < |s| ==> NameChar(s[i], isWord)
    requires Stripped(s) && |s| <= n
    ensures SafePart(s, isWord, n) == s
  {
    KeepAll(s, isWord);
    if s != [] {
      StripUnchanged(s);
    }
  }

  lemma DotNotSpace()
    ensures !IsSpace('.')
  {
  }

  /** `\w` never matching a dot, no cleaned part holds one. */
  lemma SafePartNoDot(s: string, isWord: char -> bool, n: nat)
    requires !isWord('.')
    ensures '.' !in SafePart(s, isWord, n)
  {
    var r := SafePart(s, isWord, n);
    DotNotSpace();
    forall i | 0 <= i < |r|
      ensures r[i] != '.'
    {
      assert NameChar(r[i], isWord);
    }
  }

  // ---------------------------------------------------------------- replies

  /** The JSON replies: the saved file, a file launched in its viewer, or an error with its status. */
  datatype Reply = Saved(dir: string, name: string) | Launched | Refused(status: nat, error: string)

  /** The `saved` path of a saved file. */
  function SavedPath(reply: Reply): string
    requires reply.Saved?
  {
    In(reply.dir, reply.name)
  }

  /** The record broadcast to the dashboards when a file is saved. */
  datatype Record = Record(time: string, student: string, title: string, path: string)
}
