/**
  The teacher's dashboard server: an open endpoint that saves each
  submitted file under `{student} - {title}{ext}` in the day's folder and
  tells the dashboards, and an endpoint that opens a saved file, guarded
  so that only files under the submissions folder are opened.
 */
module Teacher {
  import opened Text
  import opened Naming
  import opened Sse
  import opened Submission

  /** The server's state: the dashboards and the files in the day's folder by name. */
  datatype Server = Server(hub: Hub, files: map<string, string>)

  // -------------------------------------------------------------- file name

  /** `{safe_student} - {safe_title}{ext}`, each part cleaned and cut to 40 characters. */
  function WantedName(f: Fields, isWord: char -> bool): string {
    SafePart(Student(f), isWord, 40) + " - " + SafePart(Title(f), isWord, 40) + ExtText(f.ext)
  }

  /** `\w` never matching a dot, the wanted name splits into the two parts and the extension. */
  lemma WantedNameSplits(f: Fields, isWord: char -> bool)
    requires !isWord('.')
    ensures Stem(WantedName(f, isWord)) == SafePart(Student(f), isWord, 40) + " - " + SafePart(Title(f), isWord, 40)
    ensures Suffix(WantedName(f, isWord)) == ExtText(f.ext)
  {
    var student, title := SafePart(Student(f), isWord, 40), SafePart(Title(f), isWord, 40);
    SafePartNoDot(Student(f), isWord, 40);
    SafePartNoDot(Title(f), isWord, 40);
    ConcatNoDot(student, " - ");
    ConcatNoDot(student + " - ", title);
    ExtTextShape(f.ext);
    SplitExtension(student + " - " + title, ExtText(f.ext));
  }

  // ---------------------------------------------------------------- request

  /**
    `handle_submit`: the file is saved under a free name and announced to
    the dashboards; there is no password. `dir` is the day's folder, `time`
    the clock reading, `isWord` the `\w` class and `encode` the JSON encoder.
   */
  method Submit(s: Server, parts: seq<FormPart>, dir: string, time: string,
                isWord: char -> bool, encode: Record -> string)
    returns (r: Server, reply: Reply)
    ensures reply.Saved? && reply.dir == dir
    ensures var f := ReadForm(parts, false);
            && FreeFor(WantedName(f, isWord), s.files.Keys, reply.name)
            && r.files == s.files[reply.name := f.file]
            && r.hub == Broadcast(s.hub, "submission",
                                  encode(Record(time, Student(f), Title(f), SavedPath(reply))))
  {
    var f := ReadForm(parts, false);
    var name := FreeName(WantedName(f, isWord), s.files.Keys);
    reply := Saved(dir, name);
    r := Server(Broadcast(s.hub, "submission", encode(Record(time, Student(f), Title(f), SavedPath(reply)))),
                s.files[name := f.file]);
  }

  // ------------------------------------------------------------ opening files

  /**
    `handle_open` as written: `dest` and `allowed` are the resolved path of
    the request and of the submissions folder, `existing` the files on disk.
    The guard is a plain string prefix test.
   */
  function OpenFileAsWritten(dest: string, allowed: string, existing: set<string>): (r: Reply)
    ensures r == Launched <==> StartsWith(dest, allowed) && dest in existing
  {
    if !StartsWith(dest, allowed) then Refused(403, "Forbidden")
    else if dest !in existing then Refused(404, "Not found")
    else Launched
  }

  /** A file in a sibling folder whose name extends the submissions folder's passes the guard. */
  lemma SiblingOpensAsWritten(allowed: string)
    ensures var dest := allowed + "2/notes.txt";
            && OpenFileAsWritten(dest, allowed, {dest}) == Launched
            && !Within(dest, allowed)
  {
    var dest := allowed + "2/notes.txt";
    assert dest[..|allowed|] == allowed;
    assert dest[|allowed|] == '2';
  }

  /** `dest` is the folder itself or lies below it. */
  predicate Within(dest: string, dir: string) {
    dest == dir || StartsWith(dest, dir + "/")
  }

  /** `handle_open` with the guard it evidently means: only paths inside the folder. */
  function OpenFile(dest: string, allowed: string, existing: set<string>): (r: Reply)
    ensures r == Launched <==> Within(dest, allowed) && dest in existing
    ensures r == Refused(403, "Forbidden") <==> !Within(dest, allowed)
  {
    if !Within(dest, allowed) then Refused(403, "Forbidden")
    else if dest !in existing then Refused(404, "Not found")
    else Launched
  }

  /** The corrected guard only narrows the written one: whatever it opens, the original opens. */
  lemma OpenNarrowsAsWritten(dest: string, allowed: string, existing: set<string>)
    ensures OpenFile(dest, allowed, existing) == Launched ==> OpenFileAsWritten(dest, allowed, existing) == Launched
    ensures OpenFileAsWritten(dest, allowed, existing) == Refused(403, "Forbidden")
            ==> OpenFile(dest, allowed, existing) == Refused(403, "Forbidden")
  {
    if Within(dest, allowed) && dest != allowed {
      assert dest[..|allowed|] == (allowed + "/")[..|allowed|] == allowed;
    }
  }

  /** Every file the server saves opens under the corrected guard when the day's folder lies in the submissions folder. */
  lemma SavedFilesOpen(allowed: string, date: string, name: string, existing: set<string>)
    requires In(In(allowed, date), name) in existing
    ensures OpenFile(In(In(allowed, date), name), allowed, existing) == Launched
  {
    var dest := In(In(allowed, date), name);
    assert dest == (allowed + "/") + (date + "/" + name);
    assert dest[..|allowed + "/"|] == allowed + "/";
  }
}
