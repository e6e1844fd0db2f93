/**
  The submission receiver: a password-guarded endpoint that saves each
  submitted file under `{surname}-{title}{ext}` in the day's folder, counts
  the submissions for the tray menu, and tells the dashboards.
 */
module Receiver {
  import opened Text
  import opened Naming
  import opened Sse
  import opened Submission

  /**
    The receiver's state: the configured password (empty for none), the
    submissions counted since start, the dashboards, and the files in the
    day's folder by name.
   */
  datatype Server = Server(password: string, count: nat, hub: Hub, files: map<string, string>)

  // ----------------------------------------------------------------- counter

  /** The tray menu's count line. */
  function CountLabel(n: nat): string {
    NatToString(n) + " submission" + (if n != 1 then "s" else "") + " received"
  }

  /** The label names the count: different counts never share a label. */
  lemma CountLabelInjective(m: nat, n: nat)
    requires CountLabel(m) == CountLabel(n)
    ensures m == n
  {
    var a, b := NatToString(m), NatToString(n);
    var x, y := CountLabel(m), CountLabel(n);
    assert x[|a|] == ' ' && y[|b|] == ' ';
    assert x[..|a|] == a && y[..|b|] == b;
    NatToStringInjective(m, n);
  }

  /** The count reads back from the digits before the first space, which are all digits. */
  lemma CountLabelReadsBack(n: nat)
    ensures var l := CountLabel(n);
            var k := IndexOf(l, ' ');
            && 0 < k
            && (forall i :: 0 <= i < k ==> IsDigit(l[i]))
            && ParseNat(l[..k]) == n
  {
    var d, l := NatToString(n), CountLabel(n);
    assert l[|d|] == ' ' && l[..|d|] == d;
    assert forall i :: 0 <= i < |d| ==> l[i] == d[i];
    assert ' ' !in d by {
      forall i | 0 <= i < |d| ensures d[i] != ' ' {
        assert IsDigit(d[i]);
      }
    }
    IndexOfUnique(l, ' ', |d|);
    ParseNatToString(n);
  }

  /** `_on_submission`: one more submission counted. */
  function OnSubmission(s: Server): (r: Server)
    ensures r.count == s.count + 1 && r.(count := s.count) == s
  {
    s.(count := s.count + 1)
  }

  // -------------------------------------------------------------- file name

  /** A configured password that the submission does not match. */
  predicate Refuses(required: string, submitted: string) {
    required != "" && submitted != required
  }

  /** The surname: the last whitespace-separated word, or `Unknown` for a blank name. */
  function LastName(student: string): (w: string)
    ensures !AllSpace(student) ==> IsWord(w)
  {
    if AllSpace(student) then "Unknown" else LastWord(student)
  }

  /** `re.sub(r"[^\w\-]", "", last_name)[:30]`. */
  function SafeLast(student: string, isWord: char -> bool): (r: string)
    ensures |r| <= 30
    ensures forall i :: 0 <= i < |r| ==> SurnameChar(r[i], isWord)
  {
    Take(Keep(LastName(student), c => SurnameChar(c, isWord)), 30)
  }

  /** A surname of at most 30 word characters and hyphens is kept whole. */
  lemma SafeLastKeepsPlain(student: string, isWord: char -> bool)
    requires !AllSpace(student)
    requires var w := LastWord(student);
             |w| <= 30 && forall i :: 0 <= i < |w| ==> SurnameChar(w[i], isWord)
    ensures SafeLast(student, isWord) == LastWord(student)
  {
  }

  /** `{safe_last}-{safe_title}{ext}`. */
  function WantedName(f: Fields, isWord: char -> bool): string {
    SafeLast(Student(f), isWord) + "-" + SafePart(Title(f), isWord, 50) + ExtText(f.ext)
  }

  lemma SafeLastNoDot(student: string, isWord: char -> bool)
    requires !isWord('.')
    ensures '.' !in SafeLast(student, isWord)
  {
    var last := SafeLast(student, isWord);
    forall i | 0 <= i < |last| ensures last[i] != '.' {
      assert SurnameChar(last[i], isWord);
    }
  }

  /** `\w` never matching a dot, the wanted name splits into the two parts and the extension. */
  lemma WantedNameSplits(f: Fields, isWord: char -> bool)
    requires !isWord('.')
    ensures Stem(WantedName(f, isWord)) == SafeLast(Student(f), isWord) + "-" + SafePart(Title(f), isWord, 50)
    ensures Suffix(WantedName(f, isWord)) == ExtText(f.ext)
  {
    var last, title := SafeLast(Student(f), isWord), SafePart(Title(f), isWord, 50);
    SafeLastNoDot(Student(f), isWord);
    SafePartNoDot(Title(f), isWord, 50);
    ConcatNoDot(last, "-");
    ConcatNoDot(last + "-", title);
    ExtTextShape(f.ext);
    SplitExtension(last + "-" + title, ExtText(f.ext));
  }

  // ---------------------------------------------------------------- request

  /**
    `handle_submit`: a wrong password is refused with 401 and changes
    nothing; every other submission is saved under a free name, counted, and
    announced to the dashboards. `dir` is the day's folder, `time` the
    clock reading, `isWord` the `\w` class and `encode` the JSON encoder.
   */
  method Submit(s: Server, parts: seq<FormPart>, dir: string, time: string,
                isWord: char -> bool, encode: Record -> string)
    returns (r: Server, reply: Reply)
    ensures reply.Refused? <==> Refuses(s.password, ReadForm(parts, true).password)
    ensures reply.Refused? ==> reply == Refused(401, "Incorrect password") && r == s
    ensures !reply.Refused? ==> reply.Saved?
    ensures reply.Saved? ==>
              var f := ReadForm(parts, true);
              && reply.dir == dir
              && FreeFor(WantedName(f, isWord), s.files.Keys, reply.name)
              && r.files == s.files[reply.name := f.file]
              && r.count == s.count + 1 && r.password == s.password
              && r.hub == Broadcast(s.hub, "submission",
                                    encode(Record(time, Student(f), Title(f), SavedPath(reply))))
  {
    var f := ReadForm(parts, true);
    if Refuses(s.password, f.password) {
      return s, Refused(401, "Incorrect password");
    }
    var name := FreeName(WantedName(f, isWord), s.files.Keys);
    reply := Saved(dir, name);
    r := OnSubmission(s.(files := s.files[name := f.file]));
    r := r.(hub := Broadcast(r.hub, "submission", encode(Record(time, Student(f), Title(f), SavedPath(reply)))));
  }
}
