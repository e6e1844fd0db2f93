/**
  The `---`-fenced key/value header at the top of a manuscript: how it is read
  and how missing keys are added to it.
 */
module Frontmatter {
  import opened Opt
  import opened Text

  /** Parsed front matter: key to value, as a Python dict of strings. */
  type Yaml = map<string, string>

  /** The opening fence, which must start the text. */
  const Open: string := "---\n"

  /** The closing fence: a line that starts with three dashes. */
  const Close: string := "\n---"

  /**
    The first index at or after `i` where `needle` occurs in `s`: a lazy
    regular-expression group stops at the first place its continuation matches.
   */
  function FindFrom(s: string, needle: string, i: nat): (r: Option<nat>)
    ensures r.Some? ==> i <= r.value && OccursAt(s, needle, r.value)
    ensures forall k :: i <= k && (r.None? || k < r.value) ==> !OccursAt(s, needle, k)
    decreases |s| - i
  {
    if i + |needle| > |s| then None
    else if s[i..i + |needle|] == needle then Some(i)
    else FindFrom(s, needle, i + 1)
  }

  /**
    Where the body of the front matter ends, if the text has front matter:
    `^---\n(.*?)\n---` with DOTALL, so the body starts after the opening fence
    and ends at the first closing fence after it.
   */
  function FenceEnd(content: string): (r: Option<nat>)
    ensures r.Some? ==> StartsWith(content, Open) && |Open| <= r.value && OccursAt(content, Close, r.value)
    ensures r.Some? ==> forall k :: |Open| <= k < r.value ==> !OccursAt(content, Close, k)
    ensures StartsWith(content, Open) && (exists k :: |Open| <= k && OccursAt(content, Close, k)) ==> r.Some?
  {
    if StartsWith(content, Open) then FindFrom(content, Close, |Open|) else None
  }

  /** The text between the fences. */
  function Body(content: string): (r: Option<string>)
    ensures r.Some? <==> FenceEnd(content).Some?
    ensures r.Some? ==> r.value == content[|Open|..FenceEnd(content).value]
  {
    match FenceEnd(content)
    case None => None
    case Some(j) => Some(content[|Open|..j])
  }

  /**
    The key a front-matter line defines: the stripped text before its first
    colon, when that colon is not the first character.
   */
  function KeyOf(line: string): (r: Option<string>)
    ensures r.Some? <==> ':' in line && line[0] != ':'
  {
    var idx := IndexOf(line, ':');
    if idx > 0 then Some(Strip(line[..idx])) else None
  }

  /** One pair of matching single or double quotes around a value is removed. */
  function Unquote(v: string): (r: string)
    ensures |v| >= 2 && v[0] == v[|v| - 1] && v[0] in "\"'" ==> v == [v[0]] + r + [v[0]]
    ensures !(|v| >= 2 && v[0] == v[|v| - 1] && v[0] in "\"'") ==> r == v
  {
    if |v| >= 2 && v[0] == v[|v| - 1] && (v[0] == '"' || v[0] == '\'') then v[1..|v| - 1] else v
  }

  /** The value a line with a key carries: the stripped text after the colon, unquoted. */
  function ValueOf(line: string): string
    requires ':' in line
  {
    var idx := IndexOf(line, ':');
    Unquote(Strip(line[idx + 1..]))
  }

  /** The key and value a line defines, if any. */
  function Entry(line: string): (e: Option<(string, string)>)
    ensures e.Some? <==> KeyOf(line).Some?
    ensures e.Some? ==> e.value.0 == KeyOf(line).value && e.value.1 == ValueOf(line)
  {
    match KeyOf(line)
    case None => None
    case Some(k) => Some((k, ValueOf(line)))
  }

  /**
    A line "k:v" whose key part holds no colon defines the stripped key with
    the stripped, unquoted value; colons inside the value stay in it.
   */
  lemma LineEntry(k: string, v: string)
    requires k != [] && ':' !in k
    ensures KeyOf(k + ":" + v) == Some(Strip(k))
    ensures ValueOf(k + ":" + v) == Unquote(Strip(v))
    ensures Entry(k + ":" + v) == Some((Strip(k), Unquote(Strip(v))))
  {
    var line := k + ":" + v;
    assert line[..|k|] == k;
    assert line[|k|] == ':';
    IndexOfUnique(line, ':', |k|);
    assert line[|k| + 1..] == v;
  }

  /** A dict assignment `yaml[key] = val`, when the line defines something. */
  function Apply(m: Yaml, e: Option<(string, string)>): Yaml {
    match e
    case None => m
    case Some((k, v)) => m[k := v]
  }

  /** The lines' definitions, applied in order so that a later key overwrites an earlier one. */
  function ParseLines(lines: seq<string>): (m: Yaml)
  {
    if lines == [] then map[] else Apply(ParseLines(lines[..|lines| - 1]), Entry(lines[|lines| - 1]))
  }

  /** `parse_yaml_frontmatter`: empty unless the text opens with a fenced body. */
  function ParseFrontmatter(content: string): (yaml: Yaml)
    ensures Body(content).None? ==> yaml == map[]
    ensures Body(content).Some? ==> yaml == ParseLines(Split(Body(content).value, '\n'))
  {
    match Body(content)
    case None => map[]
    case Some(b) => ParseLines(Split(b, '\n'))
  }

  /** Every line that defines a key puts that key in the result. */
  lemma {:induction false} ParseLinesHasKey(lines: seq<string>, i: nat)
    requires i < |lines| && KeyOf(lines[i]).Some?
    ensures KeyOf(lines[i]).value in ParseLines(lines)
    decreases |lines|
  {
    if i < |lines| - 1 {
      ParseLinesHasKey(lines[..|lines| - 1], i);
    }
  }

  /** A key's value comes from the last line that defines it. */
  lemma {:induction false} ParseLinesLastWins(lines: seq<string>, i: nat)
    requires i < |lines| && KeyOf(lines[i]).Some?
    requires forall j :: i < j < |lines| ==> KeyOf(lines[j]) != KeyOf(lines[i])
    ensures KeyOf(lines[i]).value in ParseLines(lines)
    ensures ParseLines(lines)[KeyOf(lines[i]).value] == ValueOf(lines[i])
    decreases |lines|
  {
    if i < |lines| - 1 {
      var init := lines[..|lines| - 1];
      assert forall j :: i < j < |init| ==> init[j] == lines[j];
      ParseLinesLastWins(init, i);
      assert KeyOf(lines[|lines| - 1]) != KeyOf(lines[i]);
    }
  }

  /** Only lines that define a key put it in the result. */
  lemma {:induction false} ParseLinesOnlyDefined(lines: seq<string>, k: string) returns (i: nat)
    requires k in ParseLines(lines)
    ensures i < |lines| && KeyOf(lines[i]) == Some(k)
    decreases |lines|
  {
    var line := lines[|lines| - 1];
    if KeyOf(line) == Some(k) {
      i := |lines| - 1;
    } else {
      i := ParseLinesOnlyDefined(lines[..|lines| - 1], k);
    }
  }

  /** Text without a closing fence after the opening one: no `\n---` anywhere. */
  predicate NoClose(s: string) {
    forall k :: 0 <= k <= |s| - |Close| ==> !OccursAt(s, Close, k)
  }

  /**
    Front matter written as the opening fence, a body and the closing fence is
    read back with exactly that body, as long as the body cannot end early:
    neither the body nor its junction with the closing fence holds a `\n---`.
   */
  lemma FencedBody(body: string, rest: string)
    requires NoClose(body + "\n--")
    ensures Body(Open + body + Close + rest) == Some(body)
  {
    var c := Open + body + Close + rest;
    var e := |Open| + |body|;
    assert c[e..e + |Close|] == Close;
    assert OccursAt(c, Close, e);
    var j := FenceEnd(c).value;
    if j < e {
      var b := body + "\n--";
      assert c == Open + b + ("-" + rest);
      assert c[|Open|..|Open| + |b|] == b;
      assert c[j..j + 4] == c[|Open|..|Open| + |b|][j - 4..j];
      assert OccursAt(b, Close, j - 4);
    }
    assert c[|Open|..e] == body;
  }

  /** A body read from a text has no closing fence before its own. */
  lemma BodyHasNoClose(text: string)
    requires FenceEnd(text).Some?
    ensures NoClose(Body(text).value + "\n--")
  {
    var j := FenceEnd(text).value;
    var b := text[|Open|..j + 3];
    assert b == Body(text).value + "\n--" by {
      assert text[j..j + 4] == Close;
      assert text[j..j + 3] == text[j..j + 4][..3];
      assert Close[..3] == "\n--";
      assert text[|Open|..j + 3] == text[|Open|..j] + text[j..j + 3];
    }
    forall k | 0 <= k <= |b| - |Close|
      ensures !OccursAt(b, Close, k)
    {
      assert b[k..k + 4] == text[k + 4..k + 8] by {
        var x, y := b[k..k + 4], text[k + 4..k + 8];
        forall i | 0 <= i < 4 ensures x[i] == y[i] {
          assert b[k + i] == text[k + 4 + i];
        }
      }
      assert !OccursAt(text, Close, k + 4);
    }
  }

  // ---------------------------------------------------------------- insertion

  /** The properties the insert command offers, in the order it writes them. */
  const Props: seq<string> := ["title", "author", "instructor", "date", "spacing", "style"]

  /** A property name that reads back as itself from a "name: " line. */
  predicate PropName(p: string) {
    p != [] && ':' !in p && '\n' !in p && '-' !in p && !IsSpace(p[0]) && !IsSpace(p[|p| - 1])
  }

  lemma PropsAreNames()
    ensures forall i :: 0 <= i < |Props| ==> PropName(Props[i])
  {
  }

  /** The missing properties are property names too. */
  lemma MissingAreNames(present: set<string>)
    ensures forall i :: 0 <= i < |Missing(Props, present)| ==> PropName(Missing(Props, present)[i])
  {
    PropsAreNames();
    var m := Missing(Props, present);
    forall i | 0 <= i < |m| ensures PropName(m[i]) {
      assert m[i] in Props;
    }
  }

  /** The empty-valued line the command writes for a property. */
  function PropLine(p: string): string {
    p + ": "
  }

  function PropLines(ps: seq<string>): (lines: seq<string>)
    ensures |lines| == |ps| && forall i :: 0 <= i < |ps| ==> lines[i] == PropLine(ps[i])
  {
    seq(|ps|, i requires 0 <= i < |ps| => PropLine(ps[i]))
  }

  /**
    The properties of `ps` not in `present`, in their original order and as
    often as `ps` lists them (`MissingCounts`, `MissingSubsequence`).
   */
  function Missing(ps: seq<string>, present: set<string>): (r: seq<string>)
    ensures forall p :: p in r <==> p in ps && p !in present
  {
    if ps == [] then []
    else (if ps[0] in present then [] else [ps[0]]) + Missing(ps[1..], present)
  }

  /** Every absent property is listed as often as `ps` lists it. */
  lemma {:induction false} MissingCounts(ps: seq<string>, present: set<string>)
    ensures forall p: string :: p !in present ==> multiset(Missing(ps, present))[p] == multiset(ps)[p]
    decreases |ps|
  {
    if ps != [] {
      var h := if ps[0] in present then [] else [ps[0]];
      var rest := Missing(ps[1..], present);
      MissingCounts(ps[1..], present);
      assert ps == [ps[0]] + ps[1..];
      assert multiset(Missing(ps, present)) == multiset(h) + multiset(rest);
      assert multiset(ps) == multiset([ps[0]]) + multiset(ps[1..]);
    }
  }

  /** The absent properties keep the order of `ps`. */
  lemma {:induction false} MissingSubsequence(ps: seq<string>, present: set<string>)
    ensures IsSubsequence(Missing(ps, present), ps)
    decreases |ps|
  {
    if ps != [] {
      var rest := Missing(ps[1..], present);
      MissingSubsequence(ps[1..], present);
      if ps[0] !in present {
        var r := [ps[0]] + rest;
        assert r == Missing(ps, present);
        assert r[0] == ps[0] && r[1..] == rest;
      } else {
        assert rest == Missing(ps, present);
      }
    }
  }

  /**
    The properties `Missing` lists are fixed by its contract: a subsequence
    of `ps` that holds no present property and lists every absent one as
    often as `ps` does is `Missing(ps, present)`.
   */
  lemma MissingDetermined(ps: seq<string>, present: set<string>, r: seq<string>)
    requires IsSubsequence(r, ps) && forall p :: p in r ==> p !in present
    requires forall p: string :: p !in present ==> multiset(r)[p] == multiset(ps)[p]
    ensures r == Missing(ps, present)
  {
    var m := Missing(ps, present);
    MissingCounts(ps, present);
    MissingSubsequence(ps, present);
    assert multiset(r) == multiset(m) by {
      forall p ensures multiset(r)[p] == multiset(m)[p] {
        if p in present {
          assert p !in r && p !in m;
        }
      }
    }
    FullSubsequencesAgree(m, r, ps);
  }

  /**
    `action_insert_frontmatter`. With front matter present, one empty-valued
    line per missing property is spliced in just before the closing fence, or
    nothing happens (`None`) when none is missing; keys are recognised by the
    same rule the parser uses. Without front matter a complete block is put in
    front of the text.
   */
  function InsertFrontmatter(text: string): (r: Option<string>)
  {
    match FenceEnd(text)
    case Some(j) =>
      var missing := Missing(Props, ParseFrontmatter(text).Keys);
      if missing == [] then None
      else Some(text[..j] + "\n" + Join(PropLines(missing), '\n') + text[j..])
    case None =>
      Some(Open + Join(PropLines(Props), '\n') + "\n---\n" + text)
  }

  /** A property line defines the property with an empty value. */
  lemma PropLineEntry(p: string)
    requires PropName(p)
    ensures KeyOf(PropLine(p)) == Some(p)
    ensures ':' in PropLine(p) && ValueOf(PropLine(p)) == ""
    ensures Entry(PropLine(p)) == Some((p, ""))
  {
    var line := PropLine(p);
    assert line[..|p|] == p;
    assert line[|p|] == ':';
    IndexOfUnique(line, ':', |p|);
    StripUnchanged(p);
    assert line[|p| + 1..] == " ";
    assert Strip(" ") == "" by {
      assert IsSpace(' ');
      assert LStrip(" ") == LStrip(" "[1..]);
    }
  }

  /** Every property of `ps` with an empty value. */
  function EmptyValues(ps: seq<string>): Yaml {
    map k | k in ps :: ""
  }

  lemma EmptyValuesSnoc(ps: seq<string>, p: string)
    ensures EmptyValues(ps + [p]) == EmptyValues(ps)[p := ""]
  {
    assert forall k :: k in ps + [p] <==> k in ps || k == p;
  }

  /** Property lines define exactly their properties, each with an empty value. */
  lemma {:induction false} ParsePropLines(ps: seq<string>)
    requires forall i :: 0 <= i < |ps| ==> PropName(ps[i])
    ensures ParseLines(PropLines(ps)) == EmptyValues(ps)
    decreases |ps|
  {
    if ps != [] {
      var init, p := ps[..|ps| - 1], ps[|ps| - 1];
      assert ps == init + [p];
      ParsePropLines(init);
      PropLinesSnoc(init, p);
      PropLineEntry(p);
      EmptyValuesSnoc(init, p);
      calc {
        ParseLines(PropLines(init + [p]));
        Apply(ParseLines(PropLines(init)), Entry(PropLine(p)));
        Apply(EmptyValues(init), Some((p, "")));
        EmptyValues(init + [p]);
      }
    }
  }

  lemma PropLinesSnoc(ps: seq<string>, p: string)
    ensures ParseLines(PropLines(ps + [p])) == Apply(ParseLines(PropLines(ps)), Entry(PropLine(p)))
  {
    var l := PropLines(ps + [p]);
    assert l[..|l| - 1] == PropLines(ps) by {
      forall i | 0 <= i < |ps| ensures l[i] == PropLines(ps)[i] {
        assert (ps + [p])[i] == ps[i];
      }
    }
    assert l[|l| - 1] == PropLine(p);
  }

  lemma ApplyUnion(m1: Yaml, m2: Yaml, e: Option<(string, string)>)
    ensures Apply(m1 + m2, e) == m1 + Apply(m2, e)
  {
    match e
    case None =>
    case Some((k, v)) =>
      assert (m1 + m2)[k := v] == m1 + m2[k := v];
  }

  /** Parsing more lines overrides what the earlier lines defined. */
  lemma {:induction false} ParseLinesAppend(a: seq<string>, b: seq<string>)
    ensures ParseLines(a + b) == ParseLines(a) + ParseLines(b)
    decreases |b|
  {
    if b == [] {
      assert a + b == a;
    } else {
      var b0, line := b[..|b| - 1], b[|b| - 1];
      assert (a + b)[..|a + b| - 1] == a + b0 && (a + b)[|a + b| - 1] == line;
      ParseLinesAppend(a, b0);
      ApplyUnion(ParseLines(a), ParseLines(b0), Entry(line));
    }
  }

  /**
    Splicing lines that hold no dash and do not end in a newline in front of
    the closing fence cannot create an earlier closing fence.
   */
  lemma NoCloseSplice(body: string, l: string)
    requires NoClose(body + "\n--")
    requires l != [] && '-' !in l && l[|l| - 1] != '\n'
    ensures NoClose(body + "\n" + l + "\n--")
  {
    var x := body + "\n" + l + "\n--";
    forall k | 0 <= k <= |x| - |Close|
      ensures !OccursAt(x, Close, k)
    {
      if k + 4 <= |body| {
        assert x[k..k + 4] == (body + "\n--")[k..k + 4];
        assert !OccursAt(body + "\n--", Close, k);
      } else if k < |body| {
        assert x[k..k + 4][|body| - k] == x[|body|] == '\n';
      } else if k < |body| + |l| {
        assert x[k..k + 4][1] == x[k + 1] == l[k - |body|];
      } else {
        assert x[k..k + 4][0] == x[k] == l[|l| - 1];
      }
    }
  }

  /** The same for lines that form the whole body. */
  lemma NoCloseLines(l: string)
    requires l != [] && '-' !in l && l[|l| - 1] != '\n'
    ensures NoClose(l + "\n--")
  {
    var x := l + "\n--";
    forall k | 0 <= k <= |x| - |Close|
      ensures !OccursAt(x, Close, k)
    {
      if k < |l| - 1 {
        assert x[k..k + 4][1] == x[k + 1] == l[k + 1];
      } else {
        assert x[k..k + 4][0] == x[k] == l[|l| - 1];
      }
    }
  }

  /** The joined property lines: dash-free, non-empty, ending in a blank. */
  lemma JoinedPropLines(ps: seq<string>)
    requires ps != [] && forall i :: 0 <= i < |ps| ==> PropName(ps[i])
    ensures var l := Join(PropLines(ps), '\n');
            l != [] && '-' !in l && l[|l| - 1] == ' '
            && Split(l, '\n') == PropLines(ps)
  {
    var lines := PropLines(ps);
    forall k | 0 <= k < |lines|
      ensures '-' !in lines[k] && '\n' !in lines[k]
    {
      assert lines[k] == ps[k] + ": ";
    }
    JoinExcludes(lines, '\n', '-');
    JoinEndsWithLast(lines, '\n');
    SplitJoin(lines, '\n');
    var last := lines[|lines| - 1];
    var l := Join(lines, '\n');
    assert l[|l| - 1] == l[|l| - |last|..][|last| - 1];
  }

  /**
    Lines spliced in front of the closing fence extend the body, as long as
    they hold no dash and do not end in a newline.
   */
  lemma SplicedBody(text: string, l: string)
    requires FenceEnd(text).Some?
    requires l != [] && '-' !in l && l[|l| - 1] != '\n'
    ensures var j := FenceEnd(text).value;
            Body(text[..j] + "\n" + l + text[j..]) == Some(Body(text).value + "\n" + l)
  {
    var j := FenceEnd(text).value;
    var body := Body(text).value;
    var rest := text[j + |Close|..];
    assert text[..j] == Open + body;
    assert text[j..] == Close + rest;
    assert text[..j] + "\n" + l + text[j..] == Open + (body + "\n" + l) + Close + rest;
    BodyHasNoClose(text);
    NoCloseSplice(body, l);
    FencedBody(body + "\n" + l, rest);
  }

  /** Splicing into existing front matter adds the missing properties and nothing else. */
  lemma InsertIntoExisting(text: string)
    requires FenceEnd(text).Some?
    ensures var before := ParseFrontmatter(text);
            var missing := Missing(Props, before.Keys);
            var r := InsertFrontmatter(text);
            (r.None? <==> missing == [])
            && (r.Some? ==> ParseFrontmatter(r.value) == before + EmptyValues(missing))
  {
    var j := FenceEnd(text).value;
    var before := ParseFrontmatter(text);
    var missing := Missing(Props, before.Keys);
    if missing != [] {
      MissingAreNames(before.Keys);
      var l := Join(PropLines(missing), '\n');
      assert InsertFrontmatter(text) == Some(text[..j] + "\n" + l + text[j..]);
      SplicedParse(text, missing);
    }
  }

  /** The front matter with property lines spliced in parses as before plus those properties. */
  lemma SplicedParse(text: string, missing: seq<string>)
    requires FenceEnd(text).Some?
    requires missing != [] && forall i :: 0 <= i < |missing| ==> PropName(missing[i])
    ensures var j := FenceEnd(text).value;
            var l := Join(PropLines(missing), '\n');
            ParseFrontmatter(text[..j] + "\n" + l + text[j..]) == ParseFrontmatter(text) + EmptyValues(missing)
  {
    var j := FenceEnd(text).value;
    var body := Body(text).value;
    var lines := PropLines(missing);
    var l := Join(lines, '\n');
    JoinedPropLines(missing);
    assert ParseFrontmatter(text[..j] + "\n" + l + text[j..]) == ParseLines(Split(body + "\n" + l, '\n')) by {
      SplicedBody(text, l);
    }
    assert Split(body + "\n" + l, '\n') == Split(body, '\n') + lines by {
      SplitConcat(body, l, '\n');
    }
    assert ParseLines(Split(body, '\n') + lines) == ParseFrontmatter(text) + ParseLines(lines) by {
      ParseLinesAppend(Split(body, '\n'), lines);
    }
    ParsePropLines(missing);
  }

  /** A fresh block of property lines reads back as those properties, all empty. */
  lemma FreshBlock(ps: seq<string>, text: string)
    requires ps != [] && forall i :: 0 <= i < |ps| ==> PropName(ps[i])
    ensures ParseFrontmatter(Open + Join(PropLines(ps), '\n') + "\n---\n" + text) == EmptyValues(ps)
  {
    JoinedPropLines(ps);
    var l := Join(PropLines(ps), '\n');
    assert Open + l + "\n---\n" + text == Open + l + Close + ("\n" + text);
    NoCloseLines(l);
    FencedBody(l, "\n" + text);
    ParsePropLines(ps);
  }

  /** Text without front matter gets a complete block of empty properties. */
  lemma InsertFresh(text: string)
    requires FenceEnd(text).None?
    ensures InsertFrontmatter(text).Some?
    ensures ParseFrontmatter(InsertFrontmatter(text).value) == EmptyValues(Props)
  {
    PropsAreNames();
    FreshBlock(Props, text);
  }

  /**
    After inserting front matter every offered property is a key, every key
    that was there keeps its value, and the added ones are empty. The command
    does nothing exactly when front matter exists and has every property.
   */
  lemma InsertFrontmatterCompletes(text: string)
    ensures var before := ParseFrontmatter(text);
            InsertFrontmatter(text).None? <==> Body(text).Some? && forall p :: p in Props ==> p in before
    ensures var before := ParseFrontmatter(text);
            var r := InsertFrontmatter(text);
            r.Some? ==>
              (forall p :: p in Props ==> p in ParseFrontmatter(r.value))
              && (forall k :: k in before ==> k in ParseFrontmatter(r.value) && ParseFrontmatter(r.value)[k] == before[k])
              && (forall p :: p in Props && p !in before ==> ParseFrontmatter(r.value)[p] == "")
  {
    var before := ParseFrontmatter(text);
    var r := InsertFrontmatter(text);
    if FenceEnd(text).Some? {
      InsertIntoExisting(text);
      var missing := Missing(Props, before.Keys);
      if r.Some? {
        assert missing[0] in Props && missing[0] !in before;
        AddedEmpty(before, missing);
      } else {
        assert forall p :: p in Props ==> p in before;
      }
    } else {
      InsertFresh(text);
      assert before == map[];
      AddedEmpty(before, Props);
      assert before + EmptyValues(Props) == EmptyValues(Props);
    }
  }

  /** Adding empty values for the properties a dict lacks. */
  lemma AddedEmpty(before: Yaml, missing: seq<string>)
    requires forall p :: p in missing <==> p in Props && p !in before
    ensures forall p :: p in Props ==> p in before + EmptyValues(missing)
    ensures forall k :: k in before ==> (before + EmptyValues(missing))[k] == before[k]
    ensures forall p :: p in Props && p !in before ==> (before + EmptyValues(missing))[p] == ""
  {
  }
}
