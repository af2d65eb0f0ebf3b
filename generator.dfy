/**
 * `FileGenerator`: validates a class name and a whitespace-separated list of
 * namespaces, instantiates the four templates, and writes a header and a
 * source file into the working directory, each wrapped in one
 * `namespace … { … }` block per namespace.
 *
 * The working directory is a map from file name to contents; a file opened
 * with mode `'w'` starts empty, is written in order and replaces any file of
 * the same name when it is closed.
 */
module Generator {
  import opened Wrappers
  import opened Identifiers
  import opened Text
  import opened Templates
  import Dates

  // ---------------------------------------------------------------- validation

  /** The `RuntimeError`s `__init__` raises, each carrying the offending (stripped) name. */
  datatype GenError = BadNamespace(name: string) | BadClassName(name: string)

  const Complaint: string := " is not alphanumeric, a-z, 0-9, _ allowed only"

  /** The text of the error. */
  function Message(e: GenError): string
  {
    match e
    case BadNamespace(n) => "Namespace '" + n + "'" + Complaint
    case BadClassName(n) => "Class name '" + n + "'" + Complaint
  }

  /** The message names the kind of name and quotes the name itself right after it. */
  lemma MessageQuotesName(e: GenError)
    ensures var lead := if e.BadNamespace? then "Namespace '" else "Class name '";
      var m := Message(e);
      |m| > |lead| + |e.name|
      && m[..|lead|] == lead
      && m[|lead|..|lead| + |e.name|] == e.name
      && m[|lead| + |e.name|] == '\''
  {
    match e
    case BadNamespace(n) =>
      Quoted("Namespace '", n, "'" + Complaint);
    case BadClassName(n) =>
      Quoted("Class name '", n, "'" + Complaint);
  }

  lemma Quoted(lead: string, name: string, tail: string)
    requires tail != []
    ensures var m := lead + name + tail;
      |m| > |lead| + |name|
      && m[..|lead|] == lead
      && m[|lead|..|lead| + |name|] == name
      && m[|lead| + |name|] == tail[0]
  {
  }

  /** The index of the first name `isAlphaNum` rejects, if any. */
  function FirstInvalid(names: seq<string>): (r: Option<nat>)
    ensures r.None? <==> forall k :: 0 <= k < |names| ==> IsAlphaNum(names[k])
    ensures r.Some? ==> r.value < |names| && !IsAlphaNum(names[r.value])
    ensures r.Some? ==> forall k :: 0 <= k < r.value ==> IsAlphaNum(names[k])
  {
    if names == [] then None
    else if !IsAlphaNum(names[0]) then Some(0)
    else match FirstInvalid(names[1..])
      case None => None
      case Some(i) => Some(i + 1)
  }

  /** What `__init__` keeps once both checks pass. */
  datatype Request = Request(namespaces: seq<string>, className: string)

  /**
   * The outcome of `__init__`'s checks: every namespace in order, then the
   * stripped class name. The first failing name decides the error.
   */
  function Validate(className: string, namespaces: string): (r: Result<Request, GenError>)
    ensures r.Success? <==>
      (forall k :: 0 <= k < |Split(namespaces)| ==> IsAlphaNum(Split(namespaces)[k]))
      && IsAlphaNum(Strip(className))
    ensures r.Success? ==> r.value == Request(Split(namespaces), Strip(className))
  {
    var tokens := Split(namespaces);
    match FirstInvalid(tokens)
    case Some(i) => Failure(BadNamespace(tokens[i]))
    case None =>
      var name := Strip(className);
      if IsAlphaNum(name) then Success(Request(tokens, name)) else Failure(BadClassName(name))
  }

  /** A bad namespace is reported before the class name is looked at, and it is the first bad one. */
  lemma NamespacesCheckedFirst(className: string, namespaces: string, i: nat)
    requires i < |Split(namespaces)| && !IsAlphaNum(Split(namespaces)[i])
    requires forall k :: 0 <= k < i ==> IsAlphaNum(Split(namespaces)[k])
    ensures Validate(className, namespaces) == Failure(BadNamespace(Split(namespaces)[i]))
  {
    var r := FirstInvalid(Split(namespaces));
    assert r.Some?;
  }

  /** With every namespace accepted, the error, if any, is about the class name. */
  lemma ClassNameError(className: string, namespaces: string)
    requires forall k :: 0 <= k < |Split(namespaces)| ==> IsAlphaNum(Split(namespaces)[k])
    ensures Validate(className, namespaces).Failure? <==> !IsAlphaNum(Strip(className))
    ensures Validate(className, namespaces).Failure? ==>
      Validate(className, namespaces).error == BadClassName(Strip(className))
  {
  }

  /**
   * Accepted namespaces typed with any whitespace between them (at least one
   * character) and any at either end come back as the same list, in order.
   */
  lemma NamespacesRoundTrip(className: string, names: seq<string>, seps: seq<string>)
    requires Words(names) && forall k :: 0 <= k < |names| ==> IsAlphaNum(names[k])
    requires Gaps(seps, |names|)
    requires IsAlphaNum(Strip(className))
    ensures Validate(className, Interleave(names, seps)) == Success(Request(names, Strip(className)))
  {
    SplitInterleave(names, seps);
  }

  // ---------------------------------------------------------------- file layout

  /** The lines `writeNamespaceOpening` writes for one namespace. */
  function OpeningLines(name: string): seq<string> {
    ["namespace " + name + "\n", "{\n", "\n"]
  }

  /** The lines `writeNamespaceClosing` writes for one namespace. */
  const ClosingLines: seq<string> := ["\n", "}\n"]

  /** The text of one opening: `namespace <name>`, an open brace, an empty line. */
  function Opening(name: string): string {
    "namespace " + name + "\n" + "{\n" + "\n"
  }

  /** The text of one closing: an empty line and a close brace. */
  const Closing: string := "\n" + "}\n"

  /** Everything `writeNamespaceOpening` writes, outermost namespace first. */
  function Openings(names: seq<string>): string {
    if names == [] then "" else Openings(names[..|names| - 1]) + Opening(names[|names| - 1])
  }

  /** Everything `writeNamespaceClosing` writes for `k` namespaces. */
  function Closings(k: nat): string {
    if k == 0 then "" else Closings(k - 1) + Closing
  }

  /** A generated file: banner, namespace openings, body, one closing per namespace. */
  function FileText(header: string, names: seq<string>, body: string): string {
    header + Openings(names) + body + Closings(|names|)
  }

  /** The lines written for a namespace make up its opening; likewise for the closing. */
  lemma LinesText(name: string)
    ensures Concat(OpeningLines(name)) == Opening(name)
    ensures Concat(ClosingLines) == Closing
  {
    ConcatThree("namespace " + name + "\n", "{\n", "\n");
    ConcatTwo("\n", "}\n");
  }

  lemma ConcatTwo(a: string, b: string)
    ensures Concat([a, b]) == a + b
  {
    assert [b][1..] == [];
    assert Concat([b]) == b + "" == b;
    assert [a, b][1..] == [b];
  }

  lemma ConcatThree(a: string, b: string, c: string)
    ensures Concat([a, b, c]) == a + b + c
  {
    ConcatTwo(b, c);
    assert [a, b, c][1..] == [b, c];
    assert Concat([a, b, c]) == a + (b + c);
  }

  /** Nesting composes: the openings of `a + b` are those of `a`, then those of `b`. */
  lemma {:induction false} OpeningsAppend(a: seq<string>, b: seq<string>)
    ensures Openings(a + b) == Openings(a) + Openings(b)
    decreases |b|
  {
    if b == [] {
      assert a + b == a;
    } else {
      var c, init, last := a + b, b[..|b| - 1], b[|b| - 1];
      assert c[..|c| - 1] == a + init && c[|c| - 1] == last;
      OpeningsAppend(a, init);
      var x, y, z := Openings(a), Openings(init), Opening(last);
      assert Openings(c) == x + y + z;
      assert Openings(b) == y + z;
      assert x + y + z == x + (y + z);
    }
  }

  /** How often `c` occurs in `s`. */
  function Count(s: string, c: char): (n: nat)
    ensures n <= |s|
  {
    if s == [] then 0 else Count(s[..|s| - 1], c) + (if s[|s| - 1] == c then 1 else 0)
  }

  lemma {:induction false} CountAppend(a: string, b: string, c: char)
    ensures Count(a + b, c) == Count(a, c) + Count(b, c)
    decreases |b|
  {
    if b == [] {
      assert a + b == a;
    } else {
      assert (a + b)[..|a + b| - 1] == a + b[..|b| - 1];
      CountAppend(a, b[..|b| - 1], c);
    }
  }

  lemma {:induction false} CountAbsent(s: string, c: char)
    requires c !in s
    ensures Count(s, c) == 0
  {
    if s != [] {
      assert s[..|s| - 1] + [s[|s| - 1]] == s;
      CountAbsent(s[..|s| - 1], c);
    }
  }

  /** How often `c` occurs in all the names together. */
  function CountIn(names: seq<string>, c: char): nat {
    if names == [] then 0 else CountIn(names[..|names| - 1], c) + Count(names[|names| - 1], c)
  }

  /** One opening adds one `{` to the braces of the name itself, and no `}`. */
  lemma {:induction false} OpeningBraces(name: string)
    ensures Count(Opening(name), '{') == 1 + Count(name, '{')
    ensures Count(Opening(name), '}') == Count(name, '}')
  {
    var lead := "namespace " + name + "\n";
    CountAbsent("namespace ", '{');
    CountAbsent("namespace ", '}');
    CountAbsent("\n", '{');
    CountAbsent("\n", '}');
    CountAbsent("{\n", '}');
    CountAppend("namespace ", name, '{');
    CountAppend("namespace ", name, '}');
    CountAppend("namespace " + name, "\n", '{');
    CountAppend("namespace " + name, "\n", '}');
    CountAppend("{", "\n", '{');
    assert "{" + "\n" == "{\n";
    CountAppend(lead, "{\n", '{');
    CountAppend(lead, "{\n", '}');
    CountAppend(lead + "{\n", "\n", '{');
    CountAppend(lead + "{\n", "\n", '}');
  }

  /** One closing closes one brace and opens none. */
  lemma {:induction false} ClosingBraces()
    ensures Count(Closing, '}') == 1 && Count(Closing, '{') == 0
  {
    CountAbsent("\n", '{');
    CountAbsent("\n", '}');
    CountAbsent("}\n", '{');
    CountAppend("}", "\n", '}');
    assert "}" + "\n" == "}\n";
    CountAppend("\n", "}\n", '{');
    CountAppend("\n", "}\n", '}');
  }

  /** The openings hold one `{` per namespace plus those in the names, and only the names' `}`. */
  lemma {:induction false} OpeningsBraces(names: seq<string>)
    ensures Count(Openings(names), '{') == |names| + CountIn(names, '{')
    ensures Count(Openings(names), '}') == CountIn(names, '}')
  {
    if names != [] {
      var init, last := names[..|names| - 1], names[|names| - 1];
      OpeningsBraces(init);
      OpeningBraces(last);
      CountAppend(Openings(init), Opening(last), '{');
      CountAppend(Openings(init), Opening(last), '}');
    }
  }

  /** Every closing closes exactly one brace and opens none. */
  lemma {:induction false} ClosingsBraces(k: nat)
    ensures Count(Closings(k), '}') == k && Count(Closings(k), '{') == 0
  {
    if k > 0 {
      ClosingsBraces(k - 1);
      ClosingBraces();
      CountAppend(Closings(k - 1), Closing, '}');
      CountAppend(Closings(k - 1), Closing, '{');
    }
  }

  /** Names without `c` contribute no `c`. */
  lemma {:induction false} CountInAbsent(names: seq<string>, c: char)
    requires forall k :: 0 <= k < |names| ==> c !in names[k]
    ensures CountIn(names, c) == 0
  {
    if names != [] {
      CountInAbsent(names[..|names| - 1], c);
      CountAbsent(names[|names| - 1], c);
    }
  }

  /**
   * The namespace wrapping opens one brace per namespace and closes one per
   * namespace; braces inside the names come on top of that. So it is balanced
   * exactly when the names hold as many `{` as `}`, in particular when they
   * hold no braces at all.
   */
  lemma WrappingBalanced(names: seq<string>)
    ensures var w := Openings(names) + Closings(|names|);
      && Count(w, '{') == |names| + CountIn(names, '{')
      && Count(w, '}') == |names| + CountIn(names, '}')
      && (Count(w, '{') == Count(w, '}') <==> CountIn(names, '{') == CountIn(names, '}'))
    ensures (forall k :: 0 <= k < |names| ==> '{' !in names[k] && '}' !in names[k]) ==>
      var w := Openings(names) + Closings(|names|);
      Count(w, '{') == Count(w, '}') == |names|
  {
    OpeningsBraces(names);
    ClosingsBraces(|names|);
    CountAppend(Openings(names), Closings(|names|), '{');
    CountAppend(Openings(names), Closings(|names|), '}');
    if forall k :: 0 <= k < |names| ==> '{' !in names[k] && '}' !in names[k] {
      CountInAbsent(names, '{');
      CountInAbsent(names, '}');
    }
  }

  /**
   * `isAlphaNum` looks at two characters only, so a namespace may carry a
   * brace: `ab{ cd` is accepted, and its wrapping opens three braces but
   * closes two.
   */
  lemma {:induction false} UnbalancedNamespaceAccepted()
    ensures Validate("CWidget", "ab{ cd") == Success(Request(["ab{", "cd"], "CWidget"))
    ensures var w := Openings(["ab{", "cd"]) + Closings(2);
      Count(w, '{') == 3 && Count(w, '}') == 2
  {
    BraceNamespaceValid();
    BraceNamespaceCounts();
    WrappingBalanced(["ab{", "cd"]);
  }

  lemma {:induction false} BraceNamespaceValid()
    ensures Validate("CWidget", "ab{ cd") == Success(Request(["ab{", "cd"], "CWidget"))
  {
    var names, seps := ["ab{", "cd"], ["", " ", ""];
    BraceNamespaceLayout();
    BraceNamespaceNames();
    StripNoSpace("CWidget");
    IsAlphaNumIff("CWidget");
    NamespacesRoundTrip("CWidget", names, seps);
  }

  lemma {:induction false} BraceNamespaceNames()
    ensures Words(["ab{", "cd"])
    ensures forall k :: 0 <= k < 2 ==> IsAlphaNum(["ab{", "cd"][k])
  {
    var names := ["ab{", "cd"];
    assert NoSpace(names[0]) && NoSpace(names[1]);
    IsAlphaNumIff("ab{");
    IsAlphaNumIff("cd");
  }

  lemma {:induction false} BraceNamespaceLayout()
    ensures Interleave(["ab{", "cd"], ["", " ", ""]) == "ab{ cd"
    ensures Gaps(["", " ", ""], 2)
  {
    var names, seps := ["ab{", "cd"], ["", " ", ""];
    assert Interleave(names[1..], seps[1..]) == " cd";
    assert AllSpace(seps[1]) by { assert IsSpace(seps[1][0]); }
  }

  lemma {:induction false} BraceNamespaceCounts()
    ensures CountIn(["ab{", "cd"], '{') == 1 && CountIn(["ab{", "cd"], '}') == 0
  {
    var names := ["ab{", "cd"];
    CountAppend("ab", "{", '{');
    CountAppend("ab", "{", '}');
    CountAbsent("ab", '{');
    CountAbsent("ab", '}');
    CountAbsent("cd", '{');
    CountAbsent("cd", '}');
    assert "ab" + "{" == "ab{";
    assert names[..1] == ["ab{"] && names[..1][..0] == [];
  }

  // ---------------------------------------------------------------- the whole run

  /** The directory once `write` has stored the header and the source file for `req`. */
  function Written(files: map<string, string>, req: Request, inst: Instance): map<string, string> {
    files[GetFileName(req.className, false) := FileText(inst.hdrHeader, req.namespaces, inst.hdrBody)]
         [GetFileName(req.className, true) := FileText(inst.srcHeader, req.namespaces, inst.srcBody)]
  }

  /**
   * The directory after a run of `FileGenerator(className, namespaces)` on
   * `date` with the templates `t`, or the error it raises. The program's own
   * templates are `TemplateTexts`.
   */
  function Generate(t: Instance, className: string, namespaces: string, date: string, files: map<string, string>)
    : (r: Result<map<string, string>, GenError>)
    ensures r.Failure? <==> Validate(className, namespaces).Failure?
    ensures r.Failure? ==> r.error == Validate(className, namespaces).error
  {
    match Validate(className, namespaces)
    case Failure(e) => Failure(e)
    case Success(req) => Success(Written(files, req, InstantiateFrom(t, req.className, date)))
  }

  /**
   * `write` stores two different files, the header and the source, and
   * touches no other file; there is no variant that skips the source file.
   */
  lemma BothFilesWritten(files: map<string, string>, req: Request, inst: Instance)
    ensures var out := Written(files, req, inst);
      var hdr, src := GetFileName(req.className, false), GetFileName(req.className, true);
      && hdr != src
      && out.Keys == files.Keys + {hdr, src}
      && out[hdr] == FileText(inst.hdrHeader, req.namespaces, inst.hdrBody)
      && out[src] == FileText(inst.srcHeader, req.namespaces, inst.srcBody)
      && (forall f :: f in files && f != hdr && f != src ==> out[f] == files[f])
  {
    FileNamePair(req.className);
  }

  /**
   * A successful run with the program's templates, for a class name and a
   * date free of `%`: the header file is the rendered banner, the namespace
   * openings, the rendered class declaration and one closing per namespace;
   * the source file likewise, with the implementation.
   */
  lemma GeneratedFiles(className: string, namespaces: string, date: string, files: map<string, string>)
    requires Validate(className, namespaces).Success?
    requires NoPercent(Strip(className)) && NoPercent(date)
    ensures var req := Validate(className, namespaces).value;
      var vals, names := ValuesFor(req.className, date), req.namespaces;
      Generate(TemplateTexts, className, namespaces, date, files) == Success(files
        [GetFileName(req.className, false) :=
           Render(HdrSegments, vals) + Openings(names) + Render(HdrBodySegments, vals) + Closings(|names|)]
        [GetFileName(req.className, true) :=
           Render(SrcHeaderSegments, vals) + Openings(names) + Render(SrcBodySegments, vals) + Closings(|names|)])
  {
    var req := Validate(className, namespaces).value;
    InstantiateRenders(req.className, date);
  }

  /** The date stamp `instantiate` formats never holds a `%`, so only the class name can. */
  lemma StampedTexts(className: string, today: Dates.CalendarDate)
    requires Dates.Valid(today) && NoPercent(className)
    ensures var inst := Instantiate(className, Dates.Format(today));
      NoPercent(inst.hdrHeader) && NoPercent(inst.hdrBody)
      && NoPercent(inst.srcHeader) && NoPercent(inst.srcBody)
  {
    Dates.FormatNoPercent(today);
    InstantiateRenders(className, Dates.Format(today));
  }

  // ---------------------------------------------------------------- the objects

  /** The working directory the files are written into. */
  class Directory {
    var files: map<string, string>

    constructor (files: map<string, string>)
      ensures this.files == files
    {
      this.files := files;
    }
  }

  /** A file opened with mode `'w'`. */
  class TextFile {
    const name: string
    var contents: string

    /** `open(name, mode='w')`: the file starts out empty. */
    constructor Open(name: string)
      ensures this.name == name && contents == ""
    {
      this.name := name;
      contents := "";
    }

    /** `f.write(s)`. */
    method Write(s: string)
      modifies this
      ensures contents == old(contents) + s
    {
      contents := contents + s;
    }

    /** `f.writelines(lines)`: each line in turn, nothing added between them. */
    method WriteLines(lines: seq<string>)
      modifies this
      ensures contents == old(contents) + Concat(lines)
    {
      var i := 0;
      while i < |lines|
        invariant 0 <= i <= |lines|
        invariant contents == old(contents) + Concat(lines[..i])
      {
        ConcatSnoc(lines[..i], lines[i]);
        assert lines[..i + 1] == lines[..i] + [lines[i]];
        contents := contents + lines[i];
        i := i + 1;
      }
      assert lines[..i] == lines;
    }

    /** The end of the `with` block: the contents replace the named file in `dir`. */
    method Close(dir: Directory)
      modifies dir
      ensures dir.files == old(dir.files)[name := contents]
    {
      dir.files := dir.files[name := contents];
    }
  }

  lemma {:induction false} ConcatSnoc(parts: seq<string>, last: string)
    ensures Concat(parts + [last]) == Concat(parts) + last
  {
    if parts == [] {
      assert [] + [last] == [last];
    } else {
      assert (parts + [last])[1..] == parts[1..] + [last];
      ConcatSnoc(parts[1..], last);
    }
  }

  class FileGenerator {
    /** The four module-level templates the object reads. */
    const templates: Instance
    var namespaces: seq<string>
    var className: string
    var hdrHeader: string
    var hdrBody: string
    var srcHeader: string
    var srcBody: string

    /** The four instantiated texts. */
    function Texts(): Instance
      reads this
    {
      Instance(hdrHeader, hdrBody, srcHeader, srcBody)
    }

    /**
     * `FileGenerator(className, namespaces)`: checks every namespace and then
     * the class name, raising the first error and writing nothing; otherwise
     * instantiates the templates for `date` and writes both files into `dir`.
     */
    static method Create(templates: Instance, className: string, namespaces: string, now: Dates.CalendarDate,
                         dir: Directory)
      returns (r: Result<FileGenerator, GenError>)
      requires Dates.Valid(now)
      modifies dir
      ensures Generate(templates, className, namespaces, Dates.Format(now), old(dir.files)) ==
        (if r.Success? then Success(dir.files) else Failure(r.error))
      ensures r.Failure? ==> dir.files == old(dir.files)
      ensures r.Success? ==>
        && fresh(r.value)
        && r.value.templates == templates
        && r.value.namespaces == Split(namespaces)
        && r.value.className == Strip(className)
        && r.value.Texts() == InstantiateFrom(templates, Strip(className), Dates.Format(now))
    {
      var tokens := Split(namespaces);
      SplitWords(namespaces);
      var names: seq<string> := [];
      var i := 0;
      while i < |tokens|
        invariant 0 <= i <= |tokens|
        invariant names == tokens[..i]
        invariant forall k :: 0 <= k < i ==> IsAlphaNum(tokens[k])
        invariant dir.files == old(dir.files)
      {
        var name := Strip(tokens[i]);
        StripNoSpace(tokens[i]);
        if !IsAlphaNum(name) {
          NamespacesCheckedFirst(className, namespaces, i);
          return Failure(BadNamespace(name));
        }
        names := names + [name];
        i := i + 1;
      }
      assert names == tokens;
      var stripped := Strip(className);
      if !IsAlphaNum(stripped) {
        return Failure(BadClassName(stripped));
      }
      assert Validate(className, namespaces) == Success(Request(names, stripped));
      var g := new FileGenerator(templates, names, stripped, now, dir);
      return Success(g);
    }

    /** The part of `__init__` after the checks: `instantiate()`, then `write()`. */
    constructor (templates: Instance, namespaces: seq<string>, className: string, now: Dates.CalendarDate,
                 dir: Directory)
      requires Dates.Valid(now)
      modifies dir
      ensures this.templates == templates
      ensures this.namespaces == namespaces && this.className == className
      ensures Texts() == InstantiateFrom(templates, className, Dates.Format(now))
      ensures dir.files == Written(old(dir.files), Request(namespaces, className), Texts())
    {
      this.templates := templates;
      this.namespaces := namespaces;
      this.className := className;
      new;
      Instantiate(now);
      Write(dir);
    }

    /** `instantiate`: the date stamp, then each template through its chain of `replace` calls. */
    method Instantiate(now: Dates.CalendarDate)
      requires Dates.Valid(now)
      modifies this
      ensures namespaces == old(namespaces) && className == old(className)
      ensures Texts() == InstantiateFrom(templates, className, Dates.Format(now))
    {
      var texts := ReplaceChains(templates, className, Dates.Format(now));
      SetTexts(texts);
    }

    /** Stores the four instantiated texts in the object's fields. */
    method SetTexts(texts: Instance)
      modifies this
      ensures namespaces == old(namespaces) && className == old(className)
      ensures Texts() == texts
    {
      hdrHeader, hdrBody, srcHeader, srcBody := texts.hdrHeader, texts.hdrBody, texts.srcHeader, texts.srcBody;
    }

    /** The `replace` chains of `instantiate`, one call at a time, in its order. */
    static method ReplaceChains(t: Instance, className: string, date: string) returns (texts: Instance)
      ensures texts == InstantiateFrom(t, className, date)
    {
      var hdrFileName := GetFileName(className, false);
      var srcFileName := GetFileName(className, true);
      var hh := ReplaceAll(t.hdrHeader, Tag(ClassName), className);
      hh := ReplaceAll(hh, Tag(HdrFile), hdrFileName);
      hh := ReplaceAll(hh, Tag(Date), date);
      var hb := ReplaceAll(t.hdrBody, Tag(ClassName), className);
      var sh := ReplaceAll(t.srcHeader, Tag(ClassName), className);
      sh := ReplaceAll(sh, Tag(SrcFile), srcFileName);
      sh := ReplaceAll(sh, Tag(Date), date);
      sh := ReplaceAll(sh, Tag(HdrFile), hdrFileName);
      var sb := ReplaceAll(t.srcBody, Tag(ClassName), className);
      assert HdrHeaderOrder[1..][1..][1..] == [];
      assert SrcHeaderOrder[1..][1..][1..][1..] == [];
      texts := Instance(hh, hb, sh, sb);
    }

    /** `writeNamespaceOpening`: one opening per namespace, outermost first. */
    method WriteNamespaceOpening(f: TextFile)
      modifies f
      ensures f.contents == old(f.contents) + Openings(namespaces)
    {
      var i := 0;
      while i < |namespaces|
        invariant 0 <= i <= |namespaces|
        invariant f.contents == old(f.contents) + Openings(namespaces[..i])
      {
        assert namespaces[..i + 1][..i] == namespaces[..i];
        LinesText(namespaces[i]);
        f.WriteLines(OpeningLines(namespaces[i]));
        i := i + 1;
      }
      assert namespaces[..i] == namespaces;
    }

    /** `writeNamespaceClosing`: one closing per namespace. */
    method WriteNamespaceClosing(f: TextFile)
      modifies f
      ensures f.contents == old(f.contents) + Closings(|namespaces|)
    {
      var i := 0;
      while i < |namespaces|
        invariant 0 <= i <= |namespaces|
        invariant f.contents == old(f.contents) + Closings(i)
      {
        LinesText("");
        f.WriteLines(ClosingLines);
        i := i + 1;
      }
    }

    /** `write`: the header file, then the source file. */
    method Write(dir: Directory)
      modifies dir
      ensures dir.files == old(dir.files)
        [GetFileName(className, false) := FileText(hdrHeader, namespaces, hdrBody)]
        [GetFileName(className, true) := FileText(srcHeader, namespaces, srcBody)]
    {
      WriteFile(dir, GetFileName(className, false), hdrHeader, hdrBody);
      WriteFile(dir, GetFileName(className, true), srcHeader, srcBody);
    }

    /** One `with open(name, mode='w')` block of `write`: banner, openings, body, closings. */
    method WriteFile(dir: Directory, name: string, header: string, body: string)
      modifies dir
      ensures dir.files == old(dir.files)[name := FileText(header, namespaces, body)]
    {
      var f := new TextFile.Open(name);
      f.Write(header);
      WriteNamespaceOpening(f);
      assert f.contents == header + Openings(namespaces);
      f.Write(body);
      WriteNamespaceClosing(f);
      assert f.contents == FileText(header, namespaces, body);
      f.Close(dir);
    }
  }
}
