/**
 * The four text templates of the generator and their instantiation.
 *
 * `instantiate` fills a template by a chain of `str.replace` calls, one per
 * placeholder. Each template is also written here as a list of segments
 * (literal text and placeholder slots); `Render` fills the slots directly and
 * is the reference the replace chains are proved against.
 */
module Templates {
  import opened Identifiers
  import opened Text

  datatype Placeholder = ClassName | HdrFile | SrcFile | Date

  /** The placeholder as it is spelled in a template. */
  function Tag(p: Placeholder): (t: string)
    ensures |t| >= 3 && t[0] == '%' && t[|t| - 1] == '%'
  {
    "%" + TagName(p) + "%"
  }

  function TagName(p: Placeholder): string {
    match p
    case ClassName => "classname"
    case HdrFile => "hdrfile"
    case SrcFile => "srcfile"
    case Date => "date"
  }

  predicate NoPercent(s: string) {
    '%' !in s
  }

  lemma TagNameShape(p: Placeholder)
    ensures |TagName(p)| >= 1 && IsAsciiLower(TagName(p)[0]) && NoPercent(TagName(p))
    ensures forall q :: q != p ==> TagName(q)[0] != TagName(p)[0]
  {
  }

  datatype Segment = Literal(text: string) | Slot(p: Placeholder)

  /** The text one segment stands for: its literal text, or its placeholder's tag. */
  function SpellOne(seg: Segment): string {
    match seg
    case Literal(t) => t
    case Slot(p) => Tag(p)
  }

  /** The string a list of segments spells, placeholders written as tags. */
  function Spell(segs: seq<Segment>): string {
    if segs == [] then ""
    else SpellOne(segs[0]) + Spell(segs[1..])
  }

  /** The text that stands in for each placeholder. */
  datatype Values = Values(className: string, hdrFile: string, srcFile: string, date: string) {
    function Of(p: Placeholder): string {
      match p
      case ClassName => className
      case HdrFile => hdrFile
      case SrcFile => srcFile
      case Date => date
    }
  }

  /** Reference instantiation: every slot replaced by its value at once. */
  function Render(segs: seq<Segment>, vals: Values): string {
    if segs == [] then ""
    else (match segs[0] case Literal(t) => t case Slot(p) => vals.Of(p)) + Render(segs[1..], vals)
  }

  /** The slots of `p` turned into the literal text `v`. */
  function Fill(segs: seq<Segment>, p: Placeholder, v: string): (r: seq<Segment>)
    ensures |r| == |segs|
  {
    if segs == [] then []
    else [if segs[0] == Slot(p) then Literal(v) else segs[0]] + Fill(segs[1..], p, v)
  }

  function Slots(segs: seq<Segment>): set<Placeholder> {
    if segs == [] then {}
    else (match segs[0] case Literal(_) => {} case Slot(p) => {p}) + Slots(segs[1..])
  }

  /**
   * The shape under which a replace chain behaves like `Render`: literal text
   * holds no `%`, and a slot is last or followed by non-empty text that does
   * not start with a lower-case letter (so a tag cannot run on into the next).
   */
  predicate WellFormed(segs: seq<Segment>) {
    segs == [] ||
    ((match segs[0]
      case Literal(t) => NoPercent(t)
      case Slot(_) => |segs| == 1 || (segs[1].Literal? && segs[1].text != [] && !IsAsciiLower(segs[1].text[0])))
     && WellFormed(segs[1..]))
  }

  /** A string whose second character differs from the pattern's cannot start a match. */
  lemma ReplaceAllMiss(s: string, pat: string, v: string)
    requires s != [] && |pat| >= 2
    requires |s| >= 2 ==> s[1] != pat[1]
    ensures ReplaceAll(s, pat, v) == [s[0]] + ReplaceAll(s[1..], pat, v)
  {
    if |s| < |pat| {
      assert ReplaceAll(s[1..], pat, v) == s[1..];
    } else {
      assert s[..|pat|][1] != pat[1];
    }
  }

  /** `%name%` is copied through when `name` and what follows cannot begin the pattern's name. */
  lemma ReplaceAllPassesWord(name: string, rest: string, pat: string, v: string)
    requires |pat| >= 2 && pat[0] == '%'
    requires name != [] && NoPercent(name) && name[0] != pat[1]
    requires rest == [] || rest[0] != pat[1]
    ensures ReplaceAll("%" + name + "%" + rest, pat, v) == "%" + name + "%" + ReplaceAll(rest, pat, v)
  {
    var t := "%" + rest;
    var s := "%" + (name + t);
    assert "%" + name + "%" + rest == s;
    ReplaceAllMiss(s, pat, v);
    assert s[1..] == name + t;
    forall k | 0 <= k < |name| ensures name[k] != pat[0] {
      assert name[k] in name;
    }
    ReplaceAllSkip(name, t, pat, v);
    ReplaceAllMiss(t, pat, v);
    assert t[1..] == rest;
  }

  /** A tag other than the one replaced is copied through. */
  lemma ReplaceAllPassesTag(q: Placeholder, p: Placeholder, rest: string, v: string)
    requires q != p
    requires rest == [] || !IsAsciiLower(rest[0])
    ensures ReplaceAll(Tag(q) + rest, Tag(p), v) == Tag(q) + ReplaceAll(rest, Tag(p), v)
  {
    TagNameShape(p);
    TagNameShape(q);
    assert Tag(p)[1] == TagName(p)[0];
    ReplaceAllPassesWord(TagName(q), rest, Tag(p), v);
  }

  /** Filling a slot with `%`-free text keeps the shape and removes exactly that placeholder. */
  lemma {:induction false} FillKeepsShape(segs: seq<Segment>, p: Placeholder, v: string)
    requires WellFormed(segs) && NoPercent(v)
    ensures WellFormed(Fill(segs, p, v))
    ensures Slots(Fill(segs, p, v)) == Slots(segs) - {p}
  {
    if segs != [] {
      FillKeepsShape(segs[1..], p, v);
      var r := Fill(segs, p, v);
      assert r[1..] == Fill(segs[1..], p, v);
      if |segs| > 1 && segs[0].Slot? {
        assert r[1] == segs[1];
      }
    }
  }

  lemma SpellStartsWithText(segs: seq<Segment>)
    requires segs != [] && segs[0].Literal? && segs[0].text != []
    ensures Spell(segs) != [] && Spell(segs)[0] == segs[0].text[0]
  {
    assert Spell(segs) == SpellOne(segs[0]) + Spell(segs[1..]);
  }

  /** One `str.replace` of a placeholder by a `%`-free value fills that placeholder's slots. */
  lemma {:induction false} ReplaceAllFills(segs: seq<Segment>, p: Placeholder, v: string)
    requires WellFormed(segs) && NoPercent(v)
    ensures ReplaceAll(Spell(segs), Tag(p), v) == Spell(Fill(segs, p, v))
  {
    if segs != [] {
      var rest, pat := Spell(segs[1..]), Tag(p);
      var filled := Spell(Fill(segs[1..], p, v));
      ReplaceAllFills(segs[1..], p, v);
      var r := Fill(segs, p, v);
      assert r == [r[0]] + Fill(segs[1..], p, v);
      assert Spell(r) == SpellOne(r[0]) + filled;
      assert Spell(segs) == SpellOne(segs[0]) + rest;
      match segs[0]
      case Literal(t) =>
        forall k | 0 <= k < |t| ensures t[k] != pat[0] {
          assert t[k] in t;
        }
        ReplaceAllSkip(t, rest, pat, v);
      case Slot(q) =>
        if q == p {
          ReplaceAllHit(rest, pat, v);
        } else {
          if |segs| > 1 {
            SpellStartsWithText(segs[1..]);
          }
          ReplaceAllPassesTag(q, p, rest, v);
        }
    }
  }

  /** Filling a slot with the value `Render` would give it changes nothing. */
  lemma {:induction false} RenderFill(segs: seq<Segment>, p: Placeholder, vals: Values)
    ensures Render(Fill(segs, p, vals.Of(p)), vals) == Render(segs, vals)
  {
    if segs != [] {
      RenderFill(segs[1..], p, vals);
      assert Fill(segs, p, vals.Of(p))[1..] == Fill(segs[1..], p, vals.Of(p));
    }
  }

  /** Without slots, the spelled text and the rendered text agree. */
  lemma {:induction false} SpellNoSlots(segs: seq<Segment>, vals: Values)
    requires Slots(segs) == {}
    ensures Spell(segs) == Render(segs, vals)
  {
    if segs != [] {
      SpellNoSlots(segs[1..], vals);
    }
  }

  /** Rendered text has a `%` only where the literal text or a value has one. */
  lemma {:induction false} RenderNoPercent(segs: seq<Segment>, vals: Values)
    requires WellFormed(segs)
    requires forall p :: NoPercent(vals.Of(p))
    ensures NoPercent(Render(segs, vals))
  {
    if segs != [] {
      RenderNoPercent(segs[1..], vals);
      var head := match segs[0] case Literal(t) => t case Slot(p) => vals.Of(p);
      assert Render(segs, vals) == head + Render(segs[1..], vals);
    }
  }

  /** `t` occurs in `s` at index `i`. */
  predicate OccursAt(s: string, t: string, i: int) {
    0 <= i <= |s| - |t| && s[i..i + |t|] == t
  }

  /** `s` contains `t` somewhere (Python's `t in s`). */
  predicate Contains(s: string, t: string) {
    exists i :: 0 <= i <= |s| - |t| && OccursAt(s, t, i)
  }

  /** A `%`-free string contains no placeholder. */
  lemma NoPercentNoTag(s: string, p: Placeholder)
    requires NoPercent(s)
    ensures !Contains(s, Tag(p))
  {
    var t := Tag(p);
    forall i | 0 <= i <= |s| - |t| ensures !OccursAt(s, t, i) {
      assert s[i] in s;
      assert s[i..i + |t|][0] == s[i] != t[0];
    }
  }

  // ---------------------------------------------------------------- the templates

  /** Ends in literal text, so whatever follows cannot extend a tag. */
  predicate EndsInText(l: seq<Segment>) {
    l != [] && l[|l| - 1].Literal?
  }

  /** A run of literal text. */
  function Lit(t: string): (l: seq<Segment>)
    requires NoPercent(t)
    ensures WellFormed(l) && EndsInText(l) && Slots(l) == {}
  {
    [Literal(t)]
  }

  /** A placeholder and the literal text that follows it. */
  function Piece(p: Placeholder, t: string): (l: seq<Segment>)
    requires NoPercent(t) && t != [] && !IsAsciiLower(t[0])
    ensures WellFormed(l) && EndsInText(l) && Slots(l) == {p}
  {
    var l := [Slot(p), Literal(t)];
    assert l[1..] == [Literal(t)];
    assert WellFormed(l[1..]) && Slots(l[1..]) == {};
    l
  }

  lemma {:induction false} WellFormedAppend(a: seq<Segment>, b: seq<Segment>)
    requires WellFormed(a) && WellFormed(b) && (a == [] || EndsInText(a))
    ensures WellFormed(a + b)
  {
    if a != [] {
      assert (a + b)[1..] == a[1..] + b;
      WellFormedAppend(a[1..], b);
    } else {
      assert a + b == b;
    }
  }

  lemma {:induction false} SlotsAppend(a: seq<Segment>, b: seq<Segment>)
    ensures Slots(a + b) == Slots(a) + Slots(b)
  {
    if a != [] {
      assert (a + b)[1..] == a[1..] + b;
      SlotsAppend(a[1..], b);
    } else {
      assert a + b == b;
    }
  }

  /** Two well-formed pieces that end in text, one after the other. */
  function Then(a: seq<Segment>, b: seq<Segment>): (l: seq<Segment>)
    requires WellFormed(a) && EndsInText(a) && WellFormed(b) && EndsInText(b)
    ensures WellFormed(l) && EndsInText(l) && Slots(l) == Slots(a) + Slots(b)
  {
    WellFormedAppend(a, b);
    SlotsAppend(a, b);
    a + b
  }

  // Each template is assembled from named parts: a part given by name is not
  // unfolded again where the template is used, which keeps the proofs small.

  function FileLine(file: Placeholder): (l: seq<Segment>)
    ensures WellFormed(l) && EndsInText(l) && Slots(l) == {file}
  {
    Then(Lit("/// @file   "), Piece(file, "\n"))
  }

  function BriefLine(brief: string): (l: seq<Segment>)
    requires NoPercent(brief) && brief != [] && !IsAsciiLower(brief[0])
    ensures WellFormed(l) && EndsInText(l) && Slots(l) == {ClassName}
  {
    Then(Lit("/// @brief  "), Piece(ClassName, brief))
  }

  const AuthorLine: seq<Segment> := Then(Lit("/// @author Eugene Gorbachev "), Lit("(eugeneg@cqg.com)\n"))
  const DateLine: seq<Segment> := Then(Lit("/// @date   Created on: "), Piece(Date, "\n"))

  /**
   * The comment block both banners open with: the file's own name, a brief
   * line ending in `brief`, the author and the creation date.
   */
  function Banner(file: Placeholder, brief: string): (l: seq<Segment>)
    requires NoPercent(brief) && brief != [] && !IsAsciiLower(brief[0])
    ensures WellFormed(l) && EndsInText(l) && Slots(l) == {file, ClassName, Date}
  {
    Then(Then(FileLine(file), BriefLine(brief)), Then(AuthorLine, DateLine))
  }

  const HdrBanner: seq<Segment> := Banner(HdrFile, " class definition\n")
  const PragmaOnce: seq<Segment> := Lit("\n#pragma once\n\n")

  /** hdrTemplate: the banner of the header file. */
  const HdrSegments: seq<Segment> := Then(HdrBanner, PragmaOnce)

  const ClassHead: seq<Segment> := Then(Lit("/// <description>\nclass "), Piece(ClassName, "\n"))
  const CtorDecl: seq<Segment> := Then(Lit("{\npublic:\n   explicit "), Piece(ClassName, "();\n"))
  const DtorDecl: seq<Segment> := Then(Lit("   virtual ~"), Piece(ClassName, "();\n};\n"))

  /** hdrBodyTemplate: the class declaration. */
  const HdrBodySegments: seq<Segment> := Then(Then(ClassHead, CtorDecl), DtorDecl)

  const SrcBanner: seq<Segment> := Banner(SrcFile, " class implementation\n")
  const Includes: seq<Segment> :=
    Then(Lit("\n#include \"stdafx.h\"\n"), Then(Lit("#include \""), Piece(HdrFile, "\"\n\n")))

  /** srcHeaderTemplate: the banner of the source file. */
  const SrcHeaderSegments: seq<Segment> := Then(SrcBanner, Includes)

  const CtorDef: seq<Segment> := Then(Piece(ClassName, "::"), Piece(ClassName, "()\n{\n}\n\n"))
  const DtorDef: seq<Segment> := Then(Piece(ClassName, "::~"), Piece(ClassName, "()\n{\n}\n"))

  /** srcBodyTemplate: the empty constructor and destructor. */
  const SrcBodySegments: seq<Segment> := Then(CtorDef, DtorDef)

  /** Each template is well formed and uses exactly the placeholders listed. */
  lemma HdrLayout()
    ensures WellFormed(HdrSegments) && Slots(HdrSegments) == {HdrFile, ClassName, Date}
  {
  }

  lemma HdrBodyLayout()
    ensures WellFormed(HdrBodySegments) && Slots(HdrBodySegments) == {ClassName}
  {
  }

  lemma SrcHeaderLayout()
    ensures WellFormed(SrcHeaderSegments) && Slots(SrcHeaderSegments) == {SrcFile, ClassName, Date, HdrFile}
  {
  }

  lemma SrcBodyLayout()
    ensures WellFormed(SrcBodySegments) && Slots(SrcBodySegments) == {ClassName}
  {
  }

  const HdrTemplate: string := Spell(HdrSegments)
  const HdrBodyTemplate: string := Spell(HdrBodySegments)
  const SrcHeaderTemplate: string := Spell(SrcHeaderSegments)
  const SrcBodyTemplate: string := Spell(SrcBodySegments)

  lemma {:induction false} SpellAppend(a: seq<Segment>, b: seq<Segment>)
    ensures Spell(a + b) == Spell(a) + Spell(b)
  {
    if a != [] {
      assert (a + b)[1..] == a[1..] + b;
      SpellAppend(a[1..], b);
    } else {
      assert a + b == b;
    }
  }

  lemma {:induction false} SpellThen(a: seq<Segment>, b: seq<Segment>)
    requires WellFormed(a) && EndsInText(a) && WellFormed(b) && EndsInText(b)
    ensures Spell(Then(a, b)) == Spell(a) + Spell(b)
  {
    SpellAppend(a, b);
  }

  lemma {:induction false} SpellLit(t: string)
    requires NoPercent(t)
    ensures Spell(Lit(t)) == t
  {
    assert Lit(t)[1..] == [];
  }

  lemma {:induction false} SpellPiece(p: Placeholder, t: string)
    requires NoPercent(t) && t != [] && !IsAsciiLower(t[0])
    ensures Spell(Piece(p, t)) == Tag(p) + t
  {
    var l := Piece(p, t);
    assert l[1..][1..] == [];
    assert Spell(l[1..]) == t + "";
    assert t + "" == t;
  }

  /** The four placeholders as the templates spell them. */
  lemma TagSpelling()
    ensures Tag(ClassName) == "%classname%" && Tag(HdrFile) == "%hdrfile%"
    ensures Tag(SrcFile) == "%srcfile%" && Tag(Date) == "%date%"
  {
  }

  lemma Regroup(a: string, b: string, c: string, d: string)
    ensures (a + b) + (c + d) == a + b + c + d
  {
  }

  /** A literal followed by a placeholder and its trailing text. */
  lemma {:induction false} SpellLitPiece(a: string, p: Placeholder, t: string)
    requires NoPercent(a) && NoPercent(t) && t != [] && !IsAsciiLower(t[0])
    ensures Spell(Then(Lit(a), Piece(p, t))) == a + Tag(p) + t
  {
    SpellThen(Lit(a), Piece(p, t));
    SpellLit(a);
    SpellPiece(p, t);
  }

  /** Two placeholders, each with its trailing text. */
  lemma {:induction false} SpellPiecePiece(p: Placeholder, t: string, q: Placeholder, u: string)
    requires NoPercent(t) && t != [] && !IsAsciiLower(t[0])
    requires NoPercent(u) && u != [] && !IsAsciiLower(u[0])
    ensures Spell(Then(Piece(p, t), Piece(q, u))) == Tag(p) + t + Tag(q) + u
  {
    SpellThen(Piece(p, t), Piece(q, u));
    SpellPiece(p, t);
    SpellPiece(q, u);
    Regroup(Tag(p), t, Tag(q), u);
  }

  /** The banner: file line, brief line, author line and date line. */
  lemma {:induction false} BannerText(file: Placeholder, brief: string)
    requires NoPercent(brief) && brief != [] && !IsAsciiLower(brief[0])
    ensures Spell(Banner(file, brief)) ==
      ("/// @file   " + Tag(file) + "\n")
      + ("/// @brief  " + Tag(ClassName) + brief)
      + ("/// @author Eugene Gorbachev " + "(eugeneg@cqg.com)\n")
      + ("/// @date   Created on: " + Tag(Date) + "\n")
  {
    SpellThen(Then(FileLine(file), BriefLine(brief)), Then(AuthorLine, DateLine));
    SpellThen(FileLine(file), BriefLine(brief));
    SpellThen(AuthorLine, DateLine);
    SpellLitPiece("/// @file   ", file, "\n");
    SpellLitPiece("/// @brief  ", ClassName, brief);
    SpellThen(Lit("/// @author Eugene Gorbachev "), Lit("(eugeneg@cqg.com)\n"));
    SpellLit("/// @author Eugene Gorbachev ");
    SpellLit("(eugeneg@cqg.com)\n");
    SpellLitPiece("/// @date   Created on: ", Date, "\n");
    Regroup(Spell(FileLine(file)), Spell(BriefLine(brief)), Spell(AuthorLine), Spell(DateLine));
  }

  /** hdrTemplate, one source line (or run of lines) per row. */
  lemma {:induction false} HdrTemplateText()
    ensures HdrTemplate ==
      ("/// @file   " + "%hdrfile%" + "\n")
      + ("/// @brief  " + "%classname%" + " class definition\n")
      + ("/// @author Eugene Gorbachev " + "(eugeneg@cqg.com)\n")
      + ("/// @date   Created on: " + "%date%" + "\n")
      + "\n#pragma once\n\n"
  {
    TagSpelling();
    BannerText(HdrFile, " class definition\n");
    SpellThen(HdrBanner, PragmaOnce);
    SpellLit("\n#pragma once\n\n");
  }

  /** hdrBodyTemplate, one source line (or run of lines) per row. */
  lemma {:induction false} HdrBodyTemplateText()
    ensures HdrBodyTemplate ==
      ("/// <description>\nclass " + "%classname%" + "\n")
      + ("{\npublic:\n   explicit " + "%classname%" + "();\n")
      + ("   virtual ~" + "%classname%" + "();\n};\n")
  {
    TagSpelling();
    SpellThen(Then(ClassHead, CtorDecl), DtorDecl);
    SpellThen(ClassHead, CtorDecl);
    SpellLitPiece("/// <description>\nclass ", ClassName, "\n");
    SpellLitPiece("{\npublic:\n   explicit ", ClassName, "();\n");
    SpellLitPiece("   virtual ~", ClassName, "();\n};\n");
  }

  /** srcHeaderTemplate, one source line (or run of lines) per row. */
  lemma {:induction false} SrcHeaderTemplateText()
    ensures SrcHeaderTemplate ==
      ("/// @file   " + "%srcfile%" + "\n")
      + ("/// @brief  " + "%classname%" + " class implementation\n")
      + ("/// @author Eugene Gorbachev " + "(eugeneg@cqg.com)\n")
      + ("/// @date   Created on: " + "%date%" + "\n")
      + ("\n#include \"stdafx.h\"\n" + ("#include \"" + "%hdrfile%" + "\"\n\n"))
  {
    TagSpelling();
    BannerText(SrcFile, " class implementation\n");
    SpellThen(SrcBanner, Includes);
    SpellThen(Lit("\n#include \"stdafx.h\"\n"), Then(Lit("#include \""), Piece(HdrFile, "\"\n\n")));
    SpellLit("\n#include \"stdafx.h\"\n");
    SpellLitPiece("#include \"", HdrFile, "\"\n\n");
  }

  /** srcBodyTemplate, one source line (or run of lines) per row. */
  lemma {:induction false} SrcBodyTemplateText()
    ensures SrcBodyTemplate ==
      ("%classname%" + "::" + "%classname%" + "()\n{\n}\n\n")
      + ("%classname%" + "::~" + "%classname%" + "()\n{\n}\n")
  {
    TagSpelling();
    SpellThen(CtorDef, DtorDef);
    SpellPiecePiece(ClassName, "::", ClassName, "()\n{\n}\n\n");
    SpellPiecePiece(ClassName, "::~", ClassName, "()\n{\n}\n");
  }

  // ---------------------------------------------------------------- instantiate

  /** `s.replace(tag, value)` for each placeholder of `ps`, in that order. */
  function ReplaceEach(s: string, ps: seq<Placeholder>, vals: Values): string
    decreases |ps|
  {
    if ps == [] then s
    else ReplaceEach(ReplaceAll(s, Tag(ps[0]), vals.Of(ps[0])), ps[1..], vals)
  }

  /**
   * On a well-formed template, a replace chain that covers every slot and
   * inserts no `%` computes exactly the reference rendering.
   */
  lemma {:induction false} ReplaceEachRenders(segs: seq<Segment>, ps: seq<Placeholder>, vals: Values)
    requires WellFormed(segs)
    requires forall p :: p in Slots(segs) ==> p in ps
    requires forall i :: 0 <= i < |ps| ==> NoPercent(vals.Of(ps[i]))
    ensures ReplaceEach(Spell(segs), ps, vals) == Render(segs, vals)
    decreases |ps|
  {
    if ps == [] {
      SpellNoSlots(segs, vals);
    } else {
      var p := ps[0];
      var filled := Fill(segs, p, vals.Of(p));
      ReplaceAllFills(segs, p, vals.Of(p));
      FillKeepsShape(segs, p, vals.Of(p));
      RenderFill(segs, p, vals);
      ReplaceEachRenders(filled, ps[1..], vals);
    }
  }

  /** The values instantiate substitutes for a class created on `date`. */
  function ValuesFor(className: string, date: string): Values {
    Values(className, GetFileName(className, false), GetFileName(className, true), date)
  }

  /** The placeholders each template is filled with, in instantiate's order. */
  const HdrHeaderOrder: seq<Placeholder> := [ClassName, HdrFile, Date]
  const HdrBodyOrder: seq<Placeholder> := [ClassName]
  const SrcHeaderOrder: seq<Placeholder> := [ClassName, SrcFile, Date, HdrFile]
  const SrcBodyOrder: seq<Placeholder> := [ClassName]

  /** The four texts instantiate computes. */
  datatype Instance = Instance(hdrHeader: string, hdrBody: string, srcHeader: string, srcBody: string)

  /** The four templates, as one value. */
  const TemplateTexts: Instance := Instance(HdrTemplate, HdrBodyTemplate, SrcHeaderTemplate, SrcBodyTemplate)

  /** instantiate applied to any four templates. */
  function InstantiateFrom(t: Instance, className: string, date: string): Instance {
    var vals := ValuesFor(className, date);
    Instance(ReplaceEach(t.hdrHeader, HdrHeaderOrder, vals),
             ReplaceEach(t.hdrBody, HdrBodyOrder, vals),
             ReplaceEach(t.srcHeader, SrcHeaderOrder, vals),
             ReplaceEach(t.srcBody, SrcBodyOrder, vals))
  }

  function Instantiate(className: string, date: string): Instance {
    InstantiateFrom(TemplateTexts, className, date)
  }

  /** A file name has a `%` only when the class name has one. */
  lemma FileNameNoPercent(className: string, isSrcFile: bool)
    requires NoPercent(className)
    ensures NoPercent(GetFileName(className, isSrcFile))
  {
    if '%' in GetFileName(className, isSrcFile) {
      GetFileNameChars(className, isSrcFile, '%');
    }
  }

  lemma ValuesNoPercent(className: string, date: string)
    requires NoPercent(className) && NoPercent(date)
    ensures forall p :: NoPercent(ValuesFor(className, date).Of(p))
  {
    FileNameNoPercent(className, false);
    FileNameNoPercent(className, true);
  }

  /** A replace chain over a well-formed template that covers its slots renders it, leaving no `%`. */
  lemma ChainRenders(segs: seq<Segment>, ps: seq<Placeholder>, vals: Values)
    requires WellFormed(segs) && forall p :: p in Slots(segs) ==> p in ps
    requires forall p :: NoPercent(vals.Of(p))
    ensures ReplaceEach(Spell(segs), ps, vals) == Render(segs, vals)
    ensures NoPercent(Render(segs, vals))
  {
    ReplaceEachRenders(segs, ps, vals);
    RenderNoPercent(segs, vals);
  }

  /**
   * When neither the class name nor the date holds a `%`, each replace chain
   * of instantiate agrees with filling every placeholder at once, and no
   * placeholder is left in any of the four texts.
   */
  lemma InstantiateRenders(className: string, date: string)
    requires NoPercent(className) && NoPercent(date)
    ensures var vals, inst := ValuesFor(className, date), Instantiate(className, date);
      && inst.hdrHeader == Render(HdrSegments, vals)
      && inst.hdrBody == Render(HdrBodySegments, vals)
      && inst.srcHeader == Render(SrcHeaderSegments, vals)
      && inst.srcBody == Render(SrcBodySegments, vals)
      && NoPercent(inst.hdrHeader) && NoPercent(inst.hdrBody)
      && NoPercent(inst.srcHeader) && NoPercent(inst.srcBody)
  {
    var vals := ValuesFor(className, date);
    ValuesNoPercent(className, date);
    HdrLayout();
    ChainRenders(HdrSegments, HdrHeaderOrder, vals);
    HdrBodyLayout();
    ChainRenders(HdrBodySegments, HdrBodyOrder, vals);
    SrcHeaderLayout();
    ChainRenders(SrcHeaderSegments, SrcHeaderOrder, vals);
    SrcBodyLayout();
    ChainRenders(SrcBodySegments, SrcBodyOrder, vals);
  }

  /** No instantiated text contains any placeholder tag. */
  lemma InstantiateLeavesNoTag(className: string, date: string, p: Placeholder)
    requires NoPercent(className) && NoPercent(date)
    ensures var inst := Instantiate(className, date);
      && !Contains(inst.hdrHeader, Tag(p)) && !Contains(inst.hdrBody, Tag(p))
      && !Contains(inst.srcHeader, Tag(p)) && !Contains(inst.srcBody, Tag(p))
  {
    var inst := Instantiate(className, date);
    InstantiateRenders(className, date);
    NoPercentNoTag(inst.hdrHeader, p);
    NoPercentNoTag(inst.hdrBody, p);
    NoPercentNoTag(inst.srcHeader, p);
    NoPercentNoTag(inst.srcBody, p);
  }
}
