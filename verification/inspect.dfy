/**
 * The inspection reports: each backend's descriptor sequence folded, in order, into one
 * text of element blocks, and the dispatch on the backend flag.
 */
module Inspect {
  import opened Wrappers
  import opened RubyString
  import opened Hierarchy

  /** One output line: a block's heading, or an indented `key: value` field. */
  datatype Line = Heading(short: string) | Field(key: string, value: string)

  /** The key of the single line the UiAutomator report prints when text and description agree. */
  const CombinedLabel: string := "text, name"

  /** The number of line breaks in a text. */
  function Breaks(s: string): nat {
    if s == [] then 0 else (if s[0] == '\n' then 1 else 0) + Breaks(s[1..])
  }

  lemma {:induction false} BreaksAppend(a: string, b: string)
    ensures Breaks(a + b) == Breaks(a) + Breaks(b)
  {
    if a == [] {
      assert a + b == b;
    } else {
      assert (a + b)[1..] == a[1..] + b;
      BreaksAppend(a[1..], b);
    }
  }

  lemma {:induction false} NoBreaks(s: string)
    requires '\n' !in s
    ensures Breaks(s) == 0
  {
    if s != [] {
      assert s[0] != '\n';
      assert s[1..] <= s[1..] && forall k :: 0 <= k < |s[1..]| ==> s[1..][k] == s[k + 1];
      NoBreaks(s[1..]);
    }
  }

  /** A line whose contents hold no line break of their own. */
  predicate OneLine(l: Line) {
    match l
    case Heading(short) => '\n' !in short
    case Field(key, value) => '\n' !in key && '\n' !in value
  }

  /**
   * The text of one line: a heading as it is, a field indented by two spaces as `key: value`;
   * either way terminated by a line break.
   */
  function RenderLine(l: Line): string {
    match l
    case Heading(short) => short + "\n"
    case Field(key, value) => "  " + key + ": " + value + "\n"
  }

  /** A rendered line ends in a line break, and it is its only one when the contents hold none. */
  lemma RenderLineShape(l: Line)
    ensures |RenderLine(l)| >= 1 && RenderLine(l)[|RenderLine(l)| - 1] == '\n'
    ensures OneLine(l) ==> Breaks(RenderLine(l)) == 1
  {
    match l
    case Heading(short) =>
      if '\n' !in short {
        NoBreaks(short);
        BreaksAppend(short, "\n");
      }
    case Field(key, value) =>
      if '\n' !in key && '\n' !in value {
        NoBreaks(key);
        NoBreaks(value);
        assert Breaks("  ") == 0 && Breaks(": ") == 0 && Breaks("\n") == 1;
        BreaksAppend("  ", key);
        BreaksAppend("  " + key, ": ");
        BreaksAppend("  " + key + ": ", value);
        BreaksAppend("  " + key + ": " + value, "\n");
      }
  }

  /** The text of a sequence of lines: each line rendered, in order. */
  function Render(ls: seq<Line>): string {
    if ls == [] then "" else RenderLine(ls[0]) + Render(ls[1..])
  }

  /**
   * A non-empty text ends in a line break, and it has exactly one line break per line as long
   * as no line's contents hold one.
   */
  lemma {:induction false} RenderShape(ls: seq<Line>)
    ensures ls != [] ==> |Render(ls)| >= 1 && Render(ls)[|Render(ls)| - 1] == '\n'
    ensures (forall i :: 0 <= i < |ls| ==> OneLine(ls[i])) ==> Breaks(Render(ls)) == |ls|
  {
    if ls != [] {
      RenderLineShape(ls[0]);
      RenderShape(ls[1..]);
      BreaksAppend(RenderLine(ls[0]), Render(ls[1..]));
      assert forall i :: 0 <= i < |ls[1..]| ==> ls[1..][i] == ls[i + 1];
    }
  }

  lemma {:induction false} RenderAppend(a: seq<Line>, b: seq<Line>)
    ensures Render(a + b) == Render(a) + Render(b)
  {
    if a == [] {
      assert a + b == b;
    } else {
      assert (a + b)[1..] == a[1..] + b;
      RenderAppend(a[1..], b);
    }
  }

  /** The value of the first field with the given key, if any. */
  function FieldValue(ls: seq<Line>, key: string): (r: Option<string>)
    ensures r.Some? ==> exists i :: 0 <= i < |ls| && ls[i] == Field(key, r.value)
    ensures r.None? ==> forall i :: 0 <= i < |ls| ==> !(ls[i].Field? && ls[i].key == key)
  {
    if ls == [] then None
    else if ls[0].Field? && ls[0].key == key then Some(ls[0].value)
    else FieldValue(ls[1..], key)
  }

  /** The number of headings, that is, of element blocks. */
  function Headings(ls: seq<Line>): nat {
    if ls == [] then 0 else (if ls[0].Heading? then 1 else 0) + Headings(ls[1..])
  }

  lemma {:induction false} HeadingsAppend(a: seq<Line>, b: seq<Line>)
    ensures Headings(a + b) == Headings(a) + Headings(b)
  {
    if a == [] {
      assert a + b == b;
    } else {
      assert (a + b)[1..] == a[1..] + b;
      HeadingsAppend(a[1..], b);
    }
  }

  /** The keys of the field lines, in order. */
  function Keys(ls: seq<Line>): seq<string> {
    if ls == [] then [] else (if ls[0].Field? then [ls[0].key] else []) + Keys(ls[1..])
  }

  lemma {:induction false} KeysAppend(a: seq<Line>, b: seq<Line>)
    ensures Keys(a + b) == Keys(a) + Keys(b)
  {
    if a == [] {
      assert a + b == b;
    } else {
      assert (a + b)[1..] == a[1..] + b;
      KeysAppend(a[1..], b);
    }
  }

  /** `[key]` when the value is present, nothing otherwise. */
  function KeyIf(key: string, v: Option<string>): seq<string> {
    if v.Some? then [key] else []
  }

  /** `"  key: value\n" unless value.nil?`: one field line when the value is present, none otherwise. */
  function Opt(key: string, v: Option<string>): seq<Line> {
    match v
    case Some(x) => [Field(key, x)]
    case None => []
  }

  lemma OptFacts(key: string, v: Option<string>, k: string)
    ensures FieldValue(Opt(key, v), k) == (if k == key then v else None)
    ensures Headings(Opt(key, v)) == 0
    ensures Keys(Opt(key, v)) == KeyIf(key, v)
  {
  }

  lemma {:induction false} FieldValueAppend(a: seq<Line>, b: seq<Line>, k: string)
    ensures FieldValue(a + b, k) == (if FieldValue(a, k).Some? then FieldValue(a, k) else FieldValue(b, k))
  {
    if a == [] {
      assert a + b == b;
    } else {
      assert (a + b)[1..] == a[1..] + b;
      FieldValueAppend(a[1..], b, k);
    }
  }

  /**
   * Why a report raises instead of returning: the kept descriptor has no class at all
   * (`nil.split`), or its class has no non-empty dot-separated field (`nil + "\n"`).
   */
  datatype ReportError = NoClass | NoClassField(cls: string)

  /** `e[:class].split('.').last`: the block heading. */
  function Header(cls: Option<string>): (r: Result<string, ReportError>)
    ensures r.Success? <==> cls.Some? && exists k :: 0 <= k < |cls.value| && cls.value[k] != '.'
    ensures r.Success? ==> r.value != "" && '.' !in r.value
    ensures cls.None? ==> r == Failure(NoClass)
  {
    match cls
    case None => Failure(NoClass)
    case Some(c) =>
      match LastField(c, '.')
      case None => Failure(NoClassField(c))
      case Some(h) => Success(h)
  }

  /** A class name with a package gets its simple name as heading. */
  lemma HeaderQualified(pkg: string, simple: string)
    requires simple != "" && '.' !in simple
    ensures Header(Some(pkg + "." + simple)) == Success(simple)
  {
    LastFieldQualified(pkg, simple, '.');
  }

  /**
   * Trailing dots do not change the heading: `split('.')` drops the empty fields they make,
   * so `pkg.Simple.` and `Simple..` still head as `Simple`.
   */
  lemma HeaderTrailingDots(pkg: string, simple: string, dots: string)
    requires simple != "" && '.' !in simple
    requires forall k :: 0 <= k < |dots| ==> dots[k] == '.'
    ensures Header(Some(pkg + "." + simple + dots)) == Success(simple)
    ensures Header(Some(simple + dots)) == Success(simple)
  {
    LastFieldTrailing(pkg, simple, dots, '.');
  }

  /** Combines one block with the rest of a report; the first failure wins, as the first raise does. */
  function Then(first: Result<seq<Line>, ReportError>, rest: Result<seq<Line>, ReportError>): Result<seq<Line>, ReportError> {
    match first
    case Failure(e) => Failure(e)
    case Success(a) =>
      match rest
      case Failure(e) => Failure(e)
      case Success(b) => Success(a + b)
  }

  /** The `results.each` loop: the blocks of all descriptors, in order; it raises if any block does. */
  function Report<R>(block: R -> Result<seq<Line>, ReportError>, rs: seq<R>): (r: Result<seq<Line>, ReportError>)
    ensures r.Success? <==> forall i :: 0 <= i < |rs| ==> block(rs[i]).Success?
  {
    if rs == [] then Success([]) else Then(block(rs[0]), Report(block, rs[1..]))
  }

  /** Reporting two sequences one after the other is reporting their concatenation. */
  lemma {:induction false} ReportAppend<R>(block: R -> Result<seq<Line>, ReportError>, a: seq<R>, b: seq<R>)
    ensures Report(block, a + b) == Then(Report(block, a), Report(block, b))
  {
    if a == [] {
      assert a + b == b;
      match Report(block, b)
      case Success(x) => assert [] + x == x;
      case Failure(_) =>
    } else {
      assert (a + b)[1..] == a[1..] + b;
      ReportAppend(block, a[1..], b);
      match block(a[0])
      case Failure(_) =>
      case Success(x) =>
        match Report(block, a[1..])
        case Failure(_) =>
        case Success(y) =>
          match Report(block, b)
          case Failure(_) =>
          case Success(z) => assert x + (y + z) == (x + y) + z;
    }
  }

  /** The elements of `xs` satisfying `p`, in order. */
  function Filter<T>(p: T -> bool, xs: seq<T>): (r: seq<T>)
    ensures |r| <= |xs|
    ensures forall i :: 0 <= i < |r| ==> p(r[i])
  {
    if xs == [] then [] else (if p(xs[0]) then [xs[0]] else []) + Filter(p, xs[1..])
  }

  /** Descriptors whose block is empty can be dropped before reporting without changing the report. */
  lemma {:induction false} ReportSkips<R>(block: R -> Result<seq<Line>, ReportError>, keep: R -> bool, rs: seq<R>)
    requires forall x :: !keep(x) ==> block(x) == Success([])
    ensures Report(block, rs) == Report(block, Filter(keep, rs))
  {
    if rs != [] {
      ReportSkips(block, keep, rs[1..]);
      if keep(rs[0]) {
        assert Filter(keep, rs) == [rs[0]] + Filter(keep, rs[1..]);
      } else {
        assert Filter(keep, rs) == Filter(keep, rs[1..]);
        match Report(block, rs[1..])
        case Success(x) => assert [] + x == x;
        case Failure(_) =>
      }
    }
  }

  // ---------------------------------------------------------------------------------------
  // Selendroid report

  /** `next unless e[:shown]`: an absent `shown` counts as not shown. */
  predicate Shown(e: SelendroidRecord) {
    e.shown == Some(true)
  }

  predicate HasText(e: SelendroidRecord) {
    e.text.Some?
  }

  /** A name is absent when missing or when it is the placeholder string `null`. */
  predicate HasName(e: SelendroidRecord) {
    e.name.Some? && e.name.value != "null"
  }

  /** The descriptors the Selendroid report prints: shown, and with a text or a name. */
  predicate Kept(e: SelendroidRecord) {
    Shown(e) && (HasText(e) || HasName(e))
  }

  /**
   * The Selendroid report prints a mapping's descriptor exactly when the mapping is shown and
   * has a non-empty `value`, or a non-empty `label` other than `null`; a bare id never suffices.
   */
  lemma KeptFromMapping(n: Node)
    ensures (SelendroidRecordOf(n).Some? && Kept(SelendroidRecordOf(n).value)) <==>
      (&& n.Obj? && n.shown == Some(true)
       && (NonEmpty(n.attrs, "value").Some? || (NonEmpty(n.attrs, "label").Some? && n.attrs["label"] != "null")))
  {
  }

  /**
   * From a mapping to its printed block: a kept Selendroid mapping whose class has a heading
   * prints its `type` as the class, its `name` without `id/` as the id, its `value` as the
   * text and its `label`, unless that is `null`, as the name.
   */
  lemma SelendroidBlockFromMapping(n: Node)
    ensures (&& SelendroidRecordOf(n).Some? && Kept(SelendroidRecordOf(n).value)
             && SelendroidBlock(SelendroidRecordOf(n).value).Success?) ==>
      var b := SelendroidBlock(SelendroidRecordOf(n).value).value;
      && "type" in n.attrs
      && FieldValue(b, "class") == Some(n.attrs["type"])
      && FieldValue(b, "id") == PrintedId(NonEmpty(n.attrs, "name"))
      && FieldValue(b, "text") == NonEmpty(n.attrs, "value")
      && FieldValue(b, "name") == (if NonEmpty(n.attrs, "label") == Some("null") then None else NonEmpty(n.attrs, "label"))
  {
  }

  /** The id as printed: one leading `id/` removed. */
  function PrintedId(id: Option<string>): Option<string> {
    match id
    case Some(x) => Some(StripIdPrefix(x))
    case None => None
  }

  /** The name as printed: absent when it is the placeholder `null`. */
  function PrintedName(e: SelendroidRecord): Option<string> {
    if HasName(e) then e.name else None
  }

  /** The fields of a kept Selendroid descriptor, in print order. */
  function SelendroidFields(e: SelendroidRecord): seq<Line> {
    Opt("class", e.cls) + Opt("id", PrintedId(e.id)) + Opt("text", e.text) + Opt("name", PrintedName(e))
  }

  lemma SelendroidFieldsFacts(e: SelendroidRecord, k: string)
    ensures Headings(SelendroidFields(e)) == 0
    ensures Keys(SelendroidFields(e))
      == KeyIf("class", e.cls) + KeyIf("id", e.id) + KeyIf("text", e.text) + KeyIf("name", PrintedName(e))
    ensures FieldValue(SelendroidFields(e), k) ==
      if k == "class" then e.cls
      else if k == "id" then PrintedId(e.id)
      else if k == "text" then e.text
      else if k == "name" then PrintedName(e)
      else None
  {
    var a, b, c, d := Opt("class", e.cls), Opt("id", PrintedId(e.id)), Opt("text", e.text), Opt("name", PrintedName(e));
    OptFacts("class", e.cls, k);
    OptFacts("id", PrintedId(e.id), k);
    OptFacts("text", e.text, k);
    OptFacts("name", PrintedName(e), k);
    HeadingsAppend(a, b);
    HeadingsAppend(a + b, c);
    HeadingsAppend(a + b + c, d);
    KeysAppend(a, b);
    KeysAppend(a + b, c);
    KeysAppend(a + b + c, d);
    FieldValueAppend(a, b, k);
    FieldValueAppend(a + b, c, k);
    FieldValueAppend(a + b + c, d, k);
  }

  /**
   * One Selendroid block: nothing for a skipped descriptor; otherwise the heading, the class,
   * the id without a leading `id/`, the text and the name, each field printed only if present.
   * The text and the name are always printed separately.
   */
  function SelendroidBlock(e: SelendroidRecord): (r: Result<seq<Line>, ReportError>)
    ensures !Kept(e) ==> r == Success([])
    ensures Kept(e) ==> (r.Success? <==> Header(e.cls).Success?)
    ensures r.Success? && Kept(e) ==> |r.value| >= 2 && r.value[0] == Heading(Header(e.cls).value)
    ensures r.Success? && Kept(e) ==> r.value[1] == Field("class", e.cls.value)
    ensures r.Success? ==> Headings(r.value) == (if Kept(e) then 1 else 0)
    ensures r.Success? ==> FieldValue(r.value, "class") == (if Kept(e) then e.cls else None)
    ensures r.Success? ==> FieldValue(r.value, "id") == (if Kept(e) then PrintedId(e.id) else None)
    ensures r.Success? ==> FieldValue(r.value, "text") == (if Kept(e) then e.text else None)
    ensures r.Success? ==> FieldValue(r.value, "name") == (if Kept(e) then PrintedName(e) else None)
    ensures r.Success? ==> FieldValue(r.value, CombinedLabel) == None
    ensures r.Success? && Kept(e) ==>
      Keys(r.value) == ["class"] + KeyIf("id", e.id) + KeyIf("text", e.text) + KeyIf("name", PrintedName(e))
  {
    if !Kept(e) then Success([])
    else
      match Header(e.cls)
      case Failure(err) => Failure(err)
      case Success(h) =>
        var lines := [Heading(h)] + SelendroidFields(e);
        SelendroidFieldsFacts(e, "class");
        SelendroidFieldsFacts(e, "id");
        SelendroidFieldsFacts(e, "text");
        SelendroidFieldsFacts(e, "name");
        SelendroidFieldsFacts(e, CombinedLabel);
        assert lines[1..] == SelendroidFields(e);
        KeysAppend([Heading(h)], SelendroidFields(e));
        Success(lines)
  }

  /**
   * The Selendroid report: it succeeds exactly when every kept descriptor has a class with a
   * non-empty field, and then prints one block per kept descriptor and never a combined
   * text-and-name line.
   */
  function SelendroidReport(rs: seq<SelendroidRecord>): (r: Result<seq<Line>, ReportError>)
    ensures r.Success? <==> forall i :: 0 <= i < |rs| ==> Kept(rs[i]) ==> Header(rs[i].cls).Success?
    ensures r.Success? ==> Headings(r.value) == |Filter(Kept, rs)|
    ensures r.Success? ==> FieldValue(r.value, CombinedLabel) == None
  {
    var r := Report(SelendroidBlock, rs);
    if r.Success? then
      SelendroidReportHeadings(rs);
      SelendroidReportNoCombined(rs);
      r
    else
      r
  }

  lemma {:induction false} SelendroidReportHeadings(rs: seq<SelendroidRecord>)
    requires Report(SelendroidBlock, rs).Success?
    ensures Headings(Report(SelendroidBlock, rs).value) == |Filter(Kept, rs)|
  {
    if rs != [] {
      SelendroidReportHeadings(rs[1..]);
      HeadingsAppend(SelendroidBlock(rs[0]).value, Report(SelendroidBlock, rs[1..]).value);
      assert Filter(Kept, rs) == (if Kept(rs[0]) then [rs[0]] else []) + Filter(Kept, rs[1..]);
    }
  }

  lemma {:induction false} SelendroidReportNoCombined(rs: seq<SelendroidRecord>)
    requires Report(SelendroidBlock, rs).Success?
    ensures FieldValue(Report(SelendroidBlock, rs).value, CombinedLabel) == None
  {
    if rs != [] {
      SelendroidReportNoCombined(rs[1..]);
      FieldValueAppend(SelendroidBlock(rs[0]).value, Report(SelendroidBlock, rs[1..]).value, CombinedLabel);
    }
  }

  /** Skipped Selendroid descriptors contribute nothing: reporting them or leaving them out is the same. */
  lemma SelendroidReportSkips(rs: seq<SelendroidRecord>)
    ensures SelendroidReport(rs) == SelendroidReport(Filter(Kept, rs))
  {
    ReportSkips(SelendroidBlock, Kept, rs);
  }

  // ---------------------------------------------------------------------------------------
  // UiAutomator report

  /** The fields of a UiAutomator descriptor, in print order. */
  function AndroidFields(e: AndroidRecord): seq<Line> {
    Opt("class", e.cls)
    + (if e.text == e.desc then Opt(CombinedLabel, e.text) else Opt("text", e.text) + Opt("name", e.desc))
  }

  lemma AndroidFieldsFacts(e: AndroidRecord, k: string)
    ensures Headings(AndroidFields(e)) == 0
    ensures FieldValue(AndroidFields(e), k) ==
      if k == "class" then e.cls
      else if k == CombinedLabel then (if e.text == e.desc then e.text else None)
      else if k == "text" then (if e.text == e.desc then None else e.text)
      else if k == "name" then (if e.text == e.desc then None else e.desc)
      else None
    ensures Keys(AndroidFields(e)) == KeyIf("class", e.cls)
      + (if e.text == e.desc then KeyIf(CombinedLabel, e.text) else KeyIf("text", e.text) + KeyIf("name", e.desc))
  {
    var a := Opt("class", e.cls);
    OptFacts("class", e.cls, k);
    if e.text == e.desc {
      OptFacts(CombinedLabel, e.text, k);
      HeadingsAppend(a, Opt(CombinedLabel, e.text));
      KeysAppend(a, Opt(CombinedLabel, e.text));
      FieldValueAppend(a, Opt(CombinedLabel, e.text), k);
    } else {
      var b, c := Opt("text", e.text), Opt("name", e.desc);
      OptFacts("text", e.text, k);
      OptFacts("name", e.desc, k);
      HeadingsAppend(b, c);
      HeadingsAppend(a, b + c);
      KeysAppend(b, c);
      KeysAppend(a, b + c);
      FieldValueAppend(b, c, k);
      FieldValueAppend(a, b + c, k);
    }
  }

  /**
   * One UiAutomator block: the heading, the class, then a single combined line when text
   * and description are equal, otherwise separate text and name lines, each only if present.
   */
  function AndroidBlock(e: AndroidRecord): (r: Result<seq<Line>, ReportError>)
    ensures r.Success? <==> Header(e.cls).Success?
    ensures r.Success? ==> |r.value| >= 2 && r.value[0] == Heading(Header(e.cls).value)
    ensures r.Success? ==> r.value[1] == Field("class", e.cls.value)
    ensures r.Success? ==> Headings(r.value) == 1
    ensures r.Success? ==> FieldValue(r.value, "class") == e.cls
    ensures r.Success? ==> FieldValue(r.value, CombinedLabel) == (if e.text == e.desc then e.text else None)
    ensures r.Success? ==> FieldValue(r.value, "text") == (if e.text == e.desc then None else e.text)
    ensures r.Success? ==> FieldValue(r.value, "name") == (if e.text == e.desc then None else e.desc)
    ensures r.Success? ==> FieldValue(r.value, "id") == None
    ensures r.Success? ==>
      (Keys(r.value) == ["class"] +
        (if e.text == e.desc then KeyIf(CombinedLabel, e.text) else KeyIf("text", e.text) + KeyIf("name", e.desc)))
  {
    match Header(e.cls)
    case Failure(err) => Failure(err)
    case Success(h) =>
      var lines := [Heading(h)] + AndroidFields(e);
      AndroidFieldsFacts(e, "class");
      AndroidFieldsFacts(e, CombinedLabel);
      AndroidFieldsFacts(e, "text");
      AndroidFieldsFacts(e, "name");
      AndroidFieldsFacts(e, "id");
      assert lines[1..] == AndroidFields(e);
      KeysAppend([Heading(h)], AndroidFields(e));
      Success(lines)
  }

  /**
   * From a mapping to its printed block: a UiAutomator mapping with a descriptor whose class
   * has a heading prints its `@class` as the class, then its `@text` once under `text, name`
   * when it equals `@content-desc`, and otherwise its `@text` as the text and its
   * `@content-desc` as the name.
   */
  lemma AndroidBlockFromMapping(n: Node)
    ensures AndroidRecordOf(n).Some? && AndroidBlock(AndroidRecordOf(n).value).Success? ==>
      var b := AndroidBlock(AndroidRecordOf(n).value).value;
      var text, desc := NonEmpty(n.attrs, "@text"), NonEmpty(n.attrs, "@content-desc");
      && "@class" in n.attrs
      && FieldValue(b, "class") == Some(n.attrs["@class"])
      && FieldValue(b, CombinedLabel) == (if text == desc then text else None)
      && FieldValue(b, "text") == (if text == desc then None else text)
      && FieldValue(b, "name") == (if text == desc then None else desc)
  {
  }

  /**
   * The UiAutomator report: nothing is filtered; it succeeds exactly when every descriptor
   * has a class with a non-empty field, and then prints one block per descriptor.
   */
  function AndroidReport(rs: seq<AndroidRecord>): (r: Result<seq<Line>, ReportError>)
    ensures r.Success? <==> forall i :: 0 <= i < |rs| ==> Header(rs[i].cls).Success?
    ensures r.Success? ==> Headings(r.value) == |rs|
  {
    var r := Report(AndroidBlock, rs);
    if r.Success? then
      AndroidReportHeadings(rs);
      r
    else
      r
  }

  lemma {:induction false} AndroidReportHeadings(rs: seq<AndroidRecord>)
    requires Report(AndroidBlock, rs).Success?
    ensures Headings(Report(AndroidBlock, rs).value) == |rs|
  {
    if rs != [] {
      AndroidReportHeadings(rs[1..]);
      HeadingsAppend(AndroidBlock(rs[0]).value, Report(AndroidBlock, rs[1..]).value);
    }
  }

  // ---------------------------------------------------------------------------------------
  // Dispatch

  /** Which backend produced the page source; `@selendroid` decides it. */
  datatype Backend = Selendroid | UiAutomator

  /** `get_selendroid_inspect` on an already fetched `children` subtree. */
  function SelendroidInspect(tree: Node): (r: Result<string, ReportError>)
    ensures r.Success? <==>
      forall i :: 0 <= i < |SelendroidRun(tree)| ==>
        Kept(SelendroidRun(tree)[i]) ==> Header(SelendroidRun(tree)[i].cls).Success?
  {
    match SelendroidReport(SelendroidRun(tree))
    case Success(ls) => Success(Render(ls))
    case Failure(e) => Failure(e)
  }

  /** `get_android_inspect` on an already fetched `hierarchy` subtree. */
  function AndroidInspect(tree: Node): (r: Result<string, ReportError>)
    ensures r.Success? <==>
      forall i :: 0 <= i < |AndroidRun(tree)| ==> Header(AndroidRun(tree)[i].cls).Success?
  {
    match AndroidReport(AndroidRun(tree))
    case Success(ls) => Success(Render(ls))
    case Failure(e) => Failure(e)
  }

  /** `get_inspect`: the Selendroid report under Selendroid, the UiAutomator report otherwise. */
  function GetInspect(backend: Backend, tree: Node): (r: Result<string, ReportError>)
    ensures backend == Selendroid ==> (r.Success? <==>
      forall i :: 0 <= i < |SelendroidRun(tree)| ==>
        Kept(SelendroidRun(tree)[i]) ==> Header(SelendroidRun(tree)[i].cls).Success?)
    ensures backend == UiAutomator ==> (r.Success? <==>
      forall i :: 0 <= i < |AndroidRun(tree)| ==> Header(AndroidRun(tree)[i].cls).Success?)
  {
    match backend
    case Selendroid => SelendroidInspect(tree)
    case UiAutomator => AndroidInspect(tree)
  }

  /** The rendered text of a report, or its raise. */
  function RenderResult(r: Result<seq<Line>, ReportError>): Result<string, ReportError> {
    match r
    case Success(ls) => Success(Render(ls))
    case Failure(e) => Failure(e)
  }

  /** Appends a later part's text to an earlier part's; the earlier raise wins, as the first raise does. */
  function ThenText(first: Result<string, ReportError>, rest: Result<string, ReportError>): Result<string, ReportError> {
    match first
    case Failure(e) => Failure(e)
    case Success(a) =>
      match rest
      case Failure(e) => Failure(e)
      case Success(b) => Success(a + b)
  }

  /** Rendering commutes with combining reports. */
  lemma RenderThen(p: Result<seq<Line>, ReportError>, q: Result<seq<Line>, ReportError>)
    ensures RenderResult(Then(p, q)) == ThenText(RenderResult(p), RenderResult(q))
  {
    if p.Success? && q.Success? {
      RenderAppend(p.value, q.value);
    }
  }

  /**
   * A page whose array of elements is split in two prints the first part's text followed by
   * the second's, under either backend; if the first part raises, so does the whole page, and
   * otherwise the whole page raises exactly when the second part does.
   */
  lemma InspectConcat(backend: Backend, xs: seq<Node>, ys: seq<Node>)
    ensures GetInspect(backend, Arr(xs + ys)) == ThenText(GetInspect(backend, Arr(xs)), GetInspect(backend, Arr(ys)))
  {
    match backend
    case Selendroid =>
      assert SelendroidRecordOf(EmptyMapping).None?;
      WalkArrayConcat(SelendroidRecordOf, xs, ys);
      var a, b := SelendroidRun(Arr(xs)), SelendroidRun(Arr(ys));
      assert SelendroidRun(Arr(xs + ys)) == a + b;
      ReportAppend(SelendroidBlock, a, b);
      RenderThen(SelendroidReport(a), SelendroidReport(b));
      assert SelendroidInspect(Arr(xs + ys)) == RenderResult(SelendroidReport(a + b));
    case UiAutomator =>
      assert AndroidRecordOf(EmptyMapping).None?;
      WalkArrayConcat(AndroidRecordOf, xs, ys);
      var a, b := AndroidRun(Arr(xs)), AndroidRun(Arr(ys));
      assert AndroidRun(Arr(xs + ys)) == a + b;
      ReportAppend(AndroidBlock, a, b);
      RenderThen(AndroidReport(a), AndroidReport(b));
      assert AndroidInspect(Arr(xs + ys)) == RenderResult(AndroidReport(a + b));
  }
}
