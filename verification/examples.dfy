/**
 * End-to-end statements about single-element page sources: what `get_inspect` prints for
 * them under each backend, and when it prints nothing or raises.
 */
module Examples {
  import opened Wrappers
  import opened RubyString
  import opened Hierarchy
  import opened Inspect

  /** Rendering lines followed by one more line appends that line's text. */
  lemma RenderSnoc(ls: seq<Line>, x: Line)
    ensures Render(ls + [x]) == Render(ls) + RenderLine(x)
  {
    RenderAppend(ls, [x]);
    assert [x][1..] == [];
    assert RenderLine(x) + "" == RenderLine(x);
  }

  /** Three lines render as their three texts in order. */
  lemma {:induction false} RenderLines3(a: Line, b: Line, c: Line)
    ensures Render([a, b, c]) == RenderLine(a) + RenderLine(b) + RenderLine(c)
  {
    assert Render([a]) == RenderLine(a) by {
      RenderSnoc([], a);
      assert [] + [a] == [a];
    }
    assert Render([a, b]) == Render([a]) + RenderLine(b) by {
      RenderSnoc([a], b);
      assert [a] + [b] == [a, b];
    }
    assert Render([a, b, c]) == Render([a, b]) + RenderLine(c) by {
      RenderSnoc([a, b], c);
      assert [a, b] + [c] == [a, b, c];
    }
  }

  /** Four lines render as their four texts in order. */
  lemma {:induction false} RenderLines4(a: Line, b: Line, c: Line, d: Line)
    ensures Render([a, b, c, d]) == RenderLine(a) + RenderLine(b) + RenderLine(c) + RenderLine(d)
  {
    RenderLines3(a, b, c);
    assert Render([a, b, c, d]) == Render([a, b, c]) + RenderLine(d) by {
      RenderSnoc([a, b, c], d);
      assert [a, b, c] + [d] == [a, b, c, d];
    }
  }

  /** Five lines render as their five texts in order. */
  lemma {:induction false} RenderLines5(a: Line, b: Line, c: Line, d: Line, e: Line)
    ensures Render([a, b, c, d, e]) == RenderLine(a) + RenderLine(b) + RenderLine(c) + RenderLine(d) + RenderLine(e)
  {
    RenderLines4(a, b, c, d);
    assert Render([a, b, c, d, e]) == Render([a, b, c, d]) + RenderLine(e) by {
      RenderSnoc([a, b, c, d], e);
      assert [a, b, c, d] + [e] == [a, b, c, d, e];
    }
  }

  /** A page source with a single Selendroid descriptor prints that descriptor's block. */
  lemma SelendroidOne(tree: Node, e: SelendroidRecord, lines: seq<Line>)
    requires SelendroidRun(tree) == [e] && SelendroidBlock(e) == Success(lines)
    ensures GetInspect(Selendroid, tree) == Success(Render(lines))
  {
    assert [e][1..] == [];
    assert Report(SelendroidBlock, [e]) == Then(Success(lines), Success([]));
    assert lines + [] == lines;
    assert SelendroidReport([e]) == Success(lines);
    assert SelendroidInspect(tree) == Success(Render(lines));
  }

  /** A page source with a single UiAutomator descriptor prints that descriptor's block. */
  lemma AndroidOne(tree: Node, e: AndroidRecord, lines: seq<Line>)
    requires AndroidRun(tree) == [e] && AndroidBlock(e) == Success(lines)
    ensures GetInspect(UiAutomator, tree) == Success(Render(lines))
  {
    assert [e][1..] == [];
    assert Report(AndroidBlock, [e]) == Then(Success(lines), Success([]));
    assert lines + [] == lines;
    assert AndroidReport([e]) == Success(lines);
    assert AndroidInspect(tree) == Success(Render(lines));
  }

  /** A shown Selendroid element with an id, a value, a label and a type gives one descriptor holding them. */
  lemma SelendroidButtonRun(id: string, v: string, l: string, cls: string)
    requires id != "" && v != "" && l != ""
    ensures SelendroidRun(Obj(map["name" := id, "value" := v, "label" := l, "type" := cls], Some(true), None))
      == [SelendroidRecord(Some(id), Some(v), Some(l), Some(cls), Some(true))]
  {
    var tree := Obj(map["name" := id, "value" := v, "label" := l, "type" := cls], Some(true), None);
    assert Preorder(tree) == [tree];
    assert FilterMap(SelendroidRecordOf, [tree]) == [SelendroidRecordOf(tree).value];
  }

  /** The block of such a descriptor: heading, class, id without `id/`, text, and the non-`null` name. */
  lemma SelendroidButtonBlock(id: string, v: string, l: string, pkg: string, simple: string)
    requires id != "" && v != "" && l != "" && l != "null"
    requires simple != "" && '.' !in simple
    ensures SelendroidBlock(SelendroidRecord(Some(id), Some(v), Some(l), Some(pkg + "." + simple), Some(true)))
      == Success([Heading(simple), Field("class", pkg + "." + simple), Field("id", StripIdPrefix(id)),
                  Field("text", v), Field("name", l)])
  {
    var cls := pkg + "." + simple;
    var e := SelendroidRecord(Some(id), Some(v), Some(l), Some(cls), Some(true));
    var h, c, i, t, n := Heading(simple), Field("class", cls), Field("id", StripIdPrefix(id)), Field("text", v), Field("name", l);
    assert [h] + [c, i, t, n] == [h, c, i, t, n];
    HeaderQualified(pkg, simple);
    SelendroidButtonFields(id, v, l, cls);
    assert Kept(e);
    SelendroidKeptBlock(e, simple);
  }

  /** A kept descriptor whose class names a heading prints that heading, then its fields. */
  lemma SelendroidKeptBlock(e: SelendroidRecord, h: string)
    requires Kept(e) && Header(e.cls) == Success(h)
    ensures SelendroidBlock(e) == Success([Heading(h)] + SelendroidFields(e))
  {
  }

  /** The four field lines of such a descriptor, below its heading. */
  lemma SelendroidButtonFields(id: string, v: string, l: string, cls: string)
    requires id != "" && v != "" && l != "" && l != "null"
    ensures SelendroidFields(SelendroidRecord(Some(id), Some(v), Some(l), Some(cls), Some(true)))
      == [Field("class", cls), Field("id", StripIdPrefix(id)), Field("text", v), Field("name", l)]
  {
  }

  /**
   * A shown Selendroid element with an id, and a value equal to its label, prints its
   * simple class name, the class, the id without `id/`, and then separate `text:` and
   * `name:` lines even though they agree.
   */
  lemma SelendroidSeparateLines(id: string, v: string, pkg: string, simple: string)
    requires id != "" && v != "" && v != "null"
    requires simple != "" && '.' !in simple
    ensures GetInspect(Selendroid,
        Obj(map["name" := id, "value" := v, "label" := v, "type" := pkg + "." + simple], Some(true), None))
      == Success((simple + "\n") + ("  class: " + (pkg + "." + simple) + "\n") + ("  id: " + StripIdPrefix(id) + "\n")
                 + ("  text: " + v + "\n") + ("  name: " + v + "\n"))
  {
    var cls := pkg + "." + simple;
    var tree := Obj(map["name" := id, "value" := v, "label" := v, "type" := cls], Some(true), None);
    var e := SelendroidRecord(Some(id), Some(v), Some(v), Some(cls), Some(true));
    var h, c, i, t, n := Heading(simple), Field("class", cls), Field("id", StripIdPrefix(id)), Field("text", v), Field("name", v);
    SelendroidButtonRun(id, v, v, cls);
    SelendroidButtonBlock(id, v, v, pkg, simple);
    SelendroidOne(tree, e, [h, c, i, t, n]);
    SelendroidButtonText(simple, cls, StripIdPrefix(id), v, v);
  }

  lemma SelendroidButtonText(simple: string, cls: string, id: string, v: string, l: string)
    ensures Render([Heading(simple), Field("class", cls), Field("id", id), Field("text", v), Field("name", l)])
      == (simple + "\n") + ("  class: " + cls + "\n") + ("  id: " + id + "\n") + ("  text: " + v + "\n") + ("  name: " + l + "\n")
  {
    var h, c, i, t, n := Heading(simple), Field("class", cls), Field("id", id), Field("text", v), Field("name", l);
    assert RenderLine(c) == "  class: " + cls + "\n";
    assert RenderLine(i) == "  id: " + id + "\n";
    assert RenderLine(t) == "  text: " + v + "\n";
    assert RenderLine(n) == "  name: " + l + "\n";
    RenderLines5(h, c, i, t, n);
  }

  /**
   * A UiAutomator element with a text and a content description, nested once under `node`,
   * gives one descriptor holding them; the attribute-less parent gives none.
   */
  lemma AndroidButtonRun(t: string, d: string, cls: string)
    requires t != "" && d != ""
    ensures AndroidRun(Obj(map[], None, Some(Obj(map["@text" := t, "@content-desc" := d, "@class" := cls], None, None))))
      == [AndroidRecord(Some(d), Some(t), Some(cls))]
  {
    var inner := Obj(map["@text" := t, "@content-desc" := d, "@class" := cls], None, None);
    var tree := Obj(map[], None, Some(inner));
    assert AndroidRecordOf(tree) == None;
    assert Preorder(tree) == [tree, inner];
    assert [tree, inner][1..] == [inner];
    assert FilterMap(AndroidRecordOf, [tree, inner]) == [AndroidRecordOf(inner).value];
  }

  lemma AndroidButtonBlock(t: string, pkg: string, simple: string)
    requires simple != "" && '.' !in simple
    ensures AndroidBlock(AndroidRecord(Some(t), Some(t), Some(pkg + "." + simple)))
      == Success([Heading(simple), Field("class", pkg + "." + simple), Field(CombinedLabel, t)])
  {
    var cls := pkg + "." + simple;
    var e := AndroidRecord(Some(t), Some(t), Some(cls));
    HeaderQualified(pkg, simple);
    var h, c, l := Heading(simple), Field("class", cls), Field(CombinedLabel, t);
    assert AndroidFields(e) == [c, l];
    assert [h] + [c, l] == [h, c, l];
  }

  /**
   * A UiAutomator element nested once under `node`, whose text equals its content
   * description, prints its simple class name, the class and one combined `text, name:` line.
   */
  lemma AndroidCombinedLine(t: string, pkg: string, simple: string)
    requires t != ""
    requires simple != "" && '.' !in simple
    ensures GetInspect(UiAutomator,
        Obj(map[], None, Some(Obj(map["@text" := t, "@content-desc" := t, "@class" := pkg + "." + simple], None, None))))
      == Success((simple + "\n") + ("  class: " + (pkg + "." + simple) + "\n") + ("  text, name: " + t + "\n"))
  {
    var cls := pkg + "." + simple;
    var tree := Obj(map[], None, Some(Obj(map["@text" := t, "@content-desc" := t, "@class" := cls], None, None)));
    var e := AndroidRecord(Some(t), Some(t), Some(cls));
    var h, c, l := Heading(simple), Field("class", cls), Field(CombinedLabel, t);
    AndroidButtonRun(t, t, cls);
    AndroidButtonBlock(t, pkg, simple);
    AndroidOne(tree, e, [h, c, l]);
    AndroidButtonText(simple, cls, t);
  }

  lemma AndroidButtonText(simple: string, cls: string, t: string)
    ensures Render([Heading(simple), Field("class", cls), Field(CombinedLabel, t)])
      == (simple + "\n") + ("  class: " + cls + "\n") + ("  text, name: " + t + "\n")
  {
    var h, c, l := Heading(simple), Field("class", cls), Field(CombinedLabel, t);
    assert RenderLine(c) == "  class: " + cls + "\n";
    assert RenderLine(l) == "  text, name: " + t + "\n";
    RenderLines3(h, c, l);
  }

  /** When text and description differ, the block has separate `text:` and `name:` lines, text first. */
  lemma AndroidSplitBlock(t: string, d: string, pkg: string, simple: string)
    requires t != d
    requires simple != "" && '.' !in simple
    ensures AndroidBlock(AndroidRecord(Some(d), Some(t), Some(pkg + "." + simple)))
      == Success([Heading(simple), Field("class", pkg + "." + simple), Field("text", t), Field("name", d)])
  {
    var cls := pkg + "." + simple;
    var e := AndroidRecord(Some(d), Some(t), Some(cls));
    HeaderQualified(pkg, simple);
    var h, c, x, y := Heading(simple), Field("class", cls), Field("text", t), Field("name", d);
    assert AndroidFields(e) == [c, x, y];
    assert [h] + [c, x, y] == [h, c, x, y];
  }

  /**
   * A UiAutomator element nested once under `node`, whose text differs from its content
   * description, prints its simple class name, the class, `text:` with the `@text` value and
   * `name:` with the `@content-desc` value.
   */
  lemma AndroidSeparateLines(t: string, d: string, pkg: string, simple: string)
    requires t != "" && d != "" && t != d
    requires simple != "" && '.' !in simple
    ensures GetInspect(UiAutomator,
        Obj(map[], None, Some(Obj(map["@text" := t, "@content-desc" := d, "@class" := pkg + "." + simple], None, None))))
      == Success((simple + "\n") + ("  class: " + (pkg + "." + simple) + "\n") + ("  text: " + t + "\n") + ("  name: " + d + "\n"))
  {
    var cls := pkg + "." + simple;
    var tree := Obj(map[], None, Some(Obj(map["@text" := t, "@content-desc" := d, "@class" := cls], None, None)));
    var e := AndroidRecord(Some(d), Some(t), Some(cls));
    var h, c, x, y := Heading(simple), Field("class", cls), Field("text", t), Field("name", d);
    AndroidButtonRun(t, d, cls);
    AndroidSplitBlock(t, d, pkg, simple);
    AndroidOne(tree, e, [h, c, x, y]);
    AndroidSplitText(simple, cls, t, d);
  }

  lemma AndroidSplitText(simple: string, cls: string, t: string, d: string)
    ensures Render([Heading(simple), Field("class", cls), Field("text", t), Field("name", d)])
      == (simple + "\n") + ("  class: " + cls + "\n") + ("  text: " + t + "\n") + ("  name: " + d + "\n")
  {
    var h, c, x, y := Heading(simple), Field("class", cls), Field("text", t), Field("name", d);
    assert RenderLine(c) == "  class: " + cls + "\n";
    assert RenderLine(x) == "  text: " + t + "\n";
    assert RenderLine(y) == "  name: " + d + "\n";
    RenderLines4(h, c, x, y);
  }

  /** When no Selendroid descriptor is kept (all hidden, or carrying only an id), the report is empty. */
  lemma SelendroidNothingKept(tree: Node)
    requires forall i :: 0 <= i < |SelendroidRun(tree)| ==> !Kept(SelendroidRun(tree)[i])
    ensures GetInspect(Selendroid, tree) == Success("")
  {
    var rs := SelendroidRun(tree);
    SelendroidReportSkips(rs);
    assert Filter(Kept, rs) == [] by {
      if Filter(Kept, rs) != [] {
        FilterFrom(Kept, rs, 0);
      }
    }
  }

  /** An element of `Filter(p, xs)` is an element of `xs`. */
  lemma {:induction false} FilterFrom<T>(p: T -> bool, xs: seq<T>, i: nat)
    requires i < |Filter(p, xs)|
    ensures Filter(p, xs)[i] in xs
  {
    if p(xs[0]) {
      if i > 0 {
        FilterFrom(p, xs[1..], i - 1);
      }
    } else {
      FilterFrom(p, xs[1..], i);
    }
  }

  /** A shown Selendroid element with text but no `type` makes the report raise. */
  lemma SelendroidMissingClass(v: string)
    requires v != ""
    ensures GetInspect(Selendroid, Obj(map["value" := v], Some(true), None)) == Failure(NoClass)
  {
    var tree := Obj(map["value" := v], Some(true), None);
    var e := SelendroidRecord(None, Some(v), None, None, Some(true));
    assert SelendroidRecordOf(tree) == Some(e);
    assert Preorder(tree) == [tree];
    assert FilterMap(SelendroidRecordOf, [tree]) == [e];
  }

  /** A UiAutomator element with text but no `@class` makes the report raise. */
  lemma AndroidMissingClass(t: string)
    requires t != ""
    ensures GetInspect(UiAutomator, Obj(map["@text" := t], None, None)) == Failure(NoClass)
  {
    var tree := Obj(map["@text" := t], None, None);
    var e := AndroidRecord(None, Some(t), None);
    assert AndroidRecordOf(tree) == Some(e);
    assert Preorder(tree) == [tree];
    assert FilterMap(AndroidRecordOf, [tree]) == [e];
  }
}
