/**
 * The page-source tree and its normalisation. Both backends deliver a JSON-like tree of
 * mappings and arrays; each walks it depth first and emits one descriptor record per
 * mapping that carries an identifying attribute, parent before children.
 */
module Hierarchy {
  import opened Wrappers

  /**
   * A decoded page-source node. A mapping holds its string attributes, the Selendroid
   * `shown` flag (by its truthiness) if the key is present, and the value of the backend's
   * child key (`children` for Selendroid, `node` for UiAutomator) if present. An array
   * holds nodes in document order.
   */
  datatype Node =
    | Obj(attrs: map<string, string>, shown: Option<bool>, child: Option<Node>)
    | Arr(items: seq<Node>)

  /** The keys the Selendroid walk reads into `shown` and `child` rather than into attributes. */
  const SelendroidReserved: set<string> := {"shown", "children"}

  /** The key the UiAutomator walk reads into `child` rather than into attributes. */
  const UiAutomatorReserved: set<string> := {"node"}

  /**
   * `n` is the decoding of a page source whose special keys are `reserved`: at every depth
   * those keys live in `shown` and `child`, never among the string attributes. A node
   * outside this predicate has no page source behind it.
   */
  predicate Decoded(n: Node, reserved: set<string>)
    decreases n
  {
    match n
    case Arr(items) => forall i :: 0 <= i < |items| ==> Decoded(items[i], reserved)
    case Obj(attrs, _, child) =>
      && reserved !! attrs.Keys
      && (match child case Some(c) => Decoded(c, reserved) case None => true)
  }

  /** `keys.empty?`: a mapping without a single key. */
  predicate NoKeys(n: Node)
    requires n.Obj?
  {
    n.attrs == map[] && n.shown.None? && n.child.None?
  }

  /**
   * The mappings of a tree in preorder: a mapping comes before everything under its child
   * key, and an array contributes its elements' mappings in order. This is the reference
   * order the normalisers are proved to emit in.
   */
  function Preorder(n: Node): (r: seq<Node>)
    ensures forall i :: 0 <= i < |r| ==> r[i].Obj?
    ensures n.Obj? ==> |r| >= 1 && r[0] == n
    decreases n
  {
    match n
    case Arr(items) => PreorderAll(items)
    case Obj(_, _, child) =>
      [n] + (match child case Some(c) => Preorder(c) case None => [])
  }

  function PreorderAll(ns: seq<Node>): (r: seq<Node>)
    ensures forall i :: 0 <= i < |r| ==> r[i].Obj?
    decreases ns
  {
    if ns == [] then [] else Preorder(ns[0]) + PreorderAll(ns[1..])
  }

  /** Arrays contribute their elements' mappings one after the other. */
  lemma {:induction false} PreorderAllAppend(xs: seq<Node>, ys: seq<Node>)
    ensures PreorderAll(xs + ys) == PreorderAll(xs) + PreorderAll(ys)
  {
    if xs == [] {
      assert xs + ys == ys;
    } else {
      assert (xs + ys)[1..] == xs[1..] + ys;
      PreorderAllAppend(xs[1..], ys);
    }
  }

  /** Applies `f` to each element, keeping the results that are present, in order. */
  function FilterMap<A, B>(f: A -> Option<B>, xs: seq<A>): (r: seq<B>)
    ensures |r| <= |xs|
  {
    if xs == [] then []
    else (match f(xs[0]) case Some(y) => [y] case None => []) + FilterMap(f, xs[1..])
  }

  lemma {:induction false} FilterMapAppend<A, B>(f: A -> Option<B>, xs: seq<A>, ys: seq<A>)
    ensures FilterMap(f, xs + ys) == FilterMap(f, xs) + FilterMap(f, ys)
  {
    if xs == [] {
      assert xs + ys == ys;
    } else {
      var head := match f(xs[0]) case Some(y) => [y] case None => [];
      assert (xs + ys)[0] == xs[0];
      assert (xs + ys)[1..] == xs[1..] + ys;
      assert FilterMap(f, xs + ys) == head + FilterMap(f, xs[1..] + ys);
      FilterMapAppend(f, xs[1..], ys);
      assert FilterMap(f, xs) == head + FilterMap(f, xs[1..]);
    }
  }

  /** Whatever `f` promises of each value it produces holds of everything `FilterMap` keeps. */
  lemma {:induction false} FilterMapKeeps<A, B>(f: A -> Option<B>, p: B -> bool, xs: seq<A>)
    requires forall x :: f(x).Some? ==> p(f(x).value)
    ensures forall i :: 0 <= i < |FilterMap(f, xs)| ==> p(FilterMap(f, xs)[i])
  {
    if xs != [] {
      FilterMapKeeps(f, p, xs[1..]);
    }
  }

  /** The key-less mapping `{}`. */
  const EmptyMapping: Node := Obj(map[], None, None)

  /**
   * The shared skeleton of both `run` helpers: an array is walked element by element; a
   * mapping without keys stops the walk; any other mapping contributes its record, if it
   * has one, and then the walk continues under its child key. It emits the records of the
   * tree's mappings in preorder: the early return is unobservable as long as a key-less
   * mapping has no record of its own.
   */
  function Walk<R>(extract: Node -> Option<R>, n: Node): (r: seq<R>)
    ensures extract(EmptyMapping).None? ==> r == FilterMap(extract, Preorder(n))
    decreases n
  {
    match n
    case Arr(items) => WalkAll(extract, items)
    case Obj(_, _, child) =>
      var rest := match child case Some(c) => Preorder(c) case None => [];
      assert Preorder(n) == [n] + rest;
      assert ([n] + rest)[1..] == rest;
      if NoKeys(n) then
        assert n == EmptyMapping;
        []
      else
        (match extract(n) case Some(rec) => [rec] case None => [])
        + (match child case Some(c) => Walk(extract, c) case None => [])
  }

  /** The walk over an array: the records of its elements' preorders, one element after another. */
  function WalkAll<R>(extract: Node -> Option<R>, ns: seq<Node>): (r: seq<R>)
    ensures extract(EmptyMapping).None? ==> r == FilterMap(extract, PreorderAll(ns))
    decreases ns
  {
    if ns == [] then []
    else
      FilterMapAppend(extract, Preorder(ns[0]), PreorderAll(ns[1..]));
      Walk(extract, ns[0]) + WalkAll(extract, ns[1..])
  }

  /** Concatenating two arrays concatenates what the walk emits for them. */
  lemma WalkArrayConcat<R>(extract: Node -> Option<R>, xs: seq<Node>, ys: seq<Node>)
    requires extract(EmptyMapping).None?
    ensures Walk(extract, Arr(xs + ys)) == Walk(extract, Arr(xs)) + Walk(extract, Arr(ys))
  {
    PreorderAllAppend(xs, ys);
    FilterMapAppend(extract, PreorderAll(xs), PreorderAll(ys));
  }

  /** A mapping's own record is emitted before any record from under its child key. */
  lemma WalkParentFirst<R>(extract: Node -> Option<R>, n: Node)
    requires extract(EmptyMapping).None?
    requires n.Obj? && extract(n).Some? && n.child.Some?
    ensures Walk(extract, n) == [extract(n).value] + Walk(extract, n.child.value)
  {
    assert !NoKeys(n);
  }

  /** A mapping without a record of its own passes the walk straight on to its child. */
  lemma WalkSilentMapping<R>(extract: Node -> Option<R>, n: Node)
    requires n.Obj? && extract(n).None? && n.child.Some?
    ensures Walk(extract, n) == Walk(extract, n.child.value)
  {
  }

  /** `keys.include?(key) && !node[key].empty?`, giving the value when it holds. */
  function NonEmpty(attrs: map<string, string>, key: string): (r: Option<string>)
    ensures r.Some? <==> key in attrs && attrs[key] != ""
    ensures r.Some? ==> r.value == attrs[key]
  {
    if key in attrs && attrs[key] != "" then Some(attrs[key]) else None
  }

  /**
   * A Selendroid descriptor: `id` from the `name` attribute, `text` from `value`, `name`
   * from `label`, `cls` from `type`, and `shown` copied when the key is present.
   */
  datatype SelendroidRecord = SelendroidRecord(
    id: Option<string>, text: Option<string>, name: Option<string>, cls: Option<string>, shown: Option<bool>)
  {
    /** At least one identifying field is set. */
    predicate Identified() {
      id.Some? || text.Some? || name.Some?
    }

    /**
     * What every emitted descriptor satisfies: it is not empty, `cls` is only attached
     * next to an identifying field, and every string field is non-empty.
     */
    predicate WellFormed() {
      && (Identified() || shown.Some?)
      && (cls.Some? ==> Identified())
      && (id.Some? ==> id.value != "")
      && (text.Some? ==> text.value != "")
      && (name.Some? ==> name.value != "")
    }
  }

  /** The descriptor the Selendroid `run` builds for one mapping, or none when it stays empty. */
  function SelendroidRecordOf(n: Node): (r: Option<SelendroidRecord>)
    ensures r.Some? ==> r.value.WellFormed()
    ensures r.Some? ==> n.Obj? && r.value.shown == n.shown
    ensures r.Some? ==>
      && r.value.id == NonEmpty(n.attrs, "name")
      && r.value.text == NonEmpty(n.attrs, "value")
      && r.value.name == NonEmpty(n.attrs, "label")
    ensures r.Some? ==> r.value.cls == (if "type" in n.attrs && r.value.Identified() then Some(n.attrs["type"]) else None)
  {
    match n
    case Arr(_) => None
    case Obj(attrs, shown, _) =>
      var id := NonEmpty(attrs, "name");
      var text := NonEmpty(attrs, "value");
      var name := NonEmpty(attrs, "label");
      var identified := id.Some? || text.Some? || name.Some?;
      var cls := if "type" in attrs && identified then Some(attrs["type"]) else None;
      if identified || shown.Some? then Some(SelendroidRecord(id, text, name, cls, shown)) else None
  }

  /**
   * The Selendroid `run`: the descriptors of the tree's mappings, in preorder, each one
   * well formed.
   */
  function SelendroidRun(tree: Node): (r: seq<SelendroidRecord>)
    ensures r == FilterMap(SelendroidRecordOf, Preorder(tree))
    ensures forall i :: 0 <= i < |r| ==> r[i].WellFormed()
  {
    assert SelendroidRecordOf(EmptyMapping).None?;
    FilterMapKeeps(SelendroidRecordOf, (e: SelendroidRecord) => e.WellFormed(), Preorder(tree));
    Walk(SelendroidRecordOf, tree)
  }

  /**
   * A Selendroid mapping yields a descriptor exactly when one of `name`, `value`, `label` is
   * a non-empty string or it has a `shown` key; `type` alone never does.
   */
  lemma SelendroidEmitsIff(n: Node)
    requires n.Obj?
    ensures SelendroidRecordOf(n).Some? <==>
      (|| NonEmpty(n.attrs, "name").Some? || NonEmpty(n.attrs, "value").Some?
       || NonEmpty(n.attrs, "label").Some? || n.shown.Some?)
    ensures SelendroidRecordOf(n).Some? ==>
      (SelendroidRecordOf(n).value.cls.Some? <==> "type" in n.attrs && SelendroidRecordOf(n).value.Identified())
  {
  }

  /** A mapping with only a `type` and children adds nothing; the walk goes on to the children. */
  lemma SelendroidTypeOnly(t: string, children: Node)
    ensures SelendroidRun(Obj(map["type" := t], None, Some(children))) == SelendroidRun(children)
  {
    var n := Obj(map["type" := t], None, Some(children));
    assert SelendroidRecordOf(n).None?;
    WalkSilentMapping(SelendroidRecordOf, n);
  }

  /** A UiAutomator descriptor: `desc` from `@content-desc`, `text` from `@text`, `cls` from `@class`. */
  datatype AndroidRecord = AndroidRecord(desc: Option<string>, text: Option<string>, cls: Option<string>)
  {
    predicate Identified() {
      desc.Some? || text.Some?
    }

    /** Every emitted descriptor is identified and carries only non-empty descriptions and texts. */
    predicate WellFormed() {
      && Identified()
      && (desc.Some? ==> desc.value != "")
      && (text.Some? ==> text.value != "")
    }
  }

  /** The descriptor the UiAutomator `run` builds for one mapping, or none when it stays empty. */
  function AndroidRecordOf(n: Node): (r: Option<AndroidRecord>)
    ensures r.Some? ==> r.value.WellFormed()
    ensures r.Some? ==>
      && n.Obj?
      && r.value.desc == NonEmpty(n.attrs, "@content-desc")
      && r.value.text == NonEmpty(n.attrs, "@text")
    ensures r.Some? ==> r.value.cls == (if "@class" in n.attrs then Some(n.attrs["@class"]) else None)
  {
    match n
    case Arr(_) => None
    case Obj(attrs, _, _) =>
      var desc := NonEmpty(attrs, "@content-desc");
      var text := NonEmpty(attrs, "@text");
      var identified := desc.Some? || text.Some?;
      var cls := if "@class" in attrs && identified then Some(attrs["@class"]) else None;
      if identified then Some(AndroidRecord(desc, text, cls)) else None
  }

  /** The UiAutomator `run`: the descriptors of the tree's mappings, in preorder, each one well formed. */
  function AndroidRun(tree: Node): (r: seq<AndroidRecord>)
    ensures r == FilterMap(AndroidRecordOf, Preorder(tree))
    ensures forall i :: 0 <= i < |r| ==> r[i].WellFormed()
  {
    assert AndroidRecordOf(EmptyMapping).None?;
    FilterMapKeeps(AndroidRecordOf, (e: AndroidRecord) => e.WellFormed(), Preorder(tree));
    Walk(AndroidRecordOf, tree)
  }

  /**
   * A UiAutomator mapping yields a descriptor exactly when `@content-desc` or `@text` is a
   * non-empty string, and then carries its `@class` if it has one.
   */
  lemma AndroidEmitsIff(n: Node)
    requires n.Obj?
    ensures AndroidRecordOf(n).Some? <==>
      (NonEmpty(n.attrs, "@content-desc").Some? || NonEmpty(n.attrs, "@text").Some?)
    ensures AndroidRecordOf(n).Some? ==>
      (AndroidRecordOf(n).value.cls.Some? <==> "@class" in n.attrs)
  {
  }

  /** A mapping with only a `@class` and a `node` adds nothing; the walk goes on to the `node`. */
  lemma AndroidClassOnly(c: string, child: Node)
    ensures AndroidRun(Obj(map["@class" := c], None, Some(child))) == AndroidRun(child)
  {
    var n := Obj(map["@class" := c], None, Some(child));
    assert AndroidRecordOf(n).None?;
    WalkSilentMapping(AndroidRecordOf, n);
  }
}
