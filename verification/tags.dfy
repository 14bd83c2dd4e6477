/**
 * Tag-name resolution: an abstract role ("button", "text", ...) becomes the ordered list of
 * `android.widget.*` class names it stands for, and that list becomes the selector array
 * handed to the element-find command.
 */
module Tags {
  import opened Wrappers
  import opened RubyString

  /** The package every resolved class name lives in. */
  const WidgetPackage: string := "android.widget."

  /**
   * The role vocabulary, keyed by normalized role, giving the short class names in the order
   * they are resolved. There is deliberately no "secure" role: a password field is an EditText
   * like any other on Android.
   */
  const RoleTable: map<string, seq<string>> := map[
    "button" := ["Button", "ImageButton"],
    "text" := ["TextView"],
    "list" := ["ListView"],
    "window" := ["FrameLayout"],
    "frame" := ["FrameLayout"],
    "grid" := ["GridView"],
    "relative" := ["RelativeLayout"],
    "linear" := ["LinearLayout"],
    "textfield" := ["EditText"]
  ]

  /** Qualifies each short class name with the widget package, keeping the order. */
  function Prefix(tags: seq<string>): (r: seq<string>)
    ensures |r| == |tags|
    ensures forall i :: 0 <= i < |r| ==> r[i] == WidgetPackage + tags[i]
  {
    if tags == [] then [] else [WidgetPackage + tags[0]] + Prefix(tags[1..])
  }

  /** The message raised for a role outside the vocabulary; it names the normalized role. */
  function InvalidTag(tag: string): string {
    "Invalid tag name " + tag
  }

  /**
   * `tag_name_to_android`: the role is lower-cased and stripped, then matched against the
   * fixed vocabulary, each branch qualifying its class names with the widget package;
   * anything else raises.
   */
  function Resolve(tagName: string): (r: Result<seq<string>, string>)
    ensures r.Success? <==> Normalize(tagName) in RoleTable
    ensures r.Success? ==> r.value == Prefix(RoleTable[Normalize(tagName)]) && |r.value| >= 1
    ensures r.Failure? ==> r.error == InvalidTag(Normalize(tagName))
  {
    var tag := Normalize(tagName);
    match ShortNames(tag)
    case Some(names) => Success(Prefix(names))
    case None => Failure(InvalidTag(tag))
  }

  /** The branches of the `case` over the normalized role, before qualification. */
  function ShortNames(tag: string): (r: Option<seq<string>>)
    ensures r.Some? <==> tag in RoleTable
    ensures r.Some? ==> r.value == RoleTable[tag] && |r.value| >= 1
  {
    if tag == "button" then Some(["Button", "ImageButton"])
    else if tag == "text" then Some(["TextView"])
    else if tag == "list" then Some(["ListView"])
    else if tag == "window" || tag == "frame" then Some(["FrameLayout"])
    else if tag == "grid" then Some(["GridView"])
    else if tag == "relative" then Some(["RelativeLayout"])
    else if tag == "linear" then Some(["LinearLayout"])
    else if tag == "textfield" then Some(["EditText"])
    else None
  }

  /** Resolution sees the role only through its normalized form. */
  lemma ResolveNormalized(tagName: string)
    ensures Resolve(Normalize(tagName)) == Resolve(tagName)
  {
    NormalizeIdempotent(tagName);
  }

  /** Each recognised class name starts with the widget package. */
  lemma ResolvedAreWidgets(tagName: string)
    ensures Resolve(tagName).Success? ==>
      forall i :: 0 <= i < |Resolve(tagName).value| ==> WidgetPackage <= Resolve(tagName).value[i]
  {
    var r := Resolve(tagName);
    if r.Success? {
      var names := ShortNames(Normalize(tagName)).value;
      assert r.value == Prefix(names);
      PrefixedAreWidgets(names);
    }
  }

  /** Every qualified name starts with the widget package. */
  lemma PrefixedAreWidgets(tags: seq<string>)
    ensures forall i :: 0 <= i < |Prefix(tags)| ==> WidgetPackage <= Prefix(tags)[i]
  {
    forall i | 0 <= i < |Prefix(tags)|
      ensures WidgetPackage <= Prefix(tags)[i]
    {
      assert Prefix(tags)[i] == WidgetPackage + tags[i];
    }
  }

  /** A role spelled with lower-case ASCII letters only is already in normal form. */
  lemma NormalizeWord(s: string)
    requires forall i :: 0 <= i < |s| ==> 'a' <= s[i] <= 'z'
    ensures Normalize(s) == s
  {
    DowncaseOfLower(s);
    StripTrimmed(s);
  }

  /** `button` resolves to two classes, Button first. */
  lemma ResolveButton()
    ensures Resolve("button") == Success(["android.widget.Button", "android.widget.ImageButton"])
  {
    ButtonNormal();
    ButtonShortNames();
    ResolveFromShortNames("button", ["Button", "ImageButton"]);
    ButtonPrefix();
  }

  /** The `button` branch of the `case`. */
  lemma ButtonShortNames()
    ensures ShortNames("button") == Some(["Button", "ImageButton"])
  {
  }

  /** Qualifying the two button classes. */
  lemma ButtonPrefix()
    ensures Prefix(["Button", "ImageButton"]) == ["android.widget.Button", "android.widget.ImageButton"]
  {
    var button := Prefix(["Button", "ImageButton"]);
    assert button[0] == WidgetPackage + "Button" == "android.widget.Button";
    assert button[1] == WidgetPackage + "ImageButton" == "android.widget.ImageButton";
  }

  /** `window` and `frame` are two names for the same single class. */
  lemma ResolveWindowFrame()
    ensures Resolve("window") == Resolve("frame") == Success(["android.widget.FrameLayout"])
  {
    WindowResolves();
    FrameResolves();
    FrameLayoutPrefix();
  }

  /** `window` takes the FrameLayout branch. */
  lemma WindowResolves()
    ensures Resolve("window") == Success(Prefix(["FrameLayout"]))
  {
    WindowNormal();
    WindowShortNames();
    ResolveFromShortNames("window", ["FrameLayout"]);
  }

  /** `frame` takes the same branch. */
  lemma FrameResolves()
    ensures Resolve("frame") == Success(Prefix(["FrameLayout"]))
  {
    FrameNormal();
    FrameShortNames();
    ResolveFromShortNames("frame", ["FrameLayout"]);
  }

  /** The `window` alternative of the FrameLayout branch. */
  lemma WindowShortNames()
    ensures ShortNames("window") == Some(["FrameLayout"])
  {
  }

  /** The `frame` alternative of the FrameLayout branch. */
  lemma FrameShortNames()
    ensures ShortNames("frame") == Some(["FrameLayout"])
  {
  }

  /** `button` is already in normal form. */
  lemma ButtonNormal()
    ensures Normalize("button") == "button"
  {
    ButtonLower();
    ButtonTrimmed();
  }

  /** `button` has no upper-case letter. */
  lemma ButtonLower()
    ensures Downcase("button") == "button"
  {
    DowncaseOfLower("button");
  }

  /** `button` has no padding. */
  lemma ButtonTrimmed()
    ensures Strip("button") == "button"
  {
    StripTrimmed("button");
  }

  /** `window` is already in normal form. */
  lemma WindowNormal()
    ensures Normalize("window") == "window"
  {
    WindowLower();
    WindowTrimmed();
  }

  /** `window` has no upper-case letter. */
  lemma WindowLower()
    ensures Downcase("window") == "window"
  {
    DowncaseOfLower("window");
  }

  /** `window` has no padding. */
  lemma WindowTrimmed()
    ensures Strip("window") == "window"
  {
    StripTrimmed("window");
  }

  /** `frame` is already in normal form. */
  lemma FrameNormal()
    ensures Normalize("frame") == "frame"
  {
    FrameLower();
    FrameTrimmed();
  }

  /** `frame` has no upper-case letter. */
  lemma FrameLower()
    ensures Downcase("frame") == "frame"
  {
    DowncaseOfLower("frame");
  }

  /** `frame` has no padding. */
  lemma FrameTrimmed()
    ensures Strip("frame") == "frame"
  {
    StripTrimmed("frame");
  }

  /** `secure` is already in normal form. */
  lemma SecureNormal()
    ensures Normalize("secure") == "secure"
  {
    SecureLower();
    SecureTrimmed();
  }

  /** `secure` has no upper-case letter. */
  lemma SecureLower()
    ensures Downcase("secure") == "secure"
  {
    DowncaseOfLower("secure");
  }

  /** `secure` has no padding. */
  lemma SecureTrimmed()
    ensures Strip("secure") == "secure"
  {
    StripTrimmed("secure");
  }

  /** The empty role is its own normal form. */
  lemma EmptyNormal()
    ensures Normalize("") == ""
  {
  }

  /** A role already in normal form resolves to the qualified form of its branch. */
  lemma ResolveFromShortNames(tag: string, names: seq<string>)
    requires Normalize(tag) == tag && ShortNames(tag) == Some(names)
    ensures Resolve(tag) == Success(Prefix(names))
  {
  }

  /** Qualifying the single FrameLayout class. */
  lemma FrameLayoutPrefix()
    ensures Prefix(["FrameLayout"]) == ["android.widget.FrameLayout"]
  {
    assert Prefix(["FrameLayout"]) == [WidgetPackage + "FrameLayout"];
    assert WidgetPackage + "FrameLayout" == "android.widget.FrameLayout";
  }

  /** Whitespace around a role does not matter. */
  lemma ResolveIgnoresPadding(left: string, w: string, right: string)
    requires AllSpace(left) && AllSpace(right)
    ensures Resolve(left + w + right) == Resolve(w)
  {
    NormalizePadded(left, w, right);
  }

  /** Capitals in a role do not matter. */
  lemma ResolveIgnoresCase(w: string)
    ensures Resolve(Downcase(w)) == Resolve(w)
  {
    NormalizeCase(w);
  }

  /** A padded, capitalised role resolves like its bare lower-case spelling. */
  lemma ResolvePaddedSpelling(left: string, w: string, right: string, lower: string)
    requires AllSpace(left) && AllSpace(right) && Downcase(w) == lower
    ensures Resolve(left + w + right) == Resolve(lower)
  {
    ResolveIgnoresPadding(left, w, right);
    ResolveIgnoresCase(w);
  }

  /** "secure" and the empty role are rejected with a message naming them. */
  lemma ResolveRejects()
    ensures Resolve("secure") == Failure("Invalid tag name secure")
    ensures Resolve("") == Failure("Invalid tag name ")
  {
    RejectsSecure();
    RejectsEmpty();
    RejectMessages();
  }

  /** `secure` takes no branch. */
  lemma RejectsSecure()
    ensures Resolve("secure") == Failure(InvalidTag("secure"))
  {
    SecureNormal();
    SecureShortNames();
    RejectFromShortNames("secure");
  }

  /** The empty role takes no branch. */
  lemma RejectsEmpty()
    ensures Resolve("") == Failure(InvalidTag(""))
  {
    EmptyNormal();
    EmptyShortNames();
    RejectFromShortNames("");
  }

  /** No branch of the `case` matches the empty role. */
  lemma EmptyShortNames()
    ensures ShortNames("") == None
  {
  }

  /** The messages raised for `secure` and for the empty role. */
  lemma RejectMessages()
    ensures InvalidTag("secure") == "Invalid tag name secure"
    ensures InvalidTag("") == "Invalid tag name "
  {
  }

  /** No branch of the `case` matches `secure`. */
  lemma SecureShortNames()
    ensures ShortNames("secure") == None
  {
  }

  /** A role already in normal form with no branch raises, naming the role. */
  lemma RejectFromShortNames(tag: string)
    requires Normalize(tag) == tag && ShortNames(tag) == None
    ensures Resolve(tag) == Failure(InvalidTag(tag))
  {
  }

  /** One element of the argument array sent with the find command. */
  datatype Arg = Str(s: string) | Int(n: int) | List(items: seq<Arg>)

  /** Selector code for matching on a class name. */
  const ClassNameSelector: int := 4
  /** Selector code that closes each criterion; the source's comment reads it as "get the name attribute". */
  const NameAttributeSelector: int := 100

  /** `[[4, name], [100]]`: the criterion for one class name. */
  function Criterion(className: string): Arg {
    List([List([Int(ClassNameSelector), Str(className)]), List([Int(NameAttributeSelector)])])
  }

  /** `'all'` followed by the criterion of each class name in `names`, in order. */
  method Selector(names: seq<string>) returns (selector: seq<Arg>)
    ensures |selector| == 1 + |names|
    ensures selector[0] == Str("all")
    ensures forall i :: 0 <= i < |names| ==> selector[i + 1] == Criterion(names[i])
  {
    selector := [Str("all")];
    var i := 0;
    while i < |names|
      invariant 0 <= i <= |names|
      invariant |selector| == 1 + i
      invariant selector[0] == Str("all")
      invariant forall j :: 0 <= j < i ==> selector[j + 1] == Criterion(names[j])
    {
      selector := selector + [Criterion(names[i])];
      i := i + 1;
    }
  }

  /**
   * The selector array `find_eles_attr` builds: `'all'` followed by one criterion per resolved
   * class, in resolution order. The `attribute` argument is accepted and ignored.
   */
  method FindElesAttr(tagName: string, attribute: Option<string>) returns (r: Result<seq<Arg>, string>)
    ensures Resolve(tagName).Failure? ==> r == Failure(Resolve(tagName).error)
    ensures Resolve(tagName).Success? ==> r.Success?
    ensures r.Success? ==> |r.value| == 1 + |Resolve(tagName).value|
    ensures r.Success? ==> r.value[0] == Str("all")
    ensures r.Success? ==> forall i :: 0 <= i < |Resolve(tagName).value| ==>
      r.value[i + 1] == Criterion(Resolve(tagName).value[i])
  {
    var resolved := Resolve(tagName);
    if resolved.Failure? {
      return Failure(resolved.error);
    }
    var selector := Selector(resolved.value);
    return Success(selector);
  }
}
