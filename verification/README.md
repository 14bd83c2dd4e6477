# Android helper of the Appium Ruby client, modelled in Dafny

This project models the Android helper of the Appium Ruby client library
(`lib/appium_lib/android/helper.rb`). It covers four parts:

- **Tag resolver.** `tag_name_to_android` turns a UI role such as `button` into the
  fully qualified Android widget classes that implement it. Before it looks the role up,
  it lower-cases the role and strips surrounding whitespace. Any role outside the table
  raises `Invalid tag name <role>`.
- **Selector array.** `find_eles_attr` builds the argument of the `mobile :find` command:
  `'all'`, then one `[[4, class], [100]]` criterion per resolved class.
- **Page-source normalisers.** There is one `run` per backend. Each walks the decoded page
  source depth first and collects one descriptor per element with something to show:
  - Selendroid reads `name`, `value`, `label`, `type`, `shown` and the child key `children`;
  - UiAutomator reads `@content-desc`, `@text`, `@class` and the child key `node`.
- **Reporters and dispatch.** Each backend has a reporter, and `get_inspect` picks one by
  the backend flag. A reporter prints one block per descriptor: the simple class name,
  then indented `class:`, `id:`, `text:`, `name:` or `text, name:` lines. The Selendroid
  reporter first drops descriptors that are hidden or that carry only an id. Both reporters
  raise when a printed descriptor has no usable class.

## Modules

- `Wrappers`: `Option` and `Result`.
- `RubyString`: the Ruby string operations the helper relies on, over `seq<char>`:
  - `strip` (NUL and ASCII whitespace);
  - ASCII `downcase`;
  - `split('.')` with its dropping of trailing empty fields, followed by `last`;
  - `sub(/^id\//, '')`, where `^` anchors at any line start.
- `Tags`: the role table, the resolver, and the selector array.
- `Hierarchy`:
  - the page-source tree;
  - a walk shared by both normalisers, proved equal to "filter-map over the preorder of
    the tree's mappings";
  - the two per-element descriptor builders.
- `Inspect`: the output as a sequence of lines, the per-descriptor blocks, the reports,
  the rendering to text, and the dispatch.
- `Examples`: end-to-end statements about single-element page sources.

A raise in the source is a `Failure`:
- `Failure(InvalidTag(Normalize(role)))` from the resolver, naming the role after `downcase.strip`;
- `Failure(NoClass)` when a printed descriptor has no class (`nil.split`);
- `Failure(NoClassField(cls))` when the class consists only of dots or is empty
  (`nil + "\n"`).

Under Selendroid, lines 123 and 126 always print separate `text:` and `name:` lines, even
when the text and the name agree (`Inspect.SelendroidReport`,
`Examples.SelendroidSeparateLines`). Only the UiAutomator report (lines 171–172) prints
one combined `text, name:` line, and only when the text equals the description
(`Inspect.AndroidBlock`, `Examples.AndroidCombinedLine`).

## Model

| member | source | states |
|---|---|---|
| `RubyString.LStrip` | lib/appium_lib/android/helper.rb:7 | the result is a suffix of the input; every removed character is whitespace; the result does not start with whitespace |
| `RubyString.RStrip` | lib/appium_lib/android/helper.rb:7 | the result is a prefix of the input; every removed character is whitespace; the result does not end with whitespace |
| `RubyString.Downcase` | lib/appium_lib/android/helper.rb:7 | same length; each character lower-cased, ASCII letters only |
| `RubyString.StripEnds` | lib/appium_lib/android/helper.rb:7 | `strip` returns a string that neither starts nor ends with whitespace |
| `RubyString.StripKeepsLower` | lib/appium_lib/android/helper.rb:7 | `strip` of a lower-case string is lower-case, because it only removes characters |
| `RubyString.Normalize` | lib/appium_lib/android/helper.rb:7 | the normalized role neither starts nor ends with whitespace |
| `RubyString.NormalizeIdempotent` | lib/appium_lib/android/helper.rb:7 | `downcase.strip` applied twice equals applying it once |
| `RubyString.NormalizePadded` | lib/appium_lib/android/helper.rb:7 | whitespace padding on either side does not change the normalized role |
| `RubyString.NormalizeCase` | lib/appium_lib/android/helper.rb:7 | lower-casing first does not change the normalized role |
| `RubyString.Split` | lib/appium_lib/android/helper.rb:113 | `split` yields at least one field, and no field contains the separator |
| `RubyString.JoinSplit` | lib/appium_lib/android/helper.rb:113 | joining the fields with the separator gives back the original string |
| `RubyString.SplitAtSeparator` | lib/appium_lib/android/helper.rb:113 | splitting `a + sep + b` is splitting `a` followed by splitting `b` |
| `RubyString.SplitNoSeparator` | lib/appium_lib/android/helper.rb:113 | a separator-free string is one field |
| `RubyString.SplitAllEmpty` | lib/appium_lib/android/helper.rb:113 | every field is empty if and only if the string consists of separators only |
| `RubyString.DropTrailingEmpty` | lib/appium_lib/android/helper.rb:113 | the kept fields are a prefix; everything dropped is empty; the last kept field is non-empty |
| `RubyString.LastField` | lib/appium_lib/android/helper.rb:113 | `split('.').last` is nil exactly when the string is all dots or empty; otherwise it is a non-empty, dot-free string (which string is fixed by `RubyString.LastFieldTrailing`) |
| `RubyString.LastFieldQualified` | lib/appium_lib/android/helper.rb:113 | the last field of `pkg.Simple` is `Simple` |
| `RubyString.DropTrailingAllEmpty` | lib/appium_lib/android/helper.rb:113 | appending only empty fields to fields that end in a non-empty one is undone by `split`'s dropping of trailing empty fields |
| `RubyString.SplitTrailing` | lib/appium_lib/android/helper.rb:113 | a separator-free field followed by separators only splits into that field and then empty fields |
| `RubyString.LastFieldTrailing` | lib/appium_lib/android/helper.rb:113 | for a non-empty separator-free `last` and any run of separators `dots`, both `last + dots` and `prefix + sep + last + dots` have `last` as their last field; every string that is not all separators has one of these two forms, so this fixes the result |
| `RubyString.LastFieldUnqualified` | lib/appium_lib/android/helper.rb:168 | a class name without a dot is its own heading field |
| `RubyString.FirstIdPrefix` | lib/appium_lib/android/helper.rb:117 | returns the leftmost line-start position at or after `from` where `id/` occurs, or none when there is no such position |
| `RubyString.StripIdPrefix` | lib/appium_lib/android/helper.rb:117 | three characters are removed exactly when some line of the id starts with `id/`; putting `id/` back at the leftmost such line start restores the id; with no such line the id is unchanged |
| `RubyString.StripIdLeading` | lib/appium_lib/android/helper.rb:117 | a leading `id/` is removed, and only that one occurrence |
| `RubyString.StripIdSingleLine` | lib/appium_lib/android/helper.rb:117 | a one-line id that does not start with `id/` is printed unchanged |
| `Tags.Prefix` | lib/appium_lib/android/helper.rb:10-12 | same length; each name becomes `android.widget.` followed by the name, in order |
| `Tags.PrefixedAreWidgets` | lib/appium_lib/android/helper.rb:10-12 | every name `prefix` returns starts with `android.widget.` |
| `Tags.ShortNames` | lib/appium_lib/android/helper.rb:18-34 | the `case` branches match exactly the roles in the role table, with the table's class lists, none empty |
| `Tags.Resolve` | lib/appium_lib/android/helper.rb:6-38 | a role resolves if and only if its normalized form is in the table, to the table's classes in the widget package, never an empty list; otherwise it raises `Invalid tag name` followed by the normalized form |
| `Tags.ResolveNormalized` | lib/appium_lib/android/helper.rb:7 | resolving the normalized role is the same as resolving the role |
| `Tags.ResolvedAreWidgets` | lib/appium_lib/android/helper.rb:11 | every resolved class starts with `android.widget.` |
| `Tags.NormalizeWord` | lib/appium_lib/android/helper.rb:7 | a role made only of lower-case letters is already normalized |
| `Tags.ResolveButton` | lib/appium_lib/android/helper.rb:19-20 | `button` resolves to `android.widget.Button`, then `android.widget.ImageButton` |
| `Tags.ResolveWindowFrame` | lib/appium_lib/android/helper.rb:25-26 | `window` and `frame` both resolve to `android.widget.FrameLayout` |
| `Tags.ResolveIgnoresPadding` | lib/appium_lib/android/helper.rb:7 | whitespace around a role does not change how it resolves |
| `Tags.ResolveIgnoresCase` | lib/appium_lib/android/helper.rb:7 | capital letters in a role do not change how it resolves |
| `Tags.ResolvePaddedSpelling` | lib/appium_lib/android/helper.rb:7 | a padded, capitalised role resolves like its bare lower-case spelling |
| `Tags.ResolveRejects` | lib/appium_lib/android/helper.rb:35-36 | `secure` is rejected with `Invalid tag name secure`, and the empty role with `Invalid tag name ` |
| `Tags.Selector` | lib/appium_lib/android/helper.rb:57-62 | `'all'`, then the criterion `[[4, name], [100]]` for each class name, in order |
| `Tags.FindElesAttr` | lib/appium_lib/android/helper.rb:48-62 | a resolver failure propagates; otherwise the array has one more entry than there are resolved classes: `'all'` first, then each class's criterion in resolution order |
| `Hierarchy.Walk` | lib/appium_lib/android/helper.rb:75-95 | for any record builder that builds nothing from `{}`, the recursive walk with its early return on key-less mappings emits exactly the records of the tree's mappings in preorder |
| `Hierarchy.WalkAll` | lib/appium_lib/android/helper.rb:76-78 | walking an array emits the records of its elements' preorders, one element after another |
| `Hierarchy.WalkArrayConcat` | lib/appium_lib/android/helper.rb:76-78 | walking two arrays placed one after the other gives the first array's records, then the second's |
| `Hierarchy.WalkParentFirst` | lib/appium_lib/android/helper.rb:93-94 | a mapping's own record comes before every record under its child key |
| `Hierarchy.WalkSilentMapping` | lib/appium_lib/android/helper.rb:93-94 | a mapping without a record passes the walk straight to its child |
| `Hierarchy.SelendroidRecordOf` | lib/appium_lib/android/helper.rb:84-93 | every record it builds comes from a mapping and holds the non-empty `name` as id, `value` as text, `label` as name, the mapping's `shown`, and `type` as class exactly when `type` is present next to an id, text or name; the class may be any string |
| `Hierarchy.SelendroidRun` | lib/appium_lib/android/helper.rb:72-99 | the records of the tree's mappings in preorder, each one well formed |
| `Hierarchy.SelendroidEmitsIff` | lib/appium_lib/android/helper.rb:86-93 | a mapping yields a record if and only if `name`, `value` or `label` is non-empty, or it has a `shown` key; the class is attached if and only if `type` is present and the record is identified |
| `Hierarchy.SelendroidTypeOnly` | lib/appium_lib/android/helper.rb:90-94 | a mapping with only a `type` adds nothing, and the walk continues into its children |
| `Hierarchy.AndroidRecordOf` | lib/appium_lib/android/helper.rb:149-154 | every record it builds comes from a mapping, has a non-empty description or text, and holds the non-empty `@content-desc` as description, `@text` as text, and `@class` as class exactly when `@class` is present |
| `Hierarchy.AndroidRun` | lib/appium_lib/android/helper.rb:137-160 | the records of the tree's mappings in preorder, each one well formed |
| `Hierarchy.AndroidEmitsIff` | lib/appium_lib/android/helper.rb:150-154 | a mapping yields a record if and only if `@content-desc` or `@text` is non-empty; the class is attached if and only if `@class` is present |
| `Hierarchy.AndroidClassOnly` | lib/appium_lib/android/helper.rb:152-155 | a mapping with only a `@class` adds nothing, and the walk continues into its `node` |
| `Inspect.Header` | lib/appium_lib/android/helper.rb:113 | succeeds if and only if a class is present and has a character other than a dot; the heading is then non-empty and dot-free (which string it is, `Inspect.HeaderQualified` and `Inspect.HeaderTrailingDots` fix); a missing class raises `NoClass` |
| `Inspect.HeaderQualified` | lib/appium_lib/android/helper.rb:168 | the heading of `pkg.Simple` is `Simple` |
| `Inspect.HeaderTrailingDots` | lib/appium_lib/android/helper.rb:113 | trailing dots do not change the heading: `pkg.Simple.` and `Simple..` head as `Simple` |
| `Inspect.RenderLineShape` | lib/appium_lib/android/helper.rb:119-126 | each printed line ends in a line break, and it is the line's only one when the class, id, text or name holds none |
| `Inspect.RenderShape` | lib/appium_lib/android/helper.rb:113-126 | a non-empty output ends in a line break, and it has exactly one line break per printed line when no value holds one |
| `Inspect.RenderAppend` | lib/appium_lib/android/helper.rb:107-128 | the text of two groups of lines is the first group's text followed by the second's, as `out +=` builds it |
| `Inspect.KeptFromMapping` | lib/appium_lib/android/helper.rb:107-111 | a Selendroid element is printed if and only if it is shown and has a non-empty `value`, or a non-empty `label` other than `null`; an id alone never suffices |
| `Inspect.Report` | lib/appium_lib/android/helper.rb:106-128 | the report succeeds if and only if every descriptor's block succeeds |
| `Inspect.ReportAppend` | lib/appium_lib/android/helper.rb:167-177 | reporting a concatenation is reporting each part, with the first raise winning |
| `Inspect.ReportSkips` | lib/appium_lib/android/helper.rb:109-111 | descriptors whose block is empty can be removed before reporting without changing the result |
| `Inspect.SelendroidFieldsFacts` | lib/appium_lib/android/helper.rb:119-126 | the field lines hold the class, the id without `id/`, the text and the non-`null` name, and nothing else |
| `Inspect.SelendroidBlock` | lib/appium_lib/android/helper.rb:107-127 | a hidden descriptor, or one with only an id, prints nothing; any other succeeds if and only if its class has a heading; the block is then the heading line followed by fields keyed exactly `class`, then `id`, `text` and `name` each when present, in that order, with no key repeated or added; it never has a `text, name` line |
| `Inspect.SelendroidReport` | lib/appium_lib/android/helper.rb:105-129 | succeeds if and only if every kept descriptor has a class heading; then prints one block per kept descriptor and no combined line |
| `Inspect.SelendroidReportHeadings` | lib/appium_lib/android/helper.rb:109-113 | the number of headings equals the number of shown descriptors with a text or a name |
| `Inspect.SelendroidReportNoCombined` | lib/appium_lib/android/helper.rb:123-126 | no Selendroid report contains a `text, name` line |
| `Inspect.SelendroidReportSkips` | lib/appium_lib/android/helper.rb:109-111 | reporting all descriptors equals reporting only the kept ones |
| `Inspect.AndroidFieldsFacts` | lib/appium_lib/android/helper.rb:170-176 | the field lines hold the class, then one combined line if text equals description, otherwise separate text and name lines |
| `Inspect.AndroidBlock` | lib/appium_lib/android/helper.rb:168-176 | succeeds if and only if the class has a heading; then the heading followed by fields keyed exactly `class`, then either one `text, name` (text equals description and is present) or `text` and `name` each when present, in that order, with no key repeated or added; never an id line |
| `Inspect.AndroidReport` | lib/appium_lib/android/helper.rb:166-178 | nothing is filtered; succeeds if and only if every descriptor has a class heading, and then prints one block per descriptor |
| `Inspect.AndroidReportHeadings` | lib/appium_lib/android/helper.rb:167-168 | one heading per descriptor |
| `Inspect.SelendroidInspect` | lib/appium_lib/android/helper.rb:103-129 | the Selendroid inspection raises if and only if some kept descriptor of the tree lacks a class heading |
| `Inspect.AndroidInspect` | lib/appium_lib/android/helper.rb:164-178 | the UiAutomator inspection raises if and only if some descriptor of the tree lacks a class heading |
| `Inspect.GetInspect` | lib/appium_lib/android/helper.rb:185 | under each backend, raises exactly when that backend's report does |
| `Inspect.SelendroidBlockFromMapping` | lib/appium_lib/android/helper.rb:84-126 | a kept mapping whose class has a heading prints `type` as `class:`, `name` without `id/` as `id:`, `value` as `text:`, and `label` as `name:` unless it is `null` |
| `Inspect.AndroidBlockFromMapping` | lib/appium_lib/android/helper.rb:149-176 | a mapping with a descriptor whose class has a heading prints `@class` as `class:`, then `@text` once as `text, name:` when it equals `@content-desc`, otherwise `@text` as `text:` and `@content-desc` as `name:` |
| `Inspect.RenderThen` | lib/appium_lib/android/helper.rb:107-128 | rendering a combined report is combining the rendered parts, the first raise winning |
| `Inspect.InspectConcat` | lib/appium_lib/android/helper.rb:185 | under either backend, the text of an array `xs + ys` is the text of `xs` followed by the text of `ys`; if `xs` raises the whole page raises the same way, otherwise it raises exactly as `ys` does |
| `Examples.SelendroidOne` | lib/appium_lib/android/helper.rb:105-129 | a page with a single descriptor prints that descriptor's block |
| `Examples.AndroidOne` | lib/appium_lib/android/helper.rb:166-178 | a page with a single descriptor prints that descriptor's block |
| `Examples.SelendroidButtonRun` | lib/appium_lib/android/helper.rb:84-93 | a shown element with any non-empty id, value and label, and a type, gives one descriptor holding each in its own field |
| `Examples.SelendroidButtonBlock` | lib/appium_lib/android/helper.rb:113-126 | the block of such a descriptor is its heading, then its class, the id without `id/`, the value as text and the label (not `null`) as name, in that order |
| `Examples.SelendroidSeparateLines` | lib/appium_lib/android/helper.rb:113-126 | equal value and label still print as separate `text:` and `name:` lines, after `class:` and the id without `id/` |
| `Examples.AndroidButtonRun` | lib/appium_lib/android/helper.rb:150-155 | an element under `node` with any non-empty text and description gives one descriptor holding each in its own field, and its parent without attributes gives none |
| `Examples.AndroidButtonBlock` | lib/appium_lib/android/helper.rb:168-172 | equal text and description give a block of heading, class and one combined line |
| `Examples.AndroidCombinedLine` | lib/appium_lib/android/helper.rb:166-178 | such an element, with text equal to description, prints its simple class name, `class:`, and one `text, name:` line |
| `Examples.AndroidSplitBlock` | lib/appium_lib/android/helper.rb:168-176 | differing text and description give a block of heading, class, then `text` and `name` lines in that order |
| `Examples.AndroidSeparateLines` | lib/appium_lib/android/helper.rb:166-178 | an element with differing text and description prints its simple class name, `class:`, `text:` with `@text` and `name:` with `@content-desc` |
| `Examples.SelendroidNothingKept` | lib/appium_lib/android/helper.rb:109-111 | when every descriptor is hidden or has only an id, the report is empty |
| `Examples.SelendroidMissingClass` | lib/appium_lib/android/helper.rb:113 | a shown element with text but no `type` makes the Selendroid report raise |
| `Examples.AndroidMissingClass` | lib/appium_lib/android/helper.rb:168 | an element with text but no `@class` makes the UiAutomator report raise |

## Left out

- Fetching the page source (`get_source`) and selecting its `children` or `hierarchy`
  entry (lines 101–102, 162–163) are I/O. The reports take the selected subtree as a
  `Node`. A missing entry, which the source would crash on, is not modelled.
- Sending the command (`mobile :find`, line 64) is a call into the driver.
  `Tags.FindElesAttr` returns the argument array instead.
- The commented-out block at lines 49–56 is never executed.
- `page` (lines 190–193) prints to the console. `fast_duration` and the rest of the file
  are outside this model.
- Attribute values that are not strings are not modelled: JSON numbers, `null`, or nested
  objects under an attribute key, where `.empty?` would raise or behave differently.
  `Node` holds string attributes only.
- The `shown` value is kept only by its truthiness (`Option<bool>`). A JSON `null` or
  `false` reads as not shown, and any other value reads as shown.
- `sub!` changes the descriptor's id in place. Only the printed value is modelled
  (`Inspect.PrintedId`), because the descriptor is not used afterwards.
- `downcase` is modelled for ASCII letters only. Ruby's Unicode case mapping of other
  letters is not modelled.
- `to_s` is modelled for string roles only. A symbol role such as `:button` has the same
  text, so it resolves the same way.
- Rendering is stated through the line structure (`Inspect.FieldValue`, `Inspect.Headings`,
  `Inspect.Keys`), through the line-break count (`Inspect.RenderShape`) and, for single
  elements, through the exact text (`Examples`). For a page of several elements the text
  is stated by splitting it (`Inspect.InspectConcat`), not written out in full.
- A `children` or `node` value that is `null`, a string or a number, or an array element
  that is neither a mapping nor an array, makes the source raise at `node.keys` (lines 81
  and 146). A `Node` child is always a mapping or an array, so these inputs have no
  encoding, and that raise is not modelled.
- In the source, `shown` and `children` (Selendroid) and `node` (UiAutomator) are keys of
  the same mapping as the attributes. `Node` holds them in separate fields. A `Node` that
  also lists such a key among its string attributes decodes no page source, and the model
  makes no promise for it; Ruby would read that key as the flag or the child. The
  predicate `Hierarchy.Decoded` names the nodes that are decodings. It is documentation
  only: no contract takes it as a hypothesis.
