# hast-util-to-dom in Dafny

A model of the recursive transform that turns a hast tree (an HTML/SVG
syntax tree) into a DOM tree, in the two variants the repository holds:

- the current `toDom` (`lib/index.js`), modelled in `Transformer`
  (`to_dom.dfy`) with its properties in `TransformerProperties`
  (`to_dom_properties.dfy`);
- the older `toDOM` (`src/index.js`), modelled in `LegacyTransformer`
  (`legacy_to_dom.dfy`) with its properties in
  `LegacyTransformerProperties` (`legacy_to_dom_properties.dfy`).

Supporting modules: `Hast` (the input tree; an unknown `type` is the
`Other` variant with optional `tagName`, `properties` and `children`),
`Dom` (the output tree that replaces the document factory: Document,
DocumentFragment, Element, Text, Comment, DocumentType; attribute set and
remove as in section 4.9 of the WHATWG DOM Standard), `JsValues` (property
values `Bool | Str | Num | NaN | Null | Undefined | List`, JavaScript
truthiness and `String(...)`, a namespace slot that is `undefined`, `null`
or a string), `PropertyInfo` (the records of `property-information`'s
`find`), `Options`.

The context that the source copies at each level (`fragment`, `namespace`,
`impliedNamespace`) is an immutable `Context` value. `find` is a function
parameter: `(schema, key) -> Info` for the current variant, and
`key -> Option<LegacyInfo>` for the older one, whose `None` triggers the
fallback record. The older variant reads the global `document`. Its
`setAttribute` may throw, and it catches that. Whether it throws for a
given attribute name is the parameter `rejects`. A node without
`properties` makes `Object.keys` throw a `TypeError` there. That is the
`TypeError` outcome.

Neither root loop has a `break`, although both comments say "Take
namespace of (the) first child", and the model follows the loops. The
current variant takes the namespace from the last `html` element child.
The older one takes it from the last `html` child that declares an
`xmlns`, and when `children[0]` is tagged `html` a later `html` child
without `xmlns` resets it to XHTML; so for `[div, html(xmlns=A), html]` it
keeps `A`, the first `html` child's.

The two variants also differ in ways the model keeps:

- `lib/index.js` ignores a doctype's name and identifiers, while
  `src/index.js:86-92` keeps them;
- `lib/index.js` has no schema-miss fallback, while `src/index.js:136-139`
  has one;
- `lib/index.js` has no `afterTransform` hook, although
  `test/index.js:361-378` expects one;
- `lib/index.js:146` defaults an absent `properties` to `{}`, while
  `src/index.js:119` calls `Object.keys` on it and throws.

## Model

| member | source | states |
|---|---|---|
| `JsValues.NumberToStringRoundTrip` | lib/index.js:209-210 | `String(n)` of an integral number is decimal text that reads back as `n`, so `0` gives `"0"` and a negative number a leading `-` |
| `Hast.GetUnique` | lib/index.js:167-172 | the keys of a `properties` object never repeat, so reading `properties[key]` gives the value the loop over `Object.keys` meets for that key |
| `Dom.SetAttribute` | lib/index.js:199-211 | `setAttribute`: afterwards the name maps to the new value, other names read as before, the set of names grows by that name only, a new name is appended last, and unique names stay unique |
| `Dom.SetAttributeInPlace` | lib/index.js:199-211 | setting an existing name replaces the value at that name's position; otherwise the attribute is appended |
| `Dom.RemoveAttribute` | lib/index.js:203 | `removeAttribute`: the name is gone (names being unique), other names read as before, an absent name changes nothing, and one entry fewer remains when it was present |
| `Dom.RemoveAttributeDeletesFirst` | lib/index.js:203 | removal deletes exactly the first attribute of that name and keeps the others in order |
| `Transformer.AttributeEffect` | lib/index.js:199-211 | under the boolean rule (`boolean`, or `overloadedBoolean` with a boolean value) a truthy value sets `""` and a falsy one removes; `booleanish` always sets `String(value)`; `true` otherwise sets `""`; the list stays as it is exactly for `false`, `NaN`, `null` and `undefined` outside those rules |
| `Transformer.Reconcile` | lib/index.js:167-212 | the property loop never produces two attributes of the same name |
| `Transformer.TransformAll` | lib/index.js:226-235 | `appendAll`: one output child per input child, in input order, each transformed in the given context |
| `TransformerProperties.ListValueJoined` | lib/index.js:190-192 | unless the property is `boolean`, an array value ends up as one attribute string joined with `", "` when `commaSeparated` and `" "` otherwise |
| `TransformerProperties.AttributeAfterReconcile` | lib/index.js:170-212 | after the loop each attribute holds what the last property acting on it decided (set text or removal), read back to front; untouched attributes keep their value |
| `TransformerProperties.PropertyAfterReconcile` | lib/index.js:194-197 | the last `mustUseProperty` entry for a DOM property decides its value, whichever attribute branch ran; other properties are unchanged |
| `TransformerProperties.ScanRootIsDocument` | lib/index.js:61-78 | the root's loop sets `rootIsDocument` exactly when it started set or some child is an `html` element |
| `TransformerProperties.ScanRootNamespace` | lib/index.js:60-78 | the root's loop leaves the explicit namespace alone, and otherwise takes the `xmlns` (or the HTML namespace) of the last `html` element child |
| `TransformerProperties.RootKind` | lib/index.js:61-90 | the root becomes a Document exactly when it has no children or an `html` element child; otherwise a fragment exactly when `fragment` is set, else an empty unqualified `<html>` element |
| `TransformerProperties.RootNamespace` | lib/index.js:57-97 | the namespace is the option if given, else the last `html` child's `xmlns` or the HTML namespace, else none; the Document is created in it and every child gets it as both `namespace` and `impliedNamespace`, in order |
| `TransformerProperties.ElementNamespace` | lib/index.js:141-214 | an element is in SVG exactly when SVG is inherited or it is `svg` under an HTML or unset namespace; it is unqualified exactly when no namespace is inherited and it is not `svg`; otherwise it keeps the inherited namespace; its children inherit its namespace, in order |
| `TransformerProperties.DefaultTagName` | lib/index.js:143-148 | a node without `tagName` becomes `g` when SVG is inherited and `div` otherwise |
| `TransformerProperties.MissingPropertiesAreEmpty` | lib/index.js:143-147 | an `element` node without `properties` gives the same DOM element as one with empty `properties` |
| `TransformerProperties.ElementAttributes` | lib/index.js:159-212 | an element's attributes and DOM properties are what the loop gives against the SVG schema when the element is in SVG and the HTML schema otherwise, with unique attribute names |
| `TransformerProperties.TransformCountsNodes` | lib/index.js:32-47 | every input node yields exactly one output node: the output tree has as many nodes as the input |
| `TransformerProperties.LeafNodes` | lib/index.js:107-131 | text and comment values are copied verbatim; every doctype becomes `('html', '', '')` |
| `TransformerProperties.SvgStaysSvg` | lib/index.js:150-157 | below an SVG namespace every element, however deep, is created in SVG: nothing switches back |
| `TransformerProperties.SvgElementSwitchesSubtree` | lib/index.js:150-164 | an `svg` element under an HTML or unset namespace puts itself and its whole subtree in SVG |
| `TransformerProperties.ToDomUsesOption` | lib/index.js:244-247 | `toDom` implies no namespace, so a missing tag name is `g` exactly when the option is SVG, and an explicit namespace reaches a root's children unchanged |
| `LegacyTransformerProperties.LegacySchemaMiss` | src/index.js:136-174 | a key the schema misses acts as a plain attribute of that name: `true` gives `""`, `false`/`NaN`/`null`/`undefined` change nothing, anything else gives its string with arrays space-joined, and no DOM property is assigned unless `setAttribute` throws, when the catch assigns the property named by the key |
| `LegacyTransformer.LegacyReconcile` | src/index.js:119-175 | the older property loop never produces two attributes of the same name |
| `LegacyTransformer.LegacyTransformAll` | src/index.js:178-184 | children are transformed in order and all appended; the call completes exactly when every child's does |
| `LegacyTransformerProperties.LegacyListJoined` | src/index.js:141-150 | arrays join with `", "` only when `commaSeparated`, with a space in every other case, as the current variant joins |
| `LegacyTransformerProperties.LegacyRejectedAttribute` | src/index.js:152-174 | when `setAttribute` throws, no attribute changes, and the DOM property is assigned if `mustUseProperty` or the catch applies (no `mustUseAttribute`, non-empty property) |
| `LegacyTransformerProperties.LegacyMatchesCurrent` | src/index.js:153-168 | when nothing is rejected, the older loop computes exactly what the current loop computes for the same records |
| `LegacyTransformerProperties.LegacyScanIsDocument` | src/index.js:38-59 | the root's loop marks a document exactly when it started marked or some child has the tag name `html`, whatever its type |
| `LegacyTransformerProperties.LegacyScanNamespace` | src/index.js:40-59 | with `children[0]` an `html` child the loop yields the last `html` child's `xmlns` or XHTML; otherwise the last declared `xmlns` of an `html` child, else the starting value |
| `LegacyTransformerProperties.LegacyRootKind` | src/index.js:38-69 | the root becomes a Document exactly when it has no children or a child tagged `html`; otherwise a fragment exactly when `fragment` is set, else an unqualified `<html>` element |
| `LegacyTransformerProperties.LegacyRootNamespace` | src/index.js:37-78 | the option namespace when defined, else the first-child rule above; the Document is created in it and every child is transformed with it, in order |
| `LegacyTransformerProperties.LegacySucceedsIff` | src/index.js:111-119 | the older transform throws exactly when some `element` node or unknown node in the tree lacks `properties` |
| `LegacyTransformerProperties.LegacyCountsNodes` | src/index.js:72-79 | a completed transform has exactly one output node per input node |
| `LegacyTransformerProperties.LegacyElementsUseOption` | src/index.js:111-116 | below the root every element is created with the option's namespace (qualified unless it is `undefined`): no SVG switch |
| `LegacyTransformerProperties.LegacyLeafNodes` | src/index.js:86-106 | text and comments verbatim; the doctype keeps its name and identifiers, an absent or empty name becoming `html` and absent identifiers `""` |

## Left out

- The real DOM factory (JSDOM, the global `document`, the `document` option): the output is the `Dom` datatype, so node identity, live mutation and `appendChild` moving nodes do not arise.
- Exceptions from the factory in the current variant (an invalid tag or attribute name): they propagate to the caller there and are not modelled; in the older variant only `setAttribute` rejections are modelled (through `rejects`), not a DOM property assignment that throws inside the `try`.
- The hierarchy checks of `appendChild` (section 4.2.3 of the WHATWG DOM Standard), in both variants: a Document accepts one element child, no text, and a doctype only before its element. Roots such as `[html, p]`, `[html, text]` or `[doctype, div]` make the program throw, while `TransformerProperties.RootKind`, `TransformerProperties.TransformCountsNodes`, `LegacyTransformerProperties.LegacyRootKind` and `LegacyTransformerProperties.LegacyCountsNodes` describe the `Dom` tree the appends would build; `Dom.AppendAll` does not check hierarchy.
- Lower-casing of attribute names by `setAttribute` on HTML elements in HTML documents, and the namespace `createElement` gives: factory behaviour; the model records how each element was created (`Dom.Creation`).
- `find` of `property-information` and the `web-namespaces` constants: external; `find` is a parameter (so the kebab-casing of unknown keys such as `data123` is not this repository's logic), the two namespace URIs are constants.
- `afterTransform`: the current variant does not implement it.
- JavaScript floating-point numbers: numbers are integers plus `NaN`; `-0` and non-integral numbers and their `String(...)` are not modelled.
- `JsValues.NumberToStringRoundTrip`: the decimal text equals JavaScript's `String(n)` only for `|n| < 10^21`; from `10^21` on JavaScript writes exponent form (`1e+21`), which is not modelled. `Num(n)` also admits integers beyond `2^53`, which a JavaScript number does not hold exactly. Attribute values built from such numbers by `ToJsString` and `Join` differ from the program's accordingly.
- A `null` `properties` (which `Object.keys` rejects in both variants) and non-string `name`/`public`/`system` doctype fields: absent values are `undefined` only.
- In the older variant, an options object that carries an explicit `namespace: undefined` key: `Object.assign` would then pass `undefined` to the children instead of the computed namespace; an absent key is modelled.
- Serialisation helpers (`src/utils.js`, the test serializer), the fixture runners and filesystem I/O, the mock-document and browser-specific tests, and `karma.conf.js`: test and build plumbing.
- Transform idempotence: every member is a pure function, so equal inputs give equal outputs by construction.
- `TransformerProperties.SvgStaysSvg` and `LegacyTransformerProperties.LegacyElementsUseOption` require that no `root` node sits below the top, because a nested root resets the namespace from its own context; hast trees have the root only at the top.
