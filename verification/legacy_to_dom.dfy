/** The older transform (`src/index.js`). It differs from `Transformer` in
    that it never switches to SVG, keeps the doctype's identifiers, decides
    the root namespace with a different first-child rule, falls back to a
    plain record when the schema has no entry, and catches a rejected
    `setAttribute`. It always uses the global document; here, as there, the
    output is the `Dom` tree. */
module LegacyTransformer {
  import opened Options
  import opened JsValues
  import opened PropertyInfo
  import Hast
  import Dom
  import Transformer

  /** `info.find(info.html, key)`, which may have no entry. */
  type LegacyFind = string -> Option<LegacyInfo>

  /** Whether the document's `setAttribute` throws for an attribute name
      (the DOM rejects names that are not valid XML names). */
  type Rejects = string -> bool

  datatype LegacyOptions = LegacyOptions(fragment: bool, namespace: JsNs)

  /** A completed call, or the `TypeError` thrown by `Object.keys(undefined)`
      for a node without `properties`. */
  datatype Outcome<+T> = Done(value: T) | TypeError

  /** The schema record, or `{attribute: key, property: key}` when `find`
      has none: every flag of that record is absent, hence false. */
  function FindOrFallback(find: LegacyFind, key: string): LegacyInfo
  {
    match find(key)
    case Some(info) => info
    case None => LegacyInfo(key, key, false, false, false, false, false, false, false)
  }

  /** An array value, joined with `", "` if comma-separated, else `" "`
      (the space-separated branch and the default branch agree). */
  function LegacyJoinArray(v: Value, info: LegacyInfo): Value
  {
    if !v.List? then v
    else if info.commaSeparated then Str(Join(v.items, ", "))
    else if info.spaceSeparated then Str(Join(v.items, " "))
    else Str(Join(v.items, " "))
  }

  /** The flags the shared attribute rules read. */
  function AsInfo(l: LegacyInfo): Info
  {
    Info(l.attribute, l.property, l.mustUseProperty, l.boolean, l.booleanish,
         l.overloadedBoolean, l.commaSeparated)
  }

  /** One iteration of the property loop. The rules are those of the current
      transform: passing the raw value to `setAttribute` converts it as
      `String(value)` does. When `setAttribute` throws, the attribute list
      is left as it was and the `catch` assigns the DOM property instead,
      unless the record demands an attribute or names no property. */
  function LegacyStep(info: LegacyInfo, rejects: Rejects, st: Transformer.Reconciled, raw: Value): Transformer.Reconciled
  {
    var v := LegacyJoinArray(raw, info);
    var props := if info.mustUseProperty then st.properties[info.property := v] else st.properties;
    var e := Transformer.AttributeEffect(AsInfo(info), v);
    if e.SetTo? && rejects(info.attribute) then
      Transformer.Reconciled(st.attributes,
        if !info.mustUseAttribute && info.property != "" then props[info.property := v] else props)
    else
      Transformer.Reconciled(Transformer.ApplyEffect(st.attributes, info.attribute, e), props)
  }

  function LegacyReconcile(find: LegacyFind, rejects: Rejects, st: Transformer.Reconciled, props: Hast.Props): (r: Transformer.Reconciled)
    ensures Dom.UniqueNames(st.attributes) ==> Dom.UniqueNames(r.attributes)
    decreases |props|
  {
    if props == [] then st
    else LegacyReconcile(find, rejects, LegacyStep(FindOrFallback(find, props[0].0), rejects, st, props[0].1), props[1..])
  }

  /*************************** root ***************************/

  /** `node.tagName`, whatever the node's type. */
  function TagNameField(n: Hast.Node): Option<string>
  {
    match n
    case Element(t, _, _) => Some(t)
    case Other(t, _, _) => t
    case _ => None
  }

  predicate IsHtmlTagged(n: Hast.Node)
  {
    TagNameField(n) == Some("html")
  }

  /** `(properties || {}).xmlns`. */
  function XmlnsField(n: Hast.Node): Value
  {
    match n
    case Element(_, ps, _) => Hast.Get(ps.GetOr([]), "xmlns")
    case Other(_, ps, _) => Hast.Get(ps.GetOr([]), "xmlns")
    case _ => Undefined
  }

  /** The loop over the root's children, from `acc` onwards; `firstIsHtml`
      is the test on `children[0]`. */
  function LegacyScanRoot(cs: seq<Hast.Node>, firstIsHtml: bool, optionNamespace: JsNs, acc: Transformer.RootScan): Transformer.RootScan
    decreases |cs|
  {
    if cs == [] then acc
    else
      var x := XmlnsField(cs[0]);
      var ns :=
        if !optionNamespace.Undef? then acc.namespace
        else if Truthy(x) then Uri(ToJsString(x))
        else if firstIsHtml then Uri(Dom.HtmlNamespace)
        else acc.namespace;
      var next := if IsHtmlTagged(cs[0]) then Transformer.RootScan(true, ns) else acc;
      LegacyScanRoot(cs[1..], firstIsHtml, optionNamespace, next)
  }

  /** `createDocument(namespace, …)`: `undefined` and `null` mean none. */
  function LegacyDocumentNamespace(ns: JsNs): Option<string>
  {
    if ns.Uri? then Some(ns.uri) else None
  }

  /** `createElementNS(namespace, tag)` whenever the namespace is not `undefined`. */
  function LegacyCreation(ns: JsNs): Dom.Creation
  {
    match ns
    case Undef => Dom.Plain
    case NullNs => Dom.Qualified(None)
    case Uri(u) => Dom.Qualified(Some(u))
  }

  /** `value || default` for an optional string. */
  function OrDefault(x: Option<string>, default: string): string
  {
    if x.Some? && x.value != "" then x.value else default
  }

  /*************************** the transform ***************************/

  function LegacyTransform(find: LegacyFind, rejects: Rejects, node: Hast.Node, options: LegacyOptions): Outcome<Dom.DomNode>
    decreases node, 1
  {
    match node
    case Root(_) => LegacyRoot(find, rejects, node, options)
    case Text(v) => Done(Dom.Text(v))
    case Element(_, _, _) => LegacyElement(find, rejects, node, options)
    case Doctype(n, p, s) => Done(Dom.DocumentType(OrDefault(n, "html"), OrDefault(p, ""), OrDefault(s, "")))
    case Comment(v) => Done(Dom.Comment(v))
    case Other(_, _, _) => LegacyElement(find, rejects, node, options)
  }

  function LegacyRoot(find: LegacyFind, rejects: Rejects, node: Hast.Node, options: LegacyOptions): Outcome<Dom.DomNode>
    requires node.Root?
    decreases node, 0
  {
    var cs := node.children;
    var firstIsHtml := |cs| > 0 && IsHtmlTagged(cs[0]);
    var scan := LegacyScanRoot(cs, firstIsHtml, options.namespace,
                               Transformer.RootScan(|cs| == 0, options.namespace));
    var created :=
      if scan.isDocument then Dom.Document(LegacyDocumentNamespace(scan.namespace), [])
      else if options.fragment then Dom.DocumentFragment([])
      else Dom.Element(Dom.Plain, "html", [], map[], []);
    match LegacyTransformAll(find, rejects, cs, LegacyOptions(options.fragment, scan.namespace))
    case TypeError => TypeError
    case Done(kids) => Done(Dom.AppendAll(created, kids))
  }

  function LegacyElement(find: LegacyFind, rejects: Rejects, node: Hast.Node, options: LegacyOptions): Outcome<Dom.DomNode>
    requires node.Element? || node.Other?
    decreases node, 0
  {
    if Hast.PropsField(node).None? then TypeError
    else
      // `createElement(undefined)` names the element "undefined"
      var tagName := if node.Element? then node.tagName else node.tag.GetOr("undefined");
      var props := Hast.PropsField(node).value;
      var rec := LegacyReconcile(find, rejects, Transformer.Fresh, props);
      var created := Dom.Element(LegacyCreation(options.namespace), tagName, rec.attributes, rec.properties, []);
      match LegacyTransformAll(find, rejects, node.children, options)
      case TypeError => TypeError
      case Done(kids) => Done(Dom.AppendAll(created, kids))
  }

  /** The children, transformed in order; the first throw ends the call. */
  function LegacyTransformAll(find: LegacyFind, rejects: Rejects, cs: seq<Hast.Node>, options: LegacyOptions): (r: Outcome<seq<Dom.DomNode>>)
    ensures r.Done? <==> forall k :: 0 <= k < |cs| ==> LegacyTransform(find, rejects, cs[k], options).Done?
    ensures r.Done? ==> |r.value| == |cs|
    ensures r.Done? ==>
      forall k :: 0 <= k < |cs| ==> LegacyTransform(find, rejects, cs[k], options) == Done(r.value[k])
    decreases cs
  {
    if cs == [] then Done([])
    else
      match LegacyTransform(find, rejects, cs[0], options)
      case TypeError => TypeError
      case Done(d) =>
        match LegacyTransformAll(find, rejects, cs[1..], options)
        case TypeError => TypeError
        case Done(ds) => Done([d] + ds)
  }

  /** `toDOM(hast, options)`. */
  function ToDOM(find: LegacyFind, rejects: Rejects, node: Hast.Node, options: LegacyOptions): Outcome<Dom.DomNode>
  {
    LegacyTransform(find, rejects, node, options)
  }
}
