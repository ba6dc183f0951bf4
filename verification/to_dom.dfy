/** The current transform (`lib/index.js`): a hast tree becomes a DOM tree.
    The context the source threads through the recursion is an immutable
    value copied per level; the document factory is replaced by the `Dom`
    output tree; `find` of `property-information` is the parameter `find`. */
module Transformer {
  import opened Options
  import opened JsValues
  import opened PropertyInfo
  import Hast
  import Dom

  /** `find(schema, key)`: the encoding record of a property in a schema. */
  type Find = (Space, string) -> Info

  /** The caller's options: `fragment` (default false) and `namespace`. */
  datatype ToDomOptions = ToDomOptions(fragment: bool, namespace: JsNs)

  /** What every handler receives: the options plus the namespace implied by
      the ancestors, which is how an `svg` element switches its subtree. */
  datatype Context = Context(fragment: bool, namespace: JsNs, impliedNamespace: JsNs)

  /*************************** attributes ***************************/

  /** What one property does to the attribute it maps to. */
  datatype Effect = SetTo(text: string) | Remove | Keep

  /** An array value is joined before anything else looks at it. */
  function JoinArray(v: Value, commaSeparated: bool): Value
  {
    if v.List? then Str(Join(v.items, if commaSeparated then ", " else " ")) else v
  }

  /** The boolean rule applies to `boolean` properties, and to
      `overloadedBoolean` ones whose value is a boolean. */
  predicate BooleanRule(info: Info, v: Value)
  {
    info.boolean || (info.overloadedBoolean && v.Bool?)
  }

  /** The branch chain of the attribute update, for an already joined value. */
  function AttributeEffect(info: Info, v: Value): (e: Effect)
    ensures BooleanRule(info, v) ==> e == (if Truthy(v) then SetTo("") else Remove)
    ensures e.Remove? <==> BooleanRule(info, v) && !Truthy(v)
    ensures !BooleanRule(info, v) && info.booleanish ==> e == SetTo(ToJsString(v))
    ensures e.Keep? <==>
      !BooleanRule(info, v) && !info.booleanish && v in {Bool(false), NaN, Null, Undefined}
    ensures e.SetTo? && !BooleanRule(info, v) && v != Bool(true) ==> e.text == ToJsString(v)
    ensures v == Bool(true) ==> e == SetTo(if BooleanRule(info, v) || !info.booleanish then "" else "true")
  {
    if BooleanRule(info, v) then (if Truthy(v) then SetTo("") else Remove)
    else if info.booleanish then SetTo(ToJsString(v))
    else if v == Bool(true) then SetTo("")
    else if Truthy(v) || v == Num(0) || v == Str("") then SetTo(ToJsString(v))
    else Keep
  }

  function ApplyEffect(attrs: seq<Dom.Attr>, name: string, e: Effect): seq<Dom.Attr>
  {
    match e
    case SetTo(t) => Dom.SetAttribute(attrs, name, t)
    case Remove => Dom.RemoveAttribute(attrs, name)
    case Keep => attrs
  }

  /** The attribute list and the assigned DOM properties of an element
      under construction. */
  datatype Reconciled = Reconciled(attributes: seq<Dom.Attr>, properties: map<string, Value>)

  const Fresh: Reconciled := Reconciled([], map[])

  /** One iteration of the property loop. */
  function ReconcileOne(info: Info, st: Reconciled, raw: Value): Reconciled
  {
    var v := JoinArray(raw, info.commaSeparated);
    var props := if info.mustUseProperty then st.properties[info.property := v] else st.properties;
    Reconciled(ApplyEffect(st.attributes, info.attribute, AttributeEffect(info, v)), props)
  }

  /** The property loop: every key of `properties`, in order. */
  function Reconcile(find: Find, space: Space, st: Reconciled, props: Hast.Props): (r: Reconciled)
    ensures Dom.UniqueNames(st.attributes) ==> Dom.UniqueNames(r.attributes)
    decreases |props|
  {
    if props == [] then st
    else Reconcile(find, space, ReconcileOne(find(space, props[0].0), st, props[0].1), props[1..])
  }

  /*************************** elements ***************************/

  /** `ctx.impliedNamespace || namespace`. */
  function InheritedNamespace(ctx: Context): JsNs
  {
    if NsTruthy(ctx.impliedNamespace) then ctx.impliedNamespace else ctx.namespace
  }

  predicate HtmlOrUnset(ns: JsNs)
  {
    ns.Undef? || ns.NullNs? || ns == Uri(Dom.HtmlNamespace)
  }

  /** The tag name, defaulted from the inherited namespace when absent. */
  function TagNameOf(node: Hast.Node, inherited: JsNs): string
    requires node.Element? || node.Other?
  {
    if node.Element? then node.tagName
    else node.tag.GetOr(if inherited == Uri(Dom.SvgNamespace) then "g" else "div")
  }

  /** The properties, `{}` when absent. */
  function PropsOf(node: Hast.Node): Hast.Props
    requires node.Element? || node.Other?
  {
    Hast.PropsField(node).GetOr([])
  }

  /** The namespace of the element and of its subtree. */
  function SwitchNamespace(inherited: JsNs, tagName: string): JsNs
  {
    if HtmlOrUnset(inherited) && tagName == "svg" then Uri(Dom.SvgNamespace) else inherited
  }

  function SchemaFor(ns: JsNs): Space
  {
    if ns == Uri(Dom.SvgNamespace) then SvgSpace else HtmlSpace
  }

  function CreationFor(ns: JsNs): Dom.Creation
  {
    if ns.Undef? || ns.NullNs? then Dom.Plain else Dom.Qualified(Some(ns.uri))
  }

  /*************************** root ***************************/

  /** `xmlns` of an `html` child as the root reads it:
      `String(properties.xmlns || '') || html`. */
  function XmlnsNamespace(child: Hast.Node): string
    requires Hast.IsHtmlElement(child)
  {
    var x := Hast.Get(child.properties.GetOr([]), "xmlns");
    var s := if Truthy(x) then ToJsString(x) else "";
    if s == "" then Dom.HtmlNamespace else s
  }

  /** The two variables the root's loop over its children updates. */
  datatype RootScan = RootScan(isDocument: bool, namespace: JsNs)

  /** The loop over the root's children, from `acc` onwards. */
  function ScanRoot(cs: seq<Hast.Node>, ctxNamespace: JsNs, acc: RootScan): RootScan
    decreases |cs|
  {
    if cs == [] then acc
    else
      var next :=
        if Hast.IsHtmlElement(cs[0]) then
          RootScan(true, if ctxNamespace.Undef? then Uri(XmlnsNamespace(cs[0])) else acc.namespace)
        else acc;
      ScanRoot(cs[1..], ctxNamespace, next)
  }

  function DocumentNamespace(ns: JsNs): Option<string>
  {
    if NsTruthy(ns) then Some(ns.uri) else None
  }

  /*************************** the transform ***************************/

  function Transform(find: Find, node: Hast.Node, ctx: Context): Dom.DomNode
    decreases node, 1
  {
    match node
    case Root(_) => RootHandler(find, node, ctx)
    case Text(v) => Dom.Text(v)
    case Element(_, _, _) => ElementHandler(find, node, ctx)
    case Doctype(_, _, _) => Dom.DocumentType("html", "", "")
    case Comment(v) => Dom.Comment(v)
    case Other(_, _, _) => ElementHandler(find, node, ctx)
  }

  function RootHandler(find: Find, node: Hast.Node, ctx: Context): Dom.DomNode
    requires node.Root?
    decreases node, 0
  {
    var cs := node.children;
    var scan := ScanRoot(cs, ctx.namespace, RootScan(|cs| == 0, ctx.namespace));
    var ns := scan.namespace;
    var created :=
      if scan.isDocument then Dom.Document(DocumentNamespace(ns), [])
      else if ctx.fragment then Dom.DocumentFragment([])
      else Dom.Element(Dom.Plain, "html", [], map[], []);
    Dom.AppendAll(created, TransformAll(find, cs, Context(ctx.fragment, ns, ns)))
  }

  function ElementHandler(find: Find, node: Hast.Node, ctx: Context): Dom.DomNode
    requires node.Element? || node.Other?
    decreases node, 0
  {
    var inherited := InheritedNamespace(ctx);
    var tagName := TagNameOf(node, inherited);
    var implied := SwitchNamespace(inherited, tagName);
    var rec := Reconcile(find, SchemaFor(implied), Fresh, PropsOf(node));
    var created := Dom.Element(CreationFor(implied), tagName, rec.attributes, rec.properties, []);
    Dom.AppendAll(created, TransformAll(find, node.children, ctx.(impliedNamespace := implied)))
  }

  /** `appendAll`: the children, transformed one by one in order. */
  function TransformAll(find: Find, cs: seq<Hast.Node>, ctx: Context): (r: seq<Dom.DomNode>)
    ensures |r| == |cs|
    ensures forall k :: 0 <= k < |cs| ==> r[k] == Transform(find, cs[k], ctx)
    decreases cs
  {
    if cs == [] then [] else [Transform(find, cs[0], ctx)] + TransformAll(find, cs[1..], ctx)
  }

  /** `toDom(node, options)`: no namespace is implied at the top. */
  function ToDom(find: Find, node: Hast.Node, options: ToDomOptions): Dom.DomNode
  {
    Transform(find, node, Context(options.fragment, options.namespace, Undef))
  }
}
