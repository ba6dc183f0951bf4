/** What the current transform (`lib/index.js`) guarantees, stated against
    independent reference definitions and proved about the `Transformer` model. */
module TransformerProperties {
  import opened Options
  import opened JsValues
  import opened PropertyInfo
  import Hast
  import Dom
  import opened Transformer

  /*************************** attributes ***************************/

  /** An attribute value after an effect, given its value before. */
  function Resolve(e: Effect, before: Option<string>): Option<string>
  {
    match e
    case SetTo(t) => Some(t)
    case Remove => None
    case Keep => before
  }

  /** The effect one `properties` entry has on the attribute it maps to. */
  function EffectOf(find: Find, space: Space, p: (string, Value)): Effect
  {
    var info := find(space, p.0);
    AttributeEffect(info, JoinArray(p.1, info.commaSeparated))
  }

  /** Reference reading of the loop, from the last entry backwards: the
      attribute `name` ends as the last entry mapping onto it that does
      something left it; `Keep` if none does. */
  function LastEffect(find: Find, space: Space, props: Hast.Props, name: string): Effect
    decreases |props|
  {
    if props == [] then Keep
    else
      var p := props[|props| - 1];
      if find(space, p.0).attribute == name && !EffectOf(find, space, p).Keep? then EffectOf(find, space, p)
      else LastEffect(find, space, props[..|props| - 1], name)
  }

  /** Reference reading for DOM properties: the last `mustUseProperty`
      entry naming `property` gives its value. */
  function LastAssigned(find: Find, space: Space, props: Hast.Props, property: string): Option<Value>
    decreases |props|
  {
    if props == [] then None
    else
      var p := props[|props| - 1];
      var info := find(space, p.0);
      if info.mustUseProperty && info.property == property then Some(JoinArray(p.1, info.commaSeparated))
      else LastAssigned(find, space, props[..|props| - 1], property)
  }

  /** The loop over one more entry is one more iteration. */
  lemma {:induction false} ReconcileSnoc(find: Find, space: Space, st: Reconciled, props: Hast.Props, p: (string, Value))
    ensures Reconcile(find, space, st, props + [p])
      == ReconcileOne(find(space, p.0), Reconcile(find, space, st, props), p.1)
    decreases |props|
  {
    if props == [] {
      assert ([] + [p])[1..] == [];
    } else {
      assert (props + [p])[0] == props[0];
      assert (props + [p])[1..] == props[1..] + [p];
      ReconcileSnoc(find, space, ReconcileOne(find(space, props[0].0), st, props[0].1), props[1..], p);
    }
  }

  lemma ApplyEffectGet(attrs: seq<Dom.Attr>, name: string, e: Effect, a: string)
    requires Dom.UniqueNames(attrs)
    ensures Dom.GetAttribute(ApplyEffect(attrs, name, e), a)
      == if a == name then Resolve(e, Dom.GetAttribute(attrs, a)) else Dom.GetAttribute(attrs, a)
  {
  }

  /** The attribute list the loop leaves: each attribute is decided by the
      last entry that acts on it, and untouched attributes keep their value. */
  lemma {:induction false} AttributeAfterReconcile(find: Find, space: Space, st: Reconciled, props: Hast.Props, name: string)
    requires Dom.UniqueNames(st.attributes)
    ensures Dom.GetAttribute(Reconcile(find, space, st, props).attributes, name)
      == Resolve(LastEffect(find, space, props, name), Dom.GetAttribute(st.attributes, name))
    decreases |props|
  {
    if props != [] {
      var init := props[..|props| - 1];
      var p := props[|props| - 1];
      assert props == init + [p];
      ReconcileSnoc(find, space, st, init, p);
      AttributeAfterReconcile(find, space, st, init, name);
      var mid := Reconcile(find, space, st, init);
      var info := find(space, p.0);
      ApplyEffectGet(mid.attributes, info.attribute, AttributeEffect(info, JoinArray(p.1, info.commaSeparated)), name);
    }
  }

  /** The DOM properties the loop leaves: the last `mustUseProperty` entry
      for a property decides it, whatever attribute branch that entry took. */
  lemma {:induction false} PropertyAfterReconcile(find: Find, space: Space, st: Reconciled, props: Hast.Props, property: string)
    ensures var r := Reconcile(find, space, st, props).properties;
      match LastAssigned(find, space, props, property)
      case Some(v) => property in r && r[property] == v
      case None =>
        && (property in r <==> property in st.properties)
        && (property in r ==> r[property] == st.properties[property])
    decreases |props|
  {
    if props != [] {
      var init := props[..|props| - 1];
      var p := props[|props| - 1];
      assert props == init + [p];
      ReconcileSnoc(find, space, st, init, p);
      PropertyAfterReconcile(find, space, st, init, property);
    }
  }

  /** An array value becomes one attribute string, joined with `", "` for
      comma-separated properties and `" "` otherwise, unless the boolean
      rule applies. */
  lemma ListValueJoined(info: Info, items: seq<Item>)
    requires !info.boolean
    ensures AttributeEffect(info, JoinArray(List(items), info.commaSeparated))
      == SetTo(Join(items, if info.commaSeparated then ", " else " "))
  {
  }

  /*************************** root ***************************/

  predicate HasHtmlChild(cs: seq<Hast.Node>)
  {
    exists i :: 0 <= i < |cs| && Hast.IsHtmlElement(cs[i])
  }

  /** Position of the last `html` element among `cs`, or -1. */
  function LastHtmlIndex(cs: seq<Hast.Node>): int
  {
    Hast.LastIndex(cs, Hast.IsHtmlElement)
  }

  /** Reference choice of the root namespace: the explicit option if there
      is one; otherwise what the last `html` child declares; otherwise none. */
  function ResolvedRootNamespace(cs: seq<Hast.Node>, optionNamespace: JsNs): JsNs
  {
    if !optionNamespace.Undef? then optionNamespace
    else
      var i := LastHtmlIndex(cs);
      if i < 0 then Undef else Uri(XmlnsNamespace(cs[i]))
  }

  lemma {:induction false} ScanRootIsDocument(cs: seq<Hast.Node>, ctxNamespace: JsNs, acc: RootScan)
    ensures ScanRoot(cs, ctxNamespace, acc).isDocument <==> acc.isDocument || HasHtmlChild(cs)
    decreases |cs|
  {
    if cs != [] {
      var next :=
        if Hast.IsHtmlElement(cs[0]) then
          RootScan(true, if ctxNamespace.Undef? then Uri(XmlnsNamespace(cs[0])) else acc.namespace)
        else acc;
      ScanRootIsDocument(cs[1..], ctxNamespace, next);
      if HasHtmlChild(cs) && !Hast.IsHtmlElement(cs[0]) {
        var i :| 0 <= i < |cs| && Hast.IsHtmlElement(cs[i]);
        assert cs[1..][i - 1] == cs[i];
      }
      if HasHtmlChild(cs[1..]) {
        var i :| 0 <= i < |cs[1..]| && Hast.IsHtmlElement(cs[1..][i]);
        assert cs[i + 1] == cs[1..][i];
      }
    }
  }

  lemma {:induction false} ScanRootNamespace(cs: seq<Hast.Node>, ctxNamespace: JsNs, acc: RootScan)
    ensures var i := LastHtmlIndex(cs);
      ScanRoot(cs, ctxNamespace, acc).namespace
        == if !ctxNamespace.Undef? || i < 0 then acc.namespace else Uri(XmlnsNamespace(cs[i]))
    decreases |cs|
  {
    if cs != [] {
      var next :=
        if Hast.IsHtmlElement(cs[0]) then
          RootScan(true, if ctxNamespace.Undef? then Uri(XmlnsNamespace(cs[0])) else acc.namespace)
        else acc;
      ScanRootNamespace(cs[1..], ctxNamespace, next);
      Hast.LastIndexTail(cs, Hast.IsHtmlElement);
      var t := LastHtmlIndex(cs[1..]);
      if t >= 0 {
        assert cs[1..][t] == cs[t + 1];
      }
    }
  }

  /** The root becomes a Document exactly when it has no children or an
      `html` element child; otherwise a fragment if asked for, else a
      synthesised, empty `<html>` element. */
  lemma RootKind(find: Find, node: Hast.Node, ctx: Context)
    requires node.Root?
    ensures var r := Transform(find, node, ctx);
      var isDocument := |node.children| == 0 || HasHtmlChild(node.children);
      && (r.Document? <==> isDocument)
      && (r.DocumentFragment? <==> !isDocument && ctx.fragment)
      && (r.Element? <==> !isDocument && !ctx.fragment)
      && (r.Element? ==>
            r.creation == Dom.Plain && r.tagName == "html" && r.attributes == [] && r.properties == map[])
  {
    var cs := node.children;
    ScanRootIsDocument(cs, ctx.namespace, RootScan(|cs| == 0, ctx.namespace));
  }

  /** The root's namespace follows the reference choice; the document is
      created in it (an empty one meaning none) and it reaches every child
      as both the namespace and the implied namespace. */
  lemma RootNamespace(find: Find, node: Hast.Node, ctx: Context)
    requires node.Root?
    ensures var r := Transform(find, node, ctx);
      var cs := node.children;
      var ns := ResolvedRootNamespace(cs, ctx.namespace);
      && (r.Document? ==> r.namespace == DocumentNamespace(ns))
      && Dom.IsParent(r)
      && |r.children| == |cs|
      && forall k :: 0 <= k < |cs| ==> r.children[k] == Transform(find, cs[k], Context(ctx.fragment, ns, ns))
  {
    var cs := node.children;
    var scan := ScanRoot(cs, ctx.namespace, RootScan(|cs| == 0, ctx.namespace));
    ScanRootNamespace(cs, ctx.namespace, RootScan(|cs| == 0, ctx.namespace));
    var ns := scan.namespace;
    assert ns == ResolvedRootNamespace(cs, ctx.namespace);
    var r := Transform(find, node, ctx);
    assert r == RootHandler(find, node, ctx);
    assert r.children == TransformAll(find, cs, Context(ctx.fragment, ns, ns));
  }

  /*************************** elements ***************************/

  /** The namespace an element and its subtree get: `svg` under an HTML or
      unset namespace switches to SVG; nothing ever switches back; an
      element is created unqualified exactly when no namespace is in force. */
  lemma ElementNamespace(find: Find, node: Hast.Node, ctx: Context)
    requires node.Element? || node.Other?
    ensures var r := Transform(find, node, ctx);
      var inherited := InheritedNamespace(ctx);
      var tagName := TagNameOf(node, inherited);
      var svg := Dom.Qualified(Some(Dom.SvgNamespace));
      && r.Element?
      && r.tagName == tagName
      && (r.creation == svg <==>
           inherited == Uri(Dom.SvgNamespace) || (HtmlOrUnset(inherited) && tagName == "svg"))
      && (r.creation.Plain? <==> (inherited.Undef? || inherited.NullNs?) && tagName != "svg")
      && (r.creation != svg && !r.creation.Plain? ==> r.creation == Dom.Qualified(Some(inherited.uri)))
      && |r.children| == |node.children|
      && forall k :: 0 <= k < |node.children| ==>
           r.children[k] == Transform(find, node.children[k],
             ctx.(impliedNamespace := if r.creation == svg then Uri(Dom.SvgNamespace) else inherited))
  {
  }

  /** A missing tag name is `g` where SVG is inherited and `div` elsewhere. */
  lemma DefaultTagName(find: Find, node: Hast.Node, ctx: Context)
    requires node.Other? && node.tag.None?
    ensures var r := Transform(find, node, ctx);
      r.Element? && r.tagName == if InheritedNamespace(ctx) == Uri(Dom.SvgNamespace) then "g" else "div"
  {
  }

  /** An element without `properties` is transformed as one whose
      `properties` are `{}`. */
  lemma MissingPropertiesAreEmpty(find: Find, tagName: string, cs: seq<Hast.Node>, ctx: Context)
    ensures Transform(find, Hast.Element(tagName, None, cs), ctx) == Transform(find, Hast.Element(tagName, Some([]), cs), ctx)
  {
  }

  /** The attributes and DOM properties of an element are what the property
      loop yields against the SVG schema when the element is in the SVG
      namespace and the HTML schema otherwise. */
  lemma ElementAttributes(find: Find, node: Hast.Node, ctx: Context, name: string)
    requires node.Element? || node.Other?
    ensures var r := Transform(find, node, ctx);
      && r.Element?
      && var space := if r.creation == Dom.Qualified(Some(Dom.SvgNamespace)) then SvgSpace else HtmlSpace;
      && Dom.UniqueNames(r.attributes)
      && Dom.GetAttribute(r.attributes, name) == Resolve(LastEffect(find, space, PropsOf(node), name), None)
      && (LastAssigned(find, space, PropsOf(node), name).Some? <==> name in r.properties)
      && (name in r.properties ==> r.properties[name] == LastAssigned(find, space, PropsOf(node), name).value)
  {
    var inherited := InheritedNamespace(ctx);
    var implied := SwitchNamespace(inherited, TagNameOf(node, inherited));
    AttributeAfterReconcile(find, SchemaFor(implied), Fresh, PropsOf(node), name);
    PropertyAfterReconcile(find, SchemaFor(implied), Fresh, PropsOf(node), name);
  }

  /*************************** whole trees ***************************/

  /** Every input node yields exactly one output node. */
  lemma {:induction false} TransformCountsNodes(find: Find, node: Hast.Node, ctx: Context)
    ensures Dom.CountNodes(Transform(find, node, ctx)) == Hast.Size(node)
    decreases node, 1
  {
    match node
    case Root(cs) =>
      var ns := ScanRoot(cs, ctx.namespace, RootScan(|cs| == 0, ctx.namespace)).namespace;
      var r := Transform(find, node, ctx);
      assert r == RootHandler(find, node, ctx);
      assert r.children == TransformAll(find, cs, Context(ctx.fragment, ns, ns));
      TransformAllCountsNodes(find, node, cs, Context(ctx.fragment, ns, ns));
    case Element(_, _, cs) =>
      ElementCountsNodes(find, node, ctx);
    case Other(_, _, cs) =>
      ElementCountsNodes(find, node, ctx);
    case Text(_) =>
    case Comment(_) =>
    case Doctype(_, _, _) =>
  }

  lemma {:induction false} ElementCountsNodes(find: Find, node: Hast.Node, ctx: Context)
    requires node.Element? || node.Other?
    ensures Dom.CountNodes(Transform(find, node, ctx)) == Hast.Size(node)
    decreases node, 0
  {
    var inherited := InheritedNamespace(ctx);
    var implied := SwitchNamespace(inherited, TagNameOf(node, inherited));
    var kids := TransformAll(find, node.children, ctx.(impliedNamespace := implied));
    var r := Transform(find, node, ctx);
    assert r == ElementHandler(find, node, ctx);
    assert r.children == kids;
    TransformAllCountsNodes(find, node, node.children, ctx.(impliedNamespace := implied));
  }

  lemma {:induction false} TransformAllCountsNodes(find: Find, parent: Hast.Node, cs: seq<Hast.Node>, ctx: Context)
    requires forall k :: 0 <= k < |cs| ==> cs[k] < parent
    ensures Dom.CountAll(TransformAll(find, cs, ctx)) == Hast.SizeAll(cs)
    decreases parent, 0, |cs|
  {
    if cs != [] {
      TransformCountsNodes(find, cs[0], ctx);
      TransformAllCountsNodes(find, parent, cs[1..], ctx);
    }
  }

  /** Leaves are copied: text and comment values verbatim, and every
      doctype becomes `<!DOCTYPE html>` with empty identifiers. */
  lemma LeafNodes(find: Find, node: Hast.Node, ctx: Context)
    requires !Hast.HasChildren(node)
    ensures var r := Transform(find, node, ctx);
      && (node.Text? ==> r == Dom.Text(node.value))
      && (node.Comment? ==> r == Dom.Comment(node.value))
      && (node.Doctype? ==> r == Dom.DocumentType("html", "", ""))
  {
  }

  /** Below an SVG namespace every element is created in SVG, however deep
      (no `root` intervening). */
  lemma {:induction false} SvgStaysSvg(find: Find, node: Hast.Node, ctx: Context)
    requires InheritedNamespace(ctx) == Uri(Dom.SvgNamespace)
    requires !node.Root? && Hast.NoNestedRoot(node)
    ensures Dom.AllElementsCreated(Transform(find, node, ctx), Dom.Qualified(Some(Dom.SvgNamespace)))
    decreases node, 1
  {
    if node.Element? || node.Other? {
      var inherited := InheritedNamespace(ctx);
      var implied := SwitchNamespace(inherited, TagNameOf(node, inherited));
      var r := Transform(find, node, ctx);
      assert r == ElementHandler(find, node, ctx);
      assert r.children == TransformAll(find, node.children, ctx.(impliedNamespace := implied));
      SvgStaysSvgAmong(find, node, node.children, ctx.(impliedNamespace := implied));
    }
  }

  lemma {:induction false} SvgStaysSvgAmong(find: Find, parent: Hast.Node, cs: seq<Hast.Node>, ctx: Context)
    requires InheritedNamespace(ctx) == Uri(Dom.SvgNamespace)
    requires forall k :: 0 <= k < |cs| ==> cs[k] < parent
    requires Hast.NoRootAmong(cs)
    ensures Dom.AllCreatedAmong(TransformAll(find, cs, ctx), Dom.Qualified(Some(Dom.SvgNamespace)))
    decreases parent, 0, |cs|
  {
    if cs != [] {
      SvgStaysSvg(find, cs[0], ctx);
      SvgStaysSvgAmong(find, parent, cs[1..], ctx);
      assert TransformAll(find, cs, ctx)[1..] == TransformAll(find, cs[1..], ctx);
    }
  }

  /** An `svg` element under an HTML or unset namespace puts itself and its
      whole subtree in the SVG namespace. */
  lemma SvgElementSwitchesSubtree(find: Find, node: Hast.Node, ctx: Context)
    requires node.Element? && node.tagName == "svg"
    requires HtmlOrUnset(InheritedNamespace(ctx))
    requires Hast.NoNestedRoot(node)
    ensures Dom.AllElementsCreated(Transform(find, node, ctx), Dom.Qualified(Some(Dom.SvgNamespace)))
  {
    var svgCtx := ctx.(impliedNamespace := Uri(Dom.SvgNamespace));
    var r := Transform(find, node, ctx);
    assert r == ElementHandler(find, node, ctx);
    assert r.children == TransformAll(find, node.children, svgCtx);
    SvgStaysSvgAmong(find, node, node.children, svgCtx);
  }

  /*************************** toDom ***************************/

  /** `toDom` implies no namespace, so the option decides: a missing tag
      name is `g` exactly when the option is SVG, and an explicit namespace
      reaches the root's children unchanged. */
  lemma ToDomUsesOption(find: Find, node: Hast.Node, options: ToDomOptions)
    ensures var r := ToDom(find, node, options);
      && (node.Other? && node.tag.None? ==>
            r.Element? && r.tagName == if options.namespace == Uri(Dom.SvgNamespace) then "g" else "div")
      && (node.Root? && !options.namespace.Undef? ==>
            && Dom.IsParent(r)
            && |r.children| == |node.children|
            && forall k :: 0 <= k < |node.children| ==>
                 r.children[k] == Transform(find, node.children[k],
                   Context(options.fragment, options.namespace, options.namespace)))
  {
    var ctx := Context(options.fragment, options.namespace, Undef);
    if node.Root? {
      RootNamespace(find, node, ctx);
    } else if node.Other? && node.tag.None? {
      DefaultTagName(find, node, ctx);
    }
  }
}
