/** What the older transform (`src/index.js`) guarantees, proved about the
    `LegacyTransformer` model, and how it relates to the current one. */
module LegacyTransformerProperties {
  import opened Options
  import opened JsValues
  import opened PropertyInfo
  import Hast
  import Dom
  import Transformer
  import opened LegacyTransformer

  /*************************** attributes ***************************/

  /** Arrays are joined with `", "` only when comma-separated and with a
      space in every other case, exactly as the current transform joins. */
  lemma LegacyListJoined(v: Value, info: LegacyInfo)
    ensures LegacyJoinArray(v, info) == Transformer.JoinArray(v, info.commaSeparated)
    ensures v.List? ==>
      LegacyJoinArray(v, info) == Str(Join(v.items, if info.commaSeparated then ", " else " "))
  {
  }

  /** When `setAttribute` throws, no attribute changes, and the property is
      assigned if `mustUseProperty` asked for it or the `catch` falls back to
      it (no `mustUseAttribute`, a non-empty property name). */
  lemma LegacyRejectedAttribute(info: LegacyInfo, rejects: Rejects, st: Transformer.Reconciled, raw: Value)
    requires rejects(info.attribute)
    requires Transformer.AttributeEffect(AsInfo(info), LegacyJoinArray(raw, info)).SetTo?
    ensures var r := LegacyStep(info, rejects, st, raw);
      var assigns := info.mustUseProperty || (!info.mustUseAttribute && info.property != "");
      && r.attributes == st.attributes
      && (assigns ==> info.property in r.properties && r.properties[info.property] == LegacyJoinArray(raw, info))
      && (!assigns ==> r.properties == st.properties)
      && forall q :: q != info.property ==>
           (q in r.properties <==> q in st.properties)
           && (q in r.properties ==> r.properties[q] == st.properties[q])
  {
  }

  /** A key the schema does not know acts as a plain attribute of that very
      name: `true` gives `""`; `false`, `NaN`, `null` and `undefined` leave
      it as it was; anything else gives its string (arrays space-joined);
      no DOM property is assigned unless `setAttribute` throws, in which
      case the `catch` assigns the property named by the key. */
  lemma LegacySchemaMiss(find: LegacyFind, rejects: Rejects, st: Transformer.Reconciled, key: string, raw: Value)
    requires find(key).None?
    requires Dom.UniqueNames(st.attributes)
    ensures var r := LegacyStep(FindOrFallback(find, key), rejects, st, raw);
      var kept := raw in {Bool(false), NaN, Null, Undefined};
      var text := if raw == Bool(true) then "" else ToJsString(Transformer.JoinArray(raw, false));
      && (kept ==> r == st)
      && (!kept && !rejects(key) ==>
            Dom.GetAttribute(r.attributes, key) == Some(text) && r.properties == st.properties)
      && (!kept && rejects(key) ==>
            && r.attributes == st.attributes
            && (key != "" ==> r.properties == st.properties[key := Transformer.JoinArray(raw, false)])
            && (key == "" ==> r.properties == st.properties))
  {
  }

  /** Absent rejections, the older loop computes what the current one does
      against the schema record (or the fallback record) of each key. */
  lemma {:induction false} LegacyMatchesCurrent(find: LegacyFind, rejects: Rejects, space: Space,
                                                 st: Transformer.Reconciled, props: Hast.Props)
    requires forall i :: 0 <= i < |props| ==> !rejects(FindOrFallback(find, props[i].0).attribute)
    ensures LegacyReconcile(find, rejects, st, props)
      == Transformer.Reconcile((sp: Space, k: string) => AsInfo(FindOrFallback(find, k)), space, st, props)
    decreases |props|
  {
    if props != [] {
      var info := FindOrFallback(find, props[0].0);
      assert !rejects(info.attribute);
      var next := LegacyStep(info, rejects, st, props[0].1);
      assert next == Transformer.ReconcileOne(AsInfo(info), st, props[0].1);
      assert forall i :: 0 <= i < |props[1..]| ==> props[1..][i] == props[i + 1];
      LegacyMatchesCurrent(find, rejects, space, next, props[1..]);
    }
  }

  /*************************** root ***************************/

  predicate HasHtmlTagged(cs: seq<Hast.Node>)
  {
    exists i :: 0 <= i < |cs| && IsHtmlTagged(cs[i])
  }

  /** An `html`-tagged child that declares a (truthy) `xmlns`. */
  predicate DeclaresXmlns(n: Hast.Node)
  {
    IsHtmlTagged(n) && Truthy(XmlnsField(n))
  }

  /** Reference choice of the root namespace: the explicit option if any;
      otherwise, when the first child is `html`, the last `html` child's
      `xmlns`, or XHTML if it declares none; when the first child is not
      `html`, the last declared `xmlns` of an `html` child, or none. */
  function LegacyResolvedNamespace(cs: seq<Hast.Node>, optionNamespace: JsNs): JsNs
  {
    if !optionNamespace.Undef? then optionNamespace
    else if |cs| > 0 && IsHtmlTagged(cs[0]) then
      var i := Hast.LastIndex(cs, IsHtmlTagged);
      if DeclaresXmlns(cs[i]) then Uri(ToJsString(XmlnsField(cs[i]))) else Uri(Dom.HtmlNamespace)
    else
      var j := Hast.LastIndex(cs, DeclaresXmlns);
      if j < 0 then Undef else Uri(ToJsString(XmlnsField(cs[j])))
  }

  lemma {:induction false} LegacyScanIsDocument(cs: seq<Hast.Node>, firstIsHtml: bool, optionNamespace: JsNs, acc: Transformer.RootScan)
    ensures LegacyScanRoot(cs, firstIsHtml, optionNamespace, acc).isDocument <==> acc.isDocument || HasHtmlTagged(cs)
    decreases |cs|
  {
    if cs != [] {
      var x := XmlnsField(cs[0]);
      var ns :=
        if !optionNamespace.Undef? then acc.namespace
        else if Truthy(x) then Uri(ToJsString(x))
        else if firstIsHtml then Uri(Dom.HtmlNamespace)
        else acc.namespace;
      var next := if IsHtmlTagged(cs[0]) then Transformer.RootScan(true, ns) else acc;
      LegacyScanIsDocument(cs[1..], firstIsHtml, optionNamespace, next);
      if HasHtmlTagged(cs) && !IsHtmlTagged(cs[0]) {
        var i :| 0 <= i < |cs| && IsHtmlTagged(cs[i]);
        assert cs[1..][i - 1] == cs[i];
      }
      if HasHtmlTagged(cs[1..]) {
        var i :| 0 <= i < |cs[1..]| && IsHtmlTagged(cs[1..][i]);
        assert cs[i + 1] == cs[1..][i];
      }
    }
  }

  /** The namespace the loop leaves, starting from `acc`. */
  lemma {:induction false} LegacyScanNamespace(cs: seq<Hast.Node>, firstIsHtml: bool, optionNamespace: JsNs, acc: Transformer.RootScan)
    ensures var r := LegacyScanRoot(cs, firstIsHtml, optionNamespace, acc).namespace;
      var i := Hast.LastIndex(cs, IsHtmlTagged);
      var j := Hast.LastIndex(cs, DeclaresXmlns);
      && (!optionNamespace.Undef? ==> r == acc.namespace)
      && (optionNamespace.Undef? && firstIsHtml ==>
            r == if i < 0 then acc.namespace
                 else if DeclaresXmlns(cs[i]) then Uri(ToJsString(XmlnsField(cs[i])))
                 else Uri(Dom.HtmlNamespace))
      && (optionNamespace.Undef? && !firstIsHtml ==>
            r == if j < 0 then acc.namespace else Uri(ToJsString(XmlnsField(cs[j]))))
    decreases |cs|
  {
    if cs != [] {
      var x := XmlnsField(cs[0]);
      var ns :=
        if !optionNamespace.Undef? then acc.namespace
        else if Truthy(x) then Uri(ToJsString(x))
        else if firstIsHtml then Uri(Dom.HtmlNamespace)
        else acc.namespace;
      var next := if IsHtmlTagged(cs[0]) then Transformer.RootScan(true, ns) else acc;
      LegacyScanNamespace(cs[1..], firstIsHtml, optionNamespace, next);
      Hast.LastIndexTail(cs, IsHtmlTagged);
      Hast.LastIndexTail(cs, DeclaresXmlns);
      var ti := Hast.LastIndex(cs[1..], IsHtmlTagged);
      var tj := Hast.LastIndex(cs[1..], DeclaresXmlns);
      if ti >= 0 { assert cs[1..][ti] == cs[ti + 1]; }
      if tj >= 0 { assert cs[1..][tj] == cs[tj + 1]; }
    }
  }

  /** The root becomes a Document exactly when it has no children or some
      child carries the tag name `html` (whatever its type); otherwise a
      fragment if asked for, else a synthesised `<html>` element. */
  lemma LegacyRootKind(find: LegacyFind, rejects: Rejects, node: Hast.Node, options: LegacyOptions)
    requires node.Root?
    ensures var r := LegacyTransform(find, rejects, node, options);
      var isDocument := |node.children| == 0 || HasHtmlTagged(node.children);
      r.Done? ==>
        && (r.value.Document? <==> isDocument)
        && (r.value.DocumentFragment? <==> !isDocument && options.fragment)
        && (r.value.Element? <==> !isDocument && !options.fragment)
        && (r.value.Element? ==> r.value.creation == Dom.Plain && r.value.tagName == "html")
  {
    var cs := node.children;
    var firstIsHtml := |cs| > 0 && IsHtmlTagged(cs[0]);
    LegacyScanIsDocument(cs, firstIsHtml, options.namespace, Transformer.RootScan(|cs| == 0, options.namespace));
  }

  /** The root namespace follows the reference choice; the document is
      created in it and the children receive it as their namespace. */
  lemma LegacyRootNamespace(find: LegacyFind, rejects: Rejects, node: Hast.Node, options: LegacyOptions)
    requires node.Root?
    ensures var r := LegacyTransform(find, rejects, node, options);
      var cs := node.children;
      var ns := LegacyResolvedNamespace(cs, options.namespace);
      r.Done? ==>
        && (r.value.Document? ==> r.value.namespace == LegacyDocumentNamespace(ns))
        && Dom.IsParent(r.value)
        && |r.value.children| == |cs|
        && forall k :: 0 <= k < |cs| ==>
             LegacyTransform(find, rejects, cs[k], LegacyOptions(options.fragment, ns)) == Done(r.value.children[k])
  {
    var cs := node.children;
    var firstIsHtml := |cs| > 0 && IsHtmlTagged(cs[0]);
    var scan := LegacyScanRoot(cs, firstIsHtml, options.namespace, Transformer.RootScan(|cs| == 0, options.namespace));
    LegacyScanNamespace(cs, firstIsHtml, options.namespace, Transformer.RootScan(|cs| == 0, options.namespace));
    var ns := scan.namespace;
    assert ns == LegacyResolvedNamespace(cs, options.namespace);
    var r := LegacyTransform(find, rejects, node, options);
    assert r == LegacyRoot(find, rejects, node, options);
  }

  /*************************** whole trees ***************************/

  /** Every node that is handled as an element carries `properties`. */
  predicate PropertiesEverywhere(n: Hast.Node)
    decreases n, 1
  {
    && ((n.Element? || n.Other?) ==> Hast.PropsField(n).Some?)
    && (Hast.HasChildren(n) ==> PropertiesAmong(n.children))
  }

  predicate PropertiesAmong(ns: seq<Hast.Node>)
    decreases ns
  {
    ns != [] ==> PropertiesEverywhere(ns[0]) && PropertiesAmong(ns[1..])
  }

  /** The older transform throws exactly when some element-like node of the
      tree has no `properties`. */
  lemma {:induction false} LegacySucceedsIff(find: LegacyFind, rejects: Rejects, node: Hast.Node, options: LegacyOptions)
    ensures LegacyTransform(find, rejects, node, options).Done? <==> PropertiesEverywhere(node)
    decreases node, 1
  {
    match node
    case Root(cs) =>
      var firstIsHtml := |cs| > 0 && IsHtmlTagged(cs[0]);
      var scan := LegacyScanRoot(cs, firstIsHtml, options.namespace, Transformer.RootScan(|cs| == 0, options.namespace));
      LegacySucceedsAmong(find, rejects, node, cs, LegacyOptions(options.fragment, scan.namespace));
    case Element(_, ps, cs) =>
      if ps.Some? {
        LegacySucceedsAmong(find, rejects, node, cs, options);
      }
    case Other(_, ps, cs) =>
      if ps.Some? {
        LegacySucceedsAmong(find, rejects, node, cs, options);
      }
    case Text(_) =>
    case Comment(_) =>
    case Doctype(_, _, _) =>
  }

  lemma {:induction false} LegacySucceedsAmong(find: LegacyFind, rejects: Rejects, parent: Hast.Node, cs: seq<Hast.Node>, options: LegacyOptions)
    requires forall k :: 0 <= k < |cs| ==> cs[k] < parent
    ensures LegacyTransformAll(find, rejects, cs, options).Done? <==> PropertiesAmong(cs)
    decreases parent, 0, |cs|
  {
    if cs != [] {
      LegacySucceedsIff(find, rejects, cs[0], options);
      LegacySucceedsAmong(find, rejects, parent, cs[1..], options);
    }
  }

  /** A completed transform yields exactly one output node per input node. */
  lemma {:induction false} LegacyCountsNodes(find: LegacyFind, rejects: Rejects, node: Hast.Node, options: LegacyOptions)
    ensures var r := LegacyTransform(find, rejects, node, options);
      r.Done? ==> Dom.CountNodes(r.value) == Hast.Size(node)
    decreases node, 1
  {
    match node
    case Root(cs) =>
      var firstIsHtml := |cs| > 0 && IsHtmlTagged(cs[0]);
      var scan := LegacyScanRoot(cs, firstIsHtml, options.namespace, Transformer.RootScan(|cs| == 0, options.namespace));
      var r := LegacyTransform(find, rejects, node, options);
      assert r == LegacyRoot(find, rejects, node, options);
      if r.Done? {
        var childOptions := LegacyOptions(options.fragment, scan.namespace);
        assert r.value.children == LegacyTransformAll(find, rejects, cs, childOptions).value;
        LegacyCountsAmong(find, rejects, node, cs, childOptions);
      }
    case Element(_, _, cs) =>
      LegacyElementCounts(find, rejects, node, options);
    case Other(_, _, cs) =>
      LegacyElementCounts(find, rejects, node, options);
    case Text(_) =>
    case Comment(_) =>
    case Doctype(_, _, _) =>
  }

  lemma {:induction false} LegacyElementCounts(find: LegacyFind, rejects: Rejects, node: Hast.Node, options: LegacyOptions)
    requires node.Element? || node.Other?
    ensures var r := LegacyTransform(find, rejects, node, options);
      r.Done? ==> Dom.CountNodes(r.value) == Hast.Size(node)
    decreases node, 0
  {
    var r := LegacyTransform(find, rejects, node, options);
    assert r == LegacyElement(find, rejects, node, options);
    if r.Done? {
      assert r.value.children == LegacyTransformAll(find, rejects, node.children, options).value;
      LegacyCountsAmong(find, rejects, node, node.children, options);
    }
  }

  lemma {:induction false} LegacyCountsAmong(find: LegacyFind, rejects: Rejects, parent: Hast.Node, cs: seq<Hast.Node>, options: LegacyOptions)
    requires forall k :: 0 <= k < |cs| ==> cs[k] < parent
    ensures var r := LegacyTransformAll(find, rejects, cs, options);
      r.Done? ==> Dom.CountAll(r.value) == Hast.SizeAll(cs)
    decreases parent, 0, |cs|
  {
    var r := LegacyTransformAll(find, rejects, cs, options);
    if cs != [] && r.Done? {
      LegacyCountsNodes(find, rejects, cs[0], options);
      LegacyCountsAmong(find, rejects, parent, cs[1..], options);
      assert r.value[1..] == LegacyTransformAll(find, rejects, cs[1..], options).value;
    }
  }

  /** Below the root every element is created with the option's namespace,
      unqualified only when it is `undefined`: there is no SVG switch. */
  lemma {:induction false} LegacyElementsUseOption(find: LegacyFind, rejects: Rejects, node: Hast.Node, options: LegacyOptions)
    requires !node.Root? && Hast.NoNestedRoot(node)
    ensures var r := LegacyTransform(find, rejects, node, options);
      r.Done? ==> Dom.AllElementsCreated(r.value, LegacyCreation(options.namespace))
    decreases node, 1
  {
    var r := LegacyTransform(find, rejects, node, options);
    if (node.Element? || node.Other?) && r.Done? {
      assert r == LegacyElement(find, rejects, node, options);
      assert r.value.children == LegacyTransformAll(find, rejects, node.children, options).value;
      LegacyElementsUseOptionAmong(find, rejects, node, node.children, options);
    }
  }

  lemma {:induction false} LegacyElementsUseOptionAmong(find: LegacyFind, rejects: Rejects, parent: Hast.Node, cs: seq<Hast.Node>, options: LegacyOptions)
    requires forall k :: 0 <= k < |cs| ==> cs[k] < parent
    requires Hast.NoRootAmong(cs)
    ensures var r := LegacyTransformAll(find, rejects, cs, options);
      r.Done? ==> Dom.AllCreatedAmong(r.value, LegacyCreation(options.namespace))
    decreases parent, 0, |cs|
  {
    var r := LegacyTransformAll(find, rejects, cs, options);
    if cs != [] && r.Done? {
      LegacyElementsUseOption(find, rejects, cs[0], options);
      LegacyElementsUseOptionAmong(find, rejects, parent, cs[1..], options);
      assert r.value[1..] == LegacyTransformAll(find, rejects, cs[1..], options).value;
    }
  }

  /** Leaves: text and comments verbatim; the doctype keeps its name and
      identifiers, an absent or empty one becoming `html`, `""` and `""`. */
  lemma LegacyLeafNodes(find: LegacyFind, rejects: Rejects, node: Hast.Node, options: LegacyOptions)
    requires !Hast.HasChildren(node)
    ensures var r := LegacyTransform(find, rejects, node, options);
      && r.Done?
      && (node.Text? ==> r.value == Dom.Text(node.value))
      && (node.Comment? ==> r.value == Dom.Comment(node.value))
      && (node.Doctype? ==>
            && r.value.DocumentType?
            && (node.name.Some? && node.name.value != "" ==> r.value.name == node.name.value)
            && (node.name.None? || node.name.value == "" ==> r.value.name == "html")
            && (node.publicId.Some? ==> r.value.publicId == node.publicId.value)
            && (node.publicId.None? ==> r.value.publicId == "")
            && (node.systemId.Some? ==> r.value.systemId == node.systemId.value)
            && (node.systemId.None? ==> r.value.systemId == ""))
  {
  }
}
