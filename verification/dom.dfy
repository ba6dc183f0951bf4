/** The output side: the DOM nodes the transform asks its document factory
    to create, recorded as an immutable tree instead of live objects, with
    the element attribute list handled as in section 4.9 of the WHATWG DOM
    Standard (set replaces a same-named attribute in place or appends a new
    one; remove deletes it). */
module Dom {
  import opened Options
  import opened JsValues

  /** The two namespace URIs the transform names (the `web-namespaces` package). */
  const HtmlNamespace: string := "http://www.w3.org/1999/xhtml"
  const SvgNamespace: string := "http://www.w3.org/2000/svg"

  datatype Attr = Attr(name: string, value: string)

  /** How an element was created: `createElement(tag)`, or
      `createElementNS(namespace, tag)` where `None` is a `null` namespace. */
  datatype Creation = Plain | Qualified(namespace: Option<string>)

  datatype DomNode =
    | Document(namespace: Option<string>, children: seq<DomNode>)
    | DocumentFragment(children: seq<DomNode>)
    | Element(creation: Creation, tagName: string, attributes: seq<Attr>,
              properties: map<string, Value>, children: seq<DomNode>)
    | Text(data: string)
    | Comment(data: string)
    | DocumentType(name: string, publicId: string, systemId: string)

  /** Nodes that may receive children through `appendChild`. */
  predicate IsParent(d: DomNode)
  {
    d.Document? || d.DocumentFragment? || d.Element?
  }

  /** `appendChild` of each node of `kids`, in order. */
  function AppendAll(parent: DomNode, kids: seq<DomNode>): (r: DomNode)
    requires IsParent(parent)
    ensures IsParent(r)
    ensures r.children == parent.children + kids
    ensures r.(children := parent.children) == parent
  {
    parent.(children := parent.children + kids)
  }

  /** Number of nodes in an output tree. */
  function CountNodes(d: DomNode): nat
    decreases d, 1
  {
    1 + (if IsParent(d) then CountAll(d.children) else 0)
  }

  function CountAll(ds: seq<DomNode>): nat
    decreases ds
  {
    if ds == [] then 0 else CountNodes(ds[0]) + CountAll(ds[1..])
  }

  /** Position of the first attribute named `name`, or `|attrs|` when none is. */
  function IndexOf(attrs: seq<Attr>, name: string): (i: nat)
    ensures i <= |attrs|
    ensures i < |attrs| ==> attrs[i].name == name
    ensures forall k :: 0 <= k < i ==> attrs[k].name != name
  {
    if attrs == [] then 0
    else if attrs[0].name == name then 0
    else 1 + IndexOf(attrs[1..], name)
  }

  /** Every element of a tree was created the way `c` says. */
  predicate AllElementsCreated(d: DomNode, c: Creation)
    decreases d, 1
  {
    (d.Element? ==> d.creation == c) && (IsParent(d) ==> AllCreatedAmong(d.children, c))
  }

  predicate AllCreatedAmong(ds: seq<DomNode>, c: Creation)
    decreases ds
  {
    ds != [] ==> AllElementsCreated(ds[0], c) && AllCreatedAmong(ds[1..], c)
  }

  /** `getAttribute(name)`: the value of the first attribute so named. */
  function GetAttribute(attrs: seq<Attr>, name: string): Option<string>
  {
    if attrs == [] then None
    else if attrs[0].name == name then Some(attrs[0].value)
    else GetAttribute(attrs[1..], name)
  }

  /** The names present on an element. */
  function Names(attrs: seq<Attr>): set<string>
  {
    if attrs == [] then {} else {attrs[0].name} + Names(attrs[1..])
  }

  /** An element never holds two attributes of the same name. */
  predicate UniqueNames(attrs: seq<Attr>)
  {
    attrs != [] ==> attrs[0].name !in Names(attrs[1..]) && UniqueNames(attrs[1..])
  }

  /** `getAttribute` finds exactly the names that are present. */
  lemma {:induction false} AbsentName(attrs: seq<Attr>, name: string)
    ensures GetAttribute(attrs, name).Some? <==> name in Names(attrs)
  {
    if attrs != [] {
      AbsentName(attrs[1..], name);
    }
  }

  /** `setAttribute(name, value)`. */
  function SetAttribute(attrs: seq<Attr>, name: string, value: string): (r: seq<Attr>)
    ensures GetAttribute(r, name) == Some(value)
    ensures forall n :: n != name ==> GetAttribute(r, n) == GetAttribute(attrs, n)
    ensures Names(r) == Names(attrs) + {name}
    ensures name !in Names(attrs) ==> r == attrs + [Attr(name, value)]
    ensures name in Names(attrs) ==> |r| == |attrs|
    ensures UniqueNames(attrs) ==> UniqueNames(r)
  {
    if attrs == [] then [Attr(name, value)]
    else if attrs[0].name == name then [Attr(name, value)] + attrs[1..]
    else [attrs[0]] + SetAttribute(attrs[1..], name, value)
  }

  /** `removeAttribute(name)`. */
  function RemoveAttribute(attrs: seq<Attr>, name: string): (r: seq<Attr>)
    ensures UniqueNames(attrs) ==> GetAttribute(r, name).None?
    ensures forall n :: n != name ==> GetAttribute(r, n) == GetAttribute(attrs, n)
    ensures UniqueNames(attrs) ==> Names(r) == Names(attrs) - {name}
    ensures name !in Names(attrs) ==> r == attrs
    ensures name in Names(attrs) ==> |r| == |attrs| - 1
    ensures UniqueNames(attrs) ==> UniqueNames(r)
  {
    if attrs == [] then []
    else if attrs[0].name == name then
      AbsentName(attrs[1..], name);
      attrs[1..]
    else [attrs[0]] + RemoveAttribute(attrs[1..], name)
  }

  /** Setting an attribute that is already there changes its value where it
      stands; otherwise the new attribute goes last. */
  lemma {:induction false} SetAttributeInPlace(attrs: seq<Attr>, name: string, value: string)
    ensures var i := IndexOf(attrs, name);
      SetAttribute(attrs, name, value)
        == if i < |attrs| then attrs[i := Attr(name, value)] else attrs + [Attr(name, value)]
  {
    if attrs != [] && attrs[0].name != name {
      SetAttributeInPlace(attrs[1..], name, value);
    }
  }

  /** Removal deletes exactly the first attribute of that name and keeps
      the others in order. */
  lemma {:induction false} RemoveAttributeDeletesFirst(attrs: seq<Attr>, name: string)
    ensures var i := IndexOf(attrs, name);
      RemoveAttribute(attrs, name) == if i < |attrs| then attrs[..i] + attrs[i + 1..] else attrs
  {
    if attrs != [] && attrs[0].name != name {
      RemoveAttributeDeletesFirst(attrs[1..], name);
      var j := IndexOf(attrs[1..], name);
      if j < |attrs| - 1 {
        assert attrs[..j + 1] == [attrs[0]] + attrs[1..][..j];
        assert attrs[j + 2..] == attrs[1..][j + 1..];
      }
    }
  }
}
