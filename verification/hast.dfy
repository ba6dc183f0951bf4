/** The input side: a hast tree. Nodes are told apart by their `type`;
    every `type` other than the five known ones is `Other`, which carries
    only the optional fields the element handler reads. Absent `children`
    are the empty sequence; absent `properties` are `None`. */
module Hast {
  import opened Options
  import opened JsValues

  /** A `properties` object as its ordered `Object.keys` with their values.
      The operations accept any sequence; the ones `Object.keys` yields
      satisfy `UniqueKeys`. */
  type Props = seq<(string, Value)>

  /** No key occurs twice, as in the keys of a JavaScript object. */
  predicate UniqueKeys(props: Props)
  {
    forall i, j :: 0 <= i < j < |props| ==> props[i].0 != props[j].0
  }

  datatype Node =
    | Root(children: seq<Node>)
    | Element(tagName: string, properties: Option<Props>, children: seq<Node>)
    | Text(value: string)
    | Comment(value: string)
    | Doctype(name: Option<string>, publicId: Option<string>, systemId: Option<string>)
    | Other(tag: Option<string>, props: Option<Props>, children: seq<Node>)

  /** `properties[key]`: the value stored under `key`, `undefined` if none. */
  function Get(props: Props, key: string): Value
  {
    if props == [] then Undefined
    else if props[0].0 == key then props[0].1
    else Get(props[1..], key)
  }

  /** The `properties` field of a node the element handler takes. */
  function PropsField(n: Node): Option<Props>
    requires n.Element? || n.Other?
  {
    if n.Element? then n.properties else n.props
  }

  /** With unique keys, `Get` finds the value of every entry, wherever it
      stands: reading the first match and letting the last one win agree. */
  lemma {:induction false} GetUnique(props: Props, i: int)
    requires UniqueKeys(props)
    requires 0 <= i < |props|
    ensures Get(props, props[i].0) == props[i].1
  {
    if i > 0 {
      assert props[0].0 != props[i].0;
      assert UniqueKeys(props[1..]) by {
        forall a, b | 0 <= a < b < |props[1..]|
          ensures props[1..][a].0 != props[1..][b].0
        {
          assert props[1..][a] == props[a + 1] && props[1..][b] == props[b + 1];
        }
      }
      GetUnique(props[1..], i - 1);
    }
  }

  /** Nodes whose `children` the transform visits. */
  predicate HasChildren(n: Node)
  {
    n.Root? || n.Element? || n.Other?
  }

  /** An `element` node whose tag name is `html`. */
  predicate IsHtmlElement(n: Node)
  {
    n.Element? && n.tagName == "html"
  }

  /** Number of nodes in an input tree. */
  function Size(n: Node): nat
    decreases n, 1
  {
    1 + (if HasChildren(n) then SizeAll(n.children) else 0)
  }

  function SizeAll(ns: seq<Node>): nat
    decreases ns
  {
    if ns == [] then 0 else Size(ns[0]) + SizeAll(ns[1..])
  }

  /** No `root` node below the top: the shape every hast tree has, and the
      one under which the namespace chosen at the top reaches every element. */
  predicate NoNestedRoot(n: Node)
    decreases n, 1
  {
    HasChildren(n) ==> NoRootAmong(n.children)
  }

  predicate NoRootAmong(ns: seq<Node>)
    decreases ns
  {
    ns != [] ==> !ns[0].Root? && NoNestedRoot(ns[0]) && NoRootAmong(ns[1..])
  }

  /** Position of the last node of `ns` satisfying `p`, or -1 when none does. */
  function LastIndex(ns: seq<Node>, p: Node -> bool): (i: int)
    ensures -1 <= i < |ns|
    ensures i >= 0 ==> p(ns[i])
    ensures forall j :: i < j < |ns| ==> !p(ns[j])
    decreases |ns|
  {
    if ns == [] then -1
    else if p(ns[|ns| - 1]) then |ns| - 1
    else LastIndex(ns[..|ns| - 1], p)
  }

  /** How the last match in `ns` relates to the last match in `ns[1..]`,
      which is what a front-to-back loop needs. */
  lemma LastIndexTail(ns: seq<Node>, p: Node -> bool)
    requires ns != []
    ensures var t := LastIndex(ns[1..], p);
      LastIndex(ns, p) == if t >= 0 then t + 1 else if p(ns[0]) then 0 else -1
  {
    var t := LastIndex(ns[1..], p);
    if t >= 0 {
      assert p(ns[t + 1]);
    }
  }
}
