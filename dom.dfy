/** The host tree the selector code inspects, reduced to what it reads: node
    kinds, the parent link, the ordered child list, the tag name, the attribute
    list and the owner document of every node. Node identity is the id. */
module Dom {
  import opened Wrappers

  type NodeId = nat

  /** `nodeType`, reduced to the kinds the selector code tells apart. */
  datatype NodeKind = ElementNode | DocumentNode | ShadowRootNode | TextNode | CommentNode

  /** One entry of `element.attributes`: its `nodeName` and its `value`. */
  datatype Attr = Attr(name: string, value: string)

  datatype NodeInfo = NodeInfo(
    kind: NodeKind,
    parent: Option<NodeId>,        // parentNode
    children: seq<NodeId>,         // childNodes, in document order
    tagName: string,
    attributes: seq<Attr>,
    ownerDocument: Option<NodeId>)

  datatype Tree = Tree(nodes: map<NodeId, NodeInfo>)

  /** The environment of one computation: the tree, the host's matching engine
      (`scope.querySelectorAll(selector)`, matches in document order) and
      `CSS.escape`. Both functions are left uninterpreted. */
  datatype Host = Host(
    tree: Tree,
    query: (NodeId, string) -> seq<NodeId>,
    escape: string -> string)

  /** What every DOM guarantees and the model relies on: a parent is a node of
      the tree with a smaller id (so the parent links are acyclic), a document
      or shadow root has no parent, and an element has a non-empty tag name and
      belongs to a document. */
  predicate WellFormed(t: Tree)
  {
    forall n :: n in t.nodes ==> NodeWellFormed(t, n)
  }

  predicate NodeWellFormed(t: Tree, n: NodeId)
    requires n in t.nodes
  {
    var info := t.nodes[n];
    && (info.parent.Some? ==> info.parent.value < n && info.parent.value in t.nodes)
    && (info.kind.DocumentNode? || info.kind.ShadowRootNode? ==> info.parent.None?)
    && (info.kind.ElementNode? ==>
          && info.tagName != ""
          && info.ownerDocument.Some?
          && info.ownerDocument.value in t.nodes
          && t.nodes[info.ownerDocument.value].kind.DocumentNode?)
  }

  /** `isElement(n)`; an id outside the tree (JavaScript `null`) is no element. */
  predicate IsElement(t: Tree, n: NodeId)
  {
    n in t.nodes && t.nodes[n].kind.ElementNode?
  }

  /** `isElement(current)` on a nullable node: `null` is no element. */
  predicate IsSomeElement(t: Tree, n: Option<NodeId>)
  {
    n.Some? && IsElement(t, n.value)
  }

  function ParentOf(t: Tree, n: NodeId): (p: Option<NodeId>)
    ensures WellFormed(t) && p.Some? ==> p.value < n && p.value in t.nodes
  {
    if n in t.nodes then t.nodes[n].parent else None
  }

  function ChildrenOf(t: Tree, n: NodeId): seq<NodeId>
  {
    if n in t.nodes then t.nodes[n].children else []
  }

  function TagNameOf(t: Tree, n: NodeId): string
  {
    if n in t.nodes then t.nodes[n].tagName else ""
  }

  function AttributesOf(t: Tree, n: NodeId): seq<Attr>
  {
    if n in t.nodes then t.nodes[n].attributes else []
  }

  /** The value of the first attribute called `name`. */
  function FindAttribute(attrs: seq<Attr>, name: string): (r: Option<string>)
    ensures r.Some? <==> exists i :: 0 <= i < |attrs| && attrs[i].name == name
  {
    if attrs == [] then None
    else if attrs[0].name == name then Some(attrs[0].value)
    else
      var r := FindAttribute(attrs[1..], name);
      assert forall i :: 1 <= i < |attrs| ==> attrs[i] == attrs[1..][i - 1];
      r
  }

  /** `el.getAttribute(name)`: `None` stands for `null`. */
  function GetAttribute(t: Tree, n: NodeId, name: string): Option<string>
  {
    FindAttribute(AttributesOf(t, n), name)
  }

  /** The node `k` steps up the parent chain of `n`, if the chain is that long. */
  function Up(t: Tree, n: NodeId, k: nat): Option<NodeId>
    decreases k
  {
    if k == 0 then Some(n)
    else match ParentOf(t, n)
      case None => None
      case Some(p) => Up(t, p, k - 1)
  }

  /** The number of steps from `n` up to the first node without a parent. */
  function RootDistance(t: Tree, n: NodeId): nat
    requires WellFormed(t)
    decreases n
  {
    match ParentOf(t, n)
    case None => 0
    case Some(p) => RootDistance(t, p) + 1
  }

  /** `node.getRootNode()`: the last node on the parent chain (a document, or a
      shadow root or detached subtree root): reached from `n` by following
      parents, and itself without a parent. */
  function RootNode(t: Tree, n: NodeId): (r: NodeId)
    requires WellFormed(t)
    ensures ParentOf(t, r).None?
    ensures Up(t, n, RootDistance(t, n)) == Some(r)
    ensures r <= n
    decreases n
  {
    match ParentOf(t, n)
    case None => n
    case Some(p) => RootNode(t, p)
  }

  /** The root is reached after exactly `RootDistance` steps: every node
      before it on the chain has a parent, and the chain ends there. */
  lemma {:induction false} RootNodeIsChainEnd(t: Tree, n: NodeId, k: nat)
    requires WellFormed(t)
    ensures k < RootDistance(t, n) ==> Up(t, n, k).Some? && ParentOf(t, Up(t, n, k).value).Some?
    ensures k > RootDistance(t, n) ==> Up(t, n, k).None?
    decreases n
  {
    if k > 0 {
      match ParentOf(t, n)
      case None =>
      case Some(p) => RootNodeIsChainEnd(t, p, k - 1);
    }
  }
}
