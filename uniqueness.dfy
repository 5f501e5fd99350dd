/** `isUnique`: whether a selector, evaluated in the document the element
    belongs to, matches that element and nothing else. */
module Uniqueness {
  import opened Dom

  /** The scope of the query: the root of the element's tree when that root is
      a document, and the element's owner document otherwise (for instance
      inside a shadow tree or a detached subtree). */
  function QueryRoot(t: Tree, el: NodeId): (r: NodeId)
    requires WellFormed(t) && IsElement(t, el)
    ensures r in t.nodes && t.nodes[r].kind.DocumentNode?
  {
    var root := RootNode(t, el);
    if root in t.nodes && t.nodes[root].kind.DocumentNode? then root
    else t.nodes[el].ownerDocument.value
  }

  /** `isUnique(el, selector)`. */
  predicate IsUnique(h: Host, el: NodeId, selector: string)
    requires WellFormed(h.tree) && IsElement(h.tree, el)
  {
    selector != "" && h.query(QueryRoot(h.tree, el), selector) == [el]
  }

  /** The empty selector is never unique; a unique selector's query returned
      exactly one node, the element itself, and conversely. */
  lemma IsUniqueMeaning(h: Host, el: NodeId, selector: string)
    requires WellFormed(h.tree) && IsElement(h.tree, el)
    ensures selector == "" ==> !IsUnique(h, el, selector)
    ensures IsUnique(h, el, selector) <==>
      var els := h.query(QueryRoot(h.tree, el), selector);
      selector != "" && |els| == 1 && els[0] == el
  {
  }

  /** The scope is a document node, never a shadow root, and it is the tree's
      root whenever that root is a document. */
  lemma QueryRootIsDocument(t: Tree, el: NodeId)
    requires WellFormed(t) && IsElement(t, el)
    ensures !t.nodes[QueryRoot(t, el)].kind.ShadowRootNode?
    ensures var root := RootNode(t, el);
      root in t.nodes && t.nodes[root].kind.DocumentNode? ==> QueryRoot(t, el) == root
  {
  }
}
