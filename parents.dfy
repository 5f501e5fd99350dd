/** `getParents`: the element followed by its ancestors, for as long as the
    walk up `parentNode` stays on elements. */
module Parents {
  import opened Wrappers
  import opened Dom

  /** The chain that starts at `n` and follows parent links while they lead to
      elements; a node that is no element starts an empty chain. */
  function AncestorChain(t: Tree, n: NodeId): (r: seq<NodeId>)
    requires WellFormed(t)
    ensures IsElement(t, n) ==> |r| > 0 && r[0] == n
    ensures !IsElement(t, n) ==> r == []
    decreases n
  {
    if !IsElement(t, n) then []
    else
      match ParentOf(t, n)
      case None => [n]
      case Some(p) => [n] + AncestorChain(t, p)
  }

  /** The chain from a node that may be JavaScript `null`. */
  function ChainFrom(t: Tree, cur: Option<NodeId>): seq<NodeId>
    requires WellFormed(t)
  {
    if cur.Some? then AncestorChain(t, cur.value) else []
  }

  /** The while loop over `currentElement`, pushing every element it meets. */
  method GetParents(t: Tree, el: NodeId) returns (parents: seq<NodeId>)
    requires WellFormed(t)
    ensures parents == AncestorChain(t, el)
  {
    parents := [];
    var current: Option<NodeId> := Some(el);
    while IsSomeElement(t, current)
      invariant parents + ChainFrom(t, current) == AncestorChain(t, el)
      decreases if current.Some? then current.value + 1 else 0
    {
      var e := current.value;
      assert ChainFrom(t, current) == [e] + ChainFrom(t, ParentOf(t, e));
      parents := parents + [e];
      current := ParentOf(t, e);
    }
    assert ChainFrom(t, current) == [];
  }

  /** Every member is an element, each member after the first is the parent of
      the one before it, and the walk stops exactly where the next parent is
      `null`, a document, a shadow root or any other non-element. */
  lemma {:induction false} AncestorChainShape(t: Tree, n: NodeId)
    requires WellFormed(t)
    ensures var r := AncestorChain(t, n);
      && (forall i :: 0 <= i < |r| ==> IsElement(t, r[i]))
      && (forall i :: 0 <= i < |r| - 1 ==> ParentOf(t, r[i]) == Some(r[i + 1]))
      && (|r| > 0 ==> !IsSomeElement(t, ParentOf(t, r[|r| - 1])))
    decreases n
  {
    var r := AncestorChain(t, n);
    if IsElement(t, n) {
      match ParentOf(t, n)
      case None =>
        assert r == [n];
      case Some(p) =>
        AncestorChainShape(t, p);
        var rest := AncestorChain(t, p);
        assert r == [n] + rest;
        forall i | 0 <= i < |r| - 1 ensures ParentOf(t, r[i]) == Some(r[i + 1]) {
          if i > 0 {
            assert r[i] == rest[i - 1] && r[i + 1] == rest[i];
          }
        }
        if rest == [] {
          assert !IsElement(t, p);
        } else {
          assert r[|r| - 1] == rest[|rest| - 1];
        }
    }
  }

  predicate StrictlyDecreasing(r: seq<NodeId>)
  {
    forall i, j :: 0 <= i < j < |r| ==> r[j] < r[i]
  }

  /** The chain climbs strictly towards the root, so no node appears twice. */
  lemma {:induction false} AncestorChainRootward(t: Tree, n: NodeId)
    requires WellFormed(t)
    ensures StrictlyDecreasing(AncestorChain(t, n))
    decreases n
  {
    var r := AncestorChain(t, n);
    if IsElement(t, n) && ParentOf(t, n).Some? {
      var p := ParentOf(t, n).value;
      AncestorChainRootward(t, p);
      AncestorChainBelow(t, p, n);
      var rest := AncestorChain(t, p);
      assert r == [n] + rest;
      forall i, j | 0 <= i < j < |r| ensures r[j] < r[i] {
        assert r[j] == rest[j - 1] && rest[j - 1] in rest;
        if i > 0 {
          assert r[i] == rest[i - 1];
        } else {
          assert r[i] == n;
        }
      }
    }
  }

  lemma {:induction false} AncestorChainBelow(t: Tree, n: NodeId, bound: NodeId)
    requires WellFormed(t) && n < bound
    ensures forall x :: x in AncestorChain(t, n) ==> x < bound
    decreases n
  {
    if IsElement(t, n) && ParentOf(t, n).Some? {
      AncestorChainBelow(t, ParentOf(t, n).value, bound);
    }
  }
}
