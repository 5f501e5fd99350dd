/** `getNthChild`: the `:nth-child(n)` fragment of an element, where `n` is its
    1-based position among the element children of its parent. Text and
    comment siblings are skipped when counting. */
module NthChild {
  import opened Wrappers
  import opened Dom

  /** The number of elements among `s`. */
  function CountElements(t: Tree, s: seq<NodeId>): (c: nat)
    ensures c <= |s|
  {
    if s == [] then 0
    else CountElements(t, s[..|s| - 1]) + (if IsElement(t, s[|s| - 1]) then 1 else 0)
  }

  /** The first position of `x` in `s`. */
  function IndexOf(s: seq<NodeId>, x: NodeId): (k: nat)
    requires x in s
    ensures k < |s| && s[k] == x
    ensures forall j :: 0 <= j < k ==> s[j] != x
  {
    if s[0] == x then 0 else 1 + IndexOf(s[1..], x)
  }

  /** The decimal digits of `n`, as template-literal interpolation of a
      number writes them. */
  function Decimal(n: nat): (s: string)
    ensures |s| > 0
    ensures forall i :: 0 <= i < |s| ==> '0' <= s[i] <= '9'
  {
    if n < 10 then [Digit(n)] else Decimal(n / 10) + [Digit(n % 10)]
  }

  function Digit(d: nat): (c: char)
    requires d < 10
    ensures '0' <= c <= '9'
  {
    "0123456789"[d]
  }

  /** The number a string of decimal digits denotes. */
  function DecimalValue(s: string): nat
  {
    if s == [] then 0
    else
      var d := s[|s| - 1] as int - '0' as int;
      DecimalValue(s[..|s| - 1]) * 10 + (if 0 <= d then d else 0)
  }

  /** Reading the digits back gives the number. */
  lemma {:induction false} DecimalRoundTrip(n: nat)
    ensures DecimalValue(Decimal(n)) == n
  {
    if n >= 10 {
      var s := Decimal(n);
      DecimalRoundTrip(n / 10);
      assert s[..|s| - 1] == Decimal(n / 10);
    }
  }

  /** The `:nth-child()` fragment for a counter value. */
  function NthChildSelector(counter: nat): string
  {
    ":nth-child(" + Decimal(counter) + ")"
  }

  /** The reference definition: `el` has a parent, is an element and occurs in
      the parent's child list; its counter is the number of elements up to and
      including its first occurrence. */
  function NthChildFragment(t: Tree, el: NodeId): Option<string>
  {
    match ParentOf(t, el)
    case None => None
    case Some(p) => FragmentAmong(t, ChildrenOf(t, p), el)
  }

  function FragmentAmong(t: Tree, kids: seq<NodeId>, el: NodeId): Option<string>
  {
    if IsElement(t, el) && el in kids then
      Some(NthChildSelector(CountElements(t, kids[..IndexOf(kids, el) + 1])))
    else None
  }

  /** `getNthChild(el)`: no parent gives `null`; otherwise the position of
      `el` among the element children of its parent. */
  method GetNthChild(t: Tree, el: NodeId) returns (r: Option<string>)
    ensures r == NthChildFragment(t, el)
  {
    var parentNode := ParentOf(t, el);
    if parentNode.Some? {
      r := CountToElement(t, ChildrenOf(t, parentNode.value), el);
      return r;
    }
    return None;
  }

  /** The `for` loop over `childNodes`, counting element siblings and
      returning as soon as it meets `el`. */
  method CountToElement(t: Tree, childNodes: seq<NodeId>, el: NodeId) returns (r: Option<string>)
    ensures r == FragmentAmong(t, childNodes, el)
  {
    var counter: nat := 0;
    var len := |childNodes|;
    var k := 0;
    while k < len
      invariant 0 <= k <= len
      invariant counter == CountElements(t, childNodes[..k])
      invariant IsElement(t, el) ==> el !in childNodes[..k]
    {
      var sibling := childNodes[k];
      assert childNodes[..k + 1][..k] == childNodes[..k];
      assert CountElements(t, childNodes[..k + 1])
          == CountElements(t, childNodes[..k]) + (if IsElement(t, sibling) then 1 else 0);
      if IsElement(t, sibling) {
        counter := counter + 1;
        if sibling == el {
          assert IndexOf(childNodes, el) == k by {
            forall j | 0 <= j < k ensures childNodes[j] != el {
              assert childNodes[..k][j] == childNodes[j];
            }
          }
          return Some(NthChildSelector(counter));
        }
      }
      k := k + 1;
    }
    assert childNodes[..len] == childNodes;
    return None;
  }

  /** `null` exactly when there is no parent, or `el` is not an element child
      of it; otherwise the counter lies between 1 and the number of element
      children of the parent. */
  lemma NthChildCounter(t: Tree, el: NodeId)
    ensures NthChildFragment(t, el).Some? <==>
      ParentOf(t, el).Some? && IsElement(t, el) && el in ChildrenOf(t, ParentOf(t, el).value)
    ensures NthChildFragment(t, el).Some? ==>
      var kids := ChildrenOf(t, ParentOf(t, el).value);
      exists c :: 1 <= c <= CountElements(t, kids) && NthChildFragment(t, el) == Some(NthChildSelector(c))
  {
    if NthChildFragment(t, el).Some? {
      var kids := ChildrenOf(t, ParentOf(t, el).value);
      var k := IndexOf(kids, el);
      var c := CountElements(t, kids[..k + 1]);
      CountPrefixMonotone(t, kids, k + 1, |kids|);
      assert kids[..|kids|] == kids;
      assert kids[..k + 1][..k] == kids[..k];
      assert 1 <= c;
    }
  }

  lemma {:induction false} CountPrefixMonotone(t: Tree, s: seq<NodeId>, i: nat, j: nat)
    requires i <= j <= |s|
    ensures CountElements(t, s[..i]) <= CountElements(t, s[..j])
    decreases j - i
  {
    if i < j {
      CountPrefixMonotone(t, s, i, j - 1);
      assert s[..j][..j - 1] == s[..j - 1];
    }
  }

  /** Different counters give different fragments. */
  lemma NthChildSelectorInjective(a: nat, b: nat)
    ensures NthChildSelector(a) == NthChildSelector(b) ==> a == b
  {
    if NthChildSelector(a) == NthChildSelector(b) {
      var sa, sb := NthChildSelector(a), NthChildSelector(b);
      assert Decimal(a) == sa[11..|sa| - 1];
      assert Decimal(b) == sb[11..|sb| - 1];
      DecimalRoundTrip(a);
      DecimalRoundTrip(b);
    }
  }

  /** Two different element children of the same parent get different
      counters, so the fragment tells siblings apart. */
  lemma NthChildDistinct(t: Tree, a: NodeId, b: NodeId)
    requires a != b
    requires NthChildFragment(t, a).Some? && NthChildFragment(t, b).Some?
    requires ParentOf(t, a) == ParentOf(t, b)
    ensures NthChildFragment(t, a) != NthChildFragment(t, b)
  {
    var kids := ChildrenOf(t, ParentOf(t, a).value);
    var i, j := IndexOf(kids, a), IndexOf(kids, b);
    var ca, cb := CountElements(t, kids[..i + 1]), CountElements(t, kids[..j + 1]);
    if i < j {
      CountStrictlyUp(t, kids, i, j);
    } else {
      CountStrictlyUp(t, kids, j, i);
    }
    NthChildSelectorInjective(ca, cb);
  }

  lemma CountStrictlyUp(t: Tree, s: seq<NodeId>, i: nat, j: nat)
    requires i < j < |s| && IsElement(t, s[j])
    ensures CountElements(t, s[..i + 1]) < CountElements(t, s[..j + 1])
  {
    CountPrefixMonotone(t, s, i + 1, j);
    assert s[..j + 1][..j] == s[..j];
  }

  /** A list item after a text node, an earlier item and a comment. */
  function ExampleList(): Tree
  {
    Tree(map[
      0 := NodeInfo(ElementNode, None, [1, 2, 3, 4], "UL", [], Some(9)),
      1 := NodeInfo(TextNode, Some(0), [], "", [], Some(9)),
      2 := NodeInfo(ElementNode, Some(0), [], "LI", [], Some(9)),
      3 := NodeInfo(CommentNode, Some(0), [], "", [], Some(9)),
      4 := NodeInfo(ElementNode, Some(0), [], "LI", [], Some(9))])
  }

  /** Among [text, A, comment, B] the element B is the second element child. */
  lemma NthChildExample()
    ensures NthChildFragment(ExampleList(), 4) == Some(":nth-child(2)")
  {
    var t := ExampleList();
    var kids: seq<NodeId> := [1, 2, 3, 4];
    assert ParentOf(t, 4) == Some(0) && ChildrenOf(t, 0) == kids;
    assert IndexOf(kids, 4) == 3;
    assert kids[..4] == kids;
    ExampleCount();
    assert Decimal(2) == "2";
    assert NthChildFragment(t, 4) == Some(NthChildSelector(2));
    assert NthChildSelector(2) == ":nth-child(" + "2" + ")";
    assert ":nth-child(" + "2" + ")" == ":nth-child(2)";
  }

  lemma ExampleCount()
    ensures CountElements(ExampleList(), [1, 2, 3, 4]) == 2
  {
    var t := ExampleList();
    var kids: seq<NodeId> := [1, 2, 3, 4];
    assert !IsElement(t, 1) && IsElement(t, 2) && !IsElement(t, 3) && IsElement(t, 4);
    assert CountElements(t, kids[..1]) == 0;
    assert CountElements(t, kids[..2]) == 1 by { assert kids[..2][..1] == kids[..1]; }
    assert CountElements(t, kids[..3]) == 1 by { assert kids[..3][..2] == kids[..2]; }
    assert kids[..3] == kids[..|kids| - 1];
  }
}
