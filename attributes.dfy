/** `getAttributes`: one `[name="value"]` selector per attribute of the
    element, in attribute order, skipping the attributes whose name is on the
    ignore list. */
module Attributes {
  import opened Seqs
  import opened Dom

  /** The default of `attributesToIgnore`. */
  const DefaultAttributesToIgnore: seq<string> := ["id", "class", "length"]

  /** The attribute selector for one attribute, with its value escaped. */
  function AttributeFragment(escape: string -> string, a: Attr): string
  {
    "[" + a.name + "=\"" + escape(a.value) + "\"]"
  }

  /** `attributesToIgnore.indexOf(nodeName) > -1` fails. */
  function NotIgnored(ignore: seq<string>): Attr -> bool
  {
    (a: Attr) => a.name !in ignore
  }

  /** The attributes that are not ignored, in order. */
  function KeptAttributes(attrs: seq<Attr>, ignore: seq<string>): seq<Attr>
  {
    Filter(attrs, NotIgnored(ignore))
  }

  /** The reference definition: the fragments of the kept attributes. */
  function AttributeSelectors(escape: string -> string, attrs: seq<Attr>, ignore: seq<string>): seq<string>
  {
    var kept := KeptAttributes(attrs, ignore);
    seq(|kept|, i requires 0 <= i < |kept| => AttributeFragment(escape, kept[i]))
  }

  /** The `reduce` over `Array.from(attributes)`, pushing into `sum`. */
  method GetAttributes(escape: string -> string, attrs: seq<Attr>, ignore: seq<string>)
    returns (sum: seq<string>)
    ensures sum == AttributeSelectors(escape, attrs, ignore)
  {
    sum := [];
    var i := 0;
    while i < |attrs|
      invariant 0 <= i <= |attrs|
      invariant sum == AttributeSelectors(escape, attrs[..i], ignore)
    {
      var next := attrs[i];
      assert attrs[..i + 1] == attrs[..i] + [next];
      FilterSnoc(attrs[..i], next, NotIgnored(ignore));
      if !(next.name in ignore) {
        sum := sum + [AttributeFragment(escape, next)];
      }
      i := i + 1;
    }
    assert attrs[..i] == attrs;
  }

  function GetAttributesOf(h: Host, el: NodeId, ignore: seq<string>): seq<string>
  {
    AttributeSelectors(h.escape, AttributesOf(h.tree, el), ignore)
  }

  /** The output follows the attribute order, lists every attribute that is
      not ignored as often as it occurs and no ignored one, and each entry is
      the selector of the attribute at that place. */
  lemma AttributeSelectorsKept(escape: string -> string, attrs: seq<Attr>, ignore: seq<string>)
    ensures var kept := KeptAttributes(attrs, ignore);
      var r := AttributeSelectors(escape, attrs, ignore);
      && IsSubsequence(kept, attrs)
      && (forall a :: a in kept <==> a in attrs && a.name !in ignore)
      && (forall a: Attr :: a.name !in ignore ==> multiset(kept)[a] == multiset(attrs)[a])
      && |r| == |kept|
      && (forall i :: 0 <= i < |r| ==> r[i] == AttributeFragment(escape, kept[i]))
  {
    var kept := KeptAttributes(attrs, ignore);
    FilterKeeps(attrs, NotIgnored(ignore));
    forall a: Attr | a.name !in ignore ensures multiset(kept)[a] == multiset(attrs)[a] {
      assert NotIgnored(ignore)(a);
    }
  }

  /** When every attribute is ignored there is no fragment. */
  lemma AllIgnored(escape: string -> string, attrs: seq<Attr>, ignore: seq<string>)
    requires forall i :: 0 <= i < |attrs| ==> attrs[i].name in ignore
    ensures AttributeSelectors(escape, attrs, ignore) == []
  {
    var kept := KeptAttributes(attrs, ignore);
    FilterKeeps(attrs, NotIgnored(ignore));
  }

  /** With an empty ignore list every attribute gives a fragment. */
  lemma NothingIgnored(escape: string -> string, attrs: seq<Attr>)
    ensures |AttributeSelectors(escape, attrs, [])| == |attrs|
  {
    FilterKeepsAll(attrs, NotIgnored([]));
  }

  /** By default `id`, `class` and `length` contribute nothing. */
  lemma DefaultIgnoresIdAndClass(escape: string -> string, attrs: seq<Attr>)
    ensures forall s :: s in AttributeSelectors(escape, attrs, DefaultAttributesToIgnore) ==>
      exists a :: a in attrs && a.name !in {"id", "class", "length"} && s == AttributeFragment(escape, a)
  {
    var kept := KeptAttributes(attrs, DefaultAttributesToIgnore);
    var r := AttributeSelectors(escape, attrs, DefaultAttributesToIgnore);
    FilterKeeps(attrs, NotIgnored(DefaultAttributesToIgnore));
    forall s | s in r
      ensures exists a :: a in attrs && a.name !in {"id", "class", "length"} && s == AttributeFragment(escape, a)
    {
      var i :| 0 <= i < |r| && r[i] == s;
      assert kept[i] in kept;
    }
  }
}
