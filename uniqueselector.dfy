/** The search of `index.ts`: for each element on the ancestor chain, the
    first selector kind (in the caller's priority order) that identifies it
    among its parent's descendants, then the shortest suffix of the chain of
    those fragments that identifies the start element in its document. */
module UniqueSelector {
  import opened Wrappers
  import opened Seqs
  import opened Dom
  import Combinations
  import NthChild
  import Parents
  import TagSel = Tag
  import Classes
  import Attributes
  import IdSelector
  import NameSelector
  import HrefSelector
  import Uniqueness

  /** `SelectorType`. */
  datatype SelectorType = ID | Class | Tag | NthChild | Attributes | Name | Href

  /** One entry of the `Record` `getAllSelectors` fills: a string, a list of
      strings, or `null`. A kind that was not asked for has no entry at all
      (JavaScript `undefined`). */
  datatype Value = Null | Str(s: string) | Strs(ss: seq<string>)

  type Selectors = map<SelectorType, Value>

  const DefaultSelectorTypes: seq<SelectorType> := [ID, Class, Tag, Name, Href, NthChild]

  /** `UniqueOptions`; `None` is a field left out by the caller. */
  datatype UniqueOptions = UniqueOptions(
    selectorTypes: Option<seq<SelectorType>>,
    attributesToIgnore: Option<seq<string>>,
    excludeRegex: Option<string -> bool>)

  function OrNull(o: Option<string>): Value
  {
    if o.Some? then Str(o.value) else Null
  }

  /** JavaScript truthiness of a `string | null | undefined`. */
  predicate Truthy(o: Option<string>)
  {
    o.Some? && o.value != ""
  }

  /** `funcs[kind](el)`. */
  function SelectorOf(h: Host, el: NodeId, kind: SelectorType, ignore: seq<string>): Value
  {
    match kind
    case ID => OrNull(IdSelector.GetID(h, el))
    case Class => Strs(Classes.GetClassSelectors(h, el))
    case Tag => Str(TagSel.TagSelector(TagNameOf(h.tree, el)))
    case NthChild => OrNull(NthChild.NthChildFragment(h.tree, el))
    case Attributes => Strs(Attributes.GetAttributesOf(h, el, ignore))
    case Name => OrNull(NameSelector.GetName(h, el))
    case Href => OrNull(HrefSelector.GetHref(h, el))
  }

  /** The reference definition of `getAllSelectors`: exactly the requested
      kinds, each mapped to its fragment(s). */
  function AllSelectors(h: Host, el: NodeId, kinds: seq<SelectorType>, ignore: seq<string>): Selectors
  {
    map k | k in kinds :: SelectorOf(h, el, k, ignore)
  }

  /** One call of `funcs[next]`, through the loop-based helpers where the
      source has loops. */
  method ComputeSelector(h: Host, el: NodeId, kind: SelectorType, ignore: seq<string>) returns (v: Value)
    ensures v == SelectorOf(h, el, kind, ignore)
  {
    match kind {
      case NthChild =>
        var r := NthChild.GetNthChild(h.tree, el);
        v := OrNull(r);
      case Attributes =>
        var r := Attributes.GetAttributes(h.escape, AttributesOf(h.tree, el), ignore);
        v := Strs(r);
      case _ =>
        v := SelectorOf(h, el, kind, ignore);
    }
  }

  /** `getAllSelectors`: the `reduce` writing `res[next]` for every requested
      kind. */
  method GetAllSelectors(h: Host, el: NodeId, selectors: seq<SelectorType>, ignore: seq<string>)
    returns (res: Selectors)
    ensures res == AllSelectors(h, el, selectors, ignore)
  {
    res := map[];
    for i := 0 to |selectors|
      invariant res == AllSelectors(h, el, selectors[..i], ignore)
    {
      var next := selectors[i];
      var v := ComputeSelector(h, el, next, ignore);
      assert selectors[..i + 1] == selectors[..i] + [next];
      res := res[next := v];
    }
    assert selectors[..|selectors|] == selectors;
  }

  /** A kind has an entry exactly when it was requested: kinds left out of
      `selectorTypes` are never computed. */
  lemma AllSelectorsDomain(h: Host, el: NodeId, kinds: seq<SelectorType>, ignore: seq<string>)
    ensures forall k :: k in AllSelectors(h, el, kinds, ignore) <==> k in kinds
  {
  }

  /** `testUniqueness`: unique among the nodes the parent's query returns. */
  predicate TestUniqueness(h: Host, el: NodeId, selector: string)
  {
    match ParentOf(h.tree, el)
    case None => false
    case Some(p) => h.query(p, selector) == [el]
  }

  /** No parent means no uniqueness; otherwise the parent-scoped query returns
      exactly one node, and it is the element. */
  lemma TestUniquenessMeaning(h: Host, el: NodeId, selector: string)
    ensures ParentOf(h.tree, el).None? ==> !TestUniqueness(h, el, selector)
    ensures ParentOf(h.tree, el).Some? ==>
      (TestUniqueness(h, el, selector) <==>
        var els := h.query(ParentOf(h.tree, el).value, selector);
        |els| == 1 && els[0] == el)
  {
  }

  /** `getFirstUnique`: `selectors.find(testUniqueness)`. */
  function FirstUnique(h: Host, el: NodeId, selectors: seq<string>): Option<string>
  {
    if selectors == [] then None
    else if TestUniqueness(h, el, selectors[0]) then Some(selectors[0])
    else FirstUnique(h, el, selectors[1..])
  }

  /** `find` returns the first entry that passes the test, and `undefined`
      exactly when none does. */
  lemma {:induction false} FirstUniqueIsFirst(h: Host, el: NodeId, selectors: seq<string>)
    ensures var r := FirstUnique(h, el, selectors);
      && (r.None? <==> forall i :: 0 <= i < |selectors| ==> !TestUniqueness(h, el, selectors[i]))
      && (r.Some? ==> exists i :: 0 <= i < |selectors| && selectors[i] == r.value
                       && TestUniqueness(h, el, selectors[i])
                       && forall j :: 0 <= j < i ==> !TestUniqueness(h, el, selectors[j]))
  {
    if selectors != [] && !TestUniqueness(h, el, selectors[0]) {
      FirstUniqueIsFirst(h, el, selectors[1..]);
      var r := FirstUnique(h, el, selectors);
      if r.Some? {
        var i :| 0 <= i < |selectors[1..]| && selectors[1..][i] == r.value
          && TestUniqueness(h, el, selectors[1..][i])
          && forall j :: 0 <= j < i ==> !TestUniqueness(h, el, selectors[1..][j]);
        assert selectors[i + 1] == r.value;
        forall j | 0 <= j < i + 1 ensures !TestUniqueness(h, el, selectors[j]) {
          if j > 0 {
            assert selectors[j] == selectors[1..][j - 1];
          }
        }
      } else {
        forall i | 0 <= i < |selectors| ensures !TestUniqueness(h, el, selectors[i]) {
          if i > 0 {
            assert selectors[i] == selectors[1..][i - 1];
          }
        }
      }
    }
  }

  /** A found entry passes the test. */
  lemma FirstUniqueUnique(h: Host, el: NodeId, selectors: seq<string>)
    ensures FirstUnique(h, el, selectors).Some? ==>
      var v := FirstUnique(h, el, selectors).value;
      v in selectors && TestUniqueness(h, el, v)
  {
    FirstUniqueIsFirst(h, el, selectors);
  }

  /** `combinations.map(c => tag + c)`. */
  function Prefixed(tag: string, ss: seq<string>): (r: seq<string>)
    ensures |r| == |ss|
  {
    seq(|ss|, i requires 0 <= i < |ss| => tag + ss[i])
  }

  /** `getUniqueCombination`: the first unique combination of up to three
      items; failing that, and only when a tag is given, the first unique
      tag-prefixed combination. */
  function UniqueCombination(h: Host, el: NodeId, items: seq<string>, tag: Option<string>): (r: Option<string>)
    ensures r.None? || Truthy(r)
  {
    var combinations := Combinations.Combinations(items, 3);
    var firstUnique := FirstUnique(h, el, combinations);
    if Truthy(firstUnique) then firstUnique
    else if Truthy(tag) then
      var tagged := FirstUnique(h, el, Prefixed(tag.value, combinations));
      if Truthy(tagged) then tagged else None
    else None
  }

  /** A result is a non-empty, locally unique selector: a plain combination, or
      a tag-prefixed one when no plain combination was found and a tag was
      given. Without a tag, only plain combinations are tried. */
  lemma UniqueCombinationResult(h: Host, el: NodeId, items: seq<string>, tag: Option<string>)
    ensures var r := UniqueCombination(h, el, items, tag);
      var combinations := Combinations.Combinations(items, 3);
      && (r.Some? ==> r.value != "" && TestUniqueness(h, el, r.value))
      && (r.Some? ==> r.value in combinations
                      || (Truthy(tag) && !Truthy(FirstUnique(h, el, combinations))
                          && r.value in Prefixed(tag.value, combinations)))
      && (!Truthy(tag) ==> r == (if Truthy(FirstUnique(h, el, combinations)) then FirstUnique(h, el, combinations) else None))
      && (Truthy(FirstUnique(h, el, combinations)) ==> r == FirstUnique(h, el, combinations))
      && (!Truthy(FirstUnique(h, el, combinations)) && Truthy(tag) ==>
            var tagged := FirstUnique(h, el, Prefixed(tag.value, combinations));
            r == if Truthy(tagged) then tagged else None)
  {
    var combinations := Combinations.Combinations(items, 3);
    FirstUniqueUnique(h, el, combinations);
    if Truthy(tag) {
      FirstUniqueUnique(h, el, Prefixed(tag.value, combinations));
    }
  }

  /** When the items are non-empty (as class and attribute fragments are), the
      search fails exactly when no combination and, with a tag, no
      tag-prefixed combination is locally unique. */
  lemma UniqueCombinationFails(h: Host, el: NodeId, items: seq<string>, tag: Option<string>)
    requires forall i :: 0 <= i < |items| ==> items[i] != ""
    ensures var combinations := Combinations.Combinations(items, 3);
      UniqueCombination(h, el, items, tag).None? <==>
        (forall c :: c in combinations ==> !TestUniqueness(h, el, c))
        && (Truthy(tag) ==> forall c :: c in combinations ==> !TestUniqueness(h, el, tag.value + c))
  {
    var combinations := Combinations.Combinations(items, 3);
    Combinations.CombinationsNonEmpty(items, 3);
    FirstUniqueFound(h, el, combinations);
    if Truthy(tag) {
      var tagged := Prefixed(tag.value, combinations);
      PrefixedMembers(tag.value, combinations);
      FirstUniqueFound(h, el, tagged);
    }
  }

  /** Among non-empty candidates, `find` yields a truthy result exactly when
      some candidate is unique. */
  lemma {:induction false} FirstUniqueFound(h: Host, el: NodeId, selectors: seq<string>)
    requires forall c :: c in selectors ==> c != ""
    ensures !Truthy(FirstUnique(h, el, selectors)) <==> forall c :: c in selectors ==> !TestUniqueness(h, el, c)
  {
    if selectors != [] {
      assert forall c :: c in selectors ==> c == selectors[0] || c in selectors[1..];
      assert forall c :: c in selectors[1..] ==> c in selectors;
      FirstUniqueFound(h, el, selectors[1..]);
      assert selectors[0] in selectors;
    }
  }

  lemma PrefixedMembers(tag: string, ss: seq<string>)
    requires tag != "" && forall c :: c in ss ==> c != ""
    ensures forall c :: c in ss ==> tag + c in Prefixed(tag, ss)
    ensures forall t :: t in Prefixed(tag, ss) ==> t != "" && exists c :: c in ss && t == tag + c
  {
    var r := Prefixed(tag, ss);
    forall c | c in ss ensures tag + c in r {
      var i :| 0 <= i < |ss| && ss[i] == c;
      assert r[i] == tag + c;
    }
    forall t | t in r ensures t != "" && exists c :: c in ss && t == tag + c {
      var i :| 0 <= i < |r| && r[i] == t;
      assert ss[i] in ss;
    }
  }

  /** The `excludeRegex` rewrite of `getUniqueSelector`: a string ID the test
      matches becomes `null`, a Class list keeps the entries the test does not
      match, and nothing else changes. */
  function Excluded(sels: Selectors, excludeRegex: Option<string -> bool>): Selectors
  {
    if excludeRegex.None? then sels
    else ExcludeClasses(ExcludeId(sels, excludeRegex.value), excludeRegex.value)
  }

  function ExcludeId(sels: Selectors, test: string -> bool): Selectors
  {
    if ID in sels && sels[ID].Str? && test(sels[ID].s) then sels[ID := Null] else sels
  }

  function ExcludeClasses(sels: Selectors, test: string -> bool): Selectors
  {
    if Class in sels && sels[Class].Strs? then sels[Class := Strs(Filter(sels[Class].ss, Not(test)))]
    else sels
  }

  lemma ExcludedEffect(sels: Selectors, test: string -> bool)
    ensures var r := Excluded(sels, Some(test));
      && r.Keys == sels.Keys
      && (forall k :: k in sels && k != ID && k != Class ==> r[k] == sels[k])
      && (ID in sels && sels[ID].Str? ==> (r[ID] == Null <==> test(sels[ID].s)))
      && (ID in sels && sels[ID].Str? && !test(sels[ID].s) ==> r[ID] == sels[ID])
      && (ID in sels && !sels[ID].Str? ==> r[ID] == sels[ID])
      && (Class in sels && sels[Class].Strs? ==>
            r[Class].Strs? && IsSubsequence(r[Class].ss, sels[Class].ss)
            && (forall c :: c in r[Class].ss <==> c in sels[Class].ss && !test(c))
            && forall c :: multiset(r[Class].ss)[c] == if test(c) then 0 else multiset(sels[Class].ss)[c])
      && (Class in sels && !sels[Class].Strs? ==> r[Class] == sels[Class])
  {
    if Class in sels && sels[Class].Strs? {
      FilterKeeps(sels[Class].ss, Not(test));
    }
  }

  /** The Tag fragment handed to `getUniqueCombination`, if computed. */
  function TagArgument(sels: Selectors): Option<string>
  {
    if Tag in sels && sels[Tag].Str? then Some(sels[Tag].s) else None
  }

  /** One iteration of the `switch` on `selectorType`: the fragment it accepts,
      if any. */
  function TryKind(h: Host, el: NodeId, sels: Selectors, kind: SelectorType): Option<string>
  {
    match kind
    case ID | Tag | Name | Href =>
      if kind in sels && sels[kind].Str? && TestUniqueness(h, el, sels[kind].s) then Some(sels[kind].s)
      else None
    case Class | Attributes =>
      if kind in sels && sels[kind].Strs? && |sels[kind].ss| > 0 then
        UniqueCombination(h, el, sels[kind].ss, TagArgument(sels))
      else None
    case NthChild =>
      if kind in sels && sels[kind].Str? then Some(sels[kind].s) else None
  }

  /** The `for` loop over `selectorTypes` with `'*'` as the fallback. */
  function PickFirst(h: Host, el: NodeId, sels: Selectors, kinds: seq<SelectorType>): string
  {
    if kinds == [] then "*"
    else
      match TryKind(h, el, sels, kinds[0])
      case Some(v) => v
      case None => PickFirst(h, el, sels, kinds[1..])
  }

  /** The reference definition of `getUniqueSelector`. */
  function UniqueSelectorFor(h: Host, el: NodeId, kinds: seq<SelectorType>, ignore: seq<string>,
                             excludeRegex: Option<string -> bool>): string
  {
    PickFirst(h, el, Excluded(AllSelectors(h, el, kinds, ignore), excludeRegex), kinds)
  }

  /** `getUniqueSelector`: compute the fragments, apply `excludeRegex` in
      place, then return the first accepted kind, or `'*'`. */
  method GetUniqueSelector(h: Host, element: NodeId, selectorTypes: seq<SelectorType>,
                           attributesToIgnore: seq<string>, excludeRegex: Option<string -> bool>)
    returns (r: string)
    ensures r == UniqueSelectorFor(h, element, selectorTypes, attributesToIgnore, excludeRegex)
  {
    var elementSelectors := GetAllSelectors(h, element, selectorTypes, attributesToIgnore);
    ghost var all := elementSelectors;
    if excludeRegex.Some? {
      var test := excludeRegex.value;
      if ID in elementSelectors && elementSelectors[ID].Str? {
        var idSelector := elementSelectors[ID].s;
        elementSelectors := elementSelectors[ID := if test(idSelector) then Null else Str(idSelector)];
      }
      assert elementSelectors == ExcludeId(all, test);
      if Class in elementSelectors && elementSelectors[Class].Strs? {
        var classSelectors := elementSelectors[Class].ss;
        elementSelectors := elementSelectors[Class := Strs(Filter(classSelectors, Not(test)))];
      }
    }

    r := TryInOrder(h, element, elementSelectors, selectorTypes);
  }

  /** The `for (const selectorType of selectorTypes)` loop of
      `getUniqueSelector`, returning from inside the `switch`. */
  method TryInOrder(h: Host, element: NodeId, elementSelectors: Selectors, selectorTypes: seq<SelectorType>)
    returns (r: string)
    ensures r == PickFirst(h, element, elementSelectors, selectorTypes)
  {
    ghost var sels := elementSelectors;
    for i := 0 to |selectorTypes|
      invariant PickFirst(h, element, sels, selectorTypes[i..]) == PickFirst(h, element, sels, selectorTypes)
    {
      var selectorType := selectorTypes[i];
      PickFirstStep(h, element, sels, selectorTypes, i);
      match selectorType {
        case Class =>
          if Class in elementSelectors && elementSelectors[Class].Strs? && |elementSelectors[Class].ss| > 0 {
            var foundSelector := UniqueCombination(h, element, elementSelectors[Class].ss, TagArgument(elementSelectors));
            if Truthy(foundSelector) {
              return foundSelector.value;
            }
          }
        case Attributes =>
          if Attributes in elementSelectors && elementSelectors[Attributes].Strs? && |elementSelectors[Attributes].ss| > 0 {
            var foundSelector := UniqueCombination(h, element, elementSelectors[Attributes].ss, TagArgument(elementSelectors));
            if Truthy(foundSelector) {
              return foundSelector.value;
            }
          }
        case NthChild =>
          if NthChild in elementSelectors && elementSelectors[NthChild].Str? {
            return elementSelectors[NthChild].s;
          }
        case _ =>
          if selectorType in elementSelectors && elementSelectors[selectorType].Str?
             && TestUniqueness(h, element, elementSelectors[selectorType].s) {
            return elementSelectors[selectorType].s;
          }
      }
    }
    assert selectorTypes[|selectorTypes|..] == [];
    return "*";
  }

  lemma PickFirstStep(h: Host, el: NodeId, sels: Selectors, kinds: seq<SelectorType>, i: nat)
    requires i < |kinds|
    ensures PickFirst(h, el, sels, kinds[i..]) ==
      if TryKind(h, el, sels, kinds[i]).Some? then TryKind(h, el, sels, kinds[i]).value
      else PickFirst(h, el, sels, kinds[i + 1..])
  {
    assert kinds[i..][0] == kinds[i] && kinds[i..][1..] == kinds[i + 1..];
  }

  /** Kinds are tried in the given order: the result is the fragment of the
      first kind that accepts one, and `'*'` when none does. */
  lemma {:induction false} PickFirstIsFirst(h: Host, el: NodeId, sels: Selectors, kinds: seq<SelectorType>)
    ensures (forall i :: 0 <= i < |kinds| ==> TryKind(h, el, sels, kinds[i]).None?) ==>
      PickFirst(h, el, sels, kinds) == "*"
    ensures forall i :: (0 <= i < |kinds| && TryKind(h, el, sels, kinds[i]).Some?
                          && forall j :: 0 <= j < i ==> TryKind(h, el, sels, kinds[j]).None?) ==>
      PickFirst(h, el, sels, kinds) == TryKind(h, el, sels, kinds[i]).value
  {
    if kinds != [] {
      PickFirstIsFirst(h, el, sels, kinds[1..]);
      if TryKind(h, el, sels, kinds[0]).None? {
        forall i | 0 <= i < |kinds| && TryKind(h, el, sels, kinds[i]).Some?
          && (forall j :: 0 <= j < i ==> TryKind(h, el, sels, kinds[j]).None?)
          ensures PickFirst(h, el, sels, kinds) == TryKind(h, el, sels, kinds[i]).value
        {
          assert kinds[i] == kinds[1..][i - 1];
          forall j | 0 <= j < i - 1 ensures TryKind(h, el, sels, kinds[1..][j]).None? {
            assert kinds[1..][j] == kinds[j + 1];
          }
        }
        if forall i :: 0 <= i < |kinds| ==> TryKind(h, el, sels, kinds[i]).None? {
          forall j | 0 <= j < |kinds[1..]| ensures TryKind(h, el, sels, kinds[1..][j]).None? {
            assert kinds[1..][j] == kinds[j + 1];
          }
        }
      }
    }
  }

  /** What each kind accepts: ID, Tag, Name and Href fragments and the
      combinations of Class and Attributes only when they are locally unique;
      an NthChild fragment whenever it exists, without any test. */
  lemma TryKindAccepts(h: Host, el: NodeId, sels: Selectors, kind: SelectorType)
    ensures var r := TryKind(h, el, sels, kind);
      && (r.Some? && kind != NthChild ==> TestUniqueness(h, el, r.value))
      && (kind.ID? || kind.Tag? || kind.Name? || kind.Href? ==>
            (r.Some? <==> kind in sels && sels[kind].Str? && TestUniqueness(h, el, sels[kind].s))
            && (r.Some? ==> r.value == sels[kind].s))
      && (kind.NthChild? ==> (r.Some? <==> kind in sels && sels[kind].Str?) && (r.Some? ==> r.value == sels[kind].s))
      && (kind.Class? || kind.Attributes? ==>
            && (r.Some? ==>
                  && kind in sels && sels[kind].Strs? && |sels[kind].ss| > 0 && r.value != ""
                  && var combinations := Combinations.Combinations(sels[kind].ss, 3);
                     (r.value in combinations
                      || (Truthy(TagArgument(sels)) && r.value in Prefixed(TagArgument(sels).value, combinations))))
            && (kind in sels && sels[kind].Strs? && |sels[kind].ss| > 0 ==>
                  r == UniqueCombination(h, el, sels[kind].ss, TagArgument(sels))))
  {
    if (kind.Class? || kind.Attributes?) && kind in sels && sels[kind].Strs? && |sels[kind].ss| > 0 {
      UniqueCombinationResult(h, el, sels[kind].ss, TagArgument(sels));
    }
  }

  /** Every string entry is non-empty and every list entry holds non-empty
      strings. */
  predicate FragmentsNonEmpty(sels: Selectors)
  {
    forall k :: k in sels ==>
      (sels[k].Str? ==> sels[k].s != "")
      && (sels[k].Strs? ==> forall i :: 0 <= i < |sels[k].ss| ==> sels[k].ss[i] != "")
  }

  lemma AllSelectorsNonEmpty(h: Host, el: NodeId, kinds: seq<SelectorType>, ignore: seq<string>)
    requires WellFormed(h.tree) && IsElement(h.tree, el)
    ensures FragmentsNonEmpty(AllSelectors(h, el, kinds, ignore))
  {
    var sels := AllSelectors(h, el, kinds, ignore);
    TagSel.TagSelectorNonEmpty(TagNameOf(h.tree, el));
    forall k | k in sels
      ensures sels[k].Str? ==> sels[k].s != ""
      ensures sels[k].Strs? ==> forall i :: 0 <= i < |sels[k].ss| ==> sels[k].ss[i] != ""
    {
      match k {
        case ID => IdSelector.IdSelectorCases(h.escape, GetAttribute(h.tree, el, "id"));
        case Name => NameSelector.NameSelectorCases(h.escape, GetAttribute(h.tree, el, "name"));
        case Href => HrefSelector.HrefSelectorCases(h.escape, GetAttribute(h.tree, el, "href"));
        case Class =>
          var names := Classes.GetClasses(h.tree, el);
          Classes.ClassSelectorsShape(h.escape, names);
        case Attributes =>
          Attributes.AttributeSelectorsKept(h.escape, AttributesOf(h.tree, el), ignore);
        case _ =>
      }
    }
  }

  lemma ExcludedNonEmpty(sels: Selectors, excludeRegex: Option<string -> bool>)
    requires FragmentsNonEmpty(sels)
    ensures FragmentsNonEmpty(Excluded(sels, excludeRegex))
  {
    if excludeRegex.Some? {
      var test := excludeRegex.value;
      ExcludedEffect(sels, test);
      var r := Excluded(sels, excludeRegex);
      if Class in sels && sels[Class].Strs? {
        forall i | 0 <= i < |r[Class].ss| ensures r[Class].ss[i] != "" {
          assert r[Class].ss[i] in sels[Class].ss;
        }
      }
    }
  }

  lemma {:induction false} PickFirstNonEmpty(h: Host, el: NodeId, sels: Selectors, kinds: seq<SelectorType>)
    requires FragmentsNonEmpty(sels)
    ensures PickFirst(h, el, sels, kinds) != ""
  {
    if kinds != [] {
      TryKindAccepts(h, el, sels, kinds[0]);
      PickFirstNonEmpty(h, el, sels, kinds[1..]);
    }
  }

  /** For an element of a well-formed tree the selector is never empty, which
      is why `unique` keeps one fragment per element of the chain. */
  lemma UniqueSelectorNonEmpty(h: Host, el: NodeId, kinds: seq<SelectorType>, ignore: seq<string>,
                               excludeRegex: Option<string -> bool>)
    requires WellFormed(h.tree) && IsElement(h.tree, el)
    ensures UniqueSelectorFor(h, el, kinds, ignore, excludeRegex) != ""
  {
    AllSelectorsNonEmpty(h, el, kinds, ignore);
    ExcludedNonEmpty(AllSelectors(h, el, kinds, ignore), excludeRegex);
    PickFirstNonEmpty(h, el, Excluded(AllSelectors(h, el, kinds, ignore), excludeRegex), kinds);
  }

  /** The tag prefix `getUniqueCombination` may use exists exactly when `Tag`
      is among the requested kinds, and it is the element's type selector. */
  lemma TagArgumentOnlyWithTag(h: Host, el: NodeId, kinds: seq<SelectorType>, ignore: seq<string>,
                               excludeRegex: Option<string -> bool>)
    ensures var sels := Excluded(AllSelectors(h, el, kinds, ignore), excludeRegex);
      TagArgument(sels) == if Tag in kinds then Some(TagSel.TagSelector(TagNameOf(h.tree, el))) else None
  {
    if excludeRegex.Some? {
      ExcludedEffect(AllSelectors(h, el, kinds, ignore), excludeRegex.value);
    }
  }

  // ---------------------------------------------------------------------------
  // unique

  /** The per-element selectors along a chain. */
  function Levels(h: Host, chain: seq<NodeId>, kinds: seq<SelectorType>, ignore: seq<string>,
                  excludeRegex: Option<string -> bool>): (r: seq<string>)
    ensures |r| == |chain|
  {
    if chain == [] then []
    else Levels(h, chain[..|chain| - 1], kinds, ignore, excludeRegex)
         + [UniqueSelectorFor(h, chain[|chain| - 1], kinds, ignore, excludeRegex)]
  }

  /** Extending the chain by one element appends that element's selector. */
  lemma LevelsSnoc(h: Host, chain: seq<NodeId>, n: NodeId, kinds: seq<SelectorType>, ignore: seq<string>,
                   excludeRegex: Option<string -> bool>)
    ensures Levels(h, chain + [n], kinds, ignore, excludeRegex)
      == Levels(h, chain, kinds, ignore, excludeRegex) + [UniqueSelectorFor(h, n, kinds, ignore, excludeRegex)]
  {
    assert (chain + [n])[..|chain|] == chain;
  }

  /** The `i`-th level is the selector of the `i`-th element of the chain. */
  lemma {:induction false} LevelsAt(h: Host, chain: seq<NodeId>, kinds: seq<SelectorType>, ignore: seq<string>,
                                    excludeRegex: Option<string -> bool>, i: nat)
    requires i < |chain|
    ensures Levels(h, chain, kinds, ignore, excludeRegex)[i] == UniqueSelectorFor(h, chain[i], kinds, ignore, excludeRegex)
  {
    var init := chain[..|chain| - 1];
    assert chain == init + [chain[|chain| - 1]];
    LevelsSnoc(h, init, chain[|chain| - 1], kinds, ignore, excludeRegex);
    if i < |init| {
      LevelsAt(h, init, kinds, ignore, excludeRegex, i);
    }
  }

  /** `selectors.join(' > ')` after the first `m` fragments have been
      unshifted: the fragments of the start element and its `m - 1` nearest
      element ancestors, outermost first and the start element's last. */
  function Path(fragments: seq<string>, m: nat): string
    requires m <= |fragments|
  {
    Join(Reverse(fragments[..m]), " > ")
  }

  /** The second loop of `unique`: try the suffixes of length `m`, `m + 1`, …
      and return the first one that is unique. */
  function Search(h: Host, el: NodeId, fragments: seq<string>, m: nat): Option<string>
    requires WellFormed(h.tree) && (|fragments| > 0 ==> IsElement(h.tree, el))
    requires 1 <= m
    decreases |fragments| + 1 - m
  {
    if m > |fragments| then None
    else if Uniqueness.IsUnique(h, el, Path(fragments, m)) then Some(Path(fragments, m))
    else Search(h, el, fragments, m + 1)
  }

  function ResolvedTypes(options: UniqueOptions): seq<SelectorType>
  {
    if options.selectorTypes.Some? then options.selectorTypes.value else DefaultSelectorTypes
  }

  function ResolvedIgnore(options: UniqueOptions): seq<string>
  {
    if options.attributesToIgnore.Some? then options.attributesToIgnore.value
    else Attributes.DefaultAttributesToIgnore
  }

  /** `allSelectors`: the non-empty per-element selectors of the chain. */
  function ChainFragments(h: Host, el: NodeId, options: UniqueOptions): (r: seq<string>)
    requires WellFormed(h.tree)
    ensures |r| > 0 ==> IsElement(h.tree, el)
  {
    var chain := Parents.AncestorChain(h.tree, el);
    Filter(Levels(h, chain, ResolvedTypes(options), ResolvedIgnore(options), options.excludeRegex), NonEmpty)
  }

  /** The reference definition of `unique`. */
  function UniqueSpec(h: Host, el: NodeId, options: UniqueOptions): Option<string>
    requires WellFormed(h.tree)
  {
    Search(h, el, ChainFragments(h, el, options), 1)
  }

  /** `unique(el, options)`: push the selector of every element of the chain,
      then unshift them one by one and return the first joined path that is
      unique. */
  method Unique(h: Host, el: NodeId, options: UniqueOptions) returns (r: Option<string>)
    requires WellFormed(h.tree)
    ensures r == UniqueSpec(h, el, options)
  {
    var selectorTypes := ResolvedTypes(options);
    var attributesToIgnore := ResolvedIgnore(options);
    var excludeRegex := options.excludeRegex;

    var parents := Parents.GetParents(h.tree, el);
    var allSelectors := CollectSelectors(h, parents, selectorTypes, attributesToIgnore, excludeRegex);
    assert allSelectors == ChainFragments(h, el, options);
    r := FirstUniquePath(h, el, allSelectors);
  }

  /** The first loop of `unique`: the non-empty selector of every element of
      the chain, in chain order. */
  method CollectSelectors(h: Host, parents: seq<NodeId>, selectorTypes: seq<SelectorType>,
                          attributesToIgnore: seq<string>, excludeRegex: Option<string -> bool>)
    returns (allSelectors: seq<string>)
    ensures allSelectors == Filter(Levels(h, parents, selectorTypes, attributesToIgnore, excludeRegex), NonEmpty)
  {
    allSelectors := [];
    for i := 0 to |parents|
      invariant allSelectors == Filter(Levels(h, parents[..i], selectorTypes, attributesToIgnore, excludeRegex), NonEmpty)
    {
      var selector := GetUniqueSelector(h, parents[i], selectorTypes, attributesToIgnore, excludeRegex);
      CollectStep(h, parents, i, selectorTypes, attributesToIgnore, excludeRegex);
      if selector != "" {
        allSelectors := allSelectors + [selector];
      }
    }
    assert parents[..|parents|] == parents;
  }

  /** One step of the first loop of `unique`: the next element's selector is
      kept exactly when it is non-empty. */
  lemma CollectStep(h: Host, parents: seq<NodeId>, i: nat, kinds: seq<SelectorType>, ignore: seq<string>,
                    excludeRegex: Option<string -> bool>)
    requires i < |parents|
    ensures var selector := UniqueSelectorFor(h, parents[i], kinds, ignore, excludeRegex);
      Filter(Levels(h, parents[..i + 1], kinds, ignore, excludeRegex), NonEmpty)
        == Filter(Levels(h, parents[..i], kinds, ignore, excludeRegex), NonEmpty)
           + (if selector != "" then [selector] else [])
  {
    assert parents[..i + 1] == parents[..i] + [parents[i]];
    LevelsSnoc(h, parents[..i], parents[i], kinds, ignore, excludeRegex);
    FilterSnoc(Levels(h, parents[..i], kinds, ignore, excludeRegex),
               UniqueSelectorFor(h, parents[i], kinds, ignore, excludeRegex), NonEmpty);
  }

  /** The second loop of `unique`: unshift the fragments one by one and return
      the first joined path that is unique. */
  method FirstUniquePath(h: Host, el: NodeId, allSelectors: seq<string>) returns (r: Option<string>)
    requires WellFormed(h.tree) && (|allSelectors| > 0 ==> IsElement(h.tree, el))
    ensures r == Search(h, el, allSelectors, 1)
  {
    var selectors: seq<string> := [];
    for j := 0 to |allSelectors|
      invariant selectors == Reverse(allSelectors[..j])
      invariant Search(h, el, allSelectors, j + 1) == Search(h, el, allSelectors, 1)
    {
      assert allSelectors[..j + 1][..j] == allSelectors[..j];
      selectors := [allSelectors[j]] + selectors;
      var selector := Join(selectors, " > ");
      assert selector == Path(allSelectors, j + 1);
      if Uniqueness.IsUnique(h, el, selector) {
        return Some(selector);
      }
    }
    return None;
  }

  /** A result of the suffix search is unique and is the shortest unique
      path from `m` on; the search fails exactly when no path is unique. */
  lemma {:induction false} SearchIsShortest(h: Host, el: NodeId, fragments: seq<string>, m: nat)
    requires WellFormed(h.tree) && (|fragments| > 0 ==> IsElement(h.tree, el))
    requires 1 <= m
    ensures var r := Search(h, el, fragments, m);
      && (r.None? <==> forall n :: m <= n <= |fragments| ==> !Uniqueness.IsUnique(h, el, Path(fragments, n)))
      && (r.Some? ==> exists n :: m <= n <= |fragments| && r.value == Path(fragments, n)
                       && Uniqueness.IsUnique(h, el, r.value)
                       && forall n' :: m <= n' < n ==> !Uniqueness.IsUnique(h, el, Path(fragments, n')))
    decreases |fragments| + 1 - m
  {
    if m <= |fragments| {
      if Uniqueness.IsUnique(h, el, Path(fragments, m)) {
        assert Search(h, el, fragments, m) == Some(Path(fragments, m));
      } else {
        SearchIsShortest(h, el, fragments, m + 1);
        var r := Search(h, el, fragments, m + 1);
        assert Search(h, el, fragments, m) == r;
        if r.Some? {
          var n :| m + 1 <= n <= |fragments| && r.value == Path(fragments, n)
                   && Uniqueness.IsUnique(h, el, r.value)
                   && forall n' :: m + 1 <= n' < n ==> !Uniqueness.IsUnique(h, el, Path(fragments, n'));
          assert forall n' :: m <= n' < n ==> !Uniqueness.IsUnique(h, el, Path(fragments, n'));
        }
      }
    }
  }

  /** If `unique` returns a selector, it is unique for the element in its
      document, it is the path of the start element and its `n - 1` nearest
      ancestors for the smallest such `n`, and `null` means that not even the
      full chain is unique. */
  lemma UniqueResult(h: Host, el: NodeId, options: UniqueOptions)
    requires WellFormed(h.tree)
    ensures var fragments := ChainFragments(h, el, options);
      var r := UniqueSpec(h, el, options);
      && (r.None? <==> forall n :: 1 <= n <= |fragments| ==> !Uniqueness.IsUnique(h, el, Path(fragments, n)))
      && (r.Some? ==> IsElement(h.tree, el) && Uniqueness.IsUnique(h, el, r.value)
                      && exists n :: 1 <= n <= |fragments| && r.value == Path(fragments, n)
                           && forall n' :: 1 <= n' < n ==> !Uniqueness.IsUnique(h, el, Path(fragments, n')))
  {
    SearchIsShortest(h, el, ChainFragments(h, el, options), 1);
  }

  /** Every element of the chain contributes exactly one fragment, in chain
      order. */
  lemma OneFragmentPerParent(h: Host, el: NodeId, options: UniqueOptions)
    requires WellFormed(h.tree)
    ensures var chain := Parents.AncestorChain(h.tree, el);
      ChainFragments(h, el, options)
        == Levels(h, chain, ResolvedTypes(options), ResolvedIgnore(options), options.excludeRegex)
    ensures |ChainFragments(h, el, options)| == |Parents.AncestorChain(h.tree, el)|
  {
    var chain := Parents.AncestorChain(h.tree, el);
    var levels := Levels(h, chain, ResolvedTypes(options), ResolvedIgnore(options), options.excludeRegex);
    Parents.AncestorChainShape(h.tree, el);
    forall x | x in levels ensures NonEmpty(x) {
      var i :| 0 <= i < |levels| && levels[i] == x;
      LevelsAt(h, chain, ResolvedTypes(options), ResolvedIgnore(options), options.excludeRegex, i);
      UniqueSelectorNonEmpty(h, chain[i], ResolvedTypes(options), ResolvedIgnore(options), options.excludeRegex);
    }
    FilterKeepsAll(levels, NonEmpty);
  }

  /** The path of the first `n` fragments ends with the start element's own
      fragment and begins with the `n`-th one. */
  lemma PathEnds(fragments: seq<string>, n: nat)
    requires 1 <= n <= |fragments|
    ensures Reverse(fragments[..n])[n - 1] == fragments[0]
    ensures Reverse(fragments[..n])[0] == fragments[n - 1]
  {
  }
}
