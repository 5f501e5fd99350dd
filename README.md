# unique-selector, modelled in Dafny

`unique-selector` builds, for a DOM element, a CSS selector that matches
that element and nothing else in its document. This project models its
selector-construction logic and proves what that logic promises.

The logic has three layers:

- **Fragments.** For each element on the chain from the start element up
  to the top-most element ancestor, `getUniqueSelector` computes the
  fragment of every requested kind: id, classes, type, `name`, `href`,
  attributes and `:nth-child()`.
- **Per-element choice.** `getUniqueSelector` applies `excludeRegex`. It
  then tries the kinds in the caller's order and keeps the first fragment
  it accepts, falling back to `*`. Every kind except `:nth-child()` is
  accepted only when it matches exactly the element among its parent's
  descendants; an `:nth-child()` fragment is accepted with no test at all.
  The class and attribute kinds try combinations of up to three
  fragments, plain first, then prefixed with the type selector.
- **Assembly.** `unique` joins the per-element fragments with ` > `,
  starting from the start element's own fragment and adding one ancestor
  at a time. It returns the first joined path that is unique in the
  document, or `null`.

## How the host is represented

- **The document** is a `Dom.Tree`: a finite map from node ids to node
  records. A record holds the kind (element, document, shadow root, text,
  comment), the parent link, the ordered child list, the tag name, the
  attribute list and the owner document.
  `Dom.WellFormed` states what any real DOM guarantees and the proofs rely
  on: a parent has a smaller id (the parent links are acyclic), a document
  or shadow root has no parent, and an element has a non-empty tag name and
  an owner document.
- **`querySelectorAll`** is the uninterpreted function `Host.query(scope,
  selector)`, returning the matched nodes in document order. Selector
  matching itself is not modelled.
- **`CSS.escape`** is the uninterpreted function `Host.escape`.
- **`excludeRegex.test`** is an uninterpreted predicate `string -> bool`.
- **`null`/`undefined`** are `Option.None`. A `Record` entry that
  `getAllSelectors` never wrote is a key absent from the `Selectors` map.
- **Imperative parts.** These become methods whose postconditions tie them
  to a reference function:
  - the `reduce` of `getAllSelectors`;
  - the `excludeRegex` rewrite and the kind loop of `getUniqueSelector`;
  - both loops of `unique`;
  - the shared-buffer recursion of `kCombinations`;
  - the loops of `getNthChild`, `getParents` and `getAttributes`.

  The properties are then proved about those reference functions. The pure
  parts (`getClasses`, `getTag`, the attribute-style fragment builders,
  `isUnique`, `testUniqueness`, `getFirstUnique`, `getUniqueCombination`)
  are functions.

## Model

| member | source | states |
|---|---|---|
| UniqueSelector.GetAllSelectors | src/index.ts:24-46 | the record holds exactly the requested kinds, each with the fragment its builder computes for the element |
| UniqueSelector.SelectorOf | src/index.ts:29-37 | the `funcs` table: the builder each kind dispatches to, applied to the element |
| UniqueSelector.AllSelectors | src/index.ts:39-45 | the reference for the `reduce`: a record with one entry per requested kind, holding that kind's fragment |
| UniqueSelector.OrNull | src/index.ts:29-37 | a builder's result, a string or `null`, as a record value |
| UniqueSelector.ComputeSelector | src/index.ts:29-37 | `funcs[kind](el)`: the fragment of one kind, computed by the loop-based builders where the source has loops |
| UniqueSelector.AllSelectorsDomain | src/index.ts:39-45 | a kind has an entry if and only if it is in `selectorTypes`; an unrequested kind is never computed |
| UniqueSelector.TestUniqueness | src/index.ts:54-59 | the query runs on the element's parent, and an element without a parent never passes |
| UniqueSelector.TestUniquenessMeaning | src/index.ts:54-59 | false when the element has no parent; otherwise true iff the parent-scoped query returns exactly one node and it is the element |
| UniqueSelector.FirstUniqueIsFirst | src/index.ts:67-69 | `find` returns the first entry that passes `testUniqueness`, every earlier entry fails, and `undefined` means that no entry passes |
| UniqueSelector.FirstUnique | src/index.ts:67-69 | `selectors.find(s => testUniqueness(el, s))`, with `undefined` as `None` |
| UniqueSelector.FirstUniqueUnique | src/index.ts:67-69 | a found entry is one of the candidates and passes `testUniqueness` |
| UniqueSelector.FirstUniqueFound | src/index.ts:67-69 | among non-empty candidates, `find` yields a truthy result iff some candidate passes `testUniqueness` |
| UniqueSelector.Prefixed | src/index.ts:87 | `map(c => tag + c)` keeps the number of combinations |
| UniqueSelector.PrefixedMembers | src/index.ts:87 | the prefixed list holds `tag + c` for every combination `c`, and nothing else |
| UniqueSelector.UniqueCombination | src/index.ts:78-96 | the result is `null` or a non-empty string |
| UniqueSelector.Truthy | src/index.ts:82 | JavaScript truthiness of a string that may be `null` or `undefined`: present and non-empty |
| UniqueSelector.UniqueCombinationResult | src/index.ts:78-96 | a result is non-empty and locally unique. It is a plain combination of up to three items, or a tag-prefixed one tried only after every plain one failed and only when a tag is given. The result is the first unique plain combination when there is one. Otherwise, with a tag, it is the first unique tag-prefixed combination or `null`; without a tag it is `null` |
| UniqueSelector.UniqueCombinationFails | src/index.ts:78-96 | for non-empty items, the result is `null` iff no combination is locally unique and, when a tag is given, no tag-prefixed combination is |
| UniqueSelector.Excluded | src/index.ts:116-126 | the `excludeRegex` rewrite of `elementSelectors`: ID and Class entries only |
| UniqueSelector.ExcludeId | src/index.ts:117-120 | a string ID the test matches becomes `null`; otherwise the record is unchanged |
| UniqueSelector.ExcludeClasses | src/index.ts:122-125 | a Class list is replaced by its entries the test does not match; otherwise the record is unchanged |
| UniqueSelector.ExcludedEffect | src/index.ts:116-126 | with `excludeRegex`: a string ID becomes `null` iff the test matches it; the Class list keeps, in order, exactly the entries the test does not match, each as often as before; every other entry and the set of kinds stay unchanged |
| UniqueSelector.GetUniqueSelector | src/index.ts:106-182 | the in-place rewrite of `elementSelectors` followed by the kind loop computes the reference selector for the element |
| UniqueSelector.TryInOrder | src/index.ts:128-181 | the `for`/`switch` loop with its early returns yields the first accepted fragment in `selectorTypes` order, or `*` |
| UniqueSelector.PickFirstStep | src/index.ts:128-180 | one iteration: return the current kind's accepted fragment if there is one, otherwise continue with the remaining kinds |
| UniqueSelector.PickFirstIsFirst | src/index.ts:128-181 | kinds are tried strictly in order: the result is the fragment of the first kind that accepts one, and `*` when none does |
| UniqueSelector.TryKind | src/index.ts:131-178 | one `switch` case: the fragment the loop returns for that kind, or `None` to go on |
| UniqueSelector.PickFirst | src/index.ts:128-181 | the kind loop as a recursion over `selectorTypes`, ending in `*` |
| UniqueSelector.UniqueSelectorFor | src/index.ts:106-182 | `getUniqueSelector` of one element: its fragments, the `excludeRegex` rewrite, then the kind loop |
| UniqueSelector.TryKindAccepts | src/index.ts:131-178 | ID, Tag, Name and Href are accepted iff they are strings passing `testUniqueness`. Class and Attributes are tried only for a non-empty list, and then the result is `getUniqueCombination` of that list with the tag argument: a plain combination of up to three entries, or a tag-prefixed one when a tag is given. NthChild is accepted whenever it is a string, with no test |
| UniqueSelector.AllSelectorsNonEmpty | src/index.ts:24-46 | for an element, every string fragment and every listed fragment is non-empty |
| UniqueSelector.ExcludedNonEmpty | src/index.ts:116-126 | the `excludeRegex` rewrite introduces no empty fragment |
| UniqueSelector.PickFirstNonEmpty | src/index.ts:128-181 | over non-empty fragments, the kind loop returns a non-empty string |
| UniqueSelector.UniqueSelectorNonEmpty | src/index.ts:106-182 | `getUniqueSelector` never returns the empty string for an element |
| UniqueSelector.TagArgument | src/index.ts:158 | `typeof Tag === 'string' ? Tag : undefined` |
| UniqueSelector.TagArgumentOnlyWithTag | src/index.ts:158 | the tag handed to `getUniqueCombination` exists iff `Tag` is in `selectorTypes`, and it is the element's type selector |
| UniqueSelector.Unique | src/index.ts:191-218 | `unique(el, options)`, with `selectorTypes` and `attributesToIgnore` defaulted when left out, equals the reference search over the chain's fragments |
| UniqueSelector.CollectSelectors | src/index.ts:198-206 | the first loop collects the non-empty selector of every element of the chain, in chain order |
| UniqueSelector.CollectStep | src/index.ts:202-205 | one iteration of the first loop appends the element's selector iff it is non-empty |
| UniqueSelector.Levels | src/index.ts:201-202 | one selector per element of the chain |
| UniqueSelector.LevelsSnoc | src/index.ts:201-202 | one more element on the chain appends exactly its selector |
| UniqueSelector.LevelsAt | src/index.ts:201-202 | the i-th selector belongs to the i-th element of the chain |
| UniqueSelector.Path | src/index.ts:209-211 | the fragments of the start element and its `m - 1` nearest element ancestors, outermost first, joined with ` > ` |
| UniqueSelector.Search | src/index.ts:208-217 | the second loop: the first path, from length `m` up, that `isUnique` accepts, or `null` |
| UniqueSelector.ResolvedTypes | src/index.ts:192-196 | `selectorTypes`, defaulted to `['ID', 'Class', 'Tag', 'Name', 'Href', 'NthChild']` when left out |
| UniqueSelector.ResolvedIgnore | src/index.ts:192-196 | `attributesToIgnore`, defaulted to `['id', 'class', 'length']` when left out |
| UniqueSelector.UniqueSpec | src/index.ts:191-218 | `unique` as a value: the defaulted options, the chain's non-empty fragments, then the search |
| UniqueSelector.FirstUniquePath | src/index.ts:208-217 | the second loop, unshifting and joining with ` > `, returns the reference search result |
| UniqueSelector.ChainFragments | src/index.ts:198-206 | a non-empty `allSelectors` means the start node is an element |
| UniqueSelector.SearchIsShortest | src/index.ts:208-217 | the search returns the shortest unique path from a given length on, and fails iff no such path is unique |
| UniqueSelector.UniqueResult | src/index.ts:208-217 | a non-null result is unique in the document (`isUnique` holds) and is the shortest such path: the fragments of the start element and its `n - 1` nearest element ancestors, outermost first, with every shorter path not unique. `null` means that no path, not even the full chain, is unique |
| UniqueSelector.OneFragmentPerParent | src/index.ts:199-206 | `allSelectors` has exactly one entry per element `getParents` returns, since no entry is dropped as empty |
| UniqueSelector.PathEnds | src/index.ts:209-211 | the list `selectors` holds after `n` unshifts, the first `n` fragments reversed, begins with the `n`-th fragment and ends with the start element's own |
| Combinations.Subsets | src/getCombinations.ts:25-27 | the index sets of size m drawn from `[lo, n)`, in the order the recursion visits them |
| Combinations.Pushed | src/getCombinations.ts:11-29 | the strings `kCombinations` pushes from one depth for a given buffer prefix |
| Combinations.Pick | src/getCombinations.ts:26 | the items the buffer holds for one index set, `data[index] = items[i]` at each depth |
| Combinations.Combinations | src/getCombinations.ts:37-47 | `getCombinations(items, k)` as a value: the rounds of size 1 to k in turn |
| Combinations.KCombinations | src/getCombinations.ts:11-29 | the recursion over the shared buffer appends exactly the reference enumeration for the current prefix. It leaves the buffer's prefix as it found it, and every branch the prune lets through pushes at least one string |
| Combinations.GetCombinations | src/getCombinations.ts:37-47 | `getCombinations(items, k)` equals the reference enumeration, sizes 1 to k in turn |
| Combinations.PushedTooFew | src/getCombinations.ts:25 | the feasibility prune only skips branches that would push nothing |
| Combinations.PushedNonEmpty | src/getCombinations.ts:20-27 | every branch the loop enters reaches depth k and pushes a string |
| Combinations.PushedIsRender | src/getCombinations.ts:20-28 | the strings pushed from a depth are the buffer prefix joined with the items of each index set of that size, in enumeration order |
| Combinations.Render | src/getCombinations.ts:21 | one joined string per index set |
| Combinations.RenderAppend | src/getCombinations.ts:21 | rendering a concatenation of index-set lists concatenates the renderings |
| Combinations.RenderAt | src/getCombinations.ts:21 | the k-th rendered string is the buffer prefix and the items of the k-th index set, joined |
| Combinations.RenderCons | src/getCombinations.ts:26-27 | writing `items[x]` into the buffer and recursing renders the index sets that start with `x` |
| Combinations.RenderSplit | src/getCombinations.ts:25-28 | the sets of size m drawn from `[lo, n)` render as those holding `lo`, followed by those without it |
| Combinations.CombinationsIsRender | src/getCombinations.ts:42-44 | the output is the rendering of the index enumeration with an empty buffer prefix |
| Combinations.CombinationsAreGluedIndices | src/getCombinations.ts:20-44 | entry i concatenates, with no separator and in increasing index order, the items at the i-th index set |
| Combinations.CombinationIndicesMembers | src/getCombinations.ts:42-44 | the index sets listed are exactly the strictly increasing position sequences of length 1 to k |
| Combinations.CombinationIndicesDistinct | src/getCombinations.ts:42-44 | no index set is listed twice, so every subset appears exactly once |
| Combinations.CombinationIndicesOrdered | src/getCombinations.ts:25-42 | all entries of size l precede those of size l + 1; within a size the order is strictly lexicographic |
| Combinations.CombinationIndicesShorter | src/getCombinations.ts:42 | no index set is longer than k |
| Combinations.SubsetsShape | src/getCombinations.ts:25-27 | every enumerated set has m strictly increasing indices in `[lo, n)` |
| Combinations.SubsetsComplete | src/getCombinations.ts:25-27 | every set of m strictly increasing indices in `[lo, n)` is enumerated |
| Combinations.SubsetsSorted | src/getCombinations.ts:25 | the sets of one size come out in strictly increasing lexicographic order |
| Combinations.SubsetsCount | src/getCombinations.ts:25-27 | there are C(n - lo, m) sets of size m in `[lo, n)` |
| Combinations.ConsIncreasing | src/getCombinations.ts:26-27 | putting `lo` in front of an increasing set drawn from above `lo` keeps it increasing |
| Combinations.ConsSorted | src/getCombinations.ts:26-27 | a common first index keeps lexicographic order |
| Combinations.SortedAppend | src/getCombinations.ts:25 | sorted blocks whose entries are all in order across the blocks concatenate to a sorted list |
| Combinations.OrderedAppend | src/getCombinations.ts:42 | blocks in size-then-lexicographic order concatenate in that order |
| Combinations.LexLessCons | src/getCombinations.ts:26 | lexicographic order survives a common first element |
| Combinations.LexLessIrreflexive | src/getCombinations.ts:25 | no index set lexicographically precedes itself |
| Combinations.CombinationsCount | src/getCombinations.ts:42-44 | the output has C(n, 1) + … + C(n, k) entries |
| Combinations.SumBinomialsCapped | src/getCombinations.ts:25 | sizes above n add nothing, so the count is the sum up to min(k, n) |
| Combinations.BinomialAbove | src/getCombinations.ts:25 | C(n, m) is 0 when m exceeds n |
| Combinations.CombinationsEmpty | src/getCombinations.ts:25-42 | empty `items` or `k = 0` gives `[]` |
| Combinations.CombinationsNonEmpty | src/getCombinations.ts:21 | combinations of non-empty items are non-empty |
| Combinations.CombinationsExample | src/getCombinations.ts:37-47 | `getCombinations(['a','b','c'], 2)` is `['a','b','c','ab','ac','bc']` |
| Combinations.SinglesExample | src/getCombinations.ts:42-44 | the size-1 round of that example is `['a','b','c']` |
| Combinations.PairsExample | src/getCombinations.ts:42-44 | the size-2 round of that example is `['ab','ac','bc']` |
| NthChild.NthChildFragment | src/getNthChild.ts:8-28 | the reference fragment: `null` without a parent, otherwise the count among the parent's children |
| NthChild.FragmentAmong | src/getNthChild.ts:15-25 | the loop's outcome over a child list: the fragment for the number of element children up to and including the element, or `null` when it is not an element child |
| NthChild.NthChildSelector | src/getNthChild.ts:22 | `:nth-child(${counter})` |
| NthChild.GetNthChild | src/getNthChild.ts:8-28 | no parent gives `null`; otherwise the result is the reference fragment among the parent's children |
| NthChild.CountToElement | src/getNthChild.ts:15-25 | the loop counts element siblings up to and including the element and returns `:nth-child(counter)`, or `null` when the element is not an element child |
| NthChild.NthChildCounter | src/getNthChild.ts:14-27 | the result is non-null iff there is a parent and the node is one of its element children; then the counter is between 1 and the number of element children |
| NthChild.CountElements | src/getNthChild.ts:19-20 | the counter never exceeds the number of siblings seen |
| NthChild.CountPrefixMonotone | src/getNthChild.ts:17-20 | the counter never decreases along the child list |
| NthChild.CountStrictlyUp | src/getNthChild.ts:19-20 | each later element sibling has a strictly larger counter |
| NthChild.NthChildSelectorInjective | src/getNthChild.ts:22 | different counters give different `:nth-child()` fragments |
| NthChild.NthChildDistinct | src/getNthChild.ts:17-23 | two different element children of one parent get different fragments |
| NthChild.Decimal | src/getNthChild.ts:22 | the counter is written as a non-empty string of decimal digits |
| NthChild.DecimalRoundTrip | src/getNthChild.ts:22 | reading those digits back gives the counter |
| NthChild.IndexOf | src/getNthChild.ts:21 | the first position at which the element occurs among the children |
| NthChild.NthChildExample | src/getNthChild.ts:17-23 | among a text node, an element, a comment and a second element, the second element gets `:nth-child(2)` (text and comment are not counted) |
| Parents.GetParents | src/getParents.ts:8-18 | the `while` loop returns the ancestor chain of the node |
| Parents.AncestorChain | src/getParents.ts:12-14 | an element comes first in its own chain; a non-element gives `[]` |
| Parents.ChainFrom | src/getParents.ts:12-16 | the chain from a nullable `currentElement`: `[]` for `null` |
| Parents.AncestorChainShape | src/getParents.ts:12-14 | every member is an element; each later member is the previous member's parent; the last member's parent is not an element |
| Parents.AncestorChainRootward | src/getParents.ts:12-14 | the chain climbs strictly toward the root, so no node occurs twice |
| Parents.AncestorChainBelow | src/getParents.ts:12-14 | every chain member's id is smaller than any bound above the start node's id |
| Classes.ClassNames | src/getClasses.ts:16-26 | the fallback path on the `class` value: no value or an empty one gives `[]`, otherwise the non-empty pieces of the trimmed, split value |
| Classes.GetClasses | src/getClasses.ts:7-28 | `getClasses` reads the `class` attribute and takes the fallback path |
| Classes.ClassSelectors | src/getClasses.ts:35-38 | `.` and the escaped name for each non-empty name |
| Classes.GetClassSelectors | src/getClasses.ts:35-38 | `getClassSelectors` over the element's class names |
| Classes.ClassNamesAreTokens | src/getClasses.ts:16-26 | fallback class names are non-empty and free of white space |
| Classes.ClassNamesRoundTrip | src/getClasses.ts:16-26 | reading back a space-separated attribute of tokens gives the same tokens, in order, with repetitions |
| Classes.ClassNamesKeepDuplicates | src/getClasses.ts:22-26 | a repeated class name is not de-duplicated |
| Classes.ClassSelectorsShape | src/getClasses.ts:35-38 | one selector per non-empty name, in order, each `.` followed by the escaped name |
| Classes.GetClassSelectorsOnePerClass | src/getClasses.ts:35-38 | `getClassSelectors` returns as many selectors as `getClasses` returns names |
| Classes.SplitPiecesNoSpace | src/getClasses.ts:26 | no piece of `split(/\s+/)` contains white space |
| Classes.SplitWord | src/getClasses.ts:26 | a word followed by white space or the end of the string is one piece |
| Classes.SplitJoin | src/getClasses.ts:26 | splitting a space-joined list of tokens gives the tokens back |
| Classes.JoinIsTrimmed | src/getClasses.ts:23 | a space-joined list of tokens has nothing to trim |
| Classes.JoinEnds | src/getClasses.ts:23 | a space-joined list ends with its last token's last character |
| Classes.Split | src/getClasses.ts:26 | `split` always yields at least one piece |
| Classes.IsSpace | src/getClasses.ts:23 | the characters `trim` and `\s` treat as white space |
| Classes.Trim | src/getClasses.ts:23 | `trim()`: the leading and the trailing white space dropped |
| Classes.TrimStart | src/getClasses.ts:23 | the result is a suffix of the input whose dropped prefix is all white space, and does not start with white space |
| Classes.TrimEnd | src/getClasses.ts:23 | the result is a prefix of the input whose dropped suffix is all white space, and does not end with white space |
| AttributeSelector.GetAttributeSelector | src/getAttribute.ts:8-21 | `getAttributeSelector(el, attribute)` on the element's attribute value |
| IdSelector.GetID | src/getID.ts:6-14 | `getID` on the element's `id` attribute |
| NameSelector.GetName | src/getName.ts:6-13 | `getName` on the element's `name` attribute |
| HrefSelector.GetHref | src/getHref.ts:6-13 | `getHref` on the element's `href` attribute |
| Attributes.GetAttributes | src/getAttributes.ts:7-17 | the `reduce` pushing into `sum` returns the fragments of the kept attributes |
| Attributes.AttributeFragment | src/getAttributes.ts:13 | the `[name="escape(value)"]` string pushed for one attribute |
| Attributes.NotIgnored | src/getAttributes.ts:12 | the test `!(attributesToIgnore.indexOf(next.nodeName) > -1)` |
| Attributes.KeptAttributes | src/getAttributes.ts:12 | the attributes the test keeps, in attribute order |
| Attributes.AttributeSelectors | src/getAttributes.ts:11-16 | the reference for the `reduce`: the fragment of each kept attribute, in order |
| Attributes.GetAttributesOf | src/getAttributes.ts:7-17 | `getAttributes(el, attributesToIgnore)` on the element's attribute list |
| Attributes.AttributeSelectorsKept | src/getAttributes.ts:11-16 | the output follows attribute order, with exactly one `[name="escape(value)"]` per attribute whose name is not ignored |
| Attributes.AllIgnored | src/getAttributes.ts:12 | ignored attributes contribute nothing |
| Attributes.NothingIgnored | src/getAttributes.ts:12 | with an empty ignore list, there is one fragment per attribute |
| Attributes.DefaultIgnoresIdAndClass | src/getAttributes.ts:7-12 | with the default list, no fragment comes from `id`, `class` or `length` |
| AttributeSelector.AttributeSelectorFor | src/getAttribute.ts:11-20 | the builder on a nullable value: `null`, `[attr="escape(value)"]` for a non-empty value, `[attr]` for `""` |
| IdSelector.IdSelectorFor | src/getID.ts:9-13 | `#escape(id)` for a non-null, non-empty id, otherwise `null` |
| NameSelector.NameSelectorFor | src/getName.ts:9-12 | `[name="escape(name)"]` for a non-null, non-empty name, otherwise `null` |
| HrefSelector.HrefSelectorFor | src/getHref.ts:9-12 | `[href="escape(href)"]` for a non-null, non-empty href, otherwise `null` |
| AttributeSelector.AttributeSelectorCases | src/getAttribute.ts:8-21 | `null` iff the attribute is absent. An empty value gives `[attr]`, a non-empty value gives exactly `[attr="escape(value)"]`. A non-null result starts with `[` and the attribute name and ends with `]` |
| IdSelector.IdSelectorCases | src/getID.ts:6-14 | `null` iff the id is absent or empty; otherwise `#` followed by the escaped id |
| NameSelector.NameSelectorCases | src/getName.ts:6-13 | `null` iff `name` is absent or empty; otherwise the `[name="…"]` selector of the generic attribute builder, starting with `[name=` |
| HrefSelector.HrefSelectorCases | src/getHref.ts:6-13 | `null` iff `href` is absent or empty; otherwise the `[href="…"]` selector of the generic attribute builder, starting with `[href=` |
| Tag.TagSelector | src/getTag.ts:6-8 | `getTag`: the lower-cased tag name with every `:` escaped |
| Tag.TagSelectorLowerCase | src/getTag.ts:7 | the type selector holds no upper-case ASCII letter |
| Tag.TagSelectorColonsEscaped | src/getTag.ts:7 | every `:` in it is immediately preceded by `\` |
| Tag.TagSelectorLength | src/getTag.ts:7 | its length is the tag name's length plus the number of `:` in it |
| Tag.TagSelectorPlain | src/getTag.ts:7 | a lower-case tag name without `:` is returned unchanged |
| Tag.TagSelectorRoundTrip | src/getTag.ts:7 | un-escaping gives back the lower-cased tag name |
| Tag.TagSelectorNonEmpty | src/getTag.ts:7 | a non-empty tag name gives a non-empty type selector |
| Tag.TagSelectorExample | src/getTag.ts:7 | `DIV:X` becomes `div\:x` |
| Tag.ToLower | src/getTag.ts:7 | lower-casing keeps the length and maps every character on its own |
| Tag.EscapeColons | src/getTag.ts:7 | `replace(/:/g, '\\:')`: every `:` becomes `\:` |
| Tag.EscapeKeepsLower | src/getTag.ts:7 | escaping `:` adds no upper-case letter |
| Tag.EscapedColonsPreceded | src/getTag.ts:7 | after `replace(/:/g, '\\:')` every `:` follows a backslash |
| Tag.EscapeNeverStartsWithColon | src/getTag.ts:7 | an escaped string never starts with a bare `:` |
| Tag.EscapeLength | src/getTag.ts:7 | escaping adds one character per `:` |
| Tag.LowerKeepsColons | src/getTag.ts:7 | lower-casing keeps the number of `:` |
| Tag.EscapePlain | src/getTag.ts:7 | a string without `:` is left as it is |
| Tag.EscapeRoundTrip | src/getTag.ts:7 | un-escaping undoes the escaping |
| Uniqueness.IsUnique | src/isUnique.ts:7-13 | `isUnique`: a non-empty selector whose query, run on the root node when that is a document and on the owner document otherwise, returns exactly the element |
| Uniqueness.IsUniqueMeaning | src/isUnique.ts:7-13 | the empty selector is never unique; otherwise unique iff the query returns exactly one node and it is the element |
| Uniqueness.QueryRoot | src/isUnique.ts:9-10 | the query scope is a document node of the tree |
| Uniqueness.QueryRootIsDocument | src/isUnique.ts:9-10 | the scope is the root node when that is a document, and is never a shadow root |
| Dom.GetAttribute | src/getAttribute.ts:9 | `el.getAttribute(name)`: the value of the first attribute of that name, `null` when there is none |
| Dom.IsElement | src/getParents.ts:12 | `isElement(n)`: the node is in the tree and is an element |
| Dom.IsSomeElement | src/getParents.ts:12 | `isElement(currentElement)` on a nullable node: `null` is no element |
| Dom.FindAttribute | src/getAttribute.ts:9 | `getAttribute` finds a value iff some attribute has that name |
| Dom.ParentOf | src/getParents.ts:14 | in a well-formed tree a parent is a node of the tree with a smaller id |
| Dom.RootNode | src/isUnique.ts:9 | `getRootNode()` returns the node reached from the element by following parent links `RootDistance` times, and that node has no parent |
| Dom.Up | src/isUnique.ts:9 | the node `k` parent steps above a node, if the chain is that long |
| Dom.RootDistance | src/isUnique.ts:9 | the number of parent steps from a node to the first node without a parent |
| Dom.RootNodeIsChainEnd | src/isUnique.ts:9 | every node before the root on the parent chain has a parent, and the chain ends at the root |
| Seqs.Filter | src/getClasses.ts:26 | `filter` never lengthens the list |
| Seqs.FilterKeeps | src/index.ts:124 | `filter` keeps a subsequence holding exactly the elements that pass, with their multiplicities |
| Seqs.FilterKeepsAll | src/getClasses.ts:36 | filtering with a predicate that every element passes keeps the list as it is |
| Seqs.FilterSnoc | src/getAttributes.ts:11-16 | one more element at the end is kept iff it passes |
| Seqs.Join | src/index.ts:211 | `join(sep)`: the parts with `sep` between consecutive ones |
| Seqs.JoinNonEmpty | src/index.ts:211 | joining a list whose first part is non-empty gives a non-empty string whose first characters are that part |
| Seqs.Reverse | src/index.ts:210 | repeated `unshift` lists the parts back to front |

## Left out

- `isElement` (src/isElement.ts) is not part of this model. Whether a node is an element is its `kind` in the tree.
- src/types.ts only declares types. `SelectorType` and `UniqueOptions` are the datatypes of the same names. rslib.config.ts is build configuration.
- Selector matching: `querySelectorAll` is the uninterpreted `Host.query`, so no property depends on how selectors match.
- `CSS.escape` is the uninterpreted `Host.escape`. No property needs it to be non-empty, because every fragment has a non-empty literal part.
- `excludeRegex.test` is an uninterpreted predicate. The `lastIndex` state of a global regular expression, which can make repeated `test` calls disagree, is not modelled.
- Classes.GetClasses: the `classList` branch of `getClasses` (DOM-provided, src/getClasses.ts:14) is not modelled. The function is the `trim`/`split` fallback path.
- Tag.ToLower: only ASCII letters are lower-cased; the full Unicode case mapping of `toLowerCase` is not modelled.
- JavaScript exceptions are not modelled. `querySelectorAll` throws a `SyntaxError` on a selector that does not parse. Such a selector can arise, for example, from an attribute named `@click` or `:href`, whose name src/getAttributes.ts:13 inserts unescaped. Nothing catches the error: it propagates from `testUniqueness` (src/index.ts:57) or `isUnique` (src/isUnique.ts:11) out of `unique`. The model's `Host.query` always returns a list.
- Parents.GetParents and UniqueSelector.Unique require a well-formed tree, because the model's termination rests on acyclic parent links, which a real DOM guarantees.
- Combinations.KCombinations: the source's `data` starts as an empty JavaScript array that grows on write. The model uses an array of length `k` filled with `""`; only `data[0..index)` is ever read.
- Combinations.Pick: a position outside `items` would contribute `""`; the enumeration never produces one.
- UniqueSelector.GetUniqueSelector: the source's `instanceof RegExp` check is not modelled; any given `excludeRegex` is applied.
- UniqueSelector.TryInOrder, UniqueSelector.ComputeSelector, UniqueSelector.CollectSelectors, UniqueSelector.FirstUniquePath and NthChild.CountToElement are the loops and the `reduce` callback of their sources, written as separate methods.
- UniqueSelector.UniqueCombination: `getFirstUnique` and `getUniqueCombination` are pure functions over the reference enumeration `Combinations.Combinations`, which `Combinations.GetCombinations` is proved to compute.
