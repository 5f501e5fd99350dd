/** `getClasses` and `getClassSelectors`: the class names of an element, read
    from its `class` attribute by trimming and splitting on white space, and
    the `.name` selectors built from them. */
module Classes {
  import opened Wrappers
  import opened Seqs
  import opened Dom

  /** The characters JavaScript's `trim` and `\s` treat as white space: the
      WhiteSpace and LineTerminator productions of ECMAScript. */
  predicate IsSpace(c: char)
  {
    var k := c as int;
    k == 9 || k == 10 || k == 11 || k == 12 || k == 13 || k == 32 || k == 0xA0
    || k == 0x1680 || (0x2000 <= k <= 0x200A) || k == 0x2028 || k == 0x2029
    || k == 0x202F || k == 0x205F || k == 0x3000 || k == 0xFEFF
  }

  predicate NoSpace(s: string)
  {
    forall i :: 0 <= i < |s| ==> !IsSpace(s[i])
  }

  /** Every character is white space. */
  predicate AllSpace(s: string)
  {
    s == [] || (IsSpace(s[0]) && AllSpace(s[1..]))
  }

  lemma {:induction false} AllSpaceSnoc(s: string, c: char)
    requires AllSpace(s) && IsSpace(c)
    ensures AllSpace(s + [c])
  {
    if s != [] {
      assert (s + [c])[1..] == s[1..] + [c];
      AllSpaceSnoc(s[1..], c);
    }
  }

  /** `trimStart()`: drops the leading white space. */
  function TrimStart(s: string): (r: string)
    ensures |r| <= |s|
    ensures r != [] ==> !IsSpace(r[0])
    ensures s != [] && IsSpace(s[0]) ==> |r| < |s|
    ensures r == s[|s| - |r|..]
    ensures AllSpace(s[..|s| - |r|])
  {
    if s != [] && IsSpace(s[0]) then
      var r := TrimStart(s[1..]);
      assert s[..|s| - |r|][1..] == s[1..][..|s| - 1 - |r|];
      r
    else
      s
  }

  /** `trimEnd()`: drops the trailing white space. */
  function TrimEnd(s: string): (r: string)
    ensures r != [] ==> !IsSpace(r[|r| - 1])
    ensures |r| <= |s| && r == s[..|r|]
    ensures AllSpace(s[|r|..])
  {
    if s != [] && IsSpace(s[|s| - 1]) then
      var r := TrimEnd(s[..|s| - 1]);
      assert s[|r|..] == s[..|s| - 1][|r|..] + [s[|s| - 1]];
      AllSpaceSnoc(s[..|s| - 1][|r|..], s[|s| - 1]);
      r
    else
      s
  }

  /** `trim()`. */
  function Trim(s: string): string
  {
    TrimEnd(TrimStart(s))
  }

  /** `split(/\s+/g)`: the pieces between maximal runs of white space. A
      leading or trailing run yields an empty piece and the empty string
      splits into one empty piece. */
  function Split(s: string): (r: seq<string>)
    ensures |r| > 0
    decreases |s|
  {
    if s == [] then [""]
    else if IsSpace(s[0]) then [""] + Split(TrimStart(s))
    else
      var rest := Split(s[1..]);
      [[s[0]] + rest[0]] + rest[1..]
  }

  /** The fallback path of `getClasses`, given `getAttribute('class')`: no
      attribute or an empty one gives no names; otherwise the non-empty pieces
      of the trimmed value, in order and with repetitions. */
  function ClassNames(attr: Option<string>): seq<string>
  {
    if attr.None? || attr.value == "" then []
    else Filter(Split(Trim(attr.value)), NonEmpty)
  }

  function GetClasses(t: Tree, el: NodeId): seq<string>
  {
    ClassNames(GetAttribute(t, el, "class"))
  }

  /** `getClassSelectors`: `.` followed by the escaped name, for every
      non-empty name. */
  function ClassSelectors(escape: string -> string, names: seq<string>): (r: seq<string>)
  {
    var kept := Filter(names, NonEmpty);
    seq(|kept|, i requires 0 <= i < |kept| => "." + escape(kept[i]))
  }

  function GetClassSelectors(h: Host, el: NodeId): seq<string>
  {
    ClassSelectors(h.escape, GetClasses(h.tree, el))
  }

  /** Every piece of a split is free of white space. */
  lemma {:induction false} SplitPiecesNoSpace(s: string)
    ensures forall p :: p in Split(s) ==> NoSpace(p)
    decreases |s|
  {
    if s != [] {
      if IsSpace(s[0]) {
        SplitPiecesNoSpace(TrimStart(s));
      } else {
        SplitPiecesNoSpace(s[1..]);
        var rest := Split(s[1..]);
        assert rest[0] in rest;
        forall p | p in Split(s) ensures NoSpace(p) {
          if p != [s[0]] + rest[0] {
            assert p in rest[1..];
          }
        }
      }
    }
  }

  /** Class names are non-empty and contain no white space. */
  lemma ClassNamesAreTokens(attr: Option<string>)
    ensures forall c :: c in ClassNames(attr) ==> c != "" && NoSpace(c)
  {
    if attr.Some? && attr.value != "" {
      SplitPiecesNoSpace(Trim(attr.value));
      FilterKeeps(Split(Trim(attr.value)), NonEmpty);
    }
  }

  /** Splitting a word followed by a string that starts with white space (or is
      empty) glues the word onto the first piece. */
  lemma {:induction false} SplitWord(w: string, x: string)
    requires NoSpace(w)
    requires x == [] || IsSpace(x[0])
    ensures Split(w + x) == [w + Split(x)[0]] + Split(x)[1..]
    decreases |w|
  {
    var sx := Split(x);
    if w == [] {
      assert w + x == x;
      assert w + sx[0] == sx[0];
      assert [sx[0]] + sx[1..] == sx;
    } else {
      SplitWord(w[1..], x);
      var rest := Split(w[1..] + x);
      assert (w + x)[0] == w[0] && (w + x)[1..] == w[1..] + x;
      assert Split(w + x) == [[w[0]] + rest[0]] + rest[1..];
      assert rest[0] == w[1..] + sx[0] && rest[1..] == sx[1..];
      assert [w[0]] + (w[1..] + sx[0]) == w + sx[0];
      assert Split(w + x) == [w + sx[0]] + sx[1..];
    }
  }

  /** Splitting the space-separated join of tokens gives the tokens back. */
  lemma {:induction false} SplitJoin(tokens: seq<string>)
    requires |tokens| > 0
    requires forall i :: 0 <= i < |tokens| ==> tokens[i] != "" && NoSpace(tokens[i])
    ensures Split(Join(tokens, " ")) == tokens
  {
    if |tokens| == 1 {
      SplitWord(tokens[0], "");
      assert tokens[0] + "" == tokens[0];
    } else {
      var rest := Join(tokens[1..], " ");
      SplitJoin(tokens[1..]);
      JoinNonEmpty(tokens[1..], " ");
      assert !IsSpace(rest[0]) by { assert rest[0] == tokens[1][0]; }
      assert TrimStart(rest) == rest;
      assert (" " + rest)[1..] == rest;
      assert TrimStart(" " + rest) == rest;
      assert Split(" " + rest) == [""] + tokens[1..];
      SplitWord(tokens[0], " " + rest);
      assert Join(tokens, " ") == tokens[0] + (" " + rest);
      assert tokens[0] + "" == tokens[0];
      assert [tokens[0]] + tokens[1..] == tokens;
    }
  }

  /** The space-separated join of non-empty tokens has nothing to trim. */
  lemma JoinIsTrimmed(tokens: seq<string>)
    requires |tokens| > 0
    requires forall i :: 0 <= i < |tokens| ==> tokens[i] != "" && NoSpace(tokens[i])
    ensures Trim(Join(tokens, " ")) == Join(tokens, " ")
  {
    var j := Join(tokens, " ");
    JoinNonEmpty(tokens, " ");
    JoinEnds(tokens);
  }

  lemma {:induction false} JoinEnds(tokens: seq<string>)
    requires |tokens| > 0
    requires forall i :: 0 <= i < |tokens| ==> tokens[i] != ""
    ensures var j := Join(tokens, " ");
      j != [] && j[|j| - 1] == tokens[|tokens| - 1][|tokens[|tokens| - 1]| - 1]
  {
    if |tokens| > 1 {
      JoinEnds(tokens[1..]);
    }
  }

  /** Joining class tokens with spaces and reading the attribute back yields
      the same tokens in the same order: nothing is reordered, merged or
      de-duplicated. */
  lemma ClassNamesRoundTrip(tokens: seq<string>)
    requires forall i :: 0 <= i < |tokens| ==> tokens[i] != "" && NoSpace(tokens[i])
    ensures ClassNames(Some(Join(tokens, " "))) == tokens
  {
    if tokens != [] {
      JoinNonEmpty(tokens, " ");
      JoinIsTrimmed(tokens);
      SplitJoin(tokens);
      FilterKeepsAll(tokens, NonEmpty);
    }
  }

  /** A repeated class name is kept twice. */
  lemma ClassNamesKeepDuplicates()
    ensures ClassNames(Some("btn btn")) == ["btn", "btn"]
  {
    assert Join(["btn", "btn"], " ") == "btn btn";
    ClassNamesRoundTrip(["btn", "btn"]);
  }

  /** One selector per non-empty name, in order, each the escaped name behind
      a dot; names produced by `ClassNames` are all kept. */
  lemma ClassSelectorsShape(escape: string -> string, names: seq<string>)
    ensures var r := ClassSelectors(escape, names);
      && |r| == |Filter(names, NonEmpty)|
      && (forall i :: 0 <= i < |r| ==> r[i][0] == '.' && r[i][1..] == escape(Filter(names, NonEmpty)[i]))
  {
  }

  lemma GetClassSelectorsOnePerClass(h: Host, el: NodeId)
    ensures |GetClassSelectors(h, el)| == |GetClasses(h.tree, el)|
  {
    var names := GetClasses(h.tree, el);
    ClassNamesAreTokens(GetAttribute(h.tree, el, "class"));
    FilterKeepsAll(names, NonEmpty);
  }
}
