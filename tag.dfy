/** `getTag`: the type selector of an element, its tag name lower-cased with
    every `:` escaped as `\:` so that a namespaced name is not read as a
    pseudo-class. */
module Tag {

  predicate IsUpper(c: char)
  {
    'A' <= c <= 'Z'
  }

  /** ASCII lower-casing of one character. */
  function LowerChar(c: char): char
  {
    if IsUpper(c) then (c as int - 'A' as int + 'a' as int) as char else c
  }

  /** `toLowerCase()` restricted to ASCII letters. */
  function ToLower(s: string): (r: string)
    ensures |r| == |s|
    ensures forall i :: 0 <= i < |s| ==> r[i] == LowerChar(s[i])
  {
    seq(|s|, i requires 0 <= i < |s| => LowerChar(s[i]))
  }

  /** `replace(/:/g, '\\:')`. */
  function EscapeColons(s: string): string
  {
    if s == [] then []
    else (if s[0] == ':' then "\\:" else [s[0]]) + EscapeColons(s[1..])
  }

  /** The inverse of `EscapeColons`: `\:` becomes `:` again. */
  function UnescapeColons(s: string): string
  {
    if s == [] then []
    else if |s| >= 2 && s[0] == '\\' && s[1] == ':' then ":" + UnescapeColons(s[2..])
    else [s[0]] + UnescapeColons(s[1..])
  }

  function CountColons(s: string): nat
  {
    if s == [] then 0 else (if s[0] == ':' then 1 else 0) + CountColons(s[1..])
  }

  /** `getTag(el)` for an element whose `tagName` is `tag`. */
  function TagSelector(tag: string): string
  {
    EscapeColons(ToLower(tag))
  }

  /** The result holds no upper-case letter. */
  lemma TagSelectorLowerCase(tag: string)
    ensures forall i :: 0 <= i < |TagSelector(tag)| ==> !IsUpper(TagSelector(tag)[i])
  {
    EscapeKeepsLower(ToLower(tag));
  }

  lemma {:induction false} EscapeKeepsLower(s: string)
    requires forall i :: 0 <= i < |s| ==> !IsUpper(s[i])
    ensures forall i :: 0 <= i < |EscapeColons(s)| ==> !IsUpper(EscapeColons(s)[i])
  {
    if s != [] {
      EscapeKeepsLower(s[1..]);
    }
  }

  /** Every `:` is immediately preceded by a backslash. */
  predicate ColonsEscaped(r: string)
  {
    forall i :: 0 <= i < |r| && r[i] == ':' ==> i > 0 && r[i - 1] == '\\'
  }

  /** Every `:` of the result is immediately preceded by a backslash. */
  lemma TagSelectorColonsEscaped(tag: string)
    ensures ColonsEscaped(TagSelector(tag))
  {
    EscapedColonsPreceded(ToLower(tag));
  }

  lemma {:induction false} EscapedColonsPreceded(s: string)
    ensures ColonsEscaped(EscapeColons(s))
  {
    if s != [] {
      EscapedColonsPreceded(s[1..]);
      var head := if s[0] == ':' then "\\:" else [s[0]];
      var rest := EscapeColons(s[1..]);
      var r := EscapeColons(s);
      assert r == head + rest;
      forall i | 0 <= i < |r| && r[i] == ':' ensures i > 0 && r[i - 1] == '\\' {
        if i >= |head| {
          assert r[i] == rest[i - |head|];
          if i - |head| > 0 {
            assert r[i - 1] == rest[i - |head| - 1];
          } else {
            assert false;
          }
        } else {
          assert r[i] == head[i];
        }
      }
    }
  }

  /** An escaped string never begins with a bare `:`. */
  lemma EscapeNeverStartsWithColon(s: string)
    ensures |EscapeColons(s)| > 0 ==> EscapeColons(s)[0] != ':'
  {
  }

  /** The result is one character longer than the tag per `:` in it. */
  lemma TagSelectorLength(tag: string)
    ensures |TagSelector(tag)| == |tag| + CountColons(tag)
  {
    EscapeLength(ToLower(tag));
    LowerKeepsColons(tag);
  }

  lemma {:induction false} EscapeLength(s: string)
    ensures |EscapeColons(s)| == |s| + CountColons(s)
  {
    if s != [] {
      EscapeLength(s[1..]);
    }
  }

  lemma {:induction false} LowerKeepsColons(s: string)
    ensures CountColons(ToLower(s)) == CountColons(s)
  {
    if s != [] {
      LowerKeepsColons(s[1..]);
      assert ToLower(s)[1..] == ToLower(s[1..]);
    }
  }

  /** A lower-case tag name without `:` is returned unchanged. */
  lemma {:induction false} TagSelectorPlain(tag: string)
    requires forall i :: 0 <= i < |tag| ==> !IsUpper(tag[i]) && tag[i] != ':'
    ensures TagSelector(tag) == tag
  {
    assert ToLower(tag) == tag;
    EscapePlain(tag);
  }

  lemma {:induction false} EscapePlain(s: string)
    requires forall i :: 0 <= i < |s| ==> s[i] != ':'
    ensures EscapeColons(s) == s
  {
    if s != [] {
      EscapePlain(s[1..]);
    }
  }

  /** Un-escaping gives back the lower-cased tag name, so no information is
      lost by the escaping. */
  lemma TagSelectorRoundTrip(tag: string)
    ensures UnescapeColons(TagSelector(tag)) == ToLower(tag)
  {
    EscapeRoundTrip(ToLower(tag));
  }

  lemma {:induction false} EscapeRoundTrip(s: string)
    ensures UnescapeColons(EscapeColons(s)) == s
  {
    if s != [] {
      EscapeRoundTrip(s[1..]);
      var rest := EscapeColons(s[1..]);
      EscapeNeverStartsWithColon(s[1..]);
      if s[0] == ':' {
        assert EscapeColons(s) == "\\:" + rest;
        assert ("\\:" + rest)[2..] == rest;
      } else {
        assert EscapeColons(s) == [s[0]] + rest;
        assert ([s[0]] + rest)[1..] == rest;
      }
      assert s == [s[0]] + s[1..];
    }
  }

  /** A non-empty tag name gives a non-empty type selector. */
  lemma TagSelectorNonEmpty(tag: string)
    requires tag != ""
    ensures TagSelector(tag) != ""
  {
    TagSelectorLength(tag);
  }

  /** `DIV:X` becomes `div\:x`. */
  lemma TagSelectorExample()
    ensures TagSelector("DIV:X") == "div\\:x"
  {
    assert ToLower("DIV:X") == "div:x";
  }
}
