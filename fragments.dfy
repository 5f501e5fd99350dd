/** `getAttribute`: the selector for one named attribute, which distinguishes
    an absent attribute, a present but empty one and a valued one. */
module AttributeSelector {
  import opened Wrappers
  import opened Dom

  /** The three-way result for the value `getAttribute(attribute)` returned. */
  function AttributeSelectorFor(escape: string -> string, attribute: string, value: Option<string>): Option<string>
  {
    match value
    case None => None
    case Some(v) =>
      if v != "" then Some("[" + attribute + "=\"" + escape(v) + "\"]")
      else Some("[" + attribute + "]")
  }

  function GetAttributeSelector(h: Host, el: NodeId, attribute: string): Option<string>
  {
    AttributeSelectorFor(h.escape, attribute, GetAttribute(h.tree, el, attribute))
  }

  /** `null` exactly when the attribute is absent; otherwise a non-empty
      selector beginning with `[` and the attribute name, ending in `]`, that
      is the bare presence test when the value is empty. */
  lemma AttributeSelectorCases(escape: string -> string, attribute: string, value: Option<string>)
    ensures var r := AttributeSelectorFor(escape, attribute, value);
      && (r.None? <==> value.None?)
      && (r.Some? ==> |r.value| >= |attribute| + 2 && r.value[..|attribute| + 1] == "[" + attribute
                      && r.value[|r.value| - 1] == ']')
      && (value == Some("") ==> r == Some("[" + attribute + "]"))
      && (value.Some? && value.value != "" ==>
            r.value[|attribute| + 1] == '=' && r.value[|attribute| + 1..] == "=\"" + escape(value.value) + "\"]")
  {
    var r := AttributeSelectorFor(escape, attribute, value);
    if value.Some? {
      var v := value.value;
      if v != "" {
        var rest := "=\"" + escape(v) + "\"]";
        assert r.value == ("[" + attribute) + rest;
      } else {
        assert r.value == ("[" + attribute) + "]";
      }
    }
  }
}

/** `getID`: `#` and the escaped id, or `null` for an absent or empty id. */
module IdSelector {
  import opened Wrappers
  import opened Dom

  function IdSelectorFor(escape: string -> string, id: Option<string>): Option<string>
  {
    if id.Some? && id.value != "" then Some("#" + escape(id.value)) else None
  }

  function GetID(h: Host, el: NodeId): Option<string>
  {
    IdSelectorFor(h.escape, GetAttribute(h.tree, el, "id"))
  }

  /** `null` exactly for an absent or empty id; otherwise a non-empty string
      whose first character is `#` and whose remainder is the escaped id. */
  lemma IdSelectorCases(escape: string -> string, id: Option<string>)
    ensures var r := IdSelectorFor(escape, id);
      && (r.None? <==> id.None? || id.value == "")
      && (r.Some? ==> r.value != "" && r.value[0] == '#' && r.value[1..] == escape(id.value))
  {
  }
}

/** `getName`: the `[name="…"]` selector, or `null` for an absent or empty
    `name` attribute. */
module NameSelector {
  import opened Wrappers
  import opened Dom
  import AttributeSelector

  function NameSelectorFor(escape: string -> string, name: Option<string>): Option<string>
  {
    if name.Some? && name.value != "" then Some("[name=\"" + escape(name.value) + "\"]") else None
  }

  function GetName(h: Host, el: NodeId): Option<string>
  {
    NameSelectorFor(h.escape, GetAttribute(h.tree, el, "name"))
  }

  /** `null` exactly for an absent or empty name; otherwise the same selector
      `getAttribute(el, 'name')` builds, which begins with `[name=`. */
  lemma NameSelectorCases(escape: string -> string, name: Option<string>)
    ensures var r := NameSelectorFor(escape, name);
      && (r.None? <==> name.None? || name.value == "")
      && (r.Some? ==> r == AttributeSelector.AttributeSelectorFor(escape, "name", name)
                      && |r.value| > 6 && r.value[..6] == "[name=")
  {
    var r := NameSelectorFor(escape, name);
    if r.Some? {
      assert r.value == "[name=" + ("\"" + escape(name.value) + "\"]");
      assert "[" + "name" + "=\"" + escape(name.value) + "\"]" == "[name=\"" + escape(name.value) + "\"]";
    }
  }
}

/** `getHref`: the `[href="…"]` selector, or `null` for an absent or empty
    `href` attribute. */
module HrefSelector {
  import opened Wrappers
  import opened Dom
  import AttributeSelector

  function HrefSelectorFor(escape: string -> string, href: Option<string>): Option<string>
  {
    if href.Some? && href.value != "" then Some("[href=\"" + escape(href.value) + "\"]") else None
  }

  function GetHref(h: Host, el: NodeId): Option<string>
  {
    HrefSelectorFor(h.escape, GetAttribute(h.tree, el, "href"))
  }

  /** `null` exactly for an absent or empty href; otherwise the same selector
      `getAttribute(el, 'href')` builds, which begins with `[href=`. */
  lemma HrefSelectorCases(escape: string -> string, href: Option<string>)
    ensures var r := HrefSelectorFor(escape, href);
      && (r.None? <==> href.None? || href.value == "")
      && (r.Some? ==> r == AttributeSelector.AttributeSelectorFor(escape, "href", href)
                      && |r.value| > 6 && r.value[..6] == "[href=")
  {
    var r := HrefSelectorFor(escape, href);
    if r.Some? {
      assert r.value == "[href=" + ("\"" + escape(href.value) + "\"]");
      assert "[" + "href" + "=\"" + escape(href.value) + "\"]" == "[href=\"" + escape(href.value) + "\"]";
    }
  }
}
