/** Macro expansion: `_expand_macros` repeatedly finds the first `<expand>`
    below an element and hands it to `_expand_macro`, which checks the macro
    name, copies the macro, fills its yields, expands the macros it contains,
    binds its parameters and splices the result where the `<expand>` was.
    The source's `while True` loop need not end (a macro may expand itself),
    so every step here consumes one unit of `fuel`. */
module Expansion {
  import opened Wrappers
  import opened Dicts
  import opened XmlTree
  import opened Tokens
  import opened Splice
  import opened MacroDefs

  /** The xml macros by name, as `_macros_of_type(root, 'xml', XmlMacroDef)` builds them. */
  type MacroMap = Dict<Option<string>, XmlMacroDef>

  /** `p` leads from the forest `cs` to one of its elements: child `p[0]`,
      then on within that child's children. */
  predicate ValidPath(cs: seq<Element>, p: seq<nat>)
    decreases |p|
  {
    |p| >= 1 && p[0] < |cs| && (|p| == 1 || ValidPath(cs[p[0]].children, p[1..]))
  }

  function At(cs: seq<Element>, p: seq<nat>): Element
    requires ValidPath(cs, p)
    decreases |p|
  {
    if |p| == 1 then cs[p[0]] else At(cs[p[0]].children, p[1..])
  }

  /** The element at `p` replaced by `targets` within its parent's child
      list, as `_xml_replace` does through the element's parent. */
  function ReplaceAt(cs: seq<Element>, p: seq<nat>, targets: seq<Element>): seq<Element>
    requires ValidPath(cs, p)
    decreases |p|
  {
    if |p| == 1 then Spliced(cs, p[0], targets)
    else cs[p[0] := cs[p[0]].(children := ReplaceAt(cs[p[0]].children, p[1..], targets))]
  }

  /** `find('.//expand')` over the children from position `i` on: the first
      `<expand>` in document order, an element before its descendants and
      those before its later siblings. */
  function FindExpandFrom(cs: seq<Element>, i: nat): (r: Option<seq<nat>>)
    requires i <= |cs|
    ensures r.Some? ==> ValidPath(cs, r.value) && At(cs, r.value).tag == "expand" && i <= r.value[0]
    ensures r.Some? ==> forall k :: i <= k < r.value[0] ==> cs[k].tag != "expand" && !AnyTag(cs[k].children, "expand")
    ensures r.None? <==> forall k :: i <= k < |cs| ==> cs[k].tag != "expand" && !AnyTag(cs[k].children, "expand")
    decreases cs, |cs| - i
  {
    if i == |cs| then None
    else if cs[i].tag == "expand" then Some([i])
    else
      match FindExpandFrom(cs[i].children, 0)
      case Some(p) =>
        assert ([i] + p)[1..] == p;
        Some([i] + p)
      case None =>
        assert !AnyTag(cs[i].children, "expand");
        FindExpandFrom(cs, i + 1)
  }

  /** The path found is first in document order: it stops at the first
      `<expand>` on its way down, and below a child that is not one it is
      that child's own first match. */
  lemma {:induction false} FindExpandFirst(cs: seq<Element>, i: nat)
    requires i <= |cs|
    ensures var r := FindExpandFrom(cs, i);
      r.Some? ==> (|r.value| == 1 <==> cs[r.value[0]].tag == "expand")
    ensures var r := FindExpandFrom(cs, i);
      r.Some? && |r.value| > 1 ==> FindExpandFrom(cs[r.value[0]].children, 0) == Some(r.value[1..])
    decreases |cs| - i
  {
    if i < |cs| && cs[i].tag != "expand" {
      match FindExpandFrom(cs[i].children, 0)
      case Some(p) =>
        assert FindExpandFrom(cs, i) == Some([i] + p);
        assert ([i] + p)[1..] == p;
      case None =>
        FindExpandFirst(cs, i + 1);
    }
  }

  /** `element.find('.//expand')`: searches below the element, never the
      element itself, and finds nothing exactly when no `<expand>` is there. */
  function FindExpand(e: Element): (r: Option<seq<nat>>)
    ensures r.Some? ==> ValidPath(e.children, r.value) && At(e.children, r.value).tag == "expand"
    ensures r.None? <==> !AnyTag(e.children, "expand")
  {
    FindExpandFrom(e.children, 0)
  }

  /** `_expand_macros(elements, macros, tokens)`; nothing happens when there
      are neither macros nor tokens, and otherwise success leaves no
      `<expand>` below any of the elements. */
  function ExpandMacros(es: seq<Element>, macros: MacroMap, tokens: TokenMap, fuel: nat): (r: Result<seq<Element>, Error>)
    ensures macros == [] && tokens == [] ==> r == Ok(es)
    ensures r.Ok? && (macros != [] || tokens != []) ==>
      |r.value| == |es| && forall i :: 0 <= i < |es| ==> !AnyTag(r.value[i].children, "expand")
    decreases fuel, 1, |es| + 1
  {
    if macros == [] && tokens == [] then Ok(es) else ExpandEach(es, macros, tokens, fuel)
  }

  /** The `for element in elements` loop: as many elements as before, none
      with an `<expand>` below it. */
  function ExpandEach(es: seq<Element>, macros: MacroMap, tokens: TokenMap, fuel: nat): (r: Result<seq<Element>, Error>)
    ensures r.Ok? ==> |r.value| == |es|
    ensures r.Ok? ==> forall i :: 0 <= i < |es| ==> !AnyTag(r.value[i].children, "expand")
    decreases fuel, 1, |es|
  {
    if es == [] then Ok([])
    else
      var first :- ExpandAll(es[0], macros, tokens, fuel);
      var rest :- ExpandEach(es[1..], macros, tokens, fuel);
      Ok([first] + rest)
  }

  /** The `while True` loop for one element: it ends only when no `<expand>`
      is left below the element, whose own tag, attributes and text stay. */
  function ExpandAll(e: Element, macros: MacroMap, tokens: TokenMap, fuel: nat): (r: Result<Element, Error>)
    ensures r.Ok? ==> !AnyTag(r.value.children, "expand")
    ensures r.Ok? ==> r.value.tag == e.tag && r.value.attrs == e.attrs && r.value.text == e.text
    decreases fuel, 0, 0
  {
    match FindExpand(e)
    case None => Ok(e)
    case Some(p) =>
      if fuel == 0 then Err(ExpansionBoundReached)
      else
        var e' :- ExpandMacro(e, p, macros, tokens, fuel - 1);
        ExpandAll(e', macros, tokens, fuel - 1)
  }

  /** `_expand_macro(element, expand_el, macros, tokens)` for the `<expand>`
      element at path `p` below `e`. Its two assertions: the `<expand>` must
      name a macro, and the macro must be known; a missing required
      parameter raises once the macro's own content has been expanded. A
      success changes nothing but the `<expand>` element's place in its
      parent's child list. */
  function ExpandMacro(e: Element, p: seq<nat>, macros: MacroMap, tokens: TokenMap, fuel: nat): (r: Result<Element, Error>)
    requires ValidPath(e.children, p)
    ensures Attr(At(e.children, p), "macro").None? ==> r == Err(MissingMacroAttribute)
    ensures var name := Attr(At(e.children, p), "macro");
      name.Some? && !HasKey(macros, name) ==> r == Err(UnknownMacro(name.value))
    ensures var name := Attr(At(e.children, p), "macro");
      name.Some? && HasKey(macros, name) &&
      ExpandMacros(ExpandYieldStatements(Get(macros, name).value.element, At(e.children, p)).children, macros, tokens, fuel).Ok? &&
      MacroTokensOf(Get(macros, name).value, At(e.children, p)).Err? ==>
        r == Err(MacroTokensOf(Get(macros, name).value, At(e.children, p)).error)
    ensures r.Ok? ==> r.value.tag == e.tag && r.value.attrs == e.attrs && r.value.text == e.text
    ensures r.Ok? ==> exists kids :: r.value.children == ReplaceAt(e.children, p, kids)
    ensures r.Ok? ==>
      var x := At(e.children, p);
      Attr(x, "macro").Some? && HasKey(macros, Attr(x, "macro")) &&
      var def := Get(macros, Attr(x, "macro")).value;
      var kids := ExpandMacros(ExpandYieldStatements(def.element, x).children, macros, tokens, fuel);
      var toks := MacroTokensOf(def, x);
      kids.Ok? && toks.Ok? && r.value.children == ReplaceAt(e.children, p, ExpandList(kids.value, toks.value))
    ensures var x := At(e.children, p);
      var name := Attr(x, "macro");
      name.Some? && HasKey(macros, name) ==>
        var def := Get(macros, name).value;
        var kids := ExpandMacros(ExpandYieldStatements(def.element, x).children, macros, tokens, fuel);
        (kids.Err? ==> r == Err(kids.error)) && (kids.Ok? && MacroTokensOf(def, x).Ok? ==> r.Ok?)
    decreases fuel, 2, 0
  {
    var expandEl := At(e.children, p);
    match Attr(expandEl, "macro")
    case None => Err(MissingMacroAttribute)
    case Some(name) =>
      match Get(macros, Some(name))
      case None => Err(UnknownMacro(name))
      case Some(def) =>
        var expanded := ExpandYieldStatements(def.element, expandEl);
        var kids :- ExpandMacros(expanded.children, macros, tokens, fuel);
        var macroTokens :- MacroTokensOf(def, expandEl);
        Ok(e.(children := ReplaceAt(e.children, p, ExpandList(kids, macroTokens))))
  }

  /** What `ReplaceAt` keeps: at the top level it is `_xml_replace`'s
      splice, below it only the child on the path changes. */
  lemma ReplaceAtKeeps(cs: seq<Element>, p: seq<nat>, targets: seq<Element>)
    requires ValidPath(cs, p)
    ensures |p| == 1 ==> ReplaceAt(cs, p, targets) == cs[..p[0]] + targets + cs[p[0] + 1..]
    ensures |p| > 1 ==> |ReplaceAt(cs, p, targets)| == |cs|
    ensures |p| > 1 ==> forall k :: 0 <= k < |cs| && k != p[0] ==> ReplaceAt(cs, p, targets)[k] == cs[k]
    ensures |p| > 1 ==> ReplaceAt(cs, p, targets)[p[0]].children == ReplaceAt(cs[p[0]].children, p[1..], targets)
  {
  }

  /** Elements with nothing to expand below them come back as they are. */
  lemma {:induction false} ExpandEachIdle(es: seq<Element>, macros: MacroMap, tokens: TokenMap, fuel: nat)
    requires forall i :: 0 <= i < |es| ==> !AnyTag(es[i].children, "expand")
    ensures ExpandEach(es, macros, tokens, fuel) == Ok(es)
    decreases |es|
  {
    if es != [] {
      assert FindExpand(es[0]).None?;
      ExpandEachIdle(es[1..], macros, tokens, fuel);
      assert [es[0]] + es[1..] == es;
    }
  }

  /** The place of the `<expand>` element `x` comes to hold one element for
      each child of the macro, except that each top-level yield becomes all
      of `x`'s children. */
  lemma ExpandMacroLength(e: Element, p: seq<nat>, macros: MacroMap, tokens: TokenMap, fuel: nat)
    requires ValidPath(e.children, p)
    requires ExpandMacro(e, p, macros, tokens, fuel).Ok?
    ensures var x := At(e.children, p);
      HasKey(macros, Attr(x, "macro")) &&
      var def := Get(macros, Attr(x, "macro")).value;
      exists targets :: ExpandMacro(e, p, macros, tokens, fuel).value.children == ReplaceAt(e.children, p, targets) &&
        |targets| == |def.element.children| + CountYields(def.element.children) * (|x.children| - 1)
  {
    var x := At(e.children, p);
    var def := Get(macros, Attr(x, "macro")).value;
    var filled := ExpandYieldStatements(def.element, x);
    var kids := ExpandMacros(filled.children, macros, tokens, fuel).value;
    var toks := MacroTokensOf(def, x).value;
    assert macros != [];
    assert filled.children == YieldsIn(def.element.children, x.children);
    YieldsInLength(def.element.children, x.children);
    assert |ExpandList(kids, toks)| == |kids|;
  }

  /** A macro with no yield and no nested `<expand>` below its children is
      spliced in with its parameter tokens substituted, or raises the
      parameter error. */
  lemma TokenMacroSpliced(e: Element, p: seq<nat>, macros: MacroMap, tokens: TokenMap, fuel: nat, def: XmlMacroDef)
    requires ValidPath(e.children, p)
    requires Attr(At(e.children, p), "macro").Some?
    requires Get(macros, Attr(At(e.children, p), "macro")) == Some(def)
    requires !AnyTag(def.element.children, "yield")
    requires forall i :: 0 <= i < |def.element.children| ==> !AnyTag(def.element.children[i].children, "expand")
    ensures var toks := MacroTokensOf(def, At(e.children, p));
      toks.Ok? ==> ExpandMacro(e, p, macros, tokens, fuel) == Ok(e.(children := ReplaceAt(e.children, p, ExpandList(def.element.children, toks.value))))
    ensures var toks := MacroTokensOf(def, At(e.children, p));
      toks.Err? ==> ExpandMacro(e, p, macros, tokens, fuel) == Err(toks.error)
  {
    var expandEl := At(e.children, p);
    NoYieldUnchanged(def.element.children, expandEl.children);
    assert ExpandYieldStatements(def.element, expandEl).children == def.element.children;
    ExpandEachIdle(def.element.children, macros, tokens, fuel);
  }

  /** A macro with no yield, no nested `<expand>` below its children and no
      parameters is spliced in verbatim: its children take the place of the
      `<expand>` element, in order. */
  lemma PlainMacroSpliced(e: Element, p: seq<nat>, macros: MacroMap, tokens: TokenMap, fuel: nat, def: XmlMacroDef)
    requires ValidPath(e.children, p)
    requires Attr(At(e.children, p), "macro").Some?
    requires Get(macros, Attr(At(e.children, p), "macro")) == Some(def)
    requires !AnyTag(def.element.children, "yield")
    requires forall i :: 0 <= i < |def.element.children| ==> !AnyTag(def.element.children[i].children, "expand")
    requires def.parameters == []
    ensures ExpandMacro(e, p, macros, tokens, fuel) == Ok(e.(children := ReplaceAt(e.children, p, def.element.children)))
  {
    var expandEl := At(e.children, p);
    NoYieldUnchanged(def.element.children, expandEl.children);
    assert ExpandYieldStatements(def.element, expandEl).children == def.element.children;
    ExpandEachIdle(def.element.children, macros, tokens, fuel);
    assert MacroTokensOf(def, expandEl) == Ok([]);
  }
}
