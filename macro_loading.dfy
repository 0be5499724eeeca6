/** Collecting macro definitions from the `<macros>` section of a tool:
    `_macros_of_type`, `template_macro_params`, `_load_embedded_macros` and
    `_imported_macro_paths_from_el`. */
module MacroLoading {
  import opened Wrappers
  import opened Dicts
  import opened XmlTree

  /** `root.find('macros')`. */
  function MacrosEl(root: Element): (r: Option<Element>)
    ensures r.Some? ==> r.value.tag == "macros"
    ensures r.Some? ==>
      exists i :: 0 <= i < |root.children| && root.children[i] == r.value &&
        forall j :: 0 <= j < i ==> root.children[j].tag != "macros"
    ensures r.None? <==> forall c :: c in root.children ==> c.tag != "macros"
  {
    Find(root.children, "macros")
  }

  /** The `<macro>` children of the `<macros>` section whose `type` is `ty`. */
  function MacrosTyped(root: Element, ty: string): seq<Element>
  {
    match MacrosEl(root)
    case None => []
    case Some(m) => TypedOnly(FindAll(m.children, "macro"), ty)
  }

  function TypedOnly(es: seq<Element>, ty: string): (r: seq<Element>)
    ensures forall e :: e in r <==> e in es && Attr(e, "type") == Some(ty)
    decreases |es|
  {
    if es == [] then []
    else
      assert forall e :: e in es <==> e == es[0] || e in es[1..];
      (if Attr(es[0], "type") == Some(ty) then [es[0]] else []) + TypedOnly(es[1..], ty)
  }

  /** Filtering a concatenation filters each part: with `TypedOnlyOne`,
      the comprehension keeps document order and each kept element once. */
  lemma {:induction false} TypedOnlyAppend(a: seq<Element>, b: seq<Element>, ty: string)
    ensures TypedOnly(a + b, ty) == TypedOnly(a, ty) + TypedOnly(b, ty)
    decreases |a|
  {
    if a != [] {
      var head := if Attr(a[0], "type") == Some(ty) then [a[0]] else [];
      assert (a + b)[0] == a[0] && (a + b)[1..] == a[1..] + b;
      assert TypedOnly(a + b, ty) == head + TypedOnly(a[1..] + b, ty);
      assert TypedOnly(a, ty) == head + TypedOnly(a[1..], ty);
      TypedOnlyAppend(a[1..], b, ty);
    } else {
      assert a + b == b;
    }
  }

  lemma TypedOnlyOne(e: Element, ty: string)
    ensures TypedOnly([e], ty) == if Attr(e, "type") == Some(ty) then [e] else []
  {
    assert [e][1..] == [];
  }

  /** `(macro_el.get("name"), el_func(macro_el))` for each macro. */
  function NamedPairs<V>(ms: seq<Element>, f: Element -> V): (ps: seq<(Option<string>, V)>)
    ensures |ps| == |ms|
    ensures forall i :: 0 <= i < |ms| ==> ps[i] == (Attr(ms[i], "name"), f(ms[i]))
  {
    seq(|ms|, i requires 0 <= i < |ms| => (Attr(ms[i], "name"), f(ms[i])))
  }

  /** `_macros_of_type(root, type, el_func)`: a dictionary from each matching
      macro's `name` attribute (`None` when it has none) to `el_func` of it. */
  function MacrosOfType<V>(root: Element, ty: string, f: Element -> V): (r: Dict<Option<string>, V>)
    ensures DistinctKeys(r)
    ensures MacrosEl(root).None? ==> r == []
  {
    PutAllDistinct([], NamedPairs(MacrosTyped(root, ty), f));
    FromPairs(NamedPairs(MacrosTyped(root, ty), f))
  }

  /** Only `<macro>` children of the `<macros>` section with the requested
      type are collected. */
  lemma MacrosTypedOnly(root: Element, ty: string)
    ensures forall m :: m in MacrosTyped(root, ty) ==>
      Attr(m, "type") == Some(ty) && m.tag == "macro" && MacrosEl(root).Some? && m in MacrosEl(root).value.children
    ensures MacrosEl(root).None? ==> MacrosTyped(root, ty) == []
  {
    if MacrosEl(root).Some? {
      assert MacrosTyped(root, ty) == TypedOnly(FindAll(MacrosEl(root).value.children, "macro"), ty);
    }
  }

  /** The keys are the names of the macros of that type, each once; every
      value comes from a macro of that type with that name. */
  lemma MacrosOfTypeSpec<V>(root: Element, ty: string, f: Element -> V, name: Option<string>)
    ensures DistinctKeys(MacrosOfType(root, ty, f))
    ensures HasKey(MacrosOfType(root, ty, f), name) <==>
      exists m :: m in MacrosTyped(root, ty) && Attr(m, "name") == name
    ensures Get(MacrosOfType(root, ty, f), name).Some? ==>
      exists m :: m in MacrosTyped(root, ty) && Attr(m, "name") == name &&
        Get(MacrosOfType(root, ty, f), name).value == f(m)
    ensures forall m :: m in MacrosTyped(root, ty) ==> Attr(m, "type") == Some(ty)
  {
    var ms := MacrosTyped(root, ty);
    PutAllDistinct([], NamedPairs(ms, f));
    MacrosOfTypeKeys(ms, f, name);
    MacrosOfTypeValues(ms, f, name);
    MacrosTypedOnly(root, ty);
  }

  lemma MacrosOfTypeKeys<V>(ms: seq<Element>, f: Element -> V, name: Option<string>)
    ensures HasKey(FromPairs(NamedPairs(ms, f)), name) <==> exists m :: m in ms && Attr(m, "name") == name
  {
    var ps := NamedPairs(ms, f);
    PutAllHasKey([], ps, name);
    if exists m :: m in ms && Attr(m, "name") == name {
      var m :| m in ms && Attr(m, "name") == name;
      var i :| 0 <= i < |ms| && ms[i] == m;
      assert ps[i].0 == name;
    }
    if exists i :: 0 <= i < |ps| && ps[i].0 == name {
      var i :| 0 <= i < |ps| && ps[i].0 == name;
      assert ms[i] in ms;
    }
  }

  lemma MacrosOfTypeValues<V>(ms: seq<Element>, f: Element -> V, name: Option<string>)
    ensures Get(FromPairs(NamedPairs(ms, f)), name).Some? ==>
      exists m :: m in ms && Attr(m, "name") == name && Get(FromPairs(NamedPairs(ms, f)), name).value == f(m)
  {
    var ps := NamedPairs(ms, f);
    PutAllGetFrom([], ps, name);
    var r := Get(PutAll([], ps), name);
    if r.Some? {
      var i :| 0 <= i < |ps| && ps[i] == (name, r.value);
      assert ms[i] in ms && Attr(ms[i], "name") == name && r.value == f(ms[i]);
    }
  }

  /** Among macros sharing a name, the last one wins. */
  lemma MacrosOfTypeLastWins<V>(root: Element, ty: string, f: Element -> V, i: nat)
    requires i < |MacrosTyped(root, ty)|
    requires forall j :: i < j < |MacrosTyped(root, ty)| ==>
      Attr(MacrosTyped(root, ty)[j], "name") != Attr(MacrosTyped(root, ty)[i], "name")
    ensures Get(MacrosOfType(root, ty, f), Attr(MacrosTyped(root, ty)[i], "name")) == Some(f(MacrosTyped(root, ty)[i]))
  {
    PutAllGetLast([], NamedPairs(MacrosTyped(root, ty), f), i);
  }

  function Text(e: Element): string
  {
    e.text
  }

  /** `template_macro_params(root)`: the template macros' texts by name,
      copied entry by entry into a fresh dictionary, which changes nothing. */
  function TemplateMacroParams(root: Element): (params: Dict<Option<string>, string>)
    ensures params == MacrosOfType(root, "template", Text)
  {
    var macroDict := MacrosOfType(root, "template", Text);
    MacrosOfTypeSpec(root, "template", Text, None);
    PutAllCopy(macroDict);
    PutAll([], macroDict)
  }

  // ---------------------------------------------------------------------
  // _load_embedded_macros

  /** An explicit `<macro>` without `type` becomes an xml macro. */
  function AsMacro(e: Element): Element
  {
    if HasKey(e.attrs, "type") then e else e.(attrs := Put(e.attrs, "type", "xml"))
  }

  /** A shortcut `<template>`, `<xml>` or `<token>` becomes `<macro type=tag>`. */
  function AsShortcut(e: Element, tag: string): Element
  {
    e.(tag := "macro", attrs := Put(e.attrs, "type", tag))
  }

  const ShortcutTags: seq<string> := ["template", "xml", "token"]

  function Explicit(children: seq<Element>): seq<Element>
  {
    var ms := FindAll(children, "macro");
    seq(|ms|, i requires 0 <= i < |ms| => AsMacro(ms[i]))
  }

  function ShortcutsOf(children: seq<Element>, tag: string): seq<Element>
  {
    var ms := FindAll(children, tag);
    seq(|ms|, i requires 0 <= i < |ms| => AsShortcut(ms[i], tag))
  }

  /** The shortcut macros for each of `tags`, tag by tag. */
  function Shortcuts(children: seq<Element>, tags: seq<string>): seq<Element>
    decreases |tags|
  {
    if tags == [] then []
    else Shortcuts(children, tags[..|tags| - 1]) + ShortcutsOf(children, tags[|tags| - 1])
  }

  /** The explicit macros, then the templates, the xml macros and the tokens. */
  function EmbeddedMacros(macrosEl: Option<Element>): seq<Element>
  {
    var children := if macrosEl.Some? then macrosEl.value.children else [];
    Explicit(children) + Shortcuts(children, ShortcutTags)
  }

  /** `_load_embedded_macros(macros_el, xml_base_dir)`. */
  method LoadEmbeddedMacros(macrosEl: Option<Element>) returns (macros: seq<Element>)
    ensures macros == EmbeddedMacros(macrosEl)
  {
    var explicit := ConvertExplicit(macrosEl);
    var shortcuts := ConvertAllShortcuts(macrosEl);
    macros := explicit + shortcuts;
  }

  /** The `for tag in typed_tag` loop. */
  method ConvertAllShortcuts(macrosEl: Option<Element>) returns (macros: seq<Element>)
    ensures macros == Shortcuts(if macrosEl.Some? then macrosEl.value.children else [], ShortcutTags)
  {
    ghost var children := if macrosEl.Some? then macrosEl.value.children else [];
    macros := [];
    var typedTag := ShortcutTags;
    for t := 0 to |typedTag|
      invariant macros == Shortcuts(children, typedTag[..t])
    {
      var converted := ConvertShortcuts(macrosEl, typedTag[t]);
      ShortcutsSnoc(children, typedTag, t);
      macros := macros + converted;
    }
    assert typedTag[..|typedTag|] == ShortcutTags;
  }

  lemma ShortcutsSnoc(children: seq<Element>, tags: seq<string>, t: nat)
    requires t < |tags|
    ensures Shortcuts(children, tags[..t + 1]) == Shortcuts(children, tags[..t]) + ShortcutsOf(children, tags[t])
  {
    assert tags[..t + 1][..t] == tags[..t];
  }

  /** The first loop: every `<macro>` child, given `type="xml"` when it has
      no type. */
  method ConvertExplicit(macrosEl: Option<Element>) returns (macros: seq<Element>)
    ensures macros == Explicit(if macrosEl.Some? then macrosEl.value.children else [])
  {
    macros := [];
    var macroEls: seq<Element> := [];
    if macrosEl.Some? {
      macroEls := FindAll(macrosEl.value.children, "macro");
    }
    for i := 0 to |macroEls|
      invariant |macros| == i
      invariant forall k :: 0 <= k < i ==> macros[k] == AsMacro(macroEls[k])
    {
      var macro := macroEls[i];
      if !HasKey(macro.attrs, "type") {
        macro := macro.(attrs := Put(macro.attrs, "type", "xml"));
      }
      macros := macros + [macro];
    }
  }

  /** One round of the `for tag in typed_tag` loop: every child with that
      tag gets `type = tag` and becomes a `<macro>`. */
  method ConvertShortcuts(macrosEl: Option<Element>, tag: string) returns (converted: seq<Element>)
    ensures converted == ShortcutsOf(if macrosEl.Some? then macrosEl.value.children else [], tag)
  {
    var macroEls: seq<Element> := [];
    if macrosEl.Some? {
      macroEls := FindAll(macrosEl.value.children, tag);
    }
    converted := [];
    for i := 0 to |macroEls|
      invariant |converted| == i
      invariant forall k :: 0 <= k < i ==> converted[k] == AsShortcut(macroEls[k], tag)
    {
      var macroEl := macroEls[i].(attrs := Put(macroEls[i].attrs, "type", tag));
      macroEl := macroEl.(tag := "macro");
      converted := converted + [macroEl];
    }
  }

  /** The output order: the explicit macros, then the templates, the xml
      macros and the tokens, each block in document order and one element
      for each matching child. */
  lemma EmbeddedMacrosOrder(macrosEl: Element)
    ensures var cs := macrosEl.children;
      EmbeddedMacros(Some(macrosEl)) ==
        Explicit(cs) + ShortcutsOf(cs, "template") + ShortcutsOf(cs, "xml") + ShortcutsOf(cs, "token")
    ensures var cs := macrosEl.children;
      |EmbeddedMacros(Some(macrosEl))| ==
        |FindAll(cs, "macro")| + |FindAll(cs, "template")| + |FindAll(cs, "xml")| + |FindAll(cs, "token")|
  {
    var cs := macrosEl.children;
    assert ShortcutTags[..2] == ["template", "xml"] && ShortcutTags[..2][..1] == ["template"];
    assert ["template"][..0] == [];
    assert Shortcuts(cs, ["template"]) == ShortcutsOf(cs, "template");
    assert Shortcuts(cs, ["template", "xml"]) == ShortcutsOf(cs, "template") + ShortcutsOf(cs, "xml");
  }

  /** Every loaded macro is a `<macro>` with a `type` attribute. */
  lemma EmbeddedMacrosTyped(macrosEl: Option<Element>)
    ensures forall m :: m in EmbeddedMacros(macrosEl) ==> m.tag == "macro" && HasKey(m.attrs, "type")
  {
    var children := if macrosEl.Some? then macrosEl.value.children else [];
    forall m | m in Explicit(children) ensures m.tag == "macro" && HasKey(m.attrs, "type") {
      var ms := FindAll(children, "macro");
      var i :| 0 <= i < |ms| && m == AsMacro(ms[i]);
      assert ms[i] in ms;
      PutSpec(ms[i].attrs, "type", "xml");
    }
    ShortcutsTyped(children, ShortcutTags);
  }

  lemma {:induction false} ShortcutsTyped(children: seq<Element>, tags: seq<string>)
    ensures forall m :: m in Shortcuts(children, tags) ==> m.tag == "macro" && Attr(m, "type").Some? && Attr(m, "type").value in tags
    decreases |tags|
  {
    if tags != [] {
      var n := |tags| - 1;
      ShortcutsTyped(children, tags[..n]);
      forall m | m in ShortcutsOf(children, tags[n]) ensures m.tag == "macro" && Attr(m, "type") == Some(tags[n]) {
        var ms := FindAll(children, tags[n]);
        var i :| 0 <= i < |ms| && m == AsShortcut(ms[i], tags[n]);
        PutSpec(ms[i].attrs, "type", tags[n]);
      }
      assert forall t :: t in tags[..n] ==> t in tags;
    }
  }

  /** An explicit macro keeps its `type`, or gets `xml`; a shortcut's type is
      its old tag. Nothing else about the element changes. */
  lemma NormalisedTypes(e: Element, tag: string)
    ensures Attr(AsMacro(e), "type") == if HasKey(e.attrs, "type") then Attr(e, "type") else Some("xml")
    ensures Attr(AsShortcut(e, tag), "type") == Some(tag)
    ensures AsShortcut(e, tag).text == e.text && AsShortcut(e, tag).children == e.children
    ensures forall k :: k != "type" ==> Attr(AsShortcut(e, tag), k) == Attr(e, k) && Attr(AsMacro(e), k) == Attr(e, k)
  {
    PutSpec(e.attrs, "type", "xml");
    PutSpec(e.attrs, "type", tag);
  }

  // ---------------------------------------------------------------------
  // _imported_macro_paths_from_el and imported_macro_paths

  function ImportTexts(children: seq<Element>): (paths: seq<string>)
    ensures |paths| == |FindAll(children, "import")|
    ensures forall i :: 0 <= i < |paths| ==> paths[i] == FindAll(children, "import")[i].text
    decreases |children|
  {
    if children == [] then []
    else if children[0].tag == "import" then [children[0].text] + ImportTexts(children[1..])
    else ImportTexts(children[1..])
  }

  /** `_imported_macro_paths_from_el(macros_el)`: the text of each
      `<import>` child, in document order; nothing without a section. */
  method ImportedMacroPaths(macrosEl: Option<Element>) returns (importedMacroPaths: seq<string>)
    ensures macrosEl.None? ==> importedMacroPaths == []
    ensures macrosEl.Some? ==> importedMacroPaths == ImportTexts(macrosEl.value.children)
  {
    importedMacroPaths := [];
    var macroImportEls: seq<Element> := [];
    if macrosEl.Some? {
      macroImportEls := FindAll(macrosEl.value.children, "import");
    }
    ghost var expected := if macrosEl.Some? then ImportTexts(macrosEl.value.children) else [];
    assert |expected| == |macroImportEls|;
    for i := 0 to |macroImportEls|
      invariant importedMacroPaths == expected[..i]
    {
      var rawImportPath := macroImportEls[i].text;
      importedMacroPaths := importedMacroPaths + [rawImportPath];
      assert expected[..i + 1] == expected[..i] + [expected[i]];
    }
    assert expected[..|macroImportEls|] == expected;
  }

  /** `imported_macro_paths(root)`: the import paths of the first
      `<macros>` child, or none when the tool has no such section. */
  method ImportedMacroPathsOf(root: Element) returns (paths: seq<string>)
    ensures MacrosEl(root).None? ==> paths == []
    ensures MacrosEl(root).Some? ==> paths == ImportTexts(MacrosEl(root).value.children)
  {
    var macrosEl := MacrosEl(root);
    paths := ImportedMacroPaths(macrosEl);
  }
}
