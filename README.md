# Galaxy tool XML macros, modelled in Dafny

Galaxy tool descriptions are XML files that can define reusable pieces in a
`<macros>` section: `<token>` macros (string constants such as `@VERSION@`),
`<xml>` macros (element fragments pulled in with `<expand macro="name"/>`,
where `<yield/>` placeholders take the `<expand>` element's children and
`tokens="a,b"` / `token_x="default"` declare parameters), and `<template>`
macros handed to the templating engine. `lib/galaxy/util/xml_macros.py`
rewrites the tree in place to apply them. This project models that
processor and proves what it promises.

The model is organised like the source:

- `wrappers.dfy`: `Option` and `Result`.
- `strings.dfy`: the Python string operations the processor relies on:
  - `in` (substring test);
  - `str.replace`, exactly, including the empty pattern;
  - `str.split` on one character;
  - ASCII `str.upper`.
- `dicts.dfy`: a Python `dict` modelled as an ordered list of pairs.
  - Assignment overwrites a key in place or appends a new one, so iteration order is insertion order.
  - `dict(pairs)` lets the last pair for a key win.
- `xml_tree.dfy`: the `Element` value (tag, attributes in order, text, children) and the errors the processor raises. It also gives `get`, `find` and `findall` over direct children.
- `tokens.dfy`: token substitution and nested-token resolution.
  - `_expand_tokens_str`, `_expand_tokens_for_el`, `_expand_tokens` and `expand_nested_tokens` are methods with their loops.
  - Each method is proved equal to a function, and the lemmas are about those functions.
- `splice.dfy`:
  - `ElementNode`, a class whose child list is edited in place by `insert`, `remove`, `_xml_replace` and `_xml_set_children`;
  - `_expand_yield_statements`.
- `macro_defs.dfy`: `XmlMacroDef` (`__init__`, which reads the parameters) and `macro_tokens` (which binds them).
- `macro_loading.dfy`:
  - `_macros_el`, `_macros_of_type` and `template_macro_params`;
  - `_load_embedded_macros`, which normalises the shortcut tags;
  - `_imported_macro_paths_from_el` and `imported_macro_paths`.
- `expansion.dfy`: `_expand_macros` and `_expand_macro`, with an explicit step bound.
- `scenarios.dfy`: worked instances:
  - the two documented yield examples;
  - a nested token that resolves;
  - two tokens that refer to each other and are rejected;
  - a complete expansion of a macro with a parameter.

## Model

| member | source | states |
|---|---|---|
| Strings.ContainsIffOccurs | lib/galaxy/util/xml_macros.py:93 | `name in value` holds exactly when the name occurs at some index of the value |
| Strings.ReplaceAbsent | lib/galaxy/util/xml_macros.py:123-124 | replacing a key that does not occur leaves the string as it is |
| Strings.ReplaceIdentity | lib/galaxy/util/xml_macros.py:96 | replacing a name by itself leaves the string as it is (also for the empty name) |
| Strings.Split | lib/galaxy/util/xml_macros.py:325 | `split(",")` gives at least one part |
| Strings.JoinSplit | lib/galaxy/util/xml_macros.py:325 | joining the parts of `split(",")` with the separator gives back the attribute value |
| Strings.SplitPartsHaveNoSeparator | lib/galaxy/util/xml_macros.py:325 | no part of `split(",")` contains a comma |
| Dicts.Get | lib/galaxy/util/xml_macros.py:143-144 | a lookup succeeds exactly when the key is present, and its value is the one paired with the key's first entry |
| Dicts.PutSpec | lib/galaxy/util/xml_macros.py:96 | assignment sets the key's value, keeps each key's position, appends a new key at the end and leaves other keys' values alone |
| Dicts.PutKeepsDistinct | lib/galaxy/util/xml_macros.py:331 | assignment never duplicates a key |
| Dicts.PutAllDistinct | lib/galaxy/util/xml_macros.py:86 | `dict(pairs)` has each key once |
| Dicts.PutAllHasKey | lib/galaxy/util/xml_macros.py:86 | the keys of `dict(pairs)` are the keys of the pairs |
| Dicts.PutAllGetUntouched | lib/galaxy/util/xml_macros.py:86 | a key no pair mentions keeps its value |
| Dicts.PutAllGetLast | lib/galaxy/util/xml_macros.py:86 | the last pair for a key decides its value |
| Dicts.PutAllGetFrom | lib/galaxy/util/xml_macros.py:86 | every value read back came from the start map or from a pair with that key |
| Dicts.PutAllCopy | lib/galaxy/util/xml_macros.py:47-48 | copying a dictionary item by item into an empty one gives the same dictionary |
| XmlTree.FindAll | lib/galaxy/util/xml_macros.py:82 | `findall(tag)` returns exactly the direct children with that tag, no more of them than there are children |
| XmlTree.FindAllAppend | lib/galaxy/util/xml_macros.py:82 | `findall` over a concatenation is the concatenation of the results, so document order is kept |
| XmlTree.FindAllOne | lib/galaxy/util/xml_macros.py:82 | `findall` over one child gives that child exactly when its tag matches, once |
| XmlTree.Find | lib/galaxy/util/xml_macros.py:74-75 | `find(tag)` returns the first direct child with that tag, or nothing exactly when no child has it |
| Tokens.ExpandTokensStr | lib/galaxy/util/xml_macros.py:121-125 | the loop computes the fold of `Substitute` over the tokens in map order |
| Tokens.SubstituteIsReplace | lib/galaxy/util/xml_macros.py:123-124 | the `key in s` guard changes nothing: each step equals a plain `s.replace(key, value)` |
| Tokens.ExpandStrAppend | lib/galaxy/util/xml_macros.py:122 | expanding with two maps in a row equals expanding with their concatenation |
| Tokens.ExpandStrIsReplaceInOrder | lib/galaxy/util/xml_macros.py:121-125 | the result equals applying `replace(key, value)` for every token in map order |
| Tokens.ExpandStrUnchanged | lib/galaxy/util/xml_macros.py:121-125 | a string in which no key occurs comes back unchanged |
| Tokens.ExpandStrSelfTokens | lib/galaxy/util/xml_macros.py:121-125 | tokens whose value is their own name change nothing |
| Tokens.ExpandTokensForEl | lib/galaxy/util/xml_macros.py:108-118 | the method's result is the element with text (when non-empty), every attribute value and all descendants expanded |
| Tokens.ExpandTokens | lib/galaxy/util/xml_macros.py:100-105 | each element of the list is expanded, and nothing happens for an empty map |
| Tokens.ExpandElShape | lib/galaxy/util/xml_macros.py:108-118 | tag, attribute keys and their order, and child count are kept at every depth. Text is expanded only when non-empty. Each attribute value is the expansion of the old one |
| Tokens.ExpandElEmpty | lib/galaxy/util/xml_macros.py:100-102 | an empty token map leaves the element as it is |
| Tokens.ExpandElUnchanged | lib/galaxy/util/xml_macros.py:108-118 | an element in whose text and attribute values no key occurs, at any depth, is left as it is |
| Tokens.InnerPass | lib/galaxy/util/xml_macros.py:92-96 | one inner pass keeps the token names and their order |
| Tokens.Passes | lib/galaxy/util/xml_macros.py:91-96 | the outer passes keep the token names and their order |
| Tokens.ExpandNestedTokens | lib/galaxy/util/xml_macros.py:90-97 | the nested loops compute `ExpandNested`, raising where the specification function fails |
| Tokens.InnerPassFails | lib/galaxy/util/xml_macros.py:92-95 | the pass for token `i` raises exactly when that token's own value contains its name (with distinct names), and the error names it |
| Tokens.PassesFail | lib/galaxy/util/xml_macros.py:91-95 | the first `n` passes fail exactly when some token before `n`, at the time it is visited, contains its own name; the error names the first such token |
| Tokens.NestedFailsIff | lib/galaxy/util/xml_macros.py:90-97 | `expand_nested_tokens` raises exactly when some token's value, as rewritten by the time that token is visited, contains its own name, naming the first such token |
| Tokens.NestedKeepsKeys | lib/galaxy/util/xml_macros.py:90-97 | on success the result has the same token names in the same order |
| Tokens.InnerPassIdle | lib/galaxy/util/xml_macros.py:92-96 | a name that occurs in no value changes nothing in its pass |
| Tokens.PassesIdle | lib/galaxy/util/xml_macros.py:91-96 | passes for names that occur in no value change nothing |
| Tokens.NestedUnchanged | lib/galaxy/util/xml_macros.py:90-97 | when no value mentions any token name, the map is returned unchanged |
| Tokens.SelfReferenceRejected | lib/galaxy/util/xml_macros.py:93-95 | a token that contains its own name is rejected, naming it, when no earlier name occurs anywhere |
| Tokens.PassesErrStays | lib/galaxy/util/xml_macros.py:95 | the exception of one pass is the final outcome |
| Splice.ElementNode.constructor | lib/galaxy/util/xml_macros.py:277 | the node holds the given element |
| Splice.ElementNode.Insert | lib/galaxy/util/xml_macros.py:296 | `insert(index, child)` puts the child at the index, or at the end when the index is past it; the other children keep their order |
| Splice.ElementNode.RemoveAt | lib/galaxy/util/xml_macros.py:297 | `remove` deletes exactly that child and keeps the others in order |
| Splice.ElementNode.Replace | lib/galaxy/util/xml_macros.py:284-297 | on the query's position (which must exist): the new child list is `Spliced` of the old one, the function `Expansion` uses. The child count changes by `len(targets) - 1`, the siblings before and after are kept in order, and the targets take the query's place, in order |
| Splice.ElementNode.SetChildren | lib/galaxy/util/xml_macros.py:277-281 | afterwards the children are exactly the new children, in order |
| Splice.YieldsInAppend | lib/galaxy/util/xml_macros.py:202-205 | replacing yields in a concatenation replaces them in each part |
| Splice.YieldPosition | lib/galaxy/util/xml_macros.py:157-205 | a yield's position holds the `<expand>` element's children, in order, with the siblings around it processed alike |
| Splice.OtherPosition | lib/galaxy/util/xml_macros.py:202-205 | an element that is not a yield stays in place, with the yields below it replaced |
| Splice.YieldsInLength | lib/galaxy/util/xml_macros.py:202-205 | each top-level yield adds `len(children) - 1` elements |
| Splice.NoYieldLeft | lib/galaxy/util/xml_macros.py:157-205 | when the `<expand>` element's children hold no yield, no yield is left at any depth |
| Splice.AnyTagAppend | lib/galaxy/util/xml_macros.py:202 | `.//yield` finds a yield in a concatenation exactly when it finds one in either part |
| Splice.NoYieldUnchanged | lib/galaxy/util/xml_macros.py:202-205 | a macro without yields is left as it is |
| Splice.ExpandYieldStatements | lib/galaxy/util/xml_macros.py:157-205 | the macro element keeps its tag, attributes and text. No yield is left below it when the `<expand>` element's children hold none, and a macro without yields is left as it is |
| MacroDefs.NewMacroDef | lib/galaxy/util/xml_macros.py:318-332 | the constructor's loops build the parameter dictionary `Parameters` |
| MacroDefs.DeclaredMember | lib/galaxy/util/xml_macros.py:323-329 | a declaration comes from one of the attributes |
| MacroDefs.DeclaredRequired | lib/galaxy/util/xml_macros.py:324-326 | a name is declared required exactly when it is one of the comma-separated names of a `tokens` attribute |
| MacroDefs.DeclaredOptional | lib/galaxy/util/xml_macros.py:327-329 | a name is declared with default `v` exactly when there is an attribute `token_<name>="v"` |
| MacroDefs.ParametersNames | lib/galaxy/util/xml_macros.py:330-331 | the parameter names are exactly the declared names |
| MacroDefs.ParametersValues | lib/galaxy/util/xml_macros.py:330-331 | the last declaration of a name decides its default, with the macro's quote |
| MacroDefs.ParametersQuote | lib/galaxy/util/xml_macros.py:322 | every parameter carries `token_quote`, or `@` without it |
| MacroDefs.TokenQuoteDeclaresQuote | lib/galaxy/util/xml_macros.py:315-316 | the documented quirk: a `token_quote` attribute also declares a parameter `quote` |
| MacroDefs.MacroTokens | lib/galaxy/util/xml_macros.py:334-348 | the binding loop computes `MacroTokensOf`, stopping at the first missing required parameter |
| MacroDefs.BindFromSpec | lib/galaxy/util/xml_macros.py:342-347 | the loop raises exactly when some required parameter is absent, naming the first. Otherwise the result is the bindings put into the map in order |
| MacroDefs.MacroTokensFails | lib/galaxy/util/xml_macros.py:343-345 | `macro_tokens` raises exactly when a required parameter is absent from the `<expand>` element, naming the first one |
| MacroDefs.MacroTokensBinding | lib/galaxy/util/xml_macros.py:343-347 | on success `quote + upper(name) + quote` maps to the attribute's value, or else to the default |
| MacroDefs.MacroTokensNames | lib/galaxy/util/xml_macros.py:346-347 | on success the token names are exactly the quoted upper-cased parameter names |
| MacroLoading.TypedOnly | lib/galaxy/util/xml_macros.py:83-85 | the macros kept are exactly those whose `type` matches |
| MacroLoading.TypedOnlyAppend | lib/galaxy/util/xml_macros.py:83-85 | the comprehension over a concatenation filters each part, so document order is kept |
| MacroLoading.TypedOnlyOne | lib/galaxy/util/xml_macros.py:83-85 | one macro is kept, once, exactly when its `type` matches |
| MacroLoading.MacrosOfTypeSpec | lib/galaxy/util/xml_macros.py:78-87 | the keys are the names of the macros of that type, each once. Every value comes from such a macro with that name |
| MacroLoading.MacrosTypedOnly | lib/galaxy/util/xml_macros.py:79-85 | every collected element is a `<macro>` child of the `<macros>` section whose `type` matches, and nothing is collected without a section |
| MacroLoading.MacrosEl | lib/galaxy/util/xml_macros.py:74-75 | `_macros_el` gives the first `<macros>` child of the root, or nothing exactly when there is none |
| MacroLoading.MacrosOfType | lib/galaxy/util/xml_macros.py:78-87 | `_macros_of_type` gives a dictionary with distinct keys, and an empty one without a `<macros>` section |
| MacroLoading.MacrosOfTypeKeys | lib/galaxy/util/xml_macros.py:83-86 | a name is a key exactly when some collected macro has it |
| MacroLoading.MacrosOfTypeValues | lib/galaxy/util/xml_macros.py:83-86 | every value is `el_func` of a collected macro with that name |
| MacroLoading.MacrosOfTypeLastWins | lib/galaxy/util/xml_macros.py:83-86 | of two macros with the same name, the last one decides the value |
| MacroLoading.TemplateMacroParams | lib/galaxy/util/xml_macros.py:40-49 | the copied dictionary equals the template macros' name-to-text map |
| MacroLoading.LoadEmbeddedMacros | lib/galaxy/util/xml_macros.py:218-242 | the loops compute `EmbeddedMacros` |
| MacroLoading.ConvertExplicit | lib/galaxy/util/xml_macros.py:221-228 | the first loop returns every `<macro>` child in order, with `type="xml"` added where it has no type |
| MacroLoading.ConvertAllShortcuts | lib/galaxy/util/xml_macros.py:232-240 | the `for tag in typed_tag` loop returns the converted templates, then the xml macros, then the tokens |
| MacroLoading.ConvertShortcuts | lib/galaxy/util/xml_macros.py:233-240 | one shortcut round turns each child with that tag into `<macro type=tag>`, in order |
| MacroLoading.EmbeddedMacrosOrder | lib/galaxy/util/xml_macros.py:223-240 | order: explicit macros, then templates, xml macros and tokens, one element per matching child |
| MacroLoading.EmbeddedMacrosTyped | lib/galaxy/util/xml_macros.py:218-242 | every returned element is a `<macro>` with a `type` attribute |
| MacroLoading.ShortcutsTyped | lib/galaxy/util/xml_macros.py:232-240 | a converted shortcut is a `<macro>` whose type is one of the shortcut tags |
| MacroLoading.NormalisedTypes | lib/galaxy/util/xml_macros.py:226-239 | a `<macro>` without `type` gets `xml`, and one with it keeps it. A shortcut gets `type = tag`. Nothing else about the element changes |
| MacroLoading.ImportTexts | lib/galaxy/util/xml_macros.py:260-268 | the paths are the texts of the `<import>` children, one for each, in order |
| MacroLoading.ImportedMacroPaths | lib/galaxy/util/xml_macros.py:260-268 | the loop collects the texts of the `<import>` children in order, and nothing without a section |
| MacroLoading.ImportedMacroPathsOf | lib/galaxy/util/xml_macros.py:60-62 | `imported_macro_paths` gives the import texts of the first `<macros>` child, or nothing without one |
| Expansion.FindExpandFrom | lib/galaxy/util/xml_macros.py:134 | `find('.//expand')` gives a path to an `<expand>` element. No earlier subtree holds one. It finds nothing exactly when there is none below |
| Expansion.FindExpandFirst | lib/galaxy/util/xml_macros.py:134 | the path found is first in document order: it stops at the first `<expand>` on its way down, and below a child that is not one it is that child's own first match |
| Expansion.FindExpand | lib/galaxy/util/xml_macros.py:134 | `element.find('.//expand')` gives a path to an `<expand>` below the element, or nothing exactly when there is none |
| Expansion.ExpandMacro | lib/galaxy/util/xml_macros.py:140-154 | a missing `macro` attribute or an unknown macro name raises. A missing required parameter raises after the macro's own content has been expanded. Success keeps the element's tag, attributes and text. The `<expand>` element's place then holds the macro's children, with the yields filled from the `<expand>` element's children, the macros inside expanded, and the parameter tokens substituted, in that order. An error from the nested expansion is passed on, and the step succeeds exactly when none of these checks fails |
| Expansion.ExpandMacroLength | lib/galaxy/util/xml_macros.py:145-154 | the `<expand>` element's place holds one element per child of the macro, except that each top-level yield contributes all of the `<expand>` element's children |
| Expansion.TokenMacroSpliced | lib/galaxy/util/xml_macros.py:145-154 | a macro without yields or nested expands is spliced in with its parameter tokens substituted, or raises the missing-parameter error |
| Expansion.ReplaceAtKeeps | lib/galaxy/util/xml_macros.py:284-297 | at the top level the replacement is the splice of `_xml_replace`. Deeper, only the child on the path changes |
| Expansion.ExpandAll | lib/galaxy/util/xml_macros.py:133-137 | the `while True` loop ends only when no `<expand>` is left below the element, and it keeps the element's own tag, attributes and text |
| Expansion.ExpandEach | lib/galaxy/util/xml_macros.py:132-137 | after success there are as many elements as before, and no `<expand>` is left below any of them |
| Expansion.ExpandMacros | lib/galaxy/util/xml_macros.py:128-137 | with neither macros nor tokens nothing changes. Otherwise success leaves as many elements, with no `<expand>` below any of them |
| Expansion.ExpandEachIdle | lib/galaxy/util/xml_macros.py:132-136 | elements without an `<expand>` below come back unchanged |
| Expansion.PlainMacroSpliced | lib/galaxy/util/xml_macros.py:140-154 | a macro without yields, nested expands or parameters is spliced in verbatim in place of the `<expand>` element |
| Scenarios.YieldInsideChildren | lib/galaxy/util/xml_macros.py:162-183 | the first documented yield example |
| Scenarios.YieldAmongSiblings | lib/galaxy/util/xml_macros.py:184-200 | the second documented yield example |
| Scenarios.NestedTokenResolved | lib/galaxy/util/xml_macros.py:90-97 | `@B@ = y@A@` with `@A@ = x` resolves to `yx` |
| Scenarios.MutualTokensRejected | lib/galaxy/util/xml_macros.py:90-97 | `@A@ = @B@` with `@B@ = @A@` is rejected, naming `@B@` |
| Scenarios.OptionalParamDeclared | lib/galaxy/util/xml_macros.py:318-332 | `token_v="1"` declares the optional parameter `v`, quoted with `@` |
| Scenarios.OptionalParamBound | lib/galaxy/util/xml_macros.py:334-348 | `v="2"` on the `<expand>` element binds `@V@` to `2` |
| Scenarios.ParameterPassed | lib/galaxy/util/xml_macros.py:128-154 | one complete expansion with a parameter passed |

## Left out

- `raw_xml_tree`, `_load_macro_file`, `_load_imported_macros`, `_import_macros` and `_load_macros` are not modelled. They read files through `parse_xml` and `os.path`.
- `load` and `load_with_references` are not modelled. They combine that file loading with the modelled steps, and they also delete non-template `<macro>`s through XPath.
- The lxml queries `find('.//expand')`, `findall('.//yield')`, `find('..')` and `xpath('//macro')` are foreign library calls. They are replaced by explicit traversal: paths from the expanding element, and the parent found along the path.
- Object identity is not modelled. `_xml_replace` finds the query by identity, and the model names it by position instead (`Splice.ElementNode.Replace`, `Expansion.ReplaceAt`). The search loop and its `assert matching_index >= 0` become the precondition that the position exists.
- Expansion.ExpandAll: the `while True` loop of `_expand_macros` need not end, since a macro may expand itself. Each macro expansion consumes one unit of `fuel`, and running out gives `ExpansionBoundReached`, which the source never raises.
- Expansion.ExpandMacro: macro definitions are values here, taken before expansion starts. In the source, `XmlMacroDef.element` is the `<macro>` element inside the tree's own `<macros>` section (xml_macros.py:319). `_expand_macros([root], …)` searches all of the root, `<macros>` included. An `<expand>` inside a definition is therefore expanded in place in that element. Every later use copies the already-expanded definition (xml_macros.py:145). The model does not capture this. For example, take X = `<macro type="xml" name="X" tokens="p"><expand macro="Y"/></macro>` and Y = `<macro type="xml" name="Y"><param value="@P@"/></macro>`, followed by `<expand macro="X" p="1"/>`. The source gives `<param value="1"/>`: Y is spliced into X's definition first, and then X's `@P@` is substituted. The model gives `<param value="@P@"/>`: the inner `<expand>` is carried past X's token step and expanded afterwards.
- Comments and processing instructions are not modelled: `Element` holds elements only. lxml's child iteration also yields them. `_expand_tokens` substitutes tokens in a comment's text (xml_macros.py:104-105, 118), and the index in `_xml_replace` (xml_macros.py:288) counts them. Tool files are parsed with comments removed (xml_macros.py:56), but `_load_macro_file` keeps them, so imported macros can carry comments.
- Element tails (text after an element) are not modelled. The processor never reads or writes them, though lxml moves them along with spliced elements.
- An absent text (`None`) and the empty text are one value, `""`. The source tests text only for truthiness. So an `<import>` without text gives `""` where the source gives `None`, and a `<template>` macro without text maps to `""` where the source gives `None`.
- Strings.Upper maps only ASCII letters. Python's `str.upper` also maps other letters.
- Expansion.ExpandMacro: the text of the `UnknownMacro` message, which lists the known macro names, is not modelled. Only the failing name is kept. When an xml macro without a `name` exists, the source's `', '.join(macros.keys())` (xml_macros.py:143) raises a `TypeError` instead of the assertion. The model reports `UnknownMacro` in that case too.
- Tokens.ExpandNestedTokens: token maps are keyed by strings. A `<token>` without a `name` gives the key `None` in the source (xml_macros.py:21, 83), and `expand_nested_tokens` then raises a `TypeError` at `token_name in current_token_value` (xml_macros.py:93). That path is not modelled.
- `_load_embedded_macros` changes the `<macros>` section's children in place. The model returns the converted copies and leaves the section as it was.
- Exceptions are values: each `assert`, `ValueError` and `Exception` that the source raises on purpose becomes one `Error` constructor. The incidental `TypeError`s listed above are not modelled.
- Strings.Split: only the one-character separator that the source uses is modelled.
- Handing `template_macro_params`' result to the Cheetah templating engine is outside the processor and is not modelled.
