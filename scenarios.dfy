/** Worked instances of the model: the documented yield examples, nested
    tokens that resolve and tokens that refer to each other, and a macro
    definition read from its attributes. */
module Scenarios {
  import opened Wrappers
  import opened Dicts
  import opened XmlTree
  import opened Tokens
  import opened Strings
  import opened Splice
  import opened MacroDefs
  import opened Expansion

  function Leaf(tag: string): Element
  {
    Element(tag, [], "", [])
  }

  /** The first documented example: each `<yield/>` nested in `<A>` and
      `<B>` is replaced by both children of the `<expand>` element. */
  lemma YieldInsideChildren()
    ensures var expandEl := Element("expand", [("macro", "test")], "", [Leaf("sub_of_expand_1"), Leaf("sub_of_expand_2")]);
      var macroDef := Element("xml", [("name", "test")], "",
        [Element("A", [], "", [Leaf("yield")]), Element("B", [], "", [Leaf("yield")])]);
      ExpandYieldStatements(macroDef, expandEl) == Element("xml", [("name", "test")], "",
        [Element("A", [], "", [Leaf("sub_of_expand_1"), Leaf("sub_of_expand_2")]),
         Element("B", [], "", [Leaf("sub_of_expand_1"), Leaf("sub_of_expand_2")])])
  {
    var kids := [Leaf("sub_of_expand_1"), Leaf("sub_of_expand_2")];
    assert YieldsIn([Leaf("yield")], kids) == kids;
  }

  /** The second documented example: yields directly below the macro are
      replaced in place, between the untouched siblings. */
  lemma YieldAmongSiblings()
    ensures var expandEl := Element("expand", [("macro", "test")], "", [Leaf("sub_of_expand_1"), Leaf("sub_of_expand_2")]);
      var macroDef := Element("xml", [("name", "test")], "", [Leaf("blah"), Leaf("yield"), Leaf("blah"), Leaf("yield")]);
      ExpandYieldStatements(macroDef, expandEl) == Element("xml", [("name", "test")], "",
        [Leaf("blah"), Leaf("sub_of_expand_1"), Leaf("sub_of_expand_2"), Leaf("blah"), Leaf("sub_of_expand_1"), Leaf("sub_of_expand_2")])
  {
    var kids := [Leaf("sub_of_expand_1"), Leaf("sub_of_expand_2")];
    var half := [Leaf("blah"), Leaf("yield")];
    assert YieldsIn([Leaf("yield")], kids) == kids;
    assert YieldsIn(half, kids) == [Leaf("blah")] + kids;
    assert half + half == [Leaf("blah"), Leaf("yield"), Leaf("blah"), Leaf("yield")];
    YieldsInAppend(half, half, kids);
  }

  /** A token whose value mentions an earlier token gets that token's value. */
  lemma NestedTokenResolved()
    ensures ExpandNested([("@A@", "x"), ("@B@", "y@A@")]) == Ok([("@A@", "x"), ("@B@", "yx")])
  {
    var t := [("@A@", "x"), ("@B@", "y@A@")];
    var s := [("@A@", "x"), ("@B@", "yx")];
    assert !Contains("x", "@A@");
    assert Contains("y@A@", "@A@") by { assert Contains("@A@", "@A@"); }
    assert Replace("y@A@", "@A@", "x") == "yx" by {
      assert Replace("", "@A@", "x") == "";
      assert Replace("@A@", "@A@", "x") == "x";
    }
    assert t[1 := ("@B@", "yx")] == s;
    assert Passes(t, 1) == Ok(s);
    assert !Contains("x", "@B@");
    assert !Contains("yx", "@B@") by { assert !Contains("x", "@B@"); }
    assert InnerPass(s, 1, 0) == Ok(s);
  }

  /** Two tokens that mention each other: the first pass rewrites `@B@` to
      itself, and the second pass rejects it. */
  lemma MutualTokensRejected()
    ensures ExpandNested([("@A@", "@B@"), ("@B@", "@A@")]) == Err(SelfContainingToken("@B@"))
  {
    var t := [("@A@", "@B@"), ("@B@", "@A@")];
    var s := [("@A@", "@B@"), ("@B@", "@B@")];
    var u := [("@A@", "@B@"), ("@B@", "@B@")];
    assert !Contains("@B@", "@A@") by {
      assert "@B@"[1..] == "B@" && "B@"[1..] == "@" && "@"[1..] == "";
      assert !Contains("", "@A@");
      assert !Contains("@", "@A@");
      assert !Contains("B@", "@A@");
      assert !("@A@" <= "@B@") by { assert "@A@"[1] != "@B@"[1]; }
    }
    assert Contains("@A@", "@A@");
    assert Replace("@A@", "@A@", "@B@") == "@B@" by { assert Replace("", "@A@", "@B@") == ""; }
    assert t[1 := ("@B@", "@B@")] == s;
    assert Passes(t, 1) == Ok(s);
    assert Contains("@B@", "@B@");
    assert Replace("@B@", "@B@", "@B@") == "@B@" by { ReplaceIdentity("@B@", "@B@"); }
    assert s[0 := ("@A@", "@B@")] == u;
    assert InnerPass(s, 1, 0) == InnerPass(u, 1, 1);
  }

  /** `<xml name="m" token_v="1"><param value="@V@"/></xml>`. */
  function OptionalParamMacro(): Element
  {
    Element("xml", [("name", "m"), ("token_v", "1")], "", [Element("param", [("value", "@V@")], "", [])])
  }

  /** `<expand macro="m" v="2"/>`. */
  function ExpandWithV(): Element
  {
    Element("expand", [("macro", "m"), ("v", "2")], "", [])
  }

  /** `token_v` declares the optional parameter `v`, quoted with `@`. */
  lemma OptionalParamDeclared()
    ensures MacroDefOf(OptionalParamMacro()).parameters == [("v", Parameter("@", Value("1")))]
  {
    var attrs := OptionalParamMacro().attrs;
    assert !(TokenPrefix <= "name");
    assert "token_v"[|TokenPrefix|..] == "v";
    assert attrs[..1][..0] == [];
    assert Declared(attrs) == [("v", Value("1"))];
    assert !HasKey(attrs, "token_quote");
  }

  /** The value given on the `<expand>` element wins over the default. */
  lemma OptionalParamBound()
    ensures MacroTokensOf(MacroDefOf(OptionalParamMacro()), ExpandWithV()) == Ok([("@V@", "2")])
  {
    OptionalParamDeclared();
    assert Upper("v") == "V";
    assert TokenName("v", Parameter("@", Value("1"))) == "@V@";
    assert Bound("v", Parameter("@", Value("1")), ExpandWithV().attrs) == Value("2");
    assert Put([], "@V@", "2") == [("@V@", "2")];
  }

  /** The macro's child with `@V@` bound to `2`. */
  lemma OptionalParamSubstituted()
    ensures ExpandList(OptionalParamMacro().children, [("@V@", "2")]) == [Element("param", [("value", "2")], "", [])]
  {
    var kid := OptionalParamMacro().children[0];
    assert Replace("@V@", "@V@", "2") == "2" by { assert Replace("", "@V@", "2") == ""; }
    assert ExpandStr("@V@", [("@V@", "2")]) == "2" by { assert Contains("@V@", "@V@"); }
    assert ExpandAttrs(kid.attrs, [("@V@", "2")]) == [("value", "2")];
    assert ExpandList(kid.children, [("@V@", "2")]) == [];
  }

  /** Nothing in the macro is a yield or an `<expand>`. */
  lemma OptionalParamPlain(macros: Expansion.MacroMap)
    ensures ExpandMacros(ExpandYieldStatements(OptionalParamMacro(), ExpandWithV()).children, macros, [], 0) ==
      Ok(OptionalParamMacro().children)
  {
    var kids := OptionalParamMacro().children;
    assert !AnyTag(kids[0].children, "yield");
    assert !AnyTag(kids, "yield");
    NoYieldUnchanged(kids, ExpandWithV().children);
    assert ExpandYieldStatements(OptionalParamMacro(), ExpandWithV()).children == kids;
    ExpandEachIdle(kids, macros, [], 0);
  }

  /** The one `_expand_macro` step. */
  lemma ParameterStep()
    ensures ExpandMacro(Element("inputs", [], "", [ExpandWithV()]), [0], [(Some("m"), MacroDefOf(OptionalParamMacro()))], [], 0) ==
      Ok(Element("inputs", [], "", [Element("param", [("value", "2")], "", [])]))
  {
    var e := Element("inputs", [], "", [ExpandWithV()]);
    var macros := [(Some("m"), MacroDefOf(OptionalParamMacro()))];
    var targets := [Element("param", [("value", "2")], "", [])];
    OptionalParamBound();
    OptionalParamPlain(macros);
    OptionalParamSubstituted();
    assert Attr(ExpandWithV(), "macro") == Some("m");
    assert Get(macros, Some("m")) == Some(MacroDefOf(OptionalParamMacro()));
    assert ReplaceAt(e.children, [0], targets) == targets by {
      assert Spliced(e.children, 0, targets) == targets;
    }
  }

  /** The whole expansion: the `<expand>` element is replaced by the
      macro's child, in which `@V@` now reads `2`. */
  lemma ParameterPassed()
    ensures var e := Element("inputs", [], "", [ExpandWithV()]);
      ExpandAll(e, [(Some("m"), MacroDefOf(OptionalParamMacro()))], [], 1) ==
        Ok(Element("inputs", [], "", [Element("param", [("value", "2")], "", [])]))
  {
    var e := Element("inputs", [], "", [ExpandWithV()]);
    var result := Element("inputs", [], "", [Element("param", [("value", "2")], "", [])]);
    var macros := [(Some("m"), MacroDefOf(OptionalParamMacro()))];
    assert FindExpand(e) == Some([0]);
    ParameterStep();
    assert ExpandAll(e, macros, [], 1) == ExpandAll(result, macros, [], 0);
    assert FindExpand(result).None? by {
      assert !AnyTag(result.children, "expand") by { assert !AnyTag(result.children[0].children, "expand"); }
    }
  }
}
