/** `XmlMacroDef`: a macro element together with its parameters, and
    `macro_tokens`, which binds the parameters against the attributes of an
    `<expand>` element. */
module MacroDefs {
  import opened Wrappers
  import opened Strings
  import opened Dicts
  import opened XmlTree
  import opened Tokens

  /** A parameter's default: `Required` is the source's `REQUIRED_PARAMETER`. */
  datatype Default = Required | Value(s: string) {
    function GetOr(otherwise: string): string
    {
      if Value? then s else otherwise
    }
  }

  /** The quote character (a string, `'@'` unless `token_quote` says
      otherwise) and the default. */
  datatype Parameter = Parameter(quote: string, default: Default)

  datatype XmlMacroDef = XmlMacroDef(element: Element, parameters: Dict<string, Parameter>)

  const TokenPrefix: string := "token_"

  /** `el.attrib.get("token_quote", "@")`. */
  function QuoteOf(el: Element): string
  {
    Attr(el, "token_quote").GetOr("@")
  }

  function RequiredAll(names: seq<string>): seq<(string, Default)>
  {
    seq(|names|, i requires 0 <= i < |names| => (names[i], Required))
  }

  /** What one attribute declares: every comma-separated name of `tokens`
      is required; `token_XXX` declares `XXX` with the attribute value as
      default (so `token_quote` itself declares `quote`). */
  function DeclaredBy(attr: (string, string)): seq<(string, Default)>
  {
    if attr.0 == "tokens" then RequiredAll(Split(attr.1, ','))
    else if TokenPrefix <= attr.0 then [(attr.0[|TokenPrefix|..], Value(attr.1))]
    else []
  }

  /** The `tokens` list `__init__` builds, attribute by attribute. */
  function Declared(attrs: Dict<string, string>): seq<(string, Default)>
    decreases |attrs|
  {
    if attrs == [] then []
    else Declared(attrs[..|attrs| - 1]) + DeclaredBy(attrs[|attrs| - 1])
  }

  function Quoted(decls: seq<(string, Default)>, quote: string): seq<(string, Parameter)>
  {
    seq(|decls|, i requires 0 <= i < |decls| => (decls[i].0, Parameter(quote, decls[i].1)))
  }

  /** `self.parameters`: the declarations put into a dictionary in order. */
  function Parameters(el: Element): Dict<string, Parameter>
  {
    FromPairs(Quoted(Declared(el.attrs), QuoteOf(el)))
  }

  function MacroDefOf(el: Element): XmlMacroDef
  {
    XmlMacroDef(el, Parameters(el))
  }

  /** `XmlMacroDef.__init__`. */
  method NewMacroDef(el: Element) returns (d: XmlMacroDef)
    ensures d == MacroDefOf(el)
  {
    var parameters: Dict<string, Parameter> := [];
    var tokens: seq<(string, Default)> := [];
    var tokenQuote := Attr(el, "token_quote").GetOr("@");
    for i := 0 to |el.attrs|
      invariant tokens == Declared(el.attrs[..i])
    {
      assert el.attrs[..i + 1][..i] == el.attrs[..i];
      var (key, value) := el.attrs[i];
      if key == "tokens" {
        var names := Split(value, ',');
        for k := 0 to |names|
          invariant tokens == Declared(el.attrs[..i]) + RequiredAll(names[..k])
        {
          assert RequiredAll(names[..k + 1]) == RequiredAll(names[..k]) + [(names[k], Required)];
          tokens := tokens + [(names[k], Required)];
        }
        assert names[..|names|] == names;
      } else if TokenPrefix <= key {
        tokens := tokens + [(key[|TokenPrefix|..], Value(value))];
      }
    }
    assert el.attrs[..|el.attrs|] == el.attrs;
    for j := 0 to |tokens|
      invariant PutAll(parameters, Quoted(tokens, tokenQuote)[j..]) == Parameters(el)
    {
      assert Quoted(tokens, tokenQuote)[j..][1..] == Quoted(tokens, tokenQuote)[j + 1..];
      var (name, default) := tokens[j];
      parameters := Put(parameters, name, Parameter(tokenQuote, default));
    }
    d := XmlMacroDef(el, parameters);
  }

  lemma {:induction false} DeclaredMember(attrs: Dict<string, string>, x: (string, Default))
    ensures x in Declared(attrs) <==> exists i :: 0 <= i < |attrs| && x in DeclaredBy(attrs[i])
    decreases |attrs|
  {
    if attrs != [] {
      var n := |attrs| - 1;
      DeclaredMember(attrs[..n], x);
      assert Declared(attrs) == Declared(attrs[..n]) + DeclaredBy(attrs[n]);
      if x in Declared(attrs[..n]) {
        var i :| 0 <= i < n && x in DeclaredBy(attrs[..n][i]);
        assert attrs[..n][i] == attrs[i];
      }
      if exists i :: 0 <= i < |attrs| && x in DeclaredBy(attrs[i]) {
        var i :| 0 <= i < |attrs| && x in DeclaredBy(attrs[i]);
        if i < n {
          assert attrs[..n][i] == attrs[i];
        }
      }
    }
  }

  /** A name is a required parameter exactly when it is one of the
      comma-separated names of a `tokens` attribute. */
  lemma DeclaredRequired(attrs: Dict<string, string>, name: string)
    ensures (name, Required) in Declared(attrs) <==>
      exists i :: 0 <= i < |attrs| && attrs[i].0 == "tokens" && name in Split(attrs[i].1, ',')
  {
    DeclaredMember(attrs, (name, Required));
    forall i | 0 <= i < |attrs|
      ensures (name, Required) in DeclaredBy(attrs[i]) <==> attrs[i].0 == "tokens" && name in Split(attrs[i].1, ',')
    {
      if attrs[i].0 == "tokens" && name in Split(attrs[i].1, ',') {
        var parts := Split(attrs[i].1, ',');
        var k :| 0 <= k < |parts| && parts[k] == name;
        assert RequiredAll(parts)[k] == (name, Required);
      }
    }
  }

  /** A name is declared with default `v` exactly when there is an
      attribute `token_<name>="v"`. */
  lemma DeclaredOptional(attrs: Dict<string, string>, name: string, v: string)
    ensures (name, Value(v)) in Declared(attrs) <==>
      exists i :: 0 <= i < |attrs| && attrs[i] == (TokenPrefix + name, v)
  {
    DeclaredMember(attrs, (name, Value(v)));
    forall i | 0 <= i < |attrs|
      ensures (name, Value(v)) in DeclaredBy(attrs[i]) <==> attrs[i] == (TokenPrefix + name, v)
    {
      var key := attrs[i].0;
      if attrs[i] == (TokenPrefix + name, v) {
        assert key != "tokens" by { assert key[5] == '_'; }
        assert TokenPrefix <= key;
        assert key[|TokenPrefix|..] == name;
      }
      if (name, Value(v)) in DeclaredBy(attrs[i]) {
        assert key != "tokens" && TokenPrefix <= key;
        assert key == TokenPrefix + key[|TokenPrefix|..];
      }
    }
  }

  /** The parameter names are exactly the declared names. */
  lemma ParametersNames(el: Element, name: string)
    ensures HasKey(Parameters(el), name) <==> exists d :: (name, d) in Declared(el.attrs)
  {
    var decls := Declared(el.attrs);
    var ps := Quoted(decls, QuoteOf(el));
    PutAllHasKey([], ps, name);
    if exists d :: (name, d) in decls {
      var d :| (name, d) in decls;
      var i :| 0 <= i < |decls| && decls[i] == (name, d);
      assert ps[i].0 == name;
    }
    if exists i :: 0 <= i < |ps| && ps[i].0 == name {
      var i :| 0 <= i < |ps| && ps[i].0 == name;
      assert (name, decls[i].1) in decls;
    }
  }

  /** Every parameter carries the macro's quote string, and the last
      declaration of a name decides its default. */
  lemma ParametersValues(el: Element, i: nat)
    requires i < |Declared(el.attrs)|
    requires forall j :: i < j < |Declared(el.attrs)| ==> Declared(el.attrs)[j].0 != Declared(el.attrs)[i].0
    ensures Get(Parameters(el), Declared(el.attrs)[i].0) == Some(Parameter(QuoteOf(el), Declared(el.attrs)[i].1))
  {
    PutAllGetLast([], Quoted(Declared(el.attrs), QuoteOf(el)), i);
  }

  lemma ParametersQuote(el: Element, name: string)
    ensures Get(Parameters(el), name).Some? ==> Get(Parameters(el), name).value.quote == QuoteOf(el)
  {
    PutAllGetFrom([], Quoted(Declared(el.attrs), QuoteOf(el)), name);
  }

  /** The documented quirk: a `token_quote` attribute also declares an
      optional parameter named `quote`. */
  lemma TokenQuoteDeclaresQuote(el: Element)
    requires HasKey(el.attrs, "token_quote")
    ensures HasKey(Parameters(el), "quote")
  {
    var i :| 0 <= i < |el.attrs| && Keys(el.attrs)[i] == "token_quote";
    assert TokenPrefix + "quote" == "token_quote";
    assert el.attrs[i] == (TokenPrefix + "quote", el.attrs[i].1);
    DeclaredOptional(el.attrs, "quote", el.attrs[i].1);
    ParametersNames(el, "quote");
  }

  // ---------------------------------------------------------------------
  // macro_tokens

  /** `quote + key.upper() + quote`. */
  function TokenName(name: string, p: Parameter): string
  {
    p.quote + Upper(name) + p.quote
  }

  /** `expand_el.attrib.get(key, default_val)`: the attribute when present,
      otherwise the default, which may be `Required`. */
  function Bound(name: string, p: Parameter, attrs: Dict<string, string>): Default
  {
    match Get(attrs, name)
    case Some(v) => Value(v)
    case None => p.default
  }

  /** The loop of `macro_tokens` from parameter `params[0]` on, with the
      tokens bound so far in `acc`. */
  function BindFrom(acc: TokenMap, params: Dict<string, Parameter>, attrs: Dict<string, string>): Result<TokenMap, Error>
    decreases |params|
  {
    if params == [] then Ok(acc)
    else
      match Bound(params[0].0, params[0].1, attrs)
      case Required => Err(MissingRequiredParameter(params[0].0))
      case Value(v) => BindFrom(Put(acc, TokenName(params[0].0, params[0].1), v), params[1..], attrs)
  }

  function MacroTokensOf(def: XmlMacroDef, expandEl: Element): Result<TokenMap, Error>
  {
    BindFrom([], def.parameters, expandEl.attrs)
  }

  /** `XmlMacroDef.macro_tokens(expand_el)`. */
  method MacroTokens(def: XmlMacroDef, expandEl: Element) returns (r: Result<TokenMap, Error>)
    ensures r == MacroTokensOf(def, expandEl)
  {
    var tokens: TokenMap := [];
    for i := 0 to |def.parameters|
      invariant BindFrom(tokens, def.parameters[i..], expandEl.attrs) == MacroTokensOf(def, expandEl)
    {
      assert def.parameters[i..][1..] == def.parameters[i + 1..];
      var (key, param) := def.parameters[i];
      var tokenValue := match Get(expandEl.attrs, key) case Some(v) => Value(v) case None => param.default;
      if tokenValue == Required {
        return Err(MissingRequiredParameter(key));
      }
      var tokenName := param.quote + Upper(key) + param.quote;
      tokens := Put(tokens, tokenName, tokenValue.s);
    }
    return Ok(tokens);
  }

  /** A required parameter that the `<expand>` element does not give. */
  predicate Missing(param: (string, Parameter), attrs: Dict<string, string>)
  {
    param.1.default == Required && !HasKey(attrs, param.0)
  }

  /** The token binding of every parameter, when none is missing. */
  function Bindings(params: Dict<string, Parameter>, attrs: Dict<string, string>): seq<(string, string)>
  {
    seq(|params|, i requires 0 <= i < |params| =>
      (TokenName(params[i].0, params[i].1), Bound(params[i].0, params[i].1, attrs).GetOr("")))
  }

  lemma {:induction false} BindFromSpec(acc: TokenMap, params: Dict<string, Parameter>, attrs: Dict<string, string>)
    ensures BindFrom(acc, params, attrs).Err? <==> exists i :: 0 <= i < |params| && Missing(params[i], attrs)
    ensures BindFrom(acc, params, attrs).Err? ==>
      exists i :: 0 <= i < |params| && Missing(params[i], attrs) &&
        BindFrom(acc, params, attrs).error == MissingRequiredParameter(params[i].0) &&
        forall j :: 0 <= j < i ==> !Missing(params[j], attrs)
    ensures BindFrom(acc, params, attrs).Ok? ==> BindFrom(acc, params, attrs).value == PutAll(acc, Bindings(params, attrs))
    decreases |params|
  {
    if params != [] {
      var p := params[0];
      var attrs' := attrs;
      assert Missing(p, attrs) <==> Bound(p.0, p.1, attrs) == Required;
      if Bound(p.0, p.1, attrs) != Required {
        var acc' := Put(acc, TokenName(p.0, p.1), Bound(p.0, p.1, attrs).s);
        BindFromSpec(acc', params[1..], attrs);
        assert forall i :: 0 <= i < |params[1..]| ==> params[1..][i] == params[i + 1];
        if exists i :: 0 <= i < |params| && Missing(params[i], attrs) {
          var i :| 0 <= i < |params| && Missing(params[i], attrs);
          assert Missing(params[1..][i - 1], attrs);
        }
        var r := BindFrom(acc, params, attrs);
        if r.Err? {
          var i :| 0 <= i < |params[1..]| && Missing(params[1..][i], attrs) &&
            r.error == MissingRequiredParameter(params[1..][i].0) &&
            forall j :: 0 <= j < i ==> !Missing(params[1..][j], attrs);
          assert Missing(params[i + 1], attrs) && r.error == MissingRequiredParameter(params[i + 1].0);
          assert forall j :: 0 <= j < i + 1 ==> !Missing(params[j], attrs);
        } else {
          assert Bindings(params, attrs)[1..] == Bindings(params[1..], attrs);
        }
      } else {
        assert Missing(params[0], attrs);
      }
    }
  }

  /** `macro_tokens` raises exactly when a required parameter is absent from
      the `<expand>` element, naming the first such parameter. */
  lemma MacroTokensFails(def: XmlMacroDef, expandEl: Element)
    ensures MacroTokensOf(def, expandEl).Err? <==>
      exists i :: 0 <= i < |def.parameters| && Missing(def.parameters[i], expandEl.attrs)
    ensures MacroTokensOf(def, expandEl).Err? ==>
      exists i :: 0 <= i < |def.parameters| && Missing(def.parameters[i], expandEl.attrs) &&
        MacroTokensOf(def, expandEl).error == MissingRequiredParameter(def.parameters[i].0) &&
        forall j :: 0 <= j < i ==> !Missing(def.parameters[j], expandEl.attrs)
  {
    BindFromSpec([], def.parameters, expandEl.attrs);
  }

  /** On success the token names are the quoted upper-cased parameter names,
      and each is bound to the attribute value or else the default (the last
      parameter wins when two names quote to the same token). */
  lemma MacroTokensBinding(def: XmlMacroDef, expandEl: Element, i: nat)
    requires MacroTokensOf(def, expandEl).Ok? && i < |def.parameters|
    requires forall j :: i < j < |def.parameters| ==>
      TokenName(def.parameters[j].0, def.parameters[j].1) != TokenName(def.parameters[i].0, def.parameters[i].1)
    ensures var p := def.parameters[i];
      && (HasKey(expandEl.attrs, p.0) || p.1.default.Value?)
      && Get(MacroTokensOf(def, expandEl).value, TokenName(p.0, p.1)) ==
         Some(if HasKey(expandEl.attrs, p.0) then Get(expandEl.attrs, p.0).value else p.1.default.s)
  {
    BindFromSpec([], def.parameters, expandEl.attrs);
    var b := Bindings(def.parameters, expandEl.attrs);
    assert !Missing(def.parameters[i], expandEl.attrs);
    PutAllGetLast([], b, i);
  }

  lemma MacroTokensNames(def: XmlMacroDef, expandEl: Element, name: string)
    requires MacroTokensOf(def, expandEl).Ok?
    ensures HasKey(MacroTokensOf(def, expandEl).value, name) <==>
      exists i :: 0 <= i < |def.parameters| && name == TokenName(def.parameters[i].0, def.parameters[i].1)
  {
    BindFromSpec([], def.parameters, expandEl.attrs);
    var b := Bindings(def.parameters, expandEl.attrs);
    PutAllHasKey([], b, name);
    assert forall i :: 0 <= i < |b| ==> b[i].0 == TokenName(def.parameters[i].0, def.parameters[i].1);
  }
}
