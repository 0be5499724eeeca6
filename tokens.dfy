/** Token substitution (`_expand_tokens_str`, `_expand_tokens_for_el`,
    `_expand_tokens`) and nested-token resolution (`expand_nested_tokens`).
    A token map is a Python dictionary from a key such as `@NAME@` to its
    value; its iteration order decides which replacement happens first. */
module Tokens {
  import opened Wrappers
  import opened Strings
  import opened Dicts
  import opened XmlTree

  type TokenMap = Dict<string, string>

  // ---------------------------------------------------------------------
  // _expand_tokens_str

  /** One round of the loop: `if key in s: s = s.replace(key, value)`. */
  function Substitute(s: string, token: (string, string)): string
  {
    if Contains(s, token.0) then Replace(s, token.0, token.1) else s
  }

  /** The tokens applied one after the other, in map order. */
  function ExpandStr(s: string, tokens: TokenMap): string
    decreases |tokens|
  {
    if tokens == [] then s else ExpandStr(Substitute(s, tokens[0]), tokens[1..])
  }

  method ExpandTokensStr(s: string, tokens: TokenMap) returns (r: string)
    ensures r == ExpandStr(s, tokens)
  {
    r := s;
    for i := 0 to |tokens|
      invariant ExpandStr(r, tokens[i..]) == ExpandStr(s, tokens)
    {
      assert tokens[i..][1..] == tokens[i + 1..];
      var (key, value) := tokens[i];
      if Contains(r, key) {
        r := Replace(r, key, value);
      }
    }
  }

  /** Independent reference: `str.replace` for each token in map order,
      without the `key in s` guard, as a fold over the map's prefixes. */
  function ReplaceInOrder(s: string, tokens: TokenMap): string
    decreases |tokens|
  {
    if tokens == [] then s
    else
      var last := tokens[|tokens| - 1];
      Replace(ReplaceInOrder(s, tokens[..|tokens| - 1]), last.0, last.1)
  }

  /** The guard `key in s` changes nothing: substitution is plain replacement. */
  lemma SubstituteIsReplace(s: string, token: (string, string))
    ensures Substitute(s, token) == Replace(s, token.0, token.1)
  {
    if !Contains(s, token.0) {
      ReplaceAbsent(s, token.0, token.1);
    }
  }

  lemma {:induction false} ExpandStrAppend(s: string, t1: TokenMap, t2: TokenMap)
    ensures ExpandStr(s, t1 + t2) == ExpandStr(ExpandStr(s, t1), t2)
    decreases |t1|
  {
    if t1 != [] {
      assert (t1 + t2)[1..] == t1[1..] + t2;
      ExpandStrAppend(Substitute(s, t1[0]), t1[1..], t2);
    } else {
      assert t1 + t2 == t2;
    }
  }

  /** `_expand_tokens_str` is `replace(key, value)` for each token in map order. */
  lemma {:induction false} ExpandStrIsReplaceInOrder(s: string, tokens: TokenMap)
    ensures ExpandStr(s, tokens) == ReplaceInOrder(s, tokens)
    decreases |tokens|
  {
    if tokens != [] {
      var n := |tokens| - 1;
      var init := tokens[..n];
      assert tokens == init + [tokens[n]];
      ExpandStrAppend(s, init, [tokens[n]]);
      ExpandStrIsReplaceInOrder(s, init);
      SubstituteIsReplace(ExpandStr(s, init), tokens[n]);
    }
  }

  /** A string that mentions no token key comes back unchanged. */
  lemma {:induction false} ExpandStrUnchanged(s: string, tokens: TokenMap)
    requires forall k :: 0 <= k < |tokens| ==> !Contains(s, tokens[k].0)
    ensures ExpandStr(s, tokens) == s
    decreases |tokens|
  {
    if tokens != [] {
      ExpandStrUnchanged(s, tokens[1..]);
    }
  }

  /** Tokens that stand for themselves change nothing. */
  lemma {:induction false} ExpandStrSelfTokens(s: string, tokens: TokenMap)
    requires forall k :: 0 <= k < |tokens| ==> tokens[k].1 == tokens[k].0
    ensures ExpandStr(s, tokens) == s
    decreases |tokens|
  {
    if tokens != [] {
      ReplaceIdentity(s, tokens[0].0);
      ExpandStrSelfTokens(s, tokens[1..]);
    }
  }

  // ---------------------------------------------------------------------
  // _expand_tokens_for_el and _expand_tokens

  /** Every attribute value substituted, keys and order kept. */
  function ExpandAttrs(attrs: Dict<string, string>, tokens: TokenMap): Dict<string, string>
  {
    seq(|attrs|, i requires 0 <= i < |attrs| => (attrs[i].0, ExpandStr(attrs[i].1, tokens)))
  }

  /** `_expand_tokens_for_el`: the text (when there is any), every attribute
      value and, through `_expand_tokens`, every descendant. */
  function ExpandEl(e: Element, tokens: TokenMap): Element
    decreases e
  {
    Element(e.tag, ExpandAttrs(e.attrs, tokens),
            if e.text != "" then ExpandStr(e.text, tokens) else e.text,
            ExpandList(e.children, tokens))
  }

  /** `_expand_tokens`: nothing at all when the map is empty. */
  function ExpandList(es: seq<Element>, tokens: TokenMap): seq<Element>
    decreases es
  {
    if tokens == [] then es
    else seq(|es|, i requires 0 <= i < |es| => ExpandEl(es[i], tokens))
  }

  method ExpandTokensForEl(e: Element, tokens: TokenMap) returns (r: Element)
    ensures r == ExpandEl(e, tokens)
    decreases e
  {
    var text := e.text;
    if text != "" {
      text := ExpandTokensStr(text, tokens);
    }
    var attrs := e.attrs;
    for i := 0 to |attrs|
      invariant |attrs| == |e.attrs|
      invariant forall k :: 0 <= k < i ==> attrs[k] == (e.attrs[k].0, ExpandStr(e.attrs[k].1, tokens))
      invariant forall k :: i <= k < |attrs| ==> attrs[k] == e.attrs[k]
    {
      var (key, value) := attrs[i];
      var newValue := ExpandTokensStr(value, tokens);
      attrs := attrs[i := (key, newValue)];
    }
    var children := ExpandTokens(e.children, tokens);
    r := Element(e.tag, attrs, text, children);
  }

  method ExpandTokens(es: seq<Element>, tokens: TokenMap) returns (rs: seq<Element>)
    ensures rs == ExpandList(es, tokens)
    decreases es
  {
    if tokens == [] {
      return es;
    }
    rs := [];
    for i := 0 to |es|
      invariant |rs| == i
      invariant forall k :: 0 <= k < i ==> rs[k] == ExpandEl(es[k], tokens)
    {
      var c := ExpandTokensForEl(es[i], tokens);
      rs := rs + [c];
    }
  }

  /** Same tag, same attribute keys in the same order, same number of
      children, and so on all the way down. */
  ghost predicate SameShape(a: Element, b: Element)
    decreases a
  {
    && a.tag == b.tag
    && Keys(a.attrs) == Keys(b.attrs)
    && |a.children| == |b.children|
    && forall i :: 0 <= i < |a.children| ==> SameShape(a.children[i], b.children[i])
  }

  /** Substitution keeps the shape of the tree and changes only texts and
      attribute values, each through `ExpandStr`. */
  lemma {:induction false} ExpandElShape(e: Element, tokens: TokenMap)
    ensures SameShape(e, ExpandEl(e, tokens))
    ensures ExpandEl(e, tokens).text == if e.text != "" then ExpandStr(e.text, tokens) else e.text
    ensures forall i :: 0 <= i < |e.attrs| ==> ExpandEl(e, tokens).attrs[i].1 == ExpandStr(e.attrs[i].1, tokens)
    decreases e
  {
    var r := ExpandEl(e, tokens);
    assert r.children == ExpandList(e.children, tokens);
    assert |r.children| == |e.children|;
    forall i | 0 <= i < |e.children|
      ensures SameShape(e.children[i], r.children[i])
    {
      ExpandElShape(e.children[i], tokens);
      if tokens == [] {
        ExpandElEmpty(e.children[i]);
        assert r.children[i] == e.children[i];
      } else {
        assert r.children[i] == ExpandEl(e.children[i], tokens);
      }
    }
    assert Keys(e.attrs) == Keys(r.attrs);
  }

  /** An empty token map leaves an element as it is. */
  lemma ExpandElEmpty(e: Element)
    ensures ExpandEl(e, []) == e
  {
    assert ExpandAttrs(e.attrs, []) == e.attrs;
  }

  /** No token key occurs in the text, in an attribute value or anywhere below. */
  ghost predicate NoTokenIn(e: Element, tokens: TokenMap)
    decreases e
  {
    && (e.text != "" ==> forall k :: 0 <= k < |tokens| ==> !Contains(e.text, tokens[k].0))
    && (forall a, k :: 0 <= a < |e.attrs| && 0 <= k < |tokens| ==> !Contains(e.attrs[a].1, tokens[k].0))
    && forall i :: 0 <= i < |e.children| ==> NoTokenIn(e.children[i], tokens)
  }

  /** An element that mentions no token key comes back unchanged. */
  lemma {:induction false} ExpandElUnchanged(e: Element, tokens: TokenMap)
    requires NoTokenIn(e, tokens)
    ensures ExpandEl(e, tokens) == e
    decreases e
  {
    if e.text != "" {
      ExpandStrUnchanged(e.text, tokens);
    }
    forall a | 0 <= a < |e.attrs| ensures ExpandStr(e.attrs[a].1, tokens) == e.attrs[a].1 {
      ExpandStrUnchanged(e.attrs[a].1, tokens);
    }
    assert ExpandAttrs(e.attrs, tokens) == e.attrs;
    forall i | 0 <= i < |e.children| ensures ExpandEl(e.children[i], tokens) == e.children[i] {
      ExpandElUnchanged(e.children[i], tokens);
    }
    assert ExpandList(e.children, tokens) == e.children;
  }

  // ---------------------------------------------------------------------
  // expand_nested_tokens

  /** The inner loop for the `i`-th token name, from position `j` on: each
      value that mentions the name gets it replaced by the name's current
      value; a token whose own value mentions its own name raises. */
  function InnerPass(s: TokenMap, i: nat, j: nat): (r: Result<TokenMap, Error>)
    requires i < |s| && j <= |s|
    ensures r.Ok? ==> Keys(r.value) == Keys(s)
    decreases |s| - j
  {
    if j == |s| then Ok(s)
    else if Contains(s[j].1, s[i].0) then
      if s[i].0 == s[j].0 then Err(SelfContainingToken(s[i].0))
      else
        var s' := s[j := (s[j].0, Replace(s[j].1, s[i].0, s[i].1))];
        assert Keys(s') == Keys(s);
        InnerPass(s', i, j + 1)
    else InnerPass(s, i, j + 1)
  }

  /** The first `n` rounds of the outer loop. */
  function Passes(t: TokenMap, n: nat): (r: Result<TokenMap, Error>)
    requires n <= |t|
    ensures r.Ok? ==> Keys(r.value) == Keys(t)
  {
    if n == 0 then Ok(t)
    else
      match Passes(t, n - 1)
      case Err(e) => Err(e)
      case Ok(s) =>
        assert |s| == |Keys(s)| == |Keys(t)| == |t|;
        InnerPass(s, n - 1, 0)
  }

  function ExpandNested(t: TokenMap): Result<TokenMap, Error>
  {
    Passes(t, |t|)
  }

  method ExpandNestedTokens(tokens: TokenMap) returns (r: Result<TokenMap, Error>)
    ensures r == ExpandNested(tokens)
  {
    var s := tokens;
    var i := 0;
    while i < |s|
      invariant 0 <= i <= |tokens| == |s|
      invariant Passes(tokens, i) == Ok(s)
    {
      ghost var start := s;
      var tokenName := s[i].0;
      var j := 0;
      while j < |s|
        invariant 0 <= j <= |s| == |tokens|
        invariant s[i].0 == tokenName
        invariant InnerPass(start, i, 0) == InnerPass(s, i, j)
      {
        var (currentName, currentValue) := s[j];
        if Contains(currentValue, tokenName) {
          if tokenName == currentName {
            assert Passes(tokens, i + 1) == InnerPass(start, i, 0);
            PassesErrStays(tokens, i + 1);
            return Err(SelfContainingToken(tokenName));
          }
          s := s[j := (currentName, Replace(currentValue, tokenName, s[i].1))];
        }
        j := j + 1;
      }
      assert Keys(s) == Keys(tokens) by {
        assert InnerPass(start, i, 0) == Ok(s);
      }
      assert |s| == |Keys(s)|;
      i := i + 1;
    }
    return Ok(s);
  }

  /** With distinct names, a round fails exactly when the visited token's
      own value mentions its own name, and it names that token. */
  lemma {:induction false} InnerPassFails(s: TokenMap, i: nat, j: nat)
    requires DistinctKeys(s) && i < |s| && j <= |s|
    ensures InnerPass(s, i, j).Err? <==> j <= i && Contains(s[i].1, s[i].0)
    ensures InnerPass(s, i, j).Err? ==> InnerPass(s, i, j).error == SelfContainingToken(s[i].0)
    decreases |s| - j
  {
    if j < |s| {
      if Contains(s[j].1, s[i].0) && s[i].0 != s[j].0 {
        var s' := s[j := (s[j].0, Replace(s[j].1, s[i].0, s[i].1))];
        assert DistinctKeys(s');
        InnerPassFails(s', i, j + 1);
      } else if !Contains(s[j].1, s[i].0) {
        InnerPassFails(s, i, j + 1);
      }
    }
  }

  /** Round `i` is reached and the `i`-th value at that moment mentions its own name. */
  ghost predicate FailsAt(t: TokenMap, i: nat)
    requires i < |t|
  {
    Passes(t, i).Ok? && Contains(Passes(t, i).value[i].1, t[i].0)
  }

  lemma PassesKeyAt(t: TokenMap, n: nat, k: nat)
    requires n <= |t| && k < |t| && Passes(t, n).Ok?
    ensures |Passes(t, n).value| == |t| && Passes(t, n).value[k].0 == t[k].0
  {
    var s := Passes(t, n).value;
    assert Keys(s) == Keys(t);
    assert |s| == |Keys(s)|;
    assert s[k].0 == Keys(s)[k];
  }

  /** The rounds fail exactly when some round fails in the sense of
      `FailsAt`, and the error names that round's token. */
  lemma {:induction false} PassesFail(t: TokenMap, n: nat)
    requires DistinctKeys(t) && n <= |t|
    ensures Passes(t, n).Err? ==>
      exists i :: 0 <= i < n && FailsAt(t, i) && Passes(t, n).error == SelfContainingToken(t[i].0)
    ensures (exists i :: 0 <= i < n && FailsAt(t, i)) ==> Passes(t, n).Err?
  {
    if n > 0 {
      PassesFail(t, n - 1);
      var prev := Passes(t, n - 1);
      if prev.Err? {
        assert Passes(t, n) == prev;
        assert !FailsAt(t, n - 1);
      } else {
        var s := prev.value;
        PassesKeyAt(t, n - 1, n - 1);
        assert DistinctKeys(s) by {
          forall i, j | 0 <= i < j < |s| ensures s[i].0 != s[j].0 {
            PassesKeyAt(t, n - 1, i);
            PassesKeyAt(t, n - 1, j);
          }
        }
        InnerPassFails(s, n - 1, 0);
        assert Passes(t, n) == InnerPass(s, n - 1, 0);
        assert FailsAt(t, n - 1) <==> Contains(s[n - 1].1, s[n - 1].0);
      }
    }
  }

  /** `expand_nested_tokens` raises exactly when some token, at the moment
      its name is visited, has a value that contains that name; the error
      names such a token. */
  lemma NestedFailsIff(t: TokenMap)
    requires DistinctKeys(t)
    ensures ExpandNested(t).Err? <==> exists i :: 0 <= i < |t| && FailsAt(t, i)
    ensures ExpandNested(t).Err? ==>
      exists i :: 0 <= i < |t| && FailsAt(t, i) && ExpandNested(t).error == SelfContainingToken(t[i].0)
  {
    PassesFail(t, |t|);
  }

  /** On success the keys are those of the input, in the same order. */
  lemma NestedKeepsKeys(t: TokenMap)
    ensures ExpandNested(t).Ok? ==> Keys(ExpandNested(t).value) == Keys(t)
  {
  }

  lemma {:induction false} InnerPassIdle(s: TokenMap, i: nat, j: nat)
    requires i < |s| && j <= |s|
    requires forall k :: 0 <= k < |s| ==> !Contains(s[k].1, s[i].0)
    ensures InnerPass(s, i, j) == Ok(s)
    decreases |s| - j
  {
    if j < |s| {
      InnerPassIdle(s, i, j + 1);
    }
  }

  /** Rounds whose names no value mentions leave the map as it is. */
  lemma {:induction false} PassesIdle(t: TokenMap, n: nat)
    requires n <= |t|
    requires forall i, k :: 0 <= i < n && 0 <= k < |t| ==> !Contains(t[k].1, t[i].0)
    ensures Passes(t, n) == Ok(t)
  {
    if n > 0 {
      PassesIdle(t, n - 1);
      InnerPassIdle(t, n - 1, 0);
    }
  }

  /** When no value mentions any token name, the map is returned unchanged. */
  lemma NestedUnchanged(t: TokenMap)
    requires forall i, k :: 0 <= i < |t| && 0 <= k < |t| ==> !Contains(t[k].1, t[i].0)
    ensures ExpandNested(t) == Ok(t)
  {
    PassesIdle(t, |t|);
  }

  /** A token whose value contains its own name is rejected, naming it, as
      long as no earlier name occurs anywhere (so nothing rewrote the map
      before that token was reached). */
  lemma SelfReferenceRejected(t: TokenMap, k: nat)
    requires DistinctKeys(t) && k < |t|
    requires Contains(t[k].1, t[k].0)
    requires forall i, j :: 0 <= i < k && 0 <= j < |t| ==> !Contains(t[j].1, t[i].0)
    ensures ExpandNested(t) == Err(SelfContainingToken(t[k].0))
  {
    PassesIdle(t, k);
    InnerPassFails(t, k, 0);
    PassesErrStays(t, k + 1);
  }

  /** Once a round fails, the failure is what comes out at the end. */
  lemma {:induction false} PassesErrStays(t: TokenMap, n: nat)
    requires 0 < n <= |t| && Passes(t, n).Err?
    ensures ExpandNested(t) == Passes(t, n)
    decreases |t| - n
  {
    if n < |t| {
      PassesErrStays(t, n + 1);
    }
  }
}
