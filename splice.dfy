/** Order-preserving splices of a parent's child list (`_xml_replace`,
    `_xml_set_children`) and the replacement of `<yield/>` placeholders by the
    children of an `<expand>` element (`_expand_yield_statements`). */
module Splice {
  import opened XmlTree

  /** An element whose child list is edited in place, as lxml's
      `insert` and `remove` do. */
  class ElementNode {
    var tag: string
    var attrs: seq<(string, string)>
    var text: string
    var children: seq<Element>

    constructor (e: Element)
      ensures Value() == e
    {
      tag, attrs, text, children := e.tag, e.attrs, e.text, e.children;
    }

    /** The element this node currently holds. */
    function Value(): Element
      reads this
    {
      Element(tag, attrs, text, children)
    }

    /** lxml's `insert(index, child)`; an index past the end appends. */
    method Insert(index: nat, child: Element)
      modifies this`children
      ensures var at := if index <= |old(children)| then index else |old(children)|;
        children == old(children)[..at] + [child] + old(children)[at..]
    {
      var at := if index <= |children| then index else |children|;
      children := children[..at] + [child] + children[at..];
    }

    /** lxml's `remove(child)` for the child at `index`. */
    method RemoveAt(index: nat)
      requires index < |children|
      modifies this`children
      ensures children == old(children)[..index] + old(children)[index + 1..]
    {
      children := children[..index] + children[index + 1..];
    }

    /** `_xml_replace(query, targets)` where `query` is the child at position
        `query`: a copy of each target is inserted after it, in order, then
        the query is removed. The source asserts that the query is a child. */
    method Replace(query: nat, targets: seq<Element>)
      requires query < |children|
      modifies this`children
      ensures |children| == |old(children)| + |targets| - 1
      ensures children[..query] == old(children)[..query]
      ensures children[query..query + |targets|] == targets
      ensures children[query + |targets|..] == old(children)[query + 1..]
      ensures children == Spliced(old(children), query, targets)
    {
      ghost var before := children;
      var current := query;
      for i := 0 to |targets|
        invariant current == query + i
        invariant children == before[..query + 1] + targets[..i] + before[query + 1..]
      {
        current := current + 1;
        ghost var prefix := before[..query + 1] + targets[..i];
        assert children == prefix + before[query + 1..];
        assert |prefix| == current;
        Insert(current, targets[i]);
        assert children[..current] == prefix && children[current..] == [targets[i]] + before[query + 1..];
        assert targets[..i + 1] == targets[..i] + [targets[i]];
        assert prefix + [targets[i]] == before[..query + 1] + targets[..i + 1];
      }
      assert targets[..|targets|] == targets;
      RemoveAt(query);
      assert children == before[..query] + targets + before[query + 1..];
    }

    /** `_xml_set_children(element, new_children)`: every old child removed
        (lxml's child iterator fixes the next sibling before it yields, so
        removing the current child skips none), then the new ones inserted
        in order. */
    method SetChildren(newChildren: seq<Element>)
      modifies this`children
      ensures children == newChildren
    {
      ghost var before := children;
      var n := |children|;
      for k := 0 to n
        invariant children == before[k..]
      {
        RemoveAt(0);
      }
      for i := 0 to |newChildren|
        invariant children == newChildren[..i]
      {
        Insert(i, newChildren[i]);
        assert newChildren[..i + 1] == newChildren[..i] + [newChildren[i]];
      }
    }
  }

  /** Splicing `targets` in place of the child at position `k`, as the value
      `Replace` leaves behind. */
  function Spliced(cs: seq<Element>, k: nat, targets: seq<Element>): seq<Element>
    requires k < |cs|
  {
    cs[..k] + targets + cs[k + 1..]
  }

  // ---------------------------------------------------------------------
  // _expand_yield_statements

  predicate IsYield(e: Element)
  {
    e.tag == "yield"
  }

  /** Every top-most `<yield/>` of the forest `cs` replaced by `kids`. A
      yield nested inside another yield goes with it; copies of `kids` are
      not searched again. */
  function YieldsIn(cs: seq<Element>, kids: seq<Element>): seq<Element>
    decreases cs
  {
    if cs == [] then []
    else (if IsYield(cs[0]) then kids else [YieldsBelow(cs[0], kids)]) + YieldsIn(cs[1..], kids)
  }

  function YieldsBelow(e: Element, kids: seq<Element>): Element
    decreases e
  {
    e.(children := YieldsIn(e.children, kids))
  }

  /** `_expand_yield_statements(macro_def, expand_el)`: the yields below the
      macro element (never the macro element itself) become the children of
      the `<expand>` element. */
  function ExpandYieldStatements(macroDef: Element, expandEl: Element): (r: Element)
    ensures r.tag == macroDef.tag && r.attrs == macroDef.attrs && r.text == macroDef.text
    ensures !AnyTag(expandEl.children, "yield") ==> !AnyTag(r.children, "yield")
    ensures !AnyTag(macroDef.children, "yield") ==> r == macroDef
  {
    assert !AnyTag(expandEl.children, "yield") ==> !AnyTag(YieldsIn(macroDef.children, expandEl.children), "yield") by {
      if !AnyTag(expandEl.children, "yield") {
        NoYieldLeft(macroDef.children, expandEl.children);
      }
    }
    assert !AnyTag(macroDef.children, "yield") ==> YieldsIn(macroDef.children, expandEl.children) == macroDef.children by {
      if !AnyTag(macroDef.children, "yield") {
        NoYieldUnchanged(macroDef.children, expandEl.children);
      }
    }
    YieldsBelow(macroDef, expandEl.children)
  }

  lemma {:induction false} YieldsInAppend(a: seq<Element>, b: seq<Element>, kids: seq<Element>)
    ensures YieldsIn(a + b, kids) == YieldsIn(a, kids) + YieldsIn(b, kids)
    decreases |a|
  {
    if a == [] {
      assert a + b == b;
    } else {
      assert (a + b)[1..] == a[1..] + b;
      YieldsInAppend(a[1..], b, kids);
    }
  }

  /** Each former yield position holds the expand element's children, in
      order, and the siblings on either side are expanded in place. */
  lemma YieldPosition(cs: seq<Element>, k: nat, kids: seq<Element>)
    requires k < |cs| && IsYield(cs[k])
    ensures YieldsIn(cs, kids) == YieldsIn(cs[..k], kids) + kids + YieldsIn(cs[k + 1..], kids)
  {
    assert cs == cs[..k] + ([cs[k]] + cs[k + 1..]);
    YieldsInAppend(cs[..k], [cs[k]] + cs[k + 1..], kids);
    assert ([cs[k]] + cs[k + 1..])[1..] == cs[k + 1..];
  }

  /** A non-yield child stays where it was, with its own yields expanded. */
  lemma OtherPosition(cs: seq<Element>, k: nat, kids: seq<Element>)
    requires k < |cs| && !IsYield(cs[k])
    ensures YieldsIn(cs, kids) == YieldsIn(cs[..k], kids) + [YieldsBelow(cs[k], kids)] + YieldsIn(cs[k + 1..], kids)
  {
    assert cs == cs[..k] + ([cs[k]] + cs[k + 1..]);
    YieldsInAppend(cs[..k], [cs[k]] + cs[k + 1..], kids);
    assert ([cs[k]] + cs[k + 1..])[1..] == cs[k + 1..];
  }

  function CountYields(cs: seq<Element>): nat
  {
    if cs == [] then 0 else (if IsYield(cs[0]) then 1 else 0) + CountYields(cs[1..])
  }

  /** Each direct yield child gives way to `|kids|` elements. */
  lemma {:induction false} YieldsInLength(cs: seq<Element>, kids: seq<Element>)
    ensures |YieldsIn(cs, kids)| == |cs| + CountYields(cs) * (|kids| - 1)
    decreases |cs|
  {
    if cs != [] {
      YieldsInLength(cs[1..], kids);
    }
  }

  /** When `kids` holds no yield, none is left below the macro element. */
  lemma {:induction false} NoYieldLeft(cs: seq<Element>, kids: seq<Element>)
    requires !AnyTag(kids, "yield")
    ensures !AnyTag(YieldsIn(cs, kids), "yield")
    decreases cs
  {
    if cs != [] {
      YieldsInAppend([cs[0]], cs[1..], kids);
      assert [cs[0]] + cs[1..] == cs;
      NoYieldLeft(cs[1..], kids);
      var head := if IsYield(cs[0]) then kids else [YieldsBelow(cs[0], kids)];
      if !IsYield(cs[0]) {
        NoYieldLeft(cs[0].children, kids);
        assert !AnyTag(head, "yield");
      }
      assert YieldsIn([cs[0]], kids) == head + YieldsIn([], kids);
      AnyTagAppend(head, YieldsIn(cs[1..], kids), "yield");
    }
  }

  lemma AnyTagAppend(a: seq<Element>, b: seq<Element>, tag: string)
    ensures AnyTag(a + b, tag) <==> AnyTag(a, tag) || AnyTag(b, tag)
  {
    var ab := a + b;
    if AnyTag(ab, tag) {
      var i :| 0 <= i < |ab| && (ab[i].tag == tag || AnyTag(ab[i].children, tag));
      if i >= |a| {
        assert b[i - |a|] == ab[i];
      } else {
        assert a[i] == ab[i];
      }
    }
    if AnyTag(b, tag) {
      var i :| 0 <= i < |b| && (b[i].tag == tag || AnyTag(b[i].children, tag));
      assert ab[i + |a|] == b[i];
    }
    if AnyTag(a, tag) {
      var i :| 0 <= i < |a| && (a[i].tag == tag || AnyTag(a[i].children, tag));
      assert ab[i] == a[i];
    }
  }

  /** A forest without yields comes back unchanged. */
  lemma {:induction false} NoYieldUnchanged(cs: seq<Element>, kids: seq<Element>)
    requires !AnyTag(cs, "yield")
    ensures YieldsIn(cs, kids) == cs
    decreases cs
  {
    if cs != [] {
      assert !IsYield(cs[0]) && !AnyTag(cs[0].children, "yield");
      NoYieldUnchanged(cs[0].children, kids);
      assert forall i :: 0 <= i < |cs[1..]| ==> cs[1..][i] == cs[i + 1];
      NoYieldUnchanged(cs[1..], kids);
    }
  }
}
