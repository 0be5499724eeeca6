/** The XML tree the macro processor rewrites. An lxml element becomes a
    value: its tag, its attributes in document order, its text (the empty
    string stands for both `None` and `""`, which the source treats alike)
    and its children. A `deepcopy` is the value itself. */
module XmlTree {
  import opened Wrappers
  import opened Dicts

  datatype Element = Element(tag: string, attrs: Dict<string, string>, text: string, children: seq<Element>)

  /** What the processor raises: the two assertions of macro expansion, the
      `ValueError` of a missing macro parameter, the exception for a token
      that contains itself, and running out of the expansion bound. */
  datatype Error =
    | MissingMacroAttribute
    | UnknownMacro(name: string)
    | MissingRequiredParameter(name: string)
    | SelfContainingToken(name: string)
    | ExpansionBoundReached

  /** `el.get(name)`. */
  function Attr(e: Element, name: string): Option<string>
  {
    Get(e.attrs, name)
  }

  /** `el.findall(tag)`: the direct children with that tag, in document order. */
  function FindAll(children: seq<Element>, tag: string): (r: seq<Element>)
    ensures forall c :: c in r ==> c in children && c.tag == tag
    ensures forall c :: c in children && c.tag == tag ==> c in r
    ensures |r| <= |children|
    decreases |children|
  {
    if children == [] then []
    else
      var rest := FindAll(children[1..], tag);
      assert forall c :: c in children ==> c == children[0] || c in children[1..];
      if children[0].tag == tag then [children[0]] + rest else rest
  }

  /** `findall` over a concatenation is the concatenation of the results:
      together with `FindAllOne` this fixes document order and one entry
      per matching child. */
  lemma {:induction false} FindAllAppend(a: seq<Element>, b: seq<Element>, tag: string)
    ensures FindAll(a + b, tag) == FindAll(a, tag) + FindAll(b, tag)
    decreases |a|
  {
    if a != [] {
      var head := if a[0].tag == tag then [a[0]] else [];
      assert (a + b)[0] == a[0] && (a + b)[1..] == a[1..] + b;
      assert FindAll(a + b, tag) == head + FindAll(a[1..] + b, tag);
      assert FindAll(a, tag) == head + FindAll(a[1..], tag);
      FindAllAppend(a[1..], b, tag);
    } else {
      assert a + b == b;
    }
  }

  lemma FindAllOne(c: Element, tag: string)
    ensures FindAll([c], tag) == if c.tag == tag then [c] else []
  {
    assert [c][1..] == [];
  }

  /** `el.find(tag)`: the first direct child with that tag, if any. */
  function Find(children: seq<Element>, tag: string): (r: Option<Element>)
    ensures r.Some? ==> r.value.tag == tag
    ensures r.Some? ==>
      exists i :: 0 <= i < |children| && children[i] == r.value && forall j :: 0 <= j < i ==> children[j].tag != tag
    ensures r.None? <==> forall c :: c in children ==> c.tag != tag
    decreases |children|
  {
    if children == [] then None
    else if children[0].tag == tag then
      assert children[0] == children[0];
      Some(children[0])
    else
      var r := Find(children[1..], tag);
      assert forall c :: c in children ==> c == children[0] || c in children[1..];
      if r.Some? then
        var i :| 0 <= i < |children| - 1 && children[1..][i] == r.value &&
          forall j :: 0 <= j < i ==> children[1..][j].tag != tag;
        assert children[i + 1] == r.value;
        assert forall j :: 0 <= j < i + 1 ==> children[j].tag != tag by {
          forall j | 0 <= j < i + 1 ensures children[j].tag != tag {
            if j > 0 { assert children[j] == children[1..][j - 1]; }
          }
        }
        r
      else r
  }

  /** Some element of the forest `cs`, at any depth, has tag `tag`. */
  predicate AnyTag(cs: seq<Element>, tag: string)
    decreases cs
  {
    exists i :: 0 <= i < |cs| && (cs[i].tag == tag || AnyTag(cs[i].children, tag))
  }
}
