/**
 The element tree the engine reads and writes: the part of the ltx element
 interface the core relies on (`getName`, `getNS`, `getAttr`, `attr`,
 `getText`, `getChild`, `getChildren`, `cnode`), over immutable values.
 Each element stores its resolved namespace; `xmlns` is also kept as an
 attribute, as `createElement` writes it. A codec passes the element's own
 namespace when it creates a child, which differs from ltx for the codec
 children of a nested element not yet attached (see README, "Left out").
 */
module Xml {
  import opened Wrappers

  datatype Node = Text(text: string) | Elem(el: Element)

  datatype Element = Element(ns: string, name: string, attrs: map<string, string>, children: seq<Node>)

  /** `n` is an element child named `name` in namespace `ns`. */
  predicate IsChild(n: Node, ns: string, name: string) {
    n.Elem? && n.el.ns == ns && n.el.name == name
  }

  /** Concatenation of the text children, in order (ltx `getText`). */
  function TextOf(nodes: seq<Node>): string
  {
    if |nodes| == 0 then ""
    else TextOf(nodes[..|nodes| - 1]) + (if nodes[|nodes| - 1].Text? then nodes[|nodes| - 1].text else "")
  }

  function GetText(e: Element): string {
    TextOf(e.children)
  }

  /** Index of the first element child named (`ns`, `name`) at or after `i`. */
  function FirstMatchFrom(cs: seq<Node>, ns: string, name: string, i: nat): (r: Option<nat>)
    requires i <= |cs|
    ensures r.Some? ==> i <= r.value < |cs| && IsChild(cs[r.value], ns, name)
    ensures forall j :: i <= j < |cs| && (r.None? || j < r.value) ==> !IsChild(cs[j], ns, name)
    decreases |cs| - i
  {
    if i == |cs| then None
    else if IsChild(cs[i], ns, name) then Some(i)
    else FirstMatchFrom(cs, ns, name, i + 1)
  }

  function FirstMatch(cs: seq<Node>, ns: string, name: string): Option<nat> {
    FirstMatchFrom(cs, ns, name, 0)
  }

  /** ltx `getChild(name, ns)`: the first matching element child, in document order. */
  function GetChild(e: Element, ns: string, name: string): (r: Option<Element>)
    ensures r.Some? <==> exists j :: 0 <= j < |e.children| && IsChild(e.children[j], ns, name)
    ensures r.Some? ==> r.value.ns == ns && r.value.name == name
  {
    match FirstMatch(e.children, ns, name)
    case Some(i) => Some(e.children[i].el)
    case None => None
  }

  /** The matching element children of `cs`, in document order. */
  function Matching(cs: seq<Node>, ns: string, name: string): (r: seq<Element>)
    ensures forall k :: 0 <= k < |r| ==> r[k].ns == ns && r[k].name == name
    ensures |r| <= |cs|
  {
    if |cs| == 0 then []
    else
      var last := cs[|cs| - 1];
      Matching(cs[..|cs| - 1], ns, name) + (if IsChild(last, ns, name) then [last.el] else [])
  }

  /** ltx `getChildren(name, ns)`. */
  function GetChildren(e: Element, ns: string, name: string): seq<Element> {
    Matching(e.children, ns, name)
  }

  /** ltx `cnode`: attach `c` as the last child. */
  function AppendChild(e: Element, c: Element): (r: Element)
    ensures r.ns == e.ns && r.name == e.name && r.attrs == e.attrs
    ensures r.children == e.children + [Elem(c)]
  {
    e.(children := e.children + [Elem(c)])
  }

  function ReplaceChild(e: Element, i: nat, c: Element): (r: Element)
    requires i < |e.children|
    ensures r.ns == e.ns && r.name == e.name && r.attrs == e.attrs
    ensures r.children == e.children[i := Elem(c)]
  {
    e.(children := e.children[i := Elem(c)])
  }

  /**
   `createElement` (src/Types.ts): a new empty element whose `xmlns` attribute
   is written exactly when there is no parent namespace or it differs.
   */
  function CreateElement(ns: string, name: string, parentNs: string): (r: Element)
    ensures r.ns == ns && r.name == name && r.children == []
    ensures "xmlns" in r.attrs <==> parentNs == "" || ns != parentNs
    ensures forall a :: a in r.attrs ==> a == "xmlns" && r.attrs[a] == ns
  {
    Element(ns, name, if parentNs == "" || ns != parentNs then map["xmlns" := ns] else map[], [])
  }

  /**
   `findOrCreate` (src/Types.ts): the first matching child with the element
   unchanged, or else a new child appended at the end. Either way the
   returned index is the first match afterwards.
   */
  function FindOrCreate(e: Element, ns: string, name: string): (r: (Element, nat))
    ensures r.1 < |r.0.children| && FirstMatch(r.0.children, ns, name) == Some(r.1)
    ensures GetChild(e, ns, name).Some? ==> r.0 == e
    ensures GetChild(e, ns, name).None? ==>
              r.0 == AppendChild(e, CreateElement(ns, name, e.ns)) && r.1 == |e.children|
  {
    match FirstMatch(e.children, ns, name)
    case Some(i) => (e, i)
    case None =>
      var r := AppendChild(e, CreateElement(ns, name, e.ns));
      FirstMatchAppend(e.children, Elem(CreateElement(ns, name, e.ns)), ns, name);
      (r, |e.children|)
  }

  lemma FirstMatchAppend(cs: seq<Node>, n: Node, ns: string, name: string)
    ensures FirstMatch(cs + [n], ns, name)
            == if FirstMatch(cs, ns, name).Some? then FirstMatch(cs, ns, name)
               else if IsChild(n, ns, name) then Some(|cs|) else None
  {
    assert forall j :: 0 <= j < |cs| ==> (cs + [n])[j] == cs[j];
    assert (cs + [n])[|cs|] == n;
  }

  /** Replacing the first match by another matching element keeps it the first match. */
  lemma FirstMatchReplace(cs: seq<Node>, i: nat, c: Element, ns: string, name: string)
    requires FirstMatch(cs, ns, name) == Some(i)
    requires c.ns == ns && c.name == name
    ensures FirstMatch(cs[i := Elem(c)], ns, name) == Some(i)
  {
    assert IsChild(cs[i := Elem(c)][i], ns, name);
  }

  /** Replacing a matching child by a matching element keeps the number of matches. */
  lemma {:induction false} MatchingReplace(cs: seq<Node>, i: nat, c: Element, ns: string, name: string)
    requires i < |cs| && IsChild(cs[i], ns, name)
    requires c.ns == ns && c.name == name
    ensures |Matching(cs[i := Elem(c)], ns, name)| == |Matching(cs, ns, name)|
    decreases |cs|
  {
    var cs' := cs[i := Elem(c)];
    var n := |cs|;
    if i == n - 1 {
      assert cs'[..n - 1] == cs[..n - 1];
    } else {
      assert cs'[..n - 1] == cs[..n - 1][i := Elem(c)];
      MatchingReplace(cs[..n - 1], i, c, ns, name);
    }
  }

  /** The first of the matching children is the one `GetChild` finds. */
  lemma {:induction false} MatchingHead(cs: seq<Node>, ns: string, name: string)
    ensures |Matching(cs, ns, name)| == 0 <==> FirstMatch(cs, ns, name).None?
    ensures FirstMatch(cs, ns, name).Some? ==>
              Matching(cs, ns, name)[0] == cs[FirstMatch(cs, ns, name).value].el
    decreases |cs|
  {
    if |cs| > 0 {
      var init := cs[..|cs| - 1];
      MatchingHead(init, ns, name);
      assert init + [cs[|cs| - 1]] == cs;
      FirstMatchAppend(init, cs[|cs| - 1], ns, name);
    }
  }
}
