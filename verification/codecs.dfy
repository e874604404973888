/**
 The field codecs of src/Types.ts whose behaviour is string and tree logic.
 A codec is data here; `Decode` is its importer and `Encode` its exporter.
 */
module Codecs {
  import opened Wrappers
  import opened Xml
  import opened Data

  const LANG := "xml:lang"

  /** The codecs that read and write one element: `attribute`, `booleanAttribute`, `languageAttribute`, `text`. */
  datatype Field =
    | Attribute(attr: string, default: Option<string>)
    | BooleanAttribute(attr: string)
    | LanguageAttribute
    | TextContent(default: Option<string>)

  /**
   `Own(f)` applies `f` to the element itself; `InChild(ns, element, f)` applies it
   to the child found or created by `findOrCreate` (`childAttribute`,
   `childBooleanAttribute`, `childLanguageAttribute`, `childText`). `Unmodelled`
   stands for the integer, float, date and buffer codecs.
   */
  datatype Codec =
    | Own(field: Field)
    | InChild(ns: string, element: string, field: Field)
    | ChildBoolean(ns: string, element: string)
    | ChildEnum(ns: string, names: set<string>)
    | MultipleChildText(ns: string, element: string)
    | MultipleChildAttribute(ns: string, element: string, attr: string)
    | Unmodelled(id: nat)

  /** `defaultValue` as an import result: `undefined` when not given. */
  function Fallback(d: Option<string>): Option<Value> {
    match d
    case Some(s) => Some(Str(s))
    case None => None
  }

  /** What a child codec imports when `getChild` finds no child. */
  function Missing(f: Field): Option<Value> {
    match f
    case Attribute(_, d) => Fallback(d)
    case TextContent(d) => Fallback(d)
    case _ => None
  }

  /** The attribute a field reads and writes; `None` for text content. */
  function Footprint(f: Field): Option<string> {
    match f
    case Attribute(a, _) => Some(a)
    case BooleanAttribute(a) => Some(a)
    case LanguageAttribute => Some(LANG)
    case TextContent(_) => None
  }

  function DecodeOwn(f: Field, e: Element): (r: Option<Value>)
    ensures r.Some? ==> (r.value.Bool? <==> f.BooleanAttribute?) && (r.value.Str? <==> !f.BooleanAttribute?)
    ensures f.BooleanAttribute? ==>
              (r.Some? <==> f.attr in e.attrs && e.attrs[f.attr] in {"true", "1", "false", "0"})
    ensures f.BooleanAttribute? && r.Some? ==> r.value == Bool(e.attrs[f.attr] in {"true", "1"})
    ensures f.LanguageAttribute? ==> (r.Some? <==> LANG in e.attrs)
    ensures f.LanguageAttribute? && r.Some? ==> r.value.s == e.attrs[LANG]
    ensures f.Attribute? && f.attr in e.attrs && e.attrs[f.attr] != "" ==> r == Some(Str(e.attrs[f.attr]))
    ensures f.Attribute? && (f.attr !in e.attrs || e.attrs[f.attr] == "") ==> r == Fallback(f.default)
    ensures f.TextContent? && GetText(e) != "" ==> r == Some(Str(GetText(e)))
    ensures f.TextContent? && GetText(e) == "" ==> r == Fallback(f.default)
  {
    match f
    case Attribute(a, d) =>
      if a in e.attrs && e.attrs[a] != "" then Some(Str(e.attrs[a])) else Fallback(d)
    case BooleanAttribute(a) =>
      if a in e.attrs && (e.attrs[a] == "true" || e.attrs[a] == "1") then Some(Bool(true))
      else if a in e.attrs && (e.attrs[a] == "false" || e.attrs[a] == "0") then Some(Bool(false))
      else None
    case LanguageAttribute =>
      if LANG in e.attrs then Some(Str(e.attrs[LANG])) else None
    case TextContent(d) =>
      if GetText(e) != "" then Some(Str(GetText(e))) else Fallback(d)
  }

  function EncodeOwn(f: Field, e: Element, v: Value): (r: Element)
    ensures r.ns == e.ns && r.name == e.name
    ensures Footprint(f).Some? ==> r.children == e.children
    ensures Footprint(f).None? ==> r.attrs == e.attrs
    ensures forall a :: a in e.attrs ==> a in r.attrs
  {
    match f
    case Attribute(a, _) => if v.Str? then e.(attrs := e.attrs[a := v.s]) else e
    case BooleanAttribute(a) => e.(attrs := e.attrs[a := if Truthy(v) then "1" else "0"])
    case LanguageAttribute => if v.Str? then e.(attrs := e.attrs[LANG := v.s]) else e
    case TextContent(_) => if v.Str? then e.(children := e.children + [Text(v.s)]) else e
  }

  /** The values a field gives back unchanged after writing them into `target`. */
  predicate OwnRoundTrips(f: Field, v: Value, target: Element) {
    match f
    case Attribute(_, _) => v.Str? && v.s != ""
    case BooleanAttribute(_) => v.Bool?
    case LanguageAttribute => v.Str?
    case TextContent(_) => v.Str? && v.s != "" && GetText(target) == ""
  }

  /** Export then import through one field gives the value back. */
  lemma OwnRoundTrip(f: Field, e: Element, v: Value)
    requires OwnRoundTrips(f, v, e)
    ensures DecodeOwn(f, EncodeOwn(f, e, v)) == Some(v)
  {
    if f.TextContent? {
      var r := EncodeOwn(f, e, v);
      assert r.children[..|r.children| - 1] == e.children;
      assert GetText(r) == v.s;
    }
  }

  /** Writing one field leaves what another field reads untouched. */
  lemma OwnIndependent(f1: Field, f2: Field, e: Element, v: Value)
    requires Footprint(f1) != Footprint(f2)
    ensures DecodeOwn(f1, EncodeOwn(f2, e, v)) == DecodeOwn(f1, e)
  {
  }

  /** A freshly created element reads as if the child were missing. */
  lemma OwnOnFresh(f: Field, e: Element)
    requires e.children == [] && forall a :: a in e.attrs ==> a == "xmlns"
    requires Footprint(f) != Some("xmlns")
    ensures DecodeOwn(f, e) == Missing(f)
  {
  }

  /** An element child in namespace `ns` whose name is one of `names`. */
  predicate IsEnumChild(n: Node, ns: string, names: set<string>) {
    n.Elem? && n.el.ns == ns && n.el.name in names
  }

  function FirstEnumFrom(cs: seq<Node>, ns: string, names: set<string>, i: nat): (r: Option<nat>)
    requires i <= |cs|
    ensures r.Some? ==> i <= r.value < |cs| && IsEnumChild(cs[r.value], ns, names)
    ensures forall j :: i <= j < |cs| && (r.None? || j < r.value) ==> !IsEnumChild(cs[j], ns, names)
    decreases |cs| - i
  {
    if i == |cs| then None
    else if IsEnumChild(cs[i], ns, names) then Some(i)
    else FirstEnumFrom(cs, ns, names, i + 1)
  }

  function Texts(es: seq<Element>): (r: seq<Value>)
    ensures |r| == |es| && forall i :: 0 <= i < |es| ==> r[i] == Str(GetText(es[i]))
  {
    seq(|es|, i requires 0 <= i < |es| => Str(GetText(es[i])))
  }

  /** `getAttr(attr)` of each element; a missing attribute reads as `Null`. */
  function AttrValues(es: seq<Element>, a: string): (r: seq<Value>)
    ensures |r| == |es|
    ensures forall i :: 0 <= i < |es| ==> r[i] == if a in es[i].attrs then Str(es[i].attrs[a]) else Null
  {
    seq(|es|, i requires 0 <= i < |es| => if a in es[i].attrs then Str(es[i].attrs[a]) else Null)
  }

  /** The importer of a codec: `None` is `null`/`undefined`. */
  function Decode(c: Codec, e: Element): (r: Option<Value>)
    ensures c.InChild? && GetChild(e, c.ns, c.element).None? ==> r == Missing(c.field)
    ensures c.ChildBoolean? ==> (r.Some? <==> GetChild(e, c.ns, c.element).Some?) && r != Some(Bool(false))
    ensures c.ChildEnum? ==> (r.Some? <==> exists j :: 0 <= j < |e.children| && IsEnumChild(e.children[j], c.ns, c.names))
    ensures c.ChildEnum? && r.Some? ==>
              exists j :: 0 <= j < |e.children| && IsEnumChild(e.children[j], c.ns, c.names)
                          && r.value == Str(e.children[j].el.name)
                          && forall k :: 0 <= k < j ==> !IsEnumChild(e.children[k], c.ns, c.names)
    ensures (c.MultipleChildText? || c.MultipleChildAttribute?) ==>
              r.Some? && r.value.Arr? && |r.value.items| == |GetChildren(e, c.ns, c.element)|
    ensures c.Unmodelled? ==> r.None?
  {
    match c
    case Own(f) => DecodeOwn(f, e)
    case InChild(ns, el, f) =>
      (match GetChild(e, ns, el)
       case Some(child) => DecodeOwn(f, child)
       case None => Missing(f))
    case ChildBoolean(ns, el) => if GetChild(e, ns, el).Some? then Some(Bool(true)) else None
    case ChildEnum(ns, names) =>
      (match FirstEnumFrom(e.children, ns, names, 0)
       case Some(i) => Some(Str(e.children[i].el.name))
       case None => None)
    case MultipleChildText(ns, el) => Some(Arr(Texts(GetChildren(e, ns, el))))
    case MultipleChildAttribute(ns, el, a) => Some(Arr(AttrValues(GetChildren(e, ns, el), a)))
    case Unmodelled(_) => None
  }

  /** One child created by `multipleChildText` for `v`. */
  function TextChild(ns: string, name: string, parentNs: string, v: Value): Element {
    var c := CreateElement(ns, name, parentNs);
    if v.Str? then c.(children := [Text(v.s)]) else c
  }

  /** One child created by `multipleChildAttribute` for `v`. */
  function AttrChild(ns: string, name: string, parentNs: string, a: string, v: Value): Element {
    var c := CreateElement(ns, name, parentNs);
    if v.Str? then c.(attrs := c.attrs[a := v.s]) else c
  }

  /** Appends one created child per item, in order. */
  function AppendEach(e: Element, c: Codec, items: seq<Value>): (r: Element)
    requires c.MultipleChildText? || c.MultipleChildAttribute?
    ensures r.ns == e.ns && r.name == e.name && r.attrs == e.attrs
    ensures |r.children| == |e.children| + |items| && r.children[..|e.children|] == e.children
    ensures forall i :: 0 <= i < |items| ==> r.children[|e.children| + i] == Elem(
              if c.MultipleChildText? then TextChild(c.ns, c.element, e.ns, items[i])
              else AttrChild(c.ns, c.element, e.ns, c.attr, items[i]))
    decreases |items|
  {
    if |items| == 0 then e
    else
      var last := items[|items| - 1];
      var child := if c.MultipleChildText? then TextChild(c.ns, c.element, e.ns, last)
                   else AttrChild(c.ns, c.element, e.ns, c.attr, last);
      var r := AppendChild(AppendEach(e, c, items[..|items| - 1]), child);
      assert r.children[..|e.children|] == AppendEach(e, c, items[..|items| - 1]).children[..|e.children|];
      r
  }

  /** The attribute an `Own` codec writes on the element itself. */
  function OwnAttr(c: Codec): Option<string> {
    if c.Own? then Footprint(c.field) else None
  }

  /** The exporter of a codec. It never renames the element. */
  function Encode(c: Codec, e: Element, v: Value): (r: Element)
    ensures r.ns == e.ns && r.name == e.name
    ensures !c.Own? ==> r.attrs == e.attrs
    ensures c.Own? && OwnAttr(c).Some? ==> r.children == e.children
    ensures OwnAttr(c) != Some("xmlns") ==>
              ("xmlns" in r.attrs <==> "xmlns" in e.attrs) && ("xmlns" in e.attrs ==> r.attrs["xmlns"] == e.attrs["xmlns"])
  {
    match c
    case Own(f) => EncodeOwn(f, e, v)
    case InChild(ns, el, f) =>
      var (e1, i) := FindOrCreate(e, ns, el);
      ReplaceChild(e1, i, EncodeOwn(f, e1.children[i].el, v))
    case ChildBoolean(ns, el) => if Truthy(v) then FindOrCreate(e, ns, el).0 else e
    case ChildEnum(ns, _) => if v.Str? then FindOrCreate(e, ns, v.s).0 else e
    case MultipleChildText(_, _) => if v.Arr? then AppendEach(e, c, v.items) else e
    case MultipleChildAttribute(_, _, _) => if v.Arr? then AppendEach(e, c, v.items) else e
    case Unmodelled(_) => e
  }
}
