/** Round trips and sharing laws of the codecs in src/Types.ts. */
module CodecLaws {
  import opened Wrappers
  import opened Xml
  import opened Data
  import opened Codecs

  /** The child an `InChild` codec writes into is the one `getChild` finds afterwards. */
  lemma InChildTarget(ns: string, el: string, f: Field, e: Element, v: Value)
    ensures var (e1, i) := FindOrCreate(e, ns, el);
            GetChild(Encode(InChild(ns, el, f), e, v), ns, el) == Some(EncodeOwn(f, e1.children[i].el, v))
  {
    var (e1, i) := FindOrCreate(e, ns, el);
    var c := EncodeOwn(f, e1.children[i].el, v);
    FirstMatchReplace(e1.children, i, c, ns, el);
  }

  /** `childAttribute`, `childBooleanAttribute`, `childLanguageAttribute`, `childText`: export then import. */
  lemma InChildRoundTrip(ns: string, el: string, f: Field, e: Element, v: Value)
    requires OwnRoundTrips(f, v, CreateElement(ns, el, e.ns))
    requires f.TextContent? && GetChild(e, ns, el).Some? ==> GetText(GetChild(e, ns, el).value) == ""
    ensures Decode(InChild(ns, el, f), Encode(InChild(ns, el, f), e, v)) == Some(v)
  {
    InChildTarget(ns, el, f, e, v);
    var (e1, i) := FindOrCreate(e, ns, el);
    if GetChild(e, ns, el).None? {
      assert e1.children[i].el == CreateElement(ns, el, e.ns);
    }
    OwnRoundTrip(f, e1.children[i].el, v);
  }

  /** However many child-codec fields target (`ns`, `el`), they share one child. */
  lemma InChildSingleChild(ns: string, el: string, f: Field, e: Element, v: Value)
    ensures var n := |GetChildren(e, ns, el)|;
            |GetChildren(Encode(InChild(ns, el, f), e, v), ns, el)| == if n == 0 then 1 else n
  {
    var p := FindOrCreate(e, ns, el);
    var e1, i := p.0, p.1;
    var c := EncodeOwn(f, e1.children[i].el, v);
    var e2 := Encode(InChild(ns, el, f), e, v);
    assert e2.children == e1.children[i := Elem(c)];
    MatchingReplace(e1.children, i, c, ns, el);
    MatchingHead(e.children, ns, el);
    if GetChild(e, ns, el).None? {
      assert e1.children == e.children + [Elem(CreateElement(ns, el, e.ns))];
      AppendedMatch(e.children, CreateElement(ns, el, e.ns), ns, el);
    }
  }

  lemma AppendedMatch(cs: seq<Node>, c: Element, ns: string, el: string)
    requires c.ns == ns && c.name == el
    ensures |Matching(cs + [Elem(c)], ns, el)| == |Matching(cs, ns, el)| + 1
  {
    assert (cs + [Elem(c)])[..|cs|] == cs;
  }

  /** Writing one field of the shared child leaves what another field reads untouched. */
  lemma InChildIndependent(ns: string, el: string, f1: Field, f2: Field, e: Element, v: Value)
    requires Footprint(f1) != Footprint(f2) && Footprint(f1) != Some("xmlns")
    ensures Decode(InChild(ns, el, f1), Encode(InChild(ns, el, f2), e, v)) == Decode(InChild(ns, el, f1), e)
  {
    InChildTarget(ns, el, f2, e, v);
    var (e1, i) := FindOrCreate(e, ns, el);
    OwnIndependent(f1, f2, e1.children[i].el, v);
    if GetChild(e, ns, el).None? {
      OwnOnFresh(f1, CreateElement(ns, el, e.ns));
    }
  }

  /** Two fields written through one child come back through that single child. */
  lemma SharedChildRoundTrip(ns: string, el: string, f1: Field, v1: Value, f2: Field, v2: Value, e: Element)
    requires GetChild(e, ns, el).None?
    requires Footprint(f1) != Footprint(f2)
    requires Footprint(f1) != Some("xmlns") && Footprint(f2) != Some("xmlns")
    requires OwnRoundTrips(f1, v1, CreateElement(ns, el, e.ns)) && OwnRoundTrips(f2, v2, CreateElement(ns, el, e.ns))
    ensures var e2 := Encode(InChild(ns, el, f2), Encode(InChild(ns, el, f1), e, v1), v2);
            && |GetChildren(e2, ns, el)| == 1
            && Decode(InChild(ns, el, f1), e2) == Some(v1)
            && Decode(InChild(ns, el, f2), e2) == Some(v2)
  {
    var e1 := Encode(InChild(ns, el, f1), e, v1);
    var e2 := Encode(InChild(ns, el, f2), e1, v2);
    MatchingHead(e.children, ns, el);
    InChildSingleChild(ns, el, f1, e, v1);
    InChildSingleChild(ns, el, f2, e1, v2);
    InChildRoundTrip(ns, el, f1, e, v1);
    InChildIndependent(ns, el, f1, f2, e1, v2);
    InChildTarget(ns, el, f1, e, v1);
    var c1 := GetChild(e1, ns, el).value;
    assert c1 == EncodeOwn(f1, CreateElement(ns, el, e.ns), v1);
    if f2.TextContent? {
      assert c1.children == [];
    }
    InChildRoundTrip(ns, el, f2, e1, v2);
  }

  /** `childBoolean`: `true` comes back exactly when the child was written or already there. */
  lemma ChildBooleanRoundTrip(ns: string, el: string, e: Element, v: Value)
    ensures Decode(ChildBoolean(ns, el), Encode(ChildBoolean(ns, el), e, v))
            == if Truthy(v) || GetChild(e, ns, el).Some? then Some(Bool(true)) else None
  {
    if Truthy(v) {
      var (e1, i) := FindOrCreate(e, ns, el);
      assert IsChild(e1.children[i], ns, el);
    }
  }

  /** `childEnum`: a name from the set comes back, given no other name of the set is present. */
  lemma ChildEnumRoundTrip(ns: string, names: set<string>, e: Element, s: string)
    requires s in names
    requires forall j :: 0 <= j < |e.children| ==> !IsEnumChild(e.children[j], ns, names)
    ensures Decode(ChildEnum(ns, names), Encode(ChildEnum(ns, names), e, Str(s))) == Some(Str(s))
  {
    var (e1, i) := FindOrCreate(e, ns, s);
    assert forall j :: 0 <= j < |e.children| ==> !IsChild(e.children[j], ns, s);
    assert e1.children[..|e.children|] == e.children;
    assert IsEnumChild(e1.children[|e.children|], ns, names);
  }

  /** The children `AppendEach` creates for `items`. */
  function Created(e: Element, c: Codec, items: seq<Value>): (r: seq<Element>)
    requires c.MultipleChildText? || c.MultipleChildAttribute?
    ensures |r| == |items|
  {
    seq(|items|, i requires 0 <= i < |items| =>
      if c.MultipleChildText? then TextChild(c.ns, c.element, e.ns, items[i])
      else AttrChild(c.ns, c.element, e.ns, c.attr, items[i]))
  }

  lemma {:induction false} MatchingAppendEach(e: Element, c: Codec, items: seq<Value>)
    requires c.MultipleChildText? || c.MultipleChildAttribute?
    ensures GetChildren(AppendEach(e, c, items), c.ns, c.element)
            == GetChildren(e, c.ns, c.element) + Created(e, c, items)
    decreases |items|
  {
    if |items| > 0 {
      var init := items[..|items| - 1];
      var r0 := AppendEach(e, c, init);
      var r := AppendEach(e, c, items);
      MatchingAppendEach(e, c, init);
      assert r.children[..|r.children| - 1] == r0.children;
      assert Created(e, c, items) == Created(e, c, init) + [Created(e, c, items)[|items| - 1]];
    }
  }

  /**
   `multipleChildText` and `multipleChildAttribute`: exporting a list of strings
   appends one child per string, and importing afterwards reads what was there
   before followed by the list, in order.
   */
  lemma MultipleChildRoundTrip(c: Codec, e: Element, xs: seq<Value>)
    requires c.MultipleChildText? || c.MultipleChildAttribute?
    requires forall i :: 0 <= i < |xs| ==> xs[i].Str?
    ensures Decode(c, Encode(c, e, Arr(xs))).Some?
    ensures Decode(c, Encode(c, e, Arr(xs))).value.items == Decode(c, e).value.items + xs
  {
    var e2 := Encode(c, e, Arr(xs));
    assert e2 == AppendEach(e, c, xs);
    MatchingAppendEach(e, c, xs);
    var before := GetChildren(e, c.ns, c.element);
    var created := Created(e, c, xs);
    assert GetChildren(e2, c.ns, c.element) == before + created;
    if c.MultipleChildText? {
      CreatedReadBack(e, c, xs);
      assert Texts(before + created) == Texts(before) + Texts(created);
    } else {
      CreatedReadBack(e, c, xs);
      assert AttrValues(before + created, c.attr) == AttrValues(before, c.attr) + AttrValues(created, c.attr);
    }
  }

  /** Each created child reads back as the string it was created for. */
  lemma CreatedReadBack(e: Element, c: Codec, xs: seq<Value>)
    requires c.MultipleChildText? || c.MultipleChildAttribute?
    requires forall i :: 0 <= i < |xs| ==> xs[i].Str?
    ensures c.MultipleChildText? ==> Texts(Created(e, c, xs)) == xs
    ensures c.MultipleChildAttribute? ==> AttrValues(Created(e, c, xs), c.attr) == xs
  {
    var created := Created(e, c, xs);
    forall i | 0 <= i < |xs|
      ensures c.MultipleChildText? ==> Str(GetText(created[i])) == xs[i]
      ensures c.MultipleChildAttribute? ==> c.attr in created[i].attrs && Str(created[i].attrs[c.attr]) == xs[i]
    {
      if c.MultipleChildText? {
        var ch := created[i];
        assert ch.children == [Text(xs[i].s)];
        assert ch.children[..0] == [];
        assert TextOf(ch.children) == TextOf([]) + xs[i].s;
      }
    }
  }
}
