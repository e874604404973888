/**
 Frame laws of the child codecs of src/Types.ts: the child elements each one
 reads and writes, so that codecs with disjoint targets, the own-element
 codecs and the children pass of `import` do not disturb one another.
 */
module CodecFrames {
  import opened Wrappers
  import opened Xml
  import opened Data
  import opened Codecs
  import opened Translators
  import opened ImportLaws
  import CodecLaws

  /** The codecs that read and write child elements rather than the element itself. */
  predicate ChildCodec(c: Codec) {
    c.InChild? || c.ChildBoolean? || c.ChildEnum? || c.MultipleChildText? || c.MultipleChildAttribute?
  }

  /** The child elements, by namespace and name, a codec reads and writes. */
  function Targets(c: Codec): set<Xid> {
    match c
    case InChild(ns, el, _) => {Xid(ns, el)}
    case ChildBoolean(ns, el) => {Xid(ns, el)}
    case ChildEnum(ns, names) => set n <- names :: Xid(ns, n)
    case MultipleChildText(ns, el) => {Xid(ns, el)}
    case MultipleChildAttribute(ns, el, _) => {Xid(ns, el)}
    case _ => {}
  }

  /** The values an own-element field gives back whatever element it is written into, text aside. */
  predicate Survives(f: Field, v: Value) {
    match f
    case Attribute(_, _) => v.Str? && v.s != ""
    case BooleanAttribute(_) => v.Bool?
    case LanguageAttribute => v.Str?
    case TextContent(_) => v.Str? && v.s != ""
  }

  /**
   The values a child codec gives back when none of its targets is present
   beforehand: what its field survives for a child field, `true` for a child
   boolean (`false` writes nothing), a name of the set for an enumeration, and
   a list of strings for the two multiple codecs.
   */
  predicate Carries(c: Codec, v: Value) {
    match c
    case InChild(_, _, f) => Survives(f, v)
    case ChildBoolean(_, _) => v == Bool(true)
    case ChildEnum(_, names) => v.Str? && v.s in names
    case MultipleChildText(_, _) => v.Arr? && forall i :: 0 <= i < |v.items| ==> v.items[i].Str?
    case MultipleChildAttribute(_, _, _) => v.Arr? && forall i :: 0 <= i < |v.items| ==> v.items[i].Str?
    case _ => false
  }

  /** `n` is not one of the elements `c` reads. */
  predicate Foreign(c: Codec, n: Node) {
    n.Text? || XidOf(n.el) !in Targets(c)
  }

  /** A node foreign to a child codec is never matched by its importer. */
  lemma ForeignUnread(c: Codec, n: Node)
    requires ChildCodec(c) && Foreign(c, n)
    ensures c.ChildEnum? ==> !IsEnumChild(n, c.ns, c.names)
    ensures !c.ChildEnum? ==> !IsChild(n, c.ns, c.element)
  {
    if c.ChildEnum? && n.Elem? {
      assert n.el.name in c.names ==> Xid(c.ns, n.el.name) in Targets(c);
    }
  }

  // ---------------------------------------------------------------- appending

  lemma {:induction false} FirstMatchFromAppend(cs: seq<Node>, tail: seq<Node>, ns: string, name: string, i: nat)
    requires i <= |cs|
    requires forall n <- tail :: !IsChild(n, ns, name)
    ensures FirstMatchFrom(cs + tail, ns, name, i) == FirstMatchFrom(cs, ns, name, i)
    decreases |cs| - i
  {
    if i == |cs| {
      forall j | |cs| <= j < |cs + tail| ensures !IsChild((cs + tail)[j], ns, name) {
        assert (cs + tail)[j] == tail[j - |cs|];
      }
    } else {
      assert (cs + tail)[i] == cs[i];
      FirstMatchFromAppend(cs, tail, ns, name, i + 1);
    }
  }

  lemma {:induction false} FirstEnumFromAppend(cs: seq<Node>, tail: seq<Node>, ns: string, names: set<string>, i: nat)
    requires i <= |cs|
    requires forall n <- tail :: !IsEnumChild(n, ns, names)
    ensures FirstEnumFrom(cs + tail, ns, names, i) == FirstEnumFrom(cs, ns, names, i)
    decreases |cs| - i
  {
    if i == |cs| {
      forall j | |cs| <= j < |cs + tail| ensures !IsEnumChild((cs + tail)[j], ns, names) {
        assert (cs + tail)[j] == tail[j - |cs|];
      }
    } else {
      assert (cs + tail)[i] == cs[i];
      FirstEnumFromAppend(cs, tail, ns, names, i + 1);
    }
  }

  lemma {:induction false} MatchingAppendAll(cs: seq<Node>, tail: seq<Node>, ns: string, name: string)
    requires forall n <- tail :: !IsChild(n, ns, name)
    ensures Matching(cs + tail, ns, name) == Matching(cs, ns, name)
    decreases |tail|
  {
    if |tail| > 0 {
      var init := tail[..|tail| - 1];
      assert (cs + tail)[..|cs + tail| - 1] == cs + init;
      assert (cs + tail)[|cs + tail| - 1] == tail[|tail| - 1] && tail[|tail| - 1] in tail;
      assert forall n <- init :: n in tail;
      MatchingAppendAll(cs, init, ns, name);
    } else {
      assert cs + tail == cs;
    }
  }

  lemma {:induction false} TextAppendElems(cs: seq<Node>, tail: seq<Node>)
    requires forall n <- tail :: n.Elem?
    ensures TextOf(cs + tail) == TextOf(cs)
    decreases |tail|
  {
    if |tail| > 0 {
      var init := tail[..|tail| - 1];
      assert (cs + tail)[..|cs + tail| - 1] == cs + init;
      assert (cs + tail)[|cs + tail| - 1] == tail[|tail| - 1] && tail[|tail| - 1] in tail;
      assert forall n <- init :: n in tail;
      TextAppendElems(cs, init);
    } else {
      assert cs + tail == cs;
    }
  }

  lemma {:induction false} RoutedAppendAll(t: Translator, cs: seq<Node>, tail: seq<Node>)
    requires forall n <- tail :: Route(t, n).None?
    ensures Routed(t, cs + tail) == Routed(t, cs)
    decreases |cs|
  {
    if |cs| == 0 {
      assert cs + tail == tail;
      RoutedNone(t, tail);
    } else {
      assert (cs + tail)[0] == cs[0] && (cs + tail)[1..] == cs[1..] + tail;
      RoutedAppendAll(t, cs[1..], tail);
    }
  }

  lemma {:induction false} RoutedNone(t: Translator, cs: seq<Node>)
    requires forall n <- cs :: Route(t, n).None?
    ensures Routed(t, cs) == []
    decreases |cs|
  {
    if |cs| > 0 {
      assert cs[0] in cs;
      assert forall n <- cs[1..] :: n in cs;
      RoutedNone(t, cs[1..]);
    }
  }

  lemma {:induction false} RoutedAppendOne(t: Translator, cs: seq<Node>, n: Node)
    ensures Routed(t, cs + [n]) == Routed(t, cs) + (if Route(t, n).Some? then [n] else [])
    decreases |cs|
  {
    if |cs| == 0 {
      assert cs + [n] == [n];
      assert [n][1..] == [];
    } else {
      assert (cs + [n])[0] == cs[0] && (cs + [n])[1..] == cs[1..] + [n];
      RoutedAppendOne(t, cs[1..], n);
    }
  }

  // ---------------------------------------------------------------- replacing

  lemma {:induction false} FirstMatchFromReplace(cs: seq<Node>, p: nat, m: Node, ns: string, name: string, i: nat)
    requires p < |cs| && i <= |cs|
    requires !IsChild(cs[p], ns, name) && !IsChild(m, ns, name)
    ensures FirstMatchFrom(cs[p := m], ns, name, i) == FirstMatchFrom(cs, ns, name, i)
    decreases |cs| - i
  {
    if i < |cs| {
      FirstMatchFromReplace(cs, p, m, ns, name, i + 1);
    }
  }

  lemma {:induction false} FirstEnumFromReplace(cs: seq<Node>, p: nat, m: Node, ns: string, names: set<string>, i: nat)
    requires p < |cs| && i <= |cs|
    requires !IsEnumChild(cs[p], ns, names) && !IsEnumChild(m, ns, names)
    ensures FirstEnumFrom(cs[p := m], ns, names, i) == FirstEnumFrom(cs, ns, names, i)
    decreases |cs| - i
  {
    if i < |cs| {
      FirstEnumFromReplace(cs, p, m, ns, names, i + 1);
    }
  }

  lemma {:induction false} MatchingReplaceOther(cs: seq<Node>, p: nat, m: Node, ns: string, name: string)
    requires p < |cs|
    requires !IsChild(cs[p], ns, name) && !IsChild(m, ns, name)
    ensures Matching(cs[p := m], ns, name) == Matching(cs, ns, name)
    decreases |cs|
  {
    var cs' := cs[p := m];
    var n := |cs|;
    if p == n - 1 {
      assert cs'[..n - 1] == cs[..n - 1];
    } else {
      assert cs'[..n - 1] == cs[..n - 1][p := m];
      MatchingReplaceOther(cs[..n - 1], p, m, ns, name);
    }
  }

  lemma {:induction false} TextReplaceElem(cs: seq<Node>, p: nat, m: Element)
    requires p < |cs| && cs[p].Elem?
    ensures TextOf(cs[p := Elem(m)]) == TextOf(cs)
    decreases |cs|
  {
    var cs' := cs[p := Elem(m)];
    var n := |cs|;
    if p == n - 1 {
      assert cs'[..n - 1] == cs[..n - 1];
    } else {
      assert cs'[..n - 1] == cs[..n - 1][p := Elem(m)];
      TextReplaceElem(cs[..n - 1], p, m);
    }
  }

  lemma {:induction false} RoutedReplace(t: Translator, cs: seq<Node>, p: nat, m: Node)
    requires p < |cs|
    requires Route(t, cs[p]).None? && Route(t, m).None?
    ensures Routed(t, cs[p := m]) == Routed(t, cs)
    decreases |cs|
  {
    var cs' := cs[p := m];
    if p == 0 {
      assert cs'[1..] == cs[1..];
    } else {
      assert cs'[0] == cs[0] && cs'[1..] == cs[1..][p - 1 := m];
      RoutedReplace(t, cs[1..], p - 1, m);
    }
  }

  // ---------------------------------------------------------------- codecs

  /** A child codec reads the same after foreign nodes are appended. */
  lemma DecodeAppendAll(c: Codec, e: Element, tail: seq<Node>)
    requires ChildCodec(c)
    requires forall n <- tail :: Foreign(c, n)
    ensures Decode(c, e.(children := e.children + tail)) == Decode(c, e)
  {
    var e2 := e.(children := e.children + tail);
    forall n <- tail
      ensures c.ChildEnum? ==> !IsEnumChild(n, c.ns, c.names)
      ensures !c.ChildEnum? ==> !IsChild(n, c.ns, c.element)
    {
      ForeignUnread(c, n);
    }
    if c.ChildEnum? {
      FirstEnumFromAppend(e.children, tail, c.ns, c.names, 0);
    } else if c.InChild? || c.ChildBoolean? {
      FirstMatchFromAppend(e.children, tail, c.ns, c.element, 0);
      match FirstMatch(e.children, c.ns, c.element)
      case Some(i) =>
        assert e2.children[i] == e.children[i];
      case None =>
    } else {
      MatchingAppendAll(e.children, tail, c.ns, c.element);
    }
  }

  /** A child codec reads the same after a foreign node is replaced by another foreign element. */
  lemma DecodeReplace(c: Codec, e: Element, p: nat, m: Element)
    requires ChildCodec(c) && p < |e.children|
    requires Foreign(c, e.children[p]) && Foreign(c, Elem(m))
    ensures Decode(c, e.(children := e.children[p := Elem(m)])) == Decode(c, e)
  {
    var e2 := e.(children := e.children[p := Elem(m)]);
    ForeignUnread(c, e.children[p]);
    ForeignUnread(c, Elem(m));
    if c.ChildEnum? {
      FirstEnumFromReplace(e.children, p, Elem(m), c.ns, c.names, 0);
      match FirstEnumFrom(e.children, c.ns, c.names, 0)
      case Some(i) =>
        assert i != p;
        assert e2.children[i] == e.children[i];
      case None =>
    } else if c.InChild? || c.ChildBoolean? {
      FirstMatchFromReplace(e.children, p, Elem(m), c.ns, c.element, 0);
      match FirstMatch(e.children, c.ns, c.element)
      case Some(i) =>
        assert i != p;
        assert e2.children[i] == e.children[i];
      case None =>
    } else {
      MatchingReplaceOther(e.children, p, Elem(m), c.ns, c.element);
    }
  }

  /**
   What a child codec does to the element, for a value it carries: it appends
   elements among its targets, then possibly replaces one of its targets by
   another; the element's own attributes stay as they were.
   */
  lemma EncodeShape(c: Codec, e: Element, v: Value) returns (tail: seq<Node>, replaced: bool, p: nat, m: Element)
    requires ChildCodec(c) && Carries(c, v)
    ensures forall n <- tail :: n.Elem? && XidOf(n.el) in Targets(c)
    ensures var e1 := e.(children := e.children + tail);
            && (!replaced ==> Encode(c, e, v) == e1)
            && (replaced ==> && p < |e1.children| && e1.children[p].Elem? && XidOf(e1.children[p].el) in Targets(c)
                             && XidOf(m) in Targets(c)
                             && Encode(c, e, v) == e1.(children := e1.children[p := Elem(m)]))
  {
    replaced, p, m := false, 0, e;
    match c
    case InChild(ns, el, f) =>
      var (e1, i) := FindOrCreate(e, ns, el);
      tail := if Xml.GetChild(e, ns, el).Some? then [] else [Elem(CreateElement(ns, el, e.ns))];
      assert e1 == e.(children := e.children + tail);
      assert IsChild(e1.children[i], ns, el);
      replaced, p, m := true, i, EncodeOwn(f, e1.children[i].el, v);
    case ChildBoolean(ns, el) =>
      tail := if Xml.GetChild(e, ns, el).Some? then [] else [Elem(CreateElement(ns, el, e.ns))];
      assert FindOrCreate(e, ns, el).0 == e.(children := e.children + tail);
    case ChildEnum(ns, names) =>
      tail := if Xml.GetChild(e, ns, v.s).Some? then [] else [Elem(CreateElement(ns, v.s, e.ns))];
      assert Xid(ns, v.s) in Targets(c);
      assert FindOrCreate(e, ns, v.s).0 == e.(children := e.children + tail);
    case MultipleChildText(ns, el) =>
      var r := AppendEach(e, c, v.items);
      tail := r.children[|e.children|..];
      assert r.children == e.children + tail;
      forall n <- tail ensures n.Elem? && XidOf(n.el) in Targets(c) {
        var j :| 0 <= j < |tail| && tail[j] == n;
        assert n == r.children[|e.children| + j] == Elem(TextChild(ns, el, e.ns, v.items[j]));
        assert XidOf(n.el) == Xid(ns, el);
      }
    case MultipleChildAttribute(ns, el, a) =>
      var r := AppendEach(e, c, v.items);
      tail := r.children[|e.children|..];
      assert r.children == e.children + tail;
      forall n <- tail ensures n.Elem? && XidOf(n.el) in Targets(c) {
        var j :| 0 <= j < |tail| && tail[j] == n;
        assert n == r.children[|e.children| + j] == Elem(AttrChild(ns, el, e.ns, a, v.items[j]));
        assert XidOf(n.el) == Xid(ns, el);
      }
  }

  /** Writing a child codec leaves what another child codec with disjoint targets reads untouched. */
  lemma EncodeForeign(c: Codec, w: Codec, e: Element, v: Value)
    requires ChildCodec(c) && ChildCodec(w) && Carries(w, v)
    requires Targets(c) !! Targets(w)
    ensures Decode(c, Encode(w, e, v)) == Decode(c, e)
  {
    var tail, replaced, p, m := EncodeShape(w, e, v);
    var e1 := e.(children := e.children + tail);
    DecodeAppendAll(c, e, tail);
    if replaced {
      DecodeReplace(c, e1, p, m);
    }
  }

  /** Writing a child codec leaves the element's attributes and text, and so every own field, as they were. */
  lemma EncodeKeepsOwn(w: Codec, e: Element, v: Value, f: Field)
    requires ChildCodec(w) && Carries(w, v)
    ensures DecodeOwn(f, Encode(w, e, v)) == DecodeOwn(f, e)
  {
    EncodeKeepsText(w, e, v);
    OwnReadsSame(f, Encode(w, e, v), e);
  }

  /** An own field reads the attributes and the text alone. */
  lemma OwnReadsSame(f: Field, e1: Element, e2: Element)
    requires e1.attrs == e2.attrs && GetText(e1) == GetText(e2)
    ensures DecodeOwn(f, e1) == DecodeOwn(f, e2)
  {
  }

  lemma EncodeKeepsText(w: Codec, e: Element, v: Value)
    requires ChildCodec(w) && Carries(w, v)
    ensures Encode(w, e, v).attrs == e.attrs && GetText(Encode(w, e, v)) == GetText(e)
  {
    var tail, replaced, p, m := EncodeShape(w, e, v);
    var e1 := e.(children := e.children + tail);
    TextAppendElems(e.children, tail);
    if replaced {
      TextReplaceElem(e1.children, p, m);
    }
  }

  /** Writing a child codec whose targets `t` does not index leaves the children `import` routes unchanged. */
  lemma EncodeRouted(t: Translator, w: Codec, e: Element, v: Value)
    requires ChildCodec(w) && Carries(w, v)
    requires Targets(w) !! t.childrenIndex.Keys
    ensures Routed(t, Encode(w, e, v).children) == Routed(t, e.children)
  {
    var tail, replaced, p, m := EncodeShape(w, e, v);
    var e1 := e.(children := e.children + tail);
    forall n <- tail ensures Route(t, n).None? {
      assert XidOf(n.el) in Targets(w);
    }
    RoutedAppendAll(t, e.children, tail);
    if replaced {
      assert XidOf(e1.children[p].el) in Targets(w);
      RoutedReplace(t, e1.children, p, Elem(m));
    }
  }

  /** Every child after writing a child codec was there before or is one of the codec's targets. */
  lemma EncodeGrows(w: Codec, e: Element, v: Value)
    requires ChildCodec(w) && Carries(w, v)
    ensures forall n <- Encode(w, e, v).children :: n in e.children || (n.Elem? && XidOf(n.el) in Targets(w))
  {
    var tail, replaced, p, m := EncodeShape(w, e, v);
    var e1 := e.(children := e.children + tail);
    forall n <- Encode(w, e, v).children ensures n in e.children || (n.Elem? && XidOf(n.el) in Targets(w)) {
      var j :| 0 <= j < |Encode(w, e, v).children| && Encode(w, e, v).children[j] == n;
      if !(replaced && j == p) {
        assert n == e1.children[j];
        if j >= |e.children| {
          assert n == tail[j - |e.children|] && n in tail;
        }
      }
    }
  }

  /** A child codec written where none of its targets is present reads back the value it carries. */
  lemma ChildCarries(c: Codec, e: Element, v: Value)
    requires ChildCodec(c) && Carries(c, v)
    requires forall n <- e.children :: Foreign(c, n)
    ensures Decode(c, Encode(c, e, v)) == Some(v)
  {
    forall n <- e.children
      ensures c.ChildEnum? ==> !IsEnumChild(n, c.ns, c.names)
      ensures !c.ChildEnum? ==> !IsChild(n, c.ns, c.element)
    {
      ForeignUnread(c, n);
    }
    if c.InChild? {
      InChildCarries(c, e, v);
    } else if c.ChildBoolean? {
      CodecLaws.ChildBooleanRoundTrip(c.ns, c.element, e, v);
    } else if c.ChildEnum? {
      EnumCarries(c, e, v);
    } else {
      MultipleCarries(c, e, v);
    }
  }

  lemma InChildCarries(c: Codec, e: Element, v: Value)
    requires c.InChild? && Survives(c.field, v)
    requires forall n <- e.children :: !IsChild(n, c.ns, c.element)
    ensures Decode(c, Encode(c, e, v)) == Some(v)
  {
    forall j | 0 <= j < |e.children| ensures !IsChild(e.children[j], c.ns, c.element) {
      assert e.children[j] in e.children;
    }
    assert GetText(CreateElement(c.ns, c.element, e.ns)) == "";
    CodecLaws.InChildRoundTrip(c.ns, c.element, c.field, e, v);
  }

  lemma EnumCarries(c: Codec, e: Element, v: Value)
    requires c.ChildEnum? && v.Str? && v.s in c.names
    requires forall n <- e.children :: !IsEnumChild(n, c.ns, c.names)
    ensures Decode(c, Encode(c, e, v)) == Some(v)
  {
    forall j | 0 <= j < |e.children| ensures !IsEnumChild(e.children[j], c.ns, c.names) {
      assert e.children[j] in e.children;
    }
    CodecLaws.ChildEnumRoundTrip(c.ns, c.names, e, v.s);
  }

  lemma MultipleCarries(c: Codec, e: Element, v: Value)
    requires c.MultipleChildText? || c.MultipleChildAttribute?
    requires v.Arr? && forall i :: 0 <= i < |v.items| ==> v.items[i].Str?
    requires forall n <- e.children :: !IsChild(n, c.ns, c.element)
    ensures Decode(c, Encode(c, e, v)) == Some(v)
  {
    MatchingAppendAll([], e.children, c.ns, c.element);
    assert [] + e.children == e.children;
    assert GetChildren(e, c.ns, c.element) == [];
    CodecLaws.MultipleChildRoundTrip(c, e, v.items);
    var d := Decode(c, Encode(c, e, v));
    assert d.Some? && d.value.Arr? && d.value.items == v.items;
  }

  /** A child codec reads the children alone. */
  lemma ReadsChildrenOnly(c: Codec, e1: Element, e2: Element)
    requires ChildCodec(c) && e1.children == e2.children
    ensures Decode(c, e1) == Decode(c, e2)
  {
  }

  /** Writing an own-element field adds at most text, which no child codec reads. */
  lemma OwnKeepsChildren(f: Field, e: Element, v: Value, c: Codec)
    requires ChildCodec(c)
    ensures Decode(c, EncodeOwn(f, e, v)) == Decode(c, e)
    ensures forall n <- EncodeOwn(f, e, v).children :: n in e.children || n.Text?
  {
    var r := EncodeOwn(f, e, v);
    var tail := if f.TextContent? && v.Str? then [Text(v.s)] else [];
    assert r.children == e.children + tail;
    DecodeAppendAll(c, e, tail);
    ReadsChildrenOnly(c, r, e.(children := e.children + tail));
  }

  /** Writing an own-element field leaves the children `import` routes unchanged. */
  lemma OwnKeepsRouted(f: Field, e: Element, v: Value, t: Translator)
    ensures Routed(t, EncodeOwn(f, e, v).children) == Routed(t, e.children)
  {
    var tail := if f.TextContent? && v.Str? then [Text(v.s)] else [];
    assert EncodeOwn(f, e, v).children == e.children + tail;
    RoutedAppendAll(t, e.children, tail);
  }
}
