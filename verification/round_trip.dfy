/**
 Export then import through one translator (src/Translator.ts): an object
 made of own-element fields, child-codec fields, objects nested under single
 child translators and the type discriminator comes back with every key it
 had, nested objects at least with theirs.
 */
module RoundTrips {
  import opened Wrappers
  import opened OrderedMaps
  import opened Xml
  import opened Data
  import opened Codecs
  import opened Translators
  import opened ImportLaws
  import opened ExportLaws
  import opened CodecFrames

  // ---------------------------------------------------------------- the objects that make the trip

  /** `k` is exported and imported by the same codec, one that reads and writes the element itself. */
  predicate OwnField(exp: Fields, imp: Fields, k: string) {
    k in exp.entries && k in imp.entries && exp.entries[k] == imp.entries[k] && exp.entries[k].Own?
  }

  /**
   `k` is exported and imported by the same child codec, and `tr` collects
   none of the codec's target elements as a child object.
   */
  predicate ChildField(tr: Translator, exp: Fields, imp: Fields, k: string) {
    && k in exp.entries && k in imp.entries && exp.entries[k] == imp.entries[k]
    && ChildCodec(exp.entries[k]) && Targets(exp.entries[k]) !! tr.childrenIndex.Keys
  }

  /** `k` has no field exporter, names a single child translator, and holds an object. */
  predicate NestedKey(tr: Translator, exp: Fields, k: string, v: Value) {
    k !in exp.entries && k in tr.children && !tr.children[k].multiple && v.Obj?
  }

  /**
   `k` is the type discriminator holding a string, and names neither a field
   nor a child, so that `export` writes nothing for it.
   */
  predicate TypeKey(tr: Translator, exp: Fields, k: string, v: Value) {
    k == tr.typeField && k !in exp.entries && k !in tr.children && v.Str?
  }

  /**
   Every key of the object is of one of the four kinds above, with a value
   its codec gives back; no two own fields share an attribute (so at most one
   writes text), and no two child fields share a target element.
   */
  ghost predicate Encodable(tr: Translator, exp: Fields, imp: Fields, props: Object) {
    && (forall k <- props.entries.Keys ::
          || (OwnField(exp, imp, k) && Survives(exp.entries[k].field, props.entries[k]))
          || (ChildField(tr, exp, imp, k) && Carries(exp.entries[k], props.entries[k]))
          || NestedKey(tr, exp, k, props.entries[k])
          || TypeKey(tr, exp, k, props.entries[k]))
    && (forall k1 <- props.entries.Keys, k2 <- props.entries.Keys ::
          k1 != k2 && OwnField(exp, imp, k1) && OwnField(exp, imp, k2) ==>
            Footprint(exp.entries[k1].field) != Footprint(exp.entries[k2].field))
    && (forall k1 <- props.entries.Keys, k2 <- props.entries.Keys ::
          k1 != k2 && ChildField(tr, exp, imp, k1) && ChildField(tr, exp, imp, k2) ==>
            Targets(exp.entries[k1]) !! Targets(exp.entries[k2]))
  }

  /**
   A type discriminator key comes back through the type value of the exported
   element: the translator has a type field, the importer no field of that
   name, and the element's type value is the string the object holds.
   */
  ghost predicate Stamped(tr: Translator, b: Bucket, imp: Fields, props: Object) {
    var tf := tr.typeField;
    var x := Xid(b.ns, b.element);
    tf in props.entries && TypeKey(tr, b.fields, tf, props.entries[tf]) ==>
      && tf != "" && tf !in imp.entries
      && x in tr.typeValues && tr.typeValues[x] != "" && props.entries[tf] == Str(tr.typeValues[x])
  }

  /** The element the child translator under `k` exports for `v` is collected back under `k`. */
  predicate CollectedUnder(nodes: seq<Translator>, tr: Translator, k: string, v: Value) {
    && k in tr.children && tr.children[k].node < |nodes| && v.Obj?
    && match Selected(nodes[tr.children[k].node], v.props)
       case Some(cb) => Xid(cb.ns, cb.element) in tr.childrenIndex && tr.childrenIndex[Xid(cb.ns, cb.element)] == k
       case None => false
  }

  /** Every nested object of `props` is collected back under its key and makes the trip itself. */
  ghost predicate NestedTransferable(nodes: seq<Translator>, tr: Translator, exp: Fields, props: Object)
    decreases Obj(props), 0
  {
    forall k <- props.entries.Keys :: NestedKey(tr, exp, k, props.entries[k]) ==>
      && CollectedUnder(nodes, tr, k, props.entries[k])
      && (assert props.entries[k] in props.entries.Values;
          Transferable(nodes, tr.children[k].node, props.entries[k]))
  }

  /** `v` is an object translator `t` exports with an exporter whose element it also imports, and which makes the trip. */
  ghost predicate Transferable(nodes: seq<Translator>, t: TId, v: Value)
    decreases v, 1
  {
    && t < |nodes| && v.Obj? && v.props.Valid()
    && Selected(nodes[t], v.props).Some?
    && var tr := nodes[t];
       var b := Selected(tr, v.props).value;
       var x := Xid(b.ns, b.element);
       && x in tr.importers.entries
       && Encodable(tr, b.fields, tr.importers.entries[x].fields, v.props)
       && Stamped(tr, b, tr.importers.entries[x].fields, v.props)
       && NestedTransferable(nodes, tr, b.fields, v.props)
  }

  /**
   What the trip promises: an object gets back every key it had, each holding
   again; any other value is given back exactly.
   */
  predicate Holds(got: Value, want: Value)
    decreases want
  {
    match want
    case Obj(p) =>
      got.Obj? && forall k <- p.entries.Keys ::
        k in got.props.entries && (assert p.entries[k] in p.entries.Values; Holds(got.props.entries[k], p.entries[k]))
    case _ => got == want
  }

  // ---------------------------------------------------------------- export

  /** The own field of key `k`. */
  function FieldOf(exp: Fields, k: string): Field
    requires k in exp.entries && exp.entries[k].Own?
  {
    exp.entries[k].field
  }

  /** The elements exported for the nested keys among `keys`, in key order. */
  ghost function NestedEls(nodes: seq<Translator>, tr: Translator, b: Bucket, props: Object, keys: seq<string>): seq<Node>
    decreases |keys|
  {
    if |keys| == 0 then []
    else
      var k := keys[|keys| - 1];
      NestedEls(nodes, tr, b, props, keys[..|keys| - 1])
      + (if k in props.entries && NestedKey(tr, b.fields, k, props.entries[k])
            && Export(nodes, tr.children[k].node, props.entries[k], b.ns).Some?
         then [Elem(Export(nodes, tr.children[k].node, props.entries[k], b.ns).value)] else [])
  }

  /**
   The state of the key loop after the keys `done`: their own and child
   fields read back; the element holds no text unless an own text field was
   written; no child is a target of a child field still to come; and the
   children `import` routes are the nested objects' elements, in key order.
   */
  ghost predicate Written(nodes: seq<Translator>, tr: Translator, b: Bucket, imp: Fields, props: Object, done: seq<string>, out: Element) {
    && (forall k <- done :: k in props.entries && OwnField(b.fields, imp, k) ==>
          DecodeOwn(FieldOf(b.fields, k), out) == Some(props.entries[k]))
    && (forall k <- done :: k in props.entries && ChildField(tr, b.fields, imp, k) ==>
          Decode(b.fields.entries[k], out) == Some(props.entries[k]))
    && ((forall k <- done :: OwnField(b.fields, imp, k) ==> !FieldOf(b.fields, k).TextContent?) ==> GetText(out) == "")
    && (forall k <- props.entries.Keys :: k !in done && ChildField(tr, b.fields, imp, k) ==>
          forall n <- out.children :: Foreign(b.fields.entries[k], n))
    && Routed(tr, out.children) == NestedEls(nodes, tr, b, props, done)
  }

  /** Writing an own field. */
  lemma OwnKeyStep(nodes: seq<Translator>, tr: Translator, b: Bucket, imp: Fields, props: Object, done: seq<string>, key: string, out: Element)
    requires Encodable(tr, b.fields, imp, props)
    requires key in props.entries && OwnField(b.fields, imp, key) && key !in done
    requires forall k <- done :: k in props.entries
    requires Written(nodes, tr, b, imp, props, done, out)
    ensures Written(nodes, tr, b, imp, props, done + [key], EncodeOwn(FieldOf(b.fields, key), out, props.entries[key]))
  {
    var f := FieldOf(b.fields, key);
    var v := props.entries[key];
    var next := EncodeOwn(f, out, v);
    if f.TextContent? {
      forall k <- done | OwnField(b.fields, imp, k) ensures !FieldOf(b.fields, k).TextContent? {
        assert Footprint(FieldOf(b.fields, k)) != Footprint(f);
      }
    }
    OwnRoundTrip(f, out, v);
    forall k <- done | OwnField(b.fields, imp, k)
      ensures DecodeOwn(FieldOf(b.fields, k), next) == Some(props.entries[k])
    {
      OwnIndependent(FieldOf(b.fields, k), f, out, v);
    }
    forall k <- done | ChildField(tr, b.fields, imp, k)
      ensures Decode(b.fields.entries[k], next) == Some(props.entries[k])
    {
      OwnKeepsChildren(f, out, v, b.fields.entries[k]);
    }
    forall k <- props.entries.Keys | k !in done + [key] && ChildField(tr, b.fields, imp, k)
      ensures forall n <- next.children :: Foreign(b.fields.entries[k], n)
    {
      OwnKeepsChildren(f, out, v, b.fields.entries[k]);
    }
    OwnKeepsRouted(f, out, v, tr);
    assert (done + [key])[..|done|] == done;
  }

  /** Writing a child-codec field. */
  lemma ChildKeyStep(nodes: seq<Translator>, tr: Translator, b: Bucket, imp: Fields, props: Object, done: seq<string>, key: string, out: Element)
    requires Encodable(tr, b.fields, imp, props)
    requires key in props.entries && ChildField(tr, b.fields, imp, key) && key !in done
    requires forall k <- done :: k in props.entries
    requires Written(nodes, tr, b, imp, props, done, out)
    ensures Written(nodes, tr, b, imp, props, done + [key], Encode(b.fields.entries[key], out, props.entries[key]))
  {
    var c := b.fields.entries[key];
    var v := props.entries[key];
    var next := Encode(c, out, v);
    assert Carries(c, v);
    ChildCarries(c, out, v);
    forall k <- done | OwnField(b.fields, imp, k)
      ensures DecodeOwn(FieldOf(b.fields, k), next) == Some(props.entries[k])
    {
      EncodeKeepsOwn(c, out, v, FieldOf(b.fields, k));
    }
    forall k <- done | ChildField(tr, b.fields, imp, k)
      ensures Decode(b.fields.entries[k], next) == Some(props.entries[k])
    {
      EncodeForeign(b.fields.entries[k], c, out, v);
    }
    EncodeKeepsText(c, out, v);
    EncodeGrows(c, out, v);
    forall k <- props.entries.Keys | k !in done + [key] && ChildField(tr, b.fields, imp, k)
      ensures forall n <- next.children :: Foreign(b.fields.entries[k], n)
    {
      assert Targets(b.fields.entries[k]) !! Targets(c);
    }
    EncodeRouted(tr, c, out, v);
    assert (done + [key])[..|done|] == done;
  }

  /** Appending the element a nested object exports. */
  lemma NestedKeyStep(nodes: seq<Translator>, tr: Translator, b: Bucket, imp: Fields, props: Object, done: seq<string>, key: string, out: Element)
    requires key in props.entries && NestedKey(tr, b.fields, key, props.entries[key]) && key !in done
    requires forall k <- done :: k in props.entries
    requires CollectedUnder(nodes, tr, key, props.entries[key])
    requires Written(nodes, tr, b, imp, props, done, out)
    ensures Export(nodes, tr.children[key].node, props.entries[key], b.ns).Some?
    ensures var y := Export(nodes, tr.children[key].node, props.entries[key], b.ns).value;
            Written(nodes, tr, b, imp, props, done + [key], out.(children := out.children + [Elem(y)]))
  {
    var y := Export(nodes, tr.children[key].node, props.entries[key], b.ns).value;
    var next := out.(children := out.children + [Elem(y)]);
    assert XidOf(y) in tr.childrenIndex && tr.childrenIndex[XidOf(y)] == key;
    TextAppendElems(out.children, [Elem(y)]);
    forall k <- done | OwnField(b.fields, imp, k)
      ensures DecodeOwn(FieldOf(b.fields, k), next) == Some(props.entries[k])
    {
      OwnReadsSame(FieldOf(b.fields, k), next, out);
    }
    forall k <- done | ChildField(tr, b.fields, imp, k)
      ensures Decode(b.fields.entries[k], next) == Some(props.entries[k])
    {
      DecodeAppendAll(b.fields.entries[k], out, [Elem(y)]);
    }
    RoutedAppendOne(tr, out.children, Elem(y));
    assert (done + [key])[..|done|] == done;
  }

  /** A type discriminator key writes nothing. */
  lemma TypeKeyStep(nodes: seq<Translator>, tr: Translator, b: Bucket, imp: Fields, props: Object, done: seq<string>, key: string, out: Element)
    requires key in props.entries && TypeKey(tr, b.fields, key, props.entries[key])
    requires Written(nodes, tr, b, imp, props, done, out)
    ensures Written(nodes, tr, b, imp, props, done + [key], out)
  {
    assert (done + [key])[..|done|] == done;
  }

  /** A key of a duplicate-free order does not occur before its own position. */
  lemma NotInPrefix(order: seq<string>, i: nat)
    requires i < |order| && forall a, c :: 0 <= a < c < |order| ==> order[a] != order[c]
    ensures order[i] !in order[..i] && order[..i + 1] == order[..i] + [order[i]]
  {
    forall j | 0 <= j < i ensures order[..i][j] != order[i] {
      assert order[..i][j] == order[j];
    }
  }

  /** The key-loop step for an own field. */
  lemma OwnWritten(nodes: seq<Translator>, tr: Translator, b: Bucket, imp: Fields, data: Value, i: nat, out: Element) returns (next: Element)
    requires data.Obj? && data.props.Valid() && Encodable(tr, b.fields, imp, data.props)
    requires forall k <- data.props.entries.Keys :: NestedKey(tr, b.fields, k, data.props.entries[k]) ==>
               CollectedUnder(nodes, tr, k, data.props.entries[k])
    requires i < |data.props.order|
    requires Written(nodes, tr, b, imp, data.props, data.props.order[..i], out)
    requires OwnField(b.fields, imp, data.props.order[i])
    ensures ExportKeys(nodes, tr, b, data, i, out) == ExportKeys(nodes, tr, b, data, i + 1, next)
    ensures Written(nodes, tr, b, imp, data.props, data.props.order[..i + 1], next)
  {
    var props := data.props;
    var key := props.order[i];
    var done := props.order[..i];
    var v := props.entries[key];
    NotInPrefix(props.order, i);
    assert forall k <- done :: k in props.entries;
    next := EncodeOwn(FieldOf(b.fields, key), out, v);
    KeyStep(nodes, tr, b, data, i, out);
    OwnKeyStep(nodes, tr, b, imp, props, done, key, out);
  }

  /** The key-loop step for a child-codec field. */
  lemma ChildWritten(nodes: seq<Translator>, tr: Translator, b: Bucket, imp: Fields, data: Value, i: nat, out: Element) returns (next: Element)
    requires data.Obj? && data.props.Valid() && Encodable(tr, b.fields, imp, data.props)
    requires forall k <- data.props.entries.Keys :: NestedKey(tr, b.fields, k, data.props.entries[k]) ==>
               CollectedUnder(nodes, tr, k, data.props.entries[k])
    requires i < |data.props.order|
    requires Written(nodes, tr, b, imp, data.props, data.props.order[..i], out)
    requires ChildField(tr, b.fields, imp, data.props.order[i])
    ensures ExportKeys(nodes, tr, b, data, i, out) == ExportKeys(nodes, tr, b, data, i + 1, next)
    ensures Written(nodes, tr, b, imp, data.props, data.props.order[..i + 1], next)
  {
    var props := data.props;
    var key := props.order[i];
    var done := props.order[..i];
    var v := props.entries[key];
    NotInPrefix(props.order, i);
    assert forall k <- done :: k in props.entries;
    next := Encode(b.fields.entries[key], out, v);
    KeyStep(nodes, tr, b, data, i, out);
    ChildKeyStep(nodes, tr, b, imp, props, done, key, out);
  }

  /** The key-loop step for a nested object. */
  lemma NestedWritten(nodes: seq<Translator>, tr: Translator, b: Bucket, imp: Fields, data: Value, i: nat, out: Element) returns (next: Element)
    requires data.Obj? && data.props.Valid() && Encodable(tr, b.fields, imp, data.props)
    requires forall k <- data.props.entries.Keys :: NestedKey(tr, b.fields, k, data.props.entries[k]) ==>
               CollectedUnder(nodes, tr, k, data.props.entries[k])
    requires i < |data.props.order|
    requires Written(nodes, tr, b, imp, data.props, data.props.order[..i], out)
    requires NestedKey(tr, b.fields, data.props.order[i], data.props.entries[data.props.order[i]])
    ensures ExportKeys(nodes, tr, b, data, i, out) == ExportKeys(nodes, tr, b, data, i + 1, next)
    ensures Written(nodes, tr, b, imp, data.props, data.props.order[..i + 1], next)
  {
    var props := data.props;
    var key := props.order[i];
    var done := props.order[..i];
    var v := props.entries[key];
    NotInPrefix(props.order, i);
    assert forall k <- done :: k in props.entries;
    NestedKeyStep(nodes, tr, b, imp, props, done, key, out);
    var ch := tr.children[key];
    var y := Export(nodes, ch.node, v, b.ns).value;
    next := out.(children := out.children + [Elem(y)]);
    KeyStep(nodes, tr, b, data, i, out);
    assert Items(ch.multiple, v) == [v] && [v][1..] == [];
    assert Exported(nodes, ch.node, Items(ch.multiple, v), b.ns) == [Elem(y)];
  }

  /** The key-loop step for the type discriminator, the only kind left. */
  lemma TypeWritten(nodes: seq<Translator>, tr: Translator, b: Bucket, imp: Fields, data: Value, i: nat, out: Element) returns (next: Element)
    requires data.Obj? && data.props.Valid() && Encodable(tr, b.fields, imp, data.props)
    requires forall k <- data.props.entries.Keys :: NestedKey(tr, b.fields, k, data.props.entries[k]) ==>
               CollectedUnder(nodes, tr, k, data.props.entries[k])
    requires i < |data.props.order|
    requires Written(nodes, tr, b, imp, data.props, data.props.order[..i], out)
    requires var key := data.props.order[i];
             && !OwnField(b.fields, imp, key) && !ChildField(tr, b.fields, imp, key)
             && !NestedKey(tr, b.fields, key, data.props.entries[key])
    ensures ExportKeys(nodes, tr, b, data, i, out) == ExportKeys(nodes, tr, b, data, i + 1, next)
    ensures Written(nodes, tr, b, imp, data.props, data.props.order[..i + 1], next)
  {
    var props := data.props;
    var key := props.order[i];
    var done := props.order[..i];
    var v := props.entries[key];
    NotInPrefix(props.order, i);
    assert forall k <- done :: k in props.entries;
    assert TypeKey(tr, b.fields, key, v);
    next := out;
    KeyStep(nodes, tr, b, data, i, out);
    TypeKeyStep(nodes, tr, b, imp, props, done, key, out);
  }

  /** One step of the key loop of `export`, as the state `Written` sees it. */
  lemma KeyWritten(nodes: seq<Translator>, tr: Translator, b: Bucket, imp: Fields, data: Value, i: nat, out: Element) returns (next: Element)
    requires data.Obj? && data.props.Valid() && Encodable(tr, b.fields, imp, data.props)
    requires forall k <- data.props.entries.Keys :: NestedKey(tr, b.fields, k, data.props.entries[k]) ==>
               CollectedUnder(nodes, tr, k, data.props.entries[k])
    requires i < |data.props.order|
    requires Written(nodes, tr, b, imp, data.props, data.props.order[..i], out)
    ensures ExportKeys(nodes, tr, b, data, i, out) == ExportKeys(nodes, tr, b, data, i + 1, next)
    ensures Written(nodes, tr, b, imp, data.props, data.props.order[..i + 1], next)
  {
    var key := data.props.order[i];
    if OwnField(b.fields, imp, key) {
      next := OwnWritten(nodes, tr, b, imp, data, i, out);
    } else if ChildField(tr, b.fields, imp, key) {
      next := ChildWritten(nodes, tr, b, imp, data, i, out);
    } else if NestedKey(tr, b.fields, key, data.props.entries[key]) {
      next := NestedWritten(nodes, tr, b, imp, data, i, out);
    } else {
      next := TypeWritten(nodes, tr, b, imp, data, i, out);
    }
  }

  /** The key loop of `export` leaves every field readable and routes exactly the nested objects' elements. */
  lemma {:induction false} KeysEncode(nodes: seq<Translator>, tr: Translator, b: Bucket, imp: Fields, data: Value, i: nat, out: Element)
    requires data.Obj? && data.props.Valid() && Encodable(tr, b.fields, imp, data.props)
    requires forall k <- data.props.entries.Keys :: NestedKey(tr, b.fields, k, data.props.entries[k]) ==>
               CollectedUnder(nodes, tr, k, data.props.entries[k])
    requires i <= |data.props.order|
    requires Written(nodes, tr, b, imp, data.props, data.props.order[..i], out)
    ensures Written(nodes, tr, b, imp, data.props, data.props.order, ExportKeys(nodes, tr, b, data, i, out))
    decreases |data.props.order| - i
  {
    if i == |data.props.order| {
      assert data.props.order[..i] == data.props.order;
    } else {
      var next := KeyWritten(nodes, tr, b, imp, data, i, out);
      KeysEncode(nodes, tr, b, imp, data, i + 1, next);
    }
  }

  /**
   What `export` produces for an encodable object: the exporter's element,
   from which every own and child field reads back, and whose routed children
   are the nested objects' elements in key order.
   */
  lemma ExportShape(nodes: seq<Translator>, t: TId, props: Object, parentNs: string, imp: Fields) returns (el: Element)
    requires t < |nodes| && props.Valid() && Selected(nodes[t], props).Some?
    requires var b := Selected(nodes[t], props).value;
             && Encodable(nodes[t], b.fields, imp, props)
             && forall k <- props.entries.Keys :: NestedKey(nodes[t], b.fields, k, props.entries[k]) ==>
                  CollectedUnder(nodes, nodes[t], k, props.entries[k])
    ensures Export(nodes, t, Obj(props), parentNs) == Some(el)
    ensures var b := Selected(nodes[t], props).value; XidOf(el) == Xid(b.ns, b.element)
    ensures var b := Selected(nodes[t], props).value;
            && (forall k <- props.entries.Keys :: OwnField(b.fields, imp, k) ==> DecodeOwn(FieldOf(b.fields, k), el) == Some(props.entries[k]))
            && (forall k <- props.entries.Keys :: ChildField(nodes[t], b.fields, imp, k) ==> Decode(b.fields.entries[k], el) == Some(props.entries[k]))
            && Routed(nodes[t], el.children) == NestedEls(nodes, nodes[t], b, props, props.order)
  {
    var b := Selected(nodes[t], props).value;
    var start := CreateElement(b.ns, b.element, parentNs);
    assert props.order[..0] == [];
    assert Written(nodes, nodes[t], b, imp, props, [], start);
    KeysEncode(nodes, nodes[t], b, imp, Obj(props), 0, start);
    el := ExportKeys(nodes, nodes[t], b, Obj(props), 0, start);
  }

  // ---------------------------------------------------------------- import

  /** The children pass of `import` ignores text. */
  lemma TextOnly(nodes: seq<Translator>, tr: Translator, e: Element, out: Object)
    requires forall n <- e.children :: n.Text?
    ensures ImportChildren(nodes, tr, e, e.children, out) == out
  {
    SkipsUnrouted(nodes, tr, e, e.children, out);
    assert Routed(tr, e.children) == [];
  }

  /** `import` of an element its translator knows is the field pass, then the routed children alone. */
  lemma ImportShape(nodes: seq<Translator>, t: TId, el: Element)
    requires t < |nodes| && XidOf(el) in nodes[t].importers.entries
    ensures var imp := nodes[t].importers.entries[XidOf(el)].fields;
            Import(nodes, t, el)
            == Some(ImportChildren(nodes, nodes[t], el, Routed(nodes[t], el.children),
                                   ImportFields(el, imp, imp.order, Stamp(nodes[t], XidOf(el)))))
  {
    var imp := nodes[t].importers.entries[XidOf(el)].fields;
    SkipsUnrouted(nodes, nodes[t], el, el.children, ImportFields(el, imp, imp.order, Stamp(nodes[t], XidOf(el))));
  }

  /** A key no child routes to keeps its value through the children pass. */
  lemma {:induction false} NotRoutedTo(nodes: seq<Translator>, tr: Translator, e: Element, cs: seq<Node>, out: Object, k: string)
    requires forall n <- cs :: n in e.children
    requires forall n <- cs :: Route(tr, n).Some? ==> Route(tr, n).value.0 != k
    ensures var r := ImportChildren(nodes, tr, e, cs, out);
            (k in r.entries <==> k in out.entries) && (k in out.entries ==> r.entries[k] == out.entries[k])
    decreases |cs|
  {
    if |cs| > 0 {
      assert cs[0] in cs;
      assert forall n <- cs[1..] :: n in cs;
      NotRoutedTo(nodes, tr, e, cs[1..], ImportChild(nodes, tr, e, cs[0], out), k);
    }
  }

  /** Every element of `NestedEls` is routed to a nested key among `keys`. */
  lemma {:induction false} NestedRoutes(nodes: seq<Translator>, tr: Translator, b: Bucket, props: Object, keys: seq<string>)
    requires forall k <- keys :: k in props.entries && NestedKey(tr, b.fields, k, props.entries[k]) ==>
               CollectedUnder(nodes, tr, k, props.entries[k])
    ensures forall n <- NestedEls(nodes, tr, b, props, keys) ::
              && Route(tr, n).Some?
              && var g := Route(tr, n).value.0;
                 g in props.entries && NestedKey(tr, b.fields, g, props.entries[g])
    decreases |keys|
  {
    if |keys| > 0 {
      var k := keys[|keys| - 1];
      assert forall j <- keys[..|keys| - 1] :: j in keys;
      NestedRoutes(nodes, tr, b, props, keys[..|keys| - 1]);
      if k in props.entries && NestedKey(tr, b.fields, k, props.entries[k])
         && Export(nodes, tr.children[k].node, props.entries[k], b.ns).Some? {
        assert k in keys;
        var y := Export(nodes, tr.children[k].node, props.entries[k], b.ns).value;
        assert XidOf(y) in tr.childrenIndex && tr.childrenIndex[XidOf(y)] == k;
      }
    }
  }

  lemma {:induction false} ResultsConcat(nodes: seq<Translator>, tr: Translator, a: seq<Node>, c: seq<Node>, f: string)
    ensures Results(nodes, tr, a + c, f) == Results(nodes, tr, a, f) + Results(nodes, tr, c, f)
    decreases |a|
  {
    if |a| == 0 {
      assert a + c == c;
    } else {
      assert (a + c)[0] == a[0] && (a + c)[1..] == a[1..] + c;
      ResultsConcat(nodes, tr, a[1..], c, f);
    }
  }

  /** The objects the nested elements contribute to key `f`: the one exported for `f`, if it imports. */
  lemma {:induction false} NestedResults(nodes: seq<Translator>, tr: Translator, b: Bucket, props: Object, keys: seq<string>, f: string)
    requires forall i, j :: 0 <= i < j < |keys| ==> keys[i] != keys[j]
    requires forall k <- keys :: k in props.entries && NestedKey(tr, b.fields, k, props.entries[k]) ==>
               CollectedUnder(nodes, tr, k, props.entries[k])
    ensures Results(nodes, tr, NestedEls(nodes, tr, b, props, keys), f)
            == if f in keys && f in props.entries && NestedKey(tr, b.fields, f, props.entries[f]) then
                 match Export(nodes, tr.children[f].node, props.entries[f], b.ns)
                 case Some(y) => (match Import(nodes, tr.children[f].node, y) case Some(o) => [Obj(o)] case None => [])
                 case None => []
               else []
    decreases |keys|
  {
    if |keys| > 0 {
      var init := keys[..|keys| - 1];
      var k := keys[|keys| - 1];
      assert forall j <- init :: j in keys;
      NestedResults(nodes, tr, b, props, init, f);
      var tail := if k in props.entries && NestedKey(tr, b.fields, k, props.entries[k])
                     && Export(nodes, tr.children[k].node, props.entries[k], b.ns).Some?
                  then [Elem(Export(nodes, tr.children[k].node, props.entries[k], b.ns).value)] else [];
      ResultsConcat(nodes, tr, NestedEls(nodes, tr, b, props, init), tail, f);
      assert f in keys <==> f in init || f == k;
      if f == k {
        assert f !in init by {
          forall j | 0 <= j < |init| ensures init[j] != f {
            assert init[j] == keys[j];
          }
        }
      }
      if tail != [] {
        var y := Export(nodes, tr.children[k].node, props.entries[k], b.ns).value;
        assert k in keys;
        assert XidOf(y) in tr.childrenIndex && tr.childrenIndex[XidOf(y)] == k;
        assert Route(tr, Elem(y)) == Some((k, tr.children[k]));
        assert Results(nodes, tr, tail, f) == Contribution(nodes, tr, Elem(y), f) + Results(nodes, tr, [], f);
      } else {
        assert Results(nodes, tr, tail, f) == [];
      }
    }
  }

  /**
   Both halves of the trip, as the key lemmas below use them: the exported
   element, the object the field pass makes of it, and the routed children
   the children pass then reads.
   */
  lemma Trip(nodes: seq<Translator>, t: TId, props: Object, parentNs: string) returns (el: Element, o0: Object)
    requires WellFormed(nodes) && Transferable(nodes, t, Obj(props))
    ensures var tr := nodes[t];
            var b := Selected(tr, props).value;
            var x := Xid(b.ns, b.element);
            var imp := tr.importers.entries[x].fields;
            && Export(nodes, t, Obj(props), parentNs) == Some(el) && XidOf(el) == x
            && imp.Valid()
            && o0 == ImportFields(el, imp, imp.order, Stamp(tr, x))
            && Import(nodes, t, el) == Some(ImportChildren(nodes, tr, el, Routed(tr, el.children), o0))
            && (forall k <- props.entries.Keys :: OwnField(b.fields, imp, k) ==> DecodeOwn(FieldOf(b.fields, k), el) == Some(props.entries[k]))
            && (forall k <- props.entries.Keys :: ChildField(tr, b.fields, imp, k) ==> Decode(b.fields.entries[k], el) == Some(props.entries[k]))
            && Routed(tr, el.children) == NestedEls(nodes, tr, b, props, props.order)
            && (forall n <- Routed(tr, el.children) ::
                  && Route(tr, n).Some?
                  && var g := Route(tr, n).value.0;
                     g in props.entries && NestedKey(tr, b.fields, g, props.entries[g]))
  {
    var tr := nodes[t];
    var b := Selected(tr, props).value;
    var x := Xid(b.ns, b.element);
    var imp := tr.importers.entries[x].fields;
    el := ExportShape(nodes, t, props, parentNs, imp);
    ImportShape(nodes, t, el);
    assert NodeWF(tr, |nodes|);
    o0 := ImportFields(el, imp, imp.order, Stamp(tr, x));
    NestedRoutes(nodes, tr, b, props, props.order);
  }

  /** A field key or the type discriminator comes back from the field pass and is left alone by the children pass. */
  lemma FieldComesBack(nodes: seq<Translator>, t: TId, props: Object, parentNs: string, k: string)
    requires WellFormed(nodes) && Transferable(nodes, t, Obj(props))
    requires k in props.entries && !NestedKey(nodes[t], Selected(nodes[t], props).value.fields, k, props.entries[k])
    ensures var o := Import(nodes, t, Export(nodes, t, Obj(props), parentNs).value).value;
            k in o.entries && o.entries[k] == props.entries[k]
  {
    var tr := nodes[t];
    var b := Selected(tr, props).value;
    var x := Xid(b.ns, b.element);
    var imp := tr.importers.entries[x].fields;
    var el, o0 := Trip(nodes, t, props, parentNs);
    var cs := Routed(tr, el.children);
    assert k in props.order;
    NotRoutedTo(nodes, tr, el, cs, o0, k);
    if OwnField(b.fields, imp, k) {
      assert Decode(imp.entries[k], el) == DecodeOwn(FieldOf(b.fields, k), el);
      assert k in imp.order;
    } else if ChildField(tr, b.fields, imp, k) {
      assert k in imp.order;
    } else {
      assert k == tr.typeField;
    }
  }

  /** A nested key comes back as what its child translator imports from the element it exported. */
  lemma NestedComesBack(nodes: seq<Translator>, t: TId, props: Object, parentNs: string, k: string)
    requires WellFormed(nodes) && Transferable(nodes, t, Obj(props))
    requires k in props.entries
    requires var b := Selected(nodes[t], props).value;
             var v := props.entries[k];
             && NestedKey(nodes[t], b.fields, k, v)
             && Export(nodes, nodes[t].children[k].node, v, b.ns).Some?
             && Import(nodes, nodes[t].children[k].node, Export(nodes, nodes[t].children[k].node, v, b.ns).value).Some?
    ensures var b := Selected(nodes[t], props).value;
            var c := nodes[t].children[k].node;
            var o := Import(nodes, t, Export(nodes, t, Obj(props), parentNs).value).value;
            k in o.entries
            && o.entries[k] == Obj(Import(nodes, c, Export(nodes, c, props.entries[k], b.ns).value).value)
  {
    var tr := nodes[t];
    var b := Selected(tr, props).value;
    var el, o0 := Trip(nodes, t, props, parentNs);
    var cs := Routed(tr, el.children);
    assert k in props.order;
    assert forall k <- props.order :: k in props.entries;
    NestedResults(nodes, tr, b, props, props.order, k);
    LastWins(nodes, tr, el, cs, o0, k);
  }

  /** Each key comes back holding, given that a nested key's object makes its own trip. */
  lemma KeyHolds(nodes: seq<Translator>, t: TId, props: Object, parentNs: string, k: string)
    requires WellFormed(nodes) && Transferable(nodes, t, Obj(props))
    requires k in props.entries
    requires var b := Selected(nodes[t], props).value;
             var v := props.entries[k];
             NestedKey(nodes[t], b.fields, k, v) ==>
               var c := nodes[t].children[k].node;
               && Export(nodes, c, v, b.ns).Some?
               && Import(nodes, c, Export(nodes, c, v, b.ns).value).Some?
               && Holds(Obj(Import(nodes, c, Export(nodes, c, v, b.ns).value).value), v)
    ensures Export(nodes, t, Obj(props), parentNs).Some?
    ensures Import(nodes, t, Export(nodes, t, Obj(props), parentNs).value).Some?
    ensures var o := Import(nodes, t, Export(nodes, t, Obj(props), parentNs).value).value;
            k in o.entries && Holds(o.entries[k], props.entries[k])
  {
    var el, o0 := Trip(nodes, t, props, parentNs);
    var b := Selected(nodes[t], props).value;
    if NestedKey(nodes[t], b.fields, k, props.entries[k]) {
      NestedComesBack(nodes, t, props, parentNs, k);
    } else {
      FieldComesBack(nodes, t, props, parentNs, k);
      HoldsSelf(props.entries[k]);
    }
  }

  /** Every value holds of itself. */
  lemma {:induction false} HoldsSelf(v: Value)
    ensures Holds(v, v)
    decreases v
  {
    if v.Obj? {
      forall k <- v.props.entries.Keys
        ensures Holds(v.props.entries[k], v.props.entries[k])
      {
        assert v.props.entries[k] in v.props.entries.Values;
        HoldsSelf(v.props.entries[k]);
      }
    }
  }

  /**
   Export then import through translator `t` gives back every key of a
   transferable object: own and child fields through their shared codec, the
   type discriminator through the type value of the exported element, and each
   nested object through its child translator, with every key it had.
   */
  lemma ObjectRoundTrip(nodes: seq<Translator>, t: TId, props: Object, parentNs: string)
    requires WellFormed(nodes) && Transferable(nodes, t, Obj(props))
    ensures Export(nodes, t, Obj(props), parentNs).Some?
    ensures var b := Selected(nodes[t], props).value; XidOf(Export(nodes, t, Obj(props), parentNs).value) == Xid(b.ns, b.element)
    ensures Import(nodes, t, Export(nodes, t, Obj(props), parentNs).value).Some?
    ensures Holds(Obj(Import(nodes, t, Export(nodes, t, Obj(props), parentNs).value).value), Obj(props))
    decreases props
  {
    var tr := nodes[t];
    var b := Selected(tr, props).value;
    var el, o0 := Trip(nodes, t, props, parentNs);
    var o := Import(nodes, t, el).value;
    forall k <- props.entries.Keys
      ensures k in o.entries && Holds(o.entries[k], props.entries[k])
    {
      var v := props.entries[k];
      if NestedKey(tr, b.fields, k, v) {
        assert v in props.entries.Values;
        ObjectRoundTrip(nodes, tr.children[k].node, v.props, b.ns);
      }
      KeyHolds(nodes, t, props, parentNs, k);
    }
  }
}
