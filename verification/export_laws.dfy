/** Laws of `export` (src/Translator.ts): the element it creates and the children it appends. */
module ExportLaws {
  import opened Wrappers
  import opened OrderedMaps
  import opened Xml
  import opened Data
  import opened Codecs
  import opened Translators

  /** Some field of the exporter writes the `xmlns` attribute of the element itself. */
  predicate WritesXmlns(b: Bucket) {
    exists k <- b.fields.entries.Keys :: OwnAttr(b.fields.entries[k]) == Some("xmlns")
  }

  /** The key loop never touches the element's own `xmlns` unless a field writes it. */
  lemma {:induction false} KeysKeepXmlns(nodes: seq<Translator>, tr: Translator, b: Bucket, data: Value, i: nat, out: Element)
    requires data.Obj? && !WritesXmlns(b)
    ensures var r := ExportKeys(nodes, tr, b, data, i, out);
            ("xmlns" in r.attrs <==> "xmlns" in out.attrs) && ("xmlns" in out.attrs ==> r.attrs["xmlns"] == out.attrs["xmlns"])
    decreases |data.props.order| - i
  {
    if i < |data.props.order| {
      var key := data.props.order[i];
      var next :=
        if key !in data.props.entries then out
        else if key in b.fields.entries then Encode(b.fields.entries[key], out, data.props.entries[key])
        else if key in tr.children then ExportItems(nodes, tr.children[key], b.ns, data, key, 0, out)
        else out;
      assert ExportKeys(nodes, tr, b, data, i, out) == ExportKeys(nodes, tr, b, data, i + 1, next);
      KeysKeepXmlns(nodes, tr, b, data, i + 1, next);
    }
  }

  /**
   The element `export` creates declares its namespace exactly when it differs
   from the parent's (always at the top, where there is no parent), unless a
   field of the exporter writes `xmlns` itself.
   */
  lemma ExportXmlns(nodes: seq<Translator>, t: TId, data: Value, parentNs: string)
    requires Export(nodes, t, data, parentNs).Some?
    requires !WritesXmlns(Selected(nodes[t], data.props).value)
    ensures var el := Export(nodes, t, data, parentNs).value;
            && ("xmlns" in el.attrs <==> parentNs == "" || el.ns != parentNs)
            && ("xmlns" in el.attrs ==> el.attrs["xmlns"] == el.ns)
  {
    var b := Selected(nodes[t], data.props).value;
    KeysKeepXmlns(nodes, nodes[t], b, data, 0, CreateElement(b.ns, b.element, parentNs));
  }

  /** The elements the child translator `node` exports for `items`, in order, skipping the items it cannot export. */
  ghost function Exported(nodes: seq<Translator>, node: TId, items: seq<Value>, ns: string): seq<Node>
    decreases |items|
  {
    if |items| == 0 then []
    else
      (match Export(nodes, node, items[0], ns) case Some(c) => [Elem(c)] case None => [])
      + Exported(nodes, node, items[1..], ns)
  }

  /**
   A child field appends one element per item it can export, in item order,
   each created under the parent exporter's namespace.
   */
  lemma {:induction false} ItemsAppend(nodes: seq<Translator>, child: Child, ns: string, data: Value, key: string, j: nat, out: Element)
    requires data.Obj? && key in data.props.entries
    requires j <= |Items(child.multiple, data.props.entries[key])|
    ensures var items := Items(child.multiple, data.props.entries[key]);
            ExportItems(nodes, child, ns, data, key, j, out).children == out.children + Exported(nodes, child.node, items[j..], ns)
    decreases |Items(child.multiple, data.props.entries[key])| - j
  {
    var items := Items(child.multiple, data.props.entries[key]);
    if j == |items| {
      assert items[j..] == [];
    } else {
      var next := match Export(nodes, child.node, items[j], ns)
        case Some(c) => AppendChild(out, c)
        case None => out;
      assert ExportItems(nodes, child, ns, data, key, j, out) == ExportItems(nodes, child, ns, data, key, j + 1, next);
      ItemsAppend(nodes, child, ns, data, key, j + 1, next);
      assert items[j..][1..] == items[j + 1..];
      var head := match Export(nodes, child.node, items[j], ns) case Some(c) => [Elem(c)] case None => [];
      assert Exported(nodes, child.node, items[j..], ns) == head + Exported(nodes, child.node, items[j + 1..], ns);
      assert next.children == out.children + head;
      NodesAssoc(out.children, head, Exported(nodes, child.node, items[j + 1..], ns));
    }
  }

  lemma NodesAssoc(a: seq<Node>, b: seq<Node>, c: seq<Node>)
    ensures (a + b) + c == a + (b + c)
  {
  }

  /**
   One step of the key loop. A key the exporter has a field for is encoded by
   that field, whether or not the translator also has a child of that name;
   otherwise a key with a child translator appends what that translator
   exports for its items; any other key is dropped.
   */
  lemma KeyStep(nodes: seq<Translator>, tr: Translator, b: Bucket, data: Value, i: nat, out: Element)
    requires data.Obj? && i < |data.props.order| && data.props.order[i] in data.props.entries
    ensures var key := data.props.order[i];
            var v := data.props.entries[key];
            && (key in b.fields.entries ==>
                  ExportKeys(nodes, tr, b, data, i, out) == ExportKeys(nodes, tr, b, data, i + 1, Encode(b.fields.entries[key], out, v)))
            && (key !in b.fields.entries && key in tr.children ==>
                  var ch := tr.children[key];
                  ExportKeys(nodes, tr, b, data, i, out)
                  == ExportKeys(nodes, tr, b, data, i + 1, out.(children := out.children + Exported(nodes, ch.node, Items(ch.multiple, v), b.ns))))
            && (key !in b.fields.entries && key !in tr.children ==>
                  ExportKeys(nodes, tr, b, data, i, out) == ExportKeys(nodes, tr, b, data, i + 1, out))
  {
    var key := data.props.order[i];
    if key !in b.fields.entries && key in tr.children {
      var ch := tr.children[key];
      var items := Items(ch.multiple, data.props.entries[key]);
      ItemsAppend(nodes, ch, b.ns, data, key, 0, out);
      assert items[0..] == items;
    }
  }

  /** `ExportItems` depends on the object only through the value at `key`. */
  lemma {:induction false} ItemsOfValue(nodes: seq<Translator>, child: Child, ns: string, d1: Value, d2: Value, key: string, j: nat, out: Element)
    requires d1.Obj? && d2.Obj? && key in d1.props.entries && key in d2.props.entries
    requires d1.props.entries[key] == d2.props.entries[key]
    ensures ExportItems(nodes, child, ns, d1, key, j, out) == ExportItems(nodes, child, ns, d2, key, j, out)
    decreases |Items(child.multiple, d1.props.entries[key])| - j
  {
    var items := Items(child.multiple, d1.props.entries[key]);
    if j < |items| {
      var next := match Export(nodes, child.node, items[j], ns)
        case Some(c) => AppendChild(out, c)
        case None => out;
      ItemsOfValue(nodes, child, ns, d1, d2, key, j + 1, next);
    }
  }

  /** The key loops over an object and over the same object with one more key at the end agree up to that key. */
  lemma {:induction false} KeysPrefix(nodes: seq<Translator>, tr: Translator, b: Bucket, d1: Value, d2: Value, i: nat, out: Element)
    requires d1.Obj? && d2.Obj?
    requires |d2.props.order| == |d1.props.order| + 1 && d2.props.order[..|d1.props.order|] == d1.props.order
    requires forall k <- d1.props.entries.Keys :: k in d2.props.entries && d2.props.entries[k] == d1.props.entries[k]
    requires forall k :: k in d2.props.entries && k !in d1.props.entries ==> k == d2.props.order[|d1.props.order|]
    requires var k := d2.props.order[|d1.props.order|]; k !in d1.props.entries && k !in b.fields.entries && k !in tr.children
    requires i <= |d1.props.order|
    ensures ExportKeys(nodes, tr, b, d1, i, out) == ExportKeys(nodes, tr, b, d2, i, out)
    decreases |d1.props.order| - i
  {
    if i == |d1.props.order| {
      var k := d2.props.order[i];
      assert ExportKeys(nodes, tr, b, d2, i, out) == ExportKeys(nodes, tr, b, d2, i + 1, out);
    } else {
      var key := d1.props.order[i];
      assert d2.props.order[i] == key;
      var next :=
        if key !in d1.props.entries then out
        else if key in b.fields.entries then Encode(b.fields.entries[key], out, d1.props.entries[key])
        else if key in tr.children then ExportItems(nodes, tr.children[key], b.ns, d1, key, 0, out)
        else out;
      if key in d1.props.entries && key !in b.fields.entries && key in tr.children {
        ItemsOfValue(nodes, tr.children[key], b.ns, d1, d2, key, 0, out);
      }
      KeysPrefix(nodes, tr, b, d1, d2, i + 1, next);
    }
  }

  /**
   A key that is neither a field of any exporter, nor a child, nor the type
   discriminator is dropped: adding it to the object changes nothing.
   */
  lemma DropsUnknownKey(nodes: seq<Translator>, t: TId, props: Object, k: string, v: Value, parentNs: string)
    requires t < |nodes| && k !in props.entries
    requires k != nodes[t].typeField && k !in nodes[t].children
    requires forall y <- nodes[t].exporters.entries.Keys :: k !in nodes[t].exporters.entries[y].fields.entries
    ensures Export(nodes, t, Obj(Put(props, k, v)), parentNs) == Export(nodes, t, Obj(props), parentNs)
  {
    var d1, d2 := Obj(props), Obj(Put(props, k, v));
    assert d2.props.order[..|d1.props.order|] == d1.props.order;
    assert ExportType(nodes[t], d2.props) == ExportType(nodes[t], d1.props);
    match Selected(nodes[t], d1.props)
    case None =>
    case Some(b) =>
      KeysPrefix(nodes, nodes[t], b, d1, d2, 0, CreateElement(b.ns, b.element, parentNs));
  }
}
