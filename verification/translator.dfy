/**
 The translator tree of src/Translator.ts. Translators are shared between
 parents (an alias attaches the same node under several field names), so they
 live in an arena `seq<Translator>` and refer to each other by index.
 */
module Translators {
  import opened Wrappers
  import opened OrderedMaps
  import opened Xml
  import opened Data
  import opened Codecs

  /** An element identity, the source's `{namespace}element` key. */
  datatype Xid = Xid(ns: string, name: string)

  function XidOf(e: Element): Xid {
    Xid(e.ns, e.name)
  }

  /** Field name to codec, in definition order. */
  type Fields = OrderedMap<string, Codec>

  /** An importer or an exporter: the element it is about and its field codecs. */
  datatype Bucket = Bucket(ns: string, element: string, fields: Fields)

  /** The index of a translator in the arena. */
  type TId = nat

  /** A child edge: the translator for the field and whether the field is an array. */
  datatype Child = Child(node: TId, multiple: bool)

  datatype Translator = Translator(
    typeField: string,
    typeValues: map<Xid, string>,
    importers: OrderedMap<Xid, Bucket>,
    exporters: OrderedMap<string, Bucket>,
    children: map<string, Child>,
    childrenIndex: map<Xid, string>)

  function NewTranslator(): (t: Translator)
    ensures t.typeField == "" && t.typeValues == map[] && t.children == map[] && t.childrenIndex == map[]
    ensures t.importers.entries == map[] && t.exporters.entries == map[]
  {
    Translator("", map[], Empty(), Empty(), map[], map[])
  }

  /** Every bucket map is a proper ordered map, and so is every bucket's field map. */
  ghost predicate BucketsValid<K>(m: OrderedMap<K, Bucket>) {
    m.Valid() && forall k <- m.entries.Keys :: m.entries[k].fields.Valid()
  }

  /**
   What every translator in an arena of `bound` nodes keeps true: importers are
   keyed by their own element, child edges point into the arena, and the
   element index only names existing children.
   */
  ghost predicate NodeWF(t: Translator, bound: nat) {
    && BucketsValid(t.importers)
    && BucketsValid(t.exporters)
    && (forall x <- t.importers.entries.Keys :: t.importers.entries[x].ns == x.ns && t.importers.entries[x].element == x.name)
    && (forall n <- t.children.Keys :: t.children[n].node < bound)
    && (forall x <- t.childrenIndex.Keys :: t.childrenIndex[x] in t.children)
  }

  ghost predicate WellFormed(nodes: seq<Translator>) {
    forall i :: 0 <= i < |nodes| ==> NodeWF(nodes[i], |nodes|)
  }

  /** Every bucket of `a` is still in `b`, for the same element, with at least the same field names. */
  ghost predicate BucketsGrow<K>(a: OrderedMap<K, Bucket>, b: OrderedMap<K, Bucket>) {
    forall k <- a.entries.Keys ::
      && k in b.entries
      && b.entries[k].ns == a.entries[k].ns && b.entries[k].element == a.entries[k].element
      && a.entries[k].fields.entries.Keys <= b.entries[k].fields.entries.Keys
  }

  /** What a translator never loses: buckets, field names, child edges, indexed elements and type values. */
  ghost predicate TranslatorGrows(t: Translator, u: Translator) {
    && BucketsGrow(t.importers, u.importers)
    && BucketsGrow(t.exporters, u.exporters)
    && (forall n <- t.children.Keys :: n in u.children && u.children[n].node == t.children[n].node)
    && t.childrenIndex.Keys <= u.childrenIndex.Keys
    && t.typeValues.Keys <= u.typeValues.Keys
  }

  /** The arena only gains nodes, and every node only grows. */
  ghost predicate Grows(a: seq<Translator>, b: seq<Translator>) {
    |a| <= |b| && forall i :: 0 <= i < |a| ==> TranslatorGrows(a[i], b[i])
  }

  /** The field codecs of the bucket at `k`, none when there is no bucket. */
  function FieldsAt<K>(m: OrderedMap<K, Bucket>, k: K): map<string, Codec> {
    if k in m.entries then m.entries[k].fields.entries else map[]
  }

  /**
   One half of `updateDefinition`: take the bucket at `k`, or a fresh one for
   (`ns`, `element`), set every field of `upd` on it and store it back.
   */
  function MergeInto<K>(m: OrderedMap<K, Bucket>, k: K, ns: string, element: string, upd: Fields): (r: OrderedMap<K, Bucket>)
    ensures r.entries.Keys == m.entries.Keys + {k}
    ensures k in m.entries ==> r.entries[k].ns == m.entries[k].ns && r.entries[k].element == m.entries[k].element
    ensures k !in m.entries ==> r.entries[k].ns == ns && r.entries[k].element == element
    ensures k in m.entries ==> r.order == m.order
    ensures k !in m.entries ==> r.order == m.order + [k]
    ensures upd.Valid() ==> r.entries[k].fields.entries == FieldsAt(m, k) + upd.entries
    ensures forall j <- m.entries.Keys :: j != k ==> r.entries[j] == m.entries[j]
    ensures BucketsValid(m) ==> BucketsValid(r)
  {
    var b := if k in m.entries then m.entries[k] else Bucket(ns, element, Empty());
    Put(m, k, b.(fields := Merge(b.fields, upd)))
  }

  /**
   `updateDefinition`: the importer of (`ns`, `element`) and the exporter of
   `typ` each exist afterwards and carry the new field codecs over the old ones
   (the last write wins per field name); an existing bucket keeps its element;
   a non-empty `typ` becomes the element's type value.
   */
  function UpdateDefinition(t: Translator, ns: string, element: string, typ: string, imp: Fields, exp: Fields): (r: Translator)
    ensures r.typeField == t.typeField && r.children == t.children && r.childrenIndex == t.childrenIndex
    ensures Xid(ns, element) in r.importers.entries && typ in r.exporters.entries
    ensures imp.Valid() ==> FieldsAt(r.importers, Xid(ns, element)) == FieldsAt(t.importers, Xid(ns, element)) + imp.entries
    ensures exp.Valid() ==> FieldsAt(r.exporters, typ) == FieldsAt(t.exporters, typ) + exp.entries
    ensures forall x :: x != Xid(ns, element) ==> (x in r.importers.entries <==> x in t.importers.entries)
    ensures forall x <- t.importers.entries.Keys :: x != Xid(ns, element) ==> r.importers.entries[x] == t.importers.entries[x]
    ensures forall y :: y != typ ==> (y in r.exporters.entries <==> y in t.exporters.entries)
    ensures forall y <- t.exporters.entries.Keys :: y != typ ==> r.exporters.entries[y] == t.exporters.entries[y]
    ensures typ in t.exporters.entries ==>
              r.exporters.entries[typ].ns == t.exporters.entries[typ].ns
              && r.exporters.entries[typ].element == t.exporters.entries[typ].element
    ensures typ !in t.exporters.entries ==> r.exporters.entries[typ].ns == ns && r.exporters.entries[typ].element == element
    ensures Xid(ns, element) !in t.importers.entries ==> r.importers.order == t.importers.order + [Xid(ns, element)]
    ensures typ in t.exporters.entries ==> r.exporters.order == t.exporters.order
    ensures typ !in t.exporters.entries ==> r.exporters.order == t.exporters.order + [typ]
    ensures typ != "" ==> r.typeValues == t.typeValues[Xid(ns, element) := typ]
    ensures typ == "" ==> r.typeValues == t.typeValues
  {
    var x := Xid(ns, element);
    t.(importers := MergeInto(t.importers, x, ns, element, imp),
       exporters := MergeInto(t.exporters, typ, ns, element, exp),
       typeValues := if typ != "" then t.typeValues[x := typ] else t.typeValues)
  }

  /** The element index entries a child contributes: each of its importers' elements points at `name`. */
  function IndexAll(m: OrderedMap<Xid, Bucket>, name: string): (r: map<Xid, string>)
    ensures r.Keys == m.entries.Keys
    ensures forall x <- r.Keys :: r[x] == name
  {
    map x | x in m.entries :: name
  }

  /**
   Re-declares, on `dst`, each importer of `src` listed in `keys`, reading the
   bucket from the arena at the moment it is applied.
   */
  function FoldImporters(nodes: seq<Translator>, src: TId, dst: TId, keys: seq<Xid>): (r: seq<Translator>)
    requires src < |nodes| && dst < |nodes|
    ensures |r| == |nodes|
    ensures forall j :: 0 <= j < |nodes| && j != dst ==> r[j] == nodes[j]
    ensures r[dst].typeField == nodes[dst].typeField
    ensures r[dst].children == nodes[dst].children && r[dst].childrenIndex == nodes[dst].childrenIndex
    decreases |keys|
  {
    if |keys| == 0 then nodes
    else
      var imp := nodes[src].importers;
      var next :=
        if keys[0] in imp.entries then
          var b := imp.entries[keys[0]];
          nodes[dst := UpdateDefinition(nodes[dst], b.ns, b.element, "", b.fields, Empty())]
        else nodes;
      FoldImporters(next, src, dst, keys[1..])
  }

  /** Re-declares, on `dst` and under the empty type, each exporter of `src` listed in `keys`. */
  function FoldExporters(nodes: seq<Translator>, src: TId, dst: TId, keys: seq<string>): (r: seq<Translator>)
    requires src < |nodes| && dst < |nodes|
    ensures |r| == |nodes|
    ensures forall j :: 0 <= j < |nodes| && j != dst ==> r[j] == nodes[j]
    ensures r[dst].typeField == nodes[dst].typeField
    ensures r[dst].children == nodes[dst].children && r[dst].childrenIndex == nodes[dst].childrenIndex
    decreases |keys|
  {
    if |keys| == 0 then nodes
    else
      var exp := nodes[src].exporters;
      var next :=
        if keys[0] in exp.entries then
          var b := exp.entries[keys[0]];
          nodes[dst := UpdateDefinition(nodes[dst], b.ns, b.element, "", Empty(), b.fields)]
        else nodes;
      FoldExporters(next, src, dst, keys[1..])
  }

  /**
   `addChild`: a new field name links `src` and indexes its elements; an
   existing one keeps its translator, which absorbs every importer and exporter
   of `src`, and only an explicit `multiple` changes the array flag.
   */
  function AddChild(nodes: seq<Translator>, parent: TId, name: string, src: TId, multiple: Option<bool>): (r: seq<Translator>)
    requires parent < |nodes| && src < |nodes|
    ensures |r| == |nodes|
    ensures name in r[parent].children
    ensures name !in nodes[parent].children ==>
              && r[parent].children[name] == Child(src, multiple.GetOr(false))
              && (forall j :: 0 <= j < |nodes| && j != parent ==> r[j] == nodes[j])
              && r[parent].importers == nodes[parent].importers && r[parent].exporters == nodes[parent].exporters
              && r[parent].typeField == nodes[parent].typeField && r[parent].typeValues == nodes[parent].typeValues
              && (forall n :: n != name ==> (n in r[parent].children <==> n in nodes[parent].children))
              && (forall n <- nodes[parent].children.Keys :: r[parent].children[n] == nodes[parent].children[n])
              && (forall x <- nodes[src].importers.entries.Keys :: x in r[parent].childrenIndex && r[parent].childrenIndex[x] == name)
              && (forall x :: x !in nodes[src].importers.entries ==>
                    (x in r[parent].childrenIndex <==> x in nodes[parent].childrenIndex))
              && (forall x <- nodes[parent].childrenIndex.Keys :: x !in nodes[src].importers.entries ==>
                    r[parent].childrenIndex[x] == nodes[parent].childrenIndex[x])
    ensures name in nodes[parent].children ==>
              r[parent].children[name] == Child(nodes[parent].children[name].node,
                                                multiple.GetOr(nodes[parent].children[name].multiple))
  {
    var p := nodes[parent];
    if name !in p.children then
      nodes[parent := p.(children := p.children[name := Child(src, multiple.GetOr(false))],
                         childrenIndex := p.childrenIndex + IndexAll(nodes[src].importers, name))]
    else
      var dst := p.children[name].node;
      var n1 := nodes[parent := p.(children := p.children[name := Child(dst, multiple.GetOr(p.children[name].multiple))])];
      if dst >= |nodes| then n1
      else
        var n2 := FoldImporters(n1, src, dst, n1[src].importers.order);
        var n3 := n2[parent := n2[parent].(childrenIndex := n2[parent].childrenIndex + IndexAll(n1[src].importers, name))];
        FoldExporters(n3, src, dst, n3[src].exporters.order)
  }

  /** `getChild`: the translator linked under `name`, if any. */
  function GetChild(t: Translator, name: string): (r: Option<TId>)
    ensures r.Some? <==> name in t.children
    ensures r.Some? ==> r.value == t.children[name].node
  {
    if name in t.children then Some(t.children[name].node) else None
  }

  // ---------------------------------------------------------------- import

  /** The type discriminator `import` writes first, when the translator has one for the element. */
  function Stamp(t: Translator, x: Xid): (r: Object)
    ensures r.Valid()
    ensures t.typeField != "" && x in t.typeValues && t.typeValues[x] != "" ==>
              r.entries == map[t.typeField := Str(t.typeValues[x])]
    ensures !(t.typeField != "" && x in t.typeValues && t.typeValues[x] != "") ==> r.entries == map[]
  {
    if t.typeField != "" && x in t.typeValues && t.typeValues[x] != "" then
      Put(Empty(), t.typeField, Str(t.typeValues[x]))
    else Empty()
  }

  /** The field `k` has an importer and it yields a value for `e`. */
  predicate Imported(fields: Fields, k: string, e: Element) {
    k in fields.entries && Decode(fields.entries[k], e).Some?
  }

  /** Runs every field importer in `keys` on `e` and keeps the results that are not `null`/`undefined`. */
  function ImportFields(e: Element, fields: Fields, keys: seq<string>, out: Object): (r: Object)
    ensures forall k :: k in r.entries <==> k in out.entries || (k in keys && Imported(fields, k, e))
    ensures forall k <- keys :: Imported(fields, k, e) ==> r.entries[k] == Decode(fields.entries[k], e).value
    ensures forall k <- out.entries.Keys :: k !in keys || !Imported(fields, k, e) ==> r.entries[k] == out.entries[k]
    ensures out.Valid() ==> r.Valid()
    decreases |keys|
  {
    if |keys| == 0 then out
    else
      var k := keys[0];
      var next := if Imported(fields, k, e) then Put(out, k, Decode(fields.entries[k], e).value) else out;
      ImportFields(e, fields, keys[1..], next)
  }

  /** Where `import` sends a child node: its field name and edge, unless it is text or not indexed. */
  function Route(t: Translator, n: Node): (r: Option<(string, Child)>)
    ensures r.Some? ==> n.Elem? && XidOf(n.el) in t.childrenIndex && r.value.0 == t.childrenIndex[XidOf(n.el)]
                        && r.value.0 in t.children && r.value.1 == t.children[r.value.0]
    ensures n.Elem? && XidOf(n.el) in t.childrenIndex && t.childrenIndex[XidOf(n.el)] in t.children ==> r.Some?
  {
    if n.Text? then None
    else
      var x := XidOf(n.el);
      if x !in t.childrenIndex then None
      else
        var f := t.childrenIndex[x];
        if f in t.children then Some((f, t.children[f])) else None
  }

  /**
   Stores one imported child object under its field: appended to the array of
   a multiple field (created when the field is absent or falsy), or replacing
   the value of a single one.
   */
  function Collect(out: Object, f: string, multiple: bool, o: Value): (r: Object)
    ensures forall k :: k != f ==> (k in r.entries <==> k in out.entries)
    ensures forall k <- out.entries.Keys :: k != f ==> r.entries[k] == out.entries[k]
    ensures !multiple ==> f in r.entries && r.entries[f] == o
    ensures multiple && f in out.entries && out.entries[f].Arr? ==> f in r.entries && r.entries[f] == Arr(out.entries[f].items + [o])
    ensures multiple && (f !in out.entries || !Truthy(out.entries[f])) ==> f in r.entries && r.entries[f] == Arr([o])
    ensures out.Valid() ==> r.Valid()
  {
    if !multiple then Put(out, f, o)
    else if f in out.entries && out.entries[f].Arr? then Put(out, f, Arr(out.entries[f].items + [o]))
    else if f !in out.entries || !Truthy(out.entries[f]) then Put(out, f, Arr([o]))
    else out
  }

  /**
   `import`: `None` when `t` has no importer for the element; otherwise the
   type discriminator, then the fields in definition order, then each child in
   document order.
   */
  function Import(nodes: seq<Translator>, t: TId, e: Element): (r: Option<Object>)
    ensures r.Some? <==> t < |nodes| && XidOf(e) in nodes[t].importers.entries
    ensures r.Some? ==> r.value.Valid()
    decreases e, 2
  {
    if t >= |nodes| || XidOf(e) !in nodes[t].importers.entries then None
    else
      var tr := nodes[t];
      var b := tr.importers.entries[XidOf(e)];
      var fields := ImportFields(e, b.fields, b.fields.order, Stamp(tr, XidOf(e)));
      Some(ImportChildren(nodes, tr, e, e.children, fields))
  }

  /** The children pass of `import`, over the nodes `cs` of `e`. */
  function ImportChildren(nodes: seq<Translator>, tr: Translator, e: Element, cs: seq<Node>, out: Object): (r: Object)
    requires forall n <- cs :: n in e.children
    ensures out.Valid() ==> r.Valid()
    decreases e, 1, |cs|
  {
    if |cs| == 0 then out
    else ImportChildren(nodes, tr, e, cs[1..], ImportChild(nodes, tr, e, cs[0], out))
  }

  /** One child of `import`: skipped when text, not indexed, or not importable by its translator. */
  function ImportChild(nodes: seq<Translator>, tr: Translator, e: Element, n: Node, out: Object): (r: Object)
    requires n in e.children
    ensures out.Valid() ==> r.Valid()
    decreases e, 0
  {
    match Route(tr, n)
    case None => out
    case Some((f, ch)) =>
      match Import(nodes, ch.node, n.el)
      case None => out
      case Some(o) => Collect(out, f, ch.multiple, Obj(o))
  }

  // ---------------------------------------------------------------- export

  /**
   The exporter key of `export`: the empty type for an untyped translator or
   a falsy discriminator, the discriminator itself when it is a string, and
   `None` for a truthy non-string, which names no exporter.
   */
  function ExportType(t: Translator, data: Object): (r: Option<string>)
    ensures t.typeField == "" || t.typeField !in data.entries || !Truthy(data.entries[t.typeField]) ==> r == Some("")
    ensures r.Some? && r.value != "" ==> t.typeField in data.entries && data.entries[t.typeField] == Str(r.value)
    ensures t.typeField != "" && t.typeField in data.entries && data.entries[t.typeField].Str? ==> r == Some(data.entries[t.typeField].s)
  {
    if t.typeField == "" || t.typeField !in data.entries || !Truthy(data.entries[t.typeField]) then Some("")
    else match data.entries[t.typeField]
      case Str(s) => Some(s)
      case _ => None
  }

  /** The exporter `export` selects for `data`, if any. */
  function Selected(t: Translator, data: Object): Option<Bucket> {
    match ExportType(t, data)
    case None => None
    case Some(ty) => if ty in t.exporters.entries then Some(t.exporters.entries[ty]) else None
  }

  /**
   `export`: `None` unless `data` is an object for which `t` has an exporter;
   otherwise a new element for that exporter, under `parentNs`, filled key by
   key in the object's own order.
   */
  function Export(nodes: seq<Translator>, t: TId, data: Value, parentNs: string): (r: Option<Element>)
    ensures r.Some? <==> t < |nodes| && data.Obj? && Selected(nodes[t], data.props).Some?
    ensures r.Some? ==> r.value.ns == Selected(nodes[t], data.props).value.ns
                        && r.value.name == Selected(nodes[t], data.props).value.element
    decreases data, 2
  {
    if t >= |nodes| || !data.Obj? then None
    else
      match Selected(nodes[t], data.props)
      case None => None
      case Some(b) => Some(ExportKeys(nodes, nodes[t], b, data, 0, CreateElement(b.ns, b.element, parentNs)))
  }

  /** The items a child field exports: the array of a multiple field, the value itself otherwise. */
  function Items(multiple: bool, v: Value): (r: seq<Value>)
    ensures !multiple ==> r == [v]
    ensures multiple && v.Arr? ==> r == v.items
    ensures multiple && !v.Arr? ==> r == []
  {
    if !multiple then [v] else if v.Arr? then v.items else []
  }

  /**
   The key loop of `export`, from position `i` of the object's order: a key
   with a field exporter is encoded, else a key with a child translator
   exports its items as children, else it is dropped.
   */
  function ExportKeys(nodes: seq<Translator>, tr: Translator, b: Bucket, data: Value, i: nat, out: Element): (r: Element)
    requires data.Obj?
    ensures r.ns == out.ns && r.name == out.name
    decreases data, 1, |data.props.order| - i
  {
    if i >= |data.props.order| then out
    else
      var key := data.props.order[i];
      var next :=
        if key !in data.props.entries then out
        else if key in b.fields.entries then Encode(b.fields.entries[key], out, data.props.entries[key])
        else if key in tr.children then ExportItems(nodes, tr.children[key], b.ns, data, key, 0, out)
        else out;
      ExportKeys(nodes, tr, b, data, i + 1, next)
  }

  /** Exports the items of `data[key]` from position `j` with the child's translator, appending each element produced. */
  function ExportItems(nodes: seq<Translator>, child: Child, ns: string, data: Value, key: string, j: nat, out: Element): (r: Element)
    requires data.Obj? && key in data.props.entries
    ensures r.ns == out.ns && r.name == out.name && r.attrs == out.attrs
    ensures |out.children| <= |r.children| && r.children[..|out.children|] == out.children
    decreases data, 0, |Items(child.multiple, data.props.entries[key])| - j
  {
    var v := data.props.entries[key];
    var items := Items(child.multiple, v);
    if j >= |items| then out
    else
      assert v in data.props.entries.Values;
      assert items[j] < data;
      var next := match Export(nodes, child.node, items[j], ns)
        case Some(c) => AppendChild(out, c)
        case None => out;
      var r := ExportItems(nodes, child, ns, data, key, j + 1, next);
      assert r.children[..|out.children|] == r.children[..|next.children|][..|out.children|];
      r
  }
}
