/**
 Polymorphic definitions: typed definitions that share a path share one
 translator, which exports each object under the namespace its type was
 defined with and imports each such element back with its type.
 */
module Polymorphism {
  import opened Wrappers
  import opened OrderedMaps
  import opened Xml
  import opened Data
  import opened Codecs
  import opened Translators
  import opened TranslatorLaws
  import opened Registries
  import opened RegistryLaws
  import opened RoundTrips

  /** Translator `t` handles the element and the type of `def` with exactly the codecs `def` declares. */
  ghost predicate Serves(t: Translator, def: Definition) {
    var x := Xid(def.ns, def.element);
    && x in t.typeValues && t.typeValues[x] == def.typ
    && x in t.importers.entries && FieldsAt(t.importers, x) == def.fields.entries
    && def.typ in t.exporters.entries
    && t.exporters.entries[def.typ].ns == def.ns && t.exporters.entries[def.typ].element == def.element
    && FieldsAt(t.exporters, def.typ) == def.fields.entries
  }

  /** A typed definition whose path leads nowhere yet is written into a translator the walk has just created. */
  lemma TargetFresh(reg: Registry, def: Definition)
    requires reg.Valid() && def.typ != "" && def.path != ""
    requires Reach(reg.nodes, reg.root, Split(def.path)).None?
    ensures Target(reg, def).0.nodes[Target(reg, def).1] == NewTranslator()
  {
    WalkCreates(reg, reg.root, Split(def.path));
  }

  /** The definition step, as `define` leaves it, on a fresh translator. */
  lemma FreshServes(t: Translator, def: Definition)
    requires def.typ != ""
    requires var x := Xid(def.ns, def.element);
             var t0 := NewTranslator();
             && t.typeValues == t0.typeValues[x := def.typ]
             && x in t.importers.entries
             && FieldsAt(t.importers, x) == FieldsAt(t0.importers, x) + def.fields.entries
             && (forall y :: y != x ==> FieldsAt(t.importers, y) == FieldsAt(t0.importers, y))
             && def.typ in t.exporters.entries
             && FieldsAt(t.exporters, def.typ) == FieldsAt(t0.exporters, def.typ) + def.fields.entries
             && t.exporters.entries[def.typ].ns == def.ns && t.exporters.entries[def.typ].element == def.element
             && (forall z :: z != "" && z != def.typ ==> (z in t.exporters.entries <==> z in t0.exporters.entries))
    ensures Serves(t, def)
    ensures t.typeValues == map[Xid(def.ns, def.element) := def.typ]
    ensures forall y :: y != Xid(def.ns, def.element) ==> FieldsAt(t.importers, y) == map[]
    ensures forall z :: z != "" && z != def.typ ==> z !in t.exporters.entries
  {
    var x := Xid(def.ns, def.element);
    assert FieldsAt(NewTranslator().importers, x) == map[];
    assert FieldsAt(NewTranslator().exporters, def.typ) == map[];
    assert map[] + def.fields.entries == def.fields.entries;
  }

  /**
   A typed definition whose path leads nowhere yet creates a translator that
   serves it and no other type. When the path has no empty segment, the alias
   at that path leads to the translator itself, which thereby also gets an
   untyped exporter for the definition's element with its fields: objects
   without a type are exported as that element.
   */
  lemma DefineFresh(reg: Registry, def: Definition)
    requires reg.Valid() && def.fields.Valid() && def.typ != "" && def.path != ""
    requires Reach(reg.nodes, reg.root, Split(def.path)).None?
    ensures var r := Define(reg, def);
            var t := r.nodes[r.translators[Xid(def.ns, def.element)]];
            && Serves(t, def)
            && t.typeField == def.typeField
            && t.typeValues == map[Xid(def.ns, def.element) := def.typ]
            && (forall y :: y != Xid(def.ns, def.element) ==> FieldsAt(t.importers, y) == map[])
            && (forall z :: z != "" && z != def.typ ==> z !in t.exporters.entries)
            && Reach(r.nodes, r.root, Split(def.path)) == Some(r.translators[Xid(def.ns, def.element)])
            && ((forall seg <- Split(def.path) :: seg != "") ==>
                  && "" in t.exporters.entries
                  && t.exporters.entries[""].ns == def.ns && t.exporters.entries[""].element == def.element
                  && FieldsAt(t.exporters, "") == def.fields.entries)
  {
    TargetFresh(reg, def);
    DefineDeclares(reg, def);
    var r := Define(reg, def);
    FreshServes(r.nodes[r.translators[Xid(def.ns, def.element)]], def);
    if forall seg <- Split(def.path) :: seg != "" {
      FreshUntyped(reg, def);
    }
  }

  /** A fresh translator after the definition step: one importer, one exporter, for the definition's element and type. */
  lemma FreshDeclared(def: Definition)
    requires def.fields.Valid() && def.typ != ""
    ensures var d := Declare(NewTranslator(), def);
            && "" !in d.exporters.entries && FieldsAt(d.exporters, "") == map[]
            && TypedFields(d) == def.fields.entries
            && d.importers.order == [Xid(def.ns, def.element)]
  {
    var d := Declare(NewTranslator(), def);
    FreshOrder(def);
    OneTyped(d.exporters, def.typ);
  }

  lemma FreshOrder(def: Definition)
    requires def.fields.Valid() && def.typ != ""
    ensures var d := Declare(NewTranslator(), def);
            && "" !in d.exporters.entries
            && d.exporters.order == [def.typ] && FieldsAt(d.exporters, def.typ) == def.fields.entries
            && d.importers.order == [Xid(def.ns, def.element)]
  {
    var t0 := NewTranslator().(typeField := if def.typeField != "" then def.typeField else "");
    assert Declare(NewTranslator(), def) == UpdateDefinition(t0, def.ns, def.element, def.typ, def.fields, def.fields);
    FreshUpdate(t0, def.ns, def.element, def.typ, def.fields);
  }

  /** `updateDefinition` on a translator with no buckets. */
  lemma FreshUpdate(t0: Translator, ns: string, element: string, typ: string, fs: Fields)
    requires t0.exporters == Empty() && t0.importers == Empty() && fs.Valid() && typ != ""
    ensures var d := UpdateDefinition(t0, ns, element, typ, fs, fs);
            && "" !in d.exporters.entries
            && d.exporters.order == [typ] && FieldsAt(d.exporters, typ) == fs.entries
            && d.importers.order == [Xid(ns, element)]
  {
    assert FieldsAt(t0.exporters, typ) == map[];
    assert map[] + fs.entries == fs.entries;
  }

  /** The typed fields of an exporter map holding a single typed bucket are that bucket's. */
  lemma OneTyped(m: OrderedMap<string, Bucket>, y: string)
    requires y != "" && m.order == [y]
    ensures Flatten(m, TypedKeys(m.order)) == FieldsAt(m, y)
  {
    assert TypedKeys([y]) == [y];
    assert Flatten(m, [y]) == FieldsAt(m, y) + Flatten(m, []);
    UnionEmpty(FieldsAt(m, y));
  }

  /**
   The path of a fresh typed definition with no empty segment leads to the
   translator it creates, so the alias at that path merges the translator
   into itself: it gains an untyped exporter for the definition's element,
   with the definition's fields, which exports objects that carry no type.
   */
  lemma FreshUntyped(reg: Registry, def: Definition)
    requires reg.Valid() && def.fields.Valid() && def.typ != "" && def.path != ""
    requires Reach(reg.nodes, reg.root, Split(def.path)).None?
    requires forall seg <- Split(def.path) :: seg != ""
    ensures var r := Define(reg, def);
            var t := r.nodes[r.translators[Xid(def.ns, def.element)]];
            && "" in t.exporters.entries
            && t.exporters.entries[""].ns == def.ns && t.exporters.entries[""].element == def.element
            && FieldsAt(t.exporters, "") == def.fields.entries
  {
    var r2 := Declared(reg, def);
    var n := r2.translators[Xid(def.ns, def.element)];
    FreshReach(reg, def);
    AliasFresh(r2, def, n);
    var r3 := Alias(r2, def.ns, def.element, def.path, false);
    AliasAllMerged(r3, def.ns, def.element, def.aliases);
    UnionSelf(def.fields.entries);
  }

  /** After the definition step of a fresh typed definition, its path leads to the fresh translator. */
  lemma FreshReach(reg: Registry, def: Definition)
    requires reg.Valid() && def.fields.Valid() && def.typ != "" && def.path != ""
    requires Reach(reg.nodes, reg.root, Split(def.path)).None?
    requires forall seg <- Split(def.path) :: seg != ""
    ensures var r2 := Declared(reg, def);
            var n := r2.translators[Xid(def.ns, def.element)];
            && |Segments(def.path)| >= 1
            && Reach(r2.nodes, r2.root, Segments(def.path)) == Some(n)
            && r2.nodes[n] == Declare(NewTranslator(), def)
  {
    var target := Target(reg, def);
    TargetFresh(reg, def);
    WalkCreates(reg, reg.root, Split(def.path));
    DeclaredIs(reg, def);
    DeclareAtReach(target.0.nodes, target.1, def, reg.root, Split(def.path));
    NonEmptyKeeps(Split(def.path));
    assert Split(def.path)[0] in Split(def.path);
  }

  /** The alias at the path of a fresh typed definition, which leads to the defined translator itself. */
  lemma AliasFresh(r2: Registry, def: Definition, n: TId)
    requires r2.Valid() && def.fields.Valid() && def.typ != ""
    requires Xid(def.ns, def.element) in r2.translators && r2.translators[Xid(def.ns, def.element)] == n
    requires |Segments(def.path)| >= 1 && Reach(r2.nodes, r2.root, Segments(def.path)) == Some(n)
    requires r2.nodes[n] == Declare(NewTranslator(), def)
    ensures var r3 := Alias(r2, def.ns, def.element, def.path, false);
            && r3.translators[Xid(def.ns, def.element)] == n
            && "" in r3.nodes[n].exporters.entries
            && r3.nodes[n].exporters.entries[""].ns == def.ns && r3.nodes[n].exporters.entries[""].element == def.element
            && FieldsAt(r3.nodes[n].exporters, "") == def.fields.entries
            && TypedFields(r3.nodes[n]) == def.fields.entries
  {
    FreshDeclared(def);
    var r3 := Alias(r2, def.ns, def.element, def.path, false);
    AliasSelf(r2, def.ns, def.element, def.path, false);
    AliasKeeps(r2, def.ns, def.element, def.path, false);
    TypedFieldsSame(r2.nodes[n], r3.nodes[n]);
    UnionEmpty(def.fields.entries);
  }

  /** A typed definition whose path already leads somewhere is written into the translator there, with no walk side effect. */
  lemma TargetExisting(reg: Registry, def: Definition, n: TId)
    requires reg.Valid() && def.typ != "" && def.path != ""
    requires Reach(reg.nodes, reg.root, Split(def.path)) == Some(n)
    ensures Target(reg, def) == (reg, n)
  {
    WalkCreates(reg, reg.root, Split(def.path));
  }

  /** The definition step of a second type, as `define` leaves it, on a translator serving only a first one. */
  lemma SecondServes(t0: Translator, t: Translator, d1: Definition, d2: Definition)
    requires d1.typ != "" && d2.typ != "" && d1.typ != d2.typ && Xid(d1.ns, d1.element) != Xid(d2.ns, d2.element)
    requires Serves(t0, d1)
    requires forall y :: y != Xid(d1.ns, d1.element) ==> FieldsAt(t0.importers, y) == map[]
    requires forall z :: z != "" && z != d1.typ ==> z !in t0.exporters.entries
    requires var x := Xid(d2.ns, d2.element);
             && t.typeValues == t0.typeValues[x := d2.typ]
             && x in t.importers.entries && t0.importers.entries.Keys <= t.importers.entries.Keys
             && FieldsAt(t.importers, x) == FieldsAt(t0.importers, x) + d2.fields.entries
             && (forall y :: y != x ==> FieldsAt(t.importers, y) == FieldsAt(t0.importers, y))
             && d2.typ in t.exporters.entries
             && FieldsAt(t.exporters, d2.typ) == FieldsAt(t0.exporters, d2.typ) + d2.fields.entries
             && (d2.typ !in t0.exporters.entries ==>
                   t.exporters.entries[d2.typ].ns == d2.ns && t.exporters.entries[d2.typ].element == d2.element)
             && (forall z :: z != "" && z != d2.typ ==> (z in t.exporters.entries <==> z in t0.exporters.entries))
             && (forall z <- t0.exporters.entries.Keys :: z != "" && z != d2.typ ==> t.exporters.entries[z] == t0.exporters.entries[z])
    ensures Serves(t, d1) && Serves(t, d2)
  {
    var x1, x2 := Xid(d1.ns, d1.element), Xid(d2.ns, d2.element);
    assert FieldsAt(t.importers, x1) == FieldsAt(t0.importers, x1);
    assert t.exporters.entries[d1.typ] == t0.exporters.entries[d1.typ];
    assert FieldsAt(t0.importers, x2) == map[] && d2.typ !in t0.exporters.entries;
    assert map[] + d2.fields.entries == d2.fields.entries;
  }

  /**
   A second typed definition at a path the first one created lands on the
   same translator, which then serves both; the type field is the second
   one's when given.
   */
  lemma DefineShared(reg: Registry, d1: Definition, d2: Definition)
    requires reg.Valid() && d1.fields.Valid() && d2.fields.Valid()
    requires d1.typ != "" && d2.typ != "" && d1.typ != d2.typ && d1.path == d2.path && d1.path != ""
    requires Xid(d1.ns, d1.element) != Xid(d2.ns, d2.element)
    requires Reach(reg.nodes, reg.root, Split(d1.path)).None?
    ensures var r := Define(Define(reg, d1), d2);
            var n := r.translators[Xid(d1.ns, d1.element)];
            && r.translators[Xid(d2.ns, d2.element)] == n
            && Serves(r.nodes[n], d1) && Serves(r.nodes[n], d2)
            && r.nodes[n].typeField == (if d2.typeField != "" then d2.typeField else d1.typeField)
            && Reach(r.nodes, r.root, Split(d1.path)) == Some(n)
  {
    var r1 := Define(reg, d1);
    DefineFresh(reg, d1);
    SharedStep(r1, d1, d2, r1.translators[Xid(d1.ns, d1.element)]);
  }

  /** The second definition of `DefineShared`, on a registry whose translator `n` serves only the first. */
  lemma SharedStep(r1: Registry, d1: Definition, d2: Definition, n: TId)
    requires r1.Valid() && d2.fields.Valid()
    requires d1.typ != "" && d2.typ != "" && d1.typ != d2.typ && d2.path != ""
    requires Xid(d1.ns, d1.element) != Xid(d2.ns, d2.element)
    requires Xid(d1.ns, d1.element) in r1.translators && r1.translators[Xid(d1.ns, d1.element)] == n
    requires Reach(r1.nodes, r1.root, Split(d2.path)) == Some(n)
    requires n < |r1.nodes| && Serves(r1.nodes[n], d1)
    requires forall y :: y != Xid(d1.ns, d1.element) ==> FieldsAt(r1.nodes[n].importers, y) == map[]
    requires forall z :: z != "" && z != d1.typ ==> z !in r1.nodes[n].exporters.entries
    ensures var r := Define(r1, d2);
            && r.translators[Xid(d2.ns, d2.element)] == n && r.translators[Xid(d1.ns, d1.element)] == n
            && Serves(r.nodes[n], d1) && Serves(r.nodes[n], d2)
            && r.nodes[n].typeField == (if d2.typeField != "" then d2.typeField else r1.nodes[n].typeField)
            && Reach(r.nodes, r.root, Split(d2.path)) == Some(n)
  {
    TargetExisting(r1, d2, n);
    DefineDeclares(r1, d2);
    DefineKeepsOthers(r1, d2, Xid(d1.ns, d1.element));
    var r := Define(r1, d2);
    SecondServes(r1.nodes[n], r.nodes[n], d1, d2);
  }

  /** `Encodable` reads the codecs only through their entries. */
  lemma EncodableByEntries(tr: Translator, e1: Fields, i1: Fields, e2: Fields, i2: Fields, props: Object)
    requires e1.entries == e2.entries && i1.entries == i2.entries
    ensures Encodable(tr, e1, i1, props) == Encodable(tr, e2, i2, props)
  {
  }

  /** So does `NestedTransferable`. */
  lemma NestedByEntries(nodes: seq<Translator>, tr: Translator, e1: Fields, e2: Fields, props: Object)
    requires e1.entries == e2.entries
    ensures NestedTransferable(nodes, tr, e1, props) == NestedTransferable(nodes, tr, e2, props)
  {
  }

  /**
   A translator that serves a definition sends an object of that type, whose
   keys its codecs, children and type field carry, through export and back:
   the element is the definition's, and every key comes back holding.
   */
  lemma ServedRoundTrip(nodes: seq<Translator>, n: TId, def: Definition, props: Object, parentNs: string)
    requires WellFormed(nodes) && n < |nodes| && Serves(nodes[n], def) && def.typ != ""
    requires var tf := nodes[n].typeField;
             && tf != "" && tf !in def.fields.entries
             && props.Valid() && tf in props.entries && props.entries[tf] == Str(def.typ)
             && Encodable(nodes[n], def.fields, def.fields, props)
             && NestedTransferable(nodes, nodes[n], def.fields, props)
    ensures var el := Translators.Export(nodes, n, Obj(props), parentNs);
            && el.Some? && XidOf(el.value) == Xid(def.ns, def.element)
            && Translators.Import(nodes, n, el.value).Some?
            && Holds(Obj(Translators.Import(nodes, n, el.value).value), Obj(props))
  {
    var t := nodes[n];
    var x := Xid(def.ns, def.element);
    assert ExportType(t, props) == Some(def.typ);
    var b := t.exporters.entries[def.typ];
    assert Selected(t, props) == Some(b);
    var imp := t.importers.entries[x].fields;
    assert b.fields.entries == def.fields.entries && imp.entries == def.fields.entries;
    EncodableByEntries(t, b.fields, imp, def.fields, def.fields, props);
    NestedByEntries(nodes, t, b.fields, def.fields, props);
    assert Transferable(nodes, n, Obj(props));
    ObjectRoundTrip(nodes, n, props, parentNs);
  }

  lemma {:induction false} NonEmptyKeeps(segs: seq<string>)
    requires forall seg <- segs :: seg != ""
    ensures NonEmpty(segs) == segs
    decreases |segs|
  {
    if |segs| > 0 {
      assert forall seg <- segs[1..] :: seg in segs;
      assert segs[0] in segs;
      NonEmptyKeeps(segs[1..]);
      assert segs == [segs[0]] + segs[1..];
    }
  }

  /** The translator that `Define(Define(reg, d1), d2)` reaches at the path of `d1`, if any. */
  ghost function Shared(reg: Registry, d1: Definition, d2: Definition): Translator
    requires reg.Valid() && d1.fields.Valid() && d2.fields.Valid()
  {
    var r := Define(Define(reg, d1), d2);
    match Reach(r.nodes, r.root, Split(d1.path))
    case Some(n) => if n < |r.nodes| then r.nodes[n] else NewTranslator()
    case None => NewTranslator()
  }

  /**
   Two typed definitions at one path with empty-free segments, the path new
   to the registry, the same type field: an object of either type whose keys
   the shared translator carries, exported from the registry at that path,
   comes out as the element of its own type and is imported back by the
   registry with every key it had, type included.
   */
  lemma PolymorphicRoundTrip(reg: Registry, d1: Definition, d2: Definition, d: Definition, props: Object)
    requires reg.Valid() && d1.fields.Valid() && d2.fields.Valid()
    requires d1.typ != "" && d2.typ != "" && d1.typ != d2.typ && d1.path == d2.path
    requires forall seg <- Split(d1.path) :: seg != ""
    requires Xid(d1.ns, d1.element) != Xid(d2.ns, d2.element)
    requires Reach(reg.nodes, reg.root, Split(d1.path)).None?
    requires d1.typeField != "" && d2.typeField == d1.typeField
    requires d == d1 || d == d2
    requires d.typeField !in d.fields.entries
    requires props.Valid() && d.typeField in props.entries && props.entries[d.typeField] == Str(d.typ)
    requires Encodable(Shared(reg, d1, d2), d.fields, d.fields, props)
    requires NestedTransferable(Define(Define(reg, d1), d2).nodes, Shared(reg, d1, d2), d.fields, props)
    ensures var r := Define(Define(reg, d1), d2);
            var el := Registries.Export(r, d1.path, Obj(props));
            && el.Some? && XidOf(el.value) == Xid(d.ns, d.element)
            && Registries.Import(r, el.value).Some?
            && Holds(Obj(Registries.Import(r, el.value).value), Obj(props))
  {
    assert Split(d1.path)[0] in Split(d1.path);
    assert d1.path != "";
    DefineShared(reg, d1, d2);
    var r := Define(Define(reg, d1), d2);
    var n := r.translators[Xid(d1.ns, d1.element)];
    NonEmptyKeeps(Split(d1.path));
    assert Segments(d1.path) == Split(d1.path);
    assert Registries.Export(r, d1.path, Obj(props)) == Translators.Export(r.nodes, n, Obj(props), "");
    assert Shared(reg, d1, d2) == r.nodes[n];
    ServedRoundTrip(r.nodes, n, d, props, "");
  }
}
