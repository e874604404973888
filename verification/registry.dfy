/**
 The registry of src/Registry.ts: the root translator, the flat element index
 and path-addressed construction of the translator tree.
 */
module Registries {
  import opened Wrappers
  import opened OrderedMaps
  import opened Xml
  import opened Data
  import opened Codecs
  import opened Translators
  import opened TranslatorLaws

  datatype Registry = Registry(nodes: seq<Translator>, root: TId, translators: map<Xid, TId>) {
    /** A well-formed arena holding the root and every indexed translator. */
    ghost predicate Valid() {
      WellFormed(nodes) && root < |nodes| && forall x <- translators.Keys :: translators[x] < |nodes|
    }
  }

  function NewRegistry(): (r: Registry)
    ensures r.Valid() && r.translators == map[] && |r.nodes| == 1
  {
    Registry([NewTranslator()], 0, map[])
  }

  // ------------------------------------------------------------------ paths

  /** `s.split('.')`: the empty string gives one empty segment, and empty segments are kept. */
  function Split(s: string): (r: seq<string>)
    ensures |r| >= 1
    ensures forall seg <- r :: '.' !in seg
    decreases |s|
  {
    if |s| == 0 then [""]
    else
      var rest := Split(s[1..]);
      if s[0] == '.' then [""] + rest else [[s[0]] + rest[0]] + rest[1..]
  }

  /** `segs.join('.')`, the inverse of `Split`. */
  function Join(segs: seq<string>): string
    requires |segs| >= 1
    decreases |segs|
  {
    if |segs| == 1 then segs[0] else segs[0] + "." + Join(segs[1..])
  }

  /** `.filter(item => item !== '')`. */
  function NonEmpty(segs: seq<string>): (r: seq<string>)
    ensures forall seg <- r :: seg != "" && seg in segs
    ensures forall seg <- segs :: seg != "" ==> seg in r
    decreases |segs|
  {
    if |segs| == 0 then []
    else (if segs[0] != "" then [segs[0]] else []) + NonEmpty(segs[1..])
  }

  /** The field names of a dotted path, empty ones dropped. */
  function Segments(path: string): (r: seq<string>)
    ensures forall seg <- r :: seg != "" && '.' !in seg
  {
    NonEmpty(Split(path))
  }

  /** The node reached from `cur` by following the child edges named by `path`, if every one exists. */
  function Reach(nodes: seq<Translator>, cur: TId, path: seq<string>): (r: Option<TId>)
    ensures |path| == 0 ==> r == Some(cur)
    decreases |path|
  {
    if |path| == 0 then Some(cur)
    else if cur < |nodes| then
      var next := Translators.GetChild(nodes[cur], path[0]);
      if next.Some? then Reach(nodes, next.value, path[1..]) else None
    else None
  }

  // --------------------------------------------------------------- arena helpers

  /** A fresh translator appended to a well-formed arena. */
  lemma AppendKeepsWF(nodes: seq<Translator>)
    requires WellFormed(nodes)
    ensures WellFormed(nodes + [NewTranslator()]) && Grows(nodes, nodes + [NewTranslator()])
  {
    var n := nodes + [NewTranslator()];
    forall i | 0 <= i < |n| ensures NodeWF(n[i], |n|) {
      if i < |nodes| {
        assert NodeWF(nodes[i], |nodes|);
      }
    }
  }

  // --------------------------------------------------------------- operations

  /** `indexTranslator`. */
  function IndexTranslator(reg: Registry, ns: string, element: string, t: TId): (r: Registry)
    ensures r.nodes == reg.nodes && r.root == reg.root
    ensures r.translators == reg.translators[Xid(ns, element) := t]
  {
    reg.(translators := reg.translators[Xid(ns, element) := t])
  }

  /**
   `findTranslator`: the indexed translator of (`ns`, `element`); when there is
   none and `autovivify` is set, a fresh one, appended and indexed.
   */
  function FindTranslator(reg: Registry, ns: string, element: string, autovivify: bool): (r: (Registry, Option<TId>))
    requires reg.Valid()
    ensures r.0.Valid() && Grows(reg.nodes, r.0.nodes) && r.0.root == reg.root
    ensures r.1.Some? <==> Xid(ns, element) in reg.translators || autovivify
    ensures Xid(ns, element) in reg.translators ==> r == (reg, Some(reg.translators[Xid(ns, element)]))
    ensures r.1.Some? ==> Xid(ns, element) in r.0.translators && r.0.translators[Xid(ns, element)] == r.1.value
    ensures Xid(ns, element) !in reg.translators && !autovivify ==> r.0 == reg
    ensures Xid(ns, element) !in reg.translators && autovivify ==>
              && r.1 == Some(|reg.nodes|) && r.0.nodes == reg.nodes + [NewTranslator()]
              && r.0.translators == reg.translators[Xid(ns, element) := |reg.nodes|]
  {
    var x := Xid(ns, element);
    if x in reg.translators then (reg, Some(reg.translators[x]))
    else if autovivify then
      AppendKeepsWF(reg.nodes);
      var id := |reg.nodes|;
      (IndexTranslator(reg.(nodes := reg.nodes + [NewTranslator()]), ns, element, id), Some(id))
    else (reg, None)
  }

  /**
   `walkToTranslator` from node `cur`: follows `path`; a missing child ends the
   walk with `None`, or, when `autovivify` is set, is created as a fresh
   translator linked under that name.
   */
  function WalkFrom(reg: Registry, cur: TId, path: seq<string>, autovivify: bool): (r: (Registry, Option<TId>))
    requires reg.Valid() && cur < |reg.nodes|
    ensures r.0.Valid() && Grows(reg.nodes, r.0.nodes) && r.0.root == reg.root && r.0.translators == reg.translators
    ensures r.1.Some? ==> r.1.value < |r.0.nodes|
    ensures !autovivify ==> r.0 == reg
    ensures autovivify ==> r.1.Some?
    decreases |path|
  {
    if |path| == 0 then (reg, Some(cur))
    else
      var key := path[0];
      var t := reg.nodes[cur];
      var next := Translators.GetChild(t, key);
      if next.Some? then
        assert NodeWF(t, |reg.nodes|);
        WalkFrom(reg, next.value, path[1..], autovivify)
      else if !autovivify then (reg, None)
      else
        var id := |reg.nodes|;
        var nodes := reg.nodes + [NewTranslator()];
        AppendKeepsWF(reg.nodes);
        AddChildKeepsWF(nodes, cur, key, id, None);
        var grown := reg.(nodes := AddChild(nodes, cur, key, id, None));
        GrowsTrans(reg.nodes, nodes, grown.nodes);
        var r := WalkFrom(grown, id, path[1..], autovivify);
        GrowsTrans(reg.nodes, grown.nodes, r.0.nodes);
        r
  }

  /** `walkToTranslator`: a walk from the root. */
  function WalkToTranslator(reg: Registry, path: seq<string>, autovivify: bool): (r: (Registry, Option<TId>))
    requires reg.Valid()
    ensures r.0.Valid() && Grows(reg.nodes, r.0.nodes) && r.0.root == reg.root && r.0.translators == reg.translators
    ensures r.1.Some? ==> r.1.value < |r.0.nodes|
    ensures !autovivify ==> r.0 == reg
    ensures autovivify ==> r.1.Some?
  {
    WalkFrom(reg, reg.root, path, autovivify)
  }

  /** The translator an alias links: the indexed one, or a fresh one, appended and indexed. */
  function Linked(reg: Registry, ns: string, element: string): (r: (Registry, TId))
    requires reg.Valid()
    ensures r.0.Valid() && r.1 < |r.0.nodes| && Grows(reg.nodes, r.0.nodes) && r.0.root == reg.root
    ensures Xid(ns, element) in reg.translators ==> r == (reg, reg.translators[Xid(ns, element)])
    ensures Xid(ns, element) !in reg.translators ==>
              && r.1 == |reg.nodes| && r.0.nodes == reg.nodes + [NewTranslator()]
              && r.0.translators == reg.translators[Xid(ns, element) := r.1]
  {
    var found := FindTranslator(reg, ns, element, false);
    var linked := if found.1.Some? then found.1.value else |reg.nodes|;
    var r1 := if found.1.Some? then reg else reg.(nodes := reg.nodes + [NewTranslator()]);
    AppendKeepsWF(reg.nodes);
    assert found.1.Some? ==> reg.translators[Xid(ns, element) := linked] == reg.translators;
    (IndexTranslator(r1, ns, element, linked), linked)
  }

  /** Links translator `linked` at `keys`: walks (creating) to the parent and adds it under the last key. */
  function Attach(reg: Registry, linked: TId, keys: seq<string>, multiple: bool): (r: Registry)
    requires reg.Valid() && linked < |reg.nodes|
    ensures r.Valid() && Grows(reg.nodes, r.nodes) && r.root == reg.root && r.translators == reg.translators
  {
    if |keys| == 0 then reg
    else
      var walked := WalkToTranslator(reg, keys[..|keys| - 1], true);
      var nodes := AddChild(walked.0.nodes, walked.1.value, keys[|keys| - 1], linked, Some(multiple));
      AddChildKeepsWF(walked.0.nodes, walked.1.value, keys[|keys| - 1], linked, Some(multiple));
      GrowsTrans(reg.nodes, walked.0.nodes, nodes);
      walked.0.(nodes := nodes)
  }

  /**
   `alias`: finds or creates the translator of (`ns`, `element`), indexes it,
   walks (creating) to the parent of `path` and links it there under the last
   segment with the given array flag. A path without segments links nothing.
   */
  function Alias(reg: Registry, ns: string, element: string, path: string, multiple: bool): (r: Registry)
    requires reg.Valid()
    ensures r.Valid() && Grows(reg.nodes, r.nodes) && r.root == reg.root
    ensures Xid(ns, element) in r.translators
    ensures Xid(ns, element) in reg.translators ==> r.translators == reg.translators
    ensures Xid(ns, element) !in reg.translators ==> r.translators == reg.translators[Xid(ns, element) := |reg.nodes|]
  {
    var l := Linked(reg, ns, element);
    var r := Attach(l.0, l.1, Segments(path), multiple);
    GrowsTrans(reg.nodes, l.0.nodes, r.nodes);
    r
  }

  /** An alias of a definition: a path, and whether the field there is an array. */
  datatype Link = Link(path: string, multiple: bool)

  /** The `alias` loop of `define`. */
  function AliasAll(reg: Registry, ns: string, element: string, links: seq<Link>): (r: Registry)
    requires reg.Valid()
    ensures r.Valid() && Grows(reg.nodes, r.nodes) && r.root == reg.root
    ensures Xid(ns, element) in reg.translators ==> r.translators == reg.translators
    decreases |links|
  {
    if |links| == 0 then reg
    else
      var r1 := Alias(reg, ns, element, links[0].path, links[0].multiple);
      var r := AliasAll(r1, ns, element, links[1..]);
      GrowsTrans(reg.nodes, r1.nodes, r.nodes);
      r
  }

  /**
   The options of `define`: `typ` and `typeField` are empty when absent, and so
   is `path`. A string alias is a `Link` with `multiple` false.
   */
  datatype Definition = Definition(
    ns: string,
    element: string,
    typeField: string,
    typ: string,
    fields: Fields,
    path: string,
    aliases: seq<Link>)

  /** The translator `define` writes into: walked to by path for a typed definition, else found by element. */
  function Target(reg: Registry, def: Definition): (r: (Registry, TId))
    requires reg.Valid()
    ensures r.0.Valid() && Grows(reg.nodes, r.0.nodes) && r.0.root == reg.root && r.1 < |r.0.nodes|
    ensures def.typ != "" && def.path != "" ==> r.0.translators == reg.translators
    ensures !(def.typ != "" && def.path != "") ==> r.0.translators == reg.translators[Xid(def.ns, def.element) := r.1]
    ensures r.0.translators[Xid(def.ns, def.element) := r.1] == reg.translators[Xid(def.ns, def.element) := r.1]
  {
    if def.typ != "" && def.path != "" then
      var w := WalkToTranslator(reg, Split(def.path), true);
      (w.0, w.1.value)
    else
      var f := FindTranslator(reg, def.ns, def.element, true);
      (f.0, f.1.value)
  }

  /** The definition step of `define` on its target: the type field, then `updateDefinition` with the same codecs both ways. */
  function Declare(t: Translator, def: Definition): Translator {
    var typed := if def.typeField != "" then t.(typeField := def.typeField) else t;
    UpdateDefinition(typed, def.ns, def.element, def.typ, def.fields, def.fields)
  }

  /** The target of `define`, indexed under the definition's element. */
  function Indexed(reg: Registry, def: Definition): (r: (Registry, TId))
    requires reg.Valid()
    ensures r.0.Valid() && Grows(reg.nodes, r.0.nodes) && r.0.root == reg.root && r.1 < |r.0.nodes|
    ensures r.0.translators == reg.translators[Xid(def.ns, def.element) := r.1]
  {
    var target := Target(reg, def);
    (IndexTranslator(target.0, def.ns, def.element, target.1), target.1)
  }

  /** The first half of `define`: the target translator, indexed and declared. */
  function Declared(reg: Registry, def: Definition): (r: Registry)
    requires reg.Valid() && def.fields.Valid()
    ensures r.Valid() && Grows(reg.nodes, r.nodes) && r.root == reg.root
    ensures Xid(def.ns, def.element) in r.translators
    ensures r.translators == reg.translators[Xid(def.ns, def.element) := r.translators[Xid(def.ns, def.element)]]
  {
    var p := Indexed(reg, def);
    var nodes := DeclareAt(p.0.nodes, p.1, def);
    GrowsTrans(reg.nodes, p.0.nodes, nodes);
    p.0.(nodes := nodes)
  }

  /** The arena with translator `t` declared. */
  function DeclareAt(nodes: seq<Translator>, t: TId, def: Definition): (r: seq<Translator>)
    requires WellFormed(nodes) && t < |nodes| && def.fields.Valid()
    ensures WellFormed(r) && Grows(nodes, r) && |r| == |nodes|
  {
    DeclareGrows(nodes, t, def);
    nodes[t := Declare(nodes[t], def)]
  }

  /** `define`: declare the target, then link it at its path and at every alias. */
  function Define(reg: Registry, def: Definition): (r: Registry)
    requires reg.Valid() && def.fields.Valid()
    ensures r.Valid() && Grows(reg.nodes, r.nodes) && r.root == reg.root
    ensures Xid(def.ns, def.element) in r.translators
    ensures r.translators == reg.translators[Xid(def.ns, def.element) := r.translators[Xid(def.ns, def.element)]]
  {
    var r2 := Declared(reg, def);
    var r3 := if def.path != "" then Alias(r2, def.ns, def.element, def.path, false) else r2;
    var r := AliasAll(r3, def.ns, def.element, def.aliases);
    GrowsTrans(reg.nodes, r2.nodes, r3.nodes);
    GrowsTrans(reg.nodes, r3.nodes, r.nodes);
    r
  }

  lemma DeclareKeepsWF(t: Translator, def: Definition, bound: nat)
    requires NodeWF(t, bound) && def.fields.Valid()
    ensures NodeWF(Declare(t, def), bound) && TranslatorGrows(t, Declare(t, def))
  {
    var typed := if def.typeField != "" then t.(typeField := def.typeField) else t;
    UpdateDefinitionGrows(typed, def.ns, def.element, def.typ, def.fields, def.fields, bound);
    TranslatorGrowsTrans(t, typed, Declare(t, def));
  }

  lemma DeclareGrows(nodes: seq<Translator>, t: TId, def: Definition)
    requires WellFormed(nodes) && t < |nodes| && def.fields.Valid()
    ensures WellFormed(nodes[t := Declare(nodes[t], def)]) && Grows(nodes, nodes[t := Declare(nodes[t], def)])
  {
    DeclareKeepsWF(nodes[t], def, |nodes|);
    var n := nodes[t := Declare(nodes[t], def)];
    forall i | 0 <= i < |n| ensures NodeWF(n[i], |n|) && TranslatorGrows(nodes[i], n[i]) {
      if i != t {
        assert NodeWF(nodes[i], |nodes|);
        GrowsRefl(nodes);
      }
    }
  }

  /** `import` of the registry: the indexed translator of the root element imports it. */
  function Import(reg: Registry, e: Element): (r: Option<Object>)
    ensures r.Some? <==> XidOf(e) in reg.translators && reg.translators[XidOf(e)] < |reg.nodes|
                         && XidOf(e) in reg.nodes[reg.translators[XidOf(e)]].importers.entries
    ensures r.Some? ==> r == Translators.Import(reg.nodes, reg.translators[XidOf(e)], e)
  {
    if XidOf(e) !in reg.translators then None
    else Translators.Import(reg.nodes, reg.translators[XidOf(e)], e)
  }

  /** `export` of the registry: the translator at `path`, never created, exports `data` as a top-level element. */
  function Export(reg: Registry, path: string, data: Value): (r: Option<Element>)
    ensures Reach(reg.nodes, reg.root, Segments(path)).None? ==> r.None?
    ensures Reach(reg.nodes, reg.root, Segments(path)).Some? ==>
              r == Translators.Export(reg.nodes, Reach(reg.nodes, reg.root, Segments(path)).value, data, "")
  {
    match Reach(reg.nodes, reg.root, Segments(path))
    case None => None
    case Some(t) => Translators.Export(reg.nodes, t, data, "")
  }
}
