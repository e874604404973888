/** Laws of `import` (src/Translator.ts): which children it reads and how it collects them. */
module ImportLaws {
  import opened Wrappers
  import opened OrderedMaps
  import opened Xml
  import opened Data
  import opened Codecs
  import opened Translators

  /** The children `import` hands to a child translator: elements whose name is indexed. */
  function Routed(t: Translator, cs: seq<Node>): (r: seq<Node>)
    ensures forall n <- r :: n in cs && Route(t, n).Some?
    ensures forall n <- cs :: Route(t, n).Some? ==> n in r
    decreases |cs|
  {
    if |cs| == 0 then []
    else (if Route(t, cs[0]).Some? then [cs[0]] else []) + Routed(t, cs[1..])
  }

  /** Text children and children with an unindexed name are skipped: only the routed ones matter. */
  lemma {:induction false} SkipsUnrouted(nodes: seq<Translator>, tr: Translator, e: Element, cs: seq<Node>, out: Object)
    requires forall n <- cs :: n in e.children
    ensures ImportChildren(nodes, tr, e, cs, out) == ImportChildren(nodes, tr, e, Routed(tr, cs), out)
    decreases |cs|
  {
    if |cs| > 0 {
      var rest := cs[1..];
      SkipsUnrouted(nodes, tr, e, rest, ImportChild(nodes, tr, e, cs[0], out));
      if Route(tr, cs[0]).Some? {
        var rs := Routed(tr, cs);
        assert rs[0] == cs[0] && rs[1..] == Routed(tr, rest);
      } else {
        assert Routed(tr, cs) == Routed(tr, rest);
      }
    }
  }

  /** `f` is the field some indexed element is collected under. */
  predicate RoutesTo(t: Translator, f: string) {
    f in t.childrenIndex.Values
  }

  /** The children pass only writes the fields that indexed elements are collected under. */
  lemma {:induction false} ChildrenFrame(nodes: seq<Translator>, tr: Translator, e: Element, cs: seq<Node>, out: Object, k: string)
    requires forall n <- cs :: n in e.children
    requires !RoutesTo(tr, k)
    ensures var r := ImportChildren(nodes, tr, e, cs, out);
            (k in r.entries <==> k in out.entries) && (k in out.entries ==> r.entries[k] == out.entries[k])
    decreases |cs|
  {
    if |cs| > 0 {
      var next := ImportChild(nodes, tr, e, cs[0], out);
      var route := Route(tr, cs[0]);
      if route.Some? {
        assert tr.childrenIndex[XidOf(cs[0].el)] == route.value.0;
      }
      ChildrenFrame(nodes, tr, e, cs[1..], next, k);
    }
  }

  /** What one child contributes to field `f`: its imported object, when it is routed to `f` and imports. */
  ghost function Contribution(nodes: seq<Translator>, tr: Translator, n: Node, f: string): seq<Value> {
    match Route(tr, n)
    case None => []
    case Some((g, ch)) =>
      if g == f && Import(nodes, ch.node, n.el).Some? then [Obj(Import(nodes, ch.node, n.el).value)] else []
  }

  /** The objects collected for field `f`, in document order. */
  ghost function Results(nodes: seq<Translator>, tr: Translator, cs: seq<Node>, f: string): seq<Value>
    decreases |cs|
  {
    if |cs| == 0 then [] else Contribution(nodes, tr, cs[0], f) + Results(nodes, tr, cs[1..], f)
  }

  /** The array a multiple field already holds, or none. */
  function Prior(out: Object, f: string): seq<Value> {
    if f in out.entries && out.entries[f].Arr? then out.entries[f].items else []
  }

  /** One child step, as seen from field `f`. */
  lemma ChildStep(nodes: seq<Translator>, tr: Translator, e: Element, n: Node, out: Object, f: string)
    requires n in e.children && f in tr.children
    ensures var next := ImportChild(nodes, tr, e, n, out);
            var c := Contribution(nodes, tr, n, f);
            && |c| <= 1
            && (c == [] ==> (f in next.entries <==> f in out.entries) && (f in out.entries ==> next.entries[f] == out.entries[f]))
            && (c != [] && tr.children[f].multiple && (f !in out.entries || out.entries[f].Arr? || !Truthy(out.entries[f])) ==>
                  f in next.entries && next.entries[f] == Arr(Prior(out, f) + c))
            && (c != [] && !tr.children[f].multiple ==> f in next.entries && next.entries[f] == c[0])
  {
    var next := ImportChild(nodes, tr, e, n, out);
    match Route(tr, n)
    case None =>
      assert next == out;
    case Some((g, ch)) =>
      match Import(nodes, ch.node, n.el)
      case None =>
        assert next == out;
      case Some(o) =>
        assert next == Collect(out, g, ch.multiple, Obj(o));
        if g == f {
          assert ch == tr.children[f];
          assert Contribution(nodes, tr, n, f) == [Obj(o)];
        }
  }

  /** How one step's effect on field `f` composes with the effect of the rest. */
  lemma CollectCombine(out: Object, next: Object, r: Object, f: string, c: seq<Value>, rest: seq<Value>)
    requires |c| <= 1
    requires c == [] ==> (f in next.entries <==> f in out.entries) && (f in out.entries ==> next.entries[f] == out.entries[f])
    requires c != [] ==> f in next.entries && next.entries[f] == Arr(Prior(out, f) + c)
    requires rest == [] ==> (f in r.entries <==> f in next.entries) && (f in next.entries ==> r.entries[f] == next.entries[f])
    requires rest != [] ==> f in r.entries && r.entries[f] == Arr(Prior(next, f) + rest)
    ensures c + rest == [] ==> (f in r.entries <==> f in out.entries) && (f in out.entries ==> r.entries[f] == out.entries[f])
    ensures c + rest != [] ==> f in r.entries && r.entries[f] == Arr(Prior(out, f) + (c + rest))
  {
    if c == [] {
      assert c + rest == rest;
    } else {
      assert Prior(next, f) == Prior(out, f) + c;
      assert Prior(out, f) + c + rest == Prior(out, f) + (c + rest);
    }
  }

  /**
   A multiple field collects the objects of its children in document order,
   after whatever array it already held; without such children it is left as
   it was.
   */
  lemma {:induction false} CollectsInOrder(nodes: seq<Translator>, tr: Translator, e: Element, cs: seq<Node>, out: Object, f: string)
    requires forall n <- cs :: n in e.children
    requires f in tr.children && tr.children[f].multiple
    requires f !in out.entries || out.entries[f].Arr? || !Truthy(out.entries[f])
    ensures var r := ImportChildren(nodes, tr, e, cs, out);
            var res := Results(nodes, tr, cs, f);
            && (res == [] ==> (f in r.entries <==> f in out.entries) && (f in out.entries ==> r.entries[f] == out.entries[f]))
            && (res != [] ==> f in r.entries && r.entries[f] == Arr(Prior(out, f) + res))
    decreases |cs|
  {
    if |cs| > 0 {
      var next := ImportChild(nodes, tr, e, cs[0], out);
      var c := Contribution(nodes, tr, cs[0], f);
      var rest := Results(nodes, tr, cs[1..], f);
      ChildStep(nodes, tr, e, cs[0], out, f);
      CollectsInOrder(nodes, tr, e, cs[1..], next, f);
      assert ImportChildren(nodes, tr, e, cs, out) == ImportChildren(nodes, tr, e, cs[1..], next);
      assert Results(nodes, tr, cs, f) == c + rest;
      CollectCombine(out, next, ImportChildren(nodes, tr, e, cs[1..], next), f, c, rest);
    }
  }

  /** A single field keeps the object of its last importable child. */
  lemma {:induction false} LastWins(nodes: seq<Translator>, tr: Translator, e: Element, cs: seq<Node>, out: Object, f: string)
    requires forall n <- cs :: n in e.children
    requires f in tr.children && !tr.children[f].multiple
    ensures var r := ImportChildren(nodes, tr, e, cs, out);
            var res := Results(nodes, tr, cs, f);
            && (res == [] ==> (f in r.entries <==> f in out.entries) && (f in out.entries ==> r.entries[f] == out.entries[f]))
            && (res != [] ==> f in r.entries && r.entries[f] == res[|res| - 1])
    decreases |cs|
  {
    if |cs| > 0 {
      var next := ImportChild(nodes, tr, e, cs[0], out);
      var c := Contribution(nodes, tr, cs[0], f);
      var rest := Results(nodes, tr, cs[1..], f);
      var res := Results(nodes, tr, cs, f);
      assert res == c + rest;
      ChildStep(nodes, tr, e, cs[0], out, f);
      LastWins(nodes, tr, e, cs[1..], next, f);
      if rest != [] {
        assert res[|res| - 1] == rest[|rest| - 1];
      } else if c != [] {
        assert res == c;
      }
    }
  }

  /**
   `import` of an element its translator knows: every field the importer
   yields a value for is set, and no other field is, apart from the type
   discriminator, which carries the element's type value unless a field
   overrides it; fields that no child element is collected under keep exactly
   these values.
   */
  lemma ImportReadsFields(nodes: seq<Translator>, t: TId, e: Element, k: string)
    requires WellFormed(nodes) && t < |nodes| && XidOf(e) in nodes[t].importers.entries
    requires !RoutesTo(nodes[t], k)
    ensures var tr := nodes[t];
            var fields := tr.importers.entries[XidOf(e)].fields;
            var o := Import(nodes, t, e).value;
            && (Imported(fields, k, e) ==> k in o.entries && o.entries[k] == Decode(fields.entries[k], e).value)
            && (!Imported(fields, k, e) && k != tr.typeField ==> k !in o.entries)
            && (!Imported(fields, k, e) && k == tr.typeField && k != "" && XidOf(e) in tr.typeValues && tr.typeValues[XidOf(e)] != "" ==>
                  k in o.entries && o.entries[k] == Str(tr.typeValues[XidOf(e)]))
            && (!Imported(fields, k, e) && k == tr.typeField && !(k != "" && XidOf(e) in tr.typeValues && tr.typeValues[XidOf(e)] != "") ==>
                  k !in o.entries)
  {
    var tr := nodes[t];
    var fields := tr.importers.entries[XidOf(e)].fields;
    assert NodeWF(tr, |nodes|);
    assert fields.Valid();
    var stamp := Stamp(tr, XidOf(e));
    var stamped := ImportFields(e, fields, fields.order, stamp);
    if !Imported(fields, k, e) && k == tr.typeField && k != "" && XidOf(e) in tr.typeValues && tr.typeValues[XidOf(e)] != "" {
      assert k in stamp.entries && stamp.entries[k] == Str(tr.typeValues[XidOf(e)]);
      assert stamped.entries[k] == stamp.entries[k];
    }
    ChildrenFrame(nodes, tr, e, e.children, stamped, k);
  }
}
