/** Laws of `updateDefinition` and `addChild` (src/Translator.ts). */
module TranslatorLaws {
  import opened Wrappers
  import opened OrderedMaps
  import opened Xml
  import opened Data
  import opened Codecs
  import opened Translators

  lemma BucketsGrowTrans<K>(a: OrderedMap<K, Bucket>, b: OrderedMap<K, Bucket>, c: OrderedMap<K, Bucket>)
    requires BucketsGrow(a, b) && BucketsGrow(b, c)
    ensures BucketsGrow(a, c)
  {
  }

  lemma TranslatorGrowsTrans(a: Translator, b: Translator, c: Translator)
    requires TranslatorGrows(a, b) && TranslatorGrows(b, c)
    ensures TranslatorGrows(a, c)
  {
    BucketsGrowTrans(a.importers, b.importers, c.importers);
    BucketsGrowTrans(a.exporters, b.exporters, c.exporters);
  }

  lemma GrowsTrans(a: seq<Translator>, b: seq<Translator>, c: seq<Translator>)
    requires Grows(a, b) && Grows(b, c)
    ensures Grows(a, c)
  {
    forall i | 0 <= i < |a| ensures TranslatorGrows(a[i], c[i]) {
      TranslatorGrowsTrans(a[i], b[i], c[i]);
    }
  }

  lemma GrowsRefl(a: seq<Translator>)
    ensures Grows(a, a)
  {
  }

  lemma MergeIntoGrows<K>(m: OrderedMap<K, Bucket>, k: K, ns: string, element: string, upd: Fields)
    requires upd.Valid()
    ensures BucketsGrow(m, MergeInto(m, k, ns, element, upd))
  {
    var r := MergeInto(m, k, ns, element, upd);
    if k in m.entries {
      assert FieldsAt(m, k) == m.entries[k].fields.entries;
    }
  }

  /** The importer map stays keyed by each bucket's own element. */
  lemma MergeIntoKeyed(m: OrderedMap<Xid, Bucket>, ns: string, element: string, upd: Fields)
    requires forall x <- m.entries.Keys :: m.entries[x].ns == x.ns && m.entries[x].element == x.name
    ensures var r := MergeInto(m, Xid(ns, element), ns, element, upd);
            forall x <- r.entries.Keys :: r.entries[x].ns == x.ns && r.entries[x].element == x.name
  {
  }

  /** `updateDefinition` keeps a translator well formed and loses nothing from it. */
  lemma UpdateDefinitionGrows(t: Translator, ns: string, element: string, typ: string, imp: Fields, exp: Fields, bound: nat)
    requires NodeWF(t, bound) && imp.Valid() && exp.Valid()
    ensures NodeWF(UpdateDefinition(t, ns, element, typ, imp, exp), bound)
    ensures TranslatorGrows(t, UpdateDefinition(t, ns, element, typ, imp, exp))
  {
    MergeIntoGrows(t.importers, Xid(ns, element), ns, element, imp);
    MergeIntoGrows(t.exporters, typ, ns, element, exp);
    MergeIntoKeyed(t.importers, ns, element, imp);
  }

  /** `a` and `b` agree on the type field, the type values and every typed exporter, in the same order. */
  ghost predicate SameTyped(a: Translator, b: Translator) {
    && a.typeField == b.typeField && a.typeValues == b.typeValues
    && (forall y :: y != "" ==> (y in a.exporters.entries <==> y in b.exporters.entries))
    && (forall y <- a.exporters.entries.Keys :: y != "" ==> b.exporters.entries[y] == a.exporters.entries[y])
    && TypedKeys(a.exporters.order) == TypedKeys(b.exporters.order)
  }

  /** The non-empty types among `keys`, in order. */
  ghost function TypedKeys(keys: seq<string>): (r: seq<string>)
    ensures forall y <- r :: y != "" && y in keys
    decreases |keys|
  {
    if |keys| == 0 then [] else (if keys[0] == "" then [] else [keys[0]]) + TypedKeys(keys[1..])
  }

  /** Appending a type to the keys appends it to the typed keys, unless it is the empty type. */
  lemma {:induction false} TypedKeysSnoc(keys: seq<string>, y: string)
    ensures TypedKeys(keys + [y]) == TypedKeys(keys) + (if y == "" then [] else [y])
    decreases |keys|
  {
    if |keys| == 0 {
      assert keys + [y] == [y];
    } else {
      assert (keys + [y])[1..] == keys[1..] + [y];
      TypedKeysSnoc(keys[1..], y);
    }
  }

  /** The field codecs of every typed exporter of `t`, in order, later ones winning: what a merge of `t` into itself adds to its untyped exporter. */
  ghost function TypedFields(t: Translator): map<string, Codec> {
    Flatten(t.exporters, TypedKeys(t.exporters.order))
  }

  /** `Flatten` over keys at which two maps hold the same field codecs. */
  lemma {:induction false} FlattenAgree<K>(a: OrderedMap<K, Bucket>, b: OrderedMap<K, Bucket>, keys: seq<K>)
    requires forall k <- keys :: FieldsAt(a, k) == FieldsAt(b, k)
    ensures Flatten(a, keys) == Flatten(b, keys)
    decreases |keys|
  {
    if |keys| > 0 {
      FlattenAgree(a, b, keys[1..]);
    }
  }

  /** Translators that agree on everything typed have the same typed fields. */
  lemma TypedFieldsSame(a: Translator, b: Translator)
    requires SameTyped(a, b)
    ensures TypedFields(a) == TypedFields(b)
  {
    var keys := TypedKeys(a.exporters.order);
    forall y <- keys ensures FieldsAt(a.exporters, y) == FieldsAt(b.exporters, y) {
      assert y != "";
    }
    FlattenAgree(a.exporters, b.exporters, keys);
  }

  /** The field codecs of the buckets at `keys`, later buckets winning. */
  ghost function Flatten<K>(m: OrderedMap<K, Bucket>, keys: seq<K>): map<string, Codec>
    decreases |keys|
  {
    if |keys| == 0 then map[] else FieldsAt(m, keys[0]) + Flatten(m, keys[1..])
  }

  /**
   The importer half of a merge into an existing child: `dst` ends up with the
   union of its own and `src`'s importer fields for every listed element, the
   fields of `src` winning, and nothing typed changes.
   */
  lemma {:induction false} FoldImportersEffect(nodes: seq<Translator>, src: TId, dst: TId, keys: seq<Xid>, bound: nat)
    requires src < |nodes| && dst < |nodes|
    requires NodeWF(nodes[src], bound) && NodeWF(nodes[dst], bound)
    ensures var r := FoldImporters(nodes, src, dst, keys);
            && NodeWF(r[dst], bound) && TranslatorGrows(nodes[dst], r[dst]) && SameTyped(nodes[dst], r[dst])
            && FieldsAt(r[dst].exporters, "") == FieldsAt(nodes[dst].exporters, "")
            && (forall x :: x in r[dst].importers.entries <==>
                              x in nodes[dst].importers.entries || (x in keys && x in nodes[src].importers.entries))
            && (forall x :: FieldsAt(r[dst].importers, x) ==
                              if x in keys then FieldsAt(nodes[dst].importers, x) + FieldsAt(nodes[src].importers, x)
                              else FieldsAt(nodes[dst].importers, x))
    decreases |keys|
  {
    if |keys| == 0 {
      return;
    }
    var k := keys[0];
    var rest := keys[1..];
    var r := FoldImporters(nodes, src, dst, keys);
    var next := ImporterStep(nodes, src, dst, k, bound);
    assert r == FoldImporters(next, src, dst, rest);
    FoldImportersEffect(next, src, dst, rest, bound);
    TranslatorGrowsTrans(nodes[dst], next[dst], r[dst]);
    assert FieldsAt(r[dst].exporters, "") == FieldsAt(nodes[dst].exporters, "");
    CombineImporters(nodes[dst].importers, next[dst].importers, r[dst].importers, nodes[src].importers, k, keys);
  }

  /** The arena after one step of `FoldImporters`, with what that step does to `dst`. */
  lemma ImporterStep(nodes: seq<Translator>, src: TId, dst: TId, k: Xid, bound: nat) returns (next: seq<Translator>)
    requires src < |nodes| && dst < |nodes|
    requires NodeWF(nodes[src], bound) && NodeWF(nodes[dst], bound)
    ensures var imp := nodes[src].importers;
            next == if k in imp.entries then
                      var b := imp.entries[k];
                      nodes[dst := UpdateDefinition(nodes[dst], b.ns, b.element, "", b.fields, Empty())]
                    else nodes
    ensures |next| == |nodes|
    ensures NodeWF(next[src], bound) && NodeWF(next[dst], bound)
    ensures TranslatorGrows(nodes[dst], next[dst]) && SameTyped(nodes[dst], next[dst])
    ensures FieldsAt(next[dst].exporters, "") == FieldsAt(nodes[dst].exporters, "")
    ensures forall x :: x in next[dst].importers.entries <==>
                          x in nodes[dst].importers.entries || (x == k && x in nodes[src].importers.entries)
    ensures forall x :: FieldsAt(next[dst].importers, x) ==
                          if x == k then FieldsAt(nodes[dst].importers, x) + FieldsAt(nodes[src].importers, x)
                          else FieldsAt(nodes[dst].importers, x)
    ensures forall x :: FieldsAt(next[src].importers, x) == FieldsAt(nodes[src].importers, x)
    ensures forall x :: x in next[src].importers.entries <==> x in nodes[src].importers.entries
  {
    var imp := nodes[src].importers;
    if k in imp.entries {
      next := ImporterHit(nodes, src, dst, k, bound);
    } else {
      next := nodes;
      assert FieldsAt(imp, k) == map[];
    }
  }

  /** `ImporterStep` when `src` has an importer of `k`. */
  lemma ImporterHit(nodes: seq<Translator>, src: TId, dst: TId, k: Xid, bound: nat) returns (next: seq<Translator>)
    requires src < |nodes| && dst < |nodes|
    requires NodeWF(nodes[src], bound) && NodeWF(nodes[dst], bound)
    requires k in nodes[src].importers.entries
    ensures var b := nodes[src].importers.entries[k];
            next == nodes[dst := UpdateDefinition(nodes[dst], b.ns, b.element, "", b.fields, Empty())]
    ensures |next| == |nodes|
    ensures NodeWF(next[src], bound) && NodeWF(next[dst], bound)
    ensures TranslatorGrows(nodes[dst], next[dst]) && SameTyped(nodes[dst], next[dst])
    ensures FieldsAt(next[dst].exporters, "") == FieldsAt(nodes[dst].exporters, "")
    ensures forall x :: x in next[dst].importers.entries <==> x in nodes[dst].importers.entries || x == k
    ensures forall x :: FieldsAt(next[dst].importers, x) ==
                          if x == k then FieldsAt(nodes[dst].importers, x) + FieldsAt(nodes[src].importers, x)
                          else FieldsAt(nodes[dst].importers, x)
    ensures forall x :: FieldsAt(next[src].importers, x) == FieldsAt(nodes[src].importers, x)
    ensures forall x :: x in next[src].importers.entries <==> x in nodes[src].importers.entries
  {
    var u := ImporterUpdate(nodes[dst], nodes[src].importers, k, bound);
    next := nodes[dst := u];
    assert next[dst] == u;
    SourceUnchanged(nodes, src, dst, u, k);
  }

  /** Re-declaring the importer `k` of `imp` on `t`. */
  lemma ImporterUpdate(t: Translator, imp: OrderedMap<Xid, Bucket>, k: Xid, bound: nat) returns (u: Translator)
    requires NodeWF(t, bound) && BucketsValid(imp) && k in imp.entries
    requires imp.entries[k].ns == k.ns && imp.entries[k].element == k.name
    ensures var b := imp.entries[k]; u == UpdateDefinition(t, b.ns, b.element, "", b.fields, Empty())
    ensures NodeWF(u, bound) && TranslatorGrows(t, u) && SameTyped(t, u)
    ensures FieldsAt(u.exporters, "") == FieldsAt(t.exporters, "")
    ensures forall x :: x in u.importers.entries <==> x in t.importers.entries || x == k
    ensures forall x :: FieldsAt(u.importers, x) == if x == k then FieldsAt(t.importers, x) + FieldsAt(imp, x) else FieldsAt(t.importers, x)
  {
    var b := imp.entries[k];
    assert FieldsAt(imp, k) == b.fields.entries;
    u := UpdateDefinition(t, b.ns, b.element, "", b.fields, Empty());
    UpdateDefinitionGrows(t, b.ns, b.element, "", b.fields, Empty(), bound);
    UntypedKeepsTyped(t, b.ns, b.element, b.fields, Empty());
    assert FieldsAt(t.exporters, "") + map[] == FieldsAt(t.exporters, "");
    forall x ensures FieldsAt(u.importers, x) == if x == k then FieldsAt(t.importers, x) + FieldsAt(imp, x) else FieldsAt(t.importers, x) {
      if x != k && x in t.importers.entries {
        assert u.importers.entries[x] == t.importers.entries[x];
      }
    }
  }

  /** An untyped `updateDefinition` changes no type value, type field or typed exporter. */
  lemma UntypedKeepsTyped(t: Translator, ns: string, element: string, imp: Fields, exp: Fields)
    ensures SameTyped(t, UpdateDefinition(t, ns, element, "", imp, exp))
  {
    var u := UpdateDefinition(t, ns, element, "", imp, exp);
    forall y <- t.exporters.entries.Keys | y != "" ensures u.exporters.entries[y] == t.exporters.entries[y] {
    }
    TypedKeysSnoc(t.exporters.order, "");
  }

  /** Chains one merge step at `k` with the merge of the remaining keys. */
  lemma CombineImporters(a: OrderedMap<Xid, Bucket>, b: OrderedMap<Xid, Bucket>, c: OrderedMap<Xid, Bucket>,
                         s: OrderedMap<Xid, Bucket>, k: Xid, keys: seq<Xid>)
    requires |keys| > 0 && keys[0] == k
    requires forall x :: x in b.entries <==> x in a.entries || (x == k && x in s.entries)
    requires forall x :: FieldsAt(b, x) == if x == k then FieldsAt(a, x) + FieldsAt(s, x) else FieldsAt(a, x)
    requires forall x :: x in c.entries <==> x in b.entries || (x in keys[1..] && x in s.entries)
    requires forall x :: FieldsAt(c, x) == if x in keys[1..] then FieldsAt(b, x) + FieldsAt(s, x) else FieldsAt(b, x)
    ensures forall x :: x in c.entries <==> x in a.entries || (x in keys && x in s.entries)
    ensures forall x :: FieldsAt(c, x) == if x in keys then FieldsAt(a, x) + FieldsAt(s, x) else FieldsAt(a, x)
  {
    assert keys == [k] + keys[1..];
    forall x ensures FieldsAt(c, x) == if x in keys then FieldsAt(a, x) + FieldsAt(s, x) else FieldsAt(a, x) {
      if x == k && x in keys[1..] {
        var m := FieldsAt(a, x) + FieldsAt(s, x);
        assert m + FieldsAt(s, x) == m;
      }
    }
  }

  /** Re-declaring one of its own importers on a node changes none of its field maps. */
  lemma SourceUnchanged(nodes: seq<Translator>, src: TId, dst: TId, u: Translator, k: Xid)
    requires src < |nodes| && dst < |nodes|
    requires forall x :: x in u.importers.entries <==> x in nodes[dst].importers.entries || x == k
    requires forall x :: FieldsAt(u.importers, x) ==
               if x == k then FieldsAt(nodes[dst].importers, x) + FieldsAt(nodes[src].importers, x)
               else FieldsAt(nodes[dst].importers, x)
    requires k in nodes[src].importers.entries
    ensures forall x :: FieldsAt(nodes[dst := u][src].importers, x) == FieldsAt(nodes[src].importers, x)
    ensures forall x :: x in nodes[dst := u][src].importers.entries <==> x in nodes[src].importers.entries
  {
    if src == dst {
      forall x ensures FieldsAt(u.importers, x) == FieldsAt(nodes[src].importers, x) {
        if x == k {
          var m := FieldsAt(nodes[src].importers, x);
          assert m + m == m;
        }
      }
    }
  }

  /**
   The exporter half of a merge into an existing child: the fields of every
   listed exporter of `src` land in the untyped exporter of `dst`, later ones
   winning, while importer fields and everything typed stay as they were.
   When `src` is `dst` itself, its typed exporters land in its own untyped
   one, and re-declaring the untyped exporter onto itself adds nothing.
   */
  lemma {:induction false} FoldExportersEffect(nodes: seq<Translator>, src: TId, dst: TId, keys: seq<string>, bound: nat)
    requires src < |nodes| && dst < |nodes|
    requires NodeWF(nodes[src], bound) && NodeWF(nodes[dst], bound)
    ensures var r := FoldExporters(nodes, src, dst, keys);
            && NodeWF(r[dst], bound) && TranslatorGrows(nodes[dst], r[dst]) && SameTyped(nodes[dst], r[dst])
            && (forall x :: FieldsAt(r[dst].importers, x) == FieldsAt(nodes[dst].importers, x))
            && (src != dst ==> FieldsAt(r[dst].exporters, "") == FieldsAt(nodes[dst].exporters, "") + Flatten(nodes[src].exporters, keys))
            && (src == dst ==> FieldsAt(r[dst].exporters, "") == FieldsAt(nodes[dst].exporters, "") + Flatten(nodes[src].exporters, TypedKeys(keys)))
    decreases |keys|
  {
    if |keys| == 0 {
      return;
    }
    if src == dst {
      FoldExportersSelf(nodes, src, keys, bound);
    }
    var y := keys[0];
    var rest := keys[1..];
    var r := FoldExporters(nodes, src, dst, keys);
    var next := ExporterStep(nodes, src, dst, y, bound);
    assert r == FoldExporters(next, src, dst, rest);
    FoldExportersEffect(next, src, dst, rest, bound);
    TranslatorGrowsTrans(nodes[dst], next[dst], r[dst]);
    CombineExporters(nodes[dst], next[dst], r[dst], nodes[src].exporters, keys, src != dst);
  }

  /**
   Merging `src` into itself: each listed typed exporter lands in the untyped
   exporter, later ones winning; re-declaring the untyped exporter onto itself
   adds nothing.
   */
  lemma {:induction false} FoldExportersSelf(nodes: seq<Translator>, s: TId, keys: seq<string>, bound: nat)
    requires s < |nodes| && NodeWF(nodes[s], bound)
    ensures var r := FoldExporters(nodes, s, s, keys);
            FieldsAt(r[s].exporters, "") == FieldsAt(nodes[s].exporters, "") + Flatten(nodes[s].exporters, TypedKeys(keys))
    decreases |keys|
  {
    if |keys| == 0 {
      return;
    }
    var y := keys[0];
    var rest := keys[1..];
    var next := ExporterStep(nodes, s, s, y, bound);
    assert FoldExporters(nodes, s, s, keys) == FoldExporters(next, s, s, rest);
    FoldExportersSelf(next, s, rest, bound);
    SelfStep(nodes[s], next[s], rest);
    SelfCombine(nodes[s].exporters, FieldsAt(nodes[s].exporters, ""), keys, FieldsAt(FoldExporters(nodes, s, s, keys)[s].exporters, ""));
  }

  /** Chains one self-merge step with the remaining ones. */
  lemma SelfCombine(m: OrderedMap<string, Bucket>, e: map<string, Codec>, keys: seq<string>, c: map<string, Codec>)
    requires |keys| > 0 && FieldsAt(m, "") == e
    requires c == (e + FieldsAt(m, keys[0])) + Flatten(m, TypedKeys(keys[1..]))
    ensures c == e + Flatten(m, TypedKeys(keys))
  {
    var y := keys[0];
    var tail := Flatten(m, TypedKeys(keys[1..]));
    if y == "" {
      assert e + e == e;
      assert TypedKeys(keys) == TypedKeys(keys[1..]);
    } else {
      assert TypedKeys(keys) == [y] + TypedKeys(keys[1..]);
      assert Flatten(m, [y] + TypedKeys(keys[1..])) == FieldsAt(m, y) + tail;
      UnionAssoc(e, FieldsAt(m, y), tail);
    }
  }

  /** One self-merge step keeps the typed fields the remaining steps will read. */
  lemma SelfStep(a: Translator, b: Translator, rest: seq<string>)
    requires SameTyped(a, b)
    ensures Flatten(b.exporters, TypedKeys(rest)) == Flatten(a.exporters, TypedKeys(rest))
  {
    forall y <- TypedKeys(rest) ensures FieldsAt(b.exporters, y) == FieldsAt(a.exporters, y) {
      assert y != "";
    }
    FlattenAgree(b.exporters, a.exporters, TypedKeys(rest));
  }

  /** The untyped exporter keeps its element through the exporter merge. */
  lemma {:induction false} FoldExportersHead(nodes: seq<Translator>, src: TId, dst: TId, keys: seq<string>, bound: nat)
    requires src < |nodes| && dst < |nodes|
    requires NodeWF(nodes[src], bound) && NodeWF(nodes[dst], bound)
    requires "" in nodes[dst].exporters.entries
    ensures var r := FoldExporters(nodes, src, dst, keys);
            && "" in r[dst].exporters.entries
            && r[dst].exporters.entries[""].ns == nodes[dst].exporters.entries[""].ns
            && r[dst].exporters.entries[""].element == nodes[dst].exporters.entries[""].element
    decreases |keys|
  {
    if |keys| > 0 {
      var next := ExporterStep(nodes, src, dst, keys[0], bound);
      assert FoldExporters(nodes, src, dst, keys) == FoldExporters(next, src, dst, keys[1..]);
      FoldExportersHead(next, src, dst, keys[1..], bound);
    }
  }

  /**
   The untyped exporter keeps its element through the importer merge; when
   `dst` has none, the first importer of `src` creates it, for that importer's
   element.
   */
  lemma {:induction false} FoldImportersHead(nodes: seq<Translator>, src: TId, dst: TId, keys: seq<Xid>, bound: nat)
    requires src < |nodes| && dst < |nodes|
    requires NodeWF(nodes[src], bound) && NodeWF(nodes[dst], bound)
    ensures var r := FoldImporters(nodes, src, dst, keys);
            && ("" in nodes[dst].exporters.entries ==>
                  && "" in r[dst].exporters.entries
                  && r[dst].exporters.entries[""].ns == nodes[dst].exporters.entries[""].ns
                  && r[dst].exporters.entries[""].element == nodes[dst].exporters.entries[""].element)
            && ("" !in nodes[dst].exporters.entries && |keys| > 0 && keys[0] in nodes[src].importers.entries ==>
                  && "" in r[dst].exporters.entries
                  && r[dst].exporters.entries[""].ns == keys[0].ns
                  && r[dst].exporters.entries[""].element == keys[0].name)
    decreases |keys|
  {
    if |keys| > 0 {
      var next := ImporterStep(nodes, src, dst, keys[0], bound);
      assert FoldImporters(nodes, src, dst, keys) == FoldImporters(next, src, dst, keys[1..]);
      FoldImportersHead(next, src, dst, keys[1..], bound);
    }
  }

  /** Chains one exporter step at `keys[0]` with the steps for the remaining keys. */
  lemma CombineExporters(a: Translator, b: Translator, c: Translator, s: OrderedMap<string, Bucket>, keys: seq<string>, apart: bool)
    requires |keys| > 0
    requires SameTyped(a, b) && SameTyped(b, c)
    requires forall x :: FieldsAt(b.importers, x) == FieldsAt(a.importers, x)
    requires forall x :: FieldsAt(c.importers, x) == FieldsAt(b.importers, x)
    requires FieldsAt(b.exporters, "") == FieldsAt(a.exporters, "") + FieldsAt(s, keys[0])
    requires apart ==> FieldsAt(c.exporters, "") == FieldsAt(b.exporters, "") + Flatten(s, keys[1..])
    ensures SameTyped(a, c)
    ensures forall x :: FieldsAt(c.importers, x) == FieldsAt(a.importers, x)
    ensures apart ==> FieldsAt(c.exporters, "") == FieldsAt(a.exporters, "") + Flatten(s, keys)
  {
    if apart {
      assert Flatten(s, keys) == FieldsAt(s, keys[0]) + Flatten(s, keys[1..]);
      UnionAssoc(FieldsAt(a.exporters, ""), FieldsAt(s, keys[0]), Flatten(s, keys[1..]));
    }
  }

  /** The arena after one step of `FoldExporters`, with what that step does to `dst`. */
  lemma ExporterStep(nodes: seq<Translator>, src: TId, dst: TId, y: string, bound: nat) returns (next: seq<Translator>)
    requires src < |nodes| && dst < |nodes|
    requires NodeWF(nodes[src], bound) && NodeWF(nodes[dst], bound)
    ensures var exp := nodes[src].exporters;
            next == if y in exp.entries then
                      var b := exp.entries[y];
                      nodes[dst := UpdateDefinition(nodes[dst], b.ns, b.element, "", Empty(), b.fields)]
                    else nodes
    ensures |next| == |nodes|
    ensures NodeWF(next[src], bound) && NodeWF(next[dst], bound)
    ensures TranslatorGrows(nodes[dst], next[dst]) && SameTyped(nodes[dst], next[dst])
    ensures forall x :: FieldsAt(next[dst].importers, x) == FieldsAt(nodes[dst].importers, x)
    ensures src != dst ==> next[src] == nodes[src]
    ensures FieldsAt(next[dst].exporters, "") == FieldsAt(nodes[dst].exporters, "") + FieldsAt(nodes[src].exporters, y)
  {
    var exp := nodes[src].exporters;
    if y in exp.entries {
      var u := ExporterUpdate(nodes[dst], exp, y, bound);
      next := nodes[dst := u];
    } else {
      next := nodes;
      assert FieldsAt(exp, y) == map[];
      assert FieldsAt(nodes[dst].exporters, "") + map[] == FieldsAt(nodes[dst].exporters, "");
    }
  }

  /** Re-declaring the exporter `y` of `exp` on `t`, untyped. */
  lemma ExporterUpdate(t: Translator, exp: OrderedMap<string, Bucket>, y: string, bound: nat) returns (u: Translator)
    requires NodeWF(t, bound) && BucketsValid(exp) && y in exp.entries
    ensures var b := exp.entries[y]; u == UpdateDefinition(t, b.ns, b.element, "", Empty(), b.fields)
    ensures NodeWF(u, bound) && TranslatorGrows(t, u) && SameTyped(t, u)
    ensures forall x :: FieldsAt(u.importers, x) == FieldsAt(t.importers, x)
    ensures FieldsAt(u.exporters, "") == FieldsAt(t.exporters, "") + FieldsAt(exp, y)
  {
    var b := exp.entries[y];
    assert FieldsAt(exp, y) == b.fields.entries;
    u := UpdateDefinition(t, b.ns, b.element, "", Empty(), b.fields);
    UpdateDefinitionGrows(t, b.ns, b.element, "", Empty(), b.fields, bound);
    UntypedKeepsTyped(t, b.ns, b.element, Empty(), b.fields);
    forall x ensures FieldsAt(u.importers, x) == FieldsAt(t.importers, x) {
      if x == Xid(b.ns, b.element) {
        assert FieldsAt(t.importers, x) + map[] == FieldsAt(t.importers, x);
      } else if x in t.importers.entries {
        assert u.importers.entries[x] == t.importers.entries[x];
      }
    }
  }

  /** Replacing one node by a well-formed one that grows from it keeps the arena well formed and growing. */
  lemma SetNode(nodes: seq<Translator>, i: TId, t: Translator)
    requires WellFormed(nodes) && i < |nodes| && NodeWF(t, |nodes|) && TranslatorGrows(nodes[i], t)
    ensures WellFormed(nodes[i := t]) && Grows(nodes, nodes[i := t])
  {
    var r := nodes[i := t];
    forall j | 0 <= j < |nodes| ensures NodeWF(r[j], |r|) && TranslatorGrows(nodes[j], r[j]) {
      if j != i {
        assert r[j] == nodes[j];
        TranslatorGrowsRefl(nodes[j]);
      }
    }
  }

  lemma TranslatorGrowsRefl(t: Translator)
    ensures TranslatorGrows(t, t)
  {
  }

  /** The arena after a fold differs from the original only at `dst`. */
  lemma FoldIsSet(nodes: seq<Translator>, r: seq<Translator>, dst: TId)
    requires dst < |nodes| && |r| == |nodes|
    requires forall j :: 0 <= j < |nodes| && j != dst ==> r[j] == nodes[j]
    ensures r == nodes[dst := r[dst]]
  {
  }

  /** The same buckets, type field and type values. */
  ghost predicate SameBuckets(a: Translator, b: Translator) {
    a.importers == b.importers && a.exporters == b.exporters && a.typeField == b.typeField && a.typeValues == b.typeValues
  }

  /** First phase of `addChild` on a taken name: only the array flag of the edge may change. */
  lemma Relink(nodes: seq<Translator>, parent: TId, name: string, multiple: Option<bool>) returns (n1: seq<Translator>)
    requires WellFormed(nodes) && parent < |nodes| && name in nodes[parent].children
    ensures var p := nodes[parent];
            n1 == nodes[parent := p.(children := p.children[name := Child(p.children[name].node, multiple.GetOr(p.children[name].multiple))])]
    ensures WellFormed(n1) && Grows(nodes, n1) && |n1| == |nodes|
    ensures forall i :: 0 <= i < |nodes| ==> SameBuckets(nodes[i], n1[i])
    ensures forall j :: 0 <= j < |nodes| && j != parent ==> n1[j] == nodes[j]
  {
    var p := nodes[parent];
    var t := p.(children := p.children[name := Child(p.children[name].node, multiple.GetOr(p.children[name].multiple))]);
    assert NodeWF(t, |nodes|);
    SetNode(nodes, parent, t);
    n1 := nodes[parent := t];
  }

  /** Second phase: the importers of `src` are re-declared on `dst` and indexed under `name`. */
  lemma AbsorbImporters(n1: seq<Translator>, parent: TId, name: string, src: TId, dst: TId) returns (n3: seq<Translator>)
    requires WellFormed(n1) && parent < |n1| && src < |n1| && dst < |n1| && name in n1[parent].children
    ensures var n2 := FoldImporters(n1, src, dst, n1[src].importers.order);
            n3 == n2[parent := n2[parent].(childrenIndex := n2[parent].childrenIndex + IndexAll(n1[src].importers, name))]
    ensures WellFormed(n3) && Grows(n1, n3)
    ensures SameTyped(n1[dst], n3[dst]) && FieldsAt(n3[dst].exporters, "") == FieldsAt(n1[dst].exporters, "")
    ensures n1[src].importers.entries.Keys <= n3[dst].importers.entries.Keys
    ensures forall x :: FieldsAt(n3[dst].importers, x) == FieldsAt(n1[dst].importers, x) + FieldsAt(n1[src].importers, x)
    ensures forall x <- n1[src].importers.entries.Keys :: x in n3[parent].childrenIndex && n3[parent].childrenIndex[x] == name
    ensures forall j :: 0 <= j < |n1| && j != parent && j != dst ==> n3[j] == n1[j]
    ensures src != dst ==> n3[src].exporters == n1[src].exporters
    ensures parent != dst ==> SameBuckets(n1[parent], n3[parent])
  {
    var n2 := ImportersInto(n1, src, dst);
    n3 := IndexUnder(n2, parent, name, n1[src].importers);
    assert SameBuckets(n2[dst], n3[dst]);
    assert src != dst ==> SameBuckets(n1[src], n3[src]);
    GrowsTrans(n1, n2, n3);
  }

  /** `FoldImporters` over all importers of `src`, at the level of the arena. */
  lemma ImportersInto(n1: seq<Translator>, src: TId, dst: TId) returns (n2: seq<Translator>)
    requires WellFormed(n1) && src < |n1| && dst < |n1|
    ensures n2 == FoldImporters(n1, src, dst, n1[src].importers.order)
    ensures WellFormed(n2) && Grows(n1, n2) && |n2| == |n1|
    ensures SameTyped(n1[dst], n2[dst]) && FieldsAt(n2[dst].exporters, "") == FieldsAt(n1[dst].exporters, "")
    ensures n1[src].importers.entries.Keys <= n2[dst].importers.entries.Keys
    ensures forall x :: FieldsAt(n2[dst].importers, x) == FieldsAt(n1[dst].importers, x) + FieldsAt(n1[src].importers, x)
    ensures forall j :: 0 <= j < |n1| && j != dst ==> n2[j] == n1[j]
  {
    var keys := n1[src].importers.order;
    assert NodeWF(n1[src], |n1|) && NodeWF(n1[dst], |n1|);
    n2 := FoldImporters(n1, src, dst, keys);
    FoldImportersEffect(n1, src, dst, keys, |n1|);
    FoldIsSet(n1, n2, dst);
    SetNode(n1, dst, n2[dst]);
    UnionOverAll(n1[dst].importers, n2[dst].importers, n1[src].importers);
  }

  /** A merge over every key of `s` is a plain union. */
  lemma UnionOverAll(a: OrderedMap<Xid, Bucket>, b: OrderedMap<Xid, Bucket>, s: OrderedMap<Xid, Bucket>)
    requires s.Valid()
    requires forall x :: FieldsAt(b, x) == if x in s.order then FieldsAt(a, x) + FieldsAt(s, x) else FieldsAt(a, x)
    ensures forall x :: FieldsAt(b, x) == FieldsAt(a, x) + FieldsAt(s, x)
  {
    forall x ensures FieldsAt(b, x) == FieldsAt(a, x) + FieldsAt(s, x) {
      if x !in s.order {
        assert FieldsAt(s, x) == map[];
      }
    }
  }

  /** Points every element of `imp` at the child `name` of `parent`. */
  lemma IndexUnder(n2: seq<Translator>, parent: TId, name: string, imp: OrderedMap<Xid, Bucket>) returns (n3: seq<Translator>)
    requires WellFormed(n2) && parent < |n2| && name in n2[parent].children
    ensures n3 == n2[parent := n2[parent].(childrenIndex := n2[parent].childrenIndex + IndexAll(imp, name))]
    ensures WellFormed(n3) && Grows(n2, n3) && |n3| == |n2|
    ensures forall j :: 0 <= j < |n2| ==> SameBuckets(n2[j], n3[j])
    ensures forall j :: 0 <= j < |n2| && j != parent ==> n3[j] == n2[j]
    ensures forall x <- imp.entries.Keys :: x in n3[parent].childrenIndex && n3[parent].childrenIndex[x] == name
  {
    var t := n2[parent].(childrenIndex := n2[parent].childrenIndex + IndexAll(imp, name));
    assert NodeWF(t, |n2|);
    SetNode(n2, parent, t);
    n3 := n2[parent := t];
  }

  /** Third phase: the exporters of `src` are re-declared on `dst`, untyped. */
  lemma AbsorbExporters(n3: seq<Translator>, src: TId, dst: TId) returns (r: seq<Translator>)
    requires WellFormed(n3) && src < |n3| && dst < |n3|
    ensures r == FoldExporters(n3, src, dst, n3[src].exporters.order)
    ensures WellFormed(r) && Grows(n3, r)
    ensures SameTyped(n3[dst], r[dst]) && r[dst].childrenIndex == n3[dst].childrenIndex
    ensures forall x :: FieldsAt(r[dst].importers, x) == FieldsAt(n3[dst].importers, x)
    ensures n3[dst].importers.entries.Keys <= r[dst].importers.entries.Keys
    ensures src != dst ==> FieldsAt(r[dst].exporters, "") ==
                             FieldsAt(n3[dst].exporters, "") + Flatten(n3[src].exporters, n3[src].exporters.order)
    ensures forall j :: 0 <= j < |n3| && j != dst ==> r[j] == n3[j]
  {
    r := FoldExporters(n3, src, dst, n3[src].exporters.order);
    FoldExportersEffect(n3, src, dst, n3[src].exporters.order, |n3|);
    FoldIsSet(n3, r, dst);
    SetNode(n3, dst, r[dst]);
  }

  /**
   `addChild` under a name that is taken: the existing translator `dst` gains
   every importer of `src`, with the union of both field maps (`src`
   winning); when it is another translator, the exporters of `src` are merged
   into its untyped exporter in order, and when it is `src` itself, its own
   typed exporters are; the untyped exporter keeps its element, or is created
   for the first importer of `src`; typed exporters, type values and the
   type field of `dst` do not change; the elements of `src` are indexed under
   `name`; the arena stays well formed and only grows.
   */
  lemma AddChildAbsorbs(nodes: seq<Translator>, parent: TId, name: string, src: TId, multiple: Option<bool>)
    requires WellFormed(nodes) && parent < |nodes| && src < |nodes| && name in nodes[parent].children
    ensures var dst := nodes[parent].children[name].node;
            var r := AddChild(nodes, parent, name, src, multiple);
            && WellFormed(r) && Grows(nodes, r)
            && SameTyped(nodes[dst], r[dst])
            && nodes[src].importers.entries.Keys <= r[dst].importers.entries.Keys
            && (forall x :: FieldsAt(r[dst].importers, x) == FieldsAt(nodes[dst].importers, x) + FieldsAt(nodes[src].importers, x))
            && (src != dst ==> FieldsAt(r[dst].exporters, "") ==
                                 FieldsAt(nodes[dst].exporters, "") + Flatten(nodes[src].exporters, nodes[src].exporters.order))
            && (forall x <- nodes[src].importers.entries.Keys :: x in r[parent].childrenIndex && r[parent].childrenIndex[x] == name)
            && (forall j :: 0 <= j < |nodes| && j != parent && j != dst ==> r[j] == nodes[j])
            && (parent != dst ==> SameBuckets(nodes[parent], r[parent]))
            && (src == dst ==> FieldsAt(r[dst].exporters, "") == FieldsAt(nodes[dst].exporters, "") + TypedFields(nodes[src]))
            && ("" in nodes[dst].exporters.entries ==>
                  && "" in r[dst].exporters.entries
                  && r[dst].exporters.entries[""].ns == nodes[dst].exporters.entries[""].ns
                  && r[dst].exporters.entries[""].element == nodes[dst].exporters.entries[""].element)
            && ("" !in nodes[dst].exporters.entries && |nodes[src].importers.order| > 0 ==>
                  && "" in r[dst].exporters.entries
                  && r[dst].exporters.entries[""].ns == nodes[src].importers.order[0].ns
                  && r[dst].exporters.entries[""].element == nodes[src].importers.order[0].name)
  {
    var r := Absorbed(nodes, parent, name, src, multiple);
    if src == nodes[parent].children[name].node {
      SelfAbsorbs(nodes, parent, name, src, multiple);
    }
    AbsorbHead(nodes, parent, name, src, multiple);
  }

  /** The arena `addChild` leaves on a taken name, with what it did. */
  lemma Absorbed(nodes: seq<Translator>, parent: TId, name: string, src: TId, multiple: Option<bool>) returns (r: seq<Translator>)
    requires WellFormed(nodes) && parent < |nodes| && src < |nodes| && name in nodes[parent].children
    ensures r == AddChild(nodes, parent, name, src, multiple)
    ensures var dst := nodes[parent].children[name].node;
            && WellFormed(r) && Grows(nodes, r)
            && SameTyped(nodes[dst], r[dst])
            && nodes[src].importers.entries.Keys <= r[dst].importers.entries.Keys
            && (forall x :: FieldsAt(r[dst].importers, x) == FieldsAt(nodes[dst].importers, x) + FieldsAt(nodes[src].importers, x))
            && (src != dst ==> FieldsAt(r[dst].exporters, "") ==
                                 FieldsAt(nodes[dst].exporters, "") + Flatten(nodes[src].exporters, nodes[src].exporters.order))
            && (forall x <- nodes[src].importers.entries.Keys :: x in r[parent].childrenIndex && r[parent].childrenIndex[x] == name)
            && (forall j :: 0 <= j < |nodes| && j != parent && j != dst ==> r[j] == nodes[j])
            && (parent != dst ==> SameBuckets(nodes[parent], r[parent]))
  {
    var dst := nodes[parent].children[name].node;
    var n1, n3 := ImportPhases(nodes, parent, name, src, multiple);
    r := AbsorbExporters(n3, src, dst);
    TakenUnfolds(nodes, parent, name, src, multiple, n1, n3, r);
    GrowsTrans(nodes, n3, r);
    AbsorbCombine(nodes, n3, r, parent, name, src, dst);
  }

  /**
   `addChild` under a name whose existing translator is `src` itself: every
   typed exporter of `src` is merged into its untyped exporter, in order.
   */
  lemma SelfAbsorbs(nodes: seq<Translator>, parent: TId, name: string, src: TId, multiple: Option<bool>)
    requires WellFormed(nodes) && parent < |nodes| && src < |nodes| && name in nodes[parent].children
    requires nodes[parent].children[name].node == src
    ensures var r := AddChild(nodes, parent, name, src, multiple);
            FieldsAt(r[src].exporters, "") == FieldsAt(nodes[src].exporters, "") + TypedFields(nodes[src])
  {
    var n1, n3 := ImportPhases(nodes, parent, name, src, multiple);
    var r := AbsorbExporters(n3, src, src);
    TakenUnfolds(nodes, parent, name, src, multiple, n1, n3, r);
    assert NodeWF(n3[src], |n3|);
    FoldExportersSelf(n3, src, n3[src].exporters.order, |n3|);
    TypedFieldsSame(nodes[src], n3[src]);
  }

  /**
   `addChild` under a taken name keeps the element of the untyped exporter of
   the existing translator `dst`; when `dst` has none and `src` has an
   importer, one is created for the element of the first importer of `src`.
   */
  lemma AbsorbHead(nodes: seq<Translator>, parent: TId, name: string, src: TId, multiple: Option<bool>)
    requires WellFormed(nodes) && parent < |nodes| && src < |nodes| && name in nodes[parent].children
    ensures var dst := nodes[parent].children[name].node;
            var r := AddChild(nodes, parent, name, src, multiple);
            && ("" in nodes[dst].exporters.entries ==>
                  && "" in r[dst].exporters.entries
                  && r[dst].exporters.entries[""].ns == nodes[dst].exporters.entries[""].ns
                  && r[dst].exporters.entries[""].element == nodes[dst].exporters.entries[""].element)
            && ("" !in nodes[dst].exporters.entries && |nodes[src].importers.order| > 0 ==>
                  && "" in r[dst].exporters.entries
                  && r[dst].exporters.entries[""].ns == nodes[src].importers.order[0].ns
                  && r[dst].exporters.entries[""].element == nodes[src].importers.order[0].name)
  {
    var dst := nodes[parent].children[name].node;
    var n1 := Relink(nodes, parent, name, multiple);
    var n3 := AbsorbImporters(n1, parent, name, src, dst);
    var r := AbsorbExporters(n3, src, dst);
    TakenUnfolds(nodes, parent, name, src, multiple, n1, n3, r);
    assert nodes[dst].exporters == n1[dst].exporters && nodes[src].importers == n1[src].importers;
    ImportersHead(n1, parent, name, src, dst, n3);
    if "" in n3[dst].exporters.entries {
      assert NodeWF(n3[src], |n3|) && NodeWF(n3[dst], |n3|);
      FoldExportersHead(n3, src, dst, n3[src].exporters.order, |n3|);
    }
  }

  /** The importer phase of a merge keeps the untyped exporter's element, or creates it for the first importer of `src`. */
  lemma ImportersHead(n1: seq<Translator>, parent: TId, name: string, src: TId, dst: TId, n3: seq<Translator>)
    requires WellFormed(n1) && parent < |n1| && src < |n1| && dst < |n1|
    requires var n2 := FoldImporters(n1, src, dst, n1[src].importers.order);
             n3 == n2[parent := n2[parent].(childrenIndex := n2[parent].childrenIndex + IndexAll(n1[src].importers, name))]
    ensures dst < |n3|
    ensures "" in n1[dst].exporters.entries ==>
              && "" in n3[dst].exporters.entries
              && n3[dst].exporters.entries[""].ns == n1[dst].exporters.entries[""].ns
              && n3[dst].exporters.entries[""].element == n1[dst].exporters.entries[""].element
    ensures "" !in n1[dst].exporters.entries && |n1[src].importers.order| > 0 ==>
              && "" in n3[dst].exporters.entries
              && n3[dst].exporters.entries[""].ns == n1[src].importers.order[0].ns
              && n3[dst].exporters.entries[""].element == n1[src].importers.order[0].name
  {
    assert NodeWF(n1[src], |n1|) && NodeWF(n1[dst], |n1|);
    var keys := n1[src].importers.order;
    assert |keys| > 0 ==> keys[0] in n1[src].importers.entries;
    FoldImportersHead(n1, src, dst, keys, |n1|);
    var n2 := FoldImporters(n1, src, dst, keys);
    assert n3[dst].exporters == n2[dst].exporters;
  }

  /** The first two phases of `addChild` on a taken name, relative to the arena it started from. */
  lemma ImportPhases(nodes: seq<Translator>, parent: TId, name: string, src: TId, multiple: Option<bool>)
    returns (n1: seq<Translator>, n3: seq<Translator>)
    requires WellFormed(nodes) && parent < |nodes| && src < |nodes| && name in nodes[parent].children
    ensures var p := nodes[parent];
            n1 == nodes[parent := p.(children := p.children[name := Child(p.children[name].node, multiple.GetOr(p.children[name].multiple))])]
    ensures var dst := nodes[parent].children[name].node;
            && dst < |nodes| && |n1| == |nodes|
            && var n2 := FoldImporters(n1, src, dst, n1[src].importers.order);
            && n3 == n2[parent := n2[parent].(childrenIndex := n2[parent].childrenIndex + IndexAll(n1[src].importers, name))]
    ensures WellFormed(n3) && Grows(nodes, n3) && |n3| == |nodes|
    ensures var dst := nodes[parent].children[name].node;
            && SameTyped(nodes[dst], n3[dst]) && FieldsAt(n3[dst].exporters, "") == FieldsAt(nodes[dst].exporters, "")
            && nodes[src].importers.entries.Keys <= n3[dst].importers.entries.Keys
            && (forall x :: FieldsAt(n3[dst].importers, x) == FieldsAt(nodes[dst].importers, x) + FieldsAt(nodes[src].importers, x))
            && (forall x <- nodes[src].importers.entries.Keys :: x in n3[parent].childrenIndex && n3[parent].childrenIndex[x] == name)
            && (forall j :: 0 <= j < |nodes| && j != parent && j != dst ==> n3[j] == nodes[j])
            && (src != dst ==> n3[src].exporters == nodes[src].exporters)
            && (parent != dst ==> SameBuckets(nodes[parent], n3[parent]))
  {
    var dst := nodes[parent].children[name].node;
    n1 := Relink(nodes, parent, name, multiple);
    n3 := AbsorbImporters(n1, parent, name, src, dst);
    GrowsTrans(nodes, n1, n3);
    ImportPhasesCombine(nodes, n1, n3, parent, name, src, dst);
  }

  /** The facts of the first two phases, composed. */
  lemma ImportPhasesCombine(nodes: seq<Translator>, n1: seq<Translator>, n3: seq<Translator>,
                            parent: TId, name: string, src: TId, dst: TId)
    requires parent < |nodes| && src < |nodes| && dst < |nodes| && |n1| == |nodes| && |n3| == |nodes|
    requires forall i :: 0 <= i < |nodes| ==> SameBuckets(nodes[i], n1[i])
    requires forall j :: 0 <= j < |nodes| && j != parent ==> n1[j] == nodes[j]
    requires SameTyped(n1[dst], n3[dst]) && FieldsAt(n3[dst].exporters, "") == FieldsAt(n1[dst].exporters, "")
    requires n1[src].importers.entries.Keys <= n3[dst].importers.entries.Keys
    requires forall x :: FieldsAt(n3[dst].importers, x) == FieldsAt(n1[dst].importers, x) + FieldsAt(n1[src].importers, x)
    requires forall x <- n1[src].importers.entries.Keys :: x in n3[parent].childrenIndex && n3[parent].childrenIndex[x] == name
    requires forall j :: 0 <= j < |nodes| && j != parent && j != dst ==> n3[j] == n1[j]
    requires src != dst ==> n3[src].exporters == n1[src].exporters
    requires parent != dst ==> SameBuckets(n1[parent], n3[parent])
    ensures SameTyped(nodes[dst], n3[dst]) && FieldsAt(n3[dst].exporters, "") == FieldsAt(nodes[dst].exporters, "")
    ensures nodes[src].importers.entries.Keys <= n3[dst].importers.entries.Keys
    ensures forall x :: FieldsAt(n3[dst].importers, x) == FieldsAt(nodes[dst].importers, x) + FieldsAt(nodes[src].importers, x)
    ensures forall x <- nodes[src].importers.entries.Keys :: x in n3[parent].childrenIndex && n3[parent].childrenIndex[x] == name
    ensures forall j :: 0 <= j < |nodes| && j != parent && j != dst ==> n3[j] == nodes[j]
    ensures src != dst ==> n3[src].exporters == nodes[src].exporters
    ensures parent != dst ==> SameBuckets(nodes[parent], n3[parent])
  {
    assert SameBuckets(nodes[src], n1[src]) && SameBuckets(nodes[dst], n1[dst]) && SameBuckets(nodes[parent], n1[parent]);
  }

  /** The facts of the import phases and of the export phase, composed. */
  lemma AbsorbCombine(nodes: seq<Translator>, n3: seq<Translator>, r: seq<Translator>,
                      parent: TId, name: string, src: TId, dst: TId)
    requires parent < |nodes| && src < |nodes| && dst < |nodes| && |n3| == |nodes| && |r| == |nodes|
    requires SameTyped(nodes[dst], n3[dst]) && FieldsAt(n3[dst].exporters, "") == FieldsAt(nodes[dst].exporters, "")
    requires nodes[src].importers.entries.Keys <= n3[dst].importers.entries.Keys
    requires forall x :: FieldsAt(n3[dst].importers, x) == FieldsAt(nodes[dst].importers, x) + FieldsAt(nodes[src].importers, x)
    requires forall x <- nodes[src].importers.entries.Keys :: x in n3[parent].childrenIndex && n3[parent].childrenIndex[x] == name
    requires forall j :: 0 <= j < |nodes| && j != parent && j != dst ==> n3[j] == nodes[j]
    requires src != dst ==> n3[src].exporters == nodes[src].exporters
    requires parent != dst ==> SameBuckets(nodes[parent], n3[parent])
    requires SameTyped(n3[dst], r[dst]) && r[dst].childrenIndex == n3[dst].childrenIndex
    requires forall x :: FieldsAt(r[dst].importers, x) == FieldsAt(n3[dst].importers, x)
    requires n3[dst].importers.entries.Keys <= r[dst].importers.entries.Keys
    requires src != dst ==> FieldsAt(r[dst].exporters, "") ==
                              FieldsAt(n3[dst].exporters, "") + Flatten(n3[src].exporters, n3[src].exporters.order)
    requires forall j :: 0 <= j < |nodes| && j != dst ==> r[j] == n3[j]
    ensures SameTyped(nodes[dst], r[dst])
    ensures nodes[src].importers.entries.Keys <= r[dst].importers.entries.Keys
    ensures forall x :: FieldsAt(r[dst].importers, x) == FieldsAt(nodes[dst].importers, x) + FieldsAt(nodes[src].importers, x)
    ensures src != dst ==> FieldsAt(r[dst].exporters, "") ==
                             FieldsAt(nodes[dst].exporters, "") + Flatten(nodes[src].exporters, nodes[src].exporters.order)
    ensures forall x <- nodes[src].importers.entries.Keys :: x in r[parent].childrenIndex && r[parent].childrenIndex[x] == name
    ensures forall j :: 0 <= j < |nodes| && j != parent && j != dst ==> r[j] == nodes[j]
    ensures parent != dst ==> SameBuckets(nodes[parent], r[parent])
  {
    assert r[parent].childrenIndex == n3[parent].childrenIndex;
    forall x ensures FieldsAt(r[dst].importers, x) == FieldsAt(nodes[dst].importers, x) + FieldsAt(nodes[src].importers, x) {
      assert FieldsAt(r[dst].importers, x) == FieldsAt(n3[dst].importers, x);
    }
  }

  /** The three phases compose to `AddChild` on a taken name. */
  lemma TakenUnfolds(nodes: seq<Translator>, parent: TId, name: string, src: TId, multiple: Option<bool>,
                     n1: seq<Translator>, n3: seq<Translator>, r: seq<Translator>)
    requires parent < |nodes| && src < |nodes| && name in nodes[parent].children
    requires var p := nodes[parent];
             n1 == nodes[parent := p.(children := p.children[name := Child(p.children[name].node, multiple.GetOr(p.children[name].multiple))])]
    requires var dst := nodes[parent].children[name].node;
             && dst < |nodes|
             && var n2 := FoldImporters(n1, src, dst, n1[src].importers.order);
             && n3 == n2[parent := n2[parent].(childrenIndex := n2[parent].childrenIndex + IndexAll(n1[src].importers, name))]
             && r == FoldExporters(n3, src, dst, n3[src].exporters.order)
    ensures r == AddChild(nodes, parent, name, src, multiple)
  {
  }

  /**
   `b` is `a` up to merges of `a` into itself: nothing typed changes, the
   untyped exporter keeps its element, and its fields either stay as they were
   or gain the typed fields of `a`.
   */
  ghost predicate SelfMerged(a: Translator, b: Translator) {
    && SameTyped(a, b)
    && ("" in a.exporters.entries ==>
          && "" in b.exporters.entries
          && b.exporters.entries[""].ns == a.exporters.entries[""].ns
          && b.exporters.entries[""].element == a.exporters.entries[""].element)
    && (FieldsAt(b.exporters, "") == FieldsAt(a.exporters, "")
        || FieldsAt(b.exporters, "") == FieldsAt(a.exporters, "") + TypedFields(a))
  }

  lemma SelfMergedTrans(a: Translator, b: Translator, c: Translator)
    requires SelfMerged(a, b) && SelfMerged(b, c)
    ensures SelfMerged(a, c)
  {
    TypedFieldsSame(a, b);
    var e, f := FieldsAt(a.exporters, ""), TypedFields(a);
    assert (e + f) + f == e + f;
  }

  lemma SameBucketsMerged(a: Translator, b: Translator)
    requires SameBuckets(a, b)
    ensures SelfMerged(a, b)
  {
  }

  /**
   Under `addChild`, the translator being linked changes its untyped exporter
   only by being merged into itself, when the name already leads to it.
   */
  lemma AddChildSelfMerged(nodes: seq<Translator>, parent: TId, name: string, src: TId, multiple: Option<bool>)
    requires WellFormed(nodes) && parent < |nodes| && src < |nodes|
    ensures SelfMerged(nodes[src], AddChild(nodes, parent, name, src, multiple)[src])
  {
    var r := AddChild(nodes, parent, name, src, multiple);
    if name in nodes[parent].children {
      AddChildAbsorbs(nodes, parent, name, src, multiple);
      if src != nodes[parent].children[name].node {
        assert src != parent ==> r[src] == nodes[src];
        SameBucketsMerged(nodes[src], r[src]);
      }
    } else {
      SameBucketsMerged(nodes[src], r[src]);
    }
  }

  /** `addChild` keeps the arena well formed and loses nothing from it. */
  lemma AddChildKeepsWF(nodes: seq<Translator>, parent: TId, name: string, src: TId, multiple: Option<bool>)
    requires WellFormed(nodes) && parent < |nodes| && src < |nodes|
    ensures WellFormed(AddChild(nodes, parent, name, src, multiple))
    ensures Grows(nodes, AddChild(nodes, parent, name, src, multiple))
  {
    if name in nodes[parent].children {
      AddChildAbsorbs(nodes, parent, name, src, multiple);
    } else {
      var r := AddChild(nodes, parent, name, src, multiple);
      assert NodeWF(r[parent], |nodes|);
      SetNode(nodes, parent, r[parent]);
      assert r == nodes[parent := r[parent]];
    }
  }

  /**
   `addChild` never changes a type field, a type value or a typed exporter,
   and the translator it links keeps all its importers.
   */
  lemma AddChildKeepsSource(nodes: seq<Translator>, parent: TId, name: string, src: TId, multiple: Option<bool>)
    requires WellFormed(nodes) && parent < |nodes| && src < |nodes|
    ensures var r := AddChild(nodes, parent, name, src, multiple);
            && (forall i :: 0 <= i < |nodes| ==> SameTyped(nodes[i], r[i]))
            && (forall x :: FieldsAt(r[src].importers, x) == FieldsAt(nodes[src].importers, x))
  {
    var r := AddChild(nodes, parent, name, src, multiple);
    if name in nodes[parent].children {
      var dst := nodes[parent].children[name].node;
      assert && SameTyped(nodes[dst], r[dst]) && |r| == |nodes|
             && (forall x :: FieldsAt(r[dst].importers, x) == FieldsAt(nodes[dst].importers, x) + FieldsAt(nodes[src].importers, x))
             && (forall j :: 0 <= j < |nodes| && j != parent && j != dst ==> r[j] == nodes[j])
             && (parent != dst ==> SameBuckets(nodes[parent], r[parent])) by {
        AddChildAbsorbs(nodes, parent, name, src, multiple);
      }
      TakenKeepsSource(nodes, parent, dst, src, r);
    } else {
      assert forall i :: 0 <= i < |nodes| ==> SameBuckets(nodes[i], r[i]);
    }
  }

  lemma TakenKeepsSource(nodes: seq<Translator>, parent: TId, dst: TId, src: TId, r: seq<Translator>)
    requires parent < |nodes| && dst < |nodes| && src < |nodes| && |r| == |nodes|
    requires SameTyped(nodes[dst], r[dst])
    requires forall x :: FieldsAt(r[dst].importers, x) == FieldsAt(nodes[dst].importers, x) + FieldsAt(nodes[src].importers, x)
    requires forall j :: 0 <= j < |nodes| && j != parent && j != dst ==> r[j] == nodes[j]
    requires parent != dst ==> SameBuckets(nodes[parent], r[parent])
    ensures forall i :: 0 <= i < |nodes| ==> SameTyped(nodes[i], r[i])
    ensures forall x :: FieldsAt(r[src].importers, x) == FieldsAt(nodes[src].importers, x)
  {
    forall i | 0 <= i < |nodes| ensures SameTyped(nodes[i], r[i]) {
      if i != dst && i == parent {
        assert SameBuckets(nodes[i], r[i]);
      }
    }
    if src == dst {
      forall x ensures FieldsAt(r[src].importers, x) == FieldsAt(nodes[src].importers, x) {
        assert FieldsAt(nodes[dst].importers, x) + FieldsAt(nodes[src].importers, x) == FieldsAt(nodes[src].importers, x);
      }
    } else if src == parent {
      assert SameBuckets(nodes[src], r[src]);
    }
  }
}
