/** Laws of the registry (src/Registry.ts): paths, walks, aliases and definitions. */
module RegistryLaws {
  import opened Wrappers
  import opened OrderedMaps
  import opened Xml
  import opened Data
  import opened Codecs
  import opened Translators
  import opened TranslatorLaws
  import opened Registries
  import opened ExportLaws

  // ------------------------------------------------------------------ paths

  lemma JoinPrepend(c: char, segs: seq<string>)
    requires |segs| >= 1
    ensures Join([[c] + segs[0]] + segs[1..]) == [c] + Join(segs)
  {
    var s := [[c] + segs[0]] + segs[1..];
    assert s[0] == [c] + segs[0] && s[1..] == segs[1..];
    if |segs| > 1 {
      var j := Join(segs[1..]);
      assert Join(s) == (([c] + segs[0]) + ".") + j;
      assert Join(segs) == (segs[0] + ".") + j;
      PrependAssoc(c, segs[0], ".");
      PrependAssoc(c, segs[0] + ".", j);
    }
  }

  lemma PrependAssoc(c: char, a: string, b: string)
    ensures ([c] + a) + b == [c] + (a + b)
  {
  }

  /** Joining the segments of a path with dots gives the path back. */
  lemma {:induction false} SplitJoin(s: string)
    ensures Join(Split(s)) == s
    decreases |s|
  {
    if |s| > 0 {
      var rest := Split(s[1..]);
      SplitJoin(s[1..]);
      if s[0] == '.' {
        assert Split(s)[1..] == rest;
      } else {
        JoinPrepend(s[0], rest);
      }
      assert s == [s[0]] + s[1..];
    }
  }

  /** Splitting text that starts with a dot-free run extends the first segment. */
  lemma {:induction false} SplitPlain(a: string, rest: string)
    requires '.' !in a
    ensures Split(a + rest) == [a + Split(rest)[0]] + Split(rest)[1..]
    decreases |a|
  {
    if |a| > 0 {
      var r := Split(a[1..] + rest);
      assert (a + rest)[0] == a[0] && (a + rest)[1..] == a[1..] + rest;
      SplitPlain(a[1..], rest);
      assert r[0] == a[1..] + Split(rest)[0] && r[1..] == Split(rest)[1..];
      assert Split(a + rest) == [[a[0]] + r[0]] + r[1..];
      assert a == [a[0]] + a[1..];
      PrependAssoc(a[0], a[1..], Split(rest)[0]);
    } else {
      var r := Split(rest);
      assert a + rest == rest && a + r[0] == r[0];
      assert r == [r[0]] + r[1..];
    }
  }

  /** Splitting dot-free segments joined with dots gives the segments back. */
  lemma {:induction false} JoinSplit(segs: seq<string>)
    requires |segs| >= 1 && forall seg <- segs :: '.' !in seg
    ensures Split(Join(segs)) == segs
    decreases |segs|
  {
    if |segs| == 1 {
      SplitPlain(segs[0], "");
      assert segs[0] + "" == segs[0];
    } else {
      var tail := Join(segs[1..]);
      JoinSplit(segs[1..]);
      assert ("." + tail)[1..] == tail;
      assert Split("." + tail) == [""] + segs[1..];
      assert Join(segs) == segs[0] + ("." + tail);
      SplitPlain(segs[0], "." + tail);
      assert segs[0] + "" == segs[0];
    }
  }

  // ------------------------------------------------------------------ reaching

  /** Following `p + q` is following `p`, then `q` from where `p` ends. */
  lemma {:induction false} ReachConcat(nodes: seq<Translator>, cur: TId, p: seq<string>, q: seq<string>)
    ensures Reach(nodes, cur, p).None? ==> Reach(nodes, cur, p + q).None?
    ensures Reach(nodes, cur, p).Some? ==> Reach(nodes, cur, p + q) == Reach(nodes, Reach(nodes, cur, p).value, q)
    decreases |p|
  {
    if |p| > 0 {
      assert (p + q)[0] == p[0] && (p + q)[1..] == p[1..] + q;
      if cur < |nodes| && p[0] in nodes[cur].children {
        ReachConcat(nodes, nodes[cur].children[p[0]].node, p[1..], q);
      }
    } else {
      assert p + q == q;
    }
  }

  /** An arena that only grows keeps every path that could be followed. */
  lemma {:induction false} ReachGrows(a: seq<Translator>, b: seq<Translator>, cur: TId, path: seq<string>)
    requires Grows(a, b) && Reach(a, cur, path).Some?
    ensures Reach(b, cur, path) == Reach(a, cur, path)
    decreases |path|
  {
    if |path| > 0 {
      assert TranslatorGrows(a[cur], b[cur]);
      ReachGrows(a, b, a[cur].children[path[0]].node, path[1..]);
    }
  }

  /** A fresh translator at the end of a well-formed arena is reached by no path from inside. */
  lemma {:induction false} ReachAppend(nodes: seq<Translator>, cur: TId, path: seq<string>)
    requires WellFormed(nodes) && cur < |nodes|
    ensures Reach(nodes + [NewTranslator()], cur, path) == Reach(nodes, cur, path)
    decreases |path|
  {
    var n := nodes + [NewTranslator()];
    if |path| > 0 && path[0] in nodes[cur].children {
      assert n[cur] == nodes[cur];
      assert NodeWF(nodes[cur], |nodes|);
      ReachAppend(nodes, nodes[cur].children[path[0]].node, path[1..]);
    }
  }

  // ------------------------------------------------------------------ walking

  /** Without autovivification the walk changes nothing and ends where `Reach` does. */
  lemma {:induction false} WalkFinds(reg: Registry, cur: TId, path: seq<string>)
    requires reg.Valid() && cur < |reg.nodes|
    ensures WalkFrom(reg, cur, path, false) == (reg, Reach(reg.nodes, cur, path))
    decreases |path|
  {
    if |path| > 0 && path[0] in reg.nodes[cur].children {
      assert NodeWF(reg.nodes[cur], |reg.nodes|);
      WalkFinds(reg, reg.nodes[cur].children[path[0]].node, path[1..]);
    }
  }

  /**
   With autovivification the walk always ends on a node that the path then
   reaches; a path that was already there is followed without any change, and
   otherwise the walk ends on a translator it has just created.
   */
  lemma {:induction false} WalkCreates(reg: Registry, cur: TId, path: seq<string>)
    requires reg.Valid() && cur < |reg.nodes|
    ensures var r := WalkFrom(reg, cur, path, true);
            && Reach(r.0.nodes, cur, path) == r.1
            && (Reach(reg.nodes, cur, path).Some? ==> r == (reg, Reach(reg.nodes, cur, path)))
            && (Reach(reg.nodes, cur, path).None? ==> |reg.nodes| <= r.1.value && r.0.nodes[r.1.value] == NewTranslator())
    decreases |path|
  {
    if |path| > 0 {
      var key := path[0];
      var t := reg.nodes[cur];
      var r := WalkFrom(reg, cur, path, true);
      if key in t.children {
        assert NodeWF(t, |reg.nodes|);
        WalkCreates(reg, t.children[key].node, path[1..]);
        assert TranslatorGrows(reg.nodes[cur], r.0.nodes[cur]);
      } else {
        var id := |reg.nodes|;
        var nodes := reg.nodes + [NewTranslator()];
        AppendKeepsWF(reg.nodes);
        AddChildKeepsWF(nodes, cur, key, id, None);
        var grown := reg.(nodes := AddChild(nodes, cur, key, id, None));
        assert grown.nodes[id] == NewTranslator();
        assert grown.nodes[cur].children[key].node == id;
        WalkCreates(grown, id, path[1..]);
        assert r == WalkFrom(grown, id, path[1..], true);
        assert TranslatorGrows(grown.nodes[cur], r.0.nodes[cur]);
      }
    }
  }

  /** After an autovivifying walk every prefix of the path can be followed. */
  lemma WalkPrefixes(reg: Registry, path: seq<string>)
    requires reg.Valid()
    ensures var r := WalkToTranslator(reg, path, true);
            forall i :: 0 <= i <= |path| ==> Reach(r.0.nodes, r.0.root, path[..i]).Some?
  {
    var r := WalkToTranslator(reg, path, true);
    WalkCreates(reg, reg.root, path);
    forall i | 0 <= i <= |path| ensures Reach(r.0.nodes, r.0.root, path[..i]).Some? {
      assert path == path[..i] + path[i..];
      ReachConcat(r.0.nodes, r.0.root, path[..i], path[i..]);
    }
  }

  /** Every translator keeps its buckets, type field and type values through a walk: only child edges are added. */
  lemma {:induction false} WalkKeepsBuckets(reg: Registry, cur: TId, path: seq<string>, autovivify: bool)
    requires reg.Valid() && cur < |reg.nodes|
    ensures var r := WalkFrom(reg, cur, path, autovivify);
            forall i :: 0 <= i < |reg.nodes| ==> SameBuckets(reg.nodes[i], r.0.nodes[i])
    decreases |path|
  {
    if |path| > 0 {
      var key := path[0];
      var t := reg.nodes[cur];
      if key in t.children {
        assert NodeWF(t, |reg.nodes|);
        WalkKeepsBuckets(reg, t.children[key].node, path[1..], autovivify);
      } else if autovivify {
        var id := |reg.nodes|;
        var nodes := reg.nodes + [NewTranslator()];
        AppendKeepsWF(reg.nodes);
        AddChildKeepsWF(nodes, cur, key, id, None);
        var grown := reg.(nodes := AddChild(nodes, cur, key, id, None));
        FreshEdgeKeepsBuckets(reg.nodes, cur, key);
        assert WalkFrom(reg, cur, path, autovivify) == WalkFrom(grown, id, path[1..], autovivify);
        WalkKeepsBuckets(grown, id, path[1..], autovivify);
        var r := WalkFrom(grown, id, path[1..], autovivify);
        forall i | 0 <= i < |reg.nodes| ensures SameBuckets(reg.nodes[i], r.0.nodes[i]) {
          assert SameBuckets(reg.nodes[i], grown.nodes[i]) && SameBuckets(grown.nodes[i], r.0.nodes[i]);
        }
      }
    }
  }

  /** Linking a fresh translator under a free name changes no bucket. */
  lemma FreshEdgeKeepsBuckets(nodes: seq<Translator>, cur: TId, key: string)
    requires cur < |nodes| && key !in nodes[cur].children
    ensures var r := AddChild(nodes + [NewTranslator()], cur, key, |nodes|, None);
            forall i :: 0 <= i < |nodes| ==> SameBuckets(nodes[i], r[i])
  {
    var n := nodes + [NewTranslator()];
    assert n[cur] == nodes[cur];
    var r := AddChild(n, cur, key, |nodes|, None);
    forall i | 0 <= i < |nodes| ensures SameBuckets(nodes[i], r[i]) {
      assert n[i] == nodes[i];
    }
  }

  // ------------------------------------------------------------------ aliases

  /** Linking `src` under `name`: the edge names the translator already there, else `src`, and the parent routes the elements of `src` to `name`. */
  lemma LinkEdge(nodes: seq<Translator>, p: TId, name: string, src: TId, multiple: bool)
    requires WellFormed(nodes) && p < |nodes| && src < |nodes|
    ensures var r := AddChild(nodes, p, name, src, Some(multiple));
            && r[p].children[name] == Child(if name in nodes[p].children then nodes[p].children[name].node else src, multiple)
            && forall y <- nodes[src].importers.entries.Keys :: y in r[p].childrenIndex && r[p].childrenIndex[y] == name
  {
    if name in nodes[p].children {
      AddChildAbsorbs(nodes, p, name, src, Some(multiple));
    }
  }

  lemma SameTypedTrans(a: Translator, b: Translator, c: Translator)
    requires SameTyped(a, b) && SameTyped(b, c)
    ensures SameTyped(a, c)
  {
  }

  lemma SameTypedAfter(a: Translator, b: Translator, c: Translator)
    requires SameBuckets(a, b) && SameTyped(b, c)
    ensures SameTyped(a, c)
  {
  }

  /** Attaching never changes a type field, a type value or a typed exporter, and the attached translator keeps its importers. */
  lemma AttachKeeps(reg: Registry, linked: TId, keys: seq<string>, multiple: bool)
    requires reg.Valid() && linked < |reg.nodes|
    ensures var r := Attach(reg, linked, keys, multiple);
            && (forall i :: 0 <= i < |reg.nodes| ==> SameTyped(reg.nodes[i], r.nodes[i]))
            && (forall y :: FieldsAt(r.nodes[linked].importers, y) == FieldsAt(reg.nodes[linked].importers, y))
  {
    if |keys| > 0 {
      var walked := WalkToTranslator(reg, keys[..|keys| - 1], true);
      WalkKeepsBuckets(reg, reg.root, keys[..|keys| - 1], true);
      var nodes := AddChild(walked.0.nodes, walked.1.value, keys[|keys| - 1], linked, Some(multiple));
      AddChildKeepsSource(walked.0.nodes, walked.1.value, keys[|keys| - 1], linked, Some(multiple));
      forall i | 0 <= i < |reg.nodes| ensures SameTyped(reg.nodes[i], nodes[i]) {
        SameTypedAfter(reg.nodes[i], walked.0.nodes[i], nodes[i]);
      }
    }
  }

  /**
   An alias never changes a type field, a type value or a typed exporter of
   any translator, and the translator it links keeps all its importers.
   */
  lemma AliasKeeps(reg: Registry, ns: string, element: string, path: string, multiple: bool)
    requires reg.Valid()
    ensures var r := Alias(reg, ns, element, path, multiple);
            && (forall i :: 0 <= i < |reg.nodes| ==> SameTyped(reg.nodes[i], r.nodes[i]))
            && (Xid(ns, element) in reg.translators ==>
                  var t := reg.translators[Xid(ns, element)];
                  forall y :: FieldsAt(r.nodes[t].importers, y) == FieldsAt(reg.nodes[t].importers, y))
  {
    var l := Linked(reg, ns, element);
    AttachKeeps(l.0, l.1, Segments(path), multiple);
    assert forall i :: 0 <= i < |reg.nodes| ==> l.0.nodes[i] == reg.nodes[i];
  }

  /**
   Attaching at keys that are not all followable from the root links
   `linked` under the last key; at keys that are, the translator already there
   stays. Either way the flag is the given one, the keys then lead to the
   linked child, and its parent routes the elements `linked` imports.
   */
  lemma AttachLinks(reg: Registry, linked: TId, keys: seq<string>, multiple: bool)
    requires reg.Valid() && linked < |reg.nodes| && |keys| >= 1
    ensures var r := Attach(reg, linked, keys, multiple);
            var last := keys[|keys| - 1];
            var before := Reach(reg.nodes, reg.root, keys);
            var parent := Reach(r.nodes, r.root, keys[..|keys| - 1]);
            && parent.Some? && parent.value < |r.nodes|
            && last in r.nodes[parent.value].children
            && r.nodes[parent.value].children[last] == Child(if before.Some? then before.value else linked, multiple)
            && Reach(r.nodes, r.root, keys) == Some(if before.Some? then before.value else linked)
            && (forall y <- reg.nodes[linked].importers.entries.Keys ::
                  y in r.nodes[parent.value].childrenIndex && r.nodes[parent.value].childrenIndex[y] == last)
  {
    var init, last := keys[..|keys| - 1], keys[|keys| - 1];
    assert keys == init + [last];
    var r := Attach(reg, linked, keys, multiple);
    var p := AttachParent(reg, linked, keys, multiple);
    ReachLast(r.nodes, r.root, init, last, p);
  }

  /**
   The translator `Attach` adds the edge to is the one the keys but the last
   lead to afterwards, and the edge is the one `AttachLinks` describes.
   */
  lemma AttachParent(reg: Registry, linked: TId, keys: seq<string>, multiple: bool) returns (p: TId)
    requires reg.Valid() && linked < |reg.nodes| && |keys| >= 1
    ensures var r := Attach(reg, linked, keys, multiple);
            var last := keys[|keys| - 1];
            var before := Reach(reg.nodes, reg.root, keys);
            && r.root == reg.root
            && Reach(r.nodes, r.root, keys[..|keys| - 1]) == Some(p) && p < |r.nodes|
            && last in r.nodes[p].children
            && r.nodes[p].children[last] == Child(if before.Some? then before.value else linked, multiple)
            && (forall y <- reg.nodes[linked].importers.entries.Keys ::
                  y in r.nodes[p].childrenIndex && r.nodes[p].childrenIndex[y] == last)
  {
    var init, last := keys[..|keys| - 1], keys[|keys| - 1];
    assert keys == init + [last];
    var walked := WalkToTranslator(reg, init, true);
    var r3 := walked.0;
    p := walked.1.value;
    var r := Attach(reg, linked, keys, multiple);
    assert r.nodes == AddChild(r3.nodes, p, last, linked, Some(multiple)) && r.root == reg.root;
    WalkedEdge(reg, init, last);
    assert Reach(r.nodes, r.root, init) == Some(p) by {
      AddChildKeepsWF(r3.nodes, p, last, linked, Some(multiple));
      ReachGrows(r3.nodes, r.nodes, r.root, init);
    }
    WalkKeepsBuckets(reg, reg.root, init, true);
    assert r3.nodes[linked].importers == reg.nodes[linked].importers;
    LinkEdge(r3.nodes, p, last, linked, multiple);
  }

  /** One more key after a followable path follows the edge of that name. */
  lemma ReachLast(nodes: seq<Translator>, cur: TId, init: seq<string>, last: string, p: TId)
    requires Reach(nodes, cur, init) == Some(p) && p < |nodes|
    ensures Reach(nodes, cur, init + [last])
            == if last in nodes[p].children then Some(nodes[p].children[last].node) else None
  {
    ReachConcat(nodes, cur, init, [last]);
  }

  /**
   The translator an autovivifying walk of `init` ends on has an edge `last`
   exactly when `init + [last]` led somewhere before, and then to the same node.
   */
  lemma WalkedEdge(reg: Registry, init: seq<string>, last: string)
    requires reg.Valid()
    ensures var w := WalkToTranslator(reg, init, true);
            var before := Reach(reg.nodes, reg.root, init + [last]);
            && w.1.Some? && w.1.value < |w.0.nodes| && w.0.Valid()
            && Reach(w.0.nodes, reg.root, init) == w.1
            && (last in w.0.nodes[w.1.value].children <==> before.Some?)
            && (before.Some? ==> w.0.nodes[w.1.value].children[last].node == before.value)
  {
    WalkCreates(reg, reg.root, init);
    ReachConcat(reg.nodes, reg.root, init, [last]);
  }

  /**
   An alias at a path with segments links a child under the last one, with the
   given array flag: the translator already at the full path if there was
   one, which then absorbs the aliased element, and the aliased translator
   otherwise; afterwards the path leads there, and the parent routes every
   element the aliased translator imports to that field.
   */
  lemma AliasLinks(reg: Registry, ns: string, element: string, path: string, multiple: bool)
    requires reg.Valid() && |Segments(path)| >= 1
    ensures var r := Alias(reg, ns, element, path, multiple);
            var keys := Segments(path);
            var last := keys[|keys| - 1];
            var before := Reach(reg.nodes, reg.root, keys);
            var linked := r.translators[Xid(ns, element)];
            var parent := Reach(r.nodes, r.root, keys[..|keys| - 1]);
            && parent.Some? && parent.value < |r.nodes|
            && last in r.nodes[parent.value].children
            && r.nodes[parent.value].children[last] == Child(if before.Some? then before.value else linked, multiple)
            && Reach(r.nodes, r.root, keys) == Some(if before.Some? then before.value else linked)
            && (linked < |reg.nodes| ==>
                  forall y <- reg.nodes[linked].importers.entries.Keys ::
                    y in r.nodes[parent.value].childrenIndex && r.nodes[parent.value].childrenIndex[y] == last)
  {
    var l := Linked(reg, ns, element);
    var keys := Segments(path);
    AttachLinks(l.0, l.1, keys, multiple);
    if Xid(ns, element) !in reg.translators {
      ReachAppend(reg.nodes, reg.root, keys);
    }
  }

  /** The alias loop of `define` keeps the types of every translator and the importers of the defined one. */
  lemma {:induction false} AliasAllKeeps(reg: Registry, ns: string, element: string, links: seq<Link>)
    requires reg.Valid()
    ensures var r := AliasAll(reg, ns, element, links);
            && (forall i :: 0 <= i < |reg.nodes| ==> SameTyped(reg.nodes[i], r.nodes[i]))
            && (Xid(ns, element) in reg.translators ==>
                  var t := reg.translators[Xid(ns, element)];
                  forall y :: FieldsAt(r.nodes[t].importers, y) == FieldsAt(reg.nodes[t].importers, y))
    decreases |links|
  {
    if |links| > 0 {
      var r1 := Alias(reg, ns, element, links[0].path, links[0].multiple);
      var r := AliasAll(r1, ns, element, links[1..]);
      AliasKeeps(reg, ns, element, links[0].path, links[0].multiple);
      AliasAllKeeps(r1, ns, element, links[1..]);
      forall i | 0 <= i < |reg.nodes| ensures SameTyped(reg.nodes[i], r.nodes[i]) {
        SameTypedTrans(reg.nodes[i], r1.nodes[i], r.nodes[i]);
      }
    }
  }

  /** After the alias loop of `define`, every alias path with a segment can be followed from the root. */
  lemma {:induction false} AliasAllReaches(reg: Registry, ns: string, element: string, links: seq<Link>)
    requires reg.Valid()
    ensures var r := AliasAll(reg, ns, element, links);
            forall i :: 0 <= i < |links| && |Segments(links[i].path)| >= 1 ==>
              Reach(r.nodes, r.root, Segments(links[i].path)).Some?
    decreases |links|
  {
    if |links| > 0 {
      var r1 := Alias(reg, ns, element, links[0].path, links[0].multiple);
      var r := AliasAll(r1, ns, element, links[1..]);
      AliasAllReaches(r1, ns, element, links[1..]);
      forall i | 0 <= i < |links| && |Segments(links[i].path)| >= 1
        ensures Reach(r.nodes, r.root, Segments(links[i].path)).Some?
      {
        if i == 0 {
          AliasLinks(reg, ns, element, links[0].path, links[0].multiple);
          ReachGrows(r1.nodes, r.nodes, r.root, Segments(links[0].path));
        } else {
          assert links[1..][i - 1] == links[i];
        }
      }
    }
  }

  /** Attaching changes the untyped exporter of the attached translator only by merging it into itself. */
  lemma AttachMerged(reg: Registry, linked: TId, keys: seq<string>, multiple: bool)
    requires reg.Valid() && linked < |reg.nodes|
    ensures SelfMerged(reg.nodes[linked], Attach(reg, linked, keys, multiple).nodes[linked])
  {
    if |keys| > 0 {
      var walked := WalkToTranslator(reg, keys[..|keys| - 1], true);
      WalkKeepsBuckets(reg, reg.root, keys[..|keys| - 1], true);
      var nodes := AddChild(walked.0.nodes, walked.1.value, keys[|keys| - 1], linked, Some(multiple));
      AddChildSelfMerged(walked.0.nodes, walked.1.value, keys[|keys| - 1], linked, Some(multiple));
      SameBucketsMerged(reg.nodes[linked], walked.0.nodes[linked]);
      SelfMergedTrans(reg.nodes[linked], walked.0.nodes[linked], nodes[linked]);
    } else {
      SameBucketsMerged(reg.nodes[linked], reg.nodes[linked]);
    }
  }

  /** An alias changes the untyped exporter of the translator it links only by merging that translator into itself. */
  lemma AliasMerged(reg: Registry, ns: string, element: string, path: string, multiple: bool)
    requires reg.Valid() && Xid(ns, element) in reg.translators
    ensures var t := reg.translators[Xid(ns, element)];
            SelfMerged(reg.nodes[t], Alias(reg, ns, element, path, multiple).nodes[t])
  {
    var l := Linked(reg, ns, element);
    AttachMerged(l.0, l.1, Segments(path), multiple);
  }

  /** The alias loop of `define` changes the untyped exporter of the defined translator only by merging it into itself. */
  lemma {:induction false} AliasAllMerged(reg: Registry, ns: string, element: string, links: seq<Link>)
    requires reg.Valid() && Xid(ns, element) in reg.translators
    ensures var t := reg.translators[Xid(ns, element)];
            SelfMerged(reg.nodes[t], AliasAll(reg, ns, element, links).nodes[t])
    decreases |links|
  {
    var t := reg.translators[Xid(ns, element)];
    if |links| > 0 {
      var r1 := Alias(reg, ns, element, links[0].path, links[0].multiple);
      AliasMerged(reg, ns, element, links[0].path, links[0].multiple);
      AliasAllMerged(r1, ns, element, links[1..]);
      SelfMergedTrans(reg.nodes[t], r1.nodes[t], AliasAll(reg, ns, element, links).nodes[t]);
    } else {
      SameBucketsMerged(reg.nodes[t], reg.nodes[t]);
    }
  }

  /**
   An alias of a translator at a path that already leads to it merges the
   translator into itself: its typed fields land in its untyped exporter,
   which, when it was missing, is created for the element of its first
   importer.
   */
  lemma AliasSelf(reg: Registry, ns: string, element: string, path: string, multiple: bool)
    requires reg.Valid() && Xid(ns, element) in reg.translators && |Segments(path)| >= 1
    requires Reach(reg.nodes, reg.root, Segments(path)) == Some(reg.translators[Xid(ns, element)])
    ensures var t := reg.translators[Xid(ns, element)];
            var a := reg.nodes[t];
            var b := Alias(reg, ns, element, path, multiple).nodes[t];
            && FieldsAt(b.exporters, "") == FieldsAt(a.exporters, "") + TypedFields(a)
            && ("" !in a.exporters.entries && |a.importers.order| > 0 ==>
                  && "" in b.exporters.entries
                  && b.exporters.entries[""].ns == a.importers.order[0].ns
                  && b.exporters.entries[""].element == a.importers.order[0].name)
  {
    var t := reg.translators[Xid(ns, element)];
    var keys := Segments(path);
    var init, last := keys[..|keys| - 1], keys[|keys| - 1];
    assert keys == init + [last];
    ReachConcat(reg.nodes, reg.root, init, [last]);
    var p := Reach(reg.nodes, reg.root, init).value;
    WalkCreates(reg, reg.root, init);
    assert WalkToTranslator(reg, init, true) == (reg, Some(p));
    assert last in reg.nodes[p].children && reg.nodes[p].children[last].node == t;
    AddChildAbsorbs(reg.nodes, p, last, t, Some(multiple));
  }

  // ------------------------------------------------------------------ definitions

  /** The definition step on its target, field by field. */
  lemma DeclareEffect(t0: Translator, def: Definition)
    requires def.fields.Valid()
    ensures var t := Declare(t0, def);
            var x := Xid(def.ns, def.element);
            && t.typeField == (if def.typeField != "" then def.typeField else t0.typeField)
            && t.typeValues == (if def.typ != "" then t0.typeValues[x := def.typ] else t0.typeValues)
            && x in t.importers.entries
            && FieldsAt(t.importers, x) == FieldsAt(t0.importers, x) + def.fields.entries
            && (forall y :: y != x ==> FieldsAt(t.importers, y) == FieldsAt(t0.importers, y))
            && def.typ in t.exporters.entries
            && FieldsAt(t.exporters, def.typ) == FieldsAt(t0.exporters, def.typ) + def.fields.entries
            && (def.typ !in t0.exporters.entries ==> t.exporters.entries[def.typ].ns == def.ns && t.exporters.entries[def.typ].element == def.element)
            && (forall z :: z != def.typ ==> (z in t.exporters.entries <==> z in t0.exporters.entries))
            && (forall z <- t0.exporters.entries.Keys :: z != def.typ ==> t.exporters.entries[z] == t0.exporters.entries[z])
  {
    var x := Xid(def.ns, def.element);
    var typed := if def.typeField != "" then t0.(typeField := def.typeField) else t0;
    var t := UpdateDefinition(typed, def.ns, def.element, def.typ, def.fields, def.fields);
    forall y | y != x ensures FieldsAt(t.importers, y) == FieldsAt(t0.importers, y) {
      if y in t0.importers.entries {
        assert t.importers.entries[y] == t0.importers.entries[y];
      }
    }
  }

  /** `Declared` is the definition step applied to the target of `define`, indexed under the element. */
  lemma DeclaredIs(reg: Registry, def: Definition)
    requires reg.Valid() && def.fields.Valid()
    ensures var target := Target(reg, def);
            var r := Declared(reg, def);
            && r.translators[Xid(def.ns, def.element)] == target.1
            && |target.0.nodes| <= |r.nodes| && r.nodes[target.1] == Declare(target.0.nodes[target.1], def)
            && Grows(target.0.nodes, r.nodes)
  {
  }

  /** The linking half of `define` keeps the types and importers of the defined translator, and loses nothing. */
  lemma LinkPhase(r2: Registry, def: Definition, n: TId) returns (r: Registry)
    requires r2.Valid() && def.fields.Valid() && Xid(def.ns, def.element) in r2.translators
    requires r2.translators[Xid(def.ns, def.element)] == n
    ensures r == AliasAll(if def.path != "" then Alias(r2, def.ns, def.element, def.path, false) else r2,
                          def.ns, def.element, def.aliases)
    ensures r.translators == r2.translators && Grows(r2.nodes, r.nodes) && r.root == r2.root
    ensures SameTyped(r2.nodes[n], r.nodes[n])
    ensures forall y :: FieldsAt(r.nodes[n].importers, y) == FieldsAt(r2.nodes[n].importers, y)
    ensures SelfMerged(r2.nodes[n], r.nodes[n])
  {
    var r3 := if def.path != "" then Alias(r2, def.ns, def.element, def.path, false) else r2;
    if def.path != "" {
      AliasKeeps(r2, def.ns, def.element, def.path, false);
      AliasMerged(r2, def.ns, def.element, def.path, false);
    } else {
      SameBucketsMerged(r2.nodes[n], r3.nodes[n]);
    }
    r := AliasAll(r3, def.ns, def.element, def.aliases);
    AliasAllKeeps(r3, def.ns, def.element, def.aliases);
    AliasAllMerged(r3, def.ns, def.element, def.aliases);
    SelfMergedTrans(r2.nodes[n], r3.nodes[n], r.nodes[n]);
    SameTypedTrans(r2.nodes[n], r3.nodes[n], r.nodes[n]);
    GrowsTrans(r2.nodes, r3.nodes, r.nodes);
  }

  /**
   What `define` leaves in its target translator `t`, which was `t0` before:
   the new type field (when one is given), the type value of the element
   (when a type is given), the new field codecs over the old ones in the
   importer of the element and in the exporter of the type, and every other
   importer and typed exporter as it was. Its untyped exporter keeps its
   element (an untyped definition creates it for its own), and holds the old
   fields with an untyped definition's over them, possibly followed by the
   fields of every typed exporter.
   */
  ghost predicate DeclaredInto(t0: Translator, def: Definition, t: Translator) {
    var x := Xid(def.ns, def.element);
    && t.typeField == (if def.typeField != "" then def.typeField else t0.typeField)
    && t.typeValues == (if def.typ != "" then t0.typeValues[x := def.typ] else t0.typeValues)
    && x in t.importers.entries && t0.importers.entries.Keys <= t.importers.entries.Keys
    && FieldsAt(t.importers, x) == FieldsAt(t0.importers, x) + def.fields.entries
    && (forall y :: y != x ==> FieldsAt(t.importers, y) == FieldsAt(t0.importers, y))
    && def.typ in t.exporters.entries
    && (def.typ != "" ==> FieldsAt(t.exporters, def.typ) == FieldsAt(t0.exporters, def.typ) + def.fields.entries)
    && (def.typ == "" ==> def.fields.entries.Keys <= FieldsAt(t.exporters, "").Keys)
    && (def.typ != "" && def.typ !in t0.exporters.entries ==>
          t.exporters.entries[def.typ].ns == def.ns && t.exporters.entries[def.typ].element == def.element)
    && (forall z :: z != "" && z != def.typ ==> (z in t.exporters.entries <==> z in t0.exporters.entries))
    && (forall z <- t0.exporters.entries.Keys :: z != "" && z != def.typ ==> t.exporters.entries[z] == t0.exporters.entries[z])
    && ("" in t0.exporters.entries ==>
          && "" in t.exporters.entries
          && t.exporters.entries[""].ns == t0.exporters.entries[""].ns
          && t.exporters.entries[""].element == t0.exporters.entries[""].element)
    && (def.typ == "" && "" !in t0.exporters.entries ==>
          && "" in t.exporters.entries
          && t.exporters.entries[""].ns == def.ns && t.exporters.entries[""].element == def.element)
    && (var u := FieldsAt(t0.exporters, "") + (if def.typ == "" then def.fields.entries else map[]);
        FieldsAt(t.exporters, "") == u || FieldsAt(t.exporters, "") == u + TypedFields(t))
  }

  /** What the definition step did to a translator survives anything that keeps its types and importers and only grows it. */
  lemma DeclaredSurvives(t0: Translator, def: Definition, t: Translator)
    requires def.fields.Valid()
    requires SameTyped(Declare(t0, def), t) && TranslatorGrows(Declare(t0, def), t)
    requires forall y :: FieldsAt(t.importers, y) == FieldsAt(Declare(t0, def).importers, y)
    ensures var x := Xid(def.ns, def.element);
            && t.typeField == (if def.typeField != "" then def.typeField else t0.typeField)
            && t.typeValues == (if def.typ != "" then t0.typeValues[x := def.typ] else t0.typeValues)
            && x in t.importers.entries && t0.importers.entries.Keys <= t.importers.entries.Keys
            && FieldsAt(t.importers, x) == FieldsAt(t0.importers, x) + def.fields.entries
            && (forall y :: y != x ==> FieldsAt(t.importers, y) == FieldsAt(t0.importers, y))
            && def.typ in t.exporters.entries
            && (def.typ != "" ==> FieldsAt(t.exporters, def.typ) == FieldsAt(t0.exporters, def.typ) + def.fields.entries)
            && (def.typ == "" ==> def.fields.entries.Keys <= FieldsAt(t.exporters, "").Keys)
            && (def.typ != "" && def.typ !in t0.exporters.entries ==>
                  t.exporters.entries[def.typ].ns == def.ns && t.exporters.entries[def.typ].element == def.element)
            && (forall z :: z != "" && z != def.typ ==> (z in t.exporters.entries <==> z in t0.exporters.entries))
            && (forall z <- t0.exporters.entries.Keys :: z != "" && z != def.typ ==> t.exporters.entries[z] == t0.exporters.entries[z])
  {
    var d := Declare(t0, def);
    DeclareEffect(t0, def);
    if def.typ != "" {
      assert t.exporters.entries[def.typ] == d.exporters.entries[def.typ];
    }
  }

  /**
   What the definition step did to the untyped exporter survives merges of
   the translator into itself: it keeps its element, an untyped definition
   creates it for its own element, and its fields are the old ones with those
   of an untyped definition over them, possibly followed by every typed
   exporter's fields.
   */
  lemma DeclaredUntyped(t0: Translator, def: Definition, t: Translator)
    requires def.fields.Valid() && SelfMerged(Declare(t0, def), t)
    ensures "" in t0.exporters.entries ==>
              && "" in t.exporters.entries
              && t.exporters.entries[""].ns == t0.exporters.entries[""].ns
              && t.exporters.entries[""].element == t0.exporters.entries[""].element
    ensures def.typ == "" && "" !in t0.exporters.entries ==>
              && "" in t.exporters.entries
              && t.exporters.entries[""].ns == def.ns && t.exporters.entries[""].element == def.element
    ensures var u := FieldsAt(t0.exporters, "") + (if def.typ == "" then def.fields.entries else map[]);
            FieldsAt(t.exporters, "") == u || FieldsAt(t.exporters, "") == u + TypedFields(t)
  {
    DeclareUntyped(t0, def);
    TypedFieldsSame(Declare(t0, def), t);
  }

  /** The definition step on the untyped exporter. */
  lemma DeclareUntyped(t0: Translator, def: Definition)
    requires def.fields.Valid()
    ensures var d := Declare(t0, def);
            && ("" in t0.exporters.entries ==>
                  && "" in d.exporters.entries
                  && d.exporters.entries[""].ns == t0.exporters.entries[""].ns
                  && d.exporters.entries[""].element == t0.exporters.entries[""].element)
            && (def.typ == "" && "" !in t0.exporters.entries ==>
                  && "" in d.exporters.entries
                  && d.exporters.entries[""].ns == def.ns && d.exporters.entries[""].element == def.element)
            && FieldsAt(d.exporters, "") == FieldsAt(t0.exporters, "") + (if def.typ == "" then def.fields.entries else map[])
  {
    var typed := if def.typeField != "" then t0.(typeField := def.typeField) else t0;
    assert typed.exporters == t0.exporters;
    var d := UpdateDefinition(typed, def.ns, def.element, def.typ, def.fields, def.fields);
    assert d == Declare(t0, def);
    if def.typ != "" {
      if "" in t0.exporters.entries {
        assert d.exporters.entries[""] == t0.exporters.entries[""];
      } else {
        assert "" !in d.exporters.entries;
      }
      UnionEmpty(FieldsAt(t0.exporters, ""));
    }
  }

  /**
   `define` indexes the element to its target translator and leaves that
   translator as `DeclaredInto` says, the untyped exporter's typed fields
   merged in when a path or alias already led to the translator itself; a
   typed definition with a path is reached by that path afterwards.
   */
  lemma DefineDeclares(reg: Registry, def: Definition)
    requires reg.Valid() && def.fields.Valid()
    ensures var r := Define(reg, def);
            var x := Xid(def.ns, def.element);
            var target := Target(reg, def);
            && r.translators[x] == target.1
            && DeclaredInto(target.0.nodes[target.1], def, r.nodes[target.1])
            && (def.typ != "" && def.path != "" ==> Reach(r.nodes, r.root, Split(def.path)) == Some(target.1))
  {
    var target := Target(reg, def);
    var n := target.1;
    var t := DefinedNode(reg, def);
    DeclaredSurvives(target.0.nodes[n], def, t);
    DeclaredUntyped(target.0.nodes[n], def, t);
  }

  /**
   The translator `define` writes into: the definition step's result, kept
   in its types and importers and only grown by the links, merged at most
   into itself, and reached by a typed definition's path.
   */
  lemma DefinedNode(reg: Registry, def: Definition) returns (t: Translator)
    requires reg.Valid() && def.fields.Valid()
    ensures var target := Target(reg, def);
            var d := Declare(target.0.nodes[target.1], def);
            var r := Define(reg, def);
            && r.translators[Xid(def.ns, def.element)] == target.1 && t == r.nodes[target.1]
            && SameTyped(d, t) && TranslatorGrows(d, t)
            && (forall y :: FieldsAt(t.importers, y) == FieldsAt(d.importers, y))
            && SelfMerged(d, t)
            && (def.typ != "" && def.path != "" ==> Reach(r.nodes, r.root, Split(def.path)) == Some(target.1))
  {
    var target := Target(reg, def);
    var n := target.1;
    var r2 := Declared(reg, def);
    DeclaredIs(reg, def);
    var r := LinkPhase(r2, def, n);
    assert r == Define(reg, def);
    assert TranslatorGrows(r2.nodes[n], r.nodes[n]);
    t := r.nodes[n];
    if def.typ != "" && def.path != "" {
      WalkCreates(reg, reg.root, Split(def.path));
      GrowsTrans(target.0.nodes, r2.nodes, r.nodes);
      ReachGrows(target.0.nodes, r.nodes, reg.root, Split(def.path));
    }
  }

  /** `define` leaves the translator of every other element where it was. */
  lemma DefineKeepsOthers(reg: Registry, def: Definition, x: Xid)
    requires reg.Valid() && def.fields.Valid()
    requires x != Xid(def.ns, def.element) && x in reg.translators
    ensures x in Define(reg, def).translators && Define(reg, def).translators[x] == reg.translators[x]
  {
    var r := Define(reg, def);
    var xd := Xid(def.ns, def.element);
    assert r.translators == reg.translators[xd := r.translators[xd]];
  }

  /** Only child edges matter to `Reach`. */
  lemma {:induction false} ReachSameEdges(a: seq<Translator>, b: seq<Translator>, cur: TId, path: seq<string>)
    requires |a| == |b| && forall i :: 0 <= i < |a| ==> a[i].children == b[i].children
    ensures Reach(a, cur, path) == Reach(b, cur, path)
    decreases |path|
  {
    if |path| > 0 && cur < |a| && path[0] in a[cur].children {
      ReachSameEdges(a, b, a[cur].children[path[0]].node, path[1..]);
    }
  }

  /** The definition step adds no child edge. */
  lemma DeclareKeepsEdges(t: Translator, def: Definition)
    ensures Declare(t, def).children == t.children
  {
  }

  /** Replacing a node by one with the same child edges keeps every edge of the arena. */
  lemma SetKeepsEdges(nodes: seq<Translator>, t: TId, d: Translator)
    requires t < |nodes| && d.children == nodes[t].children
    ensures forall i :: 0 <= i < |nodes| ==> nodes[i].children == nodes[t := d][i].children
  {
  }

  /** Declaring a translator changes no path. */
  lemma DeclareAtReach(nodes: seq<Translator>, t: TId, def: Definition, cur: TId, path: seq<string>)
    requires WellFormed(nodes) && t < |nodes| && def.fields.Valid()
    ensures Reach(DeclareAt(nodes, t, def), cur, path) == Reach(nodes, cur, path)
  {
    DeclareKeepsEdges(nodes[t], def);
    SetKeepsEdges(nodes, t, Declare(nodes[t], def));
    ReachSameEdges(nodes, nodes[t := Declare(nodes[t], def)], cur, path);
  }

  /** The target of an untyped `define` is found or appended, which adds no child edge. */
  lemma TargetReach(reg: Registry, def: Definition, path: seq<string>)
    requires reg.Valid() && !(def.typ != "" && def.path != "")
    ensures Reach(Target(reg, def).0.nodes, reg.root, path) == Reach(reg.nodes, reg.root, path)
  {
    if Xid(def.ns, def.element) !in reg.translators {
      ReachAppend(reg.nodes, reg.root, path);
    }
  }

  /** The first half of an untyped `define` adds no child edge: what could be followed before still can, and nothing else. */
  lemma DeclaredReach(reg: Registry, def: Definition, path: seq<string>)
    requires reg.Valid() && def.fields.Valid() && !(def.typ != "" && def.path != "")
    ensures Reach(Declared(reg, def).nodes, reg.root, path) == Reach(reg.nodes, reg.root, path)
  {
    var p := Indexed(reg, def);
    assert p.0.nodes == Target(reg, def).0.nodes;
    TargetReach(reg, def, path);
    DeclareAtReach(p.0.nodes, p.1, def, reg.root, path);
  }

  /** The linking half of `define`: its path and aliases can be followed afterwards, and a path that led nowhere leads to the defined translator. */
  lemma LinkReach(r2: Registry, def: Definition)
    requires r2.Valid() && Xid(def.ns, def.element) in r2.translators
    ensures var r3 := if def.path != "" then Alias(r2, def.ns, def.element, def.path, false) else r2;
            var r := AliasAll(r3, def.ns, def.element, def.aliases);
            var keys := Segments(def.path);
            && r.translators == r2.translators
            && (|keys| >= 1 ==> Reach(r.nodes, r.root, keys).Some?)
            && (|keys| >= 1 && Reach(r2.nodes, r2.root, keys).None? ==>
                  Reach(r.nodes, r.root, keys) == Some(r2.translators[Xid(def.ns, def.element)]))
            && (forall i :: 0 <= i < |def.aliases| && |Segments(def.aliases[i].path)| >= 1 ==>
                  Reach(r.nodes, r.root, Segments(def.aliases[i].path)).Some?)
  {
    var keys := Segments(def.path);
    var r3 := if def.path != "" then Alias(r2, def.ns, def.element, def.path, false) else r2;
    var r := AliasAll(r3, def.ns, def.element, def.aliases);
    AliasAllReaches(r3, def.ns, def.element, def.aliases);
    if |keys| >= 1 {
      assert keys[0] in keys;
      AliasLinks(r2, def.ns, def.element, def.path, false);
      ReachGrows(r3.nodes, r.nodes, r.root, keys);
    }
  }

  /**
   `define` links its translator wherever it says: the path and every alias
   can be followed afterwards, and an untyped definition whose path led
   nowhere before is reached at that path by the translator indexed for its
   element.
   */
  lemma DefineLinks(reg: Registry, def: Definition)
    requires reg.Valid() && def.fields.Valid()
    ensures var r := Define(reg, def);
            var keys := Segments(def.path);
            && (|keys| >= 1 ==> Reach(r.nodes, r.root, keys).Some?)
            && (|keys| >= 1 && !(def.typ != "" && def.path != "") && Reach(reg.nodes, reg.root, keys).None? ==>
                  Reach(r.nodes, r.root, keys) == Some(r.translators[Xid(def.ns, def.element)]))
            && (forall i :: 0 <= i < |def.aliases| && |Segments(def.aliases[i].path)| >= 1 ==>
                  Reach(r.nodes, r.root, Segments(def.aliases[i].path)).Some?)
  {
    var r2 := Declared(reg, def);
    LinkReach(r2, def);
    if !(def.typ != "" && def.path != "") {
      DeclaredReach(reg, def, Segments(def.path));
    }
  }

  // ------------------------------------------------------------------ lookups

  /** After `define`, the registry imports every element of the defined name. */
  lemma DefineImports(reg: Registry, def: Definition, e: Element)
    requires reg.Valid() && def.fields.Valid() && XidOf(e) == Xid(def.ns, def.element)
    ensures Registries.Import(Define(reg, def), e).Some?
  {
    DefineDeclares(reg, def);
  }

  /**
   The top-level element `export` of the registry produces always declares its
   namespace, unless a field of its exporter writes `xmlns` itself.
   */
  lemma ExportDeclaresNamespace(reg: Registry, path: string, data: Value)
    requires Registries.Export(reg, path, data).Some?
    requires var t := Reach(reg.nodes, reg.root, Segments(path)).value;
             !WritesXmlns(Selected(reg.nodes[t], data.props).value)
    ensures var el := Registries.Export(reg, path, data).value;
            "xmlns" in el.attrs && el.attrs["xmlns"] == el.ns
  {
    var t := Reach(reg.nodes, reg.root, Segments(path)).value;
    ExportXmlns(reg.nodes, t, data, "");
  }
}
