# jxt in Dafny

jxt translates between XML element trees and plain JSON-like data objects.
This project models its core and proves properties about it. The model covers:

- **Translators.** A translator holds importers keyed by element identity
  `{namespace}name`. It holds exporters keyed by type discriminator, with `""`
  meaning untyped. It also holds child translators keyed by field name, and an
  index from child element identity to field name.
- **Translator operations.** `updateDefinition`, `addChild` and `getChild`, plus
  the recursive `import` and `export`.
- **The registry.** It owns the root translator and a flat index from element
  identity to translator. It provides path walking with autovivification,
  `alias`, `define`, and the top-level `import` and `export`.
- **Field codecs.** The codecs whose behaviour is string and tree logic:
  - `attribute`, `booleanAttribute`, `languageAttribute`, `text`;
  - the `child*` variants of these;
  - `childBoolean`, `childEnum`, `multipleChildText`, `multipleChildAttribute`;
  - the helpers `createElement` and `findOrCreate`.

Translators are shared: an alias links the same translator under several parents,
and the graph may have cycles. So translators live in an arena
(`seq<Translator>`) and refer to each other by index. `import` terminates on the
depth of the element and `export` on the depth of the data, never on the graph.

Other representation choices:

- **Elements** carry their resolved namespace. The `xmlns` attribute is also kept,
  as `createElement` writes it. A codec passes the element's own namespace as
  the parent namespace of the children it creates; see "## Left out" for where
  the source differs.
- **Maps with order.** Data objects and the source's `Map`s are insertion-ordered
  maps (`OrderedMaps`). This matters because export walks the object's own keys
  in order, which fixes the order of emitted children.
- **Codecs** are a datatype. `Decode` is the importer of a codec and `Encode` its
  exporter.

Modules follow the source:

- `Xml`: the element tree, `createElement`, `findOrCreate`.
- `Codecs` and `CodecLaws`: src/Types.ts.
- `Translators`, `TranslatorLaws`, `ImportLaws`, `ExportLaws`, `RoundTrips`:
  src/Translator.ts.
- `Registries`, `RegistryLaws`, `Polymorphism`: src/Registry.ts.
- `OrderedMaps`, `Data`, `Wrappers`: support modules.

## Model

| member | source | states |
|---|---|---|
| Xml.CreateElement | src/Types.ts:5-13 | The new element is empty and has the given namespace and name. Its only possible attribute is `xmlns`, holding the namespace. That attribute is written exactly when the parent namespace is empty or differs. |
| Xml.FindOrCreate | src/Types.ts:15-24 | An existing matching child leaves the element unchanged. Otherwise exactly one new child, created under the element's namespace, is appended at the end. Either way the returned index is the first match afterwards. |
| Codecs.DecodeOwn | src/Types.ts:27-131 | The importers of `attribute`, `booleanAttribute`, `languageAttribute` and `text`. A boolean field yields a boolean, the others a string. A boolean is present exactly when the attribute is one of `true`, `1`, `false`, `0`, and it is true exactly for `true` and `1`. A language is present exactly when `xml:lang` is, and is its value. An attribute or text yields its value when non-empty, and the default when missing or empty. |
| Codecs.EncodeOwn | src/Types.ts:27-131 | The exporters of the same four codecs. They never rename the element or drop an attribute. Attribute codecs leave the children alone, and `text` leaves the attributes alone. |
| Codecs.OwnRoundTrip | src/Types.ts:27-131 | Export then import through one of these codecs gives the value back. This holds for a non-empty string attribute, any boolean, any language string, and non-empty text written into an element without text. |
| Codecs.OwnIndependent | src/Types.ts:27-131 | Writing one field leaves unchanged what a field with a different attribute, or with text instead of an attribute, reads. |
| Codecs.OwnOnFresh | src/Types.ts:157-166 | A freshly created child reads as the codec's value for a missing child: the default for `attribute` and `text`, nothing otherwise. |
| Codecs.Decode | src/Types.ts:157-451 | The importers of the child codecs. A missing child yields the codec's default. `childBoolean` is present exactly when the child exists and is never false. `childEnum` yields the name of the first element child in the namespace whose name is in the set. The multiple codecs yield one item per matching child. |
| Codecs.Encode | src/Types.ts:157-451 | The exporters of the child codecs. They never rename the element. Only the element's own codecs touch its attributes. Its `xmlns` changes only through a codec that writes `xmlns` itself. |
| Codecs.AppendEach | src/Types.ts:423-449 | The exporter loop of the multiple codecs. It appends one child per item, in item order, after the existing children. Each child is created under the parent's namespace and carries the item. |
| CodecLaws.InChildTarget | src/Types.ts:167-170 | A child codec writes into the child that `getChild` finds afterwards. |
| CodecLaws.InChildRoundTrip | src/Types.ts:157-276 | For `childAttribute`, `childBooleanAttribute`, `childLanguageAttribute` and `childText`, export then import gives the value back. |
| CodecLaws.InChildSingleChild | src/Types.ts:167-170 | Writing a child codec creates the target child only when none exists. The number of matching children becomes one if it was zero and otherwise stays the same. |
| CodecLaws.InChildIndependent | src/Types.ts:157-172 | Writing one child field leaves unchanged what another field of the same child reads. |
| CodecLaws.SharedChildRoundTrip | src/Types.ts:157-206 | Two child fields targeting the same element share a single child, and both values come back from it. |
| CodecLaws.ChildBooleanRoundTrip | src/Types.ts:305-319 | Export then import of `childBoolean` yields `true` exactly when the value was truthy or the child was already there, and nothing otherwise. |
| CodecLaws.ChildEnumRoundTrip | src/Types.ts:395-411 | Export then import of `childEnum` gives back a name from the set, provided no child of the set was present before. |
| CodecLaws.MultipleChildRoundTrip | src/Types.ts:413-451 | Exporting a list of strings, then importing, reads the values that were there before followed by the list, in order. |
| Translators.MergeInto | src/Translator.ts:83-101 | One bucket of `updateDefinition`. The bucket at the key exists afterwards. Its fields are the old fields with the new ones written over them, the last write winning. An existing bucket keeps its namespace and element, and every other bucket is unchanged. |
| Translators.UpdateDefinition | src/Translator.ts:80-105 | The importer of the element and the exporter of `type or ""` exist afterwards, even with empty field maps. Each carries the new fields over its old ones. Other buckets are unchanged. The type value of the element is set exactly when the type is non-empty. |
| TranslatorLaws.UpdateDefinitionGrows | src/Translator.ts:80-105 | `updateDefinition` keeps a translator well formed and loses no bucket, field name, edge or type value. |
| Translators.AddChild | src/Translator.ts:34-70 | Under a new name the edge is `(src, multiple or false)`, the importers of `src` are indexed under the name, and nothing else changes. Under a taken name the existing translator stays, and only an explicit flag changes the edge's `multiple`. |
| TranslatorLaws.AddChildAbsorbs | src/Translator.ts:44-69 | Under a taken name, the existing translator gains every importer of `src` as the union of both field maps. When it is a different translator, all exporters of `src` are merged into its untyped exporter; when it is `src` itself, its own typed exporters are. The untyped exporter keeps its element, or is created for the first importer of `src`. Its type field, type values and typed exporters are unchanged. The elements of `src` are indexed under the name. |
| TranslatorLaws.AddChildSelfMerged | src/Translator.ts:44-69 | The translator being linked changes its untyped exporter only by being merged into itself: it keeps its element, and its fields stay or gain its own typed fields. Nothing typed changes. |
| TranslatorLaws.FoldImportersEffect | src/Translator.ts:51-59 | Re-declaring the listed importers of `src` on `dst` unions their fields per element, with `src` winning. Nothing typed changes. |
| TranslatorLaws.FoldExportersEffect | src/Translator.ts:61-68 | Re-declaring the exporters of `src` on `dst` with no type forwarded puts their fields into the `""` exporter of `dst`, later ones winning: all of them for another translator, the typed ones when `src` is `dst` (the untyped one adds nothing to itself). Importers and everything typed are unchanged. |
| TranslatorLaws.FoldExportersSelf | src/Translator.ts:61-68 | Folding a translator's exporters into itself puts every listed typed exporter's fields into its untyped exporter, later ones winning. |
| TranslatorLaws.AddChildKeepsWF | src/Translator.ts:34-70 | `addChild` keeps the arena well formed and only grows it. |
| TranslatorLaws.AddChildKeepsSource | src/Translator.ts:34-70 | `addChild` changes no type field, type value or typed exporter anywhere, and the linked translator keeps its importers. |
| Translators.GetChild | src/Translator.ts:72-78 | A translator is returned exactly when the name has an edge, and it is the one the edge names. |
| Translators.Stamp | src/Translator.ts:116-118 | The discriminator is written exactly when there is a type field and a non-empty type value for the element. |
| Translators.ImportFields | src/Translator.ts:120-125 | A key is set exactly when it was already set or its importer yields a value, including `false` and `""`. Imported values win over earlier ones. |
| Translators.Route | src/Translator.ts:128-137 | Text and elements whose identity is not indexed go nowhere. An indexed element goes to the field the index names, with that field's edge. |
| Translators.Collect | src/Translator.ts:139-149 | A single field is replaced. A multiple field is appended to, or starts a new array when absent or falsy. No other key changes. |
| Translators.Import | src/Translator.ts:107-154 | The result is absent exactly when the translator has no importer for the element. |
| ImportLaws.ImportReadsFields | src/Translator.ts:116-125 | For a key no child is collected under: it is set exactly when its importer yields a value, or it is the discriminator of an element with a type value. |
| ImportLaws.SkipsUnrouted | src/Translator.ts:127-135 | Text children and children with an unindexed identity do not affect the result. |
| ImportLaws.ChildrenFrame | src/Translator.ts:127-151 | The children pass changes only fields that indexed elements are collected under. |
| ImportLaws.ChildStep | src/Translator.ts:136-149 | One child contributes at most one object to a field: appended for a multiple field, replacing the value for a single one. |
| ImportLaws.CollectsInOrder | src/Translator.ts:141-145 | A multiple field receives the imported objects of its children in document order, after the array it already held. |
| ImportLaws.LastWins | src/Translator.ts:146-148 | A single field keeps the object of its last importable child. |
| Translators.ExportType | src/Translator.ts:157-160 | The type is `""` for an untyped translator or a falsy discriminator, and the discriminator itself when it is a string. |
| Translators.Export | src/Translator.ts:156-203 | The result is absent exactly when the data is no object or no exporter matches the type. Otherwise it is an element named after the selected exporter. |
| Translators.Items | src/Translator.ts:187-191 | A multiple child exports the items of its array, in order. A single child exports the value itself. |
| Translators.ExportItems | src/Translator.ts:193-198 | Exporting child items only appends children and keeps the element's name and attributes. |
| ExportLaws.ExportXmlns | src/Translator.ts:166 | The exported element declares its namespace exactly when there is no parent namespace or the namespaces differ, unless a field writes `xmlns` itself. |
| ExportLaws.KeysKeepXmlns | src/Translator.ts:168-200 | The key loop never touches the element's `xmlns` unless a field writes it. |
| ExportLaws.ItemsAppend | src/Translator.ts:185-198 | Each item that exports appends one element, in item order, created under the parent exporter's namespace. Items that do not export are skipped. |
| ExportLaws.KeyStep | src/Translator.ts:168-200 | One step of the key loop: a key the exporter has a field for is encoded by that field, whatever children the translator has; otherwise a key with a child translator appends what that translator exports for its items; any other key is dropped. |
| ExportLaws.DropsUnknownKey | src/Translator.ts:168-183 | A key that is neither a field of any exporter, nor a child, nor the discriminator is dropped: adding it changes nothing. |
| CodecFrames.ForeignUnread | src/Types.ts:157-451 | A node that is text or not one of a child codec's target elements is never matched by that codec's importer. |
| CodecFrames.DecodeAppendAll | src/Types.ts:157-451 | Appending children foreign to a child codec does not change what it imports. |
| CodecFrames.DecodeReplace | src/Types.ts:157-451 | Replacing a foreign child by another foreign element does not change what a child codec imports. |
| CodecFrames.EncodeShape | src/Types.ts:157-451 | A child codec's exporter appends only elements among its targets, and at most replaces one of its target children. |
| CodecFrames.EncodeForeign | src/Types.ts:157-451 | Writing a child codec leaves unchanged what another child codec with disjoint targets imports. |
| CodecFrames.EncodeKeepsOwn | src/Types.ts:27-451 | Writing a child codec leaves unchanged what every own-element codec imports. |
| CodecFrames.EncodeKeepsText | src/Types.ts:157-451 | Writing a child codec keeps the element's attributes and its text. |
| CodecFrames.EncodeRouted | src/Translator.ts:127-137 | Writing a child codec none of whose targets the translator indexes leaves the children `import` routes unchanged. |
| CodecFrames.EncodeGrows | src/Types.ts:157-451 | Every child after writing a child codec was there before or is one of its targets. |
| CodecFrames.ChildCarries | src/Types.ts:157-451 | Export then import of a child codec into an element holding none of its targets gives the value back: a surviving value of a child field, `true` for `childBoolean`, a set name for `childEnum`, a list of strings for the multiple codecs. |
| CodecFrames.OwnKeepsChildren | src/Types.ts:27-131 | Writing an own-element codec does not change what a child codec imports, and adds no child but text. |
| CodecFrames.OwnKeepsRouted | src/Translator.ts:127-137 | Writing an own-element codec leaves the children `import` routes unchanged. |
| RoundTrips.TextOnly | src/Translator.ts:127-129 | The children pass ignores text. |
| RoundTrips.KeysEncode | src/Translator.ts:168-200 | After the key loop over an encodable object, every own and child field reads back from the element, and the children `import` routes are exactly the elements exported for the nested objects, in key order. |
| RoundTrips.ExportShape | src/Translator.ts:156-203 | An encodable object exports as an element of the exporter's name from which every own and child field reads back, and whose routed children are the nested objects' elements in key order. |
| RoundTrips.ImportShape | src/Translator.ts:107-154 | Importing an element its translator knows is the field pass followed by the routed children alone. |
| RoundTrips.NotRoutedTo | src/Translator.ts:127-149 | A key no child is routed to keeps its presence and value through the children pass. |
| RoundTrips.NestedRoutes | src/Translator.ts:127-137 | Every element exported for a nested object is routed to a nested key of the object. |
| RoundTrips.NestedResults | src/Translator.ts:136-148 | The nested elements contribute to a key exactly the object its child translator imports from the element it exported for that key, and nothing to other keys. |
| RoundTrips.FieldComesBack | src/Translator.ts:107-203 | An own field, a child field or the type discriminator of a transferable object comes back with its value. |
| RoundTrips.NestedComesBack | src/Translator.ts:136-148 | A nested key comes back as what its child translator imports from the element it exported for it. |
| RoundTrips.ObjectRoundTrip | src/Translator.ts:107-203 | Export then import through one translator gives back every key of a transferable object: own and child fields through their codecs, the type discriminator through the element's type value, and each nested object, by induction on its depth, with every key it had. |
| Registries.NewRegistry | src/Registry.ts:20-23 | A new registry is valid, holds only the root translator and indexes nothing. |
| Registries.Split | src/Registry.ts:35 | `split('.')` gives at least one segment, and no segment contains a dot. |
| RegistryLaws.SplitJoin | src/Registry.ts:35 | Joining the segments of a path with dots gives the path back. |
| RegistryLaws.JoinSplit | src/Registry.ts:53 | Splitting dot-free segments joined with dots gives the segments back. |
| Registries.NonEmpty | src/Registry.ts:35-37 | Every segment the filter keeps is non-empty and comes from the input. Every non-empty input segment is kept. |
| Registries.IndexTranslator | src/Registry.ts:144-146 | The index maps the element to the translator. Nothing else changes. |
| Registries.FindTranslator | src/Registry.ts:117-124 | An indexed element returns its translator and changes nothing. Otherwise autovivify appends and indexes a fresh translator, and without it nothing is returned and nothing changes. Whatever it returns is indexed afterwards, so a second lookup finds the same translator and changes nothing. |
| Registries.WalkFrom | src/Registry.ts:126-142 | The walk keeps the registry valid and only grows it. Without autovivify it changes nothing. With autovivify it always returns a translator. |
| RegistryLaws.WalkFinds | src/Registry.ts:126-142 | Without autovivify the walk ends where following the edges ends, and returns nothing at the first missing segment. |
| RegistryLaws.WalkCreates | src/Registry.ts:126-142 | With autovivify the path afterwards leads to the returned translator. A path that already existed is followed without change. Otherwise the walk ends on a translator it has just created. |
| RegistryLaws.WalkPrefixes | src/Registry.ts:126-142 | After a walk with autovivify, every prefix of the path can be followed from the root. |
| RegistryLaws.WalkKeepsBuckets | src/Registry.ts:126-142 | A walk only adds child edges. Buckets, type fields and type values stay as they were. |
| Registries.Alias | src/Registry.ts:100-115 | The element is indexed afterwards: to its existing translator, or else to a fresh one. |
| RegistryLaws.AliasLinks | src/Registry.ts:100-115 | The parent of the path has the last segment as a child, with the given flag. The child is the translator that was already at the full path, or else the linked one. The path then leads there, and the parent routes the linked translator's elements to that field. |
| RegistryLaws.AliasKeeps | src/Registry.ts:100-115 | An alias changes no type field, type value or typed exporter, and the linked translator keeps its importers. |
| RegistryLaws.AliasSelf | src/Registry.ts:100-115 | An alias at a path that already leads to the translator merges it into itself: its typed fields land in its untyped exporter, created for the element of its first importer when missing. |
| RegistryLaws.AliasAllMerged | src/Registry.ts:89-97 | The alias loop changes the linked translator's untyped exporter only by merges into itself. |
| RegistryLaws.AliasAllReaches | src/Registry.ts:89-97 | After the alias loop, every alias path can be followed from the root. |
| Registries.Target | src/Registry.ts:52-56 | A typed definition with a path walks to its translator and leaves the index alone. Any other definition finds or creates the translator of its element. |
| Registries.Define | src/Registry.ts:50-98 | The registry stays valid and only grows. Afterwards the element is indexed, and no other index entry changes. |
| RegistryLaws.DefineDeclares | src/Registry.ts:50-97 | The element is indexed to the target. The target gets the type field when one is given, and the type value when a type is given. The new fields are written over the old ones in the element's importer and in the type's exporter. Every other importer and typed exporter is unchanged. A typed definition is reached by its path. The untyped exporter keeps its element (an untyped definition creates it for its own) and holds the old fields with an untyped definition's over them, possibly followed by every typed exporter's fields, merged in when the path or an alias leads to the translator itself. |
| RegistryLaws.DefineKeepsOthers | src/Registry.ts:50-97 | `define` indexes only its own element: every other element keeps the translator it was indexed to. |
| RegistryLaws.DefineLinks | src/Registry.ts:85-97 | The path and every alias can be followed afterwards. An untyped definition whose path led nowhere before is reached at that path by its own translator. |
| RegistryLaws.DefineImports | src/Registry.ts:25-32 | After `define`, the registry imports every element of the defined name. |
| Registries.Import | src/Registry.ts:25-32 | The result is absent exactly when the element is not indexed, or its translator has no importer for it. Otherwise it is that translator's `import`. |
| Registries.Export | src/Registry.ts:34-48 | The path's non-empty segments are followed without creating anything. A missing segment gives nothing. When the path can be followed, the result is exactly the top-level export of the translator it leads to. |
| RegistryLaws.ExportDeclaresNamespace | src/Registry.ts:47 | The top-level element always declares its namespace, unless a field writes `xmlns` itself. |
| Polymorphism.DefineFresh | src/Registry.ts:52-97 | A typed definition at a new path creates a translator that serves exactly that element and type and is reached by the path. When no segment is empty, the alias at that path also gives it an untyped exporter for the same element with the definition's fields, so objects without a type export as that element. |
| Polymorphism.FreshUntyped | src/Registry.ts:85-97 | The untyped exporter that the self-alias of a fresh typed definition creates: the definition's namespace, element and fields. |
| Polymorphism.DefineShared | src/Registry.ts:52-57 | A second typed definition at the same path lands on the same translator, which then serves both types. |
| Polymorphism.ServedRoundTrip | src/Translator.ts:107-203 | A translator serving a type exports an object of that type, whose keys its codecs, children and type field carry, under that type's namespace and element, and imports it back with every key holding. |
| Polymorphism.PolymorphicRoundTrip | test/exports.ts:211-270 | Define two types at one path, then export an object of either type from that path. It comes out as the element registered for its type, and the registry imports it back with every key holding, the type included. |

## Left out

- The integer, float, date and buffer codecs (`integerAttribute`, `floatAttribute`, `dateAttribute`, `textBuffer` and their child variants) depend on JavaScript number parsing, `Date` and `Buffer`. They are the single opaque codec `Unmodelled`, which imports nothing and exports nothing.
- ltx itself (parsing, serialisation, namespace inheritance in `getNS`) is not part of this model. Elements carry their resolved namespace, and `getChild(name, ns)` matches the namespace exactly, without ltx's wildcard for an absent namespace.
- An `xmlns` attribute written by a codec does not change the element's resolved namespace.
- The namespace a codec passes when it creates a child element is the element's own, resolved namespace. The source passes `xml.getNS()` (src/Types.ts:21, :425, :445). For an element `export` creates without `xmlns`, because its namespace equals its parent's, that is undefined until the element is attached, which happens only after its fields are written (src/Translator.ts:194-196). So the source gives such a nested element's codec children an `xmlns` attribute, and the model does not. The resolved namespaces agree either way.
- Codec exporters given a value of the wrong JavaScript type are modelled as writing nothing. The source would store the raw value (or, for text, push it as a child).
- Export of a value that is not an object, as a child item or at the top, gives no element. This includes arrays, which JavaScript treats as objects. In the source, `null` throws. An array or any other primitive selects the untyped exporter, because its discriminator reads as undefined; when that exporter exists, its element is created. The index keys of strings and arrays match no field, so a string or an array gives an element with no fields written, and so do booleans and numbers, which have no keys. The round-trip lemmas require every nested value to be an object, so they do not depend on this.
- A multiple child field whose value is not an array exports nothing. The source iterates whatever `for...of` accepts there and throws on the rest. For a string that means one child per character: through a child translator, and through `multipleChildText` or `multipleChildAttribute`, which write one element per character.
- Collecting a multiple child onto a field that holds a truthy non-array leaves the field unchanged. The source throws there.
- An alias whose path has no non-empty segment links nothing. The source links under the key `undefined`.
- The exporter fold of `addChild` reads each bucket from the arena when it is applied. This differs from a snapshot only when the existing child is the linked translator itself.
- The integer-like key ordering of JavaScript objects is not modelled: own keys keep insertion order.
- No language or context is threaded through import and export, and the source has none either.
- Registries.Import: its result is also absent when the indexed translator has no importer for the element, because the translator's `import` returns `null` there. So "absent exactly when not indexed" holds only after `define` (RegistryLaws.DefineImports), not for every registry.
- RegistryLaws.DefineLinks: it says which translator a path leads to only for the main path of an untyped definition. For aliases it says only that the path can be followed, because an earlier alias of the same definition may have created part of a later one.
- Polymorphism.PolymorphicRoundTrip: it requires a path new to the registry and made only of non-empty segments, and exports at that path itself. The source's test exports through a parent element.
- `define` walks the unfiltered `split('.')` of a typed path, empty segments included, while `alias` and `export` drop empty segments. This is the source's behaviour and the model keeps it.
- RoundTrips.ObjectRoundTrip: it does not cover a key that names a multiple child translator (an array of objects). Collection in document order is stated by ImportLaws.CollectsInOrder, and emission in item order by ExportLaws.ItemsAppend, but the two are not composed.
- RoundTrips.ObjectRoundTrip: it does not cover two child fields that share a target element, such as two attributes of one child; CodecLaws.SharedChildRoundTrip states that case on its own.
- RoundTrips.ObjectRoundTrip: it does not cover a `childBoolean` holding a falsy value (export writes nothing, and import then yields no key), nor the codecs modelled as `Unmodelled`.
- RoundTrips.ObjectRoundTrip: the object, and each nested object, comes back with at least the keys it had, each holding again (`Holds`). Import may add keys: the discriminator of an element with a type value, or a field whose importer yields a default.
- RoundTrips.ObjectRoundTrip: it requires the type discriminator to name no child translator. Otherwise the source exports the child translator's element for the discriminator's string, and import then puts an object where the type string was.
- ServedRoundTrip: it inherits the limits of RoundTrips.ObjectRoundTrip listed above.
- PolymorphicRoundTrip: it inherits the limits of RoundTrips.ObjectRoundTrip. It states which keys the object may hold against the translator shared by both definitions after both `define` calls.
