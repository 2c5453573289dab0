# atlas-lite storage core in Dafny

atlas-lite is a property-graph database. Nodes carry an id, a label and
string properties. Relations are typed links from one node id to another.
The data is split over sixteen shards ("segments") by the hash of the id.
Each segment lives in one encrypted file and is loaded lazily. At most four
segments are kept in memory, in least-recently-used order.

This project models that storage core and proves properties of it:

- **`DataSegment`** is a Dafny `class` (`Segments.DataSegment`) with the
  Java fields: the node map, the relation list, the inverted index and the
  `indexing`, `loaded` and `dirty` flags. The file it reads and writes is a
  field too. Each method's new state is tied to a function on the segment
  as a value (`SegmentSpec`). The invariant is `Healthy`: every node is
  stored under its own id, and when indexing is on the index maps each
  lowercased token to exactly the ids of the nodes carrying it. The lemmas
  of `SegmentSpec` show that each operation keeps it and what each returns.
  The file format is modelled byte by byte: `DataIO` for writeUTF/readUTF
  and writeInt/readInt, `Nodes`, `Relations` and `SegmentImage` for the
  records and the image. Round trips are proved for every layer, up to
  "a segment reopened over the file that save wrote loads exactly what was
  saved".
- **`GraphEngine`** is a class (`GraphEngines.GraphEngine`) holding sixteen
  `DataSegment` objects, the LRU deque and the autoIndexing flag. Each
  method is tied to a function of `EngineSpec` on the engine as a value.
  Routing (`Routing`) follows `Math.abs(hashCode()) % 16` with 32-bit
  wrap-around. The LRU bookkeeping is in `Lru`. The breadth-first search of
  `findShortestPath` is an imperative method with its invariants (`Paths`).
  `EngineProps` and `Residency` prove what the operations do to the stored
  graph, and that eviction loses nothing.
- **`Node`** (`Nodes`) and **`Relation`** (`Relations`) are datatypes with
  their encodings and toString texts.
- **`SelectCommand`** (`Select`) is the query parser and condition
  check over the full node scan.
- **`AddNodeCommand`** (`AddNode`) is the argument parsing with its
  smart id detection, and the property loop as a method.

Where the code and the repository's design description differ, the model
follows the code:

- **removeRelation** removes every matching relation, not just one
  (`DataSegment.java:199`).
- **A load that fails part-way** keeps what it read before the failure, and
  the segment stays unloaded (`DataSegment.java:69-80`).
- **The routing hash** is `String.hashCode`, over UTF-16 code units.
- **Relation.java declares no `writeTo`/`readFrom`**, although
  `DataSegment.java` calls both (lines 76 and 108). The model writes a
  relation as three writeUTF strings in field order: source, target, type.
  Relation.java's missing codec methods are not part of this model.
- **unload** drops memory even when save could not encode the image. That
  matches the code: save catches its own exception, then unload clears.
- **findShortestPath** expands maxDepth + 1 levels, as its depth check is
  written (`GraphEngine.java:93`), so the engine's search may return a path
  of maxDepth + 1 hops. The intended bound is the second finding below.
- **updateNode** is the one place where the engine follows the corrected
  behaviour: it stores a changed copy, while the code's in-place change,
  which leaves a stale index key, is modelled at the segment level and
  logged as the first finding below.

## Model

| member | source | states |
|---|---|---|
| JavaText.LowerIdempotent | src/main/java/com/atlasdblite/engine/DataSegment.java:247-249 | lowering a lowered key changes nothing, so an index key looks itself up |
| JavaText.LowerConcat | src/main/java/com/atlasdblite/engine/DataSegment.java:281-282 | lowercasing distributes over concatenation, as the scan lowers a whole toString text |
| JavaText.ContainsIff | src/main/java/com/atlasdblite/engine/DataSegment.java:282 | String.contains holds exactly when the needle occurs at some offset of the text |
| JavaText.ContainsInfix | src/main/java/com/atlasdblite/engine/DataSegment.java:282 | a text contains every one of its infixes |
| JavaText.ContainsExtend | src/main/java/com/atlasdblite/engine/DataSegment.java:282 | text added on either side of an occurrence does not hide it |
| JavaText.LowerContains | src/main/java/com/atlasdblite/engine/DataSegment.java:282 | an occurrence survives lowercasing both the text and the needle |
| JavaText.ContainsChar | src/main/java/com/atlasdblite/commands/AddNodeCommand.java:49 | `contains(":")` on a one-character needle is membership of that character |
| JavaText.IndexOf | src/main/java/com/atlasdblite/commands/AddNodeCommand.java:71-72 | the result is the first position of the character, and None exactly when it does not occur |
| JavaText.SplitAtFirstColon | src/main/java/com/atlasdblite/commands/AddNodeCommand.java:71-72 | `split(":", 2)` gives two parts exactly when there is a colon: the part before the first colon (colon-free) and the rest, which rejoin to the token |
| JavaText.BelowAntisymmetric | src/main/java/com/atlasdblite/engine/DataSegment.java:106 | the fixed enumeration order standing for map iteration order is antisymmetric |
| JavaText.BelowTransitive | src/main/java/com/atlasdblite/engine/DataSegment.java:106 | the enumeration order is transitive |
| JavaText.BelowTotal | src/main/java/com/atlasdblite/engine/DataSegment.java:106 | the enumeration order is total |
| JavaText.Least | src/main/java/com/atlasdblite/engine/DataSegment.java:106 | a non-empty set has an element no greater than any other in the enumeration order |
| JavaText.EnumerateMembers | src/main/java/com/atlasdblite/engine/DataSegment.java:106 | iterating a set lists each element exactly once and nothing else |
| DataIO.CharsOfUnits | src/main/java/com/atlasdblite/models/Node.java:54-55 | the UTF-16 code units of a string decode back to that string |
| DataIO.UnitAtEncode | src/main/java/com/atlasdblite/models/Node.java:70-71 | readUTF decodes the one-to-three bytes writeUTF emits for a code unit back to that unit, consuming exactly them |
| DataIO.DecodeEncodeUnits | src/main/java/com/atlasdblite/models/Node.java:70-71 | the modified UTF-8 body of any code-unit sequence decodes back to it |
| DataIO.WriteUTF | src/main/java/com/atlasdblite/models/Node.java:54-55 | writeUTF succeeds exactly when the body fits the 16-bit length (UTFDataFormatException otherwise) and writes two length bytes plus the body |
| DataIO.AsciiBody | src/main/java/com/atlasdblite/engine/DataSegment.java:104 | an ASCII string's body is its character codes, one byte each |
| DataIO.WriteAscii | src/main/java/com/atlasdblite/engine/DataSegment.java:104 | writeUTF of a short ASCII string is a zero byte, the length, then the codes |
| DataIO.ReadWriteUTF | src/main/java/com/atlasdblite/models/Node.java:70-71 | readUTF returns the string writeUTF wrote and leaves exactly the bytes after it |
| DataIO.WrapInt32 | src/main/java/com/atlasdblite/models/Node.java:56 | an int conversion is the identity in range and otherwise differs by a multiple of 2^32 |
| DataIO.WriteInt | src/main/java/com/atlasdblite/models/Node.java:56 | writeInt writes exactly four bytes |
| DataIO.ReadInt | src/main/java/com/atlasdblite/models/Node.java:72 | readInt fails exactly when fewer than four bytes remain and otherwise consumes exactly four |
| DataIO.ReadWriteInt | src/main/java/com/atlasdblite/models/Node.java:72 | readInt returns the value writeInt wrote, negatives included, and leaves the bytes after it |
| Nodes.NewNode | src/main/java/com/atlasdblite/models/Node.java:24-30 | a new node has the given id and label and no properties |
| Nodes.AddProperty | src/main/java/com/atlasdblite/models/Node.java:37-40 | the key is set to the value, the keys become the old keys plus this one, every other key keeps its value, id and label stay |
| Nodes.KeyOrder | src/main/java/com/atlasdblite/models/Node.java:57 | iterating a property map lists every key exactly once |
| Nodes.EncodePropsOk | src/main/java/com/atlasdblite/models/Node.java:57-60 | writing the property pairs succeeds exactly when every key and value fits writeUTF |
| Nodes.EncodeNodeOk | src/main/java/com/atlasdblite/models/Node.java:53-61 | writeTo fails exactly when some string of the node is too long for writeUTF |
| Nodes.ReadFrom | src/main/java/com/atlasdblite/models/Node.java:69-81 | readFrom, with its property loop, computes the decoding function DecodeNode |
| Nodes.ReadEntries | src/main/java/com/atlasdblite/models/Node.java:74-80 | the property loop of readFrom does `count` addProperty calls, stopping at the first pair that cannot be read |
| Nodes.DecodeNode | src/main/java/com/atlasdblite/models/Node.java:69-81 | a decoded node leaves strictly fewer bytes than it was given |
| Nodes.ReadPropsShrinks | src/main/java/com/atlasdblite/models/Node.java:74-80 | reading properties never produces more bytes than it was given |
| Nodes.ReadEncodedProps | src/main/java/com/atlasdblite/models/Node.java:74-80 | reading back the pairs written for a list of keys adds exactly those entries and leaves the bytes after them |
| Nodes.DecodeHeader | src/main/java/com/atlasdblite/models/Node.java:69-73 | decoding over a header written by writeUTF, writeUTF, writeInt starts from a fresh node with that id and label and reads the declared count of pairs |
| Nodes.ReadWriteNode | src/main/java/com/atlasdblite/models/Node.java:53-81 | readFrom on what writeTo wrote gives back the same node whatever the order of the entries, and consumes exactly its bytes |
| Nodes.ReadPropsSize | src/main/java/com/atlasdblite/models/Node.java:74-80 | repeated keys collapse, so the decoded map has at most as many entries as pairs read |
| Nodes.DecodedNodeSize | src/main/java/com/atlasdblite/models/Node.java:72-80 | a decoded node has at most as many properties as its declared count (none for a negative count) |
| Nodes.ValueInEntriesText | src/main/java/com/atlasdblite/models/Node.java:83-86 | every property value occurs in the printed entries |
| Nodes.TokenInText | src/main/java/com/atlasdblite/models/Node.java:83-86 | the id, the label and every property value occur in the node's toString text |
| Relations.RelationTextParts | src/main/java/com/atlasdblite/models/Relation.java:21-24 | the source, the type and the target all occur in the relation's toString text |
| Relations.EncodeRelation | src/main/java/com/atlasdblite/engine/DataSegment.java:107-108 | a relation record can be written exactly when its three strings fit writeUTF |
| Relations.DecodeRelation | src/main/java/com/atlasdblite/engine/DataSegment.java:75-76 | a decoded relation consumes at least its three length prefixes |
| Relations.ReadWriteRelation | src/main/java/com/atlasdblite/engine/DataSegment.java:75-76 | a written relation reads back unchanged and consumes exactly its bytes |
| InvertedIndex.IndexForUnique | src/main/java/com/atlasdblite/engine/DataSegment.java:30 | the index invariant determines the index: two indexes of the same nodes are equal |
| InvertedIndex.AddKeys | src/main/java/com/atlasdblite/engine/DataSegment.java:247-249 | adding an id under a set of keys adds it to exactly those keys' sets, creating absent keys |
| InvertedIndex.RemoveKeys | src/main/java/com/atlasdblite/engine/DataSegment.java:257-264 | removing an id under a set of keys removes it from exactly those sets, and a key disappears exactly when its set empties |
| InvertedIndex.AddToIndexStep | src/main/java/com/atlasdblite/engine/DataSegment.java:247-249 | one addToIndex call adds the id under one more (lowercased) key |
| InvertedIndex.RemoveFromIndexKeyStep | src/main/java/com/atlasdblite/engine/DataSegment.java:257-264 | one removeFromIndexKey call removes the id under one more (lowercased) key |
| InvertedIndex.ValuesOf | src/main/java/com/atlasdblite/engine/DataSegment.java:244 | the listed values are exactly the values of the property map |
| InvertedIndex.TokenOrderKeys | src/main/java/com/atlasdblite/engine/DataSegment.java:241-245 | visiting id, label and values in order reaches exactly the node's index keys |
| InvertedIndex.AddEachKeys | src/main/java/com/atlasdblite/engine/DataSegment.java:241-245 | adding key by key equals adding the set of lowercased keys at once |
| InvertedIndex.RemoveEachKeys | src/main/java/com/atlasdblite/engine/DataSegment.java:251-255 | removing key by key equals removing the set of lowercased keys at once |
| InvertedIndex.IndexNodeAdds | src/main/java/com/atlasdblite/engine/DataSegment.java:241-245 | indexNode adds exactly the node's keys under its id |
| InvertedIndex.RemoveFromIndexRemoves | src/main/java/com/atlasdblite/engine/DataSegment.java:251-255 | removeFromIndex removes exactly the node's keys under its id |
| InvertedIndex.RemoveKeeps | src/main/java/com/atlasdblite/engine/DataSegment.java:169-171 | removing a stored node's keys leaves the index invariant for the remaining nodes |
| InvertedIndex.AddKeeps | src/main/java/com/atlasdblite/engine/DataSegment.java:134-137 | adding the keys of a node with a new id keeps the invariant for the enlarged map |
| InvertedIndex.PutKeeps | src/main/java/com/atlasdblite/engine/DataSegment.java:130-143 | putNode's remove-then-add keeps the invariant for the updated map |
| InvertedIndex.IndexAllKeeps | src/main/java/com/atlasdblite/engine/DataSegment.java:236-239 | indexing nodes with fresh distinct ids one by one keeps the invariant |
| SegmentImage.ListedIsStored | src/main/java/com/atlasdblite/engine/DataSegment.java:106 | every node nodes.values() lists is stored |
| SegmentImage.StoredIsListed | src/main/java/com/atlasdblite/engine/DataSegment.java:106 | every stored node is listed by nodes.values() |
| SegmentImage.NodeOrderMembers | src/main/java/com/atlasdblite/engine/DataSegment.java:106 | nodes.values() lists as many nodes as are stored, exactly the stored ones |
| SegmentImage.NodeOrderDistinct | src/main/java/com/atlasdblite/engine/DataSegment.java:106 | with every node stored under its own id, the listed nodes have distinct ids |
| SegmentImage.NodeOrderRebuilds | src/main/java/com/atlasdblite/engine/DataSegment.java:69-74 | putting the listed nodes one by one into an empty map gives back the stored map |
| SegmentImage.SealBijection | src/main/java/com/atlasdblite/engine/DataSegment.java:110 | encryption with Base64 is abstracted as a bijection: unsealing a sealed image gives it back, and only its seal unseals to it |
| SegmentImage.MagicHeaderWritten | src/main/java/com/atlasdblite/engine/DataSegment.java:104 | the header constant is exactly what writeUTF writes for SEG_V1 |
| SegmentImage.LoadEncodedNodes | src/main/java/com/atlasdblite/engine/DataSegment.java:69-74 | the node records written for a list read back as puts, and with indexing on index additions, of that list, leaving the bytes after them |
| SegmentImage.LoadEncodedRelations | src/main/java/com/atlasdblite/engine/DataSegment.java:75-76 | the relation records written for a list read back as appends of that list |
| SegmentImage.EncodeImageParts | src/main/java/com/atlasdblite/engine/DataSegment.java:102-109 | the image is the header, the node count, the node records, the relation count and the relation records, in that order |
| SegmentImage.EncodeNodesOk | src/main/java/com/atlasdblite/engine/DataSegment.java:106 | the node records can be written exactly when every node's record can |
| SegmentImage.EncodeRelationsOk | src/main/java/com/atlasdblite/engine/DataSegment.java:108 | the relation records can be written exactly when every relation's record can |
| SegmentImage.EncodableShrinks | src/main/java/com/atlasdblite/engine/DataSegment.java:102-109 | a sub-map of the nodes and a sub-list of the relations still fit the image when the originals did |
| SegmentImage.LoadImageSections | src/main/java/com/atlasdblite/engine/DataSegment.java:67-77 | reading an image with an intact header and node section comes down to the node loop followed by the relation loop |
| SegmentImage.LoadSavedNodes | src/main/java/com/atlasdblite/engine/DataSegment.java:69-74 | the node section written for a map reads back as that map, with an index satisfying the invariant when indexing is on |
| SegmentImage.LoadSavedRelations | src/main/java/com/atlasdblite/engine/DataSegment.java:75-76 | the relation section written for a list reads back as that list |
| SegmentImage.LoadSavedImage | src/main/java/com/atlasdblite/engine/DataSegment.java:54-124 | reading what save wrote into an empty segment rebuilds the same nodes and relations completely, with a valid index when indexing is on |
| SegmentSpec.Load | src/main/java/com/atlasdblite/engine/DataSegment.java:54-85 | loading keeps the indexing, dirty and file state, and does nothing to a loaded segment |
| SegmentSpec.LoadRejectsHeader | src/main/java/com/atlasdblite/engine/DataSegment.java:67-68 | a file whose header is not SEG_V1 leaves the segment exactly as it was, unloaded |
| SegmentSpec.FilterMembers | src/main/java/com/atlasdblite/engine/DataSegment.java:172 | a filter keeps exactly the relations on its side of the predicate |
| SegmentSpec.FilterConcat | src/main/java/com/atlasdblite/engine/DataSegment.java:172 | filtering keeps order: it distributes over concatenation |
| SegmentSpec.FilterRemoves | src/main/java/com/atlasdblite/engine/DataSegment.java:199-202 | removeIf changes the list exactly when it reports a removal |
| SegmentSpec.StoredAmongMembers | src/main/java/com/atlasdblite/engine/DataSegment.java:278 | the id lookup keeps exactly the nodes stored under some listed id |
| SegmentSpec.ScanHitsMembers | src/main/java/com/atlasdblite/engine/DataSegment.java:281-283 | the scan keeps exactly the listed nodes whose lowered text contains the query |
| SegmentSpec.StoredAmongSet | src/main/java/com/atlasdblite/engine/DataSegment.java:278 | looking up the ids of a set finds exactly the stored nodes under its members |
| SegmentSpec.IndexLookup | src/main/java/com/atlasdblite/engine/DataSegment.java:276-278 | under the invariant, an index lookup of a key finds exactly the stored nodes having that key |
| SegmentSpec.IndexedSearch | src/main/java/com/atlasdblite/engine/DataSegment.java:276-278 | indexed search finds exactly the stored nodes with a token equal to the query ignoring case |
| SegmentSpec.ScanSearch | src/main/java/com/atlasdblite/engine/DataSegment.java:279-283 | unindexed search finds exactly the stored nodes whose lowered text contains the lowered query |
| SegmentSpec.IndexedWithinScan | src/main/java/com/atlasdblite/engine/DataSegment.java:272-288 | every node the index lookup finds, the scan finds too |
| SegmentSpec.RebuildIndexFor | src/main/java/com/atlasdblite/engine/DataSegment.java:236-239 | rebuilding from the stored nodes yields an index satisfying the invariant |
| SegmentSpec.SetIndexingKeeps | src/main/java/com/atlasdblite/engine/DataSegment.java:225-234 | setIndexing keeps the segment invariant when the segment is loaded or empty |
| SegmentSpec.PutNodeKeeps | src/main/java/com/atlasdblite/engine/DataSegment.java:130-143 | putNode keeps the segment invariant |
| SegmentSpec.RemoveNodeKeeps | src/main/java/com/atlasdblite/engine/DataSegment.java:165-180 | removeNode keeps the segment invariant |
| SegmentSpec.RelationOpsKeep | src/main/java/com/atlasdblite/engine/DataSegment.java:183-222 | relation operations, save and unload keep the segment invariant |
| SegmentSpec.PutNodeThenGet | src/main/java/com/atlasdblite/engine/DataSegment.java:130-158 | after putNode the node is found under its id, every other lookup is unchanged, relations stay and the segment is dirty |
| SegmentSpec.RemoveNodeResult | src/main/java/com/atlasdblite/engine/DataSegment.java:165-180 | removeNode reports whether the node was there; if so it is gone, others stay, its outgoing relations are dropped in order and the segment is dirty; if not, only loading happened |
| SegmentSpec.AddRelationAppends | src/main/java/com/atlasdblite/engine/DataSegment.java:183-192 | addRelation appends at the end, marks dirty and leaves the nodes |
| SegmentSpec.RemoveRelationResult | src/main/java/com/atlasdblite/engine/DataSegment.java:195-207 | removeRelation drops every match and nothing else, reports whether there was one, and marks dirty only then |
| SegmentSpec.RemoveRelationsToResult | src/main/java/com/atlasdblite/engine/DataSegment.java:291-299 | removeRelationsTo drops exactly the relations targeting the id, keeping the order of the rest |
| SegmentSpec.RelationsFromResult | src/main/java/com/atlasdblite/engine/DataSegment.java:302-310 | getRelationsFrom returns exactly the relations with that source, in stored order |
| SegmentSpec.ReopenSees | src/main/java/com/atlasdblite/engine/DataSegment.java:54-85 | a segment opened over a file save wrote loads exactly the saved nodes and relations, with a valid index |
| SegmentSpec.SaveWrites | src/main/java/com/atlasdblite/engine/DataSegment.java:92-124 | save of a dirty loaded segment writes its memory to the file, clears dirty and keeps the memory |
| SegmentSpec.UnloadReload | src/main/java/com/atlasdblite/engine/DataSegment.java:210-222 | unloading then loading gives what save alone gives: eviction loses nothing |
| SegmentSpec.UpdateCopyKeeps | src/main/java/com/atlasdblite/engine/GraphEngine.java:134-142 | putting a changed copy keeps the segment invariant and stores the node with the property set |
| SegmentSpec.UpdateInPlaceStale | src/main/java/com/atlasdblite/engine/GraphEngine.java:136-139 | the in-place update breaks the index invariant whenever it overwrites a value no other token of the node lowers to |
| SegmentSpec.UpdateInPlaceStaleExample | src/main/java/com/atlasdblite/engine/GraphEngine.java:136-139 | a concrete healthy segment that the in-place update leaves with a stale index key |
| Segments.IndexTokens | src/main/java/com/atlasdblite/engine/DataSegment.java:241-245 | the loop of indexNode adds exactly the node's keys under its id |
| Segments.UnindexTokens | src/main/java/com/atlasdblite/engine/DataSegment.java:251-255 | the loop of removeFromIndex removes exactly the node's keys under its id |
| Segments.ReadNodes | src/main/java/com/atlasdblite/engine/DataSegment.java:69-74 | the node loop computes the node-section reading function, stopping at the first bad record |
| Segments.ReadRelations | src/main/java/com/atlasdblite/engine/DataSegment.java:75-76 | the relation loop computes the relation-section reading function, stopping at the first bad record |
| Segments.DataSegment.constructor | src/main/java/com/atlasdblite/engine/DataSegment.java:43-47 | a new segment is empty, not loaded, not dirty, not indexing, over its file |
| Segments.DataSegment.IndexNode | src/main/java/com/atlasdblite/engine/DataSegment.java:241-245 | only the index changes: the node's keys are added under its id |
| Segments.DataSegment.RemoveFromIndex | src/main/java/com/atlasdblite/engine/DataSegment.java:251-255 | only the index changes: the node's keys are removed under its id |
| Segments.DataSegment.RebuildIndex | src/main/java/com/atlasdblite/engine/DataSegment.java:236-239 | only the index changes: it becomes the index of the stored nodes |
| Segments.DataSegment.LoadIfRequired | src/main/java/com/atlasdblite/engine/DataSegment.java:54-85 | the new state is the load function of the old one |
| Segments.DataSegment.Save | src/main/java/com/atlasdblite/engine/DataSegment.java:92-124 | the new state is the save function of the old one |
| Segments.DataSegment.Unload | src/main/java/com/atlasdblite/engine/DataSegment.java:210-222 | the new state is the unload function of the old one |
| Segments.DataSegment.PutNode | src/main/java/com/atlasdblite/engine/DataSegment.java:130-143 | the new state is putNode's function of the old one |
| Segments.DataSegment.GetNode | src/main/java/com/atlasdblite/engine/DataSegment.java:150-158 | returns the stored node after loading, and only loads |
| Segments.DataSegment.RemoveNode | src/main/java/com/atlasdblite/engine/DataSegment.java:165-180 | new state and report are removeNode's function of the old state |
| Segments.DataSegment.RemoveIf | src/main/java/com/atlasdblite/engine/DataSegment.java:172 | keeps the unselected relations in order and reports whether any were selected |
| Segments.DataSegment.AddRelation | src/main/java/com/atlasdblite/engine/DataSegment.java:183-192 | the new state is addRelation's function of the old one |
| Segments.DataSegment.RemoveRelation | src/main/java/com/atlasdblite/engine/DataSegment.java:195-207 | new state and report are removeRelation's function of the old state |
| Segments.DataSegment.RemoveRelationsTo | src/main/java/com/atlasdblite/engine/DataSegment.java:291-299 | the new state is removeRelationsTo's function of the old one |
| Segments.DataSegment.GetRelationsFrom | src/main/java/com/atlasdblite/engine/DataSegment.java:302-310 | returns the relations from the id after loading, and only loads |
| Segments.DataSegment.GetNodes | src/main/java/com/atlasdblite/engine/DataSegment.java:313-321 | returns the stored nodes after loading, and only loads |
| Segments.DataSegment.GetAllRelations | src/main/java/com/atlasdblite/engine/DataSegment.java:324-332 | returns the stored relations after loading, and only loads |
| Segments.DataSegment.Search | src/main/java/com/atlasdblite/engine/DataSegment.java:272-288 | returns the search function's answer after loading, and only loads |
| Segments.DataSegment.SetIndexing | src/main/java/com/atlasdblite/engine/DataSegment.java:225-234 | the new state is setIndexing's function of the old one, without loading |
| Routing.SegmentOf | src/main/java/com/atlasdblite/engine/GraphEngine.java:54 | every id routes to a valid shard, MIN_VALUE hashes included |
| Routing.AbsRange | src/main/java/com/atlasdblite/engine/GraphEngine.java:54 | Math.abs is the magnitude except at MIN_VALUE, the only input it leaves negative |
| Routing.HashIsPoly | src/main/java/com/atlasdblite/engine/GraphEngine.java:54 | hashCode equals the unbounded polynomial over the code units modulo 2^32 |
| Routing.SegmentOfPoly | src/main/java/com/atlasdblite/engine/GraphEngine.java:54 | the shard is the polynomial's remainder by 16, negated for a negative hash, 0 for MIN_VALUE |
| Routing.MinValueRoutesToZero | src/main/java/com/atlasdblite/engine/GraphEngine.java:54 | a MIN_VALUE hash stays negative under Math.abs yet routes to shard 0 |
| Routing.MinValueExample | src/main/java/com/atlasdblite/engine/GraphEngine.java:54 | a concrete id whose hash is MIN_VALUE, routed to shard 0 |
| Lru.RemoveFirstLength | src/main/java/com/atlasdblite/engine/GraphEngine.java:65 | removing an absent shard changes nothing; a present one shortens the deque by one and adds nothing |
| Lru.RemoveFirstDistinct | src/main/java/com/atlasdblite/engine/GraphEngine.java:65 | on a distinct deque, remove leaves exactly the other shards, still distinct |
| Lru.TouchFacts | src/main/java/com/atlasdblite/engine/GraphEngine.java:64-71 | the touched shard heads a distinct deque of at most four; a shard is evicted exactly when the touched one was absent and the deque full, it is the old tail, never the touched one, and the resident set changes by exactly those two |
| Lru.DropLast | src/main/java/com/atlasdblite/engine/GraphEngine.java:68 | polling the tail of a distinct deque removes exactly the tail |
| Paths.ReconstructPath | src/main/java/com/atlasdblite/engine/GraphEngine.java:117-125 | following parents yields a walk from the start to the end, one longer than the end's distance, with no repeated id |
| Paths.Discover | src/main/java/com/atlasdblite/engine/GraphEngine.java:104-108 | visiting, parenting and queueing a new successor keeps the search invariant |
| Paths.ExpandNode | src/main/java/com/atlasdblite/engine/GraphEngine.java:103-111 | scanning one node's successors keeps the search invariant and, when the end is discovered, yields the tree containing it |
| Paths.NextLevel | src/main/java/com/atlasdblite/engine/GraphEngine.java:95 | at the start of a level every queued id is closer than that level |
| Paths.Dequeue | src/main/java/com/atlasdblite/engine/GraphEngine.java:97 | polling an id queued before the level keeps the search invariant |
| Paths.ExpandLevel | src/main/java/com/atlasdblite/engine/GraphEngine.java:95-112 | a level either returns a walk from start to end within the level's hop count, or keeps the search invariant for the next level |
| Paths.Explore | src/main/java/com/atlasdblite/engine/GraphEngine.java:84-114 | the result is empty or a repetition-free walk along relations from start to end with at most `levels` hops; a direct successor is found as the single hop |
| Paths.SearchAsWritten | src/main/java/com/atlasdblite/engine/GraphEngine.java:91-93 | with `currentDepth++ > maxDepth`, a path found is a repetition-free walk along relations from start to end with at most maxDepth + 1 hops; none for a negative maxDepth; the single hop when the end is a direct successor of the start |
| Paths.OverrunExample | src/main/java/com/atlasdblite/engine/GraphEngine.java:93 | with maxDepth 0 and a relation a -> b, the search as written returns [a, b], one hop over the bound |
| Paths.Search | src/main/java/com/atlasdblite/engine/GraphEngine.java:80-115 | with the intended bound every path found has at most maxDepth hops |
| EngineSpec.OfType | src/main/java/com/atlasdblite/engine/GraphEngine.java:199-201 | the filter keeps exactly the relations whose type equals the given one ignoring case |
| EngineSpec.Targets | src/main/java/com/atlasdblite/engine/GraphEngine.java:103-104 | the successor ids are the relations' targets, position by position |
| EngineSpec.FetchTargetsStep | src/main/java/com/atlasdblite/engine/GraphEngine.java:200-202 | the stream takes one getNode per relation, in order |
| GraphEngines.GraphEngine.constructor | src/main/java/com/atlasdblite/engine/GraphEngine.java:31-45 | sixteen fresh unloaded segments over their files, an empty deque, autoIndexing off |
| GraphEngines.GraphEngine.TouchSegment | src/main/java/com/atlasdblite/engine/GraphEngine.java:64-71 | the new engine is touchSegment's function of the old one (facts in Lru.TouchFacts, EngineProps.TouchAt) |
| GraphEngines.GraphEngine.GetSegment | src/main/java/com/atlasdblite/engine/GraphEngine.java:53-57 | returns the routed shard number and touches it |
| GraphEngines.GraphEngine.Commit | src/main/java/com/atlasdblite/engine/GraphEngine.java:235-237 | saves exactly the segments in the deque (see EngineProps.CommitAt) |
| GraphEngines.GraphEngine.GetNode | src/main/java/com/atlasdblite/engine/GraphEngine.java:183-185 | answer and new engine are getNode's function of the old engine (see EngineProps.GetNodeAnswers) |
| GraphEngines.GraphEngine.PersistNode | src/main/java/com/atlasdblite/engine/GraphEngine.java:129-132 | route, putNode, commit (see EngineProps.PersistThenGet and PersistThenReopen) |
| GraphEngines.GraphEngine.UpdateNode | src/main/java/com/atlasdblite/engine/GraphEngine.java:134-142 | updates by a changed copy, the corrected form of the first finding, not the code's in-place change (see EngineProps.UpdateNodeResult and the Left out line) |
| GraphEngines.GraphEngine.DeleteNode | src/main/java/com/atlasdblite/engine/GraphEngine.java:144-155 | removeNode, then the cascade and commit when it was there (see EngineProps.DeleteNodeCascades) |
| GraphEngines.GraphEngine.CascadeDelete | src/main/java/com/atlasdblite/engine/GraphEngine.java:148-151 | the loop over all sixteen segments computes the cascade function |
| GraphEngines.GraphEngine.Unlink | src/main/java/com/atlasdblite/engine/GraphEngine.java:149-150 | one cascade step: touch the segment, then removeRelationsTo |
| GraphEngines.GraphEngine.PersistRelation | src/main/java/com/atlasdblite/engine/GraphEngine.java:157-163 | IllegalArgument when an endpoint is missing, else append to the source's segment (see EngineProps.PersistRelationResult) |
| GraphEngines.GraphEngine.BothExist | src/main/java/com/atlasdblite/engine/GraphEngine.java:158 | the short-circuit test that both endpoints are found |
| GraphEngines.GraphEngine.DeleteRelation | src/main/java/com/atlasdblite/engine/GraphEngine.java:165-169 | see EngineProps.DeleteRelationResult |
| GraphEngines.GraphEngine.UpdateRelation | src/main/java/com/atlasdblite/engine/GraphEngine.java:171-179 | see EngineProps.UpdateRelationResult |
| GraphEngines.GraphEngine.AskNodes | src/main/java/com/atlasdblite/engine/GraphEngine.java:190-192 | one fan-out step: touch a segment, then ask it |
| GraphEngines.GraphEngine.Search | src/main/java/com/atlasdblite/engine/GraphEngine.java:187-195 | the loop over all segments computes the fan-out (see Residency.CollectSearch) |
| GraphEngines.GraphEngine.GetAllNodes | src/main/java/com/atlasdblite/engine/GraphEngine.java:205-212 | the loop over all segments computes the fan-out (see Residency.CollectAllNodes) |
| GraphEngines.GraphEngine.AskRelations | src/main/java/com/atlasdblite/engine/GraphEngine.java:216-218 | one step of getAllRelations: touch a segment, then ask it |
| GraphEngines.GraphEngine.GetAllRelations | src/main/java/com/atlasdblite/engine/GraphEngine.java:214-221 | the loop over all segments computes the fan-out (see Residency.CollectAllRelations) |
| GraphEngines.GraphEngine.Traverse | src/main/java/com/atlasdblite/engine/GraphEngine.java:197-203 | the relations of the type, then getNode of each target in order (see EngineProps.TraverseFollows) |
| GraphEngines.GraphEngine.FindShortestPath | src/main/java/com/atlasdblite/engine/GraphEngine.java:80-115 | empty unless both endpoints exist; the single id when they are equal; otherwise, with the depth check as written, a repetition-free walk along relations from start to end with at most maxDepth + 1 hops, none for a negative maxDepth, and the single hop when the end is a direct successor |
| GraphEngines.GraphEngine.SetAutoIndexing | src/main/java/com/atlasdblite/engine/GraphEngine.java:225-228 | setIndexing on every segment without touching the deque (see EngineProps.SetAutoIndexingResult) |
| EngineProps.SaveIdempotent | src/main/java/com/atlasdblite/engine/DataSegment.java:92-124 | saving twice is saving once, and save never changes what is in memory |
| EngineProps.SaveAllAt | src/main/java/com/atlasdblite/engine/GraphEngine.java:235-237 | saving the listed segments saves exactly those, each once; the rest are untouched |
| EngineProps.CommitAt | src/main/java/com/atlasdblite/engine/GraphEngine.java:235-237 | commit saves exactly the segments in the deque and changes only files and dirty flags |
| EngineProps.TouchAt | src/main/java/com/atlasdblite/engine/GraphEngine.java:64-71 | touchSegment changes at most the evicted segment, which is unloaded, never the touched one |
| EngineProps.TouchKeepsGraph | src/main/java/com/atlasdblite/engine/GraphEngine.java:64-71 | when every segment is sound, every segment loads the same nodes and relations after a touch |
| EngineProps.GetNodeAnswers | src/main/java/com/atlasdblite/engine/GraphEngine.java:183-185 | getNode answers what the id's segment holds, because routing never evicts the segment it routes to |
| EngineProps.PersistThenGet | src/main/java/com/atlasdblite/engine/GraphEngine.java:129-132 | after persistNode, getNode finds the node |
| EngineProps.PersistThenReopen | src/main/java/com/atlasdblite/engine/GraphEngine.java:129-132 | after persistNode, an engine opened anew over the same files finds the node |
| EngineProps.DeleteNodeReports | src/main/java/com/atlasdblite/engine/GraphEngine.java:144-147 | deleteNode reports whether getNode would have found the node, and otherwise acts as getNode |
| EngineProps.RemoveRelationsToClears | src/main/java/com/atlasdblite/engine/DataSegment.java:291-299 | after removeRelationsTo no relation in memory points at the id |
| EngineProps.CascadeClears | src/main/java/com/atlasdblite/engine/GraphEngine.java:148-151 | after the cascade over the first n segments none of them holds a relation to the id |
| EngineProps.DeleteNodeCascades | src/main/java/com/atlasdblite/engine/GraphEngine.java:144-155 | after deleting a node no segment holds in memory a relation pointing at it |
| EngineProps.PersistRelationResult | src/main/java/com/atlasdblite/engine/GraphEngine.java:157-163 | IllegalArgument exactly when an endpoint lookup fails, leaving the engine as the lookups do; else the relation is appended to the source's segment |
| EngineProps.DeleteRelationResult | src/main/java/com/atlasdblite/engine/GraphEngine.java:165-169 | reports whether the source's segment held a match, which then holds exactly its other relations |
| EngineProps.UpdateRelationResult | src/main/java/com/atlasdblite/engine/GraphEngine.java:171-179 | no match: false and only a load; a match: every match removed and one retyped relation appended |
| EngineProps.UpdateNodeResult | src/main/java/com/atlasdblite/engine/GraphEngine.java:134-142 | returns whether the node exists; then the segment holds it with the property set, and, for the corrected copy update, its index stays right |
| EngineProps.IndexingUpToAt | src/main/java/com/atlasdblite/engine/GraphEngine.java:225-228 | setIndexing reaches exactly the first n segments |
| EngineProps.SetAutoIndexingResult | src/main/java/com/atlasdblite/engine/GraphEngine.java:225-228 | flag and every segment's indexing set, deque and nodes untouched, health kept for loaded or empty segments |
| EngineProps.FetchTargetsLength | src/main/java/com/atlasdblite/engine/GraphEngine.java:200-202 | the stream yields at most one node per relation |
| EngineProps.TraverseFollows | src/main/java/com/atlasdblite/engine/GraphEngine.java:197-203 | traverse follows exactly the source's stored relations of the type (ignoring case), in order, at most one node each |
| Residency.EmptyStorable | src/main/java/com/atlasdblite/engine/DataSegment.java:92-124 | an empty segment fits the image format |
| Residency.LoadStores | src/main/java/com/atlasdblite/engine/DataSegment.java:54-85 | loading brings the stored contents into memory and keeps storing them |
| Residency.SaveStores | src/main/java/com/atlasdblite/engine/DataSegment.java:92-124 | save keeps the stored contents |
| Residency.UnloadStores | src/main/java/com/atlasdblite/engine/DataSegment.java:210-222 | unload keeps the stored contents: saved, then dropped from memory |
| Residency.StartHolds | src/main/java/com/atlasdblite/engine/GraphEngine.java:31-45 | a new engine stores what its files hold |
| Residency.TouchHolds | src/main/java/com/atlasdblite/engine/GraphEngine.java:64-71 | touchSegment, whatever it evicts, keeps every segment's contents and indexing flag |
| Residency.CommitHolds | src/main/java/com/atlasdblite/engine/GraphEngine.java:235-237 | commit keeps every segment's contents and indexing flag |
| Residency.AskHolds | src/main/java/com/atlasdblite/engine/GraphEngine.java:190-192 | asking a segment keeps every segment's contents and finds that segment loaded with its contents |
| Residency.AskAllNodes | src/main/java/com/atlasdblite/engine/DataSegment.java:313-321 | getNodes of a segment returns its stored nodes |
| Residency.AskSearch | src/main/java/com/atlasdblite/engine/DataSegment.java:272-288 | search of a segment returns exactly its stored nodes that hit |
| Residency.AskRelationsHolds | src/main/java/com/atlasdblite/engine/DataSegment.java:324-332 | getAllRelations of a segment returns its stored relations |
| Residency.StoredNodesMembers | src/main/java/com/atlasdblite/engine/GraphEngine.java:205-212 | the stored nodes of the first n segments are those of some such segment |
| Residency.StoredRelationsMembers | src/main/java/com/atlasdblite/engine/GraphEngine.java:214-221 | the stored relations of the first n segments are those of some such segment |
| Residency.SweepKeeps | src/main/java/com/atlasdblite/engine/GraphEngine.java:187-221 | a fan-out over segments, whatever its touches evict and reload, keeps every segment's contents and flags |
| Residency.CollectAllNodes | src/main/java/com/atlasdblite/engine/GraphEngine.java:205-212 | getAllNodes returns the stored nodes of every segment, segment by segment, despite evictions |
| Residency.CollectAllRelations | src/main/java/com/atlasdblite/engine/GraphEngine.java:214-221 | getAllRelations returns the stored relations of every segment, in segment order, despite evictions |
| Residency.GatherFlat | src/main/java/com/atlasdblite/engine/GraphEngine.java:187-195 | a fan-out returns its segments' answers one after another |
| Residency.CollectSearch | src/main/java/com/atlasdblite/engine/GraphEngine.java:187-195 | search returns exactly the stored nodes that hit in their own segment |
| Residency.StorableShrinks | src/main/java/com/atlasdblite/engine/DataSegment.java:165-180 | dropping a node and filtering relations keeps a segment's contents fit for the file format |
| Residency.RemoveStores | src/main/java/com/atlasdblite/engine/DataSegment.java:165-180 | removeNode reports whether the node was stored, and leaves the segment storing its contents less the node and the relations leaving it |
| Residency.UnlinkStores | src/main/java/com/atlasdblite/engine/DataSegment.java:291-299 | removeRelationsTo leaves the segment storing its contents less the relations pointing at the id, dirty or untouched |
| Residency.UnlinkHolds | src/main/java/com/atlasdblite/engine/GraphEngine.java:150-151 | touchSegment(i) then removeRelationsTo on segment i unlinks the id there and keeps every other segment's contents |
| Residency.CascadeHolds | src/main/java/com/atlasdblite/engine/GraphEngine.java:149-152 | the loop over the segments unlinks the id from each segment it has reached and keeps the rest |
| Residency.DeleteNodeHolds | src/main/java/com/atlasdblite/engine/GraphEngine.java:144-155 | deleteNode reports whether the node was stored; if so the store then holds its contents with the node, the relations leaving it and every relation pointing at it removed, otherwise the contents unchanged |
| Residency.DeletedNodes | src/main/java/com/atlasdblite/engine/GraphEngine.java:144-155 | after deleteNode the id's segment holds its nodes less the id and every other segment its nodes as before |
| Residency.DeletedRelations | src/main/java/com/atlasdblite/engine/GraphEngine.java:144-155 | after deleteNode a segment holds exactly its relations that do not point at the id and, in the id's own segment, do not leave it |
| Residency.HeldLookup | src/main/java/com/atlasdblite/engine/GraphEngine.java:183-185 | getNode answers the node the id's segment stores under the id, or null |
| Residency.HeldRelations | src/main/java/com/atlasdblite/engine/DataSegment.java:324-332 | getAllRelations of a segment is its stored relations, loaded or not |
| Residency.FollowedHeld | src/main/java/com/atlasdblite/engine/GraphEngine.java:197-203 | traverse follows only stored relations leaving the id |
| Residency.DeleteNodeLookups | src/test/java/com/atlasdblite/engine/GraphEngineTest.java:79-82 | after deleteNode, getNode of the id is null and getNode of every other id answers as before |
| Residency.DeleteNodeTraverse | src/test/java/com/atlasdblite/engine/GraphEngineTest.java:84-85 | once deleteNode has removed the node, traversing from it finds nothing |
| Select.MissingIsFalse | src/main/java/com/atlasdblite/commands/SelectCommand.java:69-70 | a node without the property satisfies no condition, `!=` included |
| Select.EqualityOperators | src/main/java/com/atlasdblite/commands/SelectCommand.java:73-74 | `=` is equality after lowering both sides, `!=` its negation when the property is present |
| Select.ContainsOperator | src/main/java/com/atlasdblite/commands/SelectCommand.java:75 | `contains` is a substring test on the lowered value and pattern |
| Select.LowerComparison | src/main/java/com/atlasdblite/commands/SelectCommand.java:72 | only `>` lowers to `>`, and only `<` to `<` |
| Select.OperatorIgnoresCase | src/main/java/com/atlasdblite/commands/SelectCommand.java:72 | operators that lower alike decide alike |
| Select.UnknownOperatorIsFalse | src/main/java/com/atlasdblite/commands/SelectCommand.java:86-87 | an operator other than =, !=, contains, >, < is false |
| Select.ComparisonOperators | src/main/java/com/atlasdblite/commands/SelectCommand.java:76-85 | `>` and `<` compare parsed numbers and are false when either side does not parse |
| Select.ParseSelect | src/main/java/com/atlasdblite/commands/SelectCommand.java:34-43 | a usage error exactly when there are fewer than six tokens or the third is not `where` ignoring case |
| Select.ParseSelectPrefix | src/main/java/com/atlasdblite/commands/SelectCommand.java:40-43 | tokens after the sixth are ignored |
| Select.MatchingResult | src/main/java/com/atlasdblite/commands/SelectCommand.java:49-54 | the results are exactly the scanned nodes that are selected, no more of them than scanned |
| Select.ExecuteResult | src/main/java/com/atlasdblite/commands/SelectCommand.java:31-57 | a bad query leaves the engine unchanged; a good one returns exactly the scanned nodes with the label and the condition |
| AddNode.AutoIdMeaning | src/main/java/com/atlasdblite/commands/AddNodeCommand.java:44-52 | the id is generated exactly when the label is alone or the third token has a colon |
| AddNode.ApplyPropsKeys | src/main/java/com/atlasdblite/commands/AddNodeCommand.java:70-75 | id and label stay; the keys are the old ones plus the part before the first colon of every token that has one |
| AddNode.ApplyPropsLastWins | src/main/java/com/atlasdblite/commands/AddNodeCommand.java:70-75 | the last token setting a key decides its value, the text after its first colon |
| AddNode.BuiltResult | src/main/java/com/atlasdblite/commands/AddNodeCommand.java:30-75 | usage error exactly below two tokens; else the id, label and property keys of the built node as the id detection decides |
| AddNode.AddProps | src/main/java/com/atlasdblite/commands/AddNodeCommand.java:70-75 | the property loop applies the tokens in order |
| AddNode.BuildNode | src/main/java/com/atlasdblite/commands/AddNodeCommand.java:30-75 | the parsing half computes the built node |
| AddNode.Execute | src/main/java/com/atlasdblite/commands/AddNodeCommand.java:30-80 | a usage error changes nothing; otherwise the built node is persisted |

## Left out

- Encryption and Base64 are the abstract bijection `Seal`/`Unseal`. Ciphers are not modelled.
- File I/O is a `disk` field of type `Option<seq<byte>>`, with `None` for a missing file. I/O failures, the temporary file and the atomic rename are not modelled.
- The read/write locks and the concurrent deque are left out. The model is sequential.
- `wipeDatabase` is left out, because it deletes files by name in a directory the model does not have.
- `System.err` messages and the printing of both commands (`printTable`, `printSuccess`, `printError`) are left out.
- The segment files' directory and path names are left out.
- `Double.parseDouble` is the parameter `parse` of `Select`, returning a real or None. Floating-point rounding, NaN and infinities are not modelled.
- The generated id of `AddNodeCommand`, the first eight characters of a random UUID, is the parameter `freshId`. Randomness is not modelled, and neither is the id's length of eight.
- HashMap and HashSet iteration order is fixed to one deterministic order, `JavaText.Enumerate`. Results that depend on it are stated up to that order, and membership facts hold for every order.
- `toLowerCase` and `equalsIgnoreCase` fold the ASCII letters A-Z only. Other case mappings, locales and Unicode folding are not modelled.
- `String.intern` has no observable effect on values and is left out.
- Strings are sequences of Unicode characters. readUTF bytes that decode to an unpaired surrogate have no such string, so the model reads them as a decoding error. Java would return a string holding the lone surrogate.
- Paths.Explore: proves that a path found is a walk without repeats within the hop bound. It does not prove that the path is a shortest one.
- Paths.Search: does not prove shortest-path minimality.
- Paths.SearchAsWritten: does not prove shortest-path minimality.
- GraphEngines.GraphEngine.FindShortestPath: follows the depth check as written (`Paths.SearchAsWritten`), so a path may have maxDepth + 1 hops (second finding below); the intended bound is proved of `Paths.Search` only. It does not prove shortest-path minimality. Its search runs over the relation graph as the two endpoint lookups leave the engine. The segments loaded and evicted during the search are not tracked.
- EngineProps.DeleteNodeCascades: covers the relations held in memory. A relation to the id in a segment whose file cannot be read is out of its reach, as it is out of the code's.
- EngineProps.TraverseFollows: bounds the result length and fixes the followed relations, but does not state which nodes each getNode finds after earlier lookups evict segments.
- EngineProps.UpdateRelationResult: requires the source's segment to be loadable.
- EngineProps.DeleteRelationResult: requires the source's segment to be loadable.
- EngineProps.UpdateNodeResult: requires the id's segment to be loadable and healthy. Its "the index stays right" is a property of the corrected copy update only; the code's in-place update leaves a stale index key (`SegmentSpec.UpdateInPlaceStale`, first finding below).
- EngineProps.PersistThenGet: requires the node's segment to be loadable.
- EngineProps.PersistThenReopen: also requires the segment's contents to fit the file format, so that commit's save succeeds.
- Residency.CollectAllNodes: requires every segment to store its contents (`Holding`): files written by save, or absent.
- Residency.CollectAllRelations: requires `Holding`, as above.
- Residency.CollectSearch: requires `Holding`, as above.
- EngineSpec.UpdateNode: puts a changed copy of the node. This is the corrected behaviour of the first finding below. The in-place update the code performs is `SegmentSpec.UpdateInPlace`.
- GraphEngines.GraphEngine.UpdateNode: puts a changed copy of the node, as `EngineSpec.UpdateNode` does, so the engine keeps its index exact. The code changes the stored node in place (`SegmentSpec.UpdateInPlace`), which can leave a stale index key (`SegmentSpec.UpdateInPlaceStale`); that behaviour is modelled at the segment level only.
- Residency.DeleteNodeHolds: requires `Holding`, as above.
- Residency.DeleteNodeLookups: requires `Holding`, as above.
- Residency.DeleteNodeTraverse: requires `Holding`, as above.

## Findings

| source | as written | input that shows it | evidently intended | confidence | as-written member | corrected member |
|---|---|---|---|---|---|---|
| src/main/java/com/atlasdblite/engine/GraphEngine.java:136-139 | updateNode changes the stored node in place, then putNode removes the index keys of the already-changed node. The overwritten value's key keeps the node's id. | An indexed segment holding node a (label L, k = x); updateNode(a, k, y) leaves index key x pointing at a. | The old value's key is removed and the new value's key is added, so the index stays exact. | not executed | SegmentSpec.UpdateInPlaceStaleExample | SegmentSpec.UpdateCopyKeeps |
| src/main/java/com/atlasdblite/engine/GraphEngine.java:93 | `if (currentDepth++ > maxDepth) break;` expands maxDepth + 1 levels, so a path may have maxDepth + 1 hops. | maxDepth = 0 with a relation a -> b: findShortestPath(a, b, 0) returns [a, b]. | At most maxDepth hops, as the method's documentation states. | not executed | Paths.OverrunExample | Paths.Search |
