# libufdt overlay engine: verification model

`boot/libufdt` applies device tree overlays: it unflattens two blobs into linked trees, renumbers and
patches the references of the overlay, merges every fragment into the main tree in place, and flattens
the result into a new blob. This project models that engine and proves what it computes.

The model keeps the form of the code. The node pool, the linked nodes, the property dictionary, the tree
object, the output buffer and the values in the blobs are updated in place by methods with the loops of
the source. Every such method is proved against a function or predicate on values, and the properties
below are proved about those.

| file | part |
|---|---|
| `Bytes`, `Numbers`, `Blobs`, `FdtBuffers` | cells, numbers as the code holds them, blobs as records, the sequential output buffer (Devicetree Specification, sections 5.4 and 5.5) |
| `NodePool` | the block allocator |
| `Nodes`, `Table`, `Lookup`, `Parse` | linked nodes, in-place merge, phandle table, path lookup, unflattening |
| `PropDict`, `Ufdts`, `Output`, `Sizes` | name dictionary, combined strings, flattening, byte sizes |
| `References`, `Fragments`, `Overlay`, `Boot` | the overlay driver and the boot loop |
| `Trees`, `MergeLaws`, `Paths`, `Phandles`, `Subtrees` | trees as values and their laws |
| `OverlaySpec`, `Flattening`, `RoundTrip` | what applying an overlay and writing a blob mean, and which streams come back unchanged |
| `FragmentLaws`, `Renumbering`, `ReferenceLaws`, `FixupPlans`, `TableLaws` | laws of the steps |
| `Spelling`, `Addressing`, `Listing` | what bytes, paths and numbers spell, where fixup strings, symbols and targets lead, and what listed fixups do, stated without the functions that read them |
| `PhandleLaws`, `Uniqueness`, `Preservation`, `Targeting`, `Reordering`, `Erasing` | whole-run properties |
| `Confinement`, `Sparing`, `Tameness`, `Bounds`, `Collision` | which overlays they hold for, and an overlay they fail for |

How the state is represented:

- Node structures live at pool addresses. `NodeHeap.nodes` maps exactly the live entries of the pool to
  their fields and is updated in place; links, the tail pointer `last_child_p` (a slot of some node) and
  the name pointer are fields. A use of a freed entry would be a lookup outside the map.
- `Rep(m, t, stale)` says that the memory `m` holds the tree `t`, tail pointers included. Nodes in `stale`
  were emptied by a merge, which leaves their tail pointer behind; they are never appended to again.
- Property values stay in the blobs. `BlobMemory.values` maps the record of a property to its bytes, so a
  phandle update through one tree is seen through every record of that property.
- A labelled tree `Tree<Addr, FdtTag>` is what the memory holds; `Fill` looks values up; `Erase` forgets
  labels. The same merge function serves labelled and decoded trees.
- `blob` parameters are addresses that the allocator returns.

Assumed of callers: well-formed blobs with terminated strings, phandles below 2^31, fixup offsets that
stay inside the overlay's values, successful allocation. The laws about reading merged trees and about unique phandles also assume sibling names that
are unique per kind; the methods do not.

Where code and documentation disagree the model follows the code:

- `boot/libufdt/include/libufdt.h:183-191` promises NULL for a phandle that no node has. The search never
  compares what it found (`boot/libufdt/ufdt_convert.c:233-236`) and answers with the floor entry.
  `Phandles.DocumentedIff` says exactly when the promise is kept, `Phandles.AbsentPhandleAnswered` gives a
  table where it is not.
- The count takes phandles as unsigned, the fill as signed (`boot/libufdt/ufdt_convert.c:243`,
  `boot/libufdt/ufdt_convert.c:253-254`). `Phandles.CountIsFill` says exactly when they agree,
  `Phandles.TopBitNotFilled` gives a node where they do not.
- The check before writing a property compares with the end of the buffer, not with the strings there
  (`boot/libufdt/ufdt_convert.c:340-344`). `Output.OutputNode` shows that a node is written successfully
  exactly when it fits below the strings all the same, because the end-node token after a property that
  reached too far does not fit; `Overlay.BothSizesSuffice` shows that it never comes to that.
- The fixups compare truncated numbers (`boot/libufdt/ufdt_overlay.c:164`,
  `boot/libufdt/ufdt_overlay.c:188`, `boot/libufdt/ufdt_overlay.c:458-459`), so a check can accept an offset
  that is not inside the value. `Numbers.FixupCheckIff` and `Numbers.LocalCheckIff` say exactly when,
  `Numbers.ChecksDisagree` and `Numbers.NumbersTruncated` give inputs. What the code does with such an
  offset, or with a `target` of length zero (`boot/libufdt/ufdt_overlay.c:347-350`), is undefined;
  `Confinement.WellBounded` excludes it, and `Bounds.OffsetsFit` is a condition on the overlay's own values.
- Phandles stay unique only when the fixups leave the overlay's phandle properties alone. `Collision` is an
  overlay whose local fixups write one, after which two nodes share a phandle. `Sparing.SparingKeeps` and,
  on the overlay alone, `Tameness.TameIsHarmless` say when uniqueness holds. They go one way: a fixup may
  also write a phandle property without making two phandles equal.
- `boot/libufdt/ufdt_convert.c:174-182` expands an alias to its value. The length of the value counts its NUL
  (`boot/libufdt/ufdt_convert.c:196-205`), which the walk takes for one more component when nothing stands in
  front of it: an alias for `/` does not lead to the root. `Paths.AliasAsText` says exactly when the components
  are those of the text, `Spelling.AliasLeads` where every alias leads.
- Section 5.4.2 of the Devicetree Specification lets a structure block start with NOPs. The parser then
  finds no root node (`boot/libufdt/ufdt_convert.c:138-142`); `Overlay.FromFdt` says what is left.
- The example in `boot/libufdt/include/libufdt.h:219-271` lists a new property of a matched node before
  the old one; the code appends it.

## Model

| member | source | states |
|---|---|---|
| `Overlay.UfdtApplyOverlay` | boot/libufdt/ufdt_overlay.c:627-683 | End to end, for overlays whose fixup offsets stay inside their values: without a main blob, with an overlay or main size below 8, or with one that is not the total size in its header, there is no result and no value changes; otherwise a blob is produced exactly when every fixup resolves, and it decodes to the main tree with references updated and every applicable fragment merged in order, properties before subnodes, main reserve list kept, total size the sum of both |
| `Overlay.ApplyToBlob` | boot/libufdt/ufdt_overlay.c:648-682 | Both blobs are parsed, the overlay is applied, the result written; on success and on failure both trees and the pool are destroyed: no node and no block is left and the pool reports no leak |
| `Overlay.BothSizesSuffice` | boot/libufdt/ufdt_overlay.c:646-648 | A buffer of main size plus overlay size is always enough for header, reserve list, merged structure block, end token and both string tables |
| `Overlay.OverlayApply` | boot/libufdt/ufdt_overlay.c:564-593 | Fails exactly for a length below the header size or an unresolvable fixup, with every node still owned by its tree; else leaves the specified tree and values; the live entries are always exactly the nodes of both trees, none twice |
| `Overlay.UpdateReferences` | boot/libufdt/ufdt_overlay.c:576-584 | Renumbering, local fixups and external fixups one after the other compute the specified values, or fail as specified |
| `Overlay.LocalRefUpdate` | boot/libufdt/ufdt_overlay.c:534-549 | The overlay is renumbered by the largest main phandle when there is one, then local fixups add the same amount |
| `Overlay.GetMaxPhandle` | boot/libufdt/ufdt_overlay.c:70-76 | The phandle of the last entry of the sorted table, 0 for an empty one |
| `Overlay.OverlayFdtps` | boot/libufdt/ufdt_overlay.c:553-562 | The main tree's list of blobs is followed by the overlay's |
| `Overlay.FromFdt` | boot/libufdt/ufdt_convert.c:286-304 | Parses a blob into new nodes and builds its phandle table: the tree, labels aside, is what the blob decodes to; a refused header gives a tree object without blobs, a block that does not start with a node one without nodes |
| `Overlay.DestroyTrees` | boot/libufdt/ufdt_overlay.c:672-679 | Destroying both trees frees every live entry, none twice, and the pool reports no leak |
| `Overlay.LoadedRecords` | boot/libufdt/ufdt_node.c:115-124 | Every property of a parsed tree has a record of its own; trees of different blobs share none; table entries name main nodes |
| `Boot.ApplyOverlays` | boot/ufdt.c:63-114 | For overlays that are orderly, whatever main tree they meet: the overlays of the run are, by a strictly increasing list of indices, exactly the files that were selected and loaded, each applied to the result of the one before; without such a file the first blob is returned and no value changes; after every run the phandles are distinct, no path was lost, the reserve list is the first blob's and the size is the sum. There is no result only when, everything before some file having been applied, that file's size disagrees with its header or one of its fixups does not resolve |
| `Boot.AppliedArePicked` | boot/ufdt.c:74-110 | The overlays that the loop applies are in order the blobs of exactly the files that are selected and could be loaded |
| `Boot.StepKeepsGood` | boot/ufdt.c:63-114 | Loop invariant, for an orderly overlay: a successful application leaves a sound blob with unique names and distinct phandles, whose largest phandle is at most the sum of both maxima, for every sum below 2^31 |
| `Boot.TameIsOrderly` | boot/libufdt/ufdt_overlay.c:130-292 | An overlay is orderly for every main tree when its own fixups are tame and its own offsets fit, which can be checked before it is applied |
| `Boot.StepKeepsPaths` | boot/ufdt.c:63-114 | Every path of the main blob's tree still resolves in the blob that was produced |
| `Boot.StepFrame` | boot/libufdt/ufdt_overlay.c:59-65 | An application writes values of the overlay blob and of the new blob only, so blobs still to be applied are untouched |
| `Boot.StillReady` | boot/ufdt.c:63-114 | What the remaining overlays rely on holds again after each step: the main maximum plus all maxima to come stays below 2^31 |
| `Fragments.ApplyFragments` | boot/libufdt/ufdt_overlay.c:392-408 | All node children of the overlay root are applied in order to the main tree in place, as specified; no fragment without a usable target or overlay stops the loop; ownership is kept throughout |
| `Fragments.ApplyFragment` | boot/libufdt/ufdt_overlay.c:338-387 | Result code and main tree as specified; on success the `__overlay__` node is emptied, else nothing moves; other fragments are untouched, table entries still name main nodes |
| `Fragments.FindTarget` | boot/libufdt/ufdt_overlay.c:347-371 | By `target` phandle through the table, else by `target-path`; the codes for a missing or invalid target; a `target` has at least one byte |
| `Fragments.FindOverlay` | boot/libufdt/ufdt_overlay.c:373-377 | The `__overlay__` subnode of a fragment |
| `Fragments.OverlayNode` | boot/libufdt/ufdt_overlay.c:316-320 | Merging at a main node leaves the main tree merged at that label, the overlay node empty, and every live entry in exactly one of the trees |
| `Fragments.StillOwned` | boot/libufdt/ufdt_node.c:205-253 | After the in-place merge both trees are again represented in memory, disjoint, and together own exactly the live entries |
| `Fragments.RepReplaced` | boot/libufdt/ufdt_node.c:205-239 | A merge inside a subtree leaves the links and tail pointers of the whole tree intact |
| `FragmentLaws.FragmentsIds` | boot/libufdt/ufdt_convert.c:217-237 | Nodes of the main tree, and with them all phandle table entries, survive every fragment; no node is shared |
| `FragmentLaws.FragmentsSize` | boot/libufdt/ufdt_overlay.c:646-648 | The merged tree takes no more structure bytes than the main tree and the overlay's fragments together |
| `FragmentLaws.MergeAtSize` | boot/libufdt/ufdt_node.c:205-239 | Merging at a node adds at most the bytes of the merged children |
| `FragmentLaws.MergeAtTwice` | boot/libufdt/include/libufdt.h:219-271 | Two fragments for one target amount to one fragment with their merge |
| `FragmentLaws.MergeAtAgain` | boot/libufdt/include/libufdt.h:219-271 | A fragment applied twice to one target amounts to applying it once |
| `FragmentLaws.EmptyOverlay` | boot/libufdt/ufdt_overlay.c:564-593 | An overlay without children changes neither the tree nor any value |
| `FragmentLaws.TargetFound` | boot/libufdt/ufdt_overlay.c:347-371 | A target that is found is a node of the main tree |
| `Nodes.NodeHeap.Construct` | boot/libufdt/ufdt_node.c:21-42 | A new structure in a fresh pool entry: no sibling, no child, tail pointer at its own child link |
| `Nodes.NodeHeap.Destruct` | boot/libufdt/ufdt_node.c:44-57 | Exactly the entries of the tree are freed, each once |
| `Nodes.NodeHeap.AddChild` | boot/libufdt/ufdt_node.c:59-79 | The child is appended behind the existing ones; the tail pointer is again the slot holding the terminating NULL; -1 for a missing argument, a parent that is no node or a child that is neither node nor property |
| `Nodes.NodeHeap.GetSubnode` | boot/libufdt/ufdt_node.c:85-97 | First subnode of that name |
| `Nodes.NodeHeap.GetProperty` | boot/libufdt/ufdt_node.c:99-113 | First property of that name, NULL for no node |
| `Nodes.NodeHeap.GetPropData` | boot/libufdt/ufdt_node.c:115-124 | The record of a property, nothing for anything else |
| `Nodes.NodeHeap.GetPropDataByName` | boot/libufdt/ufdt_node.c:126-137 | The record of the property of that name |
| `Nodes.NodeHeap.GetPhandle` | boot/libufdt/ufdt_node.c:147-160 | `phandle` when it is one cell, else `linux,phandle` when it is one cell, else 0 |
| `Nodes.NodeHeap.GetNodeByPath` | boot/libufdt/ufdt_node.c:188-191 | A path leads where descending component by component leads |
| `Nodes.NodeHeap.GetNodeByPathLen` | boot/libufdt/ufdt_node.c:162-186 | The slash-skipping loop equals descending component by component, also for a length that counts the NUL behind the path |
| `Nodes.NodeHeap.MergeInto` | boot/libufdt/ufdt_node.c:241-253 | The linked target holds the recursive merge, the source is left empty, each source child was moved or freed once, nothing else changed |
| `Nodes.NodeHeap.MergeChildren` | boot/libufdt/ufdt_node.c:205-239 | The same for the children of two nodes, with the stale tail pointer left in the source |
| `Nodes.NodeHeap.TakeIn` | boot/libufdt/ufdt_node.c:209-227 | One source child is appended, or merged into its namesake and freed |
| `Nodes.NodeHeap.GetMatch` | boot/libufdt/ufdt_node.c:214-220 | The namesake of the same kind |
| `Nodes.RepFrame` | boot/libufdt/ufdt_node.c:59-79 | Entries outside a tree and the sibling link of its root do not matter to it |
| `Trees.MergeKeepsOrder` | boot/libufdt/ufdt_node.c:205-239 | Existing children keep position, label, kind and name |
| `Trees.MergeUnique` | boot/libufdt/ufdt_node.c:205-239 | Sibling names stay unique per kind |
| `MergeLaws.MergeAssoc` | boot/libufdt/include/libufdt.h:219-271 | Merging B and then C equals merging their merge, child order included |
| `MergeLaws.MergeIdempotent` | boot/libufdt/include/libufdt.h:219-271 | Merging the same source twice equals merging it once |
| `MergeLaws.MergeReads` | boot/libufdt/include/libufdt.h:219-271 | A property of the merged tree reads as the source's when the source has it, else as the target's |
| `MergeLaws.MergeResolves` | boot/libufdt/ufdt_node.c:205-239 | A path resolves in the merged tree iff it resolves in either; target nodes keep their label, unmatched source nodes are taken as they are |
| `MergeLaws.MergeAppends` | boot/libufdt/ufdt_node.c:205-239 | What follows the existing children is exactly the unmatched source children, as they are and in source order |
| `MergeLaws.FindMerged` | boot/libufdt/ufdt_node.c:205-239 | Which child of the merged list answers a lookup, and what it is |
| `MergeLaws.MergeIds` | boot/libufdt/ufdt_node.c:205-239 | Labels of the merged tree: all of the target's, some of the source's, none twice, never the source root |
| `Paths.ResolveAppend` | boot/libufdt/ufdt_convert.c:170-211 | Resolving p/q is resolving q from where p leads |
| `Paths.AliasExpands` | boot/libufdt/ufdt_convert.c:174-209 | a/rest descends by the components of the alias value, counted with its NUL, and then by those of /rest |
| `Paths.AliasAsText` | boot/libufdt/ufdt_convert.c:196-205 | The components of an alias value are those of its text exactly when it has no NUL, or text that does not end in a slash |
| `Spelling.AliasLeads` | boot/libufdt/ufdt_convert.c:174-209 | For an alias whose value spells /b0/../bn, a/c0/../cm leads where descending b0..bn, c0..cm leads; for the alias value / one empty name comes first; without the alias nowhere |
| `Spelling.AbsoluteLeads` | boot/libufdt/ufdt_node.c:162-186 | The path /c0/../cn leads where descending by the names c0..cn leads |
| `Spelling.CStringReads` | boot/libufdt/ufdt_node.c:30 | A string read at a byte offset is, character by character, the bytes there up to the first NUL or the end |
| `Spelling.CStringIs` | boot/libufdt/ufdt_node.c:30 | Bytes that spell a string are read as that string and no other |
| `Spelling.DecimalRead` | boot/libufdt/ufdt_overlay.c:164 | Every number below 2^64 written in base 10 is read back, and those below 2^31 are not cut off |
| `Bytes.BigEndian` | boot/libufdt/ufdt_overlay.c:59-65 | Four bytes inside a value are read as one number, most significant byte first |
| `Paths.ComponentsAppend` | boot/libufdt/ufdt_node.c:162-186 | Components of a concatenated path |
| `Lookup.GetNodeByPath` | boot/libufdt/ufdt_convert.c:170-215 | Absolute paths from the root; others through the alias named by their first component |
| `Preservation.FragmentsResolve` | boot/libufdt/ufdt_node.c:205-239 | Over all fragments, every path that resolved in the main tree resolves to the same live node |
| `Preservation.FragmentsKeepPath` | boot/libufdt/ufdt_node.c:205-239 | Over all later fragments, a path from a node goes on leading to the same node, whether or not the node itself can be reached by a path |
| `Preservation.MergeKeepsPath` | boot/libufdt/ufdt_node.c:205-239 | The same for one merge |
| `Preservation.ReadsBelowTarget` | boot/libufdt/ufdt_overlay.c:338-387 | Below the target a property reads as the overlay's when it has it, else as before |
| `Preservation.ReadsElsewhere` | boot/libufdt/ufdt_overlay.c:338-387 | Away from the target every property reads as before |
| `Preservation.DescendMerged` | boot/libufdt/ufdt_overlay.c:338-387 | The target node is where it was and is the merge |
| `Table.CountPhandleNode` | boot/libufdt/ufdt_convert.c:239-247 | Counts the nodes with a phandle, taken as unsigned |
| `Table.SetPhandleTableEntry` | boot/libufdt/ufdt_convert.c:249-262 | Fills in the nodes with a positive phandle, taken as signed, parents first |
| `Table.BuildPhandleTable` | boot/libufdt/ufdt_convert.c:275-284 | A sorted table of the counted length: a permutation of the phandle-bearing nodes and of what was left unwritten, which is nothing iff all phandles are below 2^31 |
| `Table.GetNodeByPhandle` | boot/libufdt/ufdt_convert.c:217-237 | The binary search returns the last entry not above the phandle, the first entry when all are above, NULL for an empty table |
| `Table.SortEntries` | boot/libufdt/ufdt_convert.c:264-284 | The entries end up sorted by phandle and are a permutation of what they were |
| `Phandles.CountIsFill` | boot/libufdt/ufdt_convert.c:239-262 | The count never falls short, and equals the number filled iff no phandle has its top bit set |
| `Phandles.TopBitNotFilled` | boot/libufdt/ufdt_convert.c:249-262 | A node with phandle 2^31 is counted but not filled in |
| `Phandles.LookupExact` | boot/libufdt/ufdt_convert.c:217-237 | With distinct phandles the node found for a listed phandle is the one that has it |
| `Phandles.LookupFloor` | boot/libufdt/ufdt_convert.c:217-237 | The answer carries the phandle asked for iff some entry does; otherwise it is the floor entry |
| `Phandles.DocumentedIff` | boot/libufdt/include/libufdt.h:183-191 | The documented answer, NULL for an absent phandle, is given exactly for an empty table or a listed phandle |
| `Phandles.AbsentPhandleAnswered` | boot/libufdt/include/libufdt.h:183-191 | A concrete table and absent phandle for which a node is returned all the same |
| `TableLaws.TableLists` | boot/libufdt/ufdt_convert.c:275-284 | Every node with a phandle is listed exactly once with its phandle, and no node twice |
| `TableLaws.MaxBounds` | boot/libufdt/ufdt_overlay.c:70-76 | The last entry bounds all phandles |
| `TableLaws.LookupFinds` | boot/libufdt/ufdt_convert.c:217-237 | The phandle of a node leads to a node with that phandle, to the node itself when phandles are distinct |
| `Targeting.LookupUnique` | boot/libufdt/ufdt_convert.c:217-237 | When no two nodes share a phandle the search leads back to the node |
| `References.IncreaseU32` | boot/libufdt/ufdt_overlay.c:59-65 | Adds to the cell at an offset of a value in place, modulo 2^32 |
| `References.NodeTryIncreasePhandle` | boot/libufdt/ufdt_overlay.c:82-93 | Increases both phandle properties of a node that are one cell long |
| `References.TryIncreasePhandle` | boot/libufdt/ufdt_overlay.c:99-108 | Walking the table increases the phandle cells of every listed node once |
| `References.LocalFixupProp` | boot/libufdt/ufdt_overlay.c:438-463 | Increases the cell at every listed offset that the check lets through, which is inside the value; fails at the first that the check refuses |
| `References.LocalFixupProps` | boot/libufdt/ufdt_overlay.c:472-485 | All properties of a fixups node, against the properties of the same name |
| `References.LocalFixupNodes` | boot/libufdt/ufdt_overlay.c:487-497 | All subnodes of a fixups node, against the subnodes of the same name |
| `References.LocalFixupNode` | boot/libufdt/ufdt_overlay.c:465-499 | Properties first, then subnodes; success without a fixups node |
| `References.DoLocalFixups` | boot/libufdt/ufdt_overlay.c:520-532 | `__local_fixups__` against the root |
| `References.GetFixupLocation` | boot/libufdt/ufdt_overlay.c:130-197 | Splits path, property and offset; the offset as `strtoul` reads it, cut off to an `int`; nothing for a missing part, a bad number, an unknown path or property, or an offset that the check refuses |
| `Addressing.FixupParts` | boot/libufdt/ufdt_overlay.c:111-197 | For every path and property name without a colon and every number n below 2^31 - 4, path:property:n names byte n of that property of the node at that path, and nothing exactly when there is no such node, property or cell |
| `Addressing.FixupSpelled` | boot/libufdt/ufdt_overlay.c:111-197 | The same with the path spelled /c0/../cn and the node reached by descending c0..cn |
| `Addressing.FixupMalformed` | boot/libufdt/ufdt_overlay.c:145-161 | A string with fewer than two colons names nothing |
| `Numbers.FixupCheckIff` | boot/libufdt/ufdt_overlay.c:164-191 | What the check on an external fixup lets through: the cells inside the value, and further offsets exactly when the truncated number is negative or within 4 of 2^31 |
| `Numbers.LocalCheckIff` | boot/libufdt/ufdt_overlay.c:457-460 | What the check on a local fixup lets through: the cells inside the value, and offsets from 2^32 - 4 on whose wrapped sum is small enough |
| `Numbers.ChecksDisagree` | boot/libufdt/ufdt_overlay.c:188-191 | Offsets that pass a check for a value of four bytes without being inside it |
| `Numbers.NumbersTruncated` | boot/libufdt/ufdt_overlay.c:164-168 | The numbers 2^32 and 2^32 - 4 become the offsets 0 and -4 |
| `Numbers.SignsAndSpace` | boot/libufdt/ufdt_overlay.c:164-168 | White space and a sign in front of the digits are accepted, a minus negates modulo 2^64, and nothing may follow |
| `Bounds.PlaceInside` | boot/libufdt/ufdt_overlay.c:130-197 | When the truncated number is neither negative nor within 4 of 2^31, the location that is returned is a cell of a value of the overlay |
| `Bounds.FittingIsBounded` | boot/libufdt/ufdt_overlay.c:130-226 | A tame overlay whose listed offsets fit writes nothing outside its values, for any main tree |
| `References.DoOneFixup` | boot/libufdt/ufdt_overlay.c:206-226 | Writes the phandle to every location of a list of strings; fails at the first that does not resolve |
| `References.DoFixupProps` | boot/libufdt/ufdt_overlay.c:259-292 | For every property of `__fixups__`, the phandle of the node its symbol names is written to its locations |
| `References.GetSymbolNode` | boot/libufdt/ufdt_overlay.c:268-284 | The main node whose path `__symbols__` gives for a name |
| `Addressing.SymbolSpelled` | boot/libufdt/ufdt_overlay.c:262-284 | A symbol whose value spells /c0/../cn names the main node reached by descending c0..cn |
| `References.DoFixups` | boot/libufdt/ufdt_overlay.c:232-295 | Nothing to do without `__fixups__`; failure when it has properties and the main tree has no `__symbols__` |
| `Renumbering.ShiftedPhandle` | boot/libufdt/ufdt_overlay.c:82-108 | After renumbering a listed node has its old phandle plus the offset, any other node the phandle it had |
| `Renumbering.ShiftedCells` | boot/libufdt/ufdt_overlay.c:82-93 | Each of `phandle` and `linux,phandle` of a listed node has the offset added where it is one cell, and neither of an unlisted node |
| `Renumbering.ShiftedOnly` | boot/libufdt/ufdt_overlay.c:99-108 | A value that renumbering changed belongs to a phandle property of a listed node |
| `Renumbering.CellsApart` | boot/libufdt/ufdt_overlay.c:99-108 | Different nodes have different phandle cells, so none is increased twice |
| `ReferenceLaws.UpdateWithin` | boot/libufdt/ufdt_overlay.c:534-584 | Updating references changes values of the overlay only, and no value's length |
| `FixupPlans.UpdateFollows` | boot/libufdt/ufdt_overlay.c:232-295 | When no fixup is about a value that fixups are read from, updating references is renumbering plus one edit per listed cell, and fails exactly when some fixup does not resolve |
| `FixupPlans.PerformExact` | boot/libufdt/ufdt_overlay.c:206-226 | Edits at disjoint places all take effect, each on the value that was there |
| `FixupPlans.PerformElsewhere` | boot/libufdt/ufdt_overlay.c:438-463 | A cell that no edit overlaps keeps its value |
| `FixupPlans.LocalFollows` | boot/libufdt/ufdt_overlay.c:465-499 | Local fixups follow the list of cells read off beforehand |
| `FixupPlans.FixupsFollow` | boot/libufdt/ufdt_overlay.c:259-292 | External fixups follow the list of cells and phandles read off beforehand |
| `Listing.LocalCellShifted` | boot/libufdt/ufdt_overlay.c:438-532 | For every property at a path below `__local_fixups__` and every offset in its value: the node at that path has the property, and the cell there ends as its old value plus the main maximum |
| `Listing.ExternalCellWritten` | boot/libufdt/ufdt_overlay.c:206-295 | For every string /c0/../cn:property:n in the value of a symbol under `__fixups__`: the cell at byte n of that property of the node at c0..cn ends as the phandle of the main node at the path that the symbol's value spells |
| `Listing.UpdatesResolve` | boot/libufdt/ufdt_overlay.c:206-532 | Reference updates succeed iff every listed property, subnode and cell under `__local_fixups__` is there and, for every property of `__fixups__`, the main tree has `__symbols__`, the symbol leads to a node and every string names a cell |
| `Listing.StringsRead` | boot/libufdt/ufdt_overlay.c:206-226 | The strings of a list are, one after the other, what its bytes spell |
| `Targeting.EditsTakeEffect` | boot/libufdt/ufdt_overlay.c:130-226 | Every listed cell holds its old value plus the offset, or the symbol's phandle |
| `Targeting.LocalReferenceFollows` | boot/libufdt/ufdt_overlay.c:82-108 | A listed local reference to an overlay node equals that node's new phandle, the old one plus the offset |
| `Targeting.LocalReferenceResolves` | boot/libufdt/ufdt_overlay.c:438-549 | For sound inputs with room for their phandles it still leads, through the table of the result, to the node at the same path below the fragment's target, which carries the phandle properties of the node referred to, when no phandle property is overwritten |
| `Targeting.MainReferenceKept` | boot/libufdt/ufdt_overlay.c:338-408 | For such inputs a reference to a main node still leads to that node in the result, when no phandle property is overwritten |
| `Targeting.OverlayNodeImage` | boot/libufdt/ufdt_node.c:205-239 | Which node of the merged tree stands for an overlay node: the one at the same path below the target, with the same phandle properties |
| `Targeting.SymbolTargeted` | boot/libufdt/ufdt_overlay.c:130-295 | A fragment whose target is listed under a symbol is merged into the main node that is reached by descending the path which the symbol's value spells, whatever came before |
| `Targeting.SymbolMerged` | boot/libufdt/ufdt_overlay.c:338-387 | The same for any value of the symbol, with the node that it names |
| `Addressing.PathTargeted` | boot/libufdt/ufdt_overlay.c:357-371 | A fragment without `target` whose `target-path` spells /c0/../cn is merged into the node reached by descending c0..cn; without that node the main tree stays as it is |
| `Addressing.AliasTargeted` | boot/libufdt/ufdt_overlay.c:357-371 | The same for a `target-path` that starts with an alias |
| `Addressing.PathCodes` | boot/libufdt/ufdt_overlay.c:357-387 | Which result code such a fragment gets: an unresolved path before a missing `__overlay__` |
| `Addressing.Untargeted` | boot/libufdt/ufdt_overlay.c:357-363 | A fragment with neither property changes nothing and is missing its target |
| `Listing.PhandleTargeted` | boot/libufdt/ufdt_overlay.c:347-355 | A fragment whose `target` cell holds the phandle of a main node is merged into that node |
| `Targeting.SymbolTarget` | boot/libufdt/ufdt_overlay.c:338-371 | Its target is that node whatever the earlier fragments made of the main tree |
| `Targeting.TargetString` | boot/libufdt/ufdt_overlay.c:111-197 | The string /name:target:0 names the target cell of the fragment of that name |
| `Targeting.TargetListed` | boot/libufdt/ufdt_overlay.c:206-226 | A symbol with that string among its strings lists the fragment's target |
| `Targeting.ExternalEdit` | boot/libufdt/ufdt_overlay.c:206-292 | Every string under `__fixups__` stands for one assignment of its symbol's phandle |
| `Preservation.FragmentsKeepPhandle` | boot/libufdt/ufdt_node.c:205-239 | A node with a phandle keeps its phandle properties through all later fragments that give it none |
| `Preservation.MergeKeepsPhandle` | boot/libufdt/ufdt_node.c:205-239 | The same for one merge |
| `Uniqueness.OverlayKeepsDistinct` | boot/libufdt/ufdt_overlay.c:70-108 | Distinct phandles stay distinct after any successful application whose fixups keep the overlay's phandles as renumbered, even where the overlay replaces one, for every main and overlay maximum whose sum is below 2^31; the sum bounds all phandles of the result |
| `Uniqueness.OverlayShifted` | boot/libufdt/ufdt_overlay.c:99-108 | After all reference updates that keep the phandle properties as renumbered, every overlay phandle is its old value plus the main maximum |
| `Sparing.SparingKeeps` | boot/libufdt/ufdt_overlay.c:130-292 | A run in which no fixup is about a phandle property keeps them as renumbered, even if fixups are about values that fixups are read from |
| `Uniqueness.HarmlessKeeps` | boot/libufdt/ufdt_overlay.c:130-292 | So does a run whose fixups can be read off beforehand and are about no phandle property |
| `Collision.PhandlesCollide` | boot/libufdt/ufdt_overlay.c:438-499 | An overlay whose local fixup is about a phandle property: distinct phandles in both inputs, a successful application, and two nodes with phandle 3 |
| `Uniqueness.MaxBelow` | boot/libufdt/ufdt_overlay.c:70-76 | All main phandles are at most the last entry of the table |
| `PhandleLaws.MergePhandles` | boot/libufdt/ufdt_node.c:205-239 | Merging invents no phandle and doubles none |
| `PhandleLaws.MergedPhandle` | boot/libufdt/ufdt_node.c:147-160 | Whose phandle a merged node has |
| `PhandleLaws.FragmentsPhandles` | boot/libufdt/ufdt_overlay.c:392-408 | No phandle occurs more often in the result than in the main tree and the fragments together |
| `Tameness.TameIsHarmless` | boot/libufdt/ufdt_overlay.c:232-295 | A condition on the overlay alone, one direction: under it the fixups write no phandle property and nothing that is read, whatever the main tree |
| `Parse.FdtToUfdtTree` | boot/libufdt/ufdt_convert.c:124-164 | The recursive parser builds, in new entries, the tree that the structure block spells, and ends behind its end-node token; every property is named by the bytes of the strings block at its name offset, up to the first NUL; it terminates because the remaining input shrinks |
| `Flattening.ParseThenFlatten` | boot/libufdt/ufdt_convert.c:124-164 | Flattening the children that were parsed, in the order they were read, gives back the tokens minus NOPs |
| `RoundTrip.StreamKept` | boot/libufdt/ufdt_convert.c:124-164 | What the output functions write for a parsed blob is the blob's stream minus NOPs exactly when that stream obeys section 5.4.2 of the Devicetree Specification: no property token follows an end-node token |
| `RoundTrip.LeadIsObeyed` | boot/libufdt/ufdt_convert.c:356-384 | The token stream of a tree obeys section 5.4.2 iff in every node the properties come before the subnodes |
| `RoundTrip.PropsFirstFixes` | boot/libufdt/ufdt_convert.c:370-378 | Moving properties first leaves a tree as it is iff no property follows a subnode anywhere |
| `RoundTrip.WrittenObeys` | boot/libufdt/ufdt_convert.c:356-384 | What is written always obeys section 5.4.2, and reordering a second time changes nothing |
| `Flattening.FlattenThenParse` | boot/libufdt/ufdt_convert.c:124-164 | Parsing a flattened child list gives the children back |
| `Flattening.DecodeWritten` | boot/libufdt/ufdt_convert.c:356-384 | A blob that spells the written tokens decodes to the tree with properties stably moved before subnodes |
| `Flattening.SelectIs` | boot/libufdt/ufdt_convert.c:370-378 | The children that one output loop visits are exactly those of its kind, in the order they had |
| `Flattening.OutIsFlatten` | boot/libufdt/ufdt_convert.c:356-384 | The two output loops write the flattened form of the tree with properties first |
| `Flattening.FillMerge` | boot/libufdt/ufdt_node.c:205-253 | Merging records and then looking up values equals merging values |
| `Reordering.DescendReordered` | boot/libufdt/ufdt_convert.c:370-378 | Moving properties first keeps every path |
| `Reordering.PropOfReordered` | boot/libufdt/ufdt_convert.c:370-378 | Moving properties first keeps every property value |
| `Reordering.SaneReordered` | boot/libufdt/ufdt_convert.c:356-384 | Names and phandles stay unique when the tree is written |
| `Erasing.DecodedRecords` | boot/libufdt/ufdt_convert.c:111-122 | Every property of a decoded blob refers to its own token |
| `Output.UfdtToFdt` | boot/libufdt/ufdt_convert.c:416-455 | A result exactly when header, reserve list, tree and strings fit into the buffer: a sound blob of the buffer size that decodes to the tree with properties first, the reserve list of the first blob only, no existing value changed; none for a tree without blobs |
| `Output.OutputNode` | boot/libufdt/ufdt_convert.c:356-384 | Writes exactly the tokens of the tree; for a node it succeeds exactly when they fit below the strings at the buffer's end, although properties are only checked against the end itself |
| `Output.OutputRoot` | boot/libufdt/ufdt_convert.c:435-443 | The structure block of the whole tree; on success every single write ended below the strings, -1 exactly when the tree does not fit there |
| `Output.OutputChildren` | boot/libufdt/ufdt_convert.c:370-378 | The children of one kind, in order, or -1 when they do not fit |
| `Output.OutputProperty` | boot/libufdt/ufdt_convert.c:324-354 | One property token whose name offset denotes the property's name; -1 exactly when it would pass the buffer's end |
| `Output.WriteProperty` | boot/libufdt/ufdt_convert.c:333-351 | Appends the token and enters it in the dictionary, all earlier entries intact; -1 exactly when the token would pass the buffer's end; it is recorded whether the token ended below the strings |
| `Output.GetPropertyNameoff` | boot/libufdt/ufdt_convert.c:306-322 | The offset, reused or computed, is negative and denotes the name in the output strings; 0 exactly for a name that is neither in the dictionary nor in a string table |
| `Output.OutputStrtab` | boot/libufdt/ufdt_convert.c:386-414 | All string tables at the end of the buffer, the first blob's last; -1 exactly when they do not fit |
| `Output.OutputReserveMap` | boot/libufdt/ufdt_convert.c:425-433 | The entries of the first blob, then the empty one; -1 exactly when there is no room for all of them |
| `Output.FdtFinish` | boot/libufdt/ufdt_convert.c:387-389 | Moving the strings behind the structure block and adding their size to every stored offset keeps every name |
| `Output.Relocated` | boot/libufdt/ufdt_convert.c:386-414 | A name offset still denotes its name after the relocation |
| `FdtBuffers.EncodedSize` | boot/libufdt/ufdt_convert.c:334-344 | The size counted for a token is the number of bytes that section 5.4.1 of the Devicetree Specification stores for it, padding included |
| `FdtBuffers.FdtBuffer.BeginNode` | boot/libufdt/ufdt_convert.c:367-368 | Appends a begin-node token iff it fits below the strings |
| `FdtBuffers.FdtBuffer.EndNode` | boot/libufdt/ufdt_convert.c:380-381 | Appends an end-node token iff it fits below the strings |
| `FdtBuffers.FdtBuffer.AddReserveEntry` | boot/libufdt/ufdt_convert.c:425-430 | Adds an entry iff there is room |
| `Sizes.MergeSize` | boot/libufdt/ufdt_overlay.c:646-648 | A merged tree takes at most the bytes of both |
| `Sizes.ParsedSize` | boot/libufdt/ufdt_convert.c:124-164 | What was parsed takes no more bytes than the tokens it was read from |
| `Sizes.DecodedFits` | boot/libufdt/ufdt_overlay.c:646-648 | Tree, end token, strings, reserve list and header fit into the blob's size |
| `Sizes.SpelledSize` | boot/libufdt/ufdt_convert.c:334-344 | A block that spells some tokens takes their bytes |
| `Sizes.PropsFirstSize` | boot/libufdt/ufdt_convert.c:370-378 | Moving properties first keeps the size |
| `Ufdts.Ufdt.constructor` | boot/libufdt/ufdt_convert.c:22-43 | A tree object starts with the one blob, or with none |
| `Ufdts.Ufdt.AddFdt` | boot/libufdt/ufdt_convert.c:63-85 | The blob is appended; the array doubles when it is full and keeps its contents; -1 for NULL |
| `Ufdts.Ufdt.GetStringOff` | boot/libufdt/ufdt_convert.c:87-109 | The negative distance of a string from the end of the combined tables, 0 when it is in none |
| `Ufdts.StringOffDenotes` | boot/libufdt/ufdt_convert.c:87-109 | For any number of tables the offset is strictly negative and the string there is the original |
| `Ufdts.StringOffMissing` | boot/libufdt/ufdt_convert.c:107-108 | 0 iff the string is in none of the tables |
| `Ufdts.StrtabSuffix` | boot/libufdt/ufdt_convert.c:386-414 | Adding tables does not move the earlier ones relative to the end |
| `PropDicts.PropDict.constructor` | boot/libufdt/ufdt_prop_dict.c:69-87 | An empty dictionary of four slots |
| `PropDicts.PropDict.Find` | boot/libufdt/ufdt_prop_dict.c:142-147 | The property entered last under the name, NULL exactly for names never entered |
| `PropDicts.PropDict.Add` | boot/libufdt/ufdt_prop_dict.c:128-140 | The name maps to the new property, all other names as before, whether or not the table grows |
| `PropDicts.PropDict.EnlargeIfNeeded` | boot/libufdt/ufdt_prop_dict.c:95-126 | Contents and the probe-chain invariant survive doubling; afterwards the table is not crowded |
| `PropDicts.PropDict.Rehash` | boot/libufdt/ufdt_prop_dict.c:104-117 | All entries, and nothing else, end up in the new table |
| `PropDicts.FindIndexByName` | boot/libufdt/ufdt_prop_dict.c:42-60 | The probe stops at the slot of the name, or at the empty slot where it belongs; -1 only for a full table without it |
| `PropDicts.StrHash` | boot/libufdt/ufdt_prop_dict.c:31-40 | The hash loop, with 32-bit wrap-around |
| `PropDicts.MaskIsMod` | boot/libufdt/ufdt_prop_dict.c:45-57 | For table sizes 2^k the mask is the remainder |
| `PropDicts.NotHeld` | boot/libufdt/ufdt_prop_dict.c:42-60 | Meeting an empty slot proves that the name is absent |
| `PropDicts.Written` | boot/libufdt/ufdt_prop_dict.c:128-140 | Writing where the search stopped keeps every probe chain unbroken |
| `NodePool.Pool.constructor` | boot/libufdt/ufdt_node_pool.c:66-69 | An empty list whose end pointer is the pool head |
| `NodePool.Pool.Alloc` | boot/libufdt/ufdt_node_pool.c:176-198 | An entry distinct from all live ones, and no two live entries share a byte; a block is added only when every block is full; blocks with free entries stay in front |
| `NodePool.LiveApart` | boot/libufdt/ufdt_node_pool.c:90-115 | Any two live entries of the pool are at least the size of a structure apart |
| `NodePool.EntryInside` | boot/libufdt/ufdt_node_pool.c:90-115 | All bytes of an entry lie inside its block and behind the block's header |
| `NodePool.Pool.Free` | boot/libufdt/ufdt_node_pool.c:218-243 | Exactly that entry is released; order, end pointer and at most one unused block are kept; an address of no block changes nothing |
| `NodePool.Pool.Destruct` | boot/libufdt/ufdt_node_pool.c:71-88 | All blocks go; a leak is reported iff an entry is still live |
| `NodePool.Pool.SearchBlock` | boot/libufdt/ufdt_node_pool.c:200-216 | The slot of the block holding an address, the end when there is none |
| `NodePool.Pool.Prepend` | boot/libufdt/ufdt_node_pool.c:143-152 | The block becomes the first; the end pointer stays the slot holding NULL even when it was the pool head |
| `NodePool.Pool.Append` | boot/libufdt/ufdt_node_pool.c:154-160 | The block becomes the last |
| `NodePool.Pool.Remove` | boot/libufdt/ufdt_node_pool.c:162-174 | The block is unlinked; the end pointer follows when it was the last |
| `NodePool.Pool.Settle` | boot/libufdt/ufdt_node_pool.c:227-242 | An emptied block is released exactly when the first other block has room, else the block goes to the front |
| `NodePool.Pool.Requeue` | boot/libufdt/ufdt_node_pool.c:190-195 | A first block that became full goes to the end, any other stays |
| `NodePool.Block.constructor` | boot/libufdt/ufdt_node_pool.c:90-115 | All entries threaded into one acyclic free list inside the block |
| `NodePool.Block.Alloc` | boot/libufdt/ufdt_node_pool.c:122-131 | Takes the first free entry |
| `NodePool.Block.Free` | boot/libufdt/ufdt_node_pool.c:133-141 | The entry becomes the first free one |
| `NodePool.Block.LiveSize` | boot/libufdt/ufdt_node_pool.c:122-141 | The count of a block is the number of its live entries |
| `NodePool.Dropped` | boot/libufdt/ufdt_node_pool.c:117-120 | Dropping a block without live entries loses no live entry |

## Left out

- `Output.WriteProperty`: keeps the strings of the buffer intact when a property passes the code's check and reaches into them; the code overwrites them, and then fails at the next end-node token as the model does.
- `Overlay.UfdtApplyOverlay`: states nothing for malformed blobs, structure blocks that start with NOPs, offsets outside their values or failing allocation, which several paths of the code do not check, nor for phandles from 2^31 on, with which the last table entries are never written.
- `Boot.ApplyOverlays`: takes orderly overlays, since a fixup on a phandle property can make two phandles equal (`Collision.PhandlesCollide`). It ends without a result when an overlay fails; the code goes on and reads the size of a NULL blob. Device matching, GPIO and command-line tests and file loading are its inputs.
- `References.GetFixupLocation`: does not model the choice between stack and heap for the copy of the string; sums of `int` are taken to wrap around.
- `References.LocalFixupProp`: states nothing for offsets that the check lets through and that are not inside the value, where the code is undefined; the same goes for `References.DoOneFixup`.
- `Lookup.GetNodeByPath`: reads an alias value up to its first NUL and does not model bytes behind that; the byte behind the NUL of a node name, padding or part of the next token, is taken to be zero.
- `Fragments.FindTarget`: states nothing for a `target` of length zero, for which the code reads the token behind it.
- `Nodes.NodeHeap.Construct`: writes a structure to a map from pool addresses to structures, so the layout of a structure in its 32 bytes is not modelled.
- `Table.SortEntries`: stands for `dto_qsort` with a simple sort; entries with equal phandles may come out in another order.
- libfdt is not part of this model beyond definitions at token and byte-size level: `fdt_next_tag`, the sequential-write functions, `fdt_finish` and `fdt_open_into`; `ufdt_install_blob` only checks a header.
- Sizes and offsets are unbounded: blobs are taken to be smaller than 2^31 bytes.
- Error messages, `ufdt_print`, `ufdt_node_print` and the `dto_` wrappers add nothing to prove.
- `setup_dtb_prop` and the other files under `boot/`, `audio/` and `scripts/` are system calls, option dispatch and simple lists.
