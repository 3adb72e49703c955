# Knowledge-base node sync and outline reconciler, modelled in Dafny

The system stores a personal knowledge base as a flat table of node records
(id, space, type, parent id, ordered child ids, rich-text element, props,
collapsed flag, timestamps). Two components form its core:

- **NodeListService** (the materializer) takes a snapshot of the records and
  answers read-only queries over it: the id index, the singleton nodes (root,
  database root, daily root, inbox, trash, favorite), the root's children
  newest first, the tag and trash nodes, the tree under a node and its
  depth-first flattening, the favorites, the backlinks of a node sorted by
  `updatedAt`, and a `find` with field filters and a limit.
- **NodeService** (the reconciler) is opened on one node. It walks the node's
  ancestors, and writes an edited document back into the store: the title,
  then either a nested outline (each list content is created, or re-parented
  and rewritten only when its content fingerprint changed) or a flat list of
  top-level blocks (each rewritten unconditionally, list blocks recursing
  into an outline save). Rewriting a changed list content or any block also
  appends that element's tag rows and, when it has tags and its record already
  existed, emits a "reference node updated" event; creating an outline
  record, updating a parent's children and saving a title append no tag rows.

The project has five modules:

| file | module | contents |
|---|---|---|
| `model.dfy` | `Model` | records, node types, the rich-text datatype, the content fingerprint, the id index, the stable sort by `updatedAt` |
| `document.dfy` | `Document` | plain text of a fragment, link detection, path addressing in a nested list, the enumeration of list contents in document order and its structural meaning |
| `local_db.dfy` | `LocalDb` | the store as a class `Database` over a `DbState` value (records, tag rows, events, write log) and the pure effect of each store call |
| `node_list_service.dfy` | `Sync` | class `NodeListService` (immutable fields, functions over them) and the pure functions it is specified by |
| `node_service.dfy` | `Service` | class `NodeService`; each save is an imperative method on the store object proved equal to a fold of a pure step function, and the properties of the saves are lemmas about those folds |

The reconciler's store calls happen one after another; the model makes each
call an atomic update of the `Database` object, and records every create and
update call in a write log so that "no write was issued" can be stated.

## Model

| member | source | states |
|---|---|---|
| `Model.HashCoversFourFields` | packages/service/src/NodeService.ts:294-303 | two records hash alike exactly when parent id, element, collapsed flag and children agree |
| `Model.IndexById` | packages/sync/src/NodeListService.ts:26-28 | the id index has exactly the ids of the snapshot as keys, and each key maps to a snapshot record carrying that id |
| `Model.IndexByIdLastWins` | packages/service/src/NodeService.ts:30-32 | a record whose id no later record repeats is the one the index keeps (later duplicates overwrite earlier ones) |
| `Model.SortByUpdatedAt` | packages/sync/src/NodeListService.ts:65 | sorting returns a permutation of its input |
| `Model.SortByUpdatedAtSorted` | packages/sync/src/NodeListService.ts:163 | the sort result is ordered by `updatedAt` in the requested direction and is a permutation of the input |
| `Document.TopChildrenMembership` | packages/sync/src/NodeListService.ts:148-151 | gathering the children of the top-level elements yields exactly the children of the elements that have children |
| `Document.LinksToNested` | packages/sync/src/NodeListService.ts:153-157 | an element links to a node iff some child of some top-level element is a bidirectional link whose link id is that node's id |
| `Document.ItemIds` | packages/service/src/NodeService.ts:241-243 | one id per list item, the id of the item's list content, in item order |
| `Document.ListContentsResolve` | packages/service/src/NodeService.ts:250-253 | the enumeration of list contents visits every list content in document order, and each one's path addresses that content inside the list |
| `Document.ResolvedEntry` | packages/service/src/NodeService.ts:256-285 | for a list content found at a path, the path arithmetic yields the ids of its nested list items as children, the enclosing list content (or the save's parent) as parent, and the content's own children as element |
| `LocalDb.TagRowsFor` | packages/service/src/NodeService.ts:196-198 | one tag row per tag name, in order, each for the given node |
| `LocalDb.Database.constructor` | packages/service/src/NodeService.ts:14 | a store opened on some records holds them, with no tag rows, events or writes |
| `LocalDb.Database.GetNode` | packages/service/src/NodeService.ts:180 | looking a record up returns it exactly when the store holds that id |
| `LocalDb.Database.Update` | packages/service/src/NodeService.ts:187-190 | a partial update merges the given fields into the stored record, bumps `updatedAt`, changes no other record and logs the call |
| `LocalDb.Database.Create` | packages/service/src/NodeService.ts:206-213 | a create stores the record under its id and logs the call |
| `LocalDb.Database.CreateTagRow` | packages/service/src/NodeService.ts:197 | appends one tag row and changes nothing else |
| `LocalDb.Database.EmitRefNodeUpdated` | packages/service/src/NodeService.ts:201 | appends the node's id to the event queue and changes nothing else |
| `Sync.FirstOfType` | packages/sync/src/NodeListService.ts:31-59 | a singleton getter finds nothing iff no node has the type, and otherwise the first node of that type |
| `Sync.OfType` | packages/sync/src/NodeListService.ts:68-74 | a filter never returns more records than it was given |
| `Sync.OfTypeMembers` | packages/sync/src/NodeListService.ts:69 | the selection holds exactly the snapshot records of the requested type |
| `Sync.OfTypeAppend` | packages/sync/src/NodeListService.ts:73 | filtering keeps input order: filtering a concatenation concatenates the filtered parts |
| `Sync.Resolve` | packages/sync/src/NodeListService.ts:125-127 | resolving ids yields exactly the records of the ids that are in the index, no more of them than ids |
| `Sync.ResolveOne` | packages/sync/src/NodeListService.ts:126-127 | one id resolves to its record, or to nothing when the index lacks it |
| `Sync.ResolveAppend` | packages/sync/src/NodeListService.ts:125-127 | resolution keeps id order: resolving a concatenation of id lists concatenates the resolved parts, so the result is the records of the resolving ids in child order |
| `Sync.ResolveTotal` | packages/sync/src/NodeListService.ts:63-64 | when every id resolves, the result has one record per id, in id order |
| `Sync.CreateTreeOf` | packages/sync/src/NodeListService.ts:84-96 | a built tree has one item per child id, each carrying the record of that id and one subtree per child of it; a missing top-level child id makes the build fail |
| `Sync.TreeItemOf` | packages/sync/src/NodeListService.ts:86-94 | an unknown id has no tree item; a known one carries its record, one subtree per child id, and an empty child list for a leaf |
| `Sync.FlattenPlaced` | packages/sync/src/NodeListService.ts:98-121 | a top-level entry carries the given parent id and depth and the record of the child id at its index; a deeper entry carries the record listed at its index among the children of its parent id's record |
| `Sync.FlattenParentBefore` | packages/sync/src/NodeListService.ts:113-117 | every nested entry comes after the entry of its parent (pre-order) |
| `Sync.FlattenSiblings` | packages/sync/src/NodeListService.ts:103-105 | top-level entries appear in child-list order, and every child id that resolves appears; ids that do not resolve are skipped |
| `Sync.FlattenMatchesTree` | packages/sync/src/NodeListService.ts:80-82 | flattening a node's children equals the pre-order walk of the tree built for that node |
| `Sync.PrunedLists` | packages/sync/src/NodeListService.ts:103-118 | the tree that drops unresolved ids lists, under every node and at the top, every position whose id resolves, once each, in increasing position, with that id's record |
| `Sync.FlattenIsPruned` | packages/sync/src/NodeListService.ts:98-121 | flattening equals the pre-order walk of that tree: each record, then its own listing one level deeper, with the position it has among its parent's child ids |
| `Sync.CreateTreeItems` | packages/sync/src/NodeListService.ts:85-95 | a built tree holds, at each position, the item built for the child id there |
| `Sync.CreateTreeResolves` | packages/sync/src/NodeListService.ts:85-95 | a build succeeds only if every id reachable from the children through stored children is stored |
| `Sync.CreateTreeTotal` | packages/sync/src/NodeListService.ts:85-95 | if every reachable id is stored, the build succeeds |
| `Sync.TreeItemTotal` | packages/sync/src/NodeListService.ts:86-94 | if every id reachable from one id is stored, its tree item is built |
| `Sync.CreateTreeSome` | packages/sync/src/NodeListService.ts:84-96 | the build succeeds exactly when every id reachable from the children is stored |
| `Sync.ClosedWhenChildrenStored` | packages/sync/src/NodeListService.ts:84-96 | a store holding every child id of every record is closed from any stored ids, so the build succeeds on it |
| `Sync.Backlinks` | packages/sync/src/NodeListService.ts:137-161 | the backlinks are exactly the common nodes other than the target whose element links to the target |
| `Sync.Where` | packages/sync/src/NodeListService.ts:175-186 | a filter never returns more records than it was given |
| `Sync.WhereMembers` | packages/sync/src/NodeListService.ts:175-186 | the filtered records are exactly the snapshot records whose fields equal every condition |
| `Sync.WhereAppend` | packages/sync/src/NodeListService.ts:175 | filtering keeps snapshot order: filtering a concatenation concatenates the filtered parts |
| `Sync.Slice` | packages/sync/src/NodeListService.ts:199 | a slice from 0 is a prefix; a non-negative end keeps at most that many records, a negative end drops that many from the back |
| `Sync.NodeListService.constructor` | packages/sync/src/NodeListService.ts:23-29 | the service keeps the snapshot and its map is the id index of the snapshot |
| `Sync.NodeListService.SingletonNode` | packages/sync/src/NodeListService.ts:31-59 | the root, database-root, daily-root, inbox, trash and favorite getters: nothing exactly when no node has the type, and otherwise the first node of that type in snapshot order |
| `Sync.NodeListService.FlattenNode` | packages/sync/src/NodeListService.ts:80-82 | `flattenNode` through `Sync.FlattenChildren` (lines 98-121): every entry sits under its stored parent at its position and after its parent's entry; the top level is in child order with every resolving child listed; and the whole listing is the pre-order walk of a tree that, at every level, keeps every resolving child in child order and drops the ids that do not resolve |
| `Sync.NodeListService.CreateTree` | packages/sync/src/NodeListService.ts:84-96 | the tree exists exactly when every id reachable from the node's children is stored; then it has one item per child, in order, with that child's record, and its pre-order is `FlattenNode`'s listing |
| `Sync.NodeListService.GetNode` | packages/sync/src/NodeListService.ts:76-78 | a lookup succeeds iff some snapshot node has the id, and returns such a node |
| `Sync.NodeListService.RootNodes` | packages/sync/src/NodeListService.ts:61-66 | no nodes gives no root nodes; otherwise the root's children, resolved, newest first, as a permutation of the resolved children |
| `Sync.NodeListService.TagNodes` | packages/sync/src/NodeListService.ts:68-70 | the tag nodes are exactly the snapshot nodes of type DATABASE |
| `Sync.NodeListService.TrashedNodes` | packages/sync/src/NodeListService.ts:72-74 | the trashed nodes are exactly the snapshot nodes of type TRASH |
| `Sync.NodeListService.GetFavorites` | packages/sync/src/NodeListService.ts:123-128 | no favorite node gives no favorites; otherwise the resolution of the favorite's children, that is exactly the records of the children that resolve, in child order |
| `Sync.NodeListService.FavoritesAgree` | packages/sync/src/NodeListService.ts:130-132 | `IsFavorite` (child-list membership of the favorite node, which must exist as in the code) agrees with `GetFavorites`: a stored id is a favorite iff its record is among the favorites |
| `Sync.NodeListService.GetLinkedReferences` | packages/sync/src/NodeListService.ts:134-164 | the result holds exactly the backlinks of the node, as a permutation of them, sorted by `updatedAt` ascending |
| `Sync.NodeListService.Find` | packages/sync/src/NodeListService.ts:167-204 | without `where` nothing is found; found records match every condition; with no limit (or 0) the result is all matches in snapshot order; otherwise it is the prefix of the matches that `slice(0, limit)` keeps: the first min(limit, matches) for a positive limit, all but the last -limit (at least none) for a negative one |
| `Service.FitsIffSameHash` | packages/service/src/NodeService.ts:293-303 | a stored record already holds the computed fields exactly when its hash equals the hash of the record with those fields |
| `Service.StepEffect` | packages/service/src/NodeService.ts:287-332 | one list content's step adds or rewrites only its own record, which then holds the computed parent, children, element and collapsed flag; a created record is typed COMMON or LIST_ITEM, an updated one keeps id, space, type, props and creation time; tag rows and events only grow |
| `Service.StepQuietWhenFitting` | packages/service/src/NodeService.ts:303 | an unchanged record costs nothing: no write, no tag row, no event |
| `Service.StepCreated` | packages/service/src/NodeService.ts:322-331 | a missing record is created with the computed fields and one Created write, and no tag row or event is added |
| `Service.StepChanged` | packages/service/src/NodeService.ts:303-320 | a changed record gets one update, one tag row per tag, and one event only when it has tags |
| `Service.StepsFrame` | packages/service/src/NodeService.ts:255-333 | the steps of an outline save add only the ids of its list contents and leave every other record as it was |
| `Service.StepsReconcile` | packages/service/src/NodeService.ts:255-333 | with distinct ids, every list content ends up with its computed fields, created fresh or with its identity kept |
| `Service.StepsQuietWhenFitting` | packages/service/src/NodeService.ts:293-303 | when every record already fits, the steps change nothing at all |
| `Service.SaveOutlineParent` | packages/service/src/NodeService.ts:241-248 | after an outline save the parent's children are the ids of the top-level items, in order, and nothing else of the parent changed but `updatedAt` |
| `Service.SaveOutlineFrame` | packages/service/src/NodeService.ts:241-333 | an outline save touches only the parent and the list contents; tag rows and events only grow |
| `Service.SaveOutlinePlacement` | packages/service/src/NodeService.ts:256-285 | after a separated outline save, the record of every list content has as parent its enclosing list content (or the save's parent), as children its nested items' ids, as element its own children |
| `Service.ResaveIsQuiet` | packages/service/src/NodeService.ts:293-321 | saving the same outline a second time writes only the parent's children: no tag row, no event, and only the parent's `updatedAt` changes |
| `Service.BlockIds` | packages/service/src/NodeService.ts:176 | the own node's new children are the block ids, one per block, in order |
| `Service.BlockHeadEffect` | packages/service/src/NodeService.ts:186-224 | a block's own record is rewritten (element the block, children cleared, identity and parent kept) or created under the parent; no tag row yet |
| `Service.BlockStepEffect` | packages/service/src/NodeService.ts:179-230 | after one block its record holds the block as element, children re-derived for a list or cleared, type LIST exactly for a new list block, identity kept for an existing one; only its own and its list contents' records change; its tag rows are appended at the end whether or not anything changed; an event for it is emitted last exactly when its record existed before and it has tags; for a block that is not a list those are the only tag rows and events it adds |
| `Service.BlocksFrame` | packages/service/src/NodeService.ts:179-230 | block steps only add records, and a record no block names is left as it was |
| `Service.BlocksReconcile` | packages/service/src/NodeService.ts:179-230 | with separated blocks every block ends up saved as `BlockStepEffect` states |
| `Service.SaveBlocksResult` | packages/service/src/NodeService.ts:174-231 | a block save sets the own node's children to the block ids, in order, leaves every block saved, keeps the old tag rows and events in front, and appends every block's own tag rows in block order |
| `Service.BlocksTagRows` | packages/service/src/NodeService.ts:179-230 | the block steps keep the old tag rows and events in front and append each block's own tag rows, in block order, on every save |
| `Service.Unshifted` | packages/service/src/NodeService.ts:68-70 | the collected ancestors are exactly the non-ROOT records of the chain walked |
| `Service.NodeService.constructor` | packages/service/src/NodeService.ts:25-38 | the map is the id index of all nodes and the children list holds the resolved record (or nothing) for each child id |
| `Service.NodeService.ParentNode` | packages/service/src/NodeService.ts:49-52 | the parent is found iff the node has a parent id that some stored node carries, and it is such a node |
| `Service.NodeService.GetParentNodes` | packages/service/src/NodeService.ts:59-81 | the result ends with the node itself, preceded by stored non-ROOT ancestors, outermost first, along a chain of parent links; with no parent id it is just the node; with a parent id the loop runs 1001 passes and stops at a record without a stored parent unless the chain reached 1001 links |
| `Service.NodeService.ScanForParents` | packages/service/src/NodeService.ts:65-72 | one pass climbs at least one level exactly when a stored parent exists, and otherwise changes nothing |
| `Service.NodeService.SaveTitle` | packages/service/src/NodeService.ts:97-117 | no title does nothing; a database node's title goes to `props.name`, any other replaces the element; only the root's title requests a space rename, with the title's plain text and the stored record's space |
| `Service.NodeService.TitleSavedEffect` | packages/service/src/NodeService.ts:100-109 | a title save changes only the target's record, adds no tag row or event, and in that record changes only the element (or, for a database node, the name prop) and `updatedAt`: id, space, type, creation time, parent, children and collapsed flag stay |
| `Service.NodeService.CreateTagRows` | packages/service/src/NodeService.ts:196-198 | one tag row per tag, appended in order |
| `Service.NodeService.SaveOutlinerNodes` | packages/service/src/NodeService.ts:233-334 | the method's effect on the store is the outline-save fold |
| `Service.NodeService.ReconcileEntry` | packages/service/src/NodeService.ts:256-332 | the loop body's effect on the store is one outline step |
| `Service.NodeService.SaveBlockNodes` | packages/service/src/NodeService.ts:174-231 | the method's effect on the store is the block-save fold |
| `Service.NodeService.SaveBlock` | packages/service/src/NodeService.ts:180-229 | the loop body's effect on the store is one block step |
| `Service.NodeService.SaveOutlinerEditor` | packages/service/src/NodeService.ts:147-159 | a document of the demo space is not saved; otherwise the title, then the outline unless the node is a database or database root |
| `Service.NodeService.SaveBlockEditor` | packages/service/src/NodeService.ts:119-131 | the title is saved, then the blocks unless the node is a database or database root |
| `Service.NodeService.EditorGuards` | packages/service/src/NodeService.ts:127-159 | a demo-space outline save writes nothing; for a database or database-root node both saves write at most the title |

## Left out

- Asynchrony and concurrency: every store call is awaited in order and modelled as one atomic update of the `Database` object; interleaving with other writers is not modelled.
- The clock: every timestamp a save writes is the parameter `now`; dates are integers.
- Tag extraction (`extractTags`) is not part of this model; it is the function parameter `tagsOf` of type `Tagger`.
- The content digest is modelled as the tuple of the four hashed fields, so hash collisions cannot occur in the model.
- The rich-text editor (`createEditor`, `Editor.nodes`, `getNodeByPath`, `_.get`) is replaced by an explicit enumeration of list contents with their paths and by path arithmetic over the `Slate` datatype.
- `NodeService.toggleFolded` (packages/service/src/NodeService.ts:87-95) is not part of this model, although it writes the same node store: it flips one record's `folded` flag, a field the modelled records do not carry, and then re-reads the space's records.
- The re-reads through `listNodesBySpaceId` after the saves, and `setNodes`, `setFirstActiveNodes` and `selectNode`, only refresh the UI's in-memory copy of the store; `NodeCleaner.cleanDeletedNodes` and `pushToCloud` act on deleted records and the remote copy. None of them is part of this model.
- The space store's `updateSpace` is not part of this model; `SaveTitle` returns the rename request it would receive.
- `markdownContent` always returns the empty string and `isEqual` compares ids; neither is modelled.
- The `isInReference` flag only affects UI calls and is not modelled.
- The `Node` wrapper class is not part of this model: the services work on raw records.
- The `Node` getters are assumed to be tests of the type tag (`isRootNode`, `isDatabase`, `isDatabaseRoot`, `isDailyRoot`, `isInbox`, `isTrash`, `isFavorite`, `isCommon` compare the type with ROOT, DATABASE, DATABASE_ROOT, DAILY_ROOT, INBOX, TRASH, FAVORITE, COMMON) and `hasChildren` a non-empty-children test; in particular trashed nodes are the TRASH-typed records, not the records of the trash subtree.
- The store fills in defaults the code does not pass: a created block record gets type COMMON (`DEFAULT_TYPE`), empty props and `collapsed` false; an outline record gets empty props.
- The value of the demo space id constant is not part of this model; it is the constructor parameter `demoSpaceId`.
- A `NodeService` opened on no node (the `node?.raw` guard) is not modelled; the node is always present.
- `Sync.NodeListService.SingletonNode` returns `None` where the getters' non-null assertion would hand out `undefined`.
- `Sync.NodeListService.RootNodes` requires the root to exist (otherwise the code throws reading its children) and all its children to resolve. For a child id that does not resolve the code does not fail: the array `sort` moves the `undefined` entries to the end without comparing them, so it returns the sorted records followed by one `undefined` per missing id; the model does not describe that result.
- `Sync.NodeListService.IsFavorite` requires a favorite node, since the code dereferences it unguarded.
- `Sync.NodeListService.CreateTree` and `Sync.NodeListService.FlattenNode` take a ghost rank map that proves the stored tree acyclic, so cyclic stores are excluded. On a cycle the code recurses until the JavaScript call stack overflows and throws a `RangeError`; the model does not describe that failure.
- `Sync.CreateTreeOf` fails as a whole on a child id that does not resolve, where the code throws on reading the missing record's children.
- `Sync.NodeListService.Find` does not model `sortBy`/`orderByDESC` (the `ArraySorter` is not part of this model); `where` conditions cover the scalar fields id, space id, type, parent id and collapsed; key presence is not distinguished from an undefined value.
- `Service.NodeService.SaveBlockNodes` requires every block to be an element, never bare text, because a block's record is keyed by its id.
- `Service.NodeService.SaveTitle` takes the renamed space from the stored record after the update and falls back to the target's space when the store lacks the record.
- The block save emits the "reference node updated" event only for blocks whose record already existed, as the code does; a newly created block with tags gets tag rows but no event.
- The outline save writes no tag rows when it creates a record, as the code does.
- The ancestor walk tests the service's own node's parent id in its loop condition, so it makes exactly 1001 passes whenever that node has a parent; the model keeps this and states it in `GetParentNodes`.
- The properties of whole saves (`StepsReconcile`, `SaveOutlinePlacement`, `ResaveIsQuiet`, `BlocksReconcile`, `SaveBlocksResult`) assume the document names every record once and never names its own parent; duplicate ids make later list contents overwrite earlier ones, which is not characterised.
