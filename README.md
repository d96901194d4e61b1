# mini-notion document tree, modelled in Dafny

mini-notion is a small browser notebook. Its pages form a forest: every
document has an optional `parentId` and an `order` among its siblings. The
tree engine of `app.js` holds that forest in two arrays of one `state`
record. `state.docs` holds the live documents. `state.trash` holds the
archived ones.

- **Queries:**
  - `childrenOf`, `maxOrder`, `findDoc` and `existsInDocs`;
  - `isDescendant`, `descendantsOf` and the breadcrumb walk `pathOf`.
- **Mutators:**
  - `createDoc`, `updateDoc`, `moveDoc`;
  - `archiveDoc` (a subtree goes to the trash), `restoreDoc` (a trash entry comes back), `removeDoc` (permanent deletion);
  - `normalizeOrders` and `reattachOrphansFor`.

This project models that engine.

## Modules

- **`Documents`**
  - The `Doc` record.
  - `__origParentId` is an `Option<Option<Id>>`, so it can be undefined, `null` or an id.
  - `__restoredOrphan` is a `bool`.
  - The sibling order `order, then title` and the stable sort `childrenOf` uses.
- **`Forest`**
  - Lookups and sibling groups.
  - The ancestor chain, acyclicity and the depth-first walk of `descendantsOf`.
  - Acyclicity means that some rank map puts every live parent below its child.
- **`Ancestors`** — `isDescendant` and `pathOf` as loops over a cursor.
- **`Normalize`** and **`Placement`** — `normalizeOrders` and the order facts that placement relies on.
- **`Workspace`** — the `{docs, trash}` state and the invariant every operation keeps:
  - ids are unique across both lists;
  - a live `parentId` names a live document;
  - the live forest is acyclic.
- **`Create`**, **`Update`**, **`Move`**, **`Archive`**, **`Remove`**, **`Restore`**
  - One specification function per mutator, giving the state after the call.
  - Lemmas that state what the source promises about that state.
- **`Engine`** — the class `Store`.
  - It has the fields `docs` and `trash`.
  - Each mutator is an imperative method on it, with the source's loops and in-place steps.
  - The re-attachment loop uses the guarded waiting test `Restore.Waits` (see "Left out" and "Findings").
  - Each method is proved to leave the store in the state its specification function gives.
  - Each public method is also proved to keep `Valid()`.
- **`Findings`** — the re-attachment loop exactly as written, and a reachable state in which it closes a cycle. See "Findings".

### Conventions

- **Ids** are non-empty strings. A missing (falsy) id is `None`.
- **Time:** `Date.now()` is a parameter `now`.
- **Fresh ids:** the fresh id that `uid()` would draw is a parameter `id`. It must not occur in either list.
- **Order values** are `real`. The half steps `±0.5` are therefore exact.

## Model

| member | source | states |
|---|---|---|
| Workspace.AddLeaf | app.js:172 | Pushing a document with a fresh id keeps the invariant. Its parent must be absent or live. |
| Workspace.FilterOut | app.js:232-234 | The kept entries are exactly the entries whose id is not in the set. No entry is added. |
| Workspace.FilterOutRemove | app.js:233 | With unique ids, filtering out one entry's id is the same as splicing out that entry. |
| Documents.KeyLeTotal | app.js:116 | Any two documents are comparable by the `childrenOf` comparator. |
| Documents.KeyLeTransitive | app.js:116 | The comparator (order, then title) is transitive. |
| Documents.SortByKey | app.js:116 | The result is a permutation of the input, sorted by order and then by title. |
| Documents.SortStable | app.js:116 | The sort is stable: the documents that share an order and a title come out in the order they went in. |
| Documents.SortedUnique | app.js:113-118 | If siblings have pairwise different orders, only one sorted arrangement of them exists. |
| Forest.IndexOf | app.js:127-130 | The result is -1 exactly when no document has the id. Otherwise it is the first position that holds the id. |
| Forest.FindDoc | app.js:127-137 | A document is found exactly when the id is live (`existsInDocs`). The found document is live and carries that id. |
| Forest.ChildrenOf | app.js:113-118 | The result holds exactly the live documents with that `parentId`. It is sorted by order, then by title, and is a permutation of the filtered group. |
| Forest.ChildrenStable | app.js:113-118 | Siblings that share an order and a title keep the order in which they stand in the live list. |
| Forest.MaxOrder | app.js:121-124 | An empty group gives 0. Otherwise the result is one more than some child's order and at least one more than every child's order. |
| Forest.Ancestry | app.js:618-630 | The chain ends at the document and starts at a root-most live ancestor. Each entry is the parent of the next. |
| Forest.ChainBound | app.js:283-295 | No ancestor chain is longer than the live list, so the depth bound of the walk never cuts it short. |
| Forest.DescendantsMembers | app.js:283-295 | A document is in `descendantsOf(id)` exactly when it is live and `id` is the parent of some entry of its ancestor chain. |
| Forest.DescendantsUnique | app.js:283-295 | `descendantsOf(id)` lists no document twice and never lists `id` itself. |
| Ancestors.Up | app.js:627 | The next cursor exists exactly when the parent is set and live. It is that parent. |
| Ancestors.UnderUnfold | app.js:144-147 | One turn of the `isDescendant` loop: the answer is true when the parent is the ancestor, else the question moves to the live parent. |
| Ancestors.IsDescendant | app.js:141-149 | The answer is true exactly when both ids are given, `id` is live and the candidate is the parent of some entry on its ancestor chain. |
| Ancestors.PathOf | app.js:618-630 | The loop builds exactly the ancestor chain of `id`. |
| Ancestors.PathShape | app.js:618-630 | The path is empty exactly when `id` is not live. Otherwise it runs from a root-most live ancestor down to `id`, and each entry is the parent of the next. |
| Ancestors.DescendsOnPath | app.js:141-149 | `isDescendant(id, a)` holds exactly when `a` is the `parentId` of an entry of `pathOf(id)`. For a live `a`, it holds exactly when `a` is a proper entry of that path. |
| Ancestors.NotOwnDescendant | app.js:141-149 | No document is its own descendant, because ids are unique and the forest is acyclic. |
| Normalize.Renumber | app.js:275-280 | Ids, parents and positions stay as they are. Only orders change, and only inside the group. |
| Normalize.RenumberChildren | app.js:275-280 | The group keeps its `childrenOf` order, and the i-th child gets the order i. |
| Normalize.RenumberNormalizes | app.js:275-280 | After the call, the i-th child of `pid` has order i. |
| Normalize.RenumberOther | app.js:275-280 | The children of every other parent are unchanged. |
| Normalize.NormalizedFixed | app.js:275-280 | A call on a group that is already normalised changes nothing. |
| Normalize.RenumberIdempotent | app.js:275-280 | A second call changes nothing. |
| Normalize.NormalizedSpaced | app.js:264 | Two siblings in a normalised group are at least 1 apart. A half step therefore lands strictly between neighbours. |
| Placement.RenumberLast | app.js:275-280 | A member with the largest order in its group becomes the last child after renumbering. |
| Placement.RenumberAdjacent | app.js:275-280 | Two members with no sibling between their orders end up with consecutive orders. |
| Create.CreateFields | app.js:151-176 | Exactly one document is appended. It carries the fresh id, the parent and the title (or "Untitled" when none is given), empty icon and content, is not starred and is stamped `now` twice. Every other document keeps all its fields except its order. Only the new document's group is renumbered. |
| Create.CreateKeepsInv | app.js:151-176 | `createDoc` keeps the invariant. |
| Create.CreateNormalizes | app.js:173 | The new document's group is normalised afterwards. |
| Create.AppendOrder | app.js:154-160 | When `afterId` is not a sibling, the new order is `maxOrder(parentId)`. |
| Create.AfterOrder | app.js:156-159 | When `afterId` is a sibling, the new order is that sibling's order plus 0.5. |
| Create.CreateLast | app.js:154-173 | When `afterId` is not a sibling, the new document is the last child of its parent. |
| Create.CreateAfter | app.js:156-173 | When `afterId` is a sibling in a normalised group, the new document comes immediately after it. Its order is one more than that sibling's. |
| Update.Apply | app.js:181 | The patched fields take the patch's values. `updatedAt` becomes `now`. Every other field is kept. |
| Update.UpdateFrame | app.js:178-183 | Nothing changes when the id is not live. Otherwise exactly the document with that id is patched. |
| Update.UpdateKeepsInv | app.js:178-183 | `updateDoc` keeps the invariant. |
| Update.UpdateKeepsGroups | app.js:178-183 | Without a title in the patch, every sibling group keeps its order and stays normalised. |
| Move.ParsePos | app.js:250-264 | "inside" and "before" are recognised. Every other value means "after". |
| Move.PlacedShape | app.js:250-264 | Before renumbering, src gets the new parent and a new order, and nothing else changes. |
| Move.MoveAt | app.js:241-248 | Once the guards pass, src and target are live at two different positions. The move places src there and stamps it. |
| Move.MoveFrame | app.js:239-272 | Only src changes parent and `updatedAt`. Other documents change only their order, and only within the old or the new group of src. |
| Move.MoveReparents | app.js:250-267 | Exactly src is re-parented, under the target ("inside") or under the target's parent. |
| Move.NewParentOutside | app.js:243 | Past the `isDescendant` guard, the new parent is live and is not inside src's subtree. |
| Move.MoveKeepsInv | app.js:239-272 | `moveDoc` keeps the invariant, the absence of cycles included, on every input. This covers the guarded no-ops. |
| Move.MoveNormalizes | app.js:250-267 | The old group and the new group of src are both normalised afterwards. |
| Move.MoveInside | app.js:250-257 | "inside" makes src the last child of the target. |
| Move.MoveBeside | app.js:258-267 | "before" or "after" gives src the target's parent. If that group was normalised, src sits immediately before or after the target. |
| Archive.MarkAllAt | app.js:193 | Each archived document keeps all its fields and records its parent in `__origParentId`. |
| Archive.MovedListsTargets | app.js:188 | `toArchive` lists, in depth-first preorder, exactly the ids of the document and its live descendants. They are distinct and all live. |
| Archive.FoldMoves | app.js:189-197 | The loop removes the listed documents from `docs` and appends them, marked and in list order, to `trash`. No document is lost. |
| Archive.ArchiveParts | app.js:186-199 | The new live list is the old one without the targets. The new trash is the old trash followed by the marked targets. |
| Archive.ArchiveLive | app.js:186-199 | The multiset of the live list plus the moved documents equals the old live list. The old trash is a prefix of the new one. Each appended entry equals the moved document with `__origParentId` set to its parent. |
| Archive.ArchiveNotLive | app.js:186-199 | Archiving an id that is not live changes nothing. |
| Archive.ArchiveClosed | app.js:186-199 | Afterwards no archived id is live, and no live document has its parent among them. |
| Archive.ArchiveKeepsInv | app.js:186-199 | `archiveDoc` keeps the invariant. |
| Remove.RemoveOnlySelf | app.js:231 | Descendants are computed over the live list. For an id that is not live, only that id is deleted, and archived children stay in the trash. |
| Remove.RemoveEntry | app.js:230-236 | Removing a trash entry deletes that entry alone. The live list is untouched and the rest keep their order. |
| Remove.RemoveKeepsInv | app.js:230-236 | `removeDoc` keeps the invariant. |
| Restore.Rejoined | app.js:300-306 | Each orphan that waits for `id` (guarded test `Waits`) moves under it with its flag cleared. Every other document is kept. |
| Restore.TakeOut | app.js:203-206 | After the splice, the entry's id occurs in neither list. |
| Restore.ReviveFields | app.js:208-220 | With the desired parent set and not live, the document goes to the root flagged as an orphan and remembers that parent. Otherwise it takes that parent, clears the flag and keeps `__origParentId`. Every other field is kept. |
| Restore.PushedFields | app.js:203-223 | The revived document is appended. Every live document keeps all its fields except its order. |
| Restore.PushedKeepsInv | app.js:202-223 | Restoring the entry keeps the invariant, before any re-attachment. |
| Restore.PushedNoChildren | app.js:202-223 | Before the re-attachment, the restored document has no live children. |
| Restore.ReattachFields | app.js:298-310 | Each waiting orphan (guarded test `Waits`) is rejoined. Documents that are neither waiting nor children of `id` are untouched. The group of `id` is normalised when any orphan rejoined. Nothing changes when none waits. |
| Restore.ReattachKeepsInv | app.js:298-310 | The guarded re-attachment keeps the invariant, acyclicity included. |
| Restore.RestoreAt | app.js:203-225 | An id not in the trash changes nothing. Otherwise the result is the push followed by the re-attachment. |
| Restore.RestoreFields | app.js:202-227 | The entry leaves the trash, which keeps its order. The live list grows by one: the revived document, at the end. |
| Restore.RestoreOthers | app.js:202-227 | Every other live document keeps all its fields except its order, unless it was an orphan waiting for `id` and rejoined it. |
| Restore.RestoreNormalizes | app.js:222-225 | The children of the restored document form a normalised group. When no orphan rejoined, so is the group it was restored into. |
| Restore.RestoreKeepsInv | app.js:202-227 | `restoreDoc` keeps the invariant, acyclicity included. |
| Engine.RejoinWaiting | app.js:299-306 | The loop rejoins exactly the waiting orphans (guarded test `Waits`) and keeps ids unique. `changed` is true exactly when some document waited. |
| Engine.Store.constructor | app.js:55-58 | The store starts empty and valid. |
| Engine.Store.NormalizeOrders | app.js:275-280 | The loop over `childrenOf(pid)` leaves the live list equal to `Renumber` of the old one. |
| Engine.Store.ReattachOrphansFor | app.js:298-310 | The live list becomes `Reattach` of the old one, with the guarded waiting test. |
| Engine.Store.CreateDoc | app.js:151-176 | Returns the fresh id. The live list becomes `CreateSpec` of the old one. Validity is kept. |
| Engine.Store.Insert | app.js:152-173 | The push and the renumbering leave the live list equal to `CreateSpec` of the old one. |
| Engine.Store.UpdateDoc | app.js:178-183 | The live list becomes `UpdateSpec` of the old one. Validity is kept. |
| Engine.Store.MoveDoc | app.js:239-272 | The live list becomes `MoveSpec` of the old one. Validity is kept. |
| Engine.Store.Relocate | app.js:241-269 | The guards, the placement and the stamp leave the live list equal to `MoveSpec` of the old one. |
| Engine.Store.NestUnder | app.js:250-257 | The "inside" branch: src goes last under the target, then both groups are renumbered. |
| Engine.Store.SetBeside | app.js:258-267 | The "before"/"after" branch: src goes half a step beside the target, then both groups are renumbered. |
| Engine.Store.ArchiveDoc | app.js:186-199 | The state becomes `ArchiveSpec` of the old one. Validity is kept. |
| Engine.Store.RestoreDoc | app.js:202-227 | The state becomes `RestoreSpec` of the old one, with the guarded re-attachment. Validity is kept. |
| Engine.Store.Restore | app.js:203-225 | The find, the splice, the push and the guarded re-attachment together leave `RestoreSpec` of the old state. |
| Engine.Store.TakeBack | app.js:205-223 | The entry leaves the trash, is revived, is pushed, and its group is renumbered. |
| Engine.Store.RemoveDoc | app.js:230-236 | The backward loop leaves the state equal to `RemoveSpec` of the old one. Validity is kept. |
| Findings.RejoinedAsWritten | app.js:300-306 | The loop as written: each document with the orphan flag and `__origParentId === id` moves under `id`. |
| Findings.CycleAsWritten | app.js:298-310 | From a state that satisfies the invariant, `restoreDoc("t")` as written makes the live forest cyclic. |
| Findings.CycleCorrected | app.js:298-310 | From the same state, `restoreDoc("t")` with the guarded re-attachment keeps the forest acyclic and restores T. |
| Findings.BeforeRestoreReachable | app.js:186-272 | That state is reached from X above T above O by `archiveDoc("x")`, `restoreDoc("o")`, `restoreDoc("x")` and `moveDoc("x", "o", "inside")`, each step keeping the invariant. |

## Left out

- Persistence is not part of this model. `load` and `save` go through `localStorage` and JSON. `save()` is a no-op here, and the seed documents are not modelled.
- `uid()` draws a random id. It is replaced by the parameter `id`, with the requirement that the id occurs in neither list.
- `Date.now()` is replaced by the parameter `now`.
- Documents.TitleLe: stands in for the locale-dependent `localeCompare`. It compares code units lexicographically, and the proofs only use that it is a total preorder.
- `toast` in `restoreDoc` is a UI side effect and is left out.
- Rendering, inline rename, the editor, drag-and-drop geometry, hash routing, the debounced save and `init` are DOM, timer and browser I/O code. None of them is part of this model. Only the `pos` value that a drop passes to `moveDoc` is modelled.
- Update.Apply: a patch can name only `title`, `icon`, `content` and `starred`. The callers pass `title` or `content`; `icon` and `starred` are modelled as well. `Object.assign` with a patch that names `id`, `parentId` or `order` is not modelled.
- Engine.Store.CreateDoc: requires `parentId` to be absent or live. Its only caller passes a rendered live document. With a dangling parent, the invariant would fail. `Engine.Store.Insert` models the body without this requirement.
- Restore.Waits: the re-attachment of `reattachOrphansFor` is guarded. An orphan that is `id` itself or lies above `id` stays where it is, still flagged and waiting for `id`. Without this guard the loop can close a cycle (see "Findings"). `Findings.RejoinedAsWritten` models the loop as written.
- Forest.Walk: `descendantsOf` recurses without a bound. The model passes a depth of `|docs|`. `Forest.ChainBound` and `Forest.DescendantsMembers` show that in an acyclic forest this bound never cuts the walk.
- The source mutates records in place, so `docs` and `trash` entries are shared objects. The model keeps documents as values inside the two sequences. Aliasing between the two lists cannot arise under the unique-id invariant, and it is not modelled.
- The mutators are split for the proofs. `CreateDoc` calls `Insert`, `MoveDoc` calls `Relocate`, and `RestoreDoc` calls `Restore` and `TakeBack`. The split follows the steps of the source functions and does not change their behaviour.

## Findings

| source | as written | input that shows it | evidently intended | confidence | as-written member | corrected member |
|---|---|---|---|---|---|---|
| app.js:298-310 | `reattachOrphansFor(id)` moves every live document with `__restoredOrphan` and `__origParentId === id` under `id`, without checking where `id` now lies. | Take X above T above O. Archive X, so all three go to the trash. Restore O: T is trashed, so O goes to the root as an orphan waiting for T. Restore X and move X inside O. Restore T: it goes back under X, and O is then re-parented under T. Now O is under T, T under X and X under O. | Re-attaching a waiting orphan must not create a cycle. The orphan should be skipped when it is `id` itself or an ancestor of `id`. | not executed | Findings.CycleAsWritten | Findings.CycleCorrected |
