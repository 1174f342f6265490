# haex-pass password groups: a Dafny model

haex-pass keeps secrets (items with a title, username, password, URL,
notes, OTP secret and tags, plus custom key-value fields and attachments)
in a tree of user-editable groups. The group store
(`app/stores/passwords/groups.ts`) owns that tree. It has these parts:

- **Reads:** a group by id, the group list, the children of a group, the items filed under a group, and the parent chain ("breadcrumbs").
- **Writes:** add, update, move, insert (drag and drop), clone, soft delete into a `trash` root, and hard delete.
- **The reference resolver:** turns a field value that contains a token such as `{REF:PASSWORD@ITEM:<id>}` into the referenced value, and follows chains of references.
- **Equality helpers:** two small functions used to avoid needless refreshes.

This project models that store in Dafny 4.11. Each file is one module:

| file | module | what it models |
|---|---|---|
| `wrappers.dfy` | `Wrappers` | `Option`, `Result`, `Outcome` and the error kinds (`NotInitialized`, `ConstraintViolation`) |
| `text.dfy` | `Text` | ASCII upper-casing and the character classes of the reference pattern under its `i` flag |
| `records.dfy` | `Records` | the rows (group, item details, key-value, attachment, menu entry), JavaScript truthiness of strings, `find` by id, and the `order … nulls last` sort |
| `tokens.dfy` | `Tokens` | the reference pattern as a leftmost, case-insensitive, unanchored matcher, proved sound and complete against a declarative description of an occurrence |
| `resolver.dfy` | `Resolver` | `resolveReferenceAsync`, with a fuel parameter in place of the source's unbounded recursion |
| `hierarchy.dfy` | `Hierarchy` | the read filters, `getParentChain`, `inTrashGroup`, and the subtree that the schema's cascade removes on a hard delete |
| `mutations.dfy` | `Mutations` | add, update, move and insert, each as a function of the tables before the call |
| `cloning.dfy` | `Cloning` | the loop of `cloneGroupItemsAsync` as a function of the tables before the call |
| `vault.dfy` | `Vault` | class `GroupStore`, holding the tables and the cached `groups` list; its methods are the store's operations and change the fields in place, and each is proved against the functions above |
| `equality.dfy` | `Equality` | `areObjectsEqual` and `areGroupsEqual` over a small model of JavaScript values, as written |

Where the store's documented behaviour and its code differ, the model
follows the code:

- **Reference pattern:** not anchored, and matched case-insensitively. The leftmost token anywhere in the value is taken, and when it resolves, the whole value is replaced, including any text around the token.
- **No depth or cycle guard:** neither `getParentChain` nor the resolver has one. Both are modelled with fuel. An exhausted budget is reported (`None` / `Diverges`); there is no `CycleDetected` error.
- **`moveGroupItemsAsync`:** does not reject a move that would create a cycle.
- **`getChildGroupsRecursiveAsync`:** never adds any child to its result, so it returns the caller's accumulator.
- **Group clones lose `description`:** `cloneGroupItemsAsync` passes `description` to `addGroupAsync`, but `addGroupAsync` does not copy it.
- **`insertGroupItemsAsync`:** can leave its loop early through a `return`, which also skips the refresh of the `groups` list.
- **Parent references are not checked:** `addGroupAsync`, `updateAsync` and `moveGroupItemsAsync` write whatever `parentId` they are given. A clone into a truthy `targetGroupId` that names no group gets that id as its parent. The model accepts such dangling parents; there is no `ConstraintViolation` for an unknown parent.
- **`areGroupsEqual`:** does not compare contents (see Findings).

## Model

| member | source | states |
|---|---|---|
| Text.Upper | app/stores/passwords/groups.ts:376-377 | upper-casing yields an upper-case letter exactly for ASCII letters and leaves every other character unchanged |
| Text.UpperKeepsClasses | app/stores/passwords/groups.ts:367 | the field and id character classes are the same before and after upper-casing, so matching them under the `i` flag does not depend on case |
| Records.FindIndex | app/stores/passwords/groups.ts:56 | `find` by id returns the first position whose id equals the key, and none exactly when no row has that id |
| Records.FindById | app/stores/passwords/groups.ts:296 | the found group is present exactly when a row has the id, and it is the first such row |
| Records.FindUnique | app/stores/passwords/groups.ts:300 | when ids are unique, looking up a row's id returns that row |
| Records.SortByOrder | app/stores/passwords/groups.ts:170 | the `order nulls last` ordering yields a sorted permutation of its input |
| Records.SortKeepsTieOrder | app/stores/passwords/groups.ts:170 | the sort is stable: rows with equal `order` keep their row order |
| Records.InsertKeepsTieOrder | app/stores/passwords/groups.ts:170 | inserting a row into a sorted list places it after the rows of equal `order` |
| Records.InsertByOrderSorted | app/stores/passwords/groups.ts:175 | inserting into a list sorted by `order` (nulls last) keeps it sorted |
| Records.InsertByOrderMultiset | app/stores/passwords/groups.ts:175 | insertion adds exactly the one row, so no row is lost or duplicated |
| Records.OrderedTransitive | app/stores/passwords/groups.ts:170 | the `order nulls last` comparison is transitive |
| Records.OrderedTotal | app/stores/passwords/groups.ts:170 | any two rows are comparable under `order nulls last` |
| Tokens.FindTokenCorrect | app/stores/passwords/groups.ts:367-368 | a match found is an occurrence of the pattern, with nothing matching further left; no match is found exactly when the value contains no occurrence |
| Tokens.FindFromLeftmost | app/stores/passwords/groups.ts:368 | the scan returns the leftmost occurrence from its start position on |
| Tokens.FindFromComplete | app/stores/passwords/groups.ts:368 | when the scan finds nothing, no occurrence starts at or after its start position |
| Tokens.FindFromSound | app/stores/passwords/groups.ts:368 | what the scan returns is a genuine occurrence at the reported position |
| Tokens.ParseComplete | app/stores/passwords/groups.ts:367 | at a position where the pattern occurs, the parser returns exactly that token and its extent |
| Tokens.ParseSound | app/stores/passwords/groups.ts:367 | a token the parser returns is an occurrence of the pattern |
| Tokens.ParseNone | app/stores/passwords/groups.ts:367 | when the parser finds nothing at a position, the pattern does not occur there |
| Tokens.OccursUnique | app/stores/passwords/groups.ts:367 | at most one token occurs at a position: field, type and id are determined by the text |
| Tokens.LeftmostIsFound | app/stores/passwords/groups.ts:368 | an occurrence with none before it is the match `value.match` returns |
| Tokens.RenderRoundTrip | app/stores/passwords/groups.ts:367 | a well-formed token written out as `{REF:FIELD@TYPE:id}` is found again with the same field, type and id, spanning the whole text |
| Tokens.TokenInsideText | app/stores/passwords/groups.ts:367-368 | a written-out token after text without `{` is the match, at its position |
| Tokens.TagAtKind | app/stores/passwords/groups.ts:367 | any spelling of `ITEM`, `GROUP` or `ITEM.EXTRA` in either case is recognised as that type |
| Resolver.ItemField | app/stores/passwords/groups.ts:388-414 | an item field name is recognised exactly when it is one of the listed names and aliases |
| Resolver.GroupField | app/stores/passwords/groups.ts:442-456 | a group field name is recognised exactly when it is NAME, DESCRIPTION, ICON or COLOR |
| Resolver.FindKey | app/stores/passwords/groups.ts:426-428 | the custom field found has a key equal to the field ignoring case, and none is found exactly when no key matches |
| Resolver.Resolve | app/stores/passwords/groups.ts:360-464 | null, undefined or empty input resolves to null, and a resolved string is never empty |
| Resolver.ResolveFuelMonotone | app/stores/passwords/groups.ts:418 | once resolution ends within a budget, a larger budget gives the same result (the fuel only bounds the recursion) |
| Resolver.LiteralPassthrough | app/stores/passwords/groups.ts:368-370 | a non-empty value without any reference token is returned unchanged |
| Resolver.UnresolvableKeepsValue | app/stores/passwords/groups.ts:383-456 | for a missing item, an unknown field, no custom fields, no matching key, an empty custom value, a missing group or an unknown group field, the original value comes back unchanged |
| Resolver.FieldCaseIrrelevant | app/stores/passwords/groups.ts:376-377 | tokens that differ only in the case of their field or type dereference to the same value and resolve alike |
| Resolver.ItemFieldAliases | app/stores/passwords/groups.ts:401-409 | NOTE and NOTES name the note, and OTP, OTPSECRET and OTP_SECRET name the OTP secret |
| Resolver.ItemReference | app/stores/passwords/groups.ts:379-418 | an item token resolves to the re-resolution of the item's field when the item exists, and to itself when it does not |
| Resolver.PasswordReference | app/stores/passwords/groups.ts:395-418 | `{REF:PASSWORD@ITEM:id}` resolves to whatever the item's password resolves to |
| Resolver.UsernameReference | app/stores/passwords/groups.ts:392-418 | `{REF:USERNAME@ITEM:id}` resolves to whatever the item's username resolves to |
| Resolver.ChainEndsResolves | app/stores/passwords/groups.ts:418-460 | resolution with a budget of k fetches ends exactly when the chain of references from the value reaches, within k fetches, a value that is empty, has no token or has a token that cannot be followed |
| Resolver.ChainYieldsLiteral | app/stores/passwords/groups.ts:418 | a chain A to B ends in B's literal password |
| Resolver.EmptyFieldGivesNull | app/stores/passwords/groups.ts:418 | a present but empty or null field resolves to null |
| Resolver.CycleDiverges | app/stores/passwords/groups.ts:418 | two passwords that refer to each other never resolve, under any budget |
| Resolver.SurroundingTextReplaced | app/stores/passwords/groups.ts:368-418 | text around a resolvable token is dropped: the result is that of the field alone |
| Hierarchy.WithParent | app/stores/passwords/groups.ts:169 | the filter keeps exactly the rows with the given parent, with their multiplicities |
| Hierarchy.ListGroups | app/stores/passwords/groups.ts:160-179 | sorted; a truthy parent gives exactly its children, each as often as it is stored, and a falsy one gives every group (not only roots) |
| Hierarchy.ByParent | app/stores/passwords/groups.ts:212-236 | sorted; a truthy parent gives exactly its children and a falsy one exactly the roots, each as often as it is stored |
| Hierarchy.ParentChain | app/stores/passwords/groups.ts:52-62 | an unknown id gives the empty chain; otherwise the chain ends with the group, starts at a group whose parent is unknown, and is no longer than the budget |
| Hierarchy.ChainShape | app/stores/passwords/groups.ts:52-62 | a chain that ends consists of stored groups, each found again by its own id, and each element's parent lookup yields the element before it |
| Hierarchy.ChainLinks | app/stores/passwords/groups.ts:52-62 | the chain is root-first: every parent link points at the previous element |
| Hierarchy.InTrashGroup | app/stores/passwords/groups.ts:98-100 | defined exactly when the chain is, and true exactly when a chain element has id `trash` |
| Hierarchy.ParentChainFuel | app/stores/passwords/groups.ts:59 | a chain computed within a budget is the same under any larger budget |
| Hierarchy.ChainDistinct | app/stores/passwords/groups.ts:52-62 | a chain that ends never holds the same id twice |
| Hierarchy.SelfParentDiverges | app/stores/passwords/groups.ts:59 | a group that is its own parent makes the walk run forever |
| Hierarchy.ParentChainFuelEnough | app/stores/passwords/groups.ts:52-62 | a budget of one step per stored row suffices for every chain that ends |
| Hierarchy.UnderTrashRoot | app/stores/passwords/groups.ts:98-100 | a group directly under a root `trash` group is in the trash |
| Hierarchy.Subtree | app/stores/passwords/groups.ts:570 | the cascade set holds the group and is closed under taking children |
| Hierarchy.SubtreeLeast | app/stores/passwords/groups.ts:570 | the cascade set is contained in every child-closed set holding the group, so it removes nothing more |
| Hierarchy.Closure | app/stores/passwords/groups.ts:570 | the closure contains its seed and is closed under taking children |
| Hierarchy.ClosureLeast | app/stores/passwords/groups.ts:570 | the closure is the least such set |
| Hierarchy.BreadcrumbsInSubtree | app/stores/passwords/groups.ts:52-62 | every group below a chain element in the chain lies in that element's subtree |
| Hierarchy.Doomed | app/stores/passwords/groups.ts:569-573 | a hard delete removes nothing when no group has the id, and otherwise a child-closed set holding the group |
| Hierarchy.DeleteAbsentChangesNothing | app/stores/passwords/groups.ts:571-573 | a hard delete of an id that names no group leaves the groups and the memberships unchanged |
| Hierarchy.WithoutNothing | app/stores/passwords/groups.ts:571-573 | removing no ids keeps every row in order |
| Hierarchy.Without | app/stores/passwords/groups.ts:571-573 | the delete keeps exactly the rows whose id is not doomed, with their multiplicities |
| Hierarchy.WithoutKeepsUnique | app/stores/passwords/groups.ts:571-573 | deleting rows keeps ids unique |
| Hierarchy.DropMemberships | app/stores/passwords/groups.ts:570 | the cascade drops exactly the memberships filed under a doomed group and keeps the others unchanged |
| Hierarchy.CascadeLeavesNoOrphans | app/stores/passwords/groups.ts:570 | after a hard delete no remaining group has a deleted parent |
| Mutations.GroupRow | app/stores/passwords/groups.ts:133-140 | the inserted row takes the given id or the fresh one when it is missing or empty, takes the given columns, and has no description |
| Mutations.UpdateRows | app/stores/passwords/groups.ts:266-269 | the update keeps the row count and every id, and changes only rows with the given id |
| Mutations.UpdateIdempotent | app/stores/passwords/groups.ts:251-270 | applying the same update twice equals applying it once |
| Mutations.UpdateKeepsIds | app/stores/passwords/groups.ts:251-270 | the update keeps the set of ids and their uniqueness |
| Mutations.CountId | app/stores/passwords/groups.ts:553-563 | the count is zero exactly when no row has the id |
| Mutations.CountUnique | app/stores/passwords/groups.ts:553-563 | with unique ids, an existing id occurs exactly once |
| Mutations.MovedRows | app/stores/passwords/groups.ts:333-344 | the move keeps the row count and every id |
| Mutations.MovedMemberships | app/stores/passwords/groups.ts:345-353 | the move keeps the set of filed items |
| Mutations.MoveReachesTarget | app/stores/passwords/groups.ts:337-344 | every listed group ends with the target's id as parent (null when the target is unknown) |
| Mutations.MoveIdempotent | app/stores/passwords/groups.ts:323-357 | moving the same ids to the same target a second time changes nothing |
| Mutations.MoveKeepsIds | app/stores/passwords/groups.ts:323-357 | the move keeps the set of ids and their uniqueness |
| Mutations.SetParent | app/stores/passwords/groups.ts:341-344 | exactly the rows with the id get the new parent; all other rows are unchanged |
| Mutations.MovedRowsStep | app/stores/passwords/groups.ts:333-344 | one loop iteration reparents the listed group unless it is already under the target |
| Mutations.MovedMembershipsStep | app/stores/passwords/groups.ts:345-353 | one loop iteration refiles a non-group id only under a known target |
| Mutations.MovedNothing | app/stores/passwords/groups.ts:333 | an empty list changes neither table |
| Mutations.WithTrashSingle | app/stores/passwords/groups.ts:553-563 | after ensuring a `trash` row exists, ids are unique and `trash` occurs exactly once; when it was absent, it is the new root row `Trash` |
| Mutations.Retarget | app/stores/passwords/groups.ts:313-316 | only the named item's membership changes, to the target |
| Mutations.Overwrite | app/stores/passwords/groups.ts:305-309 | only rows with the id are replaced |
| Mutations.OverwriteKeepsIds | app/stores/passwords/groups.ts:305-309 | replacing a row by one with the same id keeps the ids and their uniqueness |
| Mutations.StoppedStaysStopped | app/stores/passwords/groups.ts:302 | after the early return no later entry has any effect |
| Mutations.InsertRunStep | app/stores/passwords/groups.ts:298-319 | the run over one more entry is one step of the loop, and a step that returns ends the whole run |
| Mutations.InsertRunFirst | app/stores/passwords/groups.ts:302 | a first entry that returns decides the whole run |
| Mutations.UnknownGroupWithoutTargetStops | app/stores/passwords/groups.ts:300-302 | an unknown group entry with no target group returns at once and changes nothing (undefined equals undefined) |
| Mutations.DuplicateGroupStops | app/stores/passwords/groups.ts:302-305 | a group listed twice ends the loop at its second occurrence, because the first already reparented the cached group |
| Mutations.FindIndexAfterParentChange | app/stores/passwords/groups.ts:305 | changing a cached group's parent does not change where any id is found |
| Mutations.InsertRunKeepsLookups | app/stores/passwords/groups.ts:296-305 | the loop never changes where an id is found in the cache |
| Mutations.StepPlaces | app/stores/passwords/groups.ts:304-310 | a loop step that continues leaves the group of a listed entry under the target, and keeps groups already there |
| Mutations.InsertRunPlaces | app/stores/passwords/groups.ts:298-319 | when the loop completes, every listed cached group has the target's id (or null) as parent |
| Cloning.AttachmentsOf | app/stores/passwords/groups.ts:511 | exactly the attachment rows of the item |
| Cloning.Rehome | app/stores/passwords/groups.ts:535-543 | each copy keeps binary hash and file name and points at the new item, in order |
| Cloning.FreshPrefix | app/stores/passwords/groups.ts:500-520 | fresh ids for the whole list are fresh for every prefix of it |
| Cloning.StepPrefixes | app/stores/passwords/groups.ts:489-547 | one iteration only appends to the groups and attachments tables |
| Cloning.StepOnlyAdds | app/stores/passwords/groups.ts:489-547 | with a fresh id, one iteration keeps every existing item, custom-field list and membership |
| Cloning.ClonePrefixes | app/stores/passwords/groups.ts:489-548 | the whole loop only appends to the groups and attachments tables |
| Cloning.CloneEntries | app/stores/passwords/groups.ts:489-548 | the whole loop keeps every existing item, custom-field list and membership |
| Cloning.CloneOnlyAdds | app/stores/passwords/groups.ts:466-551 | cloning only adds: existing rows, items, custom fields, memberships and attachments are kept, and every new item has one of the fresh ids |
| Cloning.StepRowIds | app/stores/passwords/groups.ts:499-506 | one iteration adds at most the fresh id to the group ids |
| Cloning.RunRowIds | app/stores/passwords/groups.ts:489-548 | the loop adds no group ids other than fresh ones |
| Cloning.CloneLoopStep | app/stores/passwords/groups.ts:489-548 | the run over one more id is one more iteration, and its fresh id is unused so far |
| Cloning.Untouched | app/stores/passwords/groups.ts:489-548 | an id not among the fresh ones has the same item, custom fields and membership presence before and after |
| Cloning.ItemStep | app/stores/passwords/groups.ts:507-531 | one item iteration writes the cloned details, the original's custom fields and a membership under the target |
| Cloning.ClonedItem | app/stores/passwords/groups.ts:507-531 | each listed item that exists gets a copy under its fresh id, with the cloned details, the original's custom fields, and a membership under the target group if known, else null |
| Cloning.MissingItemClonesNothing | app/stores/passwords/groups.ts:509-513 | a listed id that is neither a group nor an item produces nothing: no item, custom fields, membership or attachment row under its fresh id |
| Cloning.StepAttachmentsFor | app/stores/passwords/groups.ts:534-545 | one iteration adds attachment rows only for its own fresh id |
| Cloning.RunAttachmentsFor | app/stores/passwords/groups.ts:489-548 | the loop adds attachment rows only for the fresh ids |
| Cloning.CloneRowCount | app/stores/passwords/groups.ts:491-506 | one new group row per listed group and none for anything else, so the clone is shallow |
| Cloning.CloneRowOf | app/stores/passwords/groups.ts:495-506 | the cloned group has the fresh id, the target id (or null) as parent, the name with the appendix, the same icon and colour, no description and no order |
| Cloning.NewRowsAreClones | app/stores/passwords/groups.ts:491-506 | every added group row is the clone of a listed cached group |
| Cloning.ClonedGroupRow | app/stores/passwords/groups.ts:491-506 | every listed cached group has its clone among the rows |
| Cloning.NoHistoryNoAttachments | app/stores/passwords/groups.ts:534 | without `includeHistory` no attachment is copied |
| Cloning.StepCopies | app/stores/passwords/groups.ts:534-545 | with `includeHistory`, one item iteration copies each of the item's attachments |
| Cloning.HistoryCopied | app/stores/passwords/groups.ts:534-545 | with `includeHistory`, every attachment of a cloned item is copied to its clone |
| Cloning.ClonedCredentialsResolve | app/stores/passwords/groups.ts:525-528 | with reference credentials, the clone's username and password resolve to what the original's resolve to |
| Vault.GroupStore.constructor | app/stores/passwords/groups.ts:18 | a store starts with empty tables and an empty `groups` list |
| Vault.GroupStore.ReadGroup | app/stores/passwords/groups.ts:147-158 | an error when the database is not initialised; otherwise a group exactly when one has the id, and then a stored row with that id |
| Vault.GroupStore.ReadGroups | app/stores/passwords/groups.ts:160-179 | an error when not initialised; otherwise sorted, and exactly the children of a truthy parent or all groups, each as often as it is stored |
| Vault.GroupStore.GetByParentId | app/stores/passwords/groups.ts:212-236 | the empty list when not initialised (the caught error); otherwise sorted, and exactly the children of a truthy parent or the roots, each as often as it is stored |
| Vault.GroupStore.ReadGroupItems | app/stores/passwords/groups.ts:181-198 | an error when not initialised; otherwise exactly the items filed under a truthy group id, or exactly the unfiled ones |
| Vault.GroupStore.Sync | app/stores/passwords/groups.ts:64-83 | when initialised the `groups` list becomes the stored groups in order; otherwise nothing changes |
| Vault.GroupStore.AddGroup | app/stores/passwords/groups.ts:129-145 | an error when not initialised or when the id is taken; otherwise the new row is appended, returned, and ids stay unique |
| Vault.GroupStore.UpdateGroup | app/stores/passwords/groups.ts:251-270 | an error when not initialised; a no-op for an empty id; otherwise exactly the update of the rows with that id |
| Vault.GroupStore.CreateTrashIfNotExists | app/stores/passwords/groups.ts:553-563 | the groups table gains a `trash` row only when it lacks one, and then holds exactly one `trash` row; a row it creates is the root `Trash` group |
| Vault.GroupStore.DeleteGroup | app/stores/passwords/groups.ts:565-578 | a final delete, or a delete of the trash, removes the group's subtree and the memberships under it (nothing for an unknown id); otherwise a `trash` row is ensured and the group is moved under it, leaving exactly one `trash` row however often it is repeated, and a `trash` row created here is a root |
| Vault.GroupStore.MoveToTrash | app/stores/passwords/groups.ts:574-577 | the soft delete: afterwards there is exactly one `trash` row, a `trash` row it had to create is a root, the group is reparented under it, and memberships are untouched |
| Vault.GroupStore.MoveGroupItems | app/stores/passwords/groups.ts:323-357 | the tables become the move of the listed ids under the target, ids stay unique, and the `groups` list is refreshed |
| Vault.GroupStore.MoveEntry | app/stores/passwords/groups.ts:335-353 | one iteration: a cached group not already under the target is reparented, any other id is refiled under a known target, and nothing else changes |
| Vault.GroupStore.InsertGroupItems | app/stores/passwords/groups.ts:286-321 | the tables and the cache become the run of the loop; after an early return the `groups` list keeps the parents written into it and is not refreshed, otherwise it is refreshed |
| Vault.GroupStore.InsertEntry | app/stores/passwords/groups.ts:299-318 | one iteration: whether it returns early, and otherwise the tables and the cache as one step of the loop leaves them; ids stay unique |
| Vault.GroupStore.CloneGroupItems | app/stores/passwords/groups.ts:466-551 | the tables become the cloning run over the listed ids with their fresh ids, and the `groups` list is refreshed |
| Vault.GroupStore.CloneEntry | app/stores/passwords/groups.ts:490-547 | one iteration changes the tables exactly as one step of the cloning run |
| Vault.GroupStore.CloneItem | app/stores/passwords/groups.ts:513-545 | the item, its custom fields and its membership are written under the fresh id, and attachments are copied only with `includeHistory` |
| Vault.GroupStore.CopyAttachments | app/stores/passwords/groups.ts:535-544 | the copied attachments are appended in order, pointing at the new item |
| Vault.ChildGroupsRecursive | app/stores/passwords/groups.ts:200-210 | when the walk ends, its result is the caller's accumulator unchanged, whatever the tree holds; it ends exactly when the budget covers the depth of the subtree |
| Vault.WalkChildren | app/stores/passwords/groups.ts:204-207 | the loop over the children ends exactly when the walk below each child ends, and then returns the accumulator it was given |
| Vault.ExploresAllAt | app/stores/passwords/groups.ts:204-207 | once the loop over the children ends, the walk below each single child ends |
| Vault.ExploresAllFrom | app/stores/passwords/groups.ts:204-207 | the loop over the children ends once the walk below every child ends |
| Vault.ExploresFromChildren | app/stores/passwords/groups.ts:204-207 | the walk of a group ends once the walks of all its children end |
| Vault.ExploresNeedsChild | app/stores/passwords/groups.ts:204-207 | a child whose walk does not end keeps the walk of its parent from ending |
| Vault.UpdateCountsTrash | app/stores/passwords/groups.ts:575-576 | moving a group under the trash keeps exactly one `trash` row |
| Vault.UpdateKeepsTrashRow | app/stores/passwords/groups.ts:575-576 | moving another group leaves the `trash` row as it was |
| Vault.UpdateKeepsCount | app/stores/passwords/groups.ts:251-270 | an update never changes how often an id occurs |
| Equality.StrictEqReflexive | app/stores/passwords/groups.ts:598 | `===` holds between a value and itself |
| Equality.StrictEqSymmetric | app/stores/passwords/groups.ts:610 | `===` is symmetric |
| Equality.Keys | app/stores/passwords/groups.ts:602-603 | `Object.keys` lists an object's own keys, or an array's indices, in order |
| Equality.ObjectsReflexive | app/stores/passwords/groups.ts:598 | every value equals itself |
| Equality.ObjectsOnPrimitives | app/stores/passwords/groups.ts:598-599 | when either side is not an object, the comparison is exactly `===` |
| Equality.ObjectsNeedSameKeyCount | app/stores/passwords/groups.ts:605 | distinct objects with different key counts are unequal |
| Equality.ObjectsNotSymmetric | app/stores/passwords/groups.ts:607-611 | only the first argument's keys are compared, so the comparison is not symmetric |
| Equality.GroupsBothNull | app/stores/passwords/groups.ts:584 | two nulls are equal |
| Equality.GroupsSameLength | app/stores/passwords/groups.ts:587 | two arrays of the same length are equal whatever they hold |
| Equality.GroupsDifferentLength | app/stores/passwords/groups.ts:589-591 | two arrays of different lengths are equal exactly when the first is non-empty |
| Equality.GroupsOtherwise | app/stores/passwords/groups.ts:593 | in every other case the result is the object comparison |
| Equality.GroupsSelfComparison | app/stores/passwords/groups.ts:589-591 | a one-element array is "equal" to the empty array |
| Equality.IntendedGroupsDecide | app/stores/passwords/groups.ts:580-594 | corrected version: arrays of different lengths are unequal, and every value equals itself |
| Equality.IntendedGroupsCompareElements | app/stores/passwords/groups.ts:589-591 | corrected version: arrays differing at an index are unequal |
| Equality.IntendedSelfComparisonFixed | app/stores/passwords/groups.ts:589-591 | corrected version: the one-element array and the empty array are unequal |

## Left out

- Vue/Pinia reactivity, the watcher that triggers a sync (85-96), `currentGroupId`, `currentGroup`, `selectedGroupItems` and the navigation helpers (238-249, 272-284): UI glue with nothing to prove. `breadCrumbs` is `ParentChain` on the current group.
- `async`/`await` and `console.log`/`console.error`: every operation is sequential and logging has no effect on the state.
- SQL and Drizzle are modelled as tables: the groups table is a sequence of rows with unique ids, memberships a map from item id to group id or null, items and custom fields maps keyed by item id, and attachments a sequence of rows. Column defaults and the row id of a copied attachment are not modelled.
- The schema's `ON DELETE CASCADE` rule is not part of this model. The cascade is stated as a contract: the subtree and the memberships under it are removed.
- The foreign key on `parentId` is not part of this model either, so a group may be stored with a parent id that names no group. No insert or update is rejected for such a parent. `AddGroup` fails with `ConstraintViolation` only for a duplicate id.
- A `trash` row that was moved under another group stays a non-root after later soft deletes, as in the source. The model promises a single `trash` row, and a root only when the soft delete created it.
- SQL leaves the order of rows with equal `order` open. The model keeps them in row order (`Records.SortKeepsTieOrder`).
- Drizzle's treatment of `undefined` columns in `.set()`: the model writes only the provided columns (`Update` is `Keep` or `Put`).
- The item store (`readAsync`, `readKeyValuesAsync`, `readAttachmentsAsync`, `addAsync`, `syncItemsAsync`) is not part of this model. Its reads are lookups in the maps, and `addAsync` writes the details, the custom fields and a membership under the target group (null when unknown). `Sync` does not model `syncItemsAsync`.
- `crypto.randomUUID` is replaced by ids passed in: `AddGroup` takes a fresh id, and `CloneGroupItems` requires one distinct, unused, non-empty id per listed entry.
- "Database not initialized" is the `ready` flag and an `Err(NotInitialized)` / `Fail(NotInitialized)` result, not an exception. A database error on inserting a duplicate id is `Err(ConstraintViolation)`.
- Resolver.Resolve: the unbounded recursion is bounded by a fuel parameter, and the result `Diverges` stands for a call that never returns. The resolver's own store lookups cannot fail with "Database not initialized" in the model.
- Hierarchy.ParentChain: the unbounded recursion is bounded by fuel, and `None` stands for a walk that never returns (a parent cycle).
- Vault.ChildGroupsRecursive: bounded by fuel, `None` stands for a walk that never returns. It reads the groups table passed to it rather than the store object.
- `toUpperCase` is modelled on ASCII letters only. Ids and field names the pattern accepts are ASCII, but custom-field keys compared by `FindKey` could contain other letters.
- Equality: JavaScript numbers are integers (no NaN, no -0, no fractions), object identity is a reference number, and property order is the order of the fields. Getters, prototypes, symbols and non-enumerable keys are not modelled.
- Calls into `app/stores/haexhub.ts` and `app/composables/useIconComponents.ts` are not part of this model (SDK set-up, migrations, the theme watcher and icon lookup).

## Findings

| source | as written | input that shows it | evidently intended | confidence | as-written member | corrected member |
|---|---|---|---|---|---|---|
| app/stores/passwords/groups.ts:587-591 | two arrays of equal length are equal without looking at their contents, and for different lengths each element of `groupA` is compared with itself (`groupA[index]`), so the result is true exactly when `groupA` is non-empty | `areGroupsEqual([{}], [])` is true | arrays are equal when they have the same length and their elements are pairwise equal (`groupB[index]`) | not executed | Equality.GroupsSelfComparison | Equality.IntendedSelfComparisonFixed |
