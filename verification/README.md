# Content changesets, modelled in Dafny

This project models the core of a SilverStripe CMS module that groups content
edits into changesets. A write or delete of a trackable (versioned) object
puts the object into its editor's Active changeset, but only when the object
has an ID, a user is logged in, and no Active changeset holds the object yet.
A user without an Active changeset gets a new one. The tracking extension
refuses a tracked object's publication, and its deletion from Live, outside a
changeset submission. That refusal is one verdict among the host's: an ADMIN
publishing directly, or the publishing extension's own `doUnpublish`, gets
past it. After a direct publish, `onAfterPublish` takes the object out of its
changeset. A direct unpublish fires no `onAfterPublish`: its Live `delete()`
fires `onAfterDelete`, which leaves the object in, or puts it into, an Active
changeset.
Submitting a changeset publishes or unpublishes each of its objects and marks
it Published. Reverting a changeset handles each object by its change type:
"Edited" and "Draft Deleted" drafts go back to Live, "New" objects are
deleted, "Deleted" ones are left alone, and an "Unpublished" one raises,
which stops the loop.

The model is functional: the persisted state is a `Db` value holding three
things:
- the versioned content store: per `(class, ID)`, an optional Stage version,
  an optional Live version and a `Status` string;
- the changeset table;
- the item table.

Each operation takes the tables and returns them afterwards. The current
member, the clock and the reading stage are explicit parameters. The generated
default title of a new changeset is also a parameter.

Modules, one per concern of the source:
- `Common`: Option/Result, the errors the code raises, members, PHP string
  truthiness, and first-match and filter over tables.
- `ChangeState`: the change-state predicates (`isNew`, `IsDeletedFromStage`,
  `ExistsOnLive`, `IsModifiedOnStage`, `IsAddedToStage`) and the
  change-type classifier.
- `Store`: the versioned store and the rollback primitives the changeset
  calls.
- `PublishableObject`, `Publishable`: the two revisions of the publishing
  extension.
- `Gate`: the `publishingViaChangeset` flag and the permissions it controls.
- `Changesets`: `ContentChangeset` and `ContentChangesetItem`.
- `Service`: `ChangesetService`.
- `Trackable`: the `ChangesetTrackable` extension's hooks and lock queries.

The table invariant `Changesets.Wf` says three things:
- every changeset has been written under a positive ID of its own;
- no item is recorded twice;
- every item links to an existing changeset.

`Trackable.SingleActiveHolder` adds that no object sits in two Active
changesets. `addToChangeset` adds an object only when no Active changeset
holds it yet (code/extension/ChangesetTrackable.php:148-152). So the
`first()` of `getCurrentChangeset` (lines 86-88) picks the object's only
Active holder.

## Model

| member | source | states |
|---|---|---|
| ChangeState.ChangeTypeOfWrittenRecord | code/extension/ChangesetTrackable.php:104-125 | For a written record (nonzero integer ID), the classifier agrees with a table over the two versions and the status: no Stage but Live is "Draft Deleted"; neither is "Deleted"; otherwise Status "Unpublished" wins, then no Live is "New", then differing versions are "Edited", else no change. |
| ChangeState.ChangeTypeWithoutId | code/extension/ChangesetTrackable.php:106-111 | A record without an ID counts as deleted from Stage, so it is "Draft Deleted" when on Live and "Deleted" otherwise. |
| ChangeState.ChangeTypeOfUnwrittenRecord | code/extension/PublishableObject.php:163-216 | A record whose ID is a "new..." string is never deleted, added or modified; only Status "Unpublished" classifies it. |
| ChangeState.IsNewRule | code/extension/PublishableObject.php:140-154 | `isNew`: an integer ID is new iff it is 0; a numeric string other than the empty-valued "0" never is; any other non-empty string is new iff it starts with "new" in any letter case; with concrete instances. |
| ChangeState.UnpublishedIsOnStage | code/extension/ChangesetTrackable.php:104-116 | The deletion rules take priority: an "Unpublished" classification needs Status "Unpublished", an ID, and for a written record a Stage version. |
| ChangeState.InSyncHasNoChange | code/extension/PublishableObject.php:189-198 | A written record with the same version on both stages and a status other than "Unpublished" exists on Live, is not modified, and has no change type. |
| PublishableObject.OnBeforeWrite | code/extension/PublishableObject.php:40-44 | Status becomes "New" only when it is falsy; a set status is kept; the result is always set. |
| PublishableObject.OnBeforeWriteIdempotent | code/extension/PublishableObject.php:40-44 | Applying the default twice is the same as once. |
| PublishableObject.CanPublish | code/extension/PublishableObject.php:52-60 | True iff the given member, or the current user when none is given, is an ADMIN, or the host's `canEdit` permits. |
| PublishableObject.WriteForPublish | code/extension/PublishableObject.php:94-96 | The `write()` before publishing leaves Status "Published" and Live alone. It always leaves a Stage row: a draft already there is kept, and a missing one is written back under a version other than Live's. |
| PublishableObject.DoPublish | code/extension/PublishableObject.php:75-114 | Refused: returns false and nothing changes. Permitted: returns true, Status becomes "Published", the object is on Stage and Live has the same version. A draft on Stage keeps its version; a draft deleted from Stage is written back, so Live gets a new version rather than being removed. |
| PublishableObject.PublishSettles | code/extension/PublishableObject.php:94-97 | After a permitted publish of any written record, with or without a draft before, the object exists on Live, is not modified on Stage and has no change pending. |
| PublishableObject.DoUnpublish | code/extension/PublishableObject.php:116-132 | Succeeds iff permitted and the object has an ID; on success only the Live copy is removed; otherwise nothing changes. |
| PublishableObject.UnpublishReopens | code/extension/PublishableObject.php:116-132 | After unpublishing, the object is not on Live; a draft left on Stage reads as added to Stage, and with no draft the object is "Deleted". |
| PublishableObject.PublishThenUnpublish | code/extension/PublishableObject.php:116-132 | Unpublishing a just-published record keeps the published draft and Status "Published" and removes Live. A draft that existed before the publish is kept as it was. |
| PublishableObject.DirectUnpublish | code/extension/PublishableObject.php:116-132 | `doUnpublish` asks the extension's own `canPublish()` for the current user. It succeeds iff the object has an ID and the user is an ADMIN or `canEdit` permits. Success removes only Live; refusal changes nothing. |
| PublishableObject.DirectUnpublishPermission | code/extension/PublishableObject.php:52-60 | An ADMIN unpublishes any written object directly whatever `canEdit` says. A non-ADMIN, or no user, whom `canEdit` refuses changes nothing. |
| Publishable.OnBeforeWrite | code/extension/Publishable.php:22-29 | Status defaults as in the newer revision; OwnerID becomes the current user's ID only when it is 0. |
| Publishable.CanPublish | code/extension/Publishable.php:31-33 | This revision always permits publishing. |
| Publishable.DoPublish | code/extension/Publishable.php:48-80 | If the owner's `canPublish()` refuses, returns false and nothing changes. Otherwise returns true and the object is "Published", on Stage, with Live equal to Stage; a draft on Stage keeps its version. |
| Publishable.OwnVerdictPublishes | code/extension/Publishable.php:31-49 | When this revision's own always-true verdict is the owner's, a publish succeeds and leaves the object unmodified on Stage. |
| Gate.SetPublishingViaChangeset | code/extension/ChangesetTrackable.php:43-45 | The flag takes the given value. |
| Gate.GateFollowsFlag | code/extension/ChangesetTrackable.php:174-184 | `canPublish` and `canDeleteFromLive` are both refused on a fresh object and both equal the last value set. |
| Changesets.StatusNameIsFaithful | code/dataobjects/ContentChangeset.php:19 | The three Status enum values have distinct names, so filtering by name is filtering by status. |
| Changesets.NewChangeset | code/dataobjects/ContentChangeset.php:17-22 | A new changeset is Active and Exclusive, unwritten (ID 0) and has no PublishedDate. |
| Changesets.ItemIsItsReference | code/dataobjects/ContentChangesetItem.php:10-17 | An item consists of its `(OtherClass, OtherID)` reference and its changeset link; building an item from an object and reading the reference back round-trip. |
| Changesets.WriteChangeset | code/dataobjects/ContentChangeset.php:182-184 | An unwritten changeset is appended under an ID larger than every existing one and stamped Created; a written one replaces the first row with its ID; no other row changes, and row IDs are kept. |
| Changesets.WriteChangesetKeepsWf | code/dataobjects/ContentChangeset.php:182-184 | Writing a changeset with a non-negative ID keeps the tables consistent. |
| Changesets.OwnItems | code/dataobjects/ContentChangeset.php:26-28 | `ChangesetItems()` are exactly the items linking to this changeset's ID; an unwritten changeset has none. |
| Changesets.GetRealItem | code/dataobjects/ContentChangesetItem.php:19-21 | Yields the referenced object iff it exists in the given reading stage. |
| Changesets.Resolve | code/dataobjects/ContentChangeset.php:50-62 | An item resolves iff its object has a nonzero ID and exists on Stage or Live; it is taken from Stage whenever it exists there. |
| Changesets.ResolveOne | code/dataobjects/ContentChangeset.php:50-62 | One item yields at most one object, and yields exactly its own object when that object is resolvable. |
| Changesets.ResolveAll | code/dataobjects/ContentChangeset.php:47-63 | The resolved list holds exactly the objects of resolvable items and is no longer than the item list. |
| Changesets.ResolveAllAppend | code/dataobjects/ContentChangeset.php:47-63 | Resolution keeps item order: resolving a concatenation concatenates the resolutions. |
| Common.FilterAppend | code/dataobjects/ContentChangeset.php:45 | Selecting a changeset's rows from a table made of two parts gives the first part's rows followed by the second's. |
| Changesets.ResolveAllDistinct | code/dataobjects/ContentChangeset.php:47-63 | Resolving a duplicate-free list of one changeset's items yields no object twice. |
| Changesets.GetItems | code/dataobjects/ContentChangeset.php:42-68 | An object is listed iff the changeset is written, holds the object's item, and the object is found with an ID on Stage or Live. |
| Changesets.GetItemsAppend | code/dataobjects/ContentChangeset.php:45-63 | The listing follows the item table's order: the listing for a table made of two parts is the first part's listing followed by the second's. |
| Changesets.GetItemsOne | code/dataobjects/ContentChangeset.php:47-63 | A single row contributes its object exactly when the row belongs to this written changeset and the object is found with an ID on Stage or Live, and nothing otherwise. |
| Changesets.GetItemsDistinct | code/dataobjects/ContentChangeset.php:42-68 | With no item recorded twice, no object is listed twice. |
| Changesets.GetItemsFrame | code/dataobjects/ContentChangeset.php:42-68 | Whether an object is listed depends only on its item and its own record. |
| Changesets.ItemFor | code/dataobjects/ContentChangeset.php:75-89 | Finds the first item matching the object's ID, class and this changeset's ID, and finds none iff no item matches all three. |
| Changesets.Remove | code/dataobjects/ContentChangeset.php:98-104 | Deletes the first row matching the object and this changeset, if there is one, else is a no-op. The other rows keep their order; no changeset or content changes. |
| Changesets.RemoveKeepsOrder | code/dataobjects/ContentChangeset.php:75-104 | When the object has an item here, `remove` deletes the first matching row in place: the table becomes the rows before it followed by the rows after it. |
| Changesets.RemoveKeepsWf | code/dataobjects/ContentChangeset.php:98-104 | `remove` keeps the tables consistent. |
| Changesets.AddItem | code/dataobjects/ContentChangeset.php:111-124 | Already present: unchanged. Changeset without ID: the "no ID" error. Otherwise exactly one item `(class, ID, changeset ID)` is appended. |
| Changesets.AddItemIdempotent | code/dataobjects/ContentChangeset.php:112-115 | Adding the same object a second time changes nothing. |
| Changesets.RemoveUndoesAddItem | code/dataobjects/ContentChangeset.php:98-124 | `remove` after an `addItem` that added something restores the tables exactly. |
| Changesets.AddItemKeepsDistinct | code/dataobjects/ContentChangeset.php:111-124 | `addItem` never records an item twice. |
| Changesets.Revert | code/dataobjects/ContentChangeset.php:132-157 | Fails iff the object is "Unpublished", before anything changes. Otherwise: "Draft Deleted", "Edited" and no change copy Live to Stage; "New" deletes the draft; "Deleted" keeps the record. The object is then removed from the changeset whatever its change type, New included, so with no item recorded twice its item is gone. No other object or changeset changes. This is the corrected revert; see Findings. |
| Changesets.RollBack | code/dataobjects/ContentChangeset.php:133-154 | The content switch of `revert` touches no object but the one reverted; its effect on that object per change type is stated on `Changesets.Revert`. |
| Changesets.RevertClearsItsItem | code/dataobjects/ContentChangeset.php:132-157 | With no item recorded twice, a successful revert leaves no item for the object in this changeset, whatever its change type. |
| Changesets.RevertSettles | code/dataobjects/ContentChangeset.php:132-157 | After a successful revert of a written object whose Status is not "Unpublished", it has no change pending or is fully deleted (given the exact-copy restore). |
| Changesets.RevertEdited | code/dataobjects/ContentChangeset.php:150-156 | Reverting an Edited member of the changeset puts the draft back to the Live version and removes exactly its item. |
| Changesets.RevertNew | code/dataobjects/ContentChangeset.php:146-149 | Reverting a New object deletes it, so the changeset no longer lists it. |
| Changesets.RevertAsWritten | code/dataobjects/ContentChangeset.php:146-156 | Revert as the code stands. For a New object, `remove` looks up the item under ID 0, because `delete()` has cleared the ID. It fails exactly when `Revert` fails, and leaves the same content. Every other change type gives exactly `Revert`'s result. |
| Changesets.RevertNewLeavesItemRow | code/dataobjects/ContentChangeset.php:146-156 | When no row is recorded for ID 0, the as-written revert of a New object leaves the item table exactly as it was, so the object's row stays. `Revert` removes that row. Both list the same objects. |
| Changesets.RevertNewExample | code/dataobjects/ContentChangeset.php:146-156 | Page 5, New on Stage and recorded in changeset 7: the as-written revert keeps the one item row; `Revert` empties the table. |
| Changesets.RevertMovesOnlyItsObject | code/dataobjects/ContentChangeset.php:132-157 | A successful revert delists its own object and leaves every other object's listing as it was. |
| Changesets.RevertEach | code/dataobjects/ContentChangeset.php:194-196 | The loop never touches the changeset table, and any exception that escapes is the "Unpublished" one. |
| Changesets.RevertAll | code/dataobjects/ContentChangeset.php:192-197 | Reverts over a snapshot of `getItems`; any escaping error is the "Unpublished" one. |
| Changesets.RevertEachFrame | code/dataobjects/ContentChangeset.php:194-196 | Objects outside the list keep their records. |
| Changesets.RevertEachKeepsItem | code/dataobjects/ContentChangeset.php:194-196 | An item belonging to none of the listed objects stays in the item table. |
| Changesets.RevertEachNoError | code/dataobjects/ContentChangeset.php:137-141 | Over a list with no object twice and none "Unpublished", no exception escapes. |
| Changesets.RevertEachSplit | code/dataobjects/ContentChangeset.php:194-196 | After a prefix reverted without exception, the loop continues from the state that prefix left. |
| Changesets.RevertEachAppend | code/dataobjects/ContentChangeset.php:194-196 | Reverting the list `a + b`, when `a` raises nothing, is reverting `a` and then `b` from the tables `a` left. |
| Changesets.RevertEachCons | code/dataobjects/ContentChangeset.php:194-196 | One loop step: a revert that succeeds hands its tables to the rest of the loop, and one that raises ends the loop with an error. |
| Changesets.RevertEachStopsAtUnpublished | code/dataobjects/ContentChangeset.php:137-141 | At the first "Unpublished" object, the exception escapes. The reverts before it are kept exactly, its item stays, and its record and every later one are untouched. |
| Changesets.RevertAllStopsAtUnpublished | code/dataobjects/ContentChangeset.php:192-197 | When the i-th listed object is the first "Unpublished" one, `revertAll` raises. It leaves exactly the state of reverting the first i objects, with that object's item and record still in place. |
| Changesets.RevertStep | code/dataobjects/ContentChangeset.php:194-196 | Reverting the first object of the snapshot leaves the rest of the snapshot equal to what the changeset lists, still free of "Unpublished" objects. |
| Changesets.RevertEachEmpties | code/dataobjects/ContentChangeset.php:192-197 | Over a duplicate-free snapshot with no "Unpublished" object, the loop raises nothing and leaves nothing listed. |
| Changesets.RevertAllEmpties | code/dataobjects/ContentChangeset.php:192-197 | `revertAll` on a changeset with no "Unpublished" object raises nothing and leaves it with no items to show. |
| Changesets.SubmitRecord | code/dataobjects/ContentChangeset.php:165-179 | With the flag set: "Deleted" is left alone, "Draft Deleted" loses its Live copy, and anything else is published (Live := Stage, Status "Published"). |
| Changesets.SubmitRecordSettles | code/dataobjects/ContentChangeset.php:165-179 | A submitted written object has no change pending other than a full deletion. |
| Changesets.SubmitEach | code/dataobjects/ContentChangeset.php:163-180 | Objects outside the snapshot are untouched. |
| Changesets.SubmitEachEffect | code/dataobjects/ContentChangeset.php:163-180 | Over a duplicate-free snapshot, each object ends as one `SubmitRecord` of its original record. |
| Changesets.Submit | code/dataobjects/ContentChangeset.php:162-185 | Items unchanged. The changeset is written back as Published with the given PublishedDate, keeping title, owner, lock and ID. Only objects the changeset lists are touched. |
| Changesets.SubmitKeepsWf | code/dataobjects/ContentChangeset.php:162-185 | `submit` keeps the tables consistent. |
| Changesets.SubmitSettles | code/dataobjects/ContentChangeset.php:162-185 | After `submit`, every listed object has been processed once and has no change pending other than a full deletion. |
| Changesets.Lock | code/dataobjects/ContentChangeset.php:203-205 | LockType becomes Exclusive; no other field changes. |
| Changesets.Unlock | code/dataobjects/ContentChangeset.php:199-201 | LockType becomes Shared; no other field changes. |
| Changesets.LockUnlockRoundTrip | code/dataobjects/ContentChangeset.php:199-205 | Each of lock and unlock overrides the other, and each undoes the other on a changeset that already had its lock type. |
| Service.CreateChangeset | code/services/ChangesetService.php:21-32 | The new changeset has the given title and the resolved member as owner (0 without one). It is Active, Exclusive, stamped now, under a fresh positive ID, and appended to the table. |
| Service.CreateChangesetKeepsWf | code/services/ChangesetService.php:21-32 | Creating a changeset keeps the tables consistent. |
| Service.GetChangeset | code/services/ChangesetService.php:39-51 | Without a current member, an error. Otherwise a changeset with that ID that the member owns or, for an ADMIN, any; none (not an error) when there is no such changeset. |
| Service.GetChangesetVisibility | code/services/ChangesetService.php:39-51 | An ADMIN or the owner always gets the changeset by its unique ID. |
| Service.GetChangesetForUser | code/services/ChangesetService.php:60-77 | Error iff no member can be resolved. Otherwise the first Active changeset the member owns, in table order, or none iff there is no such changeset. |
| Service.InsertByCreated | code/services/ChangesetService.php:112 | Inserting into a Created-sorted list keeps it sorted and adds exactly that element. |
| Service.SortByCreated | code/services/ChangesetService.php:112 | The result is sorted by Created ascending and is a permutation of the input. |
| Service.GetAvailableChangesets | code/services/ChangesetService.php:90-114 | Error iff no member can be resolved. Otherwise every changeset with the requested status, owned by the member unless ADMIN, as often as stored, oldest first. |
| Service.AdminSeesOwnChangesets | code/services/ChangesetService.php:99-110 | For every status, an ADMIN's list contains what the same member would see without ADMIN. |
| Service.GetChangesetForContent | code/services/ChangesetService.php:121-134 | The first changeset in table order that holds the object's item and, when `$state` is truthy, has that status; none iff no holding changeset passes the filter. |
| Trackable.GetCurrentChangeset | code/extension/ChangesetTrackable.php:86-88 | The first Active changeset in table order holding the object, or none iff no Active changeset holds it. |
| Trackable.AnyChangeset | code/extension/ChangesetTrackable.php:95-97 | The first changeset of any status in table order holding the object, or none iff no changeset holds it. |
| Trackable.LockTypeOf | code/extension/ChangesetTrackable.php:76-79 | Null iff no Active changeset holds the object; otherwise the lock type of the current changeset, the first Active holder in table order. |
| Trackable.LockedBy | code/extension/ChangesetTrackable.php:50-61 | Null iff no Active changeset holds the object; otherwise the owner of the current changeset, the first Active holder in table order. |
| Trackable.CanBeLocked | code/extension/ChangesetTrackable.php:68-71 | True iff the object's lock type is not Exclusive. |
| Trackable.CanEdit | code/extension/ChangesetTrackable.php:189-208 | Permits iff the object can be locked. Refuses iff its changeset is Exclusive and owned by someone other than the resolved member. No verdict iff it is Exclusive and owned by that member. |
| Trackable.LockDecidesEdit | code/extension/ChangesetTrackable.php:189-208 | For a member who is not the owner, an Exclusive changeset refuses editing and a Shared one permits it; the owner is never refused. |
| Trackable.AddToChangeset | code/extension/ChangesetTrackable.php:137-168 | A no-op without an object ID, without a logged-in user, or when the object is already in an Active changeset. It never touches content and adds at most one changeset and one item. |
| Trackable.OnAfterWrite | code/extension/ChangesetTrackable.php:130-132 | A write runs `addToChangeset`, with its no-op cases; content is untouched. |
| Trackable.OnAfterDelete | code/extension/ChangesetTrackable.php:235-237 | A delete runs `addToChangeset` like a write. |
| Trackable.AddToChangesetReuses | code/extension/ChangesetTrackable.php:155-164 | A user with an Active changeset gets exactly the object's item appended to the first one; nothing else changes. |
| Trackable.AddToChangesetCreates | code/extension/ChangesetTrackable.php:158-164 | A user without one gets a new Active, Exclusive changeset with the given title, owned by the user, under a fresh ID, holding just this object. |
| Trackable.AddToChangesetEffect | code/extension/ChangesetTrackable.php:155-167 | Whenever it acts, the object's item is appended to the user's Active changeset, which is added to the table when new, and the tables stay consistent. |
| Trackable.AddToChangesetAppends | code/extension/ChangesetTrackable.php:155-164 | Whenever it acts, the item table grows by exactly the object's item in the target changeset. |
| Trackable.AddToChangesetKeepsWf | code/extension/ChangesetTrackable.php:137-168 | `addToChangeset` keeps the tables consistent in every case. |
| Trackable.AddToChangesetEnrols | code/extension/ChangesetTrackable.php:137-168 | After it acts, the object's current changeset is the one it was put in, and that is its only Active holder. |
| Trackable.AddToChangesetKeepsUserChangeset | code/tests/TestChangesets.php:108-114 | After it acts, the user's changeset is the one the object went into. |
| Trackable.AddToChangesetKeepsSingleHolder | code/extension/ChangesetTrackable.php:148-152 | `addToChangeset` never puts an object into a second Active changeset. |
| Trackable.SameUserSameChangeset | code/tests/TestChangesets.php:84-94 | Two fresh objects written by the same user end up with the same current changeset, which is the user's. |
| Trackable.SameUserTwoItems | code/tests/TestChangesets.php:95 | Those two writes add exactly two items, one per object, in that changeset. |
| Trackable.SubmitClosesUserChangeset | code/dataobjects/ContentChangeset.php:182-184 | Submitting a user's only Active changeset leaves the user with none, and the tables stay consistent. |
| Trackable.SubmitReleasesItsObjects | code/dataobjects/ContentChangeset.php:182-184 | Submitting the only Active changeset that holds an object leaves the object with no current changeset. |
| Trackable.SubmissionIsolatesNextWrite | code/extension/ChangesetTrackable.php:155-160 | After that submission, the user's next write of an object held by no other Active changeset opens a new Active changeset with a different ID and becomes the object's current changeset. |
| Trackable.OnAfterPublish | code/extension/ChangesetTrackable.php:218-229 | With the flag set, or without a current changeset, nothing changes. Otherwise exactly the object's item leaves its current changeset. |
| Trackable.OnAfterPublishReleases | code/extension/ChangesetTrackable.php:218-229 | After a publication outside a submission, the object is in no Active changeset, and both invariants still hold. |
| Trackable.DirectPublishRefused | code/extension/ChangesetTrackable.php:174-176 | On a freshly loaded object whose `canPublish()` verdict is the binding's, a direct publish is refused and changes nothing. |
| Trackable.DirectUnpublishBypassesGate | code/extension/PublishableObject.php:116-132 | On a freshly loaded object the binding refuses deletion from Live, so a page's unpublish fails. The extension's own unpublish ignores the binding: an ADMIN still removes the Live copy. |

## Left out

- Rendering and wiring are not part of this model: CMS controllers, admin
  screens, reports, templates, the service's dependency injection, and the
  `_config` / tests scaffolding beyond the scenarios above.
- Version numbering is left to the store. The model records only which
  version each stage holds. The `write()` inside `doPublish` is modelled only
  where it changes the stages: a draft missing from Stage is written back
  under `Store.NextVersion`, one above every version the record still holds.
  The host numbers from the full version history.
- `PublishableObject.DoPublish`: a draft that is on Stage keeps its version
  through the `write()`; the host may bump it, which changes no change type,
  since Live copies whatever Stage holds.
- `Store.CopyLiveToStage`: `doRestoreToStage` and `doRevertToLive`
  (code/dataobjects/ContentChangeset.php:135 and 152) are modelled as an exact
  copy of the Live version to Stage. The host writes the restored draft, which
  may give it a new Stage version, so that object would then read "Edited".
  `Changesets.RevertSettles` and `Changesets.RevertEdited` rely on the exact
  copy.
- The `Sort` column fix-up SQL in both `doPublish` revisions is not modelled.
  It has no effect on the change state.
- `Status` is one field per record, not per stage table.
- `onBeforePublish` / `onAfterPublish` hooks of the publishing extension are
  empty in the source. The trackable `onAfterPublish` is modelled as its own
  step (`Trackable.OnAfterPublish`) and is not replayed from inside
  `DoPublish`.
- Write hooks fired by the writes inside `submit` and `revert` are not
  replayed. For objects already in an Active changeset they are no-ops
  (`Trackable.AddToChangeset`).
- Hooks fired by a direct publish or unpublish are not replayed either.
  Such hooks are not no-ops:
  - The `write()` inside `doPublish` (code/extension/PublishableObject.php:96)
    fires `onAfterWrite`, so `addToChangeset` may open a new, empty Active
    changeset for the user before `onAfterPublish` removes the item again.
  - The Live `delete()` inside `doUnpublish` (line 127) fires
    `onAfterDelete`, which puts a directly unpublished object into the
    user's changeset.

  `Trackable.OnAfterWrite`, `Trackable.OnAfterDelete` and
  `Trackable.OnAfterPublish` model each hook on its own.
- The host's combination of several extensions' `canPublish` / `canEdit`
  answers is not modelled: each verdict is a parameter (`ownerCanEdit`) or
  comes from the gate.
- `Changesets.SubmitRecord` unpublishes through `canDeleteFromLive`, as a page's
  (SiteTree) `doUnpublish` does. The extension's own `doUnpublish` asks its
  own `canPublish` (ADMIN or `canEdit`) instead and ignores the gate. That
  path is modelled separately as `PublishableObject.DirectUnpublish`, and
  `Trackable.DirectUnpublishBypassesGate` states the difference.
- `lockedBy` caches its answer on the instance; the cache is not modelled
  (`Trackable.LockedBy` always recomputes).
- Concurrency, transactions and logging of caught exceptions are not
  modelled. A caught exception is modelled as keeping the tables as they
  stood.
- The default changeset title (member title plus `date()`) and the
  `PublishedDate` text are inputs (`title`, `Clock.formatted`).
- `Varchar(64)` / `Varchar(32)` truncation of titles and class names is not
  modelled.
- Database string comparison is modelled as exact. MySQL's case-insensitive
  default collation is not modelled for any string filter: the `Status`
  filters, and the `OtherClass` filters of `changesetItemFor`
  (code/dataobjects/ContentChangeset.php:84) and `getChangesetForContent`
  (code/services/ChangesetService.php:128).
- PHP default arguments are explicit parameters. `$name = ''` of
  `createChangeset` is the `name` argument. `$state = null` of
  `getChangesetForContent` is the empty string, which is falsy and so
  filters on no status. `$v = true` of `setPublishingViaChangeset` is the
  `v` argument. `$status = 'Active'` of `getAvailableChangesets` is the
  `status` argument. Every `$member = null` is `None`, which resolves to the
  current member.
- `ChangeState.IsNumericString` accepts only an optionally signed decimal
  integer. PHP `is_numeric` also accepts decimals, exponents and leading
  whitespace. Such IDs are not produced by the CMS.
- `Changesets.GetItems`: its own contract states which objects are listed,
  not their order. The order is stated by `Changesets.GetItemsAppend` and
  `Changesets.GetItemsOne`, which together fix the listing row by row.
- `Changesets.Revert`: `revert` takes a `SiteTree` (code/dataobjects/ContentChangeset.php:132),
  and its rollback calls `doRestoreToStage` / `doRevertToLive` are page
  methods; the class header (lines 4-5) says only pages support publishing.
  The model treats every tracked object as a page. For an item of another
  class, `revertAll` would stop with a fatal type error, an outcome that
  `Changesets.RevertEach` (only "Unpublished" stops the loop) does not cover.
- `Changesets.RevertAll`, `Changesets.RevertEach` use the corrected
  `Changesets.Revert` (see Findings). Under the code as written, each New
  object leaves its item row behind, so the emptying stated by
  `Changesets.RevertAllEmpties` holds for the listing but not for the item
  table.
- `Changesets.Lock`, `Changesets.Unlock`: the source does not write the
  changeset, so the change is returned but not stored in the table.
- `Changesets.Submit`: `submit` sets Status "Published" and PublishedDate
  together (code/dataobjects/ContentChangeset.php:182-184). The model does
  not carry "PublishedDate is set iff Published" as a table invariant,
  because `ContentChangeset` does not stop other code writing its Status.
- `Trackable.SameUserSameChangeset`, `Trackable.SubmissionIsolatesNextWrite`:
  stated for objects not yet in an Active changeset and, for the latter, for a
  user whose only Active changeset is the one submitted. These are the
  situations the source's scenarios describe, not every reachable state.

## Findings

| source | as written | input that shows it | evidently intended | confidence | as-written member | corrected member |
|---|---|---|---|---|---|---|
| code/dataobjects/ContentChangeset.php:146-156 | For a "New" object, `revert` calls `$object->delete()` and then `$this->remove($object)`. The host's `delete()` clears the in-memory ID, as the "so our ID won't be unset" clone at code/extension/PublishableObject.php:124-126 shows. `changesetItemFor` then filters on `OtherID = 0` and finds nothing, so the object's item row stays. | Page 5, on Stage only with Status "New", with one item row in changeset 7; revert it from changeset 7. | The object's item row is deleted, as for every other change type. | medium; not executed; rests on the host's `delete()` clearing the ID | Changesets.RevertAsWritten (Changesets.RevertNewLeavesItemRow, Changesets.RevertNewExample) | Changesets.Revert (Changesets.RevertClearsItsItem) |
