/**
 The publishing extension, in its current revision (`PublishableObject`): the
 default status on write, the publish permission and the publish / unpublish
 operations on one stored record.
 */
module PublishableObject {
  import opened Common
  import opened ChangeState
  import opened Store

  /** `onBeforeWrite`: an unset status becomes "New"; a set one is kept. */
  function OnBeforeWrite(status: string): (r: string)
    ensures Truthy(r)
    ensures Truthy(status) ==> r == status
    ensures !Truthy(status) ==> r == "New"
  {
    if !Truthy(status) then "New" else status
  }

  /** Writing twice sets the default no further. */
  lemma OnBeforeWriteIdempotent(status: string)
    ensures OnBeforeWrite(OnBeforeWrite(status)) == OnBeforeWrite(status)
  {
  }

  /** `canPublish($member)`: a missing member falls back to the current user;
      an ADMIN may always publish, anyone else as far as the object's
      `canEdit` (the host's verdict, given here) allows. */
  function CanPublish(member: Option<Member>, current: Option<Member>, ownerCanEdit: bool): (r: bool)
    ensures r <==> (member.Some? && member.value.isAdmin)
                   || (member.None? && current.Some? && current.value.isAdmin)
                   || ownerCanEdit
  {
    var m := if member.Some? then member else current;
    if m.Some? && m.value.isAdmin then true else ownerCanEdit
  }

  /** The record `write()` leaves before the publish: Status "Published",
      and a draft that was missing from Stage written back under a new
      version. */
  function WriteForPublish(r: Record): (w: Record)
    ensures w.status == "Published" && w.live == r.live && w.stage.Some?
    ensures r.stage.Some? ==> w.stage == r.stage
    ensures r.stage.None? && r.live.Some? ==> w.stage != r.live
  {
    var v := if r.stage.Some? then r.stage.value else NextVersion(r);
    r.(status := "Published", stage := Some(v))
  }

  /** `doPublish`, given the object's `canPublish` verdict: refused, nothing
      changes; otherwise the object is written with Status "Published" and
      its Stage row is copied to Live. The result is the returned flag and
      the record afterwards. */
  function DoPublish(r: Record, canPublish: bool): (p: (bool, Record))
    ensures p.0 == canPublish
    ensures !canPublish ==> p.1 == r
    ensures canPublish ==> p.1.status == "Published" && p.1.stage.Some? && p.1.live == p.1.stage
    ensures canPublish && r.stage.Some? ==> p.1 == Record(r.stage, r.stage, "Published")
    ensures canPublish && r.stage.None? && r.live.Some? ==> p.1.live != r.live
  {
    if !canPublish then (false, r)
    else
      var written := WriteForPublish(r);
      (true, written.(live := written.stage))
  }

  /** After a permitted publish of a written record, the object exists on
      both stages in the same version and has no pending change, whether
      or not it had a draft before. */
  lemma PublishSettles(k: ObjKey, r: Record)
    requires k.id != 0
    ensures var after := View(k, DoPublish(r, true).1);
      ExistsOnLive(after) && !IsModifiedOnStage(after) && GetChangeType(after) == None
  {
    var after := View(k, DoPublish(r, true).1);
    InSyncHasNoChange(after);
  }

  /** `doUnpublish`: refused without permission or without an ID; otherwise
      the Live copy is deleted and the draft is left alone. The reading
      stage it switches to Live and back is not state in this model. */
  function DoUnpublish(k: ObjKey, r: Record, canPublish: bool): (p: (bool, Record))
    ensures p.0 <==> canPublish && k.id != 0
    ensures !p.0 ==> p.1 == r
    ensures p.0 ==> p.1 == Record(r.stage, None, r.status)
  {
    if !canPublish then (false, r)
    else if k.id == 0 then (false, r)
    else (true, r.(live := None))
  }

  /** Unpublishing undoes a publish: a settled record goes back to being
      "added to Stage", and a record deleted from Stage becomes fully
      deleted. */
  lemma UnpublishReopens(k: ObjKey, r: Record)
    requires k.id != 0
    ensures var after := View(k, DoUnpublish(k, r, true).1);
      !ExistsOnLive(after) &&
      (r.stage.Some? ==> IsAddedToStage(after)) &&
      (r.stage.None? ==> GetChangeType(after) == Some(Deleted))
  {
  }

  /** Publish and unpublish are undone by each other on the Live side:
      unpublishing a just-published record keeps the published draft and
      its Status and only takes Live away; a draft that existed before is
      kept as it was. */
  lemma PublishThenUnpublish(k: ObjKey, r: Record)
    requires k.id != 0
    ensures var published := DoPublish(r, true).1;
      DoUnpublish(k, published, true).1 == Record(published.stage, None, "Published")
    ensures r.stage.Some? ==> DoUnpublish(k, DoPublish(r, true).1, true).1 == Record(r.stage, None, "Published")
  {
  }

  /** `doUnpublish` as the extension runs it: it asks its own `canPublish()`
      with no member, so the current user decides: an ADMIN always may,
      anyone else as far as `canEdit` allows. The changeset gate is not
      consulted. */
  function DirectUnpublish(k: ObjKey, r: Record, current: Option<Member>, ownerCanEdit: bool): (p: (bool, Record))
    ensures p.0 <==> k.id != 0 && ((current.Some? && current.value.isAdmin) || ownerCanEdit)
    ensures !p.0 ==> p.1 == r
    ensures p.0 ==> p.1 == Record(r.stage, None, r.status)
  {
    DoUnpublish(k, r, CanPublish(None, current, ownerCanEdit))
  }

  /** An ADMIN unpublishes any written object directly, whatever `canEdit`
      says; a member who is not an ADMIN and whom `canEdit` refuses changes
      nothing. */
  lemma DirectUnpublishPermission(k: ObjKey, r: Record, m: Member, ownerCanEdit: bool)
    ensures m.isAdmin && k.id != 0 ==> DirectUnpublish(k, r, Some(m), ownerCanEdit) == (true, r.(live := None))
    ensures !m.isAdmin ==> DirectUnpublish(k, r, Some(m), false) == (false, r)
    ensures DirectUnpublish(k, r, None, false) == (false, r)
  {
  }
}

/**
 The older revision of the publishing extension (`Publishable`). Its change
 predicates are the ones of module ChangeState; it differs in the write
 defaults (it also records an owner) and in its own publish verdict, which
 never refuses.
 */
module Publishable {
  import opened Common
  import opened ChangeState
  import opened Store
  import PublishableObject

  /** `onBeforeWrite`: Status defaults to "New" and OwnerID to the current
      user's ID, each only when unset. Result: (Status, OwnerID). */
  function OnBeforeWrite(status: string, ownerId: int, currentUserId: int): (r: (string, int))
    ensures r.0 == PublishableObject.OnBeforeWrite(status)
    ensures ownerId != 0 ==> r.1 == ownerId
    ensures ownerId == 0 ==> r.1 == currentUserId
  {
    (if !Truthy(status) then "New" else status,
     if ownerId == 0 then currentUserId else ownerId)
  }

  /** `canPublish` in this revision. */
  function CanPublish(): (r: bool)
    ensures r
  {
    true
  }

  /** `doPublish` in this revision, given the owner's `canPublish()`
      verdict (the host combines the verdicts of every extension): the
      same write-then-publish step as the current revision. */
  function DoPublish(r: Record, ownerCanPublish: bool): (p: (bool, Record))
    ensures !ownerCanPublish ==> p == (false, r)
    ensures ownerCanPublish ==> p.0 && p.1.status == "Published" && p.1.stage.Some? && p.1.live == p.1.stage
    ensures ownerCanPublish && r.stage.Some? ==> p.1.stage == r.stage
  {
    PublishableObject.DoPublish(r, ownerCanPublish)
  }

  /** When this extension's own verdict is the owner's, a publish never
      fails and leaves the object in step on both stages. */
  lemma OwnVerdictPublishes(k: ObjKey, r: Record)
    requires k.id != 0
    ensures DoPublish(r, CanPublish()).0
    ensures !IsModifiedOnStage(View(k, DoPublish(r, CanPublish()).1))
  {
    PublishableObject.PublishSettles(k, r);
  }
}
