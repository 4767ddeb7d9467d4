/**
 The change-state predicates of a versioned content object and the change-type
 classifier built on them.

 An object is seen through its identifier, the version numbers the Versioned
 store reports for it on Stage and on Live (absent when no row exists), and its
 `Status` field. The predicates are the ones both publishing extensions define
 (`isNew`, `getIsDeletedFromStage`, `getExistsOnLive`, `getIsModifiedOnStage`,
 `getIsAddedToStage`); the classifier is the trackable binding's
 `getChangeType`.
 */
module ChangeState {
  import opened Common

  /** A record ID as PHP sees it: an integer, or a string such as
      "new-Page-3" that the CMS gives to records not yet written. */
  datatype Ident = IntId(n: int) | StrId(s: string)

  /** Versioned numbers the versions of a record from 1. */
  type Version = v: int | v >= 1 witness 1

  datatype Content = Content(id: Ident, stage: Option<Version>, live: Option<Version>, status: string)

  /** The five change types; "no change" is the absence of one. */
  datatype ChangeType = DraftDeleted | Deleted | Unpublished | New | Edited

  /** PHP `empty()` (equivalently `!`) on an identifier. */
  predicate IsEmptyId(id: Ident) {
    match id
    case IntId(n) => n == 0
    case StrId(s) => !Truthy(s)
  }

  predicate IsDigit(c: char) {
    '0' <= c <= '9'
  }

  predicate AllDigits(t: string) {
    |t| > 0 && forall i :: 0 <= i < |t| ==> IsDigit(t[i])
  }

  /** A decimal integer string with an optional sign. */
  predicate IsNumericString(s: string) {
    if |s| > 0 && (s[0] == '+' || s[0] == '-') then AllDigits(s[1..]) else AllDigits(s)
  }

  /** PHP `is_numeric` on an identifier. */
  predicate IsNumericId(id: Ident) {
    id.IntId? || IsNumericString(id.s)
  }

  function LowerAscii(c: char): char {
    if 'A' <= c <= 'Z' then (c as int + 32) as char else c
  }

  /** `stripos(s, 'new') === 0`: s starts with "new", ignoring ASCII case. */
  predicate StartsWithNew(s: string) {
    |s| >= 3 && LowerAscii(s[0]) == 'n' && LowerAscii(s[1]) == 'e' && LowerAscii(s[2]) == 'w'
  }

  /** `isNew`: the record has not been written yet. */
  predicate IsNew(id: Ident) {
    if IsEmptyId(id) then true
    else if IsNumericId(id) then false
    else StartsWithNew(id.s)
  }

  /** `getIsDeletedFromStage`: true for both fully deleted objects and objects
      deleted from Stage only. */
  predicate IsDeletedFromStage(c: Content) {
    if IsEmptyId(c.id) then true
    else if IsNew(c.id) then false
    else c.stage.None?
  }

  /** `getExistsOnLive` */
  predicate ExistsOnLive(c: Content) {
    c.live.Some?
  }

  /** `getIsModifiedOnStage` */
  predicate IsModifiedOnStage(c: Content) {
    if IsNew(c.id) then false else c.stage != c.live
  }

  /** `getIsAddedToStage` */
  predicate IsAddedToStage(c: Content) {
    if IsNew(c.id) then false else c.stage.Some? && c.live.None?
  }

  /** `getChangeType`: the first rule that applies, in priority order. */
  function GetChangeType(c: Content): Option<ChangeType> {
    if IsDeletedFromStage(c) && ExistsOnLive(c) then Some(DraftDeleted)
    else if IsDeletedFromStage(c) && !ExistsOnLive(c) then Some(Deleted)
    else if c.status == "Unpublished" then Some(Unpublished)
    else if IsAddedToStage(c) then Some(New)
    else if IsModifiedOnStage(c) then Some(Edited)
    else None
  }

  /** The change type of a written record stated directly on its two version
      numbers and its status, without the predicates: an independent reference
      for `GetChangeType` on integer IDs. */
  function StoredChangeType(stage: Option<Version>, live: Option<Version>, status: string): Option<ChangeType> {
    match (stage, live)
    case (None, Some(_)) => Some(DraftDeleted)
    case (None, None) => Some(Deleted)
    case (Some(s), _) =>
      if status == "Unpublished" then Some(Unpublished)
      else if live.None? then Some(New)
      else if live.value != s then Some(Edited)
      else None
  }

  /** A written record (a nonzero integer ID) is classified by its versions
      and status exactly as the reference table says. */
  lemma ChangeTypeOfWrittenRecord(c: Content)
    requires c.id.IntId? && c.id.n != 0
    ensures GetChangeType(c) == StoredChangeType(c.stage, c.live, c.status)
  {
  }

  /** A record without an ID counts as deleted from Stage, so it is
      classified by its Live version alone. */
  lemma ChangeTypeWithoutId(c: Content)
    requires IsEmptyId(c.id)
    ensures GetChangeType(c) == if c.live.Some? then Some(DraftDeleted) else Some(Deleted)
  {
  }

  /** A record that has an ID but is still new (a "new-..." string) is never
      deleted, added or modified: only its Status can classify it. */
  lemma ChangeTypeOfUnwrittenRecord(c: Content)
    requires !IsEmptyId(c.id) && IsNew(c.id)
    ensures !IsDeletedFromStage(c) && !IsAddedToStage(c) && !IsModifiedOnStage(c)
    ensures GetChangeType(c) == if c.status == "Unpublished" then Some(Unpublished) else None
  {
  }

  /** `isNew` on the identifiers the CMS produces: an integer ID is new iff it
      is 0; a numeric string never is; any other string is new iff it starts
      with "new" in any letter case. */
  lemma IsNewRule(id: Ident)
    ensures id.IntId? ==> (IsNew(id) <==> id.n == 0)
    ensures id.StrId? && IsNumericString(id.s) && id.s != "0" ==> !IsNew(id)
    ensures id.StrId? && id.s != "" && !IsNumericString(id.s) ==> (IsNew(id) <==> StartsWithNew(id.s))
    ensures IsNew(StrId("new-Page-1")) && IsNew(StrId("NEW")) && !IsNew(StrId("12")) && !IsNew(StrId("page"))
  {
    assert IsNumericString("0") by { assert IsDigit("0"[0]); }
    assert IsNumericString("12") by { assert IsDigit("12"[0]) && IsDigit("12"[1]); }
    LeadingLetterIsNotNumeric("new-Page-1");
    LeadingLetterIsNotNumeric("NEW");
    LeadingLetterIsNotNumeric("page");
  }

  lemma LeadingLetterIsNotNumeric(s: string)
    requires |s| > 0 && ('a' <= s[0] <= 'z' || 'A' <= s[0] <= 'Z')
    ensures !IsNumericString(s)
  {
    assert !IsDigit(s[0]);
  }

  /** The Unpublished classification only arises for records still on Stage
      (or not yet written): the deletion rules take priority over Status. */
  lemma UnpublishedIsOnStage(c: Content)
    requires GetChangeType(c) == Some(Unpublished)
    ensures c.status == "Unpublished"
    ensures !IsEmptyId(c.id)
    ensures !IsNew(c.id) ==> c.stage.Some?
  {
  }

  /** A record that is in sync (same version on both stages) with a status
      other than "Unpublished" has no pending change. */
  lemma InSyncHasNoChange(c: Content)
    requires c.id.IntId? && c.id.n != 0
    requires c.stage.Some? && c.stage == c.live && c.status != "Unpublished"
    ensures GetChangeType(c) == None
    ensures ExistsOnLive(c) && !IsModifiedOnStage(c)
  {
  }
}
