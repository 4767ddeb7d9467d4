/**
 The Versioned content store, abstracted: each object, addressed by its class
 and integer ID, has an optional Stage version, an optional Live version and a
 `Status` field. Row copying and version numbering stay inside the store; the
 rollback primitives the changeset calls (`doRestoreToStage`,
 `doRevertToLive`, `delete`) are given their effect on the two versions.
 */
module Store {
  import opened Common
  import opened ChangeState

  /** How a changeset item names its content: `(OtherClass, OtherID)`. */
  datatype ObjKey = ObjKey(cls: string, id: int)

  datatype Record = Record(stage: Option<Version>, live: Option<Version>, status: string)

  type Store = map<ObjKey, Record>

  /** The two stages of `Versioned::reading_stage`. */
  datatype ReadingStage = OnStage | OnLive

  /** What the store reports for an object it has no row for. */
  const Absent: Record := Record(None, None, "")

  function Get(s: Store, k: ObjKey): Record {
    if k in s then s[k] else Absent
  }

  function Put(s: Store, k: ObjKey, r: Record): (s': Store)
    ensures Get(s', k) == r
    ensures forall k' :: k' != k ==> Get(s', k') == Get(s, k')
  {
    s[k := r]
  }

  /** The version number a write gives a record: above every version the
      record still has on either stage. */
  function NextVersion(r: Record): (v: Version)
    ensures r.stage.Some? ==> r.stage.value < v
    ensures r.live.Some? ==> r.live.value < v
  {
    var s := if r.stage.Some? then r.stage.value else 0;
    var l := if r.live.Some? then r.live.value else 0;
    1 + (if s < l then l else s)
  }

  /** The object as the change-state predicates see it. */
  function View(k: ObjKey, r: Record): Content {
    Content(IntId(k.id), r.stage, r.live, r.status)
  }

  function ChangeTypeOf(s: Store, k: ObjKey): Option<ChangeType> {
    GetChangeType(View(k, Get(s, k)))
  }

  /** `DataObject::get_by_id` succeeds in the given reading stage. */
  predicate ExistsIn(s: Store, k: ObjKey, area: ReadingStage) {
    match area
    case OnStage => Get(s, k).stage.Some?
    case OnLive => Get(s, k).live.Some?
  }

  /** `doRestoreToStage` and `doRevertToLive`: the draft becomes the Live copy. */
  function CopyLiveToStage(r: Record): Record {
    r.(stage := r.live)
  }

  /** `delete()` in the Stage reading stage: the draft row goes away. */
  function DeleteFromStage(r: Record): Record {
    r.(stage := None)
  }
}
