/**
 The publish gate the trackable binding adds to every tracked object: a
 per-instance flag, `publishingViaChangeset`, that only a changeset
 submission sets. While it is unset the object refuses to be published or
 deleted from Live, which forces every publication through a changeset.
 */
module Gate {

  datatype Binding = Binding(publishingViaChangeset: bool)

  /** A freshly loaded object: the flag starts false. */
  const Fresh: Binding := Binding(false)

  /** `setPublishingViaChangeset($v = true)` */
  function SetPublishingViaChangeset(b: Binding, v: bool): (r: Binding)
    ensures r.publishingViaChangeset == v
  {
    b.(publishingViaChangeset := v)
  }

  /** `canPublish` of the binding. */
  function CanPublish(b: Binding): bool {
    b.publishingViaChangeset
  }

  /** `canDeleteFromLive` of the binding. */
  function CanDeleteFromLive(b: Binding): bool {
    b.publishingViaChangeset
  }

  /** Both permissions are refused on a fresh object and are exactly the
      last value set on it. */
  lemma GateFollowsFlag(b: Binding, v: bool)
    ensures !CanPublish(Fresh) && !CanDeleteFromLive(Fresh)
    ensures CanPublish(SetPublishingViaChangeset(b, v)) == v
    ensures CanDeleteFromLive(SetPublishingViaChangeset(b, v)) == v
    ensures CanPublish(b) == CanDeleteFromLive(b)
  {
  }
}
