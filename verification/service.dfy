/**
 The changeset service (`ChangesetService`): creating changesets and the
 four lookups over the changeset and item tables. The current member is an
 explicit parameter; `first()` without a sort is the first row in table
 order.
 */
module Service {
  import opened Common
  import opened Store
  import opened Changesets

  /** A missing `$member` argument falls back to the current user. */
  function ResolveMember(member: Option<Member>, current: Option<Member>): Option<Member> {
    if member.Some? then member else current
  }

  /** `createChangeset($name, $member)`: a changeset with the `$db` defaults,
      the given title and the resolved member as owner, inserted into the
      table. Without any member the owner ID reads as 0. */
  function CreateChangeset(db: Db, name: string, member: Option<Member>, current: Option<Member>, now: int): (r: (Db, Changeset))
    ensures r.1.title == name
    ensures r.1.owner == MemberId(ResolveMember(member, current))
    ensures r.1.status == Active && r.1.lockType == Exclusive && r.1.publishedDate.None?
    ensures r.1.created == now
    ensures r.1.id > 0 && forall x :: x in db.changesets ==> x.id != r.1.id
    ensures r.0 == db.(changesets := db.changesets + [r.1])
  {
    var blank := NewChangeset().(title := name, owner := MemberId(ResolveMember(member, current)));
    var written := WriteChangeset(db.changesets, blank, now);
    (db.(changesets := written.0), written.1)
  }

  /** Creating a changeset keeps the tables consistent. */
  lemma CreateChangesetKeepsWf(db: Db, name: string, member: Option<Member>, current: Option<Member>, now: int)
    requires Wf(db)
    ensures Wf(CreateChangeset(db, name, member, current, now).0)
  {
    var after := CreateChangeset(db, name, member, current, now).0;
    forall i | 0 <= i < |after.items|
      ensures exists j :: 0 <= j < |after.changesets| && after.changesets[j].id == after.items[i].changeset
    {
      var j :| 0 <= j < |db.changesets| && db.changesets[j].id == db.items[i].changeset;
      assert after.changesets[j] == db.changesets[j];
    }
  }

  /** `getChangeset($id)`: an ADMIN gets the changeset with that ID; anyone
      else only one they own, and otherwise nothing (not an error). Without
      a current member the source calls a method on null. */
  function GetChangeset(db: Db, id: int, current: Option<Member>): (r: Result<Option<Changeset>>)
    ensures r.Err? <==> current.None?
    ensures r.Err? ==> r.error == NoMember
    ensures r.Ok? && r.value.Some? ==>
      r.value.value in db.changesets && r.value.value.id == id &&
      (current.value.isAdmin || r.value.value.owner == current.value.id)
    ensures r.Ok? && r.value.None? ==>
      forall x :: x in db.changesets && x.id == id ==> !current.value.isAdmin && x.owner != current.value.id
  {
    if current.None? then Err(NoMember)
    else
      var m := current.value;
      Ok(First(db.changesets, (x: Changeset) => x.id == id && (m.isAdmin || x.owner == m.id)))
  }

  /** An ADMIN sees every changeset by ID, as its owner does. */
  lemma GetChangesetVisibility(db: Db, c: Changeset, m: Member)
    requires c in db.changesets
    requires forall x :: x in db.changesets && x.id == c.id ==> x == c
    requires m.isAdmin || c.owner == m.id
    ensures GetChangeset(db, c.id, Some(m)) == Ok(Some(c))
  {
  }

  predicate ActiveFor(x: Changeset, memberId: int) {
    x.owner == memberId && x.status == Active
  }

  /** `getChangesetForUser($member)`: the first Active changeset the
      resolved member owns, in table order (no sort is applied); an error
      when no member can be resolved. */
  function GetChangesetForUser(db: Db, member: Option<Member>, current: Option<Member>): (r: Result<Option<Changeset>>)
    ensures r.Err? <==> ResolveMember(member, current).None?
    ensures r.Err? ==> r.error == NotLoggedIn
    ensures r.Ok? && r.value.Some? ==>
      var mid := MemberId(ResolveMember(member, current));
      exists i :: 0 <= i < |db.changesets| && db.changesets[i] == r.value.value &&
        ActiveFor(db.changesets[i], mid) &&
        forall j :: 0 <= j < i ==> !ActiveFor(db.changesets[j], mid)
    ensures r.Ok? && r.value.None? ==>
      forall x :: x in db.changesets ==> !ActiveFor(x, MemberId(ResolveMember(member, current)))
  {
    var m := ResolveMember(member, current);
    if m.None? then Err(NotLoggedIn)
    else
      var mid := m.value.id;
      match FirstIndex(db.changesets, (x: Changeset) => ActiveFor(x, mid))
      case None => Ok(None)
      case Some(i) => Ok(Some(db.changesets[i]))
  }

  predicate SortedByCreated(s: seq<Changeset>) {
    forall i, j :: 0 <= i < j < |s| ==> s[i].created <= s[j].created
  }

  /** Every changeset in `s` was created no earlier than `t`. */
  predicate CreatedFrom(t: int, s: seq<Changeset>) {
    forall i :: 0 <= i < |s| ==> t <= s[i].created
  }

  lemma ConsSorted(h: Changeset, rest: seq<Changeset>)
    requires SortedByCreated(rest) && CreatedFrom(h.created, rest)
    ensures SortedByCreated([h] + rest)
  {
    var r := [h] + rest;
    forall i, j | 0 <= i < j < |r| ensures r[i].created <= r[j].created {
      assert r[j] == rest[j - 1];
      if i > 0 {
        assert r[i] == rest[i - 1];
      }
    }
  }

  lemma CreatedFromPermutation(t: int, a: seq<Changeset>, b: seq<Changeset>)
    requires multiset(a) == multiset(b) && CreatedFrom(t, b)
    ensures CreatedFrom(t, a)
  {
    forall i | 0 <= i < |a| ensures t <= a[i].created {
      assert a[i] in multiset(b);
      var j :| 0 <= j < |b| && b[j] == a[i];
    }
  }

  function InsertByCreated(x: Changeset, s: seq<Changeset>): (r: seq<Changeset>)
    requires SortedByCreated(s)
    ensures SortedByCreated(r)
    ensures multiset(r) == multiset(s) + multiset{x}
  {
    if |s| == 0 then [x]
    else if x.created <= s[0].created then
      ConsSorted(x, s);
      [x] + s
    else
      var tail := s[1..];
      assert s == [s[0]] + tail;
      var rest := InsertByCreated(x, tail);
      assert CreatedFrom(s[0].created, tail + [x]) by {
        forall i | 0 <= i < |tail| + 1 ensures s[0].created <= (tail + [x])[i].created {
          if i < |tail| {
            assert (tail + [x])[i] == s[i + 1];
          }
        }
      }
      CreatedFromPermutation(s[0].created, rest, tail + [x]);
      ConsSorted(s[0], rest);
      [s[0]] + rest
  }

  /** `sort('Created ASC')` */
  function SortByCreated(s: seq<Changeset>): (r: seq<Changeset>)
    ensures SortedByCreated(r)
    ensures multiset(r) == multiset(s)
  {
    if |s| == 0 then []
    else
      assert s == [s[0]] + s[1..];
      InsertByCreated(s[0], SortByCreated(s[1..]))
  }

  /** A changeset `getAvailableChangesets` lists: the requested status,
      and owned by the member unless the member is an ADMIN. */
  predicate Visible(x: Changeset, status: string, m: Member) {
    StatusName(x.status) == status && (m.isAdmin || x.owner == m.id)
  }

  /** `getAvailableChangesets($member, $status = 'Active')`: every visible
      changeset exactly as often as it is stored, oldest first; an error
      when no member can be resolved. */
  function GetAvailableChangesets(db: Db, member: Option<Member>, current: Option<Member>, status: string): (r: Result<seq<Changeset>>)
    ensures r.Err? <==> ResolveMember(member, current).None?
    ensures r.Err? ==> r.error == NotLoggedIn
    ensures r.Ok? ==> SortedByCreated(r.value)
    ensures r.Ok? ==>
      var m := ResolveMember(member, current).value;
      forall x :: multiset(r.value)[x] == if Visible(x, status, m) then multiset(db.changesets)[x] else 0
  {
    var m := ResolveMember(member, current);
    if m.None? then Err(NotLoggedIn)
    else
      var who := m.value;
      Ok(SortByCreated(Filter(db.changesets, (x: Changeset) => Visible(x, status, who))))
  }

  /** An ADMIN's list contains the member's own list, for every status. */
  lemma AdminSeesOwnChangesets(db: Db, id: int, status: string)
    ensures var own := GetAvailableChangesets(db, Some(Member(id, false)), None, status).value;
      var all := GetAvailableChangesets(db, Some(Member(id, true)), None, status).value;
      multiset(own) <= multiset(all)
  {
  }

  /** A changeset `getChangesetForContent` accepts: it holds an item for the
      object and, when `$state` is truthy, has that status. */
  predicate ForContent(db: Db, obj: ObjKey, state: string, x: Changeset) {
    (!Truthy(state) || StatusName(x.status) == state) && ItemOf(obj, x) in db.items
  }

  /** `getChangesetForContent($object, $state)`: the first changeset, in
      table order, holding an item for the object; filtered by status only
      when `$state` is truthy. */
  function GetChangesetForContent(db: Db, obj: ObjKey, state: string): (r: Option<Changeset>)
    ensures r.Some? ==>
      r.value in db.changesets && ItemOf(obj, r.value) in db.items &&
      (Truthy(state) ==> StatusName(r.value.status) == state)
    ensures r.Some? ==>
      exists i :: 0 <= i < |db.changesets| && db.changesets[i] == r.value &&
        forall j :: 0 <= j < i ==> !ForContent(db, obj, state, db.changesets[j])
    ensures r.None? <==>
      forall x :: x in db.changesets && ItemOf(obj, x) in db.items ==> Truthy(state) && StatusName(x.status) != state
  {
    match FirstIndex(db.changesets, (x: Changeset) => ForContent(db, obj, state, x))
    case None => None
    case Some(i) => Some(db.changesets[i])
  }
}
