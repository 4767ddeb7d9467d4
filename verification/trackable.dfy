/**
 The trackable binding (`ChangesetTrackable`): what every versioned object
 gains from the changeset system. It enrols the object in its editor's
 changeset on every write and delete, answers lock and edit questions from
 the object's current changeset, and cleans that changeset up when the
 object is published by some other route.

 The current member and the clock are explicit parameters; the generated
 default title of a new changeset is given as `title`.
 */
module Trackable {
  import opened Common
  import opened Store
  import opened Changesets
  import Service
  import Gate
  import PublishableObject

  /** The object is held by `x` and `x` is Active. */
  predicate Holds(db: Db, x: Changeset, obj: ObjKey) {
    x in db.changesets && x.status == Active && ItemOf(obj, x) in db.items
  }

  /** `getCurrentChangeset`: the first Active changeset holding the object. */
  function GetCurrentChangeset(db: Db, obj: ObjKey): (r: Option<Changeset>)
    ensures r.Some? ==> Holds(db, r.value, obj)
    ensures r.Some? ==>
      exists i :: 0 <= i < |db.changesets| && db.changesets[i] == r.value &&
        forall j :: 0 <= j < i ==> !Holds(db, db.changesets[j], obj)
    ensures r.None? <==> forall x :: !Holds(db, x, obj)
  {
    ActiveContentIsHeld(db, obj);
    Service.GetChangesetForContent(db, obj, "Active")
  }

  lemma ActiveContentIsHeld(db: Db, obj: ObjKey)
    ensures var r := Service.GetChangesetForContent(db, obj, "Active");
      (r.Some? ==> Holds(db, r.value, obj)) && (r.None? <==> forall x :: !Holds(db, x, obj))
    ensures forall x :: x in db.changesets ==> (Holds(db, x, obj) <==> Service.ForContent(db, obj, "Active", x))
  {
    StatusNameIsFaithful();
    var r := Service.GetChangesetForContent(db, obj, "Active");
    if r.None? {
      forall x ensures !Holds(db, x, obj) {
        if x in db.changesets && ItemOf(obj, x) in db.items {
          assert StatusName(x.status) != "Active";
        }
      }
    } else {
      assert StatusName(r.value.status) == "Active";
      assert Holds(db, r.value, obj);
    }
  }

  /** `Changesets()`: the first changeset of any status holding the object. */
  function AnyChangeset(db: Db, obj: ObjKey): (r: Option<Changeset>)
    ensures r.Some? ==> r.value in db.changesets && ItemOf(obj, r.value) in db.items
    ensures r.Some? ==>
      exists i :: 0 <= i < |db.changesets| && db.changesets[i] == r.value &&
        forall j :: 0 <= j < i ==> ItemOf(obj, db.changesets[j]) !in db.items
    ensures r.None? <==> forall x :: x in db.changesets ==> ItemOf(obj, x) !in db.items
  {
    Service.GetChangesetForContent(db, obj, "")
  }

  /** `lockType()`: the lock of the current changeset, if there is one. */
  function LockTypeOf(db: Db, obj: ObjKey): (r: Option<LockType>)
    ensures r.None? <==> forall x :: !Holds(db, x, obj)
    ensures r.Some? ==> exists x :: Holds(db, x, obj) && x.lockType == r.value
    ensures r.Some? ==> GetCurrentChangeset(db, obj).Some? && r.value == GetCurrentChangeset(db, obj).value.lockType
  {
    match GetCurrentChangeset(db, obj)
    case None => None
    case Some(c) => Some(c.lockType)
  }

  /** `lockedBy()`: the owner of the current changeset, if there is one. */
  function LockedBy(db: Db, obj: ObjKey): (r: Option<int>)
    ensures r.None? <==> forall x :: !Holds(db, x, obj)
    ensures r.Some? ==> exists x :: Holds(db, x, obj) && x.owner == r.value
    ensures r.Some? ==> GetCurrentChangeset(db, obj).Some? && r.value == GetCurrentChangeset(db, obj).value.owner
  {
    match GetCurrentChangeset(db, obj)
    case None => None
    case Some(c) => Some(c.owner)
  }

  /** `canBeLocked()`: only an exclusive current changeset refuses. */
  function CanBeLocked(db: Db, obj: ObjKey): (r: bool)
    ensures r <==> LockTypeOf(db, obj) != Some(Exclusive)
  {
    match GetCurrentChangeset(db, obj)
    case None => true
    case Some(c) => c.lockType == Shared
  }

  /** The three answers of `canEdit`: permit (1), refuse (0), and no answer
      (null), which leaves the decision to the object's other checks. */
  datatype EditVerdict = Allow | Deny | Abstain

  /** `canEdit($member)`: an object outside any Active changeset, or in a
      Shared one, may be edited; in an Exclusive one only its owner gets no
      refusal. Without any member the ID compared reads as 0. */
  function CanEdit(db: Db, obj: ObjKey, member: Option<Member>, current: Option<Member>): (r: EditVerdict)
    ensures r == Allow <==> CanBeLocked(db, obj)
    ensures r == Deny <==>
      LockTypeOf(db, obj) == Some(Exclusive) &&
      LockedBy(db, obj) != Some(MemberId(Service.ResolveMember(member, current)))
    ensures r == Abstain <==>
      LockTypeOf(db, obj) == Some(Exclusive) &&
      LockedBy(db, obj) == Some(MemberId(Service.ResolveMember(member, current)))
  {
    var who := MemberId(Service.ResolveMember(member, current));
    match GetCurrentChangeset(db, obj)
    case None => Allow
    case Some(c) =>
      if c.lockType == Shared then Allow
      else if c.owner != who then Deny
      else Abstain
  }

  /** A tracked object in someone else's changeset can be edited by another
      member exactly when that changeset is Shared; its owner is never
      refused. */
  lemma LockDecidesEdit(db: Db, obj: ObjKey, c: Changeset, m: Member)
    requires GetCurrentChangeset(db, obj) == Some(c)
    ensures m.id != c.owner ==> (CanEdit(db, obj, Some(m), None) == Allow <==> c.lockType == Shared)
    ensures m.id != c.owner ==> (CanEdit(db, obj, Some(m), None) == Deny <==> c.lockType == Exclusive)
    ensures m.id == c.owner ==> CanEdit(db, obj, Some(m), None) != Deny
  {
  }

  /** `addToChangeset`: a no-op for an object without an ID, without a
      logged-in user, or already in an Active changeset. Otherwise the
      object goes into the user's first Active changeset, created with the
      given title when there is none. Exceptions are caught and logged, so
      whatever was written before one stays. */
  function AddToChangeset(db: Db, obj: ObjKey, current: Option<Member>, title: string, now: int): (r: Db)
    ensures obj.id == 0 || MemberId(current) == 0 ==> r == db
    ensures GetCurrentChangeset(db, obj).Some? ==> r == db
    ensures r.store == db.store
    ensures |r.changesets| <= |db.changesets| + 1
    ensures db.changesets <= r.changesets
    ensures db.items <= r.items && |r.items| <= |db.items| + 1
  {
    if obj.id == 0 || MemberId(current) == 0 then db
    else if GetCurrentChangeset(db, obj).Some? then db
    else
      match Service.GetChangesetForUser(db, None, current)
      case Err(_) => db
      case Ok(found) =>
        var pick := if found.Some? then (db, found.value)
                    else Service.CreateChangeset(db, title, None, current, now);
        match AddItem(pick.0, pick.1, obj)
        case Ok(added) => added
        case Err(_) => pick.0
  }

  /** `onAfterWrite` */
  function OnAfterWrite(db: Db, obj: ObjKey, current: Option<Member>, title: string, now: int): (r: Db)
    ensures r == AddToChangeset(db, obj, current, title, now)
    ensures obj.id == 0 || MemberId(current) == 0 || GetCurrentChangeset(db, obj).Some? ==> r == db
    ensures r.store == db.store && db.items <= r.items
  {
    AddToChangeset(db, obj, current, title, now)
  }

  /** `onAfterDelete`: a deletion is tracked like a write, so that it can be
      pushed to Live later. */
  function OnAfterDelete(db: Db, obj: ObjKey, current: Option<Member>, title: string, now: int): (r: Db)
    ensures r == AddToChangeset(db, obj, current, title, now)
    ensures obj.id == 0 || MemberId(current) == 0 || GetCurrentChangeset(db, obj).Some? ==> r == db
    ensures r.store == db.store && db.items <= r.items
  {
    AddToChangeset(db, obj, current, title, now)
  }

  /** The guards under which `addToChangeset` acts. */
  predicate Enrolls(db: Db, obj: ObjKey, current: Option<Member>) {
    obj.id != 0 && MemberId(current) != 0 && GetCurrentChangeset(db, obj).None?
  }

  lemma NotHeldByActive(db: Db, obj: ObjKey, c: Changeset)
    requires GetCurrentChangeset(db, obj).None?
    requires c in db.changesets && c.status == Active
    ensures ItemOf(obj, c) !in db.items
  {
    assert !Holds(db, c, obj);
  }

  /** Appending an item for an existing changeset that does not hold the
      object yet keeps the tables consistent. */
  lemma AppendItemKeepsWf(db: Db, c: Changeset, obj: ObjKey)
    requires Wf(db) && c in db.changesets && ItemOf(obj, c) !in db.items
    ensures Wf(db.(items := db.items + [ItemOf(obj, c)]))
  {
    var r := db.(items := db.items + [ItemOf(obj, c)]);
    var i :| 0 <= i < |db.changesets| && db.changesets[i] == c;
    forall k | 0 <= k < |r.items|
      ensures exists j :: 0 <= j < |r.changesets| && r.changesets[j].id == r.items[k].changeset
    {
      if k == |db.items| {
        assert r.changesets[i].id == r.items[k].changeset;
      } else {
        assert r.items[k] == db.items[k];
      }
    }
  }

  /** A user who already has an Active changeset gets the object appended to
      its first one; nothing else changes. */
  lemma AddToChangesetReuses(db: Db, obj: ObjKey, current: Option<Member>, title: string, now: int, c: Changeset)
    requires Wf(db) && Enrolls(db, obj, current)
    requires Service.GetChangesetForUser(db, None, current) == Ok(Some(c))
    ensures AddToChangeset(db, obj, current, title, now) == db.(items := db.items + [ItemOf(obj, c)])
    ensures c in db.changesets && c.status == Active && c.owner == MemberId(current)
    ensures Wf(AddToChangeset(db, obj, current, title, now))
  {
    var mid := MemberId(current);
    var i :| 0 <= i < |db.changesets| && db.changesets[i] == c && Service.ActiveFor(db.changesets[i], mid);
    NotHeldByActive(db, obj, c);
    AppendItemKeepsWf(db, c, obj);
  }

  /** A user without an Active changeset gets a new one: an Active,
      Exclusive changeset titled `title`, owned by the user, stamped `now`,
      under an ID no other changeset has, holding just this object. */
  lemma AddToChangesetCreates(db: Db, obj: ObjKey, current: Option<Member>, title: string, now: int)
    requires Wf(db) && Enrolls(db, obj, current)
    requires Service.GetChangesetForUser(db, None, current) == Ok(None)
    ensures var c := Service.CreateChangeset(db, title, None, current, now).1;
      && AddToChangeset(db, obj, current, title, now) ==
           Db(db.store, db.changesets + [c], db.items + [ItemOf(obj, c)])
      && c.status == Active && c.lockType == Exclusive
      && c.title == title && c.owner == MemberId(current) && c.created == now
      && c.id > 0 && (forall x :: x in db.changesets ==> x.id != c.id)
      && Wf(AddToChangeset(db, obj, current, title, now))
  {
    var created := Service.CreateChangeset(db, title, None, current, now);
    var c := created.1;
    assert ItemOf(obj, c) !in db.items by {
      forall i | 0 <= i < |db.items| ensures db.items[i] != ItemOf(obj, c) {
        var j :| 0 <= j < |db.changesets| && db.changesets[j].id == db.items[i].changeset;
        assert db.changesets[j] in db.changesets;
      }
    }
    Service.CreateChangesetKeepsWf(db, title, None, current, now);
    assert c in created.0.changesets by {
      assert created.0.changesets[|db.changesets|] == c;
    }
    AppendItemKeepsWf(created.0, c, obj);
  }

  /** The changeset `addToChangeset` puts the object in, when it acts. */
  function Target(db: Db, current: Option<Member>, title: string, now: int): Changeset
  {
    match Service.GetChangesetForUser(db, None, current)
    case Ok(Some(c)) => c
    case _ => Service.CreateChangeset(db, title, None, current, now).1
  }

  /** Every case of `addToChangeset` that acts, in one statement: the object
      is appended to the user's changeset, which is added to the table when
      new, and the tables stay consistent. */
  lemma AddToChangesetEffect(db: Db, obj: ObjKey, current: Option<Member>, title: string, now: int)
    requires Wf(db) && Enrolls(db, obj, current)
    ensures var c := Target(db, current, title, now);
      var r := AddToChangeset(db, obj, current, title, now);
      && c.status == Active && c.owner == MemberId(current)
      && r.store == db.store
      && r.items == db.items + [ItemOf(obj, c)]
      && AppendedTo(db, r, c, obj)
      && ItemOf(obj, c) !in db.items
      && Wf(r)
  {
    var u := Service.GetChangesetForUser(db, None, current);
    assert u.Ok?;
    if u.value.Some? {
      AddToChangesetReuses(db, obj, current, title, now, u.value.value);
      NotHeldByActive(db, obj, u.value.value);
    } else {
      AddToChangesetCreates(db, obj, current, title, now);
    }
  }

  /** `addToChangeset` keeps the tables consistent in every case. */
  lemma AddToChangesetKeepsWf(db: Db, obj: ObjKey, current: Option<Member>, title: string, now: int)
    requires Wf(db)
    ensures Wf(AddToChangeset(db, obj, current, title, now))
  {
    if Enrolls(db, obj, current) {
      AddToChangesetEffect(db, obj, current, title, now);
    }
  }

  /** With consistent tables, two changesets holding the same item are the
      same changeset. */
  lemma SameIdSameChangeset(db: Db, x: Changeset, y: Changeset)
    requires Wf(db) && x in db.changesets && y in db.changesets && x.id == y.id
    ensures x == y
  {
    var i :| 0 <= i < |db.changesets| && db.changesets[i] == x;
    var j :| 0 <= j < |db.changesets| && db.changesets[j] == y;
    assert i == j;
  }

  /** An object with exactly one Active holder has that as its current
      changeset. */
  lemma OnlyHolderIsCurrent(db: Db, obj: ObjKey, c: Changeset)
    requires Holds(db, c, obj)
    requires forall x :: Holds(db, x, obj) ==> x == c
    ensures GetCurrentChangeset(db, obj) == Some(c)
  {
  }

  /** The user's first Active changeset, when `c` is Active, owned by the
      user, at position `i`, and no earlier changeset is. */
  lemma FirstOwnedIs(db: Db, current: Option<Member>, c: Changeset, i: nat)
    requires current.Some?
    requires i < |db.changesets| && db.changesets[i] == c && Service.ActiveFor(c, MemberId(current))
    requires forall j :: 0 <= j < i ==> !Service.ActiveFor(db.changesets[j], MemberId(current))
    ensures Service.GetChangesetForUser(db, None, current) == Ok(Some(c))
  {
    var mid := MemberId(current);
    var u := Service.GetChangesetForUser(db, None, current);
    if u.value.Some? {
      var i' :| 0 <= i' < |db.changesets| && db.changesets[i'] == u.value.value &&
        Service.ActiveFor(db.changesets[i'], mid) &&
        forall j :: 0 <= j < i' ==> !Service.ActiveFor(db.changesets[j], mid);
      assert i' == i;
    }
  }

  /** The item table grew by one item for `c`, and the changeset table by
      `c` at most: the shape of every acting `addToChangeset`. */
  predicate AppendedTo(db: Db, r: Db, c: Changeset, obj: ObjKey) {
    && r.items == db.items + [ItemOf(obj, c)]
    && ((r.changesets == db.changesets && c in db.changesets) ||
        (r.changesets == db.changesets + [c] && forall x :: x in db.changesets ==> x.id != c.id))
  }

  lemma AppendedHolderIsCurrent(db: Db, r: Db, c: Changeset, obj: ObjKey)
    requires Wf(r) && AppendedTo(db, r, c, obj) && c.status == Active
    requires forall x :: !Holds(db, x, obj)
    ensures GetCurrentChangeset(r, obj) == Some(c)
    ensures forall x :: Holds(r, x, obj) ==> x == c
  {
    assert c in r.changesets by {
      if r.changesets != db.changesets {
        assert r.changesets[|db.changesets|] == c;
      }
    }
    assert Holds(r, c, obj) by {
      assert r.items[|db.items|] == ItemOf(obj, c);
    }
    forall x | Holds(r, x, obj) ensures x == c {
      assert !Holds(db, x, obj);
      assert ItemOf(obj, x) == ItemOf(obj, c);
      SameIdSameChangeset(r, x, c);
    }
    OnlyHolderIsCurrent(r, obj, c);
  }

  /** After `addToChangeset` acts, the object's current changeset is the
      one it was put in. */
  lemma AddToChangesetEnrols(db: Db, obj: ObjKey, current: Option<Member>, title: string, now: int)
    requires Wf(db) && Enrolls(db, obj, current)
    ensures GetCurrentChangeset(AddToChangeset(db, obj, current, title, now), obj) ==
            Some(Target(db, current, title, now))
    ensures forall x :: Holds(AddToChangeset(db, obj, current, title, now), x, obj) ==>
            x == Target(db, current, title, now)
  {
    var c := Target(db, current, title, now);
    var r := AddToChangeset(db, obj, current, title, now);
    AddToChangesetEffect(db, obj, current, title, now);
    AppendedHolderIsCurrent(db, r, c, obj);
  }

  lemma AppendedKeepsFirstOwned(db: Db, r: Db, c: Changeset, obj: ObjKey, current: Option<Member>)
    requires current.Some? && AppendedTo(db, r, c, obj) && Service.ActiveFor(c, MemberId(current))
    requires r.changesets == db.changesets ==> Service.GetChangesetForUser(db, None, current) == Ok(Some(c))
    requires r.changesets != db.changesets ==> Service.GetChangesetForUser(db, None, current) == Ok(None)
    ensures Service.GetChangesetForUser(r, None, current) == Ok(Some(c))
  {
    var mid := MemberId(current);
    if r.changesets == db.changesets {
    } else {
      var n := |db.changesets|;
      assert r.changesets[n] == c;
      forall j | 0 <= j < n ensures !Service.ActiveFor(r.changesets[j], mid) {
        assert r.changesets[j] == db.changesets[j];
        assert r.changesets[j] in db.changesets;
      }
      FirstOwnedIs(r, current, c, n);
    }
  }

  /** After `addToChangeset` acts, the changeset it used is the user's
      changeset, so the user's next write goes to the same place. */
  lemma AddToChangesetKeepsUserChangeset(db: Db, obj: ObjKey, current: Option<Member>, title: string, now: int)
    requires Wf(db) && Enrolls(db, obj, current)
    ensures Service.GetChangesetForUser(AddToChangeset(db, obj, current, title, now), None, current) ==
            Ok(Some(Target(db, current, title, now)))
  {
    var c := Target(db, current, title, now);
    var r := AddToChangeset(db, obj, current, title, now);
    AddToChangesetEffect(db, obj, current, title, now);
    var u := Service.GetChangesetForUser(db, None, current);
    assert u.Ok?;
    if u.value.Some? {
      AddToChangesetReuses(db, obj, current, title, now, u.value.value);
    } else {
      AddToChangesetCreates(db, obj, current, title, now);
    }
    AppendedKeepsFirstOwned(db, r, c, obj, current);
  }

  /** No object is in two Active changesets: the state `addToChangeset`
      is built to keep. */
  ghost predicate SingleActiveHolder(db: Db) {
    forall obj, x, y :: Holds(db, x, obj) && Holds(db, y, obj) ==> x == y
  }

  /** A changeset whose ID no existing changeset has holds no item. */
  lemma FreshIdHoldsNothing(db: Db, c: Changeset, obj: ObjKey)
    requires Wf(db) && forall x :: x in db.changesets ==> x.id != c.id
    ensures ItemOf(obj, c) !in db.items
  {
    forall i | 0 <= i < |db.items| ensures db.items[i] != ItemOf(obj, c) {
      var j :| 0 <= j < |db.changesets| && db.changesets[j].id == db.items[i].changeset;
      assert db.changesets[j] in db.changesets;
    }
  }

  /** Appending an item for `obj` gives no other object a new Active
      holder. */
  lemma AppendedHoldersOfOthers(db: Db, r: Db, c: Changeset, obj: ObjKey)
    requires Wf(db) && AppendedTo(db, r, c, obj)
    ensures forall o, x :: o != obj && Holds(r, x, o) ==> Holds(db, x, o)
  {
    forall o, x | o != obj && Holds(r, x, o) ensures Holds(db, x, o) {
      assert ItemOf(o, x) != ItemOf(obj, c);
      assert ItemOf(o, x) in db.items;
      if x !in db.changesets {
        FreshIdHoldsNothing(db, c, o);
      }
    }
  }

  lemma AppendedKeepsSingle(db: Db, r: Db, c: Changeset, obj: ObjKey)
    requires Wf(db) && Wf(r) && AppendedTo(db, r, c, obj) && c.status == Active
    requires forall x :: !Holds(db, x, obj)
    requires SingleActiveHolder(db)
    ensures SingleActiveHolder(r)
  {
    AppendedHolderIsCurrent(db, r, c, obj);
    AppendedHoldersOfOthers(db, r, c, obj);
  }

  /** `addToChangeset` never puts an object into a second Active
      changeset. */
  lemma AddToChangesetKeepsSingleHolder(db: Db, obj: ObjKey, current: Option<Member>, title: string, now: int)
    requires Wf(db) && SingleActiveHolder(db)
    ensures SingleActiveHolder(AddToChangeset(db, obj, current, title, now))
  {
    if Enrolls(db, obj, current) {
      AddToChangesetEffect(db, obj, current, title, now);
      AppendedKeepsSingle(db, AddToChangeset(db, obj, current, title, now), Target(db, current, title, now), obj);
    }
  }

  /** Appending an item for another object leaves this object's Active
      holders as they were. */
  lemma AppendedOtherKeepsHolders(db: Db, r: Db, c: Changeset, obj: ObjKey, o: ObjKey)
    requires AppendedTo(db, r, c, obj) && r.changesets == db.changesets && o != obj
    ensures forall x :: Holds(r, x, o) <==> Holds(db, x, o)
  {
    forall x ensures Holds(r, x, o) <==> Holds(db, x, o) {
      assert ItemOf(o, x) != ItemOf(obj, c);
    }
  }

  lemma AppendedLeavesOthersOut(db: Db, r: Db, c: Changeset, obj: ObjKey, o: ObjKey)
    requires Wf(db) && AppendedTo(db, r, c, obj) && o != obj
    requires forall x :: !Holds(db, x, o)
    ensures forall x :: !Holds(r, x, o)
  {
    forall x ensures !Holds(r, x, o) {
      assert ItemOf(o, x) != ItemOf(obj, c);
      if x in db.changesets {
        assert !Holds(db, x, o);
      } else if x in r.changesets {
        assert x == c;
        FreshIdHoldsNothing(db, c, o);
      }
    }
  }

  /** What the first of two writes leaves for the second: the second object
      still enrols, into the same changeset. */
  lemma FirstWritePrepares(db: Db, a: ObjKey, b: ObjKey, current: Option<Member>, title: string, t1: int, t2: int)
    requires Wf(db)
    requires Enrolls(db, a, current) && Enrolls(db, b, current) && a != b
    ensures var c := Target(db, current, title, t1);
      var db1 := AddToChangeset(db, a, current, title, t1);
      && Wf(db1) && Enrolls(db1, b, current) && c in db1.changesets
      && Target(db1, current, title, t2) == c
      && Service.GetChangesetForUser(db1, None, current) == Ok(Some(c))
      && (forall x :: Holds(db1, x, a) <==> x == c)
      && db1.items == db.items + [ItemOf(a, c)]
      && c.owner == MemberId(current)
  {
    var c := Target(db, current, title, t1);
    var db1 := AddToChangeset(db, a, current, title, t1);
    AddToChangesetEffect(db, a, current, title, t1);
    AddToChangesetEnrols(db, a, current, title, t1);
    AddToChangesetKeepsUserChangeset(db, a, current, title, t1);
    AppendedLeavesOthersOut(db, db1, c, a, b);
  }

  /** Two objects a user writes one after the other, neither of them in an
      Active changeset before, end up in the same changeset: the user's
      one, which becomes the current changeset of both and holds both. */
  lemma SameUserSameChangeset(db: Db, a: ObjKey, b: ObjKey, current: Option<Member>, title: string, t1: int, t2: int)
    requires Wf(db)
    requires Enrolls(db, a, current) && Enrolls(db, b, current) && a != b
    ensures var c := Target(db, current, title, t1);
      var db1 := OnAfterWrite(db, a, current, title, t1);
      var db2 := OnAfterWrite(db1, b, current, title, t2);
      && GetCurrentChangeset(db2, a) == Some(c)
      && GetCurrentChangeset(db2, b) == Some(c)
      && c.owner == MemberId(current)
      && Service.GetChangesetForUser(db2, None, current) == Ok(Some(c))
  {
    var c := Target(db, current, title, t1);
    var db1 := AddToChangeset(db, a, current, title, t1);
    FirstWritePrepares(db, a, b, current, title, t1, t2);
    var db2 := AddToChangeset(db1, b, current, title, t2);
    AddToChangesetEffect(db1, b, current, title, t2);
    AddToChangesetEnrols(db1, b, current, title, t2);
    AddToChangesetKeepsUserChangeset(db1, b, current, title, t2);
    assert db2.changesets == db1.changesets;
    AppendedOtherKeepsHolders(db1, db2, c, b, a);
    OnlyHolderIsCurrent(db2, a, c);
  }

  /** When `addToChangeset` acts, the item table grows by exactly the
      object's item in the target changeset. */
  lemma AddToChangesetAppends(db: Db, obj: ObjKey, current: Option<Member>, title: string, now: int)
    requires Wf(db) && Enrolls(db, obj, current)
    ensures AddToChangeset(db, obj, current, title, now).items == db.items + [ItemOf(obj, Target(db, current, title, now))]
  {
    AddToChangesetEffect(db, obj, current, title, now);
  }

  /** The two writes add exactly two items, one per object, both in the
      user's changeset. */
  lemma SameUserTwoItems(db: Db, a: ObjKey, b: ObjKey, current: Option<Member>, title: string, t1: int, t2: int)
    requires Wf(db)
    requires Enrolls(db, a, current) && Enrolls(db, b, current) && a != b
    ensures var c := Target(db, current, title, t1);
      var db2 := OnAfterWrite(OnAfterWrite(db, a, current, title, t1), b, current, title, t2);
      db2.items == db.items + [ItemOf(a, c), ItemOf(b, c)]
  {
    var c := Target(db, current, title, t1);
    var db1 := AddToChangeset(db, a, current, title, t1);
    var db2 := AddToChangeset(db1, b, current, title, t2);
    FirstWritePrepares(db, a, b, current, title, t1, t2);
    AddToChangesetAppends(db1, b, current, title, t2);
    Twice(db.items, db1.items, db2.items, ItemOf(a, c), ItemOf(b, c));
  }

  /** Proof helper, not part of the model: two appends are one append of
      both. Stated on bare sequences so that the proof above does not
      reason about concatenation in the context of the whole table. */
  lemma Twice<T>(s: seq<T>, s1: seq<T>, s2: seq<T>, x: T, y: T)
    requires s1 == s + [x] && s2 == s1 + [y]
    ensures s2 == s + [x, y]
  {
  }

  /** Submitting the user's only Active changeset leaves the user with none:
      the row is replaced by its Published version. */
  lemma SubmitClosesUserChangeset(db: Db, c: Changeset, now: Clock, current: Option<Member>)
    requires Wf(db) && c in db.changesets && current.Some?
    requires forall x :: x in db.changesets && Service.ActiveFor(x, MemberId(current)) ==> x == c
    ensures Service.GetChangesetForUser(Submit(db, c, now).0, None, current) == Ok(None)
    ensures Wf(Submit(db, c, now).0)
  {
    var mid := MemberId(current);
    var cs := db.changesets;
    var closed := c.(status := Published, publishedDate := Some(now.formatted));
    var w := WriteChangeset(cs, closed, now.seconds);
    var p :| 0 <= p < |cs| && cs[p] == c;
    assert c.id > 0;
    SubmitKeepsWf(db, c, now);
    forall i | 0 <= i < |w.0| ensures !Service.ActiveFor(w.0[i], mid) {
      if i < |cs| && cs[i].id == c.id {
        assert cs[i] in cs;
        SameIdSameChangeset(db, cs[i], c);
        assert forall j :: 0 <= j < i ==> cs[j].id != c.id;
        assert w.0[i] == closed;
      } else if i < |cs| {
        assert w.0[i] == cs[i];
        assert cs[i] in cs && cs[i] != c;
      }
    }
  }

  /** Submitting the only Active changeset that holds an object leaves the
      object in no Active changeset. */
  lemma SubmitReleasesItsObjects(db: Db, c: Changeset, now: Clock, obj: ObjKey)
    requires Wf(db) && c in db.changesets
    requires forall x :: Holds(db, x, obj) ==> x == c
    ensures GetCurrentChangeset(Submit(db, c, now).0, obj).None?
  {
    var cs := db.changesets;
    var closed := c.(status := Published, publishedDate := Some(now.formatted));
    var w := WriteChangeset(cs, closed, now.seconds);
    assert c.id > 0;
    forall i | 0 <= i < |w.0| ensures !(w.0[i].status == Active && ItemOf(obj, w.0[i]) in db.items) {
      if i < |cs| && cs[i].id == c.id {
        assert cs[i] in cs;
        SameIdSameChangeset(db, cs[i], c);
        assert forall j :: 0 <= j < i ==> cs[j].id != c.id;
        assert w.0[i] == closed;
      } else if i < |cs| {
        assert w.0[i] == cs[i];
        assert cs[i] in cs && cs[i] != c;
        assert !Holds(db, cs[i], obj);
      }
    }
    var after := Submit(db, c, now).0;
    assert after == Db(after.store, w.0, db.items);
    forall x | x in after.changesets ensures !Holds(after, x, obj) {
      var k :| 0 <= k < |w.0| && w.0[k] == x;
    }
  }

  /** Once the user's only Active changeset has been submitted, the next
      object the user writes goes into a new changeset, never back into
      the submitted one. */
  lemma SubmissionIsolatesNextWrite(db: Db, c: Changeset, now: Clock, obj: ObjKey, current: Option<Member>, title: string, t: int)
    requires Wf(db) && c in db.changesets
    requires forall x :: x in db.changesets && Service.ActiveFor(x, MemberId(current)) ==> x == c
    requires obj.id != 0 && MemberId(current) != 0
    requires forall x :: Holds(db, x, obj) ==> x == c
    ensures var after := Submit(db, c, now).0;
      var c2 := Target(after, current, title, t);
      var r := OnAfterWrite(after, obj, current, title, t);
      && c2.id != c.id && c2.status == Active && c2.owner == MemberId(current)
      && r.changesets == after.changesets + [c2]
      && GetCurrentChangeset(r, obj) == Some(c2)
  {
    var after := Submit(db, c, now).0;
    var p :| 0 <= p < |db.changesets| && db.changesets[p] == c;
    assert c.id > 0;
    SubmitClosesUserChangeset(db, c, now, current);
    SubmitReleasesItsObjects(db, c, now, obj);
    AddToChangesetCreates(after, obj, current, title, t);
    AddToChangesetEnrols(after, obj, current, title, t);
    assert Submit(db, c, now).1 in after.changesets;
  }

  /** `onAfterPublish`: a publication that did not come from a changeset
      submission takes the object out of its current changeset; one that
      did changes nothing. */
  function OnAfterPublish(db: Db, obj: ObjKey, b: Gate.Binding): (r: Db)
    ensures r.store == db.store && r.changesets == db.changesets
    ensures b.publishingViaChangeset || GetCurrentChangeset(db, obj).None? ==> r == db
    ensures !b.publishingViaChangeset && GetCurrentChangeset(db, obj).Some? ==>
      var c := GetCurrentChangeset(db, obj).value;
      |r.items| == |db.items| - 1 && multiset(r.items) + multiset{ItemOf(obj, c)} == multiset(db.items)
  {
    if !b.publishingViaChangeset then
      match GetCurrentChangeset(db, obj)
      case Some(c) => Remove(db, c, obj)
      case None => db
    else db
  }

  /** After a publication outside a changeset, the object is no longer in
      any Active changeset, and the tables stay consistent. */
  lemma OnAfterPublishReleases(db: Db, obj: ObjKey, b: Gate.Binding)
    requires Wf(db) && SingleActiveHolder(db) && !b.publishingViaChangeset
    ensures var r := OnAfterPublish(db, obj, b);
      GetCurrentChangeset(r, obj).None? && Wf(r) && SingleActiveHolder(r)
  {
    var r := OnAfterPublish(db, obj, b);
    match GetCurrentChangeset(db, obj)
    case None =>
    case Some(c) =>
      RemoveKeepsWf(db, c, obj);
      assert Holds(db, c, obj);
      forall o, x | Holds(r, x, o) ensures Holds(db, x, o) {
        assert ItemOf(o, x) != ItemOf(obj, c);
      }
      forall x ensures !Holds(r, x, obj) {
        if ItemOf(obj, x) != ItemOf(obj, c) {
          assert x != c;
        }
      }
  }

  /** The gate in action: on an object loaded outside a submission, a
      direct publish whose `canPublish()` verdict is the binding's is
      refused and changes nothing. */
  lemma DirectPublishRefused(rec: Record)
    ensures PublishableObject.DoPublish(rec, Gate.CanPublish(Gate.Fresh)) == (false, rec)
  {
    Gate.GateFollowsFlag(Gate.Fresh, false);
  }

  /** The gate does not reach the extension's own unpublish, which asks the
      extension's `canPublish()` rather than the binding: on an object
      loaded outside a submission an ADMIN still unpublishes it directly,
      while an unpublish that asks `canDeleteFromLive` (a page's) is
      refused. */
  lemma DirectUnpublishBypassesGate(k: ObjKey, rec: Record, m: Member, ownerCanEdit: bool)
    requires m.isAdmin && k.id != 0
    ensures !Gate.CanDeleteFromLive(Gate.Fresh)
    ensures PublishableObject.DirectUnpublish(k, rec, Some(m), ownerCanEdit) == (true, rec.(live := None))
    ensures PublishableObject.DoUnpublish(k, rec, Gate.CanDeleteFromLive(Gate.Fresh)) == (false, rec)
  {
    Gate.GateFollowsFlag(Gate.Fresh, false);
  }
}
