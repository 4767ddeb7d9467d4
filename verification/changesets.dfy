/**
 The changeset aggregate (`ContentChangeset`) and its item records
 (`ContentChangesetItem`), over the persisted state they touch: the content
 store, the changeset table and the item table.

 An operation takes the in-memory changeset (`$this`) and the tables, and
 returns the tables afterwards. The reading stage is passed explicitly where
 it matters, so the source's saving and restoring of the global stage has no
 counterpart here.
 */
module Changesets {
  import opened Common
  import opened ChangeState
  import opened Store
  import Gate
  import PublishableObject

  /** `Enum('Active,Review,Published','Active')` */
  datatype Status = Active | Review | Published

  /** `Enum('Exclusive,Shared','Exclusive')` */
  datatype LockType = Exclusive | Shared

  function StatusName(s: Status): string {
    match s
    case Active => "Active"
    case Review => "Review"
    case Published => "Published"
  }

  /** Each status has its own name, so a filter on the name is a filter on
      the status. */
  lemma StatusNameIsFaithful()
    ensures forall s :: StatusName(s) == "Active" <==> s == Active
    ensures forall s :: StatusName(s) == "Review" <==> s == Review
    ensures forall s :: StatusName(s) == "Published" <==> s == Published
  {
    assert "Active"[0] != "Review"[0] && "Active"[0] != "Published"[0] && "Review"[0] != "Published"[0];
  }

  /** A changeset row. `id` 0 means not yet written; `created` is the
      `Created` timestamp the write stamps, in seconds. */
  datatype Changeset = Changeset(
    id: int,
    title: string,
    owner: int,
    status: Status,
    lockType: LockType,
    publishedDate: Option<string>,
    created: int)

  /** A `ContentChangesetItem`: the content it stands for, named only by
      `(OtherClass, OtherID)`, and the one changeset it belongs to. */
  datatype Item = Item(otherClass: string, otherId: int, changeset: int)

  /** The persisted state: content store, changeset table, item table (both
      tables in insertion order, which is also ID order). */
  datatype Db = Db(store: Store, changesets: seq<Changeset>, items: seq<Item>)

  /** The item that records `obj` in changeset `c`. */
  function ItemOf(obj: ObjKey, c: Changeset): Item {
    Item(obj.cls, obj.id, c.id)
  }

  /** The content an item stands for. */
  function KeyOf(it: Item): ObjKey {
    ObjKey(it.otherClass, it.otherId)
  }

  /** An item is nothing but its content reference and its changeset link:
      the two round-trip. */
  lemma ItemIsItsReference(obj: ObjKey, c: Changeset, it: Item)
    ensures KeyOf(ItemOf(obj, c)) == obj && ItemOf(obj, c).changeset == c.id
    ensures it.changeset == c.id ==> ItemOf(KeyOf(it), c) == it
  {
  }

  /** Consistent tables: every changeset has been written under its own ID,
      no item is recorded twice, and every item links to an existing
      changeset. */
  predicate Wf(db: Db) {
    && Distinct(db.items)
    && (forall i :: 0 <= i < |db.changesets| ==> db.changesets[i].id > 0)
    && (forall i, j :: 0 <= i < j < |db.changesets| ==> db.changesets[i].id != db.changesets[j].id)
    && (forall i :: 0 <= i < |db.items| ==>
          exists j :: 0 <= j < |db.changesets| && db.changesets[j].id == db.items[i].changeset)
  }

  /** `ContentChangeset::create()`: the `$db` defaults, before any write. */
  function NewChangeset(): (c: Changeset)
    ensures c.status == Active && c.lockType == Exclusive
    ensures c.id == 0 && c.publishedDate.None?
  {
    Changeset(0, "", 0, Active, Exclusive, None, 0)
  }

  function MaxId(cs: seq<Changeset>): (m: int)
    ensures m >= 0
    ensures forall i :: 0 <= i < |cs| ==> cs[i].id <= m
  {
    if |cs| == 0 then 0
    else
      var rest := MaxId(cs[1..]);
      assert forall i :: 1 <= i < |cs| ==> cs[i] == cs[1..][i - 1];
      if cs[0].id > rest then cs[0].id else rest
  }

  /** The ID the table hands to the next inserted changeset. */
  function NextId(cs: seq<Changeset>): (n: int)
    ensures n > 0
    ensures forall i :: 0 <= i < |cs| ==> cs[i].id < n
  {
    MaxId(cs) + 1
  }

  /** `write()` of a changeset: an unwritten one is inserted under a fresh ID
      and stamped `Created`; a written one replaces its row. */
  function WriteChangeset(cs: seq<Changeset>, c: Changeset, now: int): (r: (seq<Changeset>, Changeset))
    ensures c.id == 0 ==> r.1 == c.(id := NextId(cs), created := now) && r.0 == cs + [r.1]
    ensures c.id != 0 ==> r.1 == c
    ensures r.1 in r.0 && r.1.id != 0
    ensures |r.0| >= |cs|
    ensures forall i :: 0 <= i < |cs| && cs[i].id != r.1.id ==> r.0[i] == cs[i]
    ensures forall i :: |cs| <= i < |r.0| ==> r.0[i] == r.1
    ensures forall i :: 0 <= i < |cs| ==> r.0[i].id == cs[i].id
    ensures |r.0| <= |cs| + 1
    ensures |r.0| > |cs| ==> forall i :: 0 <= i < |cs| ==> cs[i].id != r.1.id
    ensures c.id != 0 ==> forall i ::
      (0 <= i < |cs| && cs[i].id == c.id && forall j :: 0 <= j < i ==> cs[j].id != c.id) ==> r.0[i] == c
  {
    if c.id == 0 then
      var w := c.(id := NextId(cs), created := now);
      (cs + [w], w)
    else
      match FirstIndex(cs, (x: Changeset) => x.id == c.id)
      case Some(i) =>
        assert cs[i := c][i] == c;
        (cs[i := c], c)
      case None => (cs + [c], c)
  }

  /** Writing a changeset keeps the tables consistent, as long as its ID is
      not negative. */
  lemma WriteChangesetKeepsWf(db: Db, c: Changeset, now: int, s: Store)
    requires Wf(db) && c.id >= 0
    ensures Wf(Db(s, WriteChangeset(db.changesets, c, now).0, db.items))
  {
    var cs := db.changesets;
    var w := WriteChangeset(cs, c, now);
    var r := Db(s, w.0, db.items);
    forall i, j | 0 <= i < j < |w.0| ensures w.0[i].id != w.0[j].id {
      if j >= |cs| {
        assert w.0[j] == w.1;
        if i < |cs| {
          assert cs[i].id != w.1.id;
        }
      } else {
        assert w.0[i].id == cs[i].id && w.0[j].id == cs[j].id;
      }
    }
    forall i | 0 <= i < |w.0| ensures w.0[i].id > 0 {
      if i < |cs| {
        assert w.0[i].id == cs[i].id;
      }
    }
    forall k | 0 <= k < |r.items|
      ensures exists j :: 0 <= j < |r.changesets| && r.changesets[j].id == r.items[k].changeset
    {
      var j :| 0 <= j < |cs| && cs[j].id == db.items[k].changeset;
      assert r.changesets[j].id == cs[j].id;
    }
  }

  /** `ChangesetItems()`: the items linked to a written changeset; an
      unwritten one has none. */
  function OwnItems(db: Db, c: Changeset): (r: seq<Item>)
    ensures forall it :: it in r <==> c.id != 0 && it in db.items && it.changeset == c.id
  {
    if c.id == 0 then [] else Filter(db.items, (it: Item) => it.changeset == c.id)
  }

  /** `getRealItem()` in a given reading stage. */
  function GetRealItem(s: Store, it: Item, area: ReadingStage): (r: Option<ObjKey>)
    ensures r.Some? <==> ExistsIn(s, KeyOf(it), area)
    ensures r.Some? ==> r.value == KeyOf(it)
  {
    if ExistsIn(s, KeyOf(it), area) then Some(KeyOf(it)) else None
  }

  /** The object is found with a nonzero ID on Stage or on Live. */
  predicate Resolvable(s: Store, k: ObjKey) {
    k.id != 0 && (ExistsIn(s, k, OnStage) || ExistsIn(s, k, OnLive))
  }

  datatype Found = Found(key: ObjKey, from: ReadingStage)

  /** One step of `getItems`: look on Stage, and only if that finds nothing
      with an ID, on Live. */
  function Resolve(s: Store, it: Item): (r: Option<Found>)
    ensures r.Some? <==> Resolvable(s, KeyOf(it))
    ensures r.Some? ==> r.value.key == KeyOf(it)
    ensures r.Some? ==> (r.value.from == OnStage <==> ExistsIn(s, KeyOf(it), OnStage))
  {
    var onStage := GetRealItem(s, it, OnStage);
    if onStage.Some? && onStage.value.id != 0 then Some(Found(onStage.value, OnStage))
    else
      var onLive := GetRealItem(s, it, OnLive);
      if onLive.Some? && onLive.value.id != 0 then Some(Found(onLive.value, OnLive))
      else None
  }

  /** One item's contribution to `getItems`: its object, or nothing. */
  function ResolveOne(s: Store, it: Item): (r: seq<ObjKey>)
    ensures |r| <= 1
    ensures forall k :: k in r <==> k == KeyOf(it) && Resolvable(s, k)
  {
    match Resolve(s, it)
    case Some(f) => [f.key]
    case None => []
  }

  function ResolveAll(s: Store, items: seq<Item>): (r: seq<ObjKey>)
    ensures |r| <= |items|
    ensures forall k :: k in r <==> exists it :: it in items && KeyOf(it) == k && Resolvable(s, k)
  {
    if |items| == 0 then []
    else
      assert forall it :: it in items <==> it == items[0] || it in items[1..];
      ResolveOne(s, items[0]) + ResolveAll(s, items[1..])
  }

  /** `getItems` keeps the order of the items: resolving a concatenation is
      the concatenation of the resolutions. */
  lemma {:induction false} ResolveAllAppend(s: Store, a: seq<Item>, b: seq<Item>)
    ensures ResolveAll(s, a + b) == ResolveAll(s, a) + ResolveAll(s, b)
  {
    if |a| > 0 {
      assert (a + b)[0] == a[0];
      assert (a + b)[1..] == a[1..] + b;
      ResolveAllAppend(s, a[1..], b);
    } else {
      assert a + b == b;
    }
  }

  /** `getItems`: the objects this changeset's items stand for, found on
      Stage first and on Live otherwise, in item order; items found in
      neither are dropped. */
  function GetItems(db: Db, c: Changeset): (r: seq<ObjKey>)
    ensures |r| <= |db.items|
    ensures forall k :: k in r <==> c.id != 0 && ItemOf(k, c) in db.items && Resolvable(db.store, k)
  {
    var own := OwnItems(db, c);
    assert forall k :: c.id != 0 && ItemOf(k, c) in db.items ==> ItemOf(k, c) in own && KeyOf(ItemOf(k, c)) == k;
    assert |own| <= |db.items| by {
      if c.id != 0 {
        assert own == Filter(db.items, (it: Item) => it.changeset == c.id);
      }
    }
    ResolveAll(db.store, own)
  }

  /** `getItems` walks the item table in order: the listing for a table
      made of two parts is the first part's listing followed by the
      second's. */
  lemma GetItemsAppend(s: Store, cs: seq<Changeset>, a: seq<Item>, b: seq<Item>, c: Changeset)
    ensures GetItems(Db(s, cs, a + b), c) == GetItems(Db(s, cs, a), c) + GetItems(Db(s, cs, b), c)
  {
    if c.id != 0 {
      FilterAppend(a, b, (it: Item) => it.changeset == c.id);
      ResolveAllAppend(s, OwnItems(Db(s, cs, a), c), OwnItems(Db(s, cs, b), c));
    }
  }

  /** A one-row table lists its object exactly when the row belongs to this
      written changeset and the object is found with an ID; with
      `GetItemsAppend` this fixes the whole listing, row by row. */
  lemma GetItemsOne(s: Store, cs: seq<Changeset>, it: Item, c: Changeset)
    ensures GetItems(Db(s, cs, [it]), c) ==
      if c.id != 0 && it.changeset == c.id && Resolvable(s, KeyOf(it)) then [KeyOf(it)] else []
  {
    var own := OwnItems(Db(s, cs, [it]), c);
    assert ResolveAll(s, []) == [];
    if c.id != 0 && it.changeset == c.id {
      assert own == [it];
      assert ResolveAll(s, own) == ResolveOne(s, it) + ResolveAll(s, []);
    } else {
      assert own == [];
    }
  }

  lemma {:induction false} ResolveAllDistinct(s: Store, items: seq<Item>, cid: int)
    requires Distinct(items)
    requires forall it :: it in items ==> it.changeset == cid
    ensures Distinct(ResolveAll(s, items))
  {
    if |items| > 0 {
      var h := items[0];
      var tail := items[1..];
      assert Distinct(tail) by {
        forall i, j | 0 <= i < j < |tail| ensures tail[i] != tail[j] {
          assert tail[i] == items[i + 1] && tail[j] == items[j + 1];
        }
      }
      ResolveAllDistinct(s, tail, cid);
      assert h !in tail by {
        forall i | 0 <= i < |tail| ensures tail[i] != h {
          assert tail[i] == items[i + 1];
        }
      }
      forall it | it in tail ensures KeyOf(it) != KeyOf(h) {
        assert it.changeset == h.changeset && it != h;
      }
    }
  }

  /** With no item recorded twice, `getItems` names every object once. */
  lemma GetItemsDistinct(db: Db, c: Changeset)
    requires Distinct(db.items)
    ensures Distinct(GetItems(db, c))
  {
    if c.id != 0 {
      FilterDistinct(db.items, (it: Item) => it.changeset == c.id);
    }
    ResolveAllDistinct(db.store, OwnItems(db, c), c.id);
  }

  /** `changesetItemFor`: the position of the first item whose `OtherID`,
      `OtherClass` and `ChangesetID` all match the object and this changeset
      (the changeset's ID is used as is, even when it is 0). */
  function ItemFor(items: seq<Item>, c: Changeset, obj: ObjKey): (r: Option<nat>)
    ensures r.Some? ==> r.value < |items| && items[r.value] == ItemOf(obj, c)
    ensures r.Some? ==> ItemOf(obj, c) !in items[..r.value]
    ensures r.None? <==> ItemOf(obj, c) !in items
  {
    var p := (it: Item) => it.otherId == obj.id && it.otherClass == obj.cls && it.changeset == c.id;
    assert forall it :: p(it) <==> it == ItemOf(obj, c);
    FirstIndex(items, p)
  }

  /** `remove`: deletes the matching item if there is one; no other item,
      no changeset and no content is touched. */
  function Remove(db: Db, c: Changeset, obj: ObjKey): (r: Db)
    ensures r.store == db.store && r.changesets == db.changesets
    ensures ItemOf(obj, c) !in db.items ==> r.items == db.items
    ensures ItemOf(obj, c) in db.items ==>
      |r.items| == |db.items| - 1 && multiset(r.items) + multiset{ItemOf(obj, c)} == multiset(db.items)
    ensures forall x :: x != ItemOf(obj, c) ==> (x in r.items <==> x in db.items)
    ensures Distinct(db.items) ==> Distinct(r.items) && ItemOf(obj, c) !in r.items
  {
    match ItemFor(db.items, c, obj)
    case None => db
    case Some(i) =>
      RemoveAtDistinct(db.items, i);
      db.(items := RemoveAt(db.items, i))
  }

  /** `remove` deletes the first matching row where it stands: the rows
      before it and after it keep their order. */
  lemma RemoveKeepsOrder(db: Db, c: Changeset, obj: ObjKey)
    requires ItemOf(obj, c) in db.items
    ensures exists i :: 0 <= i < |db.items| && db.items[i] == ItemOf(obj, c) &&
                        ItemOf(obj, c) !in db.items[..i] &&
                        Remove(db, c, obj).items == db.items[..i] + db.items[i + 1..]
  {
    var i := ItemFor(db.items, c, obj).value;
    assert Remove(db, c, obj).items == db.items[..i] + db.items[i + 1..];
  }

  /** Keeping only some of the items, none twice, keeps the tables
      consistent. */
  lemma FewerItemsKeepWf(db: Db, items: seq<Item>)
    requires Wf(db) && Distinct(items) && forall x :: x in items ==> x in db.items
    ensures Wf(Db(db.store, db.changesets, items))
  {
    var r := Db(db.store, db.changesets, items);
    forall k | 0 <= k < |r.items|
      ensures exists j :: 0 <= j < |r.changesets| && r.changesets[j].id == r.items[k].changeset
    {
      assert items[k] in items;
      var m :| 0 <= m < |db.items| && db.items[m] == items[k];
      var j :| 0 <= j < |db.changesets| && db.changesets[j].id == db.items[m].changeset;
      assert r.changesets[j].id == r.items[k].changeset;
    }
    assert forall i :: 0 <= i < |r.changesets| ==> r.changesets[i].id > 0;
  }

  /** `remove` keeps the tables consistent. */
  lemma RemoveKeepsWf(db: Db, c: Changeset, obj: ObjKey)
    requires Wf(db)
    ensures Wf(Remove(db, c, obj))
  {
    var r := Remove(db, c, obj);
    FewerItemsKeepWf(db, r.items);
    assert r == Db(db.store, db.changesets, r.items);
  }

  /** Proof helper, not part of the model: a listing with no members is
      empty. Kept as a lemma because indexing the listing in a proof whose
      facts already force it empty reads as a contradiction there. */
  lemma HeadIsMember<T>(s: seq<T>)
    ensures |s| > 0 ==> s[0] in s
  {
  }

  lemma RemoveAtDistinct<T>(s: seq<T>, i: nat)
    requires i < |s|
    ensures Distinct(s) ==> Distinct(RemoveAt(s, i)) && s[i] !in RemoveAt(s, i)
  {
    var r := RemoveAt(s, i);
    if Distinct(s) {
      forall a, b | 0 <= a < b < |r| ensures r[a] != r[b] {
        var a' := if a < i then a else a + 1;
        var b' := if b < i then b else b + 1;
        assert r[a] == s[a'] && r[b] == s[b'] && a' < b';
      }
      forall a | 0 <= a < |r| ensures r[a] != s[i] {
        var a' := if a < i then a else a + 1;
        assert r[a] == s[a'] && a' != i;
      }
    }
  }

  /** `addItem`: a no-op when the object is already in this changeset (even
      one without an ID); otherwise an error for a changeset without an ID;
      otherwise exactly one item `(object class, object ID, this ID)` is
      appended. */
  function AddItem(db: Db, c: Changeset, obj: ObjKey): (r: Result<Db>)
    ensures ItemOf(obj, c) in db.items ==> r == Ok(db)
    ensures ItemOf(obj, c) !in db.items && c.id == 0 ==> r == Err(ChangesetWithoutId)
    ensures ItemOf(obj, c) !in db.items && c.id != 0 ==>
      r.Ok? && r.value.store == db.store && r.value.changesets == db.changesets &&
      r.value.items == db.items + [ItemOf(obj, c)]
  {
    if ItemFor(db.items, c, obj).Some? then Ok(db)
    else if c.id == 0 then Err(ChangesetWithoutId)
    else Ok(db.(items := db.items + [Item(obj.cls, obj.id, c.id)]))
  }

  /** Adding the same object twice records it once. */
  lemma AddItemIdempotent(db: Db, c: Changeset, obj: ObjKey)
    requires AddItem(db, c, obj).Ok?
    ensures AddItem(AddItem(db, c, obj).value, c, obj) == AddItem(db, c, obj)
    ensures ItemOf(obj, c) in AddItem(db, c, obj).value.items
  {
  }

  /** `remove` undoes an `addItem` that added something. */
  lemma {:induction false} RemoveUndoesAddItem(db: Db, c: Changeset, obj: ObjKey)
    requires ItemOf(obj, c) !in db.items && c.id != 0
    ensures Remove(AddItem(db, c, obj).value, c, obj) == db
  {
    var added := AddItem(db, c, obj).value;
    var i := ItemFor(added.items, c, obj);
    assert added.items[|db.items|] == ItemOf(obj, c);
    assert i.Some?;
    assert forall j :: 0 <= j < |db.items| ==> added.items[j] == db.items[j] && added.items[j] != ItemOf(obj, c);
    assert i.value == |db.items|;
    assert RemoveAt(added.items, i.value) == db.items;
  }

  /** `addItem` keeps every object recorded at most once per changeset. */
  lemma AddItemKeepsDistinct(db: Db, c: Changeset, obj: ObjKey)
    requires Distinct(db.items) && AddItem(db, c, obj).Ok?
    ensures Distinct(AddItem(db, c, obj).value.items)
  {
  }

  /** `revert`: undo the object's pending change according to its change
      type, then `remove` it from the changeset, whatever that type was
      (see `RevertAsWritten` for the New case as the code stands). An
      "Unpublished" object raises before the removal, so nothing changes. */
  function Revert(db: Db, c: Changeset, obj: ObjKey): (r: Result<Db>)
    ensures r.Err? <==> ChangeTypeOf(db.store, obj) == Some(Unpublished)
    ensures r.Err? ==> r.error == RevertUnpublished
    ensures r.Ok? ==> r.value.changesets == db.changesets && r.value.items == Remove(db, c, obj).items
    ensures r.Ok? ==> forall k :: k != obj ==> Get(r.value.store, k) == Get(db.store, k)
    ensures r.Ok? && ChangeTypeOf(db.store, obj) == Some(Deleted) ==>
      Get(r.value.store, obj) == Get(db.store, obj)
    ensures r.Ok? && ChangeTypeOf(db.store, obj) == Some(New) ==>
      !ExistsIn(r.value.store, obj, OnStage) && !ExistsIn(r.value.store, obj, OnLive)
    ensures r.Ok? && ChangeTypeOf(db.store, obj) !in {Some(Deleted), Some(New)} ==>
      Get(r.value.store, obj) == Get(db.store, obj).(stage := Get(db.store, obj).live)
  {
    if ChangeTypeOf(db.store, obj) == Some(Unpublished) then Err(RevertUnpublished)
    else Ok(Remove(db.(store := RollBack(db.store, obj)), c, obj))
  }

  /** The switch of `revert` on the content: "Draft Deleted" restores the
      draft from Live, "New" deletes it, "Deleted" does nothing, and
      "Edited" or no change reverts the draft to Live. */
  function RollBack(s: Store, obj: ObjKey): (s': Store)
    requires ChangeTypeOf(s, obj) != Some(Unpublished)
    ensures forall k :: k != obj ==> Get(s', k) == Get(s, k)
  {
    var rec := Get(s, obj);
    match ChangeTypeOf(s, obj)
    case Some(Deleted) => s
    case Some(New) => Put(s, obj, DeleteFromStage(rec))
    case _ => Put(s, obj, CopyLiveToStage(rec))
  }

  /** After a successful revert of a written object whose status is not
      "Unpublished", no change is pending: it is either back in step with
      Live or gone from both stages. */
  lemma RevertSettles(db: Db, c: Changeset, obj: ObjKey)
    requires obj.id != 0 && Get(db.store, obj).status != "Unpublished"
    requires Revert(db, c, obj).Ok?
    ensures ChangeTypeOf(Revert(db, c, obj).value.store, obj) in {None, Some(Deleted)}
  {
    var after := Revert(db, c, obj).value.store;
    ChangeTypeOfWrittenRecord(View(obj, Get(db.store, obj)));
    ChangeTypeOfWrittenRecord(View(obj, Get(after, obj)));
  }

  /** A successful revert takes the object's item out of the changeset
      whatever the change type, New included, as long as no item is
      recorded twice. */
  lemma RevertClearsItsItem(db: Db, c: Changeset, obj: ObjKey)
    requires Distinct(db.items) && Revert(db, c, obj).Ok?
    ensures ItemOf(obj, c) !in Revert(db, c, obj).value.items
  {
  }

  /** Reverting an Edited object that is in the changeset puts its draft
      back to the Live version and takes exactly one item away. */
  lemma RevertEdited(db: Db, c: Changeset, obj: ObjKey)
    requires Distinct(db.items) && ItemOf(obj, c) in db.items
    requires ChangeTypeOf(db.store, obj) == Some(Edited)
    ensures Revert(db, c, obj).Ok?
    ensures var after := Revert(db, c, obj).value;
      Get(after.store, obj).stage == Get(db.store, obj).live &&
      |after.items| == |db.items| - 1 && ItemOf(obj, c) !in after.items
  {
  }

  /** Reverting a New object deletes it: it is found on neither stage, and
      so drops out of `getItems`. */
  lemma RevertNew(db: Db, c: Changeset, obj: ObjKey)
    requires ChangeTypeOf(db.store, obj) == Some(New)
    ensures Revert(db, c, obj).Ok?
    ensures obj !in GetItems(Revert(db, c, obj).value, c)
  {
  }

  /** `revert` as written, for a "New" object: `delete()` clears the
      object's in-memory ID before `remove` runs, so `changesetItemFor` asks
      for `OtherID = 0` and the object's own item row is not found. Every
      other change type goes as in `Revert`. */
  function RevertAsWritten(db: Db, c: Changeset, obj: ObjKey): (r: Result<Db>)
    ensures r.Err? <==> Revert(db, c, obj).Err?
    ensures r.Ok? ==> r.value.store == Revert(db, c, obj).value.store && r.value.changesets == db.changesets
    ensures ChangeTypeOf(db.store, obj) != Some(New) ==> r == Revert(db, c, obj)
    ensures ChangeTypeOf(db.store, obj) == Some(New) ==> r.Ok? && r.value.items == Remove(db, c, obj.(id := 0)).items
  {
    if ChangeTypeOf(db.store, obj) == Some(Unpublished) then Err(RevertUnpublished)
    else
      var lookedUp := if ChangeTypeOf(db.store, obj) == Some(New) then obj.(id := 0) else obj;
      Ok(Remove(db.(store := RollBack(db.store, obj)), c, lookedUp))
  }

  /** The discrepancy: no item is ever recorded for ID 0 (`addToChangeset`
      refuses unwritten objects), so after the as-written revert of a New
      object the item table is exactly as before and still holds the
      object's row, while `Revert` takes that row away. The stale row does
      not show in `getItems`, since the object is gone from both stages. */
  lemma RevertNewLeavesItemRow(db: Db, c: Changeset, obj: ObjKey)
    requires ChangeTypeOf(db.store, obj) == Some(New)
    requires ItemOf(obj, c) in db.items && ItemOf(obj.(id := 0), c) !in db.items
    ensures RevertAsWritten(db, c, obj).value.items == db.items
    ensures Distinct(db.items) ==> ItemOf(obj, c) !in Revert(db, c, obj).value.items
    ensures forall k :: k in GetItems(RevertAsWritten(db, c, obj).value, c) <==> k in GetItems(Revert(db, c, obj).value, c)
  {
  }

  /** One page, New on Stage, recorded in changeset 7: the as-written revert
      leaves its item row behind; `Revert` empties the table. */
  lemma RevertNewExample()
    ensures var k := ObjKey("Page", 5);
      var c := Changeset(7, "", 1, Active, Exclusive, None, 0);
      var db := Db(map[k := Record(Some(1), None, "New")], [c], [ItemOf(k, c)]);
      RevertAsWritten(db, c, k) == Ok(db.(store := map[k := Record(None, None, "New")])) &&
      Revert(db, c, k) == Ok(Db(map[k := Record(None, None, "New")], [c], []))
  {
    var k := ObjKey("Page", 5);
    var c := Changeset(7, "", 1, Active, Exclusive, None, 0);
    var db := Db(map[k := Record(Some(1), None, "New")], [c], [ItemOf(k, c)]);
    ChangeTypeOfWrittenRecord(View(k, Get(db.store, k)));
    var deleted := db.(store := map[k := Record(None, None, "New")]);
    assert Put(db.store, k, DeleteFromStage(Get(db.store, k))) == deleted.store;
    assert RevertAsWritten(db, c, k) == Ok(Remove(deleted, c, k.(id := 0)));
    assert Remove(deleted, c, k).items == [];
  }

  /** The outcome of a loop that may stop on an exception: the tables as
      they stand, and the exception if one escaped. */
  datatype Run = Run(db: Db, error: Option<Error>)

  function RevertEach(db: Db, c: Changeset, keys: seq<ObjKey>): (r: Run)
    ensures r.db.changesets == db.changesets
    ensures r.error.Some? ==> r.error.value == RevertUnpublished
    decreases |keys|
  {
    if |keys| == 0 then Run(db, None)
    else
      match Revert(db, c, keys[0])
      case Err(e) => Run(db, Some(e))
      case Ok(next) => RevertEach(next, c, keys[1..])
  }

  /** `revertAll`: `revert` over a snapshot of `getItems`; the first
      exception stops the loop, keeping the reverts already done. */
  function RevertAll(db: Db, c: Changeset): (r: Run)
    ensures r.db.changesets == db.changesets
    ensures r.error.Some? ==> r.error.value == RevertUnpublished
  {
    RevertEach(db, c, GetItems(db, c))
  }

  /** Whether `getItems` shows an object depends only on its item and its
      record. */
  lemma GetItemsFrame(d1: Db, d2: Db, c: Changeset, k: ObjKey)
    requires (ItemOf(k, c) in d1.items <==> ItemOf(k, c) in d2.items) && Get(d1.store, k) == Get(d2.store, k)
    ensures k in GetItems(d1, c) <==> k in GetItems(d2, c)
  {
  }

  /** A successful revert takes its own object out of `getItems` and leaves
      every other object's presence there as it was. */
  lemma RevertMovesOnlyItsObject(db: Db, c: Changeset, k: ObjKey, k': ObjKey)
    requires Distinct(db.items) && Revert(db, c, k).Ok?
    ensures var next := Revert(db, c, k).value;
      if k' == k then k' !in GetItems(next, c)
      else (k' in GetItems(next, c) <==> k' in GetItems(db, c))
  {
    var next := Revert(db, c, k).value;
    var removed := Remove(db, c, k);
    assert next.items == removed.items;
    if k' != k {
      assert ItemOf(k', c) != ItemOf(k, c);
      GetItemsFrame(next, db, c, k');
    } else {
      assert ItemOf(k, c) !in next.items;
    }
  }

  /** One step of `revertAll`: after reverting the first key, the rest of
      the snapshot is exactly what `getItems` shows, and still holds no
      "Unpublished" object. */
  lemma RevertStep(db: Db, c: Changeset, keys: seq<ObjKey>)
    requires |keys| > 0 && Distinct(db.items) && Distinct(keys)
    requires forall k :: k in GetItems(db, c) <==> k in keys
    requires forall k :: k in keys ==> ChangeTypeOf(db.store, k) != Some(Unpublished)
    ensures Revert(db, c, keys[0]).Ok?
    ensures var next := Revert(db, c, keys[0]).value;
      && Distinct(next.items) && Distinct(keys[1..])
      && (forall k :: k in GetItems(next, c) <==> k in keys[1..])
      && (forall k :: k in keys[1..] ==> ChangeTypeOf(next.store, k) != Some(Unpublished))
  {
    var k := keys[0];
    var rest := keys[1..];
    assert k in keys;
    var next := Revert(db, c, k).value;
    assert k !in rest by {
      forall i | 0 <= i < |rest| ensures rest[i] != k {
        assert rest[i] == keys[i + 1];
      }
    }
    assert Distinct(rest) by {
      forall i, j | 0 <= i < j < |rest| ensures rest[i] != rest[j] {
        assert rest[i] == keys[i + 1] && rest[j] == keys[j + 1];
      }
    }
    forall k' ensures k' in GetItems(next, c) <==> k' in rest {
      RevertMovesOnlyItsObject(db, c, k, k');
      assert k' in keys <==> k' == k || k' in rest;
    }
    forall k' | k' in rest ensures ChangeTypeOf(next.store, k') != Some(Unpublished) {
      assert k' in keys && k' != k;
      assert Get(next.store, k') == Get(db.store, k');
    }
  }

  lemma {:induction false} RevertEachEmpties(db: Db, c: Changeset, keys: seq<ObjKey>)
    requires Distinct(db.items) && Distinct(keys)
    requires forall k :: k in GetItems(db, c) <==> k in keys
    requires forall k :: k in keys ==> ChangeTypeOf(db.store, k) != Some(Unpublished)
    ensures RevertEach(db, c, keys).error.None?
    ensures GetItems(RevertEach(db, c, keys).db, c) == []
    decreases |keys|
  {
    if |keys| == 0 {
      HeadIsMember(GetItems(db, c));
    } else {
      RevertStep(db, c, keys);
      RevertEachEmpties(Revert(db, c, keys[0]).value, c, keys[1..]);
    }
  }

  /** `revertAll` on a changeset none of whose objects is "Unpublished"
      raises nothing and leaves the changeset with no items to show. */
  lemma RevertAllEmpties(db: Db, c: Changeset)
    requires Distinct(db.items)
    requires forall k :: k in GetItems(db, c) ==> ChangeTypeOf(db.store, k) != Some(Unpublished)
    ensures RevertAll(db, c).error.None?
    ensures GetItems(RevertAll(db, c).db, c) == []
  {
    GetItemsDistinct(db, c);
    RevertEachEmpties(db, c, GetItems(db, c));
  }

  /** Reverting a list of objects leaves the record of every object not in
      the list as it was. */
  lemma {:induction false} RevertEachFrame(db: Db, c: Changeset, keys: seq<ObjKey>, k: ObjKey)
    requires k !in keys
    ensures Get(RevertEach(db, c, keys).db.store, k) == Get(db.store, k)
    decreases |keys|
  {
    if |keys| > 0 {
      match Revert(db, c, keys[0])
      case Err(_) =>
      case Ok(next) =>
        assert k !in keys[1..];
        RevertEachFrame(next, c, keys[1..], k);
    }
  }

  /** Reverting a list of objects keeps every item that belongs to none of
      them. */
  lemma {:induction false} RevertEachKeepsItem(db: Db, c: Changeset, keys: seq<ObjKey>, it: Item)
    requires it in db.items
    requires forall j :: 0 <= j < |keys| ==> it != ItemOf(keys[j], c)
    ensures it in RevertEach(db, c, keys).db.items
    decreases |keys|
  {
    if |keys| > 0 {
      match Revert(db, c, keys[0])
      case Err(_) =>
      case Ok(next) =>
        assert it != ItemOf(keys[0], c);
        forall j | 0 <= j < |keys[1..]| ensures it != ItemOf(keys[1..][j], c) {
          assert keys[1..][j] == keys[j + 1];
        }
        RevertEachKeepsItem(next, c, keys[1..], it);
    }
  }

  /** Over a list with no object twice and none "Unpublished", the loop
      raises nothing. */
  lemma {:induction false} RevertEachNoError(db: Db, c: Changeset, keys: seq<ObjKey>)
    requires Distinct(keys)
    requires forall j :: 0 <= j < |keys| ==> ChangeTypeOf(db.store, keys[j]) != Some(Unpublished)
    ensures RevertEach(db, c, keys).error.None?
    decreases |keys|
  {
    if |keys| > 0 {
      assert Revert(db, c, keys[0]).Ok?;
      var next := Revert(db, c, keys[0]).value;
      var rest := keys[1..];
      forall j | 0 <= j < |rest| ensures ChangeTypeOf(next.store, rest[j]) != Some(Unpublished) {
        assert rest[j] == keys[j + 1] && keys[j + 1] != keys[0];
        assert Get(next.store, rest[j]) == Get(db.store, rest[j]);
      }
      assert Distinct(rest) by {
        forall a, b | 0 <= a < b < |rest| ensures rest[a] != rest[b] {
          assert rest[a] == keys[a + 1] && rest[b] == keys[b + 1];
        }
      }
      RevertEachNoError(next, c, rest);
    }
  }

  /** Once a prefix of the list has been reverted without an exception, the
      loop goes on from the state that prefix left. */
  lemma {:induction false} RevertEachSplit(db: Db, c: Changeset, keys: seq<ObjKey>, i: nat)
    requires i <= |keys|
    requires RevertEach(db, c, keys[..i]).error.None?
    ensures RevertEach(db, c, keys) == RevertEach(RevertEach(db, c, keys[..i]).db, c, keys[i..])
  {
    assert keys == keys[..i] + keys[i..];
    RevertEachAppend(db, c, keys[..i], keys[i..]);
  }

  /** Reverting `a + b` without an exception in `a` is reverting `a`, then
      `b` from where `a` left the tables. */
  lemma {:induction false} RevertEachAppend(db: Db, c: Changeset, a: seq<ObjKey>, b: seq<ObjKey>)
    requires RevertEach(db, c, a).error.None?
    ensures RevertEach(db, c, a + b) == RevertEach(RevertEach(db, c, a).db, c, b)
    decreases |a|
  {
    if |a| == 0 {
      assert a + b == b;
    } else {
      assert (a + b)[0] == a[0] && (a + b)[1..] == a[1..] + b;
      RevertEachCons(db, c, a);
      var next := Revert(db, c, a[0]).value;
      RevertEachCons(db, c, a + b);
      RevertEachAppend(next, c, a[1..], b);
    }
  }

  /** A step of `RevertEach` that does not raise hands its tables on. */
  lemma RevertEachCons(db: Db, c: Changeset, keys: seq<ObjKey>)
    requires |keys| > 0
    ensures Revert(db, c, keys[0]).Ok? ==>
      RevertEach(db, c, keys) == RevertEach(Revert(db, c, keys[0]).value, c, keys[1..])
    ensures Revert(db, c, keys[0]).Err? ==> RevertEach(db, c, keys).error.Some?
  {
  }

  /** `revertAll` stops at the first "Unpublished" object of its snapshot:
      that exception escapes, the reverts before it are kept, and neither
      that object nor any later one has been touched, so its item stays in
      the changeset. */
  lemma RevertEachStopsAtUnpublished(db: Db, c: Changeset, keys: seq<ObjKey>, i: nat)
    requires Distinct(keys) && i < |keys|
    requires ChangeTypeOf(db.store, keys[i]) == Some(Unpublished)
    requires forall j :: 0 <= j < i ==> ChangeTypeOf(db.store, keys[j]) != Some(Unpublished)
    ensures var done := RevertEach(db, c, keys[..i]);
      done.error.None? && RevertEach(db, c, keys) == Run(done.db, Some(RevertUnpublished))
    ensures ItemOf(keys[i], c) in db.items ==> ItemOf(keys[i], c) in RevertEach(db, c, keys).db.items
    ensures forall k :: k !in keys[..i] ==> Get(RevertEach(db, c, keys).db.store, k) == Get(db.store, k)
  {
    var pre := keys[..i];
    assert Distinct(pre) by {
      forall a, b | 0 <= a < b < |pre| ensures pre[a] != pre[b] {
        assert pre[a] == keys[a] && pre[b] == keys[b];
      }
    }
    RevertEachNoError(db, c, pre);
    var done := RevertEach(db, c, pre);
    RevertEachSplit(db, c, keys, i);
    assert keys[i] !in pre;
    RevertEachFrame(db, c, pre, keys[i]);
    assert keys[i..][0] == keys[i];
    assert RevertEach(done.db, c, keys[i..]) == Run(done.db, Some(RevertUnpublished));
    if ItemOf(keys[i], c) in db.items {
      forall j | 0 <= j < |pre| ensures ItemOf(keys[i], c) != ItemOf(pre[j], c) {
        assert pre[j] != keys[i];
      }
      RevertEachKeepsItem(db, c, pre, ItemOf(keys[i], c));
    }
    forall k | k !in pre ensures Get(RevertEach(db, c, keys).db.store, k) == Get(db.store, k) {
      RevertEachFrame(db, c, pre, k);
    }
  }

  /** The same for `revertAll` itself: when the i-th object it lists is the
      first "Unpublished" one, it raises after reverting the objects before
      it, and that object's item remains. */
  lemma RevertAllStopsAtUnpublished(db: Db, c: Changeset, i: nat)
    requires Distinct(db.items) && i < |GetItems(db, c)|
    requires ChangeTypeOf(db.store, GetItems(db, c)[i]) == Some(Unpublished)
    requires forall j :: 0 <= j < i ==> ChangeTypeOf(db.store, GetItems(db, c)[j]) != Some(Unpublished)
    ensures var keys := GetItems(db, c);
      var r := RevertAll(db, c);
      && r.error == Some(RevertUnpublished)
      && r.db == RevertEach(db, c, keys[..i]).db
      && ItemOf(keys[i], c) in r.db.items
      && Get(r.db.store, keys[i]) == Get(db.store, keys[i])
  {
    var keys := GetItems(db, c);
    GetItemsDistinct(db, c);
    assert keys[i] in keys;
    RevertEachStopsAtUnpublished(db, c, keys, i);
  }

  /** What `submit` does to one object: with the publishing flag just set,
      a "Draft Deleted" object is unpublished, a "Deleted" one is left
      alone, and any other is published. */
  function SubmitRecord(k: ObjKey, rec: Record): (r: Record)
    ensures GetChangeType(View(k, rec)) == Some(Deleted) ==> r == rec
    ensures GetChangeType(View(k, rec)) == Some(DraftDeleted) && k.id != 0 ==>
      r == Record(rec.stage, None, rec.status)
    ensures GetChangeType(View(k, rec)) !in {Some(Deleted), Some(DraftDeleted)} ==>
      r == Record(rec.stage, rec.stage, "Published")
  {
    var flagged := Gate.SetPublishingViaChangeset(Gate.Fresh, true);
    match GetChangeType(View(k, rec))
    case Some(DraftDeleted) => PublishableObject.DoUnpublish(k, rec, Gate.CanDeleteFromLive(flagged)).1
    case Some(Deleted) => rec
    case _ => PublishableObject.DoPublish(rec, Gate.CanPublish(flagged)).1
  }

  /** Once submitted, a written object has no pending change left other
      than a full deletion. */
  lemma SubmitRecordSettles(k: ObjKey, rec: Record)
    requires k.id != 0
    ensures GetChangeType(View(k, SubmitRecord(k, rec))) in {None, Some(Deleted)}
  {
    ChangeTypeOfWrittenRecord(View(k, rec));
    ChangeTypeOfWrittenRecord(View(k, SubmitRecord(k, rec)));
  }

  function SubmitEach(s: Store, keys: seq<ObjKey>): (r: Store)
    ensures forall k :: k !in keys ==> Get(r, k) == Get(s, k)
    decreases |keys|
  {
    if |keys| == 0 then s
    else SubmitEach(Put(s, keys[0], SubmitRecord(keys[0], Get(s, keys[0]))), keys[1..])
  }

  lemma {:induction false} SubmitEachEffect(s: Store, keys: seq<ObjKey>)
    requires Distinct(keys)
    ensures forall k :: k in keys ==> Get(SubmitEach(s, keys), k) == SubmitRecord(k, Get(s, k))
    decreases |keys|
  {
    if |keys| > 0 {
      var rest := keys[1..];
      var s' := Put(s, keys[0], SubmitRecord(keys[0], Get(s, keys[0])));
      assert keys[0] !in rest by {
        forall i | 0 <= i < |rest| ensures rest[i] != keys[0] {
          assert rest[i] == keys[i + 1];
        }
      }
      assert Distinct(rest) by {
        forall i, j | 0 <= i < j < |rest| ensures rest[i] != rest[j] {
          assert rest[i] == keys[i + 1] && rest[j] == keys[j + 1];
        }
      }
      SubmitEachEffect(s', rest);
      forall k | k in keys ensures Get(SubmitEach(s, keys), k) == SubmitRecord(k, Get(s, k)) {
        if k != keys[0] {
          assert k in rest;
        }
      }
    }
  }

  /** `submit`: processes every object of a snapshot of `getItems`, then
      marks the changeset Published, stamps its PublishedDate and writes it.
      The current status is not checked and no item is removed. */
  function Submit(db: Db, c: Changeset, now: Clock): (r: (Db, Changeset))
    ensures r.0.items == db.items
    ensures (r.0.changesets, r.1) ==
      WriteChangeset(db.changesets, c.(status := Published, publishedDate := Some(now.formatted)), now.seconds)
    ensures r.1.status == Published && r.1.publishedDate == Some(now.formatted)
    ensures r.1 in r.0.changesets
    ensures r.1.title == c.title && r.1.owner == c.owner && r.1.lockType == c.lockType
    ensures c.id != 0 ==> r.1.id == c.id
    ensures forall k :: k !in GetItems(db, c) ==> Get(r.0.store, k) == Get(db.store, k)
  {
    var snapshot := GetItems(db, c);
    var store := SubmitEach(db.store, snapshot);
    var closed := c.(status := Published, publishedDate := Some(now.formatted));
    var written := WriteChangeset(db.changesets, closed, now.seconds);
    (Db(store, written.0, db.items), written.1)
  }

  /** `submit` keeps the tables consistent. */
  lemma SubmitKeepsWf(db: Db, c: Changeset, now: Clock)
    requires Wf(db) && c.id >= 0
    ensures Wf(Submit(db, c, now).0)
  {
    var closed := c.(status := Published, publishedDate := Some(now.formatted));
    var r := Submit(db, c, now).0;
    WriteChangesetKeepsWf(db, closed, now.seconds, r.store);
    assert r == Db(r.store, WriteChangeset(db.changesets, closed, now.seconds).0, db.items);
  }

  /** After `submit`, each object of the changeset has been published or
      unpublished as its change type demanded, so none has a change pending
      other than a full deletion. */
  lemma SubmitSettles(db: Db, c: Changeset, now: Clock)
    requires Distinct(db.items)
    ensures forall k :: k in GetItems(db, c) ==>
      Get(Submit(db, c, now).0.store, k) == SubmitRecord(k, Get(db.store, k)) &&
      ChangeTypeOf(Submit(db, c, now).0.store, k) in {None, Some(Deleted)}
  {
    var snapshot := GetItems(db, c);
    GetItemsDistinct(db, c);
    SubmitEachEffect(db.store, snapshot);
    forall k | k in snapshot
      ensures ChangeTypeOf(Submit(db, c, now).0.store, k) in {None, Some(Deleted)}
    {
      SubmitRecordSettles(k, Get(db.store, k));
    }
  }

  /** `lock`: the lock type becomes Exclusive and nothing else changes. The
      source does not write the changeset here. */
  function Lock(c: Changeset): (r: Changeset)
    ensures r.lockType == Exclusive
    ensures r.(lockType := c.lockType) == c
  {
    c.(lockType := Exclusive)
  }

  /** `unlock`: the lock type becomes Shared and nothing else changes. */
  function Unlock(c: Changeset): (r: Changeset)
    ensures r.lockType == Shared
    ensures r.(lockType := c.lockType) == c
  {
    c.(lockType := Shared)
  }

  /** Each of `lock` and `unlock` overrides the other, and `lock` undoes an
      `unlock` of an exclusive changeset. */
  lemma LockUnlockRoundTrip(c: Changeset)
    ensures Lock(Unlock(c)) == Lock(c) && Unlock(Lock(c)) == Unlock(c)
    ensures c.lockType == Exclusive ==> Lock(Unlock(c)) == c
    ensures c.lockType == Shared ==> Unlock(Lock(c)) == c
  {
  }
}
