/**
 Shared vocabulary of the changeset model: optional values, results carrying
 the errors the PHP code raises, the acting member, and two generic sequence
 helpers (first match and filter) that model `DataList::filter(...)->first()`
 and `DataList::filter(...)`.
 */
module Common {

  datatype Option<+T> = None | Some(value: T)

  /** The exceptions (and the one fatal error) the core can raise. */
  datatype Error =
    | NotLoggedIn          // "User not logged in", raised by the service lookups
    | ChangesetWithoutId   // addItem on a changeset that was never written
    | RevertUnpublished    // revert of an object whose change type is "Unpublished"
    | NoMember             // a method called on a missing member (a PHP fatal error)

  datatype Result<+T> = Ok(value: T) | Err(error: Error)

  /** A CMS member: its record ID and whether it holds the ADMIN permission. */
  datatype Member = Member(id: int, isAdmin: bool)

  /** The ID PHP reads from an optional member: a missing member reads as null,
      which compares loosely equal to 0. */
  function MemberId(m: Option<Member>): int {
    if m.Some? then m.value.id else 0
  }

  /** The current time, passed in: seconds for ordering, and its
      'Y-m-d H:i:s' rendering for the date fields. */
  datatype Clock = Clock(seconds: int, formatted: string)

  /** PHP's truthiness of a string: "" and "0" are false, everything else true. */
  predicate Truthy(s: string) {
    s != "" && s != "0"
  }

  /** Index of the first element satisfying `p`, as `first()` on a filtered list. */
  function FirstIndex<T>(s: seq<T>, p: T -> bool): (r: Option<nat>)
    ensures r.Some? ==> r.value < |s| && p(s[r.value])
    ensures r.Some? ==> forall j :: 0 <= j < r.value ==> !p(s[j])
    ensures r.None? <==> forall j :: 0 <= j < |s| ==> !p(s[j])
  {
    if |s| == 0 then None
    else if p(s[0]) then Some(0)
    else
      match FirstIndex(s[1..], p)
      case None => None
      case Some(i) => Some(i + 1)
  }

  /** The first element satisfying `p`, or None. */
  function First<T>(s: seq<T>, p: T -> bool): (r: Option<T>)
    ensures r.Some? ==> r.value in s && p(r.value)
    ensures r.None? <==> forall x :: x in s ==> !p(x)
  {
    match FirstIndex(s, p)
    case None => None
    case Some(i) => Some(s[i])
  }

  /** The elements satisfying `p`, in their original order. */
  function Filter<T(!new)>(s: seq<T>, p: T -> bool): (r: seq<T>)
    ensures |r| <= |s|
    ensures forall x :: x in r <==> x in s && p(x)
    ensures forall x :: multiset(r)[x] == if p(x) then multiset(s)[x] else 0
  {
    if |s| == 0 then []
    else
      var rest := Filter(s[1..], p);
      assert s == [s[0]] + s[1..];
      if p(s[0]) then [s[0]] + rest else rest
  }

  /** Filtering distributes over concatenation: the kept elements of a
      joined sequence are those of each part, the first part's first. */
  lemma {:induction false} FilterAppend<T(!new)>(a: seq<T>, b: seq<T>, p: T -> bool)
    ensures Filter(a + b, p) == Filter(a, p) + Filter(b, p)
  {
    if |a| > 0 {
      assert (a + b)[1..] == a[1..] + b;
      FilterAppend(a[1..], b, p);
    } else {
      assert a + b == b;
    }
  }

  /** Removes the element at index `i`. */
  function RemoveAt<T>(s: seq<T>, i: nat): (r: seq<T>)
    requires i < |s|
    ensures |r| == |s| - 1
    ensures multiset(r) + multiset{s[i]} == multiset(s)
    ensures forall j :: 0 <= j < i ==> r[j] == s[j]
    ensures forall j :: i <= j < |r| ==> r[j] == s[j + 1]
  {
    assert s == s[..i] + [s[i]] + s[i + 1..];
    s[..i] + s[i + 1..]
  }

  predicate Distinct<T(==)>(s: seq<T>) {
    forall i, j :: 0 <= i < j < |s| ==> s[i] != s[j]
  }

  lemma {:induction false} FilterDistinct<T(!new)>(s: seq<T>, p: T -> bool)
    requires Distinct(s)
    ensures Distinct(Filter(s, p))
  {
    if |s| > 0 {
      FilterDistinct(s[1..], p);
      var rest := Filter(s[1..], p);
      if p(s[0]) {
        assert s[0] !in rest by {
          assert s[0] !in s[1..];
        }
      }
    }
  }
}
