/**
 * Create and Delete of the legacy and the current object sets against the
 * store: members are visited in list order (for the current set:
 * IPAddressPools, then BGPAdvertisements, then L2Advertisements), the first
 * failure ends the walk and is returned, nothing done before it is undone, and
 * a delete that finds nothing to delete counts as done.
 */
module Lifecycle {
  import opened Results
  import opened Api
  import opened Store

  /** The store contents after a walk, and the error that ended it, if any. */
  datatype Outcome = Outcome(objects: map<Key, Resource>, err: Option<Error>)

  function KeysOf(rs: seq<Resource>): set<Key> {
    set i | 0 <= i < |rs| :: KeyOf(rs[i])
  }

  predicate DistinctKeys(rs: seq<Resource>) {
    forall i, j :: 0 <= i < j < |rs| ==> KeyOf(rs[i]) != KeyOf(rs[j])
  }

  /** Creates `rs` in order and stops at the first failure. */
  function CreateAll(m: map<Key, Resource>, rejected: set<Key>, rs: seq<Resource>): Outcome
    decreases |rs|
  {
    if rs == [] then Outcome(m, None)
    else
      match CreateError(m, rejected, rs[0])
      case Some(e) => Outcome(m, Some(CreateFailed(rs[0], e)))
      case None => CreateAll(m[KeyOf(rs[0]) := rs[0]], rejected, rs[1..])
  }

  /** Deletes `rs` in order; NotFound is skipped, any other failure stops the walk. */
  function DeleteAll(m: map<Key, Resource>, rejected: set<Key>, rs: seq<Resource>): Outcome
    decreases |rs|
  {
    if rs == [] then Outcome(m, None)
    else
      match DeleteError(m, rejected, KeyOf(rs[0]))
      case Some(NotFound) => DeleteAll(m, rejected, rs[1..])
      case Some(e) => Outcome(m, Some(DeleteFailed(rs[0], e)))
      case None => DeleteAll(m - {KeyOf(rs[0])}, rejected, rs[1..])
  }

  /** Creating a list succeeds exactly when no key is refused, none exists yet and no two members share a key. */
  lemma {:induction false} CreateAllSucceedsIff(m: map<Key, Resource>, rejected: set<Key>, rs: seq<Resource>)
    ensures CreateAll(m, rejected, rs).err.None? <==>
      (forall i :: 0 <= i < |rs| ==> KeyOf(rs[i]) !in rejected && KeyOf(rs[i]) !in m) && DistinctKeys(rs)
    decreases |rs|
  {
    if rs != [] {
      var r, t := rs[0], rs[1..];
      assert forall i :: 0 <= i < |t| ==> t[i] == rs[i + 1];
      if CreateError(m, rejected, r).None? {
        CreateAllSucceedsIff(m[KeyOf(r) := r], rejected, t);
        if DistinctKeys(rs) {
          assert forall i :: 0 <= i < |t| ==> KeyOf(t[i]) != KeyOf(r);
        }
        if (forall i :: 0 <= i < |t| ==> KeyOf(t[i]) !in rejected && KeyOf(t[i]) !in m[KeyOf(r) := r]) && DistinctKeys(t) {
          forall i, j | 0 <= i < j < |rs| ensures KeyOf(rs[i]) != KeyOf(rs[j]) {
            if i > 0 { assert rs[i] == t[i - 1] && rs[j] == t[j - 1]; }
            else { assert rs[j] == t[j - 1]; }
          }
        }
      }
    }
  }

  lemma KeysOfCons(rs: seq<Resource>)
    requires rs != []
    ensures KeysOf(rs) == {KeyOf(rs[0])} + KeysOf(rs[1..])
  {
    var t := rs[1..];
    forall k | k in KeysOf(rs) ensures k in {KeyOf(rs[0])} + KeysOf(t) {
      var i :| 0 <= i < |rs| && KeyOf(rs[i]) == k;
      if i > 0 { assert rs[i] == t[i - 1]; }
    }
    forall k | k in KeysOf(t) ensures k in KeysOf(rs) {
      var i :| 0 <= i < |t| && KeyOf(t[i]) == k;
      assert rs[i + 1] == t[i];
    }
  }

  /** After a successful create the store holds every member under its key, and everything it held before, unchanged. */
  lemma {:induction false} CreateAllOnSuccess(m: map<Key, Resource>, rejected: set<Key>, rs: seq<Resource>)
    requires CreateAll(m, rejected, rs).err.None?
    ensures var o := CreateAll(m, rejected, rs).objects;
      && o.Keys == m.Keys + KeysOf(rs)
      && (forall k :: k in m ==> o[k] == m[k])
      && (forall i :: 0 <= i < |rs| ==> o[KeyOf(rs[i])] == rs[i])
    decreases |rs|
  {
    if rs != [] {
      var r, t := rs[0], rs[1..];
      var m' := m[KeyOf(r) := r];
      assert KeyOf(r) !in m;
      CreateAllOnSuccess(m', rejected, t);
      KeysOfCons(rs);
      forall i | 0 <= i < |rs| ensures CreateAll(m, rejected, rs).objects[KeyOf(rs[i])] == rs[i] {
        if i > 0 { assert rs[i] == t[i - 1]; }
      }
    }
  }

  /**
   * A failed create leaves exactly what creating the members before the
   * failing one leaves: earlier creations are not rolled back, later members
   * are not attempted.
   */
  lemma {:induction false} CreateAllStopsAtFirstFailure(m: map<Key, Resource>, rejected: set<Key>, rs: seq<Resource>)
    requires CreateAll(m, rejected, rs).err.Some?
    ensures exists j ::
              && 0 <= j < |rs|
              && CreateAll(m, rejected, rs[..j]) == Outcome(CreateAll(m, rejected, rs).objects, None)
              && CreateError(CreateAll(m, rejected, rs).objects, rejected, rs[j]).Some?
              && CreateAll(m, rejected, rs).err == Some(CreateFailed(rs[j], CreateError(CreateAll(m, rejected, rs).objects, rejected, rs[j]).value))
    decreases |rs|
  {
    var r, t := rs[0], rs[1..];
    if CreateError(m, rejected, r).Some? {
      assert rs[..0] == [];
      assert CreateAll(m, rejected, rs[..0]) == Outcome(m, None);
    } else {
      var m' := m[KeyOf(r) := r];
      CreateAllStopsAtFirstFailure(m', rejected, t);
      var o := CreateAll(m, rejected, rs);
      var j :| 0 <= j < |t|
        && CreateAll(m', rejected, t[..j]) == Outcome(o.objects, None)
        && CreateError(o.objects, rejected, t[j]).Some?
        && o.err == Some(CreateFailed(t[j], CreateError(o.objects, rejected, t[j]).value));
      assert rs[..j + 1][0] == r && rs[..j + 1][1..] == t[..j];
      assert rs[j + 1] == t[j];
    }
  }

  /** Deleting a list succeeds exactly when the store refuses none of its keys; absent members do not matter. */
  lemma {:induction false} DeleteAllSucceedsIff(m: map<Key, Resource>, rejected: set<Key>, rs: seq<Resource>)
    ensures DeleteAll(m, rejected, rs).err.None? <==> forall i :: 0 <= i < |rs| ==> KeyOf(rs[i]) !in rejected
    decreases |rs|
  {
    if rs != [] {
      var t := rs[1..];
      assert forall i :: 0 <= i < |t| ==> t[i] == rs[i + 1];
      DeleteAllSucceedsIff(m, rejected, t);
      DeleteAllSucceedsIff(m - {KeyOf(rs[0])}, rejected, t);
    }
  }

  /** After a successful delete exactly the members' keys are gone and everything else is unchanged. */
  lemma {:induction false} DeleteAllOnSuccess(m: map<Key, Resource>, rejected: set<Key>, rs: seq<Resource>)
    requires DeleteAll(m, rejected, rs).err.None?
    ensures DeleteAll(m, rejected, rs).objects == m - KeysOf(rs)
    decreases |rs|
  {
    if rs != [] {
      var r, t := rs[0], rs[1..];
      KeysOfCons(rs);
      if KeyOf(r) in m {
        DeleteAllOnSuccess(m - {KeyOf(r)}, rejected, t);
      } else {
        DeleteAllOnSuccess(m, rejected, t);
      }
    }
  }

  /**
   * A failed delete leaves exactly what deleting the members before the
   * failing one leaves, and the failing member is one the store refused.
   */
  lemma {:induction false} DeleteAllStopsAtFirstFailure(m: map<Key, Resource>, rejected: set<Key>, rs: seq<Resource>)
    requires DeleteAll(m, rejected, rs).err.Some?
    ensures exists j ::
              && 0 <= j < |rs|
              && DeleteAll(m, rejected, rs[..j]) == Outcome(DeleteAll(m, rejected, rs).objects, None)
              && KeyOf(rs[j]) in rejected
              && DeleteAll(m, rejected, rs).err == Some(DeleteFailed(rs[j], Rejected))
    decreases |rs|
  {
    var r, t := rs[0], rs[1..];
    if KeyOf(r) in rejected {
      assert rs[..0] == [];
    } else {
      var m' := if KeyOf(r) in m then m - {KeyOf(r)} else m;
      assert DeleteAll(m, rejected, rs) == DeleteAll(m', rejected, t);
      DeleteAllStopsAtFirstFailure(m', rejected, t);
      var o := DeleteAll(m, rejected, rs);
      var j :| 0 <= j < |t|
        && DeleteAll(m', rejected, t[..j]) == Outcome(o.objects, None)
        && KeyOf(t[j]) in rejected
        && o.err == Some(DeleteFailed(t[j], Rejected));
      assert rs[..j + 1][0] == r && rs[..j + 1][1..] == t[..j];
      assert rs[j + 1] == t[j];
    }
  }

  /** Deleting the same list again after a successful delete succeeds and changes nothing. */
  lemma DeleteAllIdempotent(m: map<Key, Resource>, rejected: set<Key>, rs: seq<Resource>)
    requires DeleteAll(m, rejected, rs).err.None?
    ensures DeleteAll(DeleteAll(m, rejected, rs).objects, rejected, rs) == DeleteAll(m, rejected, rs)
  {
    var o := DeleteAll(m, rejected, rs).objects;
    DeleteAllSucceedsIff(m, rejected, rs);
    DeleteAllSucceedsIff(o, rejected, rs);
    DeleteAllOnSuccess(m, rejected, rs);
    DeleteAllOnSuccess(o, rejected, rs);
    assert o - KeysOf(rs) == o;
  }

  /** Keys outside the list are left as they were by a create, whether it succeeds or not. */
  lemma {:induction false} CreateAllFrame(m: map<Key, Resource>, rejected: set<Key>, rs: seq<Resource>, k: Key)
    requires k !in KeysOf(rs)
    ensures k in CreateAll(m, rejected, rs).objects <==> k in m
    ensures k in m ==> CreateAll(m, rejected, rs).objects[k] == m[k]
    decreases |rs|
  {
    if rs != [] && CreateError(m, rejected, rs[0]).None? {
      assert KeyOf(rs[0]) in KeysOf(rs);
      assert KeysOf(rs[1..]) <= KeysOf(rs) by {
        forall k' | k' in KeysOf(rs[1..]) ensures k' in KeysOf(rs) {
          var i :| 0 <= i < |rs[1..]| && KeyOf(rs[1..][i]) == k';
          assert rs[i + 1] == rs[1..][i];
        }
      }
      CreateAllFrame(m[KeyOf(rs[0]) := rs[0]], rejected, rs[1..], k);
    }
  }

  /** Keys outside the list are left as they were by a delete, whether it succeeds or not. */
  lemma {:induction false} DeleteAllFrame(m: map<Key, Resource>, rejected: set<Key>, rs: seq<Resource>, k: Key)
    requires k !in KeysOf(rs)
    ensures k in DeleteAll(m, rejected, rs).objects <==> k in m
    ensures k in m ==> DeleteAll(m, rejected, rs).objects[k] == m[k]
    decreases |rs|
  {
    if rs != [] {
      assert KeyOf(rs[0]) in KeysOf(rs);
      assert KeysOf(rs[1..]) <= KeysOf(rs) by {
        forall k' | k' in KeysOf(rs[1..]) ensures k' in KeysOf(rs) {
          var i :| 0 <= i < |rs[1..]| && KeyOf(rs[1..][i]) == k';
          assert rs[i + 1] == rs[1..][i];
        }
      }
      if KeyOf(rs[0]) !in rejected {
        DeleteAllFrame(if KeyOf(rs[0]) in m then m - {KeyOf(rs[0])} else m, rejected, rs[1..], k);
      }
    }
  }

  /** A create walk over a concatenation is the walk over the first part, then, if it succeeded, over the second. */
  lemma {:induction false} CreateAllConcat(m: map<Key, Resource>, rejected: set<Key>, a: seq<Resource>, b: seq<Resource>)
    ensures CreateAll(m, rejected, a + b) ==
      var o := CreateAll(m, rejected, a);
      if o.err.Some? then o else CreateAll(o.objects, rejected, b)
    decreases |a|
  {
    if a == [] {
      assert a + b == b;
    } else {
      assert (a + b)[0] == a[0] && (a + b)[1..] == a[1..] + b;
      if CreateError(m, rejected, a[0]).None? {
        CreateAllConcat(m[KeyOf(a[0]) := a[0]], rejected, a[1..], b);
      }
    }
  }

  /** A delete walk over a concatenation is the walk over the first part, then, if it succeeded, over the second. */
  lemma {:induction false} DeleteAllConcat(m: map<Key, Resource>, rejected: set<Key>, a: seq<Resource>, b: seq<Resource>)
    ensures DeleteAll(m, rejected, a + b) ==
      var o := DeleteAll(m, rejected, a);
      if o.err.Some? then o else DeleteAll(o.objects, rejected, b)
    decreases |a|
  {
    if a == [] {
      assert a + b == b;
    } else {
      assert (a + b)[0] == a[0] && (a + b)[1..] == a[1..] + b;
      match DeleteError(m, rejected, KeyOf(a[0])) {
        case Some(NotFound) => DeleteAllConcat(m, rejected, a[1..], b);
        case Some(_) =>
        case None => DeleteAllConcat(m - {KeyOf(a[0])}, rejected, a[1..], b);
      }
    }
  }

  /** One of the Go code's delete loops: each member in order, NotFound ignored, first other failure returned. */
  method DeleteEach(rs: seq<Resource>, store: Store) returns (err: Option<Error>)
    requires store.Valid()
    modifies store
    ensures store.Valid()
    ensures Outcome(store.objects, err) == DeleteAll(old(store.objects), store.rejected, rs)
  {
    for i := 0 to |rs|
      invariant store.Valid()
      invariant DeleteAll(old(store.objects), store.rejected, rs) == DeleteAll(store.objects, store.rejected, rs[i..])
    {
      assert rs[i..][0] == rs[i] && rs[i..][1..] == rs[i + 1..];
      var e := store.Delete(rs[i]);
      if e.Some? && e.value != NotFound {
        return Some(DeleteFailed(rs[i], e.value));
      }
    }
    return None;
  }

  /** One of the Go code's create loops: each member in order, first failure returned. */
  method CreateEach(rs: seq<Resource>, store: Store) returns (err: Option<Error>)
    requires store.Valid()
    modifies store
    ensures store.Valid()
    ensures Outcome(store.objects, err) == CreateAll(old(store.objects), store.rejected, rs)
  {
    for i := 0 to |rs|
      invariant store.Valid()
      invariant CreateAll(old(store.objects), store.rejected, rs) == CreateAll(store.objects, store.rejected, rs[i..])
    {
      assert rs[i..][0] == rs[i] && rs[i..][1..] == rs[i + 1..];
      var e := store.Create(rs[i]);
      if e.Some? {
        return Some(CreateFailed(rs[i], e.value));
      }
    }
    return None;
  }

  /** LegacyObjects.Delete: deletes every AddressPool, ignoring NotFound. */
  method DeleteLegacyObjects(l: LegacyObjects, store: Store) returns (err: Option<Error>)
    requires store.Valid()
    modifies store
    ensures store.Valid()
    ensures Outcome(store.objects, err) == DeleteAll(old(store.objects), store.rejected, LegacyResources(l))
  {
    err := DeleteEach(LegacyResources(l), store);
  }

  /** LegacyObjects.Create: creates every AddressPool, stopping at the first failure. */
  method CreateLegacyObjects(l: LegacyObjects, store: Store) returns (err: Option<Error>)
    requires store.Valid()
    modifies store
    ensures store.Valid()
    ensures Outcome(store.objects, err) == CreateAll(old(store.objects), store.rejected, LegacyResources(l))
  {
    err := CreateEach(LegacyResources(l), store);
  }

  /** CurrentObjects.Delete: IPAddressPools, then BGPAdvertisements, then L2Advertisements; NotFound ignored. */
  method DeleteCurrentObjects(c: CurrentObjects, store: Store) returns (err: Option<Error>)
    requires store.Valid()
    modifies store
    ensures store.Valid()
    ensures Outcome(store.objects, err) == DeleteAll(old(store.objects), store.rejected, CurrentResources(c))
  {
    var ips := IPAddressPoolResources(c.ipAddressPools);
    var bgps := BGPAdvertisementResources(c.bgpAdvertisements);
    var l2s := L2AdvertisementResources(c.l2Advertisements);
    DeleteAllConcat(old(store.objects), store.rejected, ips + bgps, l2s);
    DeleteAllConcat(old(store.objects), store.rejected, ips, bgps);
    err := DeleteEach(ips, store);
    if err.Some? {
      return err;
    }
    err := DeleteEach(bgps, store);
    if err.Some? {
      return err;
    }
    err := DeleteEach(l2s, store);
  }

  /** CurrentObjects.Create: IPAddressPools, then BGPAdvertisements, then L2Advertisements; first failure returned. */
  method CreateCurrentObjects(c: CurrentObjects, store: Store) returns (err: Option<Error>)
    requires store.Valid()
    modifies store
    ensures store.Valid()
    ensures Outcome(store.objects, err) == CreateAll(old(store.objects), store.rejected, CurrentResources(c))
  {
    var ips := IPAddressPoolResources(c.ipAddressPools);
    var bgps := BGPAdvertisementResources(c.bgpAdvertisements);
    var l2s := L2AdvertisementResources(c.l2Advertisements);
    CreateAllConcat(old(store.objects), store.rejected, ips + bgps, l2s);
    CreateAllConcat(old(store.objects), store.rejected, ips, bgps);
    err := CreateEach(ips, store);
    if err.Some? {
      return err;
    }
    err := CreateEach(bgps, store);
    if err.Some? {
      return err;
    }
    err := CreateEach(l2s, store);
  }
}
