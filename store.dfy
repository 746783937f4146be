/**
 * The resource store the converter talks to, reduced to what the converter
 * relies on: objects keyed by (kind, namespace, name); create fails on an
 * existing key, delete reports NotFound on a missing one, and the store may
 * refuse writes to some keys (permissions, admission) or refuse to list.
 */
module Store {
  import opened Results
  import opened Api

  /** Every stored resource sits under its own key. */
  ghost predicate WellKeyed(m: map<Key, Resource>) {
    forall k :: k in m ==> KeyOf(m[k]) == k
  }

  /** Keys of the legacy AddressPools held in `m`. */
  function LegacyKeys(m: map<Key, Resource>): set<Key> {
    set k | k in m && k.kind == AddressPoolKind
  }

  /** The error a create of `r` reports, if any. */
  function CreateError(m: map<Key, Resource>, rejected: set<Key>, r: Resource): Option<StoreError> {
    if KeyOf(r) in rejected then Some(Rejected)
    else if KeyOf(r) in m then Some(AlreadyExists)
    else None
  }

  /** The error a delete of key `k` reports, if any. */
  function DeleteError(m: map<Key, Resource>, rejected: set<Key>, k: Key): Option<StoreError> {
    if k in rejected then Some(Rejected)
    else if k !in m then Some(NotFound)
    else None
  }

  /**
   * `items` is a full listing of the AddressPools stored in `m`: each listed
   * pool is stored under its key, no key is listed twice, and every stored
   * AddressPool is listed. The order is the store's and is left open.
   */
  ghost predicate IsListing(m: map<Key, Resource>, items: seq<AddressPool>) {
    && (forall i :: 0 <= i < |items| ==> PoolKey(items[i]) in m && m[PoolKey(items[i])] == Legacy(items[i]))
    && (forall i, j :: 0 <= i < j < |items| ==> PoolKey(items[i]) != PoolKey(items[j]))
    && (forall k :: k in LegacyKeys(m) ==> exists i :: 0 <= i < |items| && PoolKey(items[i]) == k)
  }

  class Store {
    var objects: map<Key, Resource>
    /** Keys whose create or delete the store refuses with an error other than NotFound or AlreadyExists. */
    const rejected: set<Key>
    /** Whether listing fails. */
    const listFails: bool

    ghost predicate Valid()
      reads this
    {
      WellKeyed(objects)
    }

    constructor (objects: map<Key, Resource>, rejected: set<Key>, listFails: bool)
      requires WellKeyed(objects)
      ensures Valid()
      ensures this.objects == objects && this.rejected == rejected && this.listFails == listFails
    {
      this.objects := objects;
      this.rejected := rejected;
      this.listFails := listFails;
    }

    method Create(r: Resource) returns (err: Option<StoreError>)
      requires Valid()
      modifies this
      ensures Valid()
      ensures err == CreateError(old(objects), rejected, r)
      ensures objects == if err.None? then old(objects)[KeyOf(r) := r] else old(objects)
    {
      err := CreateError(objects, rejected, r);
      if err.None? {
        objects := objects[KeyOf(r) := r];
      }
    }

    method Delete(r: Resource) returns (err: Option<StoreError>)
      requires Valid()
      modifies this
      ensures Valid()
      ensures err == DeleteError(old(objects), rejected, KeyOf(r))
      ensures objects == if err.None? then old(objects) - {KeyOf(r)} else old(objects)
    {
      err := DeleteError(objects, rejected, KeyOf(r));
      if err.None? {
        objects := objects - {KeyOf(r)};
      }
    }

    /** Lists every stored AddressPool, in an order of the store's choosing. */
    method ListAddressPools() returns (r: Result<seq<AddressPool>, Error>)
      requires Valid()
      ensures r.Err? <==> listFails
      ensures r.Err? ==> r.error == ListFailed
      ensures r.Ok? ==> IsListing(objects, r.value)
    {
      if listFails {
        return Err(ListFailed);
      }
      var all := LegacyKeys(objects);
      var remaining := all;
      var items: seq<AddressPool> := [];
      while remaining != {}
        invariant remaining <= all
        invariant forall i :: 0 <= i < |items| ==>
          PoolKey(items[i]) in objects && objects[PoolKey(items[i])] == Legacy(items[i]) && PoolKey(items[i]) !in remaining
        invariant forall i, j :: 0 <= i < j < |items| ==> PoolKey(items[i]) != PoolKey(items[j])
        invariant forall k :: k in all && k !in remaining ==> exists i :: 0 <= i < |items| && PoolKey(items[i]) == k
        decreases remaining
      {
        var k :| k in remaining;
        var p := objects[k].pool;
        assert PoolKey(p) == k;
        ghost var before := items;
        items := items + [p];
        remaining := remaining - {k};
        forall k' | k' in all && k' !in remaining
          ensures exists i :: 0 <= i < |items| && PoolKey(items[i]) == k'
        {
          if k' == k {
            assert PoolKey(items[|before|]) == k';
          } else {
            var i :| 0 <= i < |before| && PoolKey(before[i]) == k';
            assert items[i] == before[i];
          }
        }
      }
      return Ok(items);
    }
  }
}
