/**
 * The two migration drivers. Offline: fetch the legacy set (store or
 * directory), convert it and write the result. Online: repeatedly fetch one
 * legacy pool from the store, write a backup of it, convert it, delete it and
 * create its replacements, until no legacy pool is left or a step fails.
 * Nothing is rolled back: a pool whose replacements cannot be created is gone
 * in both schemas.
 */
module Migration {
  import opened Results
  import opened Api
  import opened Conversion
  import opened Store
  import opened Lifecycle
  import opened Readers
  import opened Printing
  import opened Fragments

  /** One round of the online loop on pool `p`: convert, delete the pool, create its replacements. */
  function MigratePool(m: map<Key, Resource>, rejected: set<Key>, p: AddressPool): Outcome {
    match ConvertPool(p)
    case Err(e) => Outcome(m, Some(e))
    case Ok(c) =>
      var d := DeleteAll(m, rejected, [Legacy(p)]);
      if d.err.Some? then d else CreateAll(d.objects, rejected, CurrentResources(c))
  }

  /** Rounds on `ps` in order, stopping at the first that fails. */
  function MigratePools(m: map<Key, Resource>, rejected: set<Key>, ps: seq<AddressPool>): Outcome
    decreases |ps|
  {
    if ps == [] then Outcome(m, None)
    else
      var o := MigratePools(m, rejected, ps[..|ps| - 1]);
      if o.err.Some? then o else MigratePool(o.objects, rejected, ps[|ps| - 1])
  }

  /** The backup writes of the rounds on `ps`: each round writes its one pool. */
  function BackupWrites(ps: seq<AddressPool>, backupDirectory: string, toJSON: bool): seq<Emission>
    decreases |ps|
  {
    if ps == [] then []
    else
      BackupWrites(ps[..|ps| - 1], backupDirectory, toJSON)
      + PrintObjects(LegacyCollections(LegacyObjects([ps[|ps| - 1]])), backupDirectory, toJSON)
  }

  function PoolKeys(ps: seq<AddressPool>): set<Key> {
    set i | 0 <= i < |ps| :: PoolKey(ps[i])
  }

  /** The pools of `order` were stored in `m0`, each under its own key, and none comes twice. */
  ghost predicate TakenFrom(m0: map<Key, Resource>, order: seq<AddressPool>) {
    && (forall i :: 0 <= i < |order| ==> PoolKey(order[i]) in m0 && m0[PoolKey(order[i])] == Legacy(order[i]))
    && (forall i, j :: 0 <= i < j < |order| ==> PoolKey(order[i]) != PoolKey(order[j]))
  }

  /**
   * Between rounds: the migrated pools are gone, the legacy pools still
   * stored are untouched originals, and each original is still stored or
   * migrated.
   */
  ghost predicate Remaining(m0: map<Key, Resource>, m: map<Key, Resource>, order: seq<AddressPool>) {
    && (forall i :: 0 <= i < |order| ==> PoolKey(order[i]) !in m)
    && (forall k :: k in LegacyKeys(m) ==> k in m0 && m[k] == m0[k])
    && (forall k :: k in LegacyKeys(m0) ==> k in m || k in PoolKeys(order))
  }

  lemma MigratePoolsSnoc(m: map<Key, Resource>, rejected: set<Key>, ps: seq<AddressPool>, p: AddressPool)
    ensures MigratePools(m, rejected, ps + [p]) ==
      var o := MigratePools(m, rejected, ps);
      if o.err.Some? then o else MigratePool(o.objects, rejected, p)
  {
    assert (ps + [p])[..|ps|] == ps;
  }

  lemma BackupWritesSnoc(ps: seq<AddressPool>, p: AddressPool, backupDirectory: string, toJSON: bool)
    ensures BackupWrites(ps + [p], backupDirectory, toJSON) ==
      BackupWrites(ps, backupDirectory, toJSON) + PrintObjects(LegacyCollections(LegacyObjects([p])), backupDirectory, toJSON)
  {
    assert (ps + [p])[..|ps|] == ps;
  }

  /** No resource of a converted pool is an AddressPool. */
  lemma FragmentHasNoLegacyKey(p: AddressPool, k: Key)
    requires SupportedProtocol(p) && k.kind == AddressPoolKind
    ensures k !in KeysOf(FragmentOf(p))
  {
    var rs := FragmentOf(p);
    forall i | 0 <= i < |rs| ensures KeyOf(rs[i]) != k {
      FragmentShape(p, i);
    }
  }

  /**
   * A round touches no AddressPool but its own, and a round that succeeds
   * has removed its own.
   */
  lemma MigratePoolLegacyEffect(m: map<Key, Resource>, rejected: set<Key>, p: AddressPool)
    ensures var o := MigratePool(m, rejected, p);
      && (forall k: Key :: k.kind == AddressPoolKind && k != PoolKey(p) ==>
            (k in o.objects <==> k in m) && (k in m ==> o.objects[k] == m[k]))
      && (o.err.None? ==> PoolKey(p) !in o.objects)
  {
    if SupportedProtocol(p) {
      var rs := FragmentOf(p);
      var d := DeleteAll(m, rejected, [Legacy(p)]);
      assert KeysOf([Legacy(p)]) == {PoolKey(p)};
      forall k: Key | k.kind == AddressPoolKind
        ensures k != PoolKey(p) ==> (k in d.objects <==> k in m) && (k in m ==> d.objects[k] == m[k])
        ensures d.err.None? ==> (k in CreateAll(d.objects, rejected, rs).objects <==> k in d.objects)
        ensures d.err.None? && k in d.objects ==> CreateAll(d.objects, rejected, rs).objects[k] == d.objects[k]
      {
        if k != PoolKey(p) {
          DeleteAllFrame(m, rejected, [Legacy(p)], k);
        }
        FragmentHasNoLegacyKey(p, k);
        CreateAllFrame(d.objects, rejected, rs, k);
      }
      if d.err.None? {
        DeleteAllOnSuccess(m, rejected, [Legacy(p)]);
      }
    }
  }

  /** A pool of an unknown protocol stops its round before the store is touched. */
  lemma MigratePoolUnsupported(m: map<Key, Resource>, rejected: set<Key>, p: AddressPool)
    requires !SupportedProtocol(p)
    ensures MigratePool(m, rejected, p) == Outcome(m, Some(UnsupportedProtocol(p)))
  {
  }

  /**
   * A round succeeds exactly when the protocol is known, the store accepts
   * the delete of the pool, and none of its replacements' keys is taken or
   * refused.
   */
  lemma MigratePoolSucceedsIff(m: map<Key, Resource>, rejected: set<Key>, p: AddressPool)
    ensures MigratePool(m, rejected, p).err.None? <==>
      && SupportedProtocol(p)
      && PoolKey(p) !in rejected
      && (forall k :: k in KeysOf(FragmentOf(p)) ==> k !in m && k !in rejected)
  {
    if SupportedProtocol(p) {
      var rs := FragmentOf(p);
      var d := DeleteAll(m, rejected, [Legacy(p)]);
      DeleteAllSucceedsIff(m, rejected, [Legacy(p)]);
      if d.err.None? {
        assert KeysOf([Legacy(p)]) == {PoolKey(p)};
        DeleteAllOnSuccess(m, rejected, [Legacy(p)]);
        CreateAllSucceedsIff(d.objects, rejected, rs);
        FragmentDistinct(p);
        FragmentHasNoLegacyKey(p, PoolKey(p));
        assert (forall i :: 0 <= i < |rs| ==> KeyOf(rs[i]) !in rejected && KeyOf(rs[i]) !in d.objects)
           <==> (forall k :: k in KeysOf(rs) ==> k !in m && k !in rejected);
      }
    }
  }

  /**
   * A successful round replaces the pool by its converted objects: the pool's
   * key is gone, the replacements are stored under their keys, and every
   * other entry is as it was.
   */
  lemma MigratePoolSuccess(m: map<Key, Resource>, rejected: set<Key>, p: AddressPool)
    requires MigratePool(m, rejected, p).err.None?
    ensures SupportedProtocol(p)
    ensures var o, rs := MigratePool(m, rejected, p).objects, FragmentOf(p);
      && o.Keys == (m.Keys - {PoolKey(p)}) + KeysOf(rs)
      && (forall k :: k in m && k != PoolKey(p) ==> o[k] == m[k])
      && (forall i :: 0 <= i < |rs| ==> o[KeyOf(rs[i])] == rs[i])
  {
    var rs := FragmentOf(p);
    assert KeysOf([Legacy(p)]) == {PoolKey(p)};
    DeleteAllOnSuccess(m, rejected, [Legacy(p)]);
    CreateAllOnSuccess(m - {PoolKey(p)}, rejected, rs);
  }

  /**
   * The round is not atomic: when creating the replacements fails after the
   * pool was deleted, the pool is gone and only the replacements before the
   * failing one exist.
   */
  lemma MigratePoolLeavesGap(m: map<Key, Resource>, rejected: set<Key>, p: AddressPool)
    requires SupportedProtocol(p) && PoolKey(p) in m && PoolKey(p) !in rejected
    requires MigratePool(m, rejected, p).err.Some?
    ensures var o, rs := MigratePool(m, rejected, p), FragmentOf(p);
      && PoolKey(p) !in o.objects
      && exists j ::
           && 0 <= j < |rs|
           && o.objects == CreateAll(m - {PoolKey(p)}, rejected, rs[..j]).objects
           && o.err.value.CreateFailed? && o.err.value.resource == rs[j]
  {
    var rs := FragmentOf(p);
    var d := DeleteAll(m, rejected, [Legacy(p)]);
    assert d == Outcome(m - {PoolKey(p)}, None) by {
      assert DeleteError(m, rejected, KeyOf(Legacy(p))) == None;
      assert [Legacy(p)][1..] == [];
      assert DeleteAll(m - {PoolKey(p)}, rejected, []) == Outcome(m - {PoolKey(p)}, None);
    }
    CreateAllStopsAtFirstFailure(d.objects, rejected, rs);
    FragmentHasNoLegacyKey(p, PoolKey(p));
    CreateAllFrame(d.objects, rejected, rs, PoolKey(p));
  }

  lemma KeyOfMember(rs: seq<Resource>, r: Resource)
    requires r in rs
    ensures KeyOf(r) in KeysOf(rs)
  {
    var i :| 0 <= i < |rs| && rs[i] == r;
  }

  /** Current objects never occupy an AddressPool key. */
  lemma CurrentKeysNotLegacy(c: CurrentObjects, k: Key)
    requires k.kind == AddressPoolKind
    ensures k !in KeysOf(CurrentResources(c))
  {
    var ips := IPAddressPoolResources(c.ipAddressPools);
    var bgps := BGPAdvertisementResources(c.bgpAdvertisements);
    var l2s := L2AdvertisementResources(c.l2Advertisements);
    var rs := CurrentResources(c);
    forall i | 0 <= i < |rs| ensures KeyOf(rs[i]) != k {
      if i < |ips| {
        assert rs[i] == ips[i];
      } else if i < |ips| + |bgps| {
        assert rs[i] == bgps[i - |ips|];
      } else {
        assert rs[i] == l2s[i - |ips| - |bgps|];
      }
    }
  }

  /** The resources of two concatenated object sets are those of each. */
  lemma CurrentResourcesAppend(c: CurrentObjects, f: CurrentObjects)
    ensures forall r :: r in CurrentResources(Append(c, f)) <==> r in CurrentResources(c) || r in CurrentResources(f)
    ensures KeysOf(CurrentResources(Append(c, f))) == KeysOf(CurrentResources(c)) + KeysOf(CurrentResources(f))
  {
    var a := Append(c, f);
    assert IPAddressPoolResources(a.ipAddressPools)
      == IPAddressPoolResources(c.ipAddressPools) + IPAddressPoolResources(f.ipAddressPools);
    assert BGPAdvertisementResources(a.bgpAdvertisements)
      == BGPAdvertisementResources(c.bgpAdvertisements) + BGPAdvertisementResources(f.bgpAdvertisements);
    assert L2AdvertisementResources(a.l2Advertisements)
      == L2AdvertisementResources(c.l2Advertisements) + L2AdvertisementResources(f.l2Advertisements);
    var rc, rf, ra := CurrentResources(c), CurrentResources(f), CurrentResources(a);
    forall k | k in KeysOf(ra) ensures k in KeysOf(rc) + KeysOf(rf) {
      var i :| 0 <= i < |ra| && KeyOf(ra[i]) == k;
      if ra[i] in rc { KeyOfMember(rc, ra[i]); } else { KeyOfMember(rf, ra[i]); }
    }
    forall k | k in KeysOf(rc) + KeysOf(rf) ensures k in KeysOf(ra) {
      if k in KeysOf(rc) {
        var i :| 0 <= i < |rc| && KeyOf(rc[i]) == k;
        KeyOfMember(ra, rc[i]);
      } else {
        var i :| 0 <= i < |rf| && KeyOf(rf[i]) == k;
        KeyOfMember(ra, rf[i]);
      }
    }
  }

  lemma PoolKeysSnoc(ps: seq<AddressPool>, p: AddressPool)
    ensures PoolKeys(ps + [p]) == PoolKeys(ps) + {PoolKey(p)}
  {
    var qs := ps + [p];
    assert forall i :: 0 <= i < |ps| ==> qs[i] == ps[i];
    assert qs[|ps|] == p;
  }

  /**
   * `o` is `m` with the keys `gone` removed and the resources `rs` stored
   * under their keys, every other entry unchanged.
   */
  ghost predicate ReplacedBy(m: map<Key, Resource>, gone: set<Key>, rs: seq<Resource>, o: map<Key, Resource>) {
    && o.Keys == (m.Keys - gone) + KeysOf(rs)
    && (forall k :: k in m && k !in gone ==> o[k] == m[k])
    && (forall r :: r in rs ==> o[KeyOf(r)] == r)
  }

  /** Replacing in two steps is replacing once with the union of what was removed and of what was stored. */
  lemma ReplacedByStep(m: map<Key, Resource>, gone: set<Key>, rc: seq<Resource>, o': map<Key, Resource>,
                       pk: Key, rf: seq<Resource>, o: map<Key, Resource>, ra: seq<Resource>)
    requires ReplacedBy(m, gone, rc, o') && ReplacedBy(o', {pk}, rf, o)
    requires pk !in KeysOf(rc)
    requires forall r :: r in ra <==> r in rc || r in rf
    requires KeysOf(ra) == KeysOf(rc) + KeysOf(rf)
    ensures ReplacedBy(m, gone + {pk}, ra, o)
  {
    forall r | r in rc ensures o[KeyOf(r)] == r {
      KeyOfMember(rc, r);
    }
  }

  /**
   * The online loop and the offline conversion agree: after rounds on `ps`
   * that all succeed, the store holds exactly the conversion of `ps` in
   * place of those pools, and every other entry is as it was.
   */
  lemma {:induction false} MigratePoolsMatchesConversion(m: map<Key, Resource>, rejected: set<Key>, ps: seq<AddressPool>)
    requires MigratePools(m, rejected, ps).err.None?
    ensures ConvertAll(ps).Ok?
    ensures ReplacedBy(m, PoolKeys(ps), CurrentResources(ConvertAll(ps).value), MigratePools(m, rejected, ps).objects)
    decreases |ps|
  {
    if ps == [] {
      assert PoolKeys(ps) == {};
      assert KeysOf(CurrentResources(NoCurrentObjects)) == {};
    } else {
      var n := |ps| - 1;
      var pre, p := ps[..n], ps[n];
      assert ps == pre + [p];
      MigratePoolsMatchesConversion(m, rejected, pre);
      var o' := MigratePools(m, rejected, pre).objects;
      MigratePoolSuccess(o', rejected, p);
      var c, f := ConvertAll(pre).value, ConvertPool(p).value;
      assert ConvertAll(ps) == Ok(Append(c, f));
      var rf := CurrentResources(f);
      assert ReplacedBy(o', {PoolKey(p)}, rf, MigratePools(m, rejected, ps).objects) by {
        forall r | r in rf ensures MigratePools(m, rejected, ps).objects[KeyOf(r)] == r {
          var i :| 0 <= i < |rf| && rf[i] == r;
        }
      }
      CurrentResourcesAppend(c, f);
      CurrentKeysNotLegacy(c, PoolKey(p));
      PoolKeysSnoc(pre, p);
      ReplacedByStep(m, PoolKeys(pre), CurrentResources(c), o', PoolKey(p), rf,
        MigratePools(m, rejected, ps).objects, CurrentResources(Append(c, f)));
    }
  }

  /** Every key of the converted set belongs to the fragment of one of the pools. */
  lemma {:induction false} ConvertedKeysFromFragments(ps: seq<AddressPool>, k: Key)
    requires ConvertAll(ps).Ok? && k in KeysOf(CurrentResources(ConvertAll(ps).value))
    ensures exists i :: 0 <= i < |ps| && SupportedProtocol(ps[i]) && k in KeysOf(FragmentOf(ps[i]))
    decreases |ps|
  {
    assert KeysOf(CurrentResources(NoCurrentObjects)) == {};
    if ps != [] {
      var n := |ps| - 1;
      var pre, p := ps[..n], ps[n];
      var c, f := ConvertAll(pre).value, ConvertPool(p).value;
      CurrentResourcesAppend(c, f);
      if k in KeysOf(CurrentResources(c)) {
        ConvertedKeysFromFragments(pre, k);
        var i :| 0 <= i < |pre| && SupportedProtocol(pre[i]) && k in KeysOf(FragmentOf(pre[i]));
        assert ps[i] == pre[i];
      } else {
        assert SupportedProtocol(ps[n]) && k in KeysOf(FragmentOf(ps[n]));
      }
    }
  }

  /**
   * Rounds on distinct, known pools that the store does not refuse, into a
   * store where none of the replacement keys is taken, all succeed.
   */
  lemma {:induction false} MigratePoolsSucceed(m: map<Key, Resource>, rejected: set<Key>, ps: seq<AddressPool>)
    requires forall i :: 0 <= i < |ps| ==> SupportedProtocol(ps[i]) && PoolKey(ps[i]) !in rejected
    requires forall i, j :: 0 <= i < j < |ps| ==> PoolKey(ps[i]) != PoolKey(ps[j])
    requires forall i, k :: 0 <= i < |ps| && k in KeysOf(FragmentOf(ps[i])) ==> k !in m && k !in rejected
    ensures MigratePools(m, rejected, ps).err.None?
    decreases |ps|
  {
    if ps != [] {
      var n := |ps| - 1;
      var pre, p := ps[..n], ps[n];
      assert forall i :: 0 <= i < n ==> pre[i] == ps[i];
      MigratePoolsSucceed(m, rejected, pre);
      MigratePoolsMatchesConversion(m, rejected, pre);
      var o' := MigratePools(m, rejected, pre).objects;
      forall k | k in KeysOf(FragmentOf(p)) ensures k !in o' && k !in rejected {
        if k in KeysOf(CurrentResources(ConvertAll(pre).value)) {
          ConvertedKeysFromFragments(pre, k);
          var i :| 0 <= i < |pre| && SupportedProtocol(pre[i]) && k in KeysOf(FragmentOf(pre[i]));
          FragmentsDisjoint(pre[i], p);
          assert false;
        }
      }
      MigratePoolSucceedsIff(o', rejected, p);
    }
  }

  /** Keys of kind `kind` stored in `m`. */
  function KindKeys(m: map<Key, Resource>, kind: Kind): set<Key> {
    set k | k in m && k.kind == kind
  }

  /** Storing a resource under a new key adds that key to its kind and to no other. */
  lemma KindKeysInsert(m: map<Key, Resource>, r: Resource, kind: Kind)
    requires KeyOf(r) !in m
    ensures |KindKeys(m[KeyOf(r) := r], kind)| == |KindKeys(m, kind)| + (if KeyOf(r).kind == kind then 1 else 0)
  {
    var k := KeyOf(r);
    if k.kind == kind {
      assert KindKeys(m[k := r], kind) == KindKeys(m, kind) + {k};
      assert k !in KindKeys(m, kind);
    } else {
      assert KindKeys(m[k := r], kind) == KindKeys(m, kind);
    }
  }

  /** A successful create walk adds exactly the members of each kind. */
  lemma {:induction false} CreateAllKindCount(m: map<Key, Resource>, rejected: set<Key>, rs: seq<Resource>, kind: Kind)
    requires CreateAll(m, rejected, rs).err.None?
    ensures |KindKeys(CreateAll(m, rejected, rs).objects, kind)| == |KindKeys(m, kind)| + CountKind(rs, kind)
    decreases |rs|
  {
    if rs != [] {
      var r := rs[0];
      assert CreateError(m, rejected, r).None?;
      KindKeysInsert(m, r, kind);
      CreateAllKindCount(m[KeyOf(r) := r], rejected, rs[1..], kind);
    }
  }

  /** Removing a key takes it from its kind and from no other. */
  lemma KindKeysRemove(m: map<Key, Resource>, k: Key, kind: Kind)
    ensures |KindKeys(m - {k}, kind)| == |KindKeys(m, kind)| - (if k in m && k.kind == kind then 1 else 0)
  {
    if k in m && k.kind == kind {
      assert KindKeys(m - {k}, kind) == KindKeys(m, kind) - {k};
    } else {
      assert KindKeys(m - {k}, kind) == KindKeys(m, kind);
    }
  }

  /** What a successful round adds and removes, kind by kind. */
  lemma MigratePoolCounts(m: map<Key, Resource>, rejected: set<Key>, p: AddressPool)
    requires MigratePool(m, rejected, p).err.None?
    ensures var o := MigratePool(m, rejected, p).objects;
      && |KindKeys(o, IPAddressPoolKind)| == |KindKeys(m, IPAddressPoolKind)| + 1
      && |KindKeys(o, L2AdvertisementKind)| == |KindKeys(m, L2AdvertisementKind)| + (if p.protocol == ProtocolLayer2 then 1 else 0)
      && |KindKeys(o, BGPAdvertisementKind)| == |KindKeys(m, BGPAdvertisementKind)| + (if p.protocol == ProtocolBGP then |EffectiveAdvertisements(p)| else 0)
      && |KindKeys(o, AddressPoolKind)| == |KindKeys(m, AddressPoolKind)| - (if PoolKey(p) in m then 1 else 0)
  {
    var d := m - {PoolKey(p)};
    assert KeysOf([Legacy(p)]) == {PoolKey(p)};
    DeleteAllOnSuccess(m, rejected, [Legacy(p)]);
    var rs := FragmentOf(p);
    assert MigratePool(m, rejected, p) == CreateAll(d, rejected, rs);
    FragmentCounts(p);
    KindKeysRemove(m, PoolKey(p), IPAddressPoolKind);
    KindKeysRemove(m, PoolKey(p), L2AdvertisementKind);
    KindKeysRemove(m, PoolKey(p), BGPAdvertisementKind);
    KindKeysRemove(m, PoolKey(p), AddressPoolKind);
    CreateAllKindCount(d, rejected, rs, IPAddressPoolKind);
    CreateAllKindCount(d, rejected, rs, L2AdvertisementKind);
    CreateAllKindCount(d, rejected, rs, BGPAdvertisementKind);
    CreateAllKindCount(d, rejected, rs, AddressPoolKind);
  }

  /**
   * Rounds that all succeed on distinct stored pools remove those pools and
   * add one IPAddressPool per pool, one L2Advertisement per layer2 pool and
   * one BGPAdvertisement per (effective) advertisement of a bgp pool.
   */
  lemma {:induction false} MigrationCounts(m: map<Key, Resource>, rejected: set<Key>, ps: seq<AddressPool>)
    requires MigratePools(m, rejected, ps).err.None?
    requires forall i :: 0 <= i < |ps| ==> PoolKey(ps[i]) in m
    requires forall i, j :: 0 <= i < j < |ps| ==> PoolKey(ps[i]) != PoolKey(ps[j])
    ensures var o := MigratePools(m, rejected, ps).objects;
      && |KindKeys(o, AddressPoolKind)| == |KindKeys(m, AddressPoolKind)| - |ps|
      && |KindKeys(o, IPAddressPoolKind)| == |KindKeys(m, IPAddressPoolKind)| + |ps|
      && |KindKeys(o, L2AdvertisementKind)| == |KindKeys(m, L2AdvertisementKind)| + Layer2Count(ps)
      && |KindKeys(o, BGPAdvertisementKind)| == |KindKeys(m, BGPAdvertisementKind)| + BgpCount(ps)
    decreases |ps|
  {
    if ps != [] {
      var n := |ps| - 1;
      var pre, p := ps[..n], ps[n];
      assert forall i :: 0 <= i < n ==> pre[i] == ps[i];
      MigrationCounts(m, rejected, pre);
      MigratePoolsMatchesConversion(m, rejected, pre);
      var o' := MigratePools(m, rejected, pre).objects;
      assert PoolKey(p) !in PoolKeys(pre);
      CurrentKeysNotLegacy(ConvertAll(pre).value, PoolKey(p));
      assert PoolKey(p) in o';
      MigratePoolCounts(o', rejected, p);
    }
  }

  /**
   * Every round writes its pool to the same backup file and truncates it
   * first, so a backup directory ends up holding the last pool handed out
   * and none of the others.
   */
  lemma {:induction false} BackupKeepsLastPool(ps: seq<AddressPool>, backupDirectory: string, toJSON: bool)
    requires backupDirectory != "" && |ps| > 0
    ensures FilesAfter(map[], BackupWrites(ps, backupDirectory, toJSON))
         == map[OutputFileName("AddressPoolList") := [Legacy(ps[|ps| - 1])]]
    decreases |ps|
  {
    var n := |ps| - 1;
    var p := ps[n];
    var cols := LegacyCollections(LegacyObjects([p]));
    assert cols[0].items == [Legacy(p)];
    var e := Emission(FileIn(backupDirectory, OutputFileName("AddressPoolList")), false,
      if toJSON then Json else Yaml, "AddressPoolList", [Legacy(p)]);
    assert PrintFrom(cols, 1, backupDirectory, toJSON) == [];
    assert PrintObjects(cols, backupDirectory, toJSON) == [e];
    var before := BackupWrites(ps[..n], backupDirectory, toJSON);
    assert BackupWrites(ps, backupDirectory, toJSON) == before + [e];
    assert (before + [e])[..|before|] == before;
    if n > 0 {
      BackupKeepsLastPool(ps[..n], backupDirectory, toJSON);
    }
  }

  /** A proper subset of a finite set is smaller. */
  lemma {:induction false} ProperSubsetSmaller<T>(a: set<T>, b: set<T>)
    requires a < b
    ensures |a| < |b|
    decreases b
  {
    var x :| x in b && x !in a;
    assert a <= b - {x};
    if a != b - {x} {
      ProperSubsetSmaller(a, b - {x});
    }
  }

  /** One successful round keeps the loop state and leaves fewer AddressPools in the store. */
  lemma MigrationStep(m0: map<Key, Resource>, m: map<Key, Resource>, rejected: set<Key>, order: seq<AddressPool>, p: AddressPool)
    requires TakenFrom(m0, order) && Remaining(m0, m, order)
    requires PoolKey(p) in m && m[PoolKey(p)] == Legacy(p)
    ensures TakenFrom(m0, order + [p])
    ensures var o := MigratePool(m, rejected, p);
      o.err.None? ==> Remaining(m0, o.objects, order + [p]) && |LegacyKeys(o.objects)| < |LegacyKeys(m)|
  {
    var order' := order + [p];
    assert PoolKey(p) in LegacyKeys(m);
    assert forall i :: 0 <= i < |order| ==> order'[i] == order[i];
    var o := MigratePool(m, rejected, p);
    MigratePoolLegacyEffect(m, rejected, p);
    if o.err.None? {
      assert PoolKeys(order') == PoolKeys(order) + {PoolKey(p)} by {
        assert forall i :: 0 <= i < |order'| ==> PoolKey(order'[i]) in PoolKeys(order) + {PoolKey(p)};
        assert PoolKey(order'[|order|]) == PoolKey(p);
      }
      assert LegacyKeys(o.objects) < LegacyKeys(m);
      ProperSubsetSmaller(LegacyKeys(o.objects), LegacyKeys(m));
    }
  }

  /** A listing with no pool ends the loop: every original AddressPool has been migrated. */
  lemma MigrationDone(m0: map<Key, Resource>, m: map<Key, Resource>, order: seq<AddressPool>)
    requires TakenFrom(m0, order) && Remaining(m0, m, order) && IsListing(m, [])
    ensures LegacyKeys(m) == {} && PoolKeys(order) == LegacyKeys(m0)
  {
  }

  /** Conversion, deletion and creation of the one fetched pool (one pass of the loop body). */
  method MigrateRound(store: Store, fetched: LegacyObjects, ghost p: AddressPool) returns (err: Option<Error>)
    requires store.Valid() && fetched.addressPools == [p]
    modifies store
    ensures store.Valid()
    ensures Outcome(store.objects, err) == MigratePool(old(store.objects), store.rejected, p)
  {
    // Conversion step.
    var converted := Convert(fetched);
    ConvertSinglePool(p);
    if converted.Err? {
      return Some(converted.error);
    }
    // Migration step.
    assert LegacyResources(fetched) == [Legacy(p)];
    err := DeleteLegacyObjects(fetched, store);
    if err.Some? {
      return err;
    }
    err := CreateCurrentObjects(converted.value, store);
  }

  /**
   * OnlineMigration. `order` is the order in which the store handed out the
   * pools (it is left open); `backups` are the writes of the backup step.
   */
  method OnlineMigration(store: Store, backupDirectory: string, toJSON: bool)
    returns (err: Option<Error>, backups: seq<Emission>, ghost order: seq<AddressPool>)
    requires store.Valid()
    modifies store
    ensures store.Valid()
    ensures store.listFails ==> err == Some(ListFailed) && order == [] && store.objects == old(store.objects)
    ensures !store.listFails ==> Outcome(store.objects, err) == MigratePools(old(store.objects), store.rejected, order)
    ensures TakenFrom(old(store.objects), order)
    ensures backups == BackupWrites(order, backupDirectory, toJSON)
    ensures err.None? ==> LegacyKeys(store.objects) == {} && PoolKeys(order) == LegacyKeys(old(store.objects))
  {
    order := [];
    backups := [];
    while true
      invariant store.Valid()
      invariant store.listFails ==> order == [] && store.objects == old(store.objects)
      invariant MigratePools(old(store.objects), store.rejected, order) == Outcome(store.objects, None)
      invariant TakenFrom(old(store.objects), order) && Remaining(old(store.objects), store.objects, order)
      invariant backups == BackupWrites(order, backupDirectory, toJSON)
      decreases |LegacyKeys(store.objects)|
    {
      // Retrieval step.
      var fetched, listed := ReadLegacyObjectsFromAPI(store, 1);
      if fetched.Err? {
        return Some(fetched.error), backups, order;
      }
      if |fetched.value.addressPools| == 0 {
        MigrationDone(old(store.objects), store.objects, order);
        break;
      }
      var ap := fetched.value.addressPools[0];
      assert fetched.value.addressPools == [ap] && ap == listed[0];
      MigrationStep(old(store.objects), store.objects, store.rejected, order, ap);
      MigratePoolsSnoc(old(store.objects), store.rejected, order, ap);
      BackupWritesSnoc(order, ap, backupDirectory, toJSON);
      // Backup step.
      backups := backups + PrintObjects(LegacyCollections(fetched.value), backupDirectory, toJSON);
      order := order + [ap];
      err := MigrateRound(store, fetched.value, ap);
      if err.Some? {
        return err, backups, order;
      }
    }
    err := None;
  }

  /** What the offline driver produces from the fetched pools: their conversion, written out. */
  function ConvertAndPrint(pools: seq<AddressPool>, outputDirectory: string, toJSON: bool): Result<seq<Emission>, Error> {
    match ConvertAll(pools)
    case Err(e) => Err(e)
    case Ok(c) => Ok(PrintObjects(CurrentCollections(c), outputDirectory, toJSON))
  }

  /**
   * The offline output fails exactly when a pool has an unknown protocol, and
   * then the error names the first such pool.
   */
  lemma OfflineOutputSucceedsIff(pools: seq<AddressPool>, outputDirectory: string, toJSON: bool)
    ensures ConvertAndPrint(pools, outputDirectory, toJSON).Ok? <==> forall i :: 0 <= i < |pools| ==> SupportedProtocol(pools[i])
    ensures ConvertAndPrint(pools, outputDirectory, toJSON).Err? ==>
      exists j :: 0 <= j < |pools| && !SupportedProtocol(pools[j])
        && (forall i :: 0 <= i < j ==> SupportedProtocol(pools[i]))
        && ConvertAndPrint(pools, outputDirectory, toJSON).error == UnsupportedProtocol(pools[j])
  {
    ConvertAllSucceedsIff(pools);
  }

  /**
   * A successful offline output carries every converted object,
   * IPAddressPools then L2Advertisements then BGPAdvertisements, in
   * non-empty writes to `<Kind>.yaml` files or to stdout; each write is one
   * whole list of the converted set, and each non-empty list is written.
   */
  lemma OfflineOutputWrites(pools: seq<AddressPool>, outputDirectory: string, toJSON: bool)
    requires ConvertAll(pools).Ok?
    ensures ConvertAndPrint(pools, outputDirectory, toJSON).Ok?
    ensures
      var es, c := ConvertAndPrint(pools, outputDirectory, toJSON).value, ConvertAll(pools).value;
      var ips, l2s, bgps := IPAddressPoolResources(c.ipAddressPools), L2AdvertisementResources(c.l2Advertisements),
                            BGPAdvertisementResources(c.bgpAdvertisements);
      && EmittedItems(es) == ips + l2s + bgps
      && (forall e :: e in es ==> |e.items| > 0)
      && (forall e :: e in es ==> e.format == (if toJSON then Json else Yaml))
      && (forall e :: e in es && outputDirectory != "" ==> e.sink == FileIn(outputDirectory, e.kind + ".yaml"))
      && (forall e :: e in es && outputDirectory == "" ==> e.sink == Stdout)
      && (forall e :: e in es ==>
            || WritesList(e, "IPAddressPoolList", ips, 0, outputDirectory)
            || WritesList(e, "L2AdvertisementList", l2s, 1, outputDirectory)
            || WritesList(e, "BGPAdvertisementList", bgps, 2, outputDirectory))
      && (ips != [] ==> exists e :: e in es && WritesList(e, "IPAddressPoolList", ips, 0, outputDirectory))
      && (l2s != [] ==> exists e :: e in es && WritesList(e, "L2AdvertisementList", l2s, 1, outputDirectory))
      && (bgps != [] ==> exists e :: e in es && WritesList(e, "BGPAdvertisementList", bgps, 2, outputDirectory))
  {
    var c := ConvertAll(pools).value;
    PrintObjectsWrites(CurrentCollections(c), outputDirectory, toJSON);
    CurrentCollectionsItems(c);
    CurrentWritesSound(c, outputDirectory, toJSON);
    CurrentWritesComplete(c, outputDirectory, toJSON);
  }

  /**
   * OfflineMigration: read the legacy set from the store (no limit) when no
   * input directory is given, else from the directory; then convert and write.
   * `listing` and `decode` stand for the directory contents and the decoder.
   */
  method OfflineMigration(store: Store, inputDirectory: string, listing: DirectoryListing,
                          decode: seq<byte> -> Result<Decoded, string>, outputDirectory: string, toJSON: bool)
    returns (r: Result<seq<Emission>, Error>, ghost fetched: seq<AddressPool>)
    requires store.Valid()
    ensures inputDirectory == "" && store.listFails ==> r == Err(ListFailed)
    ensures inputDirectory == "" && !store.listFails ==>
      IsListing(store.objects, fetched) && r == ConvertAndPrint(fetched, outputDirectory, toJSON)
    ensures inputDirectory != "" ==>
      r == match ReadDirectory(listing, decode)
           case Err(e) => Err(e)
           case Ok(l) => ConvertAndPrint(l.addressPools, outputDirectory, toJSON)
  {
    // Retrieval step.
    var legacy: Result<LegacyObjects, Error>;
    if inputDirectory == "" {
      legacy, fetched := ReadLegacyObjectsFromAPI(store, 0);
    } else {
      legacy := ReadLegacyObjectsFromDirectory(listing, decode);
      fetched := if legacy.Ok? then legacy.value.addressPools else [];
    }
    if legacy.Err? {
      return Err(legacy.error), fetched;
    }
    // Conversion step.
    var current := Convert(legacy.value);
    if current.Err? {
      return Err(current.error), fetched;
    }
    // Print step.
    r := Ok(PrintObjects(CurrentCollections(current.value), outputDirectory, toJSON));
  }
}
