/**
 * The three-pool fixture the repository's tests use: a layer2 pool, a bgp
 * pool with two advertisements and a bgp pool with none, all in namespace
 * "metallb-system" with one address and auto-assign on.
 */
module Scenarios {
  import opened Results
  import opened Api
  import opened Names
  import opened Conversion
  import opened Store
  import opened Lifecycle
  import opened Fragments
  import opened Migration

  const Namespace: string := "metallb-system"
  const Addresses: seq<string> := ["192.168.100.100"]

  const ApL2 := AddressPool("ap-l2", Namespace, ProtocolLayer2, Addresses, Some(true), [])
  const ApBgp := AddressPool("ap-bgp", Namespace, ProtocolBGP, Addresses, Some(true), [
    LegacyBgpAdvertisement(Some(32), Some(64), 10, ["65432:12345"]),
    LegacyBgpAdvertisement(Some(32), Some(64), 11, ["65433:12346"])])
  const ApBgp2 := AddressPool("ap-bgp2", Namespace, ProtocolBGP, Addresses, Some(true), [])

  /** The fixture in the order a store listing by name hands it out. */
  const ListingOrder: seq<AddressPool> := [ApBgp, ApBgp2, ApL2]

  /** A store holding just the fixture. */
  const FixtureStore: map<Key, Resource> :=
    map[PoolKey(ApL2) := Legacy(ApL2), PoolKey(ApBgp) := Legacy(ApBgp), PoolKey(ApBgp2) := Legacy(ApBgp2)]

  /** The listing order converts pool by pool into the concatenation of the three fragments. */
  lemma ListingConversionShape()
    ensures ConvertAll(ListingOrder) == Ok(CurrentObjects(
      [IPAddressPoolOf(ApBgp), IPAddressPoolOf(ApBgp2), IPAddressPoolOf(ApL2)],
      [L2AdvertisementOf(ApL2)],
      BgpAdvertisementsOf(ApBgp) + BgpAdvertisementsOf(ApBgp2)))
  {
    ConvertSinglePool(ApBgp);
    assert ConvertPool(ApL2) == Ok(CurrentObjects([IPAddressPoolOf(ApL2)], [L2AdvertisementOf(ApL2)], []));
    assert ConvertPool(ApBgp) == Ok(CurrentObjects([IPAddressPoolOf(ApBgp)], [], BgpAdvertisementsOf(ApBgp)));
    assert ConvertPool(ApBgp2) == Ok(CurrentObjects([IPAddressPoolOf(ApBgp2)], [], BgpAdvertisementsOf(ApBgp2)));
    assert ListingOrder[..2] == [ApBgp, ApBgp2] && [ApBgp, ApBgp2][..1] == [ApBgp];
    assert ConvertAll([ApBgp, ApBgp2]) == Ok(Append(ConvertPool(ApBgp).value, ConvertPool(ApBgp2).value));
    assert ListingOrder[|ListingOrder| - 1] == ApL2;
    assert ConvertAll(ListingOrder) == Ok(Append(ConvertAll([ApBgp, ApBgp2]).value, ConvertPool(ApL2).value));
    assert [IPAddressPoolOf(ApBgp)] + [IPAddressPoolOf(ApBgp2)] + [IPAddressPoolOf(ApL2)]
        == [IPAddressPoolOf(ApBgp), IPAddressPoolOf(ApBgp2), IPAddressPoolOf(ApL2)];
    assert [] + [] + [L2AdvertisementOf(ApL2)] == [L2AdvertisementOf(ApL2)];
    assert BgpAdvertisementsOf(ApBgp) + BgpAdvertisementsOf(ApBgp2) + [] == BgpAdvertisementsOf(ApBgp) + BgpAdvertisementsOf(ApBgp2);
  }

  /** The by-name order is one listing the fixture store may hand out. */
  lemma ListingOrderIsListing()
    ensures IsListing(FixtureStore, ListingOrder)
  {
    assert FixtureStore.Keys == {PoolKey(ApL2), PoolKey(ApBgp), PoolKey(ApBgp2)};
    assert LegacyKeys(FixtureStore) == {PoolKey(ApL2), PoolKey(ApBgp), PoolKey(ApBgp2)};
    forall k | k in LegacyKeys(FixtureStore)
      ensures exists i :: 0 <= i < |ListingOrder| && PoolKey(ListingOrder[i]) == k
    {
      if k == PoolKey(ApBgp) {
        assert PoolKey(ListingOrder[0]) == k;
      } else if k == PoolKey(ApBgp2) {
        assert PoolKey(ListingOrder[1]) == k;
      } else {
        assert PoolKey(ListingOrder[2]) == k;
      }
    }
  }

  lemma FixtureNames()
    ensures L2AdvertisementName("ap-l2") == "ap-l2-l2-advertisement"
    ensures BgpAdvertisementName("ap-bgp", 0) == "ap-bgp-bgp-advertisement-0"
    ensures BgpAdvertisementName("ap-bgp", 1) == "ap-bgp-bgp-advertisement-1"
    ensures BgpAdvertisementName("ap-bgp2", 0) == "ap-bgp2-bgp-advertisement-0"
  {
    assert DigitChar(0) == '0' && DigitChar(1) == '1';
    assert DecimalString(0) == "0" && DecimalString(1) == "1";
    assert "ap-bgp" + BgpAdvertisementInfix == "ap-bgp-bgp-advertisement-";
    assert "ap-bgp2" + BgpAdvertisementInfix == "ap-bgp2-bgp-advertisement-";
  }

  /**
   * Offline conversion of the fixture as the store lists it (by name): the
   * IPAddressPools `ap-bgp`, `ap-bgp2`, `ap-l2`, the L2Advertisement
   * `ap-l2-l2-advertisement`, and the BGPAdvertisements
   * `ap-bgp-bgp-advertisement-0` and `-1` (local preference 10 and 11) and
   * `ap-bgp2-bgp-advertisement-0` (all tuning fields empty).
   */
  lemma OfflineFixture()
    ensures IsListing(FixtureStore, ListingOrder)
    ensures ConvertAll(ListingOrder).Ok?
    ensures var c := ConvertAll(ListingOrder).value;
      && |c.ipAddressPools| == 3
      && c.ipAddressPools[0].name == "ap-bgp" && c.ipAddressPools[1].name == "ap-bgp2" && c.ipAddressPools[2].name == "ap-l2"
      && c.l2Advertisements == [L2Advertisement("ap-l2-l2-advertisement", Namespace, ["ap-l2"])]
      && |c.bgpAdvertisements| == 3
      && c.bgpAdvertisements[0].name == "ap-bgp-bgp-advertisement-0" && c.bgpAdvertisements[0].localPref == 10
      && c.bgpAdvertisements[1].name == "ap-bgp-bgp-advertisement-1" && c.bgpAdvertisements[1].localPref == 11
      && c.bgpAdvertisements[2] == BGPAdvertisement("ap-bgp2-bgp-advertisement-0", Namespace, None, None, 0, [], ["ap-bgp2"])
  {
    ListingOrderIsListing();
    ListingConversionShape();
    FixtureNames();
    var b1, b2 := BgpAdvertisementsOf(ApBgp), BgpAdvertisementsOf(ApBgp2);
    assert |b1| == 2 && |b2| == 1;
    assert b1[0] == BgpAdvertisementOf(ApBgp, ApBgp.bgpAdvertisements[0], 0);
    assert b1[1] == BgpAdvertisementOf(ApBgp, ApBgp.bgpAdvertisements[1], 1);
    assert b2[0] == BgpAdvertisementOf(ApBgp2, EmptyLegacyBgpAdvertisement, 0);
    assert (b1 + b2)[0] == b1[0] && (b1 + b2)[1] == b1[1] && (b1 + b2)[2] == b2[0];
  }

  lemma FixtureStoreKinds()
    ensures |KindKeys(FixtureStore, AddressPoolKind)| == 3
    ensures KindKeys(FixtureStore, IPAddressPoolKind) == {}
    ensures KindKeys(FixtureStore, L2AdvertisementKind) == {}
    ensures KindKeys(FixtureStore, BGPAdvertisementKind) == {}
  {
    assert FixtureStore.Keys == {PoolKey(ApL2), PoolKey(ApBgp), PoolKey(ApBgp2)};
    assert KindKeys(FixtureStore, AddressPoolKind) == {PoolKey(ApL2), PoolKey(ApBgp), PoolKey(ApBgp2)};
  }

  lemma ListingOrderCounts()
    ensures Layer2Count(ListingOrder) == 1 && BgpCount(ListingOrder) == 3
  {
    var ps := ListingOrder;
    assert ps[..2] == [ApBgp, ApBgp2] && ps[..2][..1] == [ApBgp] && [ApBgp][..0] == [];
    assert Layer2Count([ApBgp]) == 0 && BgpCount([ApBgp]) == 2;
    assert Layer2Count([ApBgp, ApBgp2]) == 0 && BgpCount([ApBgp, ApBgp2]) == 3;
  }

  /** No round of the fixture fails. */
  lemma FixtureMigrationSucceeds()
    ensures MigratePools(FixtureStore, {}, ListingOrder).err.None?
  {
    var ps := ListingOrder;
    assert FixtureStore.Keys == {PoolKey(ApL2), PoolKey(ApBgp), PoolKey(ApBgp2)};
    forall i, k | 0 <= i < |ps| && k in KeysOf(FragmentOf(ps[i])) ensures k !in FixtureStore && k !in {} {
      if k.kind == AddressPoolKind {
        FragmentHasNoLegacyKey(ps[i], k);
      }
    }
    MigratePoolsSucceed(FixtureStore, {}, ps);
  }

  /**
   * Online migration of the fixture, in listing order, into a store that
   * holds only the fixture and refuses nothing: every round succeeds and
   * the store ends with no AddressPool, three IPAddressPools, one
   * L2Advertisement and three BGPAdvertisements.
   */
  lemma OnlineFixture()
    ensures var o := MigratePools(FixtureStore, {}, ListingOrder);
      && o.err.None?
      && |KindKeys(o.objects, AddressPoolKind)| == 0
      && |KindKeys(o.objects, IPAddressPoolKind)| == 3
      && |KindKeys(o.objects, L2AdvertisementKind)| == 1
      && |KindKeys(o.objects, BGPAdvertisementKind)| == 3
  {
    FixtureMigrationSucceeds();
    FixtureStoreKinds();
    ListingOrderCounts();
    assert FixtureStore.Keys == {PoolKey(ApL2), PoolKey(ApBgp), PoolKey(ApBgp2)};
    MigrationCounts(FixtureStore, {}, ListingOrder);
  }
}
