/**
 * The schema expansion from the legacy object set to the current one: every
 * AddressPool gives one IPAddressPool, a layer2 pool one L2Advertisement, a
 * bgp pool one BGPAdvertisement per legacy advertisement (one empty one when
 * it declares none); any other protocol fails the whole conversion.
 */
module Conversion {
  import opened Results
  import opened Api
  import opened Names

  predicate SupportedProtocol(ap: AddressPool) {
    ap.protocol == ProtocolLayer2 || ap.protocol == ProtocolBGP
  }

  function IPAddressPoolOf(ap: AddressPool): IPAddressPool {
    IPAddressPool(ap.name, ap.namespace, ap.addresses, ap.autoAssign)
  }

  function L2AdvertisementOf(ap: AddressPool): L2Advertisement {
    L2Advertisement(L2AdvertisementName(ap.name), ap.namespace, [ap.name])
  }

  function BgpAdvertisementOf(ap: AddressPool, adv: LegacyBgpAdvertisement, index: nat): BGPAdvertisement {
    BGPAdvertisement(BgpAdvertisementName(ap.name, index), ap.namespace,
      adv.aggregationLength, adv.aggregationLengthV6, adv.localPref, adv.communities, [ap.name])
  }

  /** The (copied) advertisement list of a pool, with one empty entry when it declares none. */
  function EffectiveAdvertisements(ap: AddressPool): seq<LegacyBgpAdvertisement> {
    if |ap.bgpAdvertisements| == 0 then [EmptyLegacyBgpAdvertisement] else ap.bgpAdvertisements
  }

  function BgpAdvertisementsOf(ap: AddressPool): seq<BGPAdvertisement> {
    var advs := EffectiveAdvertisements(ap);
    seq(|advs|, i requires 0 <= i < |advs| => BgpAdvertisementOf(ap, advs[i], i))
  }

  /** What one pool contributes to the current object set. */
  function ConvertPool(ap: AddressPool): Result<CurrentObjects, Error> {
    if ap.protocol == ProtocolLayer2 then
      Ok(CurrentObjects([IPAddressPoolOf(ap)], [L2AdvertisementOf(ap)], []))
    else if ap.protocol == ProtocolBGP then
      Ok(CurrentObjects([IPAddressPoolOf(ap)], [], BgpAdvertisementsOf(ap)))
    else
      Err(UnsupportedProtocol(ap))
  }

  function Append(c: CurrentObjects, d: CurrentObjects): CurrentObjects {
    CurrentObjects(c.ipAddressPools + d.ipAddressPools,
                   c.l2Advertisements + d.l2Advertisements,
                   c.bgpAdvertisements + d.bgpAdvertisements)
  }

  /** Conversion of a whole pool list, pool by pool in input order; the first unsupported pool fails it. */
  function ConvertAll(pools: seq<AddressPool>): Result<CurrentObjects, Error> {
    if pools == [] then Ok(NoCurrentObjects)
    else Combine(ConvertAll(pools[..|pools| - 1]), ConvertPool(pools[|pools| - 1]))
  }

  /** The first error of the two, else the two object sets appended. */
  function Combine(x: Result<CurrentObjects, Error>, y: Result<CurrentObjects, Error>): Result<CurrentObjects, Error> {
    match x
    case Err(e) => Err(e)
    case Ok(c) =>
      match y
      case Err(e) => Err(e)
      case Ok(d) => Ok(Append(c, d))
  }

  lemma CombineAssociative(x: Result<CurrentObjects, Error>, y: Result<CurrentObjects, Error>, z: Result<CurrentObjects, Error>)
    ensures Combine(Combine(x, y), z) == Combine(x, Combine(y, z))
  {
    if x.Ok? && y.Ok? && z.Ok? {
      assert Append(Append(x.value, y.value), z.value) == Append(x.value, Append(y.value, z.value));
    }
  }

  /** Number of layer2 pools: the number of L2Advertisements conversion emits. */
  function Layer2Count(pools: seq<AddressPool>): nat {
    if pools == [] then 0
    else Layer2Count(pools[..|pools| - 1]) + (if pools[|pools| - 1].protocol == ProtocolLayer2 then 1 else 0)
  }

  /** Number of BGPAdvertisements conversion emits: one per advertisement of a bgp pool, at least one per bgp pool. */
  function BgpCount(pools: seq<AddressPool>): nat {
    if pools == [] then 0
    else
      var ap := pools[|pools| - 1];
      BgpCount(pools[..|pools| - 1]) + (if ap.protocol == ProtocolBGP then |EffectiveAdvertisements(ap)| else 0)
  }

  lemma {:induction false} ConvertAllErrorPersists(pools: seq<AddressPool>, k: nat)
    requires k <= |pools| && ConvertAll(pools[..k]).Err?
    ensures ConvertAll(pools) == ConvertAll(pools[..k])
    decreases |pools|
  {
    if k < |pools| {
      var init := pools[..|pools| - 1];
      assert init[..k] == pools[..k];
      ConvertAllErrorPersists(init, k);
    } else {
      assert pools[..k] == pools;
    }
  }

  /** Conversion fails exactly when some pool's protocol is neither layer2 nor bgp, and then it names the first such pool. */
  lemma {:induction false} ConvertAllSucceedsIff(pools: seq<AddressPool>)
    ensures ConvertAll(pools).Ok? <==> forall i :: 0 <= i < |pools| ==> SupportedProtocol(pools[i])
    ensures ConvertAll(pools).Err? ==>
      exists j :: 0 <= j < |pools| && !SupportedProtocol(pools[j])
        && (forall i :: 0 <= i < j ==> SupportedProtocol(pools[i]))
        && ConvertAll(pools).error == UnsupportedProtocol(pools[j])
  {
    if pools != [] {
      var n := |pools| - 1;
      var init := pools[..n];
      ConvertAllSucceedsIff(init);
      assert forall i :: 0 <= i < n ==> init[i] == pools[i];
      if ConvertAll(init).Err? {
        var j :| 0 <= j < n && !SupportedProtocol(init[j])
          && (forall i :: 0 <= i < j ==> SupportedProtocol(init[i]))
          && ConvertAll(init).error == UnsupportedProtocol(init[j]);
        assert pools[j] == init[j];
      } else if !SupportedProtocol(pools[n]) {
        assert ConvertAll(pools).error == UnsupportedProtocol(pools[n]);
      }
    }
  }

  /** Output sizes: one IPAddressPool per pool; L2 and BGP advertisements as counted by Layer2Count and BgpCount. */
  lemma {:induction false} ConvertAllSizes(pools: seq<AddressPool>)
    requires ConvertAll(pools).Ok?
    ensures |ConvertAll(pools).value.ipAddressPools| == |pools|
    ensures |ConvertAll(pools).value.l2Advertisements| == Layer2Count(pools)
    ensures |ConvertAll(pools).value.bgpAdvertisements| == BgpCount(pools)
  {
    if pools != [] {
      ConvertAllSizes(pools[..|pools| - 1]);
    }
  }

  /** The i-th IPAddressPool is the i-th pool's name, namespace, addresses and autoAssign, copied verbatim. */
  lemma {:induction false} ConvertAllIPAddressPools(pools: seq<AddressPool>)
    requires ConvertAll(pools).Ok?
    ensures |ConvertAll(pools).value.ipAddressPools| == |pools|
    ensures forall i :: 0 <= i < |pools| ==>
      var iap := ConvertAll(pools).value.ipAddressPools[i];
      iap.name == pools[i].name && iap.namespace == pools[i].namespace
      && iap.addresses == pools[i].addresses && iap.autoAssign == pools[i].autoAssign
  {
    if pools != [] {
      var n := |pools| - 1;
      ConvertAllIPAddressPools(pools[..n]);
      assert forall i :: 0 <= i < n ==> pools[..n][i] == pools[i];
    }
  }

  /** Converting a concatenation is converting each part and concatenating the three output lists. */
  lemma {:induction false} ConvertAllAppend(a: seq<AddressPool>, b: seq<AddressPool>)
    ensures ConvertAll(a + b) == Combine(ConvertAll(a), ConvertAll(b))
    decreases |b|
  {
    if b == [] {
      assert a + b == a;
      assert ConvertAll(a).Ok? ==> Append(ConvertAll(a).value, NoCurrentObjects) == ConvertAll(a).value;
    } else {
      var n := |b| - 1;
      assert (a + b)[..|a + b| - 1] == a + b[..n];
      assert (a + b)[|a + b| - 1] == b[n];
      ConvertAllAppend(a, b[..n]);
      CombineAssociative(ConvertAll(a), ConvertAll(b[..n]), ConvertPool(b[n]));
    }
  }

  /** Converting a one-pool set yields exactly that pool's fragment. */
  lemma ConvertSinglePool(ap: AddressPool)
    ensures ConvertAll([ap]) == ConvertPool(ap)
  {
    assert [ap][..0] == [];
    if ConvertPool(ap).Ok? {
      assert Append(NoCurrentObjects, ConvertPool(ap).value) == ConvertPool(ap).value;
    }
  }

  /**
   * Pool i's fragment sits in the output at the position fixed by the pools
   * before it: input order is kept and nothing is merged across pools.
   */
  lemma ConvertAllPlacesFragment(pools: seq<AddressPool>, i: nat)
    requires i < |pools| && ConvertAll(pools).Ok?
    ensures ConvertPool(pools[i]).Ok?
    ensures
      var c, f := ConvertAll(pools).value, ConvertPool(pools[i]).value;
      var l, b := Layer2Count(pools[..i]), BgpCount(pools[..i]);
      && i < |c.ipAddressPools| && c.ipAddressPools[i] == f.ipAddressPools[0]
      && l + |f.l2Advertisements| <= |c.l2Advertisements|
      && c.l2Advertisements[l..l + |f.l2Advertisements|] == f.l2Advertisements
      && b + |f.bgpAdvertisements| <= |c.bgpAdvertisements|
      && c.bgpAdvertisements[b..b + |f.bgpAdvertisements|] == f.bgpAdvertisements
  {
    var pre, mid, post := pools[..i], [pools[i]], pools[i + 1..];
    assert pools == pre + mid + post;
    ConvertAllAppend(pre + mid, post);
    ConvertAllAppend(pre, mid);
    ConvertSinglePool(pools[i]);
    ConvertAllSizes(pre);
  }

  /** A layer2 pool gives its IPAddressPool and one L2Advertisement `<pool>-l2-advertisement` for that pool only; no BGPAdvertisement. */
  lemma Layer2PoolConversion(ap: AddressPool)
    requires ap.protocol == ProtocolLayer2
    ensures ConvertAll([ap]) == Ok(CurrentObjects(
      [IPAddressPool(ap.name, ap.namespace, ap.addresses, ap.autoAssign)],
      [L2Advertisement(ap.name + "-l2-advertisement", ap.namespace, [ap.name])],
      []))
  {
    ConvertSinglePool(ap);
  }

  /**
   * A bgp pool with n >= 1 legacy advertisements gives n BGPAdvertisements;
   * the i-th is `<pool>-bgp-advertisement-<i>` and copies the i-th entry's
   * tuning fields verbatim (absent stays absent); no L2Advertisement.
   */
  lemma BgpPoolConversion(ap: AddressPool)
    requires ap.protocol == ProtocolBGP && |ap.bgpAdvertisements| >= 1
    ensures ConvertAll([ap]).Ok?
    ensures
      var c := ConvertAll([ap]).value;
      && c.ipAddressPools == [IPAddressPool(ap.name, ap.namespace, ap.addresses, ap.autoAssign)]
      && c.l2Advertisements == []
      && |c.bgpAdvertisements| == |ap.bgpAdvertisements|
      && forall i :: 0 <= i < |ap.bgpAdvertisements| ==>
        var ba, adv := c.bgpAdvertisements[i], ap.bgpAdvertisements[i];
        && ba.name == ap.name + "-bgp-advertisement-" + DecimalString(i)
        && ba.namespace == ap.namespace
        && ba.aggregationLength == adv.aggregationLength
        && ba.aggregationLengthV6 == adv.aggregationLengthV6
        && ba.localPref == adv.localPref
        && ba.communities == adv.communities
        && ba.ipAddressPools == [ap.name]
  {
    ConvertSinglePool(ap);
  }

  /** A bgp pool without advertisements gets exactly one, `<pool>-bgp-advertisement-0`, with every tuning field absent or zero. */
  lemma BgpPoolWithoutAdvertisements(ap: AddressPool)
    requires ap.protocol == ProtocolBGP && ap.bgpAdvertisements == []
    ensures ConvertAll([ap]) == Ok(CurrentObjects(
      [IPAddressPool(ap.name, ap.namespace, ap.addresses, ap.autoAssign)],
      [],
      [BGPAdvertisement(ap.name + "-bgp-advertisement-0", ap.namespace, None, None, 0, [], [ap.name])]))
  {
    ConvertSinglePool(ap);
    assert DecimalString(0) == "0";
    assert BgpAdvertisementInfix + "0" == "-bgp-advertisement-0";
    assert BgpAdvertisementName(ap.name, 0) == ap.name + "-bgp-advertisement-0";
    assert BgpAdvertisementsOf(ap) == [BgpAdvertisementOf(ap, EmptyLegacyBgpAdvertisement, 0)];
  }

  /** The inner loop over a bgp pool's (copied) advertisement list, appending one BGPAdvertisement each. */
  method AppendBgpAdvertisements(bal: seq<BGPAdvertisement>, ap: AddressPool) returns (r: seq<BGPAdvertisement>)
    ensures r == bal + BgpAdvertisementsOf(ap)
  {
    var legacyAdvertisements := ap.bgpAdvertisements;
    if |legacyAdvertisements| == 0 {
      legacyAdvertisements := legacyAdvertisements + [EmptyLegacyBgpAdvertisement];
    }
    r := bal;
    for j := 0 to |legacyAdvertisements|
      invariant legacyAdvertisements == EffectiveAdvertisements(ap)
      invariant r == bal + BgpAdvertisementsOf(ap)[..j]
    {
      var advertisement := legacyAdvertisements[j];
      r := r + [BGPAdvertisement(BgpAdvertisementName(ap.name, j), ap.namespace,
        advertisement.aggregationLength, advertisement.aggregationLengthV6,
        advertisement.localPref, advertisement.communities, [ap.name])];
      assert BgpAdvertisementsOf(ap)[..j + 1] == BgpAdvertisementsOf(ap)[..j] + [BgpAdvertisementsOf(ap)[j]];
    }
    assert BgpAdvertisementsOf(ap)[..|legacyAdvertisements|] == BgpAdvertisementsOf(ap);
  }

  /** The Go code's loop: three output lists built by appending, pool by pool. */
  method Convert(legacy: LegacyObjects) returns (r: Result<CurrentObjects, Error>)
    ensures r == ConvertAll(legacy.addressPools)
  {
    var pools := legacy.addressPools;
    var iapl: seq<IPAddressPool> := [];
    var l2al: seq<L2Advertisement> := [];
    var bal: seq<BGPAdvertisement> := [];
    for i := 0 to |pools|
      invariant ConvertAll(pools[..i]) == Ok(CurrentObjects(iapl, l2al, bal))
    {
      var ap := pools[i];
      ghost var before := CurrentObjects(iapl, l2al, bal);
      assert pools[..i + 1][..i] == pools[..i] && pools[..i + 1][i] == ap;
      iapl := iapl + [IPAddressPool(ap.name, ap.namespace, ap.addresses, ap.autoAssign)];
      if ap.protocol == ProtocolLayer2 {
        l2al := l2al + [L2Advertisement(L2AdvertisementName(ap.name), ap.namespace, [ap.name])];
      } else if ap.protocol == ProtocolBGP {
        bal := AppendBgpAdvertisements(bal, ap);
      } else {
        ConvertAllErrorPersists(pools, i + 1);
        return Err(UnsupportedProtocol(ap));
      }
      assert CurrentObjects(iapl, l2al, bal) == Append(before, ConvertPool(ap).value);
    }
    assert pools[..|pools|] == pools;
    return Ok(CurrentObjects(iapl, l2al, bal));
  }
}
