/**
 * The keys a converted pool occupies in the store. The naming scheme keeps
 * the objects of one pool apart from each other and from those of every
 * other pool, which is what lets migration create them without collisions.
 */
module Fragments {
  import opened Results
  import opened Api
  import opened Names
  import opened Conversion
  import opened Lifecycle

  /** The resources one supported pool becomes, in creation order. */
  function FragmentOf(p: AddressPool): seq<Resource>
    requires SupportedProtocol(p)
  {
    CurrentResources(ConvertPool(p).value)
  }

  /**
   * The i-th resource of a fragment: the IPAddressPool named like the pool
   * first, then the BGPAdvertisement with index i - 1 or the L2Advertisement;
   * all in the pool's namespace and none of them an AddressPool.
   */
  lemma FragmentShape(p: AddressPool, i: nat)
    requires SupportedProtocol(p) && i < |FragmentOf(p)|
    ensures var k := KeyOf(FragmentOf(p)[i]);
      && k.namespace == p.namespace
      && k.kind != AddressPoolKind
      && (k.kind == IPAddressPoolKind <==> i == 0)
      && (k.kind == IPAddressPoolKind ==> k.name == p.name)
      && (k.kind == L2AdvertisementKind ==> i == 1 && k.name == L2AdvertisementName(p.name))
      && (k.kind == BGPAdvertisementKind ==> i >= 1 && k.name == BgpAdvertisementName(p.name, i - 1))
  {
    var c := ConvertPool(p).value;
    var ips := IPAddressPoolResources(c.ipAddressPools);
    var bgps := BGPAdvertisementResources(c.bgpAdvertisements);
    assert FragmentOf(p) == ips + bgps + L2AdvertisementResources(c.l2Advertisements);
    if i >= 1 && p.protocol == ProtocolBGP {
      assert FragmentOf(p)[i] == bgps[i - 1];
    }
  }

  /** No two resources of one fragment share a key. */
  lemma FragmentDistinct(p: AddressPool)
    requires SupportedProtocol(p)
    ensures DistinctKeys(FragmentOf(p))
  {
    var rs := FragmentOf(p);
    forall i, j | 0 <= i < j < |rs| ensures KeyOf(rs[i]) != KeyOf(rs[j]) {
      FragmentShape(p, i);
      FragmentShape(p, j);
      if KeyOf(rs[i]) == KeyOf(rs[j]) && KeyOf(rs[i]).kind == BGPAdvertisementKind {
        BgpAdvertisementNameInjective(p.name, i - 1, p.name, j - 1);
      }
    }
  }

  /** Pools with different keys have fragments with no key in common. */
  lemma FragmentsDisjoint(p: AddressPool, q: AddressPool)
    requires SupportedProtocol(p) && SupportedProtocol(q) && PoolKey(p) != PoolKey(q)
    ensures KeysOf(FragmentOf(p)) !! KeysOf(FragmentOf(q))
  {
    var rp, rq := FragmentOf(p), FragmentOf(q);
    forall i, j | 0 <= i < |rp| && 0 <= j < |rq| ensures KeyOf(rp[i]) != KeyOf(rq[j]) {
      FragmentShape(p, i);
      FragmentShape(q, j);
      var k := KeyOf(rp[i]);
      if k == KeyOf(rq[j]) {
        if k.kind == L2AdvertisementKind {
          L2AdvertisementNameInjective(p.name, q.name);
        } else if k.kind == BGPAdvertisementKind {
          BgpAdvertisementNameInjective(p.name, i - 1, q.name, j - 1);
        }
        assert false;
      }
    }
  }

  /** Number of resources of kind `kind` in `rs`. */
  function CountKind(rs: seq<Resource>, kind: Kind): nat {
    if rs == [] then 0
    else (if KeyOf(rs[0]).kind == kind then 1 else 0) + CountKind(rs[1..], kind)
  }

  lemma {:induction false} CountKindAppend(a: seq<Resource>, b: seq<Resource>, kind: Kind)
    ensures CountKind(a + b, kind) == CountKind(a, kind) + CountKind(b, kind)
    decreases |a|
  {
    if a != [] {
      assert (a + b)[1..] == a[1..] + b;
      CountKindAppend(a[1..], b, kind);
    } else {
      assert a + b == b;
    }
  }

  /** A sequence whose members all have kind `k` counts |rs| of kind `k` and none of any other. */
  lemma {:induction false} CountKindUniform(rs: seq<Resource>, k: Kind, kind: Kind)
    requires forall i :: 0 <= i < |rs| ==> KeyOf(rs[i]).kind == k
    ensures CountKind(rs, kind) == if kind == k then |rs| else 0
    decreases |rs|
  {
    if rs != [] {
      CountKindUniform(rs[1..], k, kind);
    }
  }

  /** How many resources of each kind a converted pool contributes. */
  lemma FragmentCounts(p: AddressPool)
    requires SupportedProtocol(p)
    ensures CountKind(FragmentOf(p), IPAddressPoolKind) == 1
    ensures CountKind(FragmentOf(p), L2AdvertisementKind) == if p.protocol == ProtocolLayer2 then 1 else 0
    ensures CountKind(FragmentOf(p), BGPAdvertisementKind) == if p.protocol == ProtocolBGP then |EffectiveAdvertisements(p)| else 0
    ensures CountKind(FragmentOf(p), AddressPoolKind) == 0
  {
    var c := ConvertPool(p).value;
    var ips := IPAddressPoolResources(c.ipAddressPools);
    var bgps := BGPAdvertisementResources(c.bgpAdvertisements);
    var l2s := L2AdvertisementResources(c.l2Advertisements);
    CountKindAppend(ips + bgps, l2s, IPAddressPoolKind);
    CountKindAppend(ips, bgps, IPAddressPoolKind);
    CountKindAppend(ips + bgps, l2s, L2AdvertisementKind);
    CountKindAppend(ips, bgps, L2AdvertisementKind);
    CountKindAppend(ips + bgps, l2s, BGPAdvertisementKind);
    CountKindAppend(ips, bgps, BGPAdvertisementKind);
    CountKindAppend(ips + bgps, l2s, AddressPoolKind);
    CountKindAppend(ips, bgps, AddressPoolKind);
    forall kind: Kind ensures CountKind(ips, kind) == if kind == IPAddressPoolKind then |ips| else 0 {
      CountKindUniform(ips, IPAddressPoolKind, kind);
    }
    forall kind: Kind ensures CountKind(bgps, kind) == if kind == BGPAdvertisementKind then |bgps| else 0 {
      CountKindUniform(bgps, BGPAdvertisementKind, kind);
    }
    forall kind: Kind ensures CountKind(l2s, kind) == if kind == L2AdvertisementKind then |l2s| else 0 {
      CountKindUniform(l2s, L2AdvertisementKind, kind);
    }
  }
}
