/**
 * The MetalLB resource shapes the converter reads and writes: the legacy
 * AddressPool (pool plus protocol plus BGP tuning) and the current
 * IPAddressPool, L2Advertisement and BGPAdvertisement, together with the
 * store keys and the errors the converter reports.
 */
module Api {
  import opened Results

  newtype byte = x: int | 0 <= x < 0x100
  newtype int32 = x: int | -0x8000_0000 <= x < 0x8000_0000
  newtype uint32 = x: int | 0 <= x < 0x1_0000_0000

  const ProtocolBGP: string := "bgp"
  const ProtocolLayer2: string := "layer2"
  const MetallbAPIGroup: string := "metallb.io"
  /** The only legacy version the directory reader accepts. */
  const SupportedLegacyVersions: set<string> := {"v1beta1"}

  /** One entry of a legacy pool's bgpAdvertisements list; optional int32 fields stay absent when unset. */
  datatype LegacyBgpAdvertisement = LegacyBgpAdvertisement(
    aggregationLength: Option<int32>,
    aggregationLengthV6: Option<int32>,
    localPref: uint32,
    communities: seq<string>)

  /** The zero value a bgp pool without advertisements is given. */
  const EmptyLegacyBgpAdvertisement := LegacyBgpAdvertisement(None, None, 0, [])

  /** Legacy AddressPool; `autoAssign` is a pointer in the MetalLB API types, hence optional. */
  datatype AddressPool = AddressPool(
    name: string,
    namespace: string,
    protocol: string,
    addresses: seq<string>,
    autoAssign: Option<bool>,
    bgpAdvertisements: seq<LegacyBgpAdvertisement>)

  datatype IPAddressPool = IPAddressPool(
    name: string,
    namespace: string,
    addresses: seq<string>,
    autoAssign: Option<bool>)

  datatype L2Advertisement = L2Advertisement(
    name: string,
    namespace: string,
    ipAddressPools: seq<string>)

  datatype BGPAdvertisement = BGPAdvertisement(
    name: string,
    namespace: string,
    aggregationLength: Option<int32>,
    aggregationLengthV6: Option<int32>,
    localPref: uint32,
    communities: seq<string>,
    ipAddressPools: seq<string>)

  /** The legacy object set: one AddressPoolList. */
  datatype LegacyObjects = LegacyObjects(addressPools: seq<AddressPool>)

  /** The current object set: three lists, in the Go struct's field order. */
  datatype CurrentObjects = CurrentObjects(
    ipAddressPools: seq<IPAddressPool>,
    l2Advertisements: seq<L2Advertisement>,
    bgpAdvertisements: seq<BGPAdvertisement>)

  const NoCurrentObjects := CurrentObjects([], [], [])

  /** Kinds of resource the store holds. */
  datatype Kind = AddressPoolKind | IPAddressPoolKind | L2AdvertisementKind | BGPAdvertisementKind

  /** Store identity of a resource: kind, namespace and name. */
  datatype Key = Key(kind: Kind, namespace: string, name: string)

  datatype Resource =
    | Legacy(pool: AddressPool)
    | Pool(ipPool: IPAddressPool)
    | L2(l2: L2Advertisement)
    | Bgp(bgp: BGPAdvertisement)

  function KeyOf(r: Resource): Key {
    match r
    case Legacy(p) => Key(AddressPoolKind, p.namespace, p.name)
    case Pool(p) => Key(IPAddressPoolKind, p.namespace, p.name)
    case L2(a) => Key(L2AdvertisementKind, a.namespace, a.name)
    case Bgp(a) => Key(BGPAdvertisementKind, a.namespace, a.name)
  }

  function PoolKey(p: AddressPool): Key {
    KeyOf(Legacy(p))
  }

  /** The legacy set as the sequence of resources its Create and Delete visit. */
  function LegacyResources(l: LegacyObjects): (rs: seq<Resource>)
    ensures |rs| == |l.addressPools|
    ensures forall i :: 0 <= i < |rs| ==> rs[i] == Legacy(l.addressPools[i])
  {
    seq(|l.addressPools|, i requires 0 <= i < |l.addressPools| => Legacy(l.addressPools[i]))
  }

  function IPAddressPoolResources(ps: seq<IPAddressPool>): (rs: seq<Resource>)
    ensures |rs| == |ps| && forall i :: 0 <= i < |rs| ==> rs[i] == Pool(ps[i])
  {
    seq(|ps|, i requires 0 <= i < |ps| => Pool(ps[i]))
  }

  function BGPAdvertisementResources(bs: seq<BGPAdvertisement>): (rs: seq<Resource>)
    ensures |rs| == |bs| && forall i :: 0 <= i < |rs| ==> rs[i] == Bgp(bs[i])
  {
    seq(|bs|, i requires 0 <= i < |bs| => Bgp(bs[i]))
  }

  function L2AdvertisementResources(ls: seq<L2Advertisement>): (rs: seq<Resource>)
    ensures |rs| == |ls| && forall i :: 0 <= i < |rs| ==> rs[i] == L2(ls[i])
  {
    seq(|ls|, i requires 0 <= i < |ls| => L2(ls[i]))
  }

  /**
   * The current set as the sequence of resources its Create and Delete visit:
   * IPAddressPools, then BGPAdvertisements, then L2Advertisements.
   */
  function CurrentResources(c: CurrentObjects): seq<Resource> {
    IPAddressPoolResources(c.ipAddressPools)
    + BGPAdvertisementResources(c.bgpAdvertisements)
    + L2AdvertisementResources(c.l2Advertisements)
  }

  /** Failures the store itself reports. */
  datatype StoreError = NotFound | AlreadyExists | Rejected

  /** The converter's error taxonomy, with the context each message carries. */
  datatype Error =
    | InvalidLimit(limit: int)
    | ListFailed
    | DirectoryUnreadable
    | FileUnreadable(fileName: string)
    | DecodeFailed(reason: string)
    | InvalidGroup(group: string)
    | InvalidVersion(version: string)
    | UnsupportedKind(kind: string)
    | UnsupportedProtocol(pool: AddressPool)
    | DeleteFailed(resource: Resource, cause: StoreError)
    | CreateFailed(resource: Resource, cause: StoreError)
}
