/** The objects the controller reads and writes: types/apis/macvlan/v1/types.go and
    the fields of a pod that the controller looks at. */
module Types {
  import opened Text

  datatype IPRange = IPRange(rangeStart: string, rangeEnd: string)

  datatype SubnetSpec = SubnetSpec(
    master: string, vlan: int, cidr: string, mode: string, gateway: string, ranges: seq<IPRange>)

  datatype Subnet = Subnet(name: string, labels: map<string, string>, spec: SubnetSpec)

  /** Listing the hosts of an IPv4 block comes to an end unless its prefix is 0. */
  predicate Listable(cidr: string) {
    ParseCIDR(cidr).Some? ==> ParseCIDR(cidr).value.bits != 0
  }

  /** A subnet whose hosts the controller can list. */
  type MacvlanSubnet = s: Subnet | Listable(s.spec.cidr)
    witness Subnet("", map[], SubnetSpec("", 0, "", "", "", []))

  datatype MacvlanIPSpec = MacvlanIPSpec(subnet: string, podId: string, cidr: string, mac: string)

  /** namespace and name of a pod or of the record that belongs to it */
  datatype Key = Key(namespace: string, name: string)

  datatype MacvlanIP = MacvlanIP(key: Key, subnetLabel: string, ownerUID: string, spec: MacvlanIPSpec)

  const ANNOTATION_IP := "macvlan.pandaria.cattle.io/ip"
  const ANNOTATION_SUBNET := "macvlan.pandaria.cattle.io/subnet"
  const ANNOTATION_MAC := "macvlan.pandaria.cattle.io/mac"

  /** SHA-1 in hexadecimal, taken to be injective: a digest is its preimage. */
  datatype Digest = Sha1(preimage: string)

  /** The two labels the controller writes: the hash of the address annotation and the
      selected address ("" when the label is absent). */
  datatype Labels = Labels(multipleIPHash: Option<Digest>, selectedIP: string)

  const NO_LABELS := Labels(None, "")

  datatype Pod = Pod(uid: string, annotations: map<string, string>, labels: Labels)
  {
    /** Reading an annotation that is absent gives the empty string. */
    function Annotation(key: string): string {
      if key in annotations then annotations[key] else ""
    }
  }
}
