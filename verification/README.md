# network-controller: the macvlan address allocator

network-controller is a Kubernetes controller that gives pods addresses on macvlan networks. A pod asks for
an address by annotation: any address of a subnet (`auto`), one given address, or one of a list of addresses
joined by `-`. The controller works out which addresses of the subnet are free, labels the pod with the one
it has chosen, and creates a `MacvlanIP` record. This project models that allocator, from its arithmetic on
byte slices up to the running controller, and proves what it promises.

The modules, from the bottom up:

- `Bytes`, `Text`, `Subnetting`: the parts of Go's `net`, `bytes` and `strings` packages that the allocator
  uses, for IPv4. Addresses are byte strings in 4-byte form or in the IPv4-mapped form of section 2.5.5.2 of
  RFC 4291; CIDR notation is that of section 3.1 of RFC 4632. Their round trips, orders and interval
  properties are proved, none is taken for granted.
- `Ipcalc`: `ipcalc/ipcalc.go`. Address counters are arrays that are incremented in place; the range loop
  shares one array between its counter and its lower bound, as the source does. Map iteration may yield keys in
  any order.
- `Types`, `Ipalloc`: `controller/ipalloc.go`. Each method of the three modes is proved against a function on
  sets of addresses, and the promises are proved of those functions.
- `Protocol`: `doAddMacvlanIP` as a step system, cut at every API call, for any number of workers. Between any
  two steps pods, their cached copies, subnets and records may come, change and go, keys may be enqueued, and
  the controller may crash and start again. Every API call may fail, and a write may also be carried out with its
  reply lost.
- `Uniqueness`, `Races`, `Capacity`, `Records`, `Syncs`, `Drift`, `Macs`, `Groups`, `GroupRuns`, `GroupRaces`,
  `GroupSizes`, `Gateway`, `StoredGateway`: theorems over all runs of that system, and runs that show where a
  promise is not kept.
- `Purging`: which records a purge removes, whatever the cluster and the workers do between its calls.
- `Controller`: the worker loop, the sync, `purge` and the Add event of a subnet as methods of a class whose
  fields are the stores. A ghost field records the actions that have happened, and `Valid()` says that the
  stores and the worker are exactly what that run of the step system gives. So every method is a refinement of
  the step system, and its theorems hold of the class.

## Main results

1. **Uniqueness.** With at most one worker and every `List` of records answered, no two records of one subnet
   hold the same address, in any run and across all namespaces (`RunInv`). One worker is exactly what is
   needed: all runs are unique if and only if there is at most one (`UniqueExactlyUpToOneWorker`). Successful
   Lists are needed as well: after a failed one a sync in any mode repeats an address if and only if the address it
   then chooses is already recorded (`FailedListCollides`), and such a run exists (`FailedListRun`).
2. **Choice.** Which mode an annotation text has, which addresses a subnet hands out, what each mode gives and what
   text it records are stated exactly for all texts (`ModeExactly`, `HostsExactly`, `AutoGivesExactly`,
   `RequestedExactly`, `RecordTextExactly`). Auto mode gives the numerically least free address and fails exactly when
   there is none. A requested address is granted exactly when it is free. List mode picks the earliest listed
   text that no labelled pod holds, never goes on to a later one, and pairs it with the hardware address at the last
   place where that text is listed.
3. **Host lists.** `CIDRtoHosts` and `ParseIPRange` terminate and list exactly their sets in order, on all of
   the IPv4 address space including its last block; the number of hosts has a closed form. The loop over a block
   comes to an end if and only if its prefix is not 0.
4. **Capacity.** Take a moment when all records of a subnet, all workers' copies of it and its stored version fit it,
   as when nothing refers to it yet. As long as no write of the subnet frees an address outside, its records hold
   only its hosts and never its gateway; there are never more of them than such addresses, and an auto sync is
   refused if and only if there are as many. The Add events after every restart write the same spec and so keep this.
5. **List groups.** The pods that share the hash label of a list annotation hold pairwise different addresses in
   every run *if and only if* no text of the list, up to the first one that no subnet hands out, is written with
   needless leading zeros (`GroupsDistinctExactlyForSafeLists`). Canonical lists always satisfy this. That is with
   one worker; with more, the groups stay distinct if and only if no subnet hands out the first text, so that no pod
   is ever labelled (`GroupsDistinctForManyWorkers`). A group of a safe list never has more pods than the list has
   different texts before the first one that no subnet hands out, and the list is exhausted if and only if the group
   has as many pods as the list has different texts (`GroupNeverExceedsList`).
6. **Records.** A record never changes between creation and deletion, and at its creation the label written, the
   address chosen and the address read back from the record are one. Its hardware address is stated exactly for
   every mode and annotation (`RecordedMac`).
7. **Gateway.** The default gateway survives being printed and parsed, and is a host of its block exactly when the
   block has room for it. Storing it is not always enough: a sync that has read the subnet before goes on with its
   copy. From the moment it is stored, whatever has happened before, no run of one worker that keeps it ever records
   it if and only if no record holds it at that moment and the sync under way, if any, may not give it
   (`DefaultGatewayKeptExactly`); what such a sync may give is stated for every mode. For any number of workers a
   sufficient condition of the same kind is kept by every step. For a subnet without a gateway address it is stated
   for every set of records and every ranges exactly when each mode gives the default gateway out.
8. **Ranges.** The configured ranges hold allocation within them if and only if one of them holds an address, or the
   block has no host at all (`RangesRestrict`).

## Where the code differs from what its names and documentation suggest

The model follows the code.

- `artifacts/poc/macvlan-network.md:94` says that a hardware address can be set. It is read only if both annotations
  are lists joined by `-` (`controller/macvlanip.go:67-75`); a single one is ignored, and so is a list for a pod that
  asks for any address or for one. `RecordedMac` says exactly what a record carries, and `MacIsIgnored` gives a run
  for any annotation text of an auto pod.
- `artifacts/sample/pod-1.yml:10` asks for an address in CIDR notation. That is no known form, and the sync is given up
  without an error. See `CIDRAnnotationIsInvalid` and `InvalidIsGivenUp`.
- The error of the record `List` is overwritten (`controller/ipalloc.go:19-25`) and the client then returns an
  empty list, so the promise of `artifacts/poc/macvlan-network.md:122-124` that addresses are not repeated needs
  every List to be answered.
- A sync that returns no error need not have created a record (`controller/macvlanip.go:76-79` and `:107-110`).
  See `SyncWithoutError` and `GivingUpIsForgotten`.
- When a pod that has its record is synced again, the label is rewritten and the existing record is kept, so the
  label then names another address than the record. See `ResyncLabelDiffers`, and `LabelsDrift` for a run.
- Ranges that hold no address at all, because a bound does not parse or the bounds are reversed, leave the whole
  subnet available (`controller/ipalloc.go:64-70`). See `RangesRestrict` and `ReversedRangeIsIgnored`.
- A subnet whose CIDR text does not parse gets the text `<nil>` as its gateway
  (`controller/macvlansubnet.go:27-33`).
- The gateway is ruled out only in the copy of the subnet that a sync has read. A sync that has read it before the
  Add event stored the gateway can choose and record the gateway afterwards. See `LateGatewayRun` for a run, and
  `GatewayKeptExactly` for the condition.
- A gateway text that is set but is no address, such as one in CIDR notation, is left alone by the Add event
  (`controller/macvlansubnet.go:27`) and rules out nothing. See `DefaultsMaySetNone`, and `UnsetGatewayIsTaken` and
  `UnsetGatewayIsGranted` for what each mode then gives out.

## Model

| member | source | states |
|---|---|---|
| Bytes.CompareIsNumeric | ipcalc/ipcalc.go:25-30 | on byte strings of one length the sort order is the order of the big-endian values |
| Bytes.CompareAntisymmetric | ipcalc/ipcalc.go:25-30 | the comparison is three-way, total and antisymmetric, and 0 exactly for equal byte strings |
| Bytes.CompareTransitive | ipcalc/ipcalc.go:25-30 | the sort order is transitive on byte strings of any lengths |
| Bytes.AscendingUnique | ipcalc/ipcalc.go:54-59 | a strictly ascending list is determined by its members, so map order cannot show in a sorted result |
| Bytes.MappedRoundTrip | ipcalc/ipcalc.go:103 | the 16-byte and the 4-byte form of an address read back as that address |
| Bytes.AddrRoundTrip | controller/ipalloc.go:133-140 | a 16-byte IPv4-mapped slice is determined by its address |
| Bytes.MappedOrder | controller/ipalloc.go:133-140 | comparing the mapped forms of two addresses byte by byte decides which address is smaller and whether they are equal |
| Text.SplitJoin | controller/ipalloc.go:142-147 | splitting a joined list of texts without separators gives the list back |
| Text.JoinSplit | controller/ipalloc.go:142-147 | and joining the parts of any text gives the text back, so splitting is determined |
| Text.TrimOf | controller/ipalloc.go:146 | trimming takes away exactly the characters around a text that neither begins nor ends with them |
| Text.ParseAddrExactly | controller/ipalloc.go:96-98 | a text is an address exactly if it is four nonempty numerals of at most 255 with dots between them, and which address that is |
| Text.AddrTextOctets | controller/ipalloc.go:55 | the printed form of an address is its four bytes as numerals |
| Text.DecNoLeadingZero | controller/macvlansubnet.go:24 | printed numerals have no needless zeros |
| Text.ParseCIDRExactly | ipcalc/ipcalc.go:90-93 | CIDR text is well-formed exactly if it is an address and a prefix length of at most 32 with one slash between them |
| Text.AddrTextRoundTrip | ipcalc/ipcalc.go:149 | every address, printed and parsed, is the same address in 16-byte form |
| Text.AddrTextInjective | controller/ipalloc.go:86-91 | different addresses have different printed forms, so maps keyed by text lose nothing |
| Text.PaddedIsNotCanonical | controller/ipalloc.go:152-156 | every address has a second accepted text, with a leading zero, that printing does not give back |
| Text.CIDRTextRoundTrip | ipcalc/ipcalc.go:90-93 | every address and prefix length, printed in CIDR notation, parses back |
| Subnetting.MaskIsBase | ipcalc/ipcalc.go:96 | masking byte by byte rounds the address down to a multiple of the block size, for every prefix 0 to 32 |
| Subnetting.ContainsIsInterval | ipcalc/ipcalc.go:96 | the bytewise membership test holds exactly for the addresses from base to base plus block size |
| Subnetting.BlockEnd | ipcalc/ipcalc.go:96 | no block runs past 255.255.255.255 |
| Subnetting.CountingLeavesBlock | ipcalc/ipcalc.go:96 | counting up with wrap-around ever leaves the block if and only if the prefix is not 0, which is when the loop ends |
| Subnetting.BlockHostCount | ipcalc/ipcalc.go:95-105 | the number of host addresses of a block in closed form, for large blocks and for those inside one last octet |
| Ipcalc.IncIP | ipcalc/ipcalc.go:10-17 | the in-place loop turns the array, of any length, into its successor and changes nothing else |
| Ipcalc.SuccessorValue | ipcalc/ipcalc.go:10-17 | the successor of a k-byte string has its big-endian value plus 1 modulo 256^k |
| Ipcalc.Swap | ipcalc/ipcalc.go:32-34 | exactly the two named elements trade places |
| Ipcalc.Sort | ipcalc/ipcalc.go:58 | sorting in place through Less and Swap leaves a sorted permutation |
| Ipcalc.SortDistinct | ipcalc/ipcalc.go:54-59 | a list without repetitions is sorted into the strictly ascending list of its members |
| Ipcalc.Complement | ipcalc/ipcalc.go:36-60 | the strictly ascending list of the members of a that are not in b, whatever the map order, for byte strings of any kind |
| Ipcalc.Intersection | ipcalc/ipcalc.go:62-86 | the strictly ascending list of the common members, though the maps are keyed by printed text |
| Ipcalc.KeepCommon | ipcalc/ipcalc.go:75-79 | the deletion pass removes exactly the texts of the first list that the second lacks |
| Ipcalc.RemoveUsedHosts | ipcalc/ipcalc.go:109-112 | the hosts that are not used, strictly ascending |
| Ipcalc.GetUsableHosts | ipcalc/ipcalc.go:114-117 | the hosts that are usable, strictly ascending |
| Ipcalc.ComplementAddrs | ipcalc/ipcalc.go:36-60 | on mapped hosts the result lists the set difference of addresses, also when the used list holds nil or other slices |
| Ipcalc.IntersectionAddrs | ipcalc/ipcalc.go:62-86 | on mapped lists the result lists the intersection of their address sets |
| Ipcalc.BytesDecideAddress | controller/ipalloc.go:133-140 | looking for the bytes of a mapped address in any list decides whether its number is listed |
| Ipcalc.EnumerationUnique | ipcalc/ipcalc.go:54-59 | only one ascending mapped list has a given set of addresses |
| Ipcalc.EnumerationHead | controller/ipalloc.go:30-35 | the head of such a list is the numeric minimum of the set, and the list is empty exactly for the empty set |
| Ipcalc.EnumerationLength | ipcalc/ipcalc.go:95-106 | such a list is as long as its set is large |
| Ipcalc.AddHost | ipcalc/ipcalc.go:97-104 | one round skips last octets 0 and 255 and otherwise appends a new 16-byte slice, not the counter |
| Ipcalc.ListRound | ipcalc/ipcalc.go:96-105 | a whole round, increment included, leaves the slices already listed as they were |
| Ipcalc.ListBlock | ipcalc/ipcalc.go:95-106 | the loop terminates for every prefix 1 to 32, also where the counter wraps to 0.0.0.0, with exactly the hosts of the block in fresh slices |
| Ipcalc.CIDRtoHosts | ipcalc/ipcalc.go:89-107 | fails exactly on malformed text, otherwise lists exactly the hosts of the block in ascending order, as many as the closed form says |
| Ipcalc.CalcDefaultGateway | ipcalc/ipcalc.go:120-129 | fails exactly on malformed text, otherwise a new 4-byte slice holding the address after the base |
| Ipcalc.DefaultGatewayIsHost | ipcalc/ipcalc.go:119-129 | for prefixes up to 31 the default gateway is base + 1; it is a host of its block exactly for prefixes up to 30 and for those of 31 whose last octet is not 254 |
| Ipcalc.RangeBoundIsNumeric | ipcalc/ipcalc.go:132-137 | on slices of one length the bound test is numeric |
| Ipcalc.RangeTest | ipcalc/ipcalc.go:148 | with the counter as its own lower bound only the upper bound decides, also past the mapped prefix |
| Ipcalc.RangeListingRound | ipcalc/ipcalc.go:148-151 | while the test holds the counter is the mapped form of the next address of the range |
| Ipcalc.ParseIPRange | ipcalc/ipcalc.go:140-153 | terminates, also for an end of 255.255.255.255, and lists start, start + 1, up to end; nothing if a bound is malformed or the bounds are reversed |
| Ipcalc.CountsFromAddrs | ipcalc/ipcalc.go:140-153 | that list enumerates the interval from start to end |
| Ipalloc.RecordRoundTrip | controller/ipalloc.go:38-56 | the text stored for an address is read back as exactly that address, whatever text the subnet has as its CIDR |
| Ipalloc.RecordTextExactly | controller/ipalloc.go:49-56 | the record text is the printed address, a slash, and the part after the slash of the subnet's CIDR text if that has exactly one slash, otherwise nothing |
| Ipalloc.RecordTextParses | controller/ipalloc.go:49-56 | for a well-formed subnet the record text parses as that address with the prefix length of the subnet |
| Ipalloc.RecordedAddrExactly | controller/ipalloc.go:38-47 | a record text is read as an address exactly if that address is before its only slash |
| Ipalloc.ConvertToIPList | controller/ipalloc.go:38-47 | the used list holds exactly the addresses that the texts of the records denote |
| Ipalloc.RemoveDuplicatesFromSlice | controller/ipalloc.go:82-94 | keeps the first occurrence of every address, in order |
| Ipalloc.FirstOccurrencesMembers | controller/ipalloc.go:82-94 | the first occurrences have the same members, each once |
| Ipalloc.FirstOccurrencesOrder | controller/ipalloc.go:82-94 | they are the members at the positions where they first occur, in that order |
| Ipalloc.DuplicatesDoNotMatter | controller/ipalloc.go:64-68 | leaving out the removal of duplicates changes neither the intersection with the hosts nor whether the ranges count as empty |
| Ipalloc.RangeUnionMember | controller/ipalloc.go:73-80 | an address is in the union of the ranges exactly when some range holds it |
| Ipalloc.CalcHostsInRanges | controller/ipalloc.go:73-80 | lists the union of the ranges without repetitions |
| Ipalloc.SubnetHostsIgnoreRangeForm | controller/ipalloc.go:58-71 | ranges that cover the same addresses give the same hosts, however they are ordered, repeated, split or made to overlap |
| Ipalloc.EmptyRanges | ipcalc/ipcalc.go:144-148 | the ranges hold no address exactly if in each a bound does not parse or the bounds are reversed |
| Ipalloc.RangesRestrict | controller/ipalloc.go:64-70 | every address of the subnet lies in a configured range if and only if some range holds an address or the block has no host |
| Ipalloc.ReversedRangeIsIgnored | controller/ipalloc.go:64-70 | with one reversed range auto mode gives out the least host of the whole block, which lies in no range |
| Ipalloc.CalcSubnetHosts | controller/ipalloc.go:58-71 | fails exactly on malformed CIDR text, otherwise lists, strictly ascending, the hosts cut down to the ranges unless those hold no address |
| Ipalloc.HostsExactly | controller/ipalloc.go:58-71 | an address is handed out exactly if it is in the block, does not end in 0 or 255, and is between the bounds of some range or every range is empty |
| Ipalloc.UsedWithGateway | controller/ipalloc.go:23-24 | the used list holds exactly the recorded addresses and the gateway |
| Ipalloc.AllocateAutoIP | controller/ipalloc.go:18-36 | the method returns what the set specification of auto mode says, also for a malformed subnet |
| Ipalloc.AutoAllocIsLeast | controller/ipalloc.go:18-36 | auto mode gives the numerically least host that is neither recorded nor the gateway, with a text that reads back as it, and fails exactly when there is none |
| Ipalloc.AutoFailsExactly | controller/ipalloc.go:26-33 | in terms of the subnet's texts: auto mode fails exactly if the CIDR text is malformed or no such address is unrecorded and not the gateway |
| Ipalloc.AutoGivesExactly | controller/ipalloc.go:34-35 | and otherwise gives the least such address, with a record text that parses as it with the subnet's prefix length |
| Ipalloc.IsInHosts | controller/ipalloc.go:133-140 | the scan decides membership |
| Ipalloc.CheckIPValidation | controller/ipalloc.go:122-131 | the error tells whether the address is no host or is used, in that order; no error exactly for an unused host |
| Ipalloc.AllocateRequestedIP | controller/ipalloc.go:100-120 | the method returns what the set specification for a requested address says, error cases included |
| Ipalloc.RequestedIsFree | controller/ipalloc.go:100-120 | a requested text is granted exactly when it parses to a free address |
| Ipalloc.RequestedExactly | controller/ipalloc.go:109-131 | in terms of the subnet's texts: which error a requested text gets, in which order, and what is granted otherwise |
| Ipalloc.IsMultipleIP | controller/ipalloc.go:142-158 | accepts exactly the texts that split, after trimming, into at least two addresses |
| Ipalloc.ListedOf | controller/ipalloc.go:146-163 | the listed texts are those the annotation is joined from, with spaces around the whole ignored |
| Ipalloc.CountMismatchExactly | controller/ipalloc.go:165-170 | the counts are refused exactly if the hardware address annotation holds a dash and splits into another number of texts |
| Ipalloc.PickWithoutMacs | controller/ipalloc.go:199-225 | for any hardware address annotation without a dash the pick is the earliest text not held, without a hardware address, and none exactly if all are held |
| Ipalloc.PickWithMacs | controller/ipalloc.go:199-225 | with a dash and equal counts it is paired with the hardware address at its last place |
| Ipalloc.IndexListed | controller/ipalloc.go:173-180 | every listed text starts as unused, and is mapped to the hardware address at its last place |
| Ipalloc.MarkHeld | controller/ipalloc.go:192-197 | a text stays unused exactly if no labelled pod has selected it |
| Ipalloc.SelectListedIP | controller/ipalloc.go:160-225 | the maps and loops of list mode compute the specified pick, for any number of hardware addresses |
| Ipalloc.ListPickEarliest | controller/ipalloc.go:199-229 | the pick is the earliest text that is not held, with the hardware address at its last place; none exactly if the counts differ or all texts are held |
| Protocol.RecordsStep | controller/macvlanip.go:112-121 | a step changes the records only by the Create of a worker that has labelled a pod, without overwriting, or by a deletion |
| Protocol.PodsStep | controller/macvlanip.go:86-106 | labels are put on a pod only by the label write of a worker that has chosen an address, and on no other pod |
| Protocol.CarryStep | controller/macvlanip.go:69-75 | a worker comes to carry an address only by listing records, and then keeps it unchanged up to Create |
| Protocol.ListRecordsStep | controller/macvlanip.go:69-84 | what a worker carries after listing records is what its mode allocates from that list |
| Protocol.GroupedStep | controller/ipalloc.go:182-199 | a worker in list mode holds the text it picked from the labels of its group, until it lists records |
| Uniqueness.AllocatedIsFree | controller/macvlanip.go:69-75 | in every mode an allocated address is a host, not recorded and not the gateway, and its record text reads back as it |
| Uniqueness.UniqueCreate | controller/macvlanip.go:112-121 | adding a record keeps addresses unique if and only if no record of its subnet holds its address |
| Uniqueness.ListedIsAbsent | controller/ipalloc.go:18-36 | an address chosen from a complete list is absent from the records |
| Uniqueness.CarriedAbsentStep | controller/macvlanip.go:69-121 | with one worker the carried address stays absent from the records through every step of the worker and of the cluster |
| Uniqueness.RunInv | controller/macvlanip.go:39-130 | in every run of at most one worker with every List answered, no two records of one subnet hold the same address |
| Uniqueness.RunBaseInv | controller/macvlanip.go:112-121 | in every run of any number of workers every record reads back as an address |
| Races.TwoWorkersCollide | main.go:92 | with two or more workers, for every subnet with a free address, a run with every List answered gives two pods one address |
| Races.UniqueExactlyUpToOneWorker | main.go:92 | all runs with answered Lists keep addresses unique if and only if there is at most one worker |
| Races.FailedListCollides | controller/ipalloc.go:19-25 | after a failed List a sync in any of the three modes keeps addresses unique if and only if the address it then chooses is not recorded |
| Races.FailedListRun | pkg/generated/clientset/versioned/typed/macvlan/v1/macvlanip.go:79-93 | one worker and one failed List give two pods one address |
| Capacity.FreshAfterWrite | controller/macvlansubnet.go:35-38 | in any run that has not written a subnet before, nothing refers to it, also just after its first write |
| Capacity.RecordsStayInSubnet | controller/ipalloc.go:58-71 | from a moment when its records, the workers' copies of it and its stored version fit a subnet, while no write of it frees an address outside, its records hold only its hosts and not its gateway, for any number of workers and any failures |
| Capacity.RecordCount | controller/ipalloc.go:38-47 | when addresses are unique a subnet has as many records as recorded addresses |
| Capacity.RecordsNeverExceedCapacity | controller/ipalloc.go:18-36 | with one worker and answered Lists such a subnet then never has more records than addresses besides its gateway, and auto mode is refused if and only if it has as many |
| Records.RecordNeverChanges | controller/macvlanip.go:112-121 | a record that is present throughout a run is the same at its end, however often its pod is synced |
| Records.CreatedRecordAgrees | controller/macvlanip.go:86-121 | when a step adds a record, the address chosen, the label written in that sync and the address read from the record agree, and the record names its pod and subnet |
| Records.CreatedRecordText | controller/macvlanip.go:112-121 | the text of every created record parses as the chosen address with the prefix length of the worker's subnet, and that address is one its subnet hands out |
| Syncs.ModeExactly | controller/macvlanip.go:67-79 | the mode of every annotation text: auto exactly for "auto", single exactly for an address, multiple exactly for a list, otherwise none |
| Syncs.CIDRAnnotationIsInvalid | artifacts/sample/pod-1.yml:10 | an address in CIDR notation is of no known form |
| Syncs.ReadPodExactly | controller/macvlanip.go:132-143 | a sync goes on exactly with a cached pod that has both annotations, otherwise it ends at once without an error |
| Syncs.GetSubnetExactly | controller/macvlanip.go:45-79 | it goes on exactly with a stored subnet of the name given and an annotation of a known form; which of the two failures is an error |
| Syncs.WriteLabelsExactly | controller/macvlanip.go:86-106 | the label write changes two labels of one pod to the hash of its annotation and the printed address, and nothing else |
| Syncs.RecordedAsAsked | controller/macvlanip.go:39-130 | every record of any run is for a pod with both annotations, of the subnet that it names, with an address that it asks for |
| Syncs.InvalidIsGivenUp | controller/macvlanip.go:76-79 | in every run a pod whose annotation is of no known form gets no further than its subnet: no pod and no record changes, and the sync ends without an error unless the subnet cannot be read |
| Macs.RecordedMac | controller/macvlanip.go:59-75 | every record of any run carries, if both annotations are lists, the hardware address at the last place of a listed text that denotes its address, and none in every other case |
| Macs.MacIsIgnored | controller/macvlanip.go:69-71 | for any hardware address annotation, single or dashed, a run gives an auto pod a record without one |
| Records.ResyncLabelDiffers | controller/macvlanip.go:86-121 | with one worker and answered Lists, syncing a pod whose record exists puts a label on it that does not name the recorded address |
| Drift.ResyncIsReached | controller/macvlanip.go:86-121 | for every subnet with two free addresses such a run gets to where it labels a pod that has its record |
| Drift.LabelsDrift | controller/macvlanip.go:86-121 | so in some run a pod's label and its record name different addresses |
| Drift.SmallSubnetHasTwo | ipcalc/ipcalc.go:95-106 | every /30 block without a gateway is such a subnet |
| Records.SingleResync | controller/ipalloc.go:100-120 | while a record holds the one address that a pod asks for, its own included, every later sync with an answered List is refused; after a failed List it is granted exactly if the address is a host and not the gateway |
| Records.SyncWithoutError | controller/macvlanip.go:39-130 | a sync without an error either left a record under its key or was given up in one of four ways without touching the records |
| Records.GivingUpIsForgotten | controller/controller.go:198-205 | a sync given up that way is not queued again |
| Records.SyncWithError | controller/macvlanip.go:51-119 | exactly which steps end a sync with an error |
| Records.FailingIsRetried | controller/controller.go:198-202 | such a key is queued again, and no label has changed |
| Groups.NeverFallsThrough | controller/ipalloc.go:199-225 | the picked text is granted exactly when its address is free, and otherwise the sync fails without trying a later text |
| Groups.GroupedChoice | controller/ipalloc.go:199-225 | an address granted for a canonical text becomes a label with that same text |
| Groups.SafePick | controller/ipalloc.go:182-199 | a safe list gives up a text that its group does not hold and that is canonical if it can be assigned |
| Groups.RunGroupInv | controller/ipalloc.go:172-225 | for a safe list the pods of a namespace with its hash label have different selected addresses in every one-worker run, through lost replies, failed Lists, restarts and deletions |
| GroupRuns.BadTextRepeats | controller/ipalloc.go:192-199 | for a list whose first text with needless zeros can be reached, a run gives two pods of its group one address |
| GroupRuns.GroupsDistinctExactlyForSafeLists | controller/ipalloc.go:172-225 | the groups of a list stay distinct in all one-worker runs if and only if the list is safe |
| GroupRuns.CanonicalListsStayDistinct | controller/ipalloc.go:172-225 | in particular they stay distinct in every such run for a list of canonical texts |
| GroupRaces.TwoWorkersShareText | controller/ipalloc.go:182-199 | with two or more workers a run gives two pods of one group the same text, for any list whose first text some subnet hands out |
| GroupRaces.GroupsDistinctForManyWorkers | controller/ipalloc.go:172-225 | so with two or more workers the groups of a list stay distinct in all runs if and only if no subnet hands out its first text |
| GroupSizes.GroupNeverExceedsList | controller/ipalloc.go:192-229 | in every one-worker run a group of a safe list has at most as many pods as the list has different texts before the first that no subnet hands out, and the list is exhausted exactly when it has as many as there are different texts |
| Controller.LabelledRecords | controller/ipalloc.go:19-21 | listing by subnet label, in any order, gives exactly the recorded addresses of the subnet |
| Controller.LabelledPods | controller/ipalloc.go:182-187 | listing by hash label, in any order, gives exactly the selected addresses of the group |
| Controller.Controller.constructor | controller/controller.go:76-98 | empty stores and an idle worker are the initial state of the step system |
| Controller.Controller.ListMacvlanIPs | pkg/generated/clientset/versioned/typed/macvlan/v1/macvlanip.go:79-93 | the recorded addresses of the subnet, or an empty list when the call fails |
| Controller.Controller.GetMacvlanSubnet | controller/macvlanip.go:49-56 | a failed read ends the sync with an error, otherwise the worker has the stored subnet |
| Controller.Controller.AllocateAuto | controller/ipalloc.go:18-36 | List and auto choice are the listing step of the protocol |
| Controller.Controller.AllocateSingle | controller/ipalloc.go:100-120 | List and check are the listing step of the protocol |
| Controller.Controller.PickListed | controller/ipalloc.go:160-199 | the choice of a text is the pod-listing step of the protocol, and errors end the sync |
| Controller.Controller.AllocateMultiple | controller/ipalloc.go:160-229 | picking a text and checking it are the two listing steps of the protocol |
| Controller.Controller.UpdatePodLabels | controller/macvlanip.go:86-110 | the retried read and update label the current pod once, or end the sync without an error |
| Controller.Controller.PutLabels | controller/macvlanip.go:99-105 | the update puts the hash and the chosen address on the current pod and changes nothing else |
| Controller.Controller.CreateMacvlanIP | controller/macvlanip.go:112-121 | the record made is stored unless one exists; an existing one counts as success, any other failure as an error |
| Controller.Controller.Allocate | controller/macvlanip.go:67-84 | the branches on the annotation allocate in the mode the protocol expects, and an invalid annotation ends without an error |
| Controller.Controller.DoAddMacvlanIP | controller/macvlanip.go:39-130 | the whole sync is a run of the step system that ends with the returned error |
| Controller.Controller.SyncHandler | controller/controller.go:221-243 | a pod that is unknown to the cache when it is looked up, or no macvlan pod, ends the sync at once without an error; any other is synced from the cache |
| Controller.Controller.TakeKey | controller/controller.go:166-170 | takes a queued key; returns without one only when the queue is empty |
| Controller.Controller.SettleKey | controller/controller.go:198-205 | a failed key is in the queue again, any other is forgotten |
| Controller.Controller.ProcessNextWorkItem | controller/controller.go:165-216 | one key is taken, synced and settled as a run of the step system, so as long as every List has been answered the stored records are unique; false only without a key |
| Controller.Controller.Purge | controller/purge.go:40-60 | the loop over a snapshot has the specified effect, whatever the rest of the cluster does between its calls, and counts exactly the rounds that found the pod missing and whose deletion succeeded |
| Controller.Controller.PurgeOne | controller/purge.go:47-56 | one round deletes the record if the pod was missing when looked up and the deletion is not refused, and counts it if the call also returns without an error |
| Purging.PurgedExactly | controller/purge.go:40-68 | whatever the cluster and the workers do in between, a record that nobody else deletes or creates disappears in a purge if and only if some round finds its pod missing from the cache and its deletion is not refused |
| Controller.FillDefaults | controller/macvlansubnet.go:20-33 | in place, the object gets its master, mode and VLAN labels and, if unset, its gateway text, and nothing else changes |
| Controller.DefaultsExactly | controller/macvlansubnet.go:20-33 | the three labels are the master, the mode and the numeral of the VLAN; all other labels and fields are as before; the gateway text is the set one, the printed address after the base, or the text of a nil address |
| Controller.Controller.OnMacvlanSubnetAdd | controller/macvlansubnet.go:11-39 | the cached subnet gets its labels and gateway in place for any CIDR text; after a successful update the store holds the same |
| Gateway.StoredGatewayReadsBack | controller/macvlansubnet.go:27-33 | the stored gateway text reads back as base + 1 of a well-formed CIDR and as no address otherwise |
| Gateway.DefaultsAreIdempotent | controller/macvlansubnet.go:20-33 | handling the Add event again changes nothing |
| Gateway.DefaultsMaySetNone | controller/macvlansubnet.go:27-33 | after the Add event a subnet still has no gateway address if and only if its gateway was set to a text that is no address, or was unset with a malformed CIDR text |
| Gateway.CIDRGatewayRulesOutNothing | controller/macvlansubnet.go:27-33 | a gateway written in CIDR notation is left alone and rules out no address |
| Gateway.GatewayNeverAllocated | controller/ipalloc.go:23-24 | no mode gives out the gateway of the copy of the subnet that the worker has read |
| StoredGateway.GatewayKeptExactly | controller/macvlanip.go:49-121 | with one worker and a gateway stored, no run that keeps it ever records it if and only if no record holds it now and the sync under way, by its copy of the subnet, its annotation, its picked text or its carried address, may not give it |
| StoredGateway.MayGiveRun | controller/macvlanip.go:69-121 | a sync that may give it does so in a run that writes no subnet and whose Lists are answered |
| StoredGateway.DefaultGatewayKeptExactly | controller/macvlansubnet.go:27-38 | the same from the moment the Add event has stored the default gateway, after any run |
| StoredGateway.RunAvoids | controller/macvlanip.go:49-121 | with any number of workers, if no record holds the gateway and every worker carries another address or has a copy that does not leave it free, then it stays so in every run that keeps the gateway |
| StoredGateway.NoRecordHoldsDefaultGateway | controller/macvlansubnet.go:27-38 | so under that premise at the moment the Add event stores the default gateway, no record of the subnet comes to hold it while it is kept |
| StoredGateway.LateGatewayRun | controller/macvlansubnet.go:35-38 | one worker, all Lists answered: a sync that has read a subnet without a gateway chooses and records the default gateway after it has been stored |
| Gateway.UnsetGatewayIsTaken | controller/ipalloc.go:18-36 | while a subnet has no gateway address, for every set of records and every ranges, auto mode gives out the default gateway if and only if it is a host that is not recorded and the base of the block is recorded or no host |
| Gateway.UnsetGatewayCanBeTaken | controller/ipalloc.go:18-36 | so auto mode gives it out for some set of records if and only if it is a host of the subnet |
| Gateway.UnsetGatewayIsGranted | controller/ipalloc.go:100-131 | a requested text is then granted as the default gateway if and only if it denotes it and it is a host that is not recorded |
| Gateway.FirstAutoTakesGateway | controller/ipalloc.go:18-36 | the first auto allocation of such a subnet without ranges takes the default gateway if and only if its block starts on a multiple of 256 |

## Left out

- IPv6: text with colons counts as not parsing, and 16-byte addresses are IPv4-mapped.
- Ipcalc.CIDRtoHosts: requires that a well-formed prefix is not 0, because the source's loop never ends on it (`CountingLeavesBlock`); subnets with prefix 0 are not stored in the model.
- SHA-1 collisions: a digest is its preimage.
- Ipcalc.Sort: the library sort is modelled as its insertion sort; other lengths use other algorithms with the same contract.
- Controller.Controller.TakeKey: order, rate limiting and back-off of the work queue are not modelled; a key is in the queue or not. Waiting is the cluster acting before the call returns, and a call that waits for ever does not return. The splitting of key texts is not part of this model.
- Controller.Controller.SettleKey: the delay before a failed key comes back is not modelled.
- Controller.Controller.DoAddMacvlanIP: a crash inside a call is an action of the step system only (`Restarted`), not of the class; `SyncService` and events are left out, since their errors are only logged.
- Controller.Controller.UpdatePodLabels: other labels of a pod, and the back-off between attempts, are not modelled.
- Controller.Controller.Purge: the listed records, what the rest of the cluster does between the calls and how each deletion ends are parameters, all of them arbitrary; the class has one thread, so the worker's own steps are in the rounds of `PurgedExactly` only. That purge ever runs is not claimed.
- Controller.Controller.PurgeOne: how the deletion ends is a parameter; deleting a record that is gone already succeeds.
- Controller.Controller.OnMacvlanSubnetAdd: a subnet with prefix 0 gets its labels and gateway, but its update never reaches the store, since the model stores no such subnets.
- Informers: the pod cache may be given any pod at any time, which covers stale and reordered deliveries.
- Records created by hand, and labels edited by others: the theorems are about records and labels the controller writes. New pods carry neither label.
- `controller/service.go`, `controller/netattachdef.go` and the namespace handlers: they copy and look up objects and touch no records.
- Generated clients, listers and deep copies, flags and logging: boilerplate.
