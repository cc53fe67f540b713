# xFW verification model

A Dafny model of the xFW packet filter: the XDP datapath (rate limiter, TCP authentication, SYN cookies,
parsers, incident log) and the manager that keeps its kernel maps up to date. It states what the system
is for as properties of every input, every run and every interleaving, and proves them.

`dafny verify dfyconfig.toml` checks the whole project. The files follow the components:

| files | component |
|---|---|
| `GeoPrefix`, `AddressBits`, `GeoTree`, `GeoImport` | import of the country database into a minimal prefix table |
| `MachineArith`, `RateLimiter`, `RateBounds`, `RateScaling` | sliding-window rate limiter and its configuration |
| `BpfHashMap`, `ShadowHashMap` | kernel hash maps and the shadow copies that update them by diff |
| `RateBuckets`, `IndexPool`, `RuleTables`, `RuleRequests`, `MapsManager`, `SourceRules` | atomic publication of rules and the life of rate-limit buckets |
| `RatelimitTable` | named rate limits across configuration updates |
| `TcpAuth`, `TcpTrust`, `TcpTracker` | TCP authentication and SYN-cookie modes over event traces |
| `Checksum`, `SynAck`, `TcpOptions` | the SYN-ACK a cookie is sent in |
| `IncidentTally`, `IncidentLog` | double-buffered incident log |
| `Headers`, `Frames`, `DnsName`, `XxHash` | bounded parsers and the unrolled tuple hash |
| `Basics` | types and constants shared by the others |

Code that updates things in place is modelled by classes, arrays and loops proved against specification
functions; what is promised about a run is a lemma about those functions or an invariant that every method
keeps. Clocks, kernel answers and failing system calls are parameters or arbitrary choices, so a contract
holds however they turn out. Integers are unbounded; 64-bit wrap-around is written out where the code
depends on it (rate limiter, connection timeouts, cookie timestamps).

## Main results

* **Geo import.** Any sequence of disjoint insertions keeps the table canonical, and a canonical table *is*
  the set of maximal single-country blocks; so the imported table is determined by the path of every address through
  the search tree, with the IPv4 subtree left out of the IPv6 table, and an import fails exactly on a malformed path.
* **Rate limiter.** Two reused slots stand for the whole history. Under every accepted configuration every aligned window
  and every run of windows is bounded, even where the interpolation overflows; a pair of adjacent windows at the sliding
  position is bounded exactly when the window is no longer than a second; after two idle windows nothing is remembered;
  for every least packet size, some run overflows 64 bits exactly when a full window does not fit.
* **Rule publication.** Each `set_*` call either makes every configured key block, limit or allow as its group says, and
  nothing else, or leaves the published table as it was, at whatever step it fails and with traffic in between. Over
  every run of such calls and traffic, a rule that keeps its named limit goes on counting where it was, any other limit
  counts from its own upload on, and a failed call resets no counter; no bucket is shared or leaked; and rules within
  their limits exhaust neither the pool nor a kernel map.
* **TCP authentication.** Over every trace the fate of every segment follows from what the trace shows: when a CPU last
  answered a SYN, what the kernel says of socket and cookie, and who is trusted. With authentication on a segment goes
  on only if its peer was seeded by an egress or cookie event whose trust has not ended since, and the tracker says so
  of every segment it lets through. When trust lasts for good, what it inherits and which FINs bound it is stated
  exactly.
* **SYN-ACK.** From the octets of the SYN to those of its answer: over IPv4 and IPv6 a receiver accepts it exactly when
  the answer still fits the frame and the data behind its header balances itself; the options written into the packet
  parse back to exactly what was advertised.
* **Incident log.** In every interleaving each incident is in one of the maps, written, counted as dropped or lost
  with a failing batch: its packet, its octets and its reason, per address; as long as drains succeed nothing is lost.

## Properties that hold only under a condition

* The rate check of the manager prevents overflow of the interpolation, for every tick frequency and least packet
  size, exactly when the window is no longer than a second (`RateScaling.CheckSufficesIff`). At 1000 Hz the window is
  1024 jiffies and the highest accepted rate overflows (`RateScaling.OverflowAt1000Hz`).
* Two adjacent windows together exceed the limit by no more than what has slid out of the first, for all runs under
  accepted rates, exactly when the window is no longer than a second (`RateScaling.PairBoundIff`). At 1000 Hz a full
  window at the highest rate is followed by an admitted octet at jiffy 1024 (`RateScaling.PairBreaksAt1000Hz`).
  Aligned windows keep to the limit at every tick frequency (`RateScaling.ConfiguredWindowsBounded`).
* The SYN-ACK checksum covers the header only, and the frame is not extended for new options. So the answer is accepted
  exactly when the new options take no more than the old ones plus the padding of the frame, and length and content of
  the data then behind the header cancel out (`SynAck.MakeSynAck`). Without data that always holds; one zero octet
  breaks it, and so does a word of data or more behind a header without options or padding, over which the options are
  written (`SynAck.AnswersAtBorders`, `SynAck.TenOctetsCut`).
* Events equal maps plus written plus `drop_cnt` exactly when no drain batch failed after removing an entry
  (`IncidentTally.ConservedIff`); one such batch loses an incident (`IncidentTally.FailingBatchLoses`), and none has
  failed while every drain reports success (`IncidentLog.IncidentLogProcessor.DrainedConserves`).
* A full incident map has been preceded by a swap request for every entry beyond the threshold if drains have
  succeeded; what a failed drain left in the map is missing from the insert counter, and the number of requests is
  short by at most that much (`IncidentLog.IncidentLogProcessor.RegisterIncident`).
* A round of the incident processor that is neither stopping nor due by its timer answers a swap request exactly when
  the request was stamped after the last drain had ended: the time of a swap is taken then, so requests made during the
  drain are older (`IncidentLog.IncidentLogProcessor.Consume`, `IncidentLog.IncidentLogProcessor.HandleSwapEvent`).
* A configuration message is applied exactly when each deletion names a limit that is known by then and the old names
  fit together with the ones the message sets (`RatelimitTable.ApplicableIff`); a full table refuses a new name even
  if the same message deletes another (`RatelimitTable.FullTableRefuses`).
* An egress segment that opens a connection makes its peer's trust last exactly when the peer had no entry, an entry
  without a FIN or one whose FIN had timed out (`TcpTrust.OpensIff`, `TcpTrust.TrustLastsIff`). Otherwise the old FIN
  time is inherited, and past it the new connection's segments are dropped (`TcpTrust.InheritedExpires`).
* A connection stays trusted for one minute after its latest FIN (the comment at bpf/tcp_auth.h:78-81) exactly when that
  FIN is recorded: the peer is known, and the FIN is outgoing or comes in from a trusted peer while authentication is on
  (`TcpTrust.OneMinuteIff`). With authentication off, the outgoing FIN of an unknown peer creates an entry that never
  expires (`TcpTrust.UnknownPeerFin`) and an incoming FIN is ignored (`TcpTrust.FinWhileOff`).
* The name walk holds the labels to 255 octets, not the name: with its end a name may have 257
  (`DnsName.LongNameAccepted`), and `DnsName.Metadata.ProcessDname` says exactly which names pass.

Where comments and code differ the model follows the code: the ACK filter also trusts a peer whose socket is not
listening, without a cookie (the comments at bpf/xdp.c:494-503 speak of validated cookies only); `inactivate` fails for
a free slot's name (manager/xfw/configuration.hh:240 says otherwise); the incident processor's last swap time has no
initial value, so the model starts it at an arbitrary one.

## Model

| member | source | states |
|---|---|---|
| `GeoPrefix.MergeDisjoint` | manager/xfw/geoip.cc:147-177 | inserting a block that overlaps nothing never fails, keeps the table canonical (disjoint, no mergeable siblings) and changes the answer of exactly the addresses of the block |
| `GeoPrefix.CanonicalIsMaximalBlocks` | manager/xfw/geoip.cc:147-177 | the entries of a canonical table are exactly the maximal single-country blocks |
| `GeoPrefix.CanonicalUnique` | manager/xfw/geoip.cc:147-177 | two canonical tables that answer every address alike are the same table |
| `GeoPrefix.TableIsMaximalBlocks` | manager/xfw/geoip.cc:300-370 | a canonical table that answers as a lookup function does consists of that function's maximal solid blocks |
| `GeoPrefix.AnswersAreBlocks` | manager/xfw/geoip.cc:300-370 | the same for all entries at once |
| `GeoTree.FollowIsPath` | manager/xfw/geoip.cc:240-288 | the walk answers an address as the last record on its own path does, with nothing beyond the node where it stops; a located country beats the registered one |
| `GeoTree.NodeOkIff` | manager/xfw/geoip.cc:240-288 | the walk succeeds exactly when the path of every address is well formed up to that node |
| `GeoTree.PathSame` | manager/xfw/geoip.cc:240-288 | only the bits from the current depth on decide a path |
| `GeoTree.Ipv4Paths` | manager/xfw/geoip.cc:300-346 | what the IPv4 walk finds is what the paths from its start node answer |
| `GeoTree.Ipv6Paths` | manager/xfw/geoip.cc:348-370 | an address whose path meets the IPv4 start node of depth 96 below the root has no answer; any other has that of its path |
| `GeoPrefix.UncoveredIsDisjoint` | manager/xfw/geoip.cc:240-288 | a block none of whose addresses is answered overlaps no entry |
| `GeoPrefix.DisjointIsUncovered` | manager/xfw/geoip.cc:240-288 | no address of a block that overlaps no entry is answered |
| `GeoPrefix.UniformHasEntry` | manager/xfw/geoip.cc:147-177 | in a canonical table every single-country block lies inside one entry |
| `GeoPrefix.EntryOrWider` | manager/xfw/geoip.cc:147-177 | a single-country block is an entry or its parent block is single-country too |
| `GeoPrefix.WiderExcludesEntry` | manager/xfw/geoip.cc:147-177 | a block whose parent is single-country is not an entry |
| `AddressBits.SetPrefixBit` | manager/xfw/geoip.cc:90-101 | sets or clears exactly the given bit of the address, counted from the most significant |
| `AddressBits.ClearHostBits` | manager/xfw/geoip.cc:107-126 | afterwards the address is the base address of its prefix: network bits kept, host bits zero |
| `AddressBits.CanonicalizePrefix` | manager/xfw/geoip.cc:107-126 | fails exactly for a length beyond the address; otherwise leaves the base address of the prefix |
| `AddressBits.BitsInjective` | manager/xfw/geoip.cc:90-101 | an address is determined by its bits |
| `AddressBits.OctetWeighs` | manager/xfw/geoip.cc:90-101 | bits are numbered from the most significant: the first weighs 128, the last 1 |
| `AddressBits.AddrOfBits` | manager/xfw/geoip.cc:107-126 | the base address of a prefix has the bits of the prefix, then zeros |
| `AddressBits.FlipBits` | manager/xfw/geoip.cc:147-177 | flipping a bit of the octets flips that bit of the bit string and no other |
| `GeoImport.SiblingAddress` | manager/xfw/geoip.cc:147-177 | flipping the last network bit of a base address gives the sibling prefix's base address |
| `GeoImport.ParentAddress` | manager/xfw/geoip.cc:147-177 | clearing the last network bit of a base address gives the parent prefix's base address |
| `GeoImport.LookupAgrees` | manager/xfw/geoip.cc:147-177 | a lookup by base address in the bucket of a length is a lookup of the prefix in the table |
| `GeoImport.ChildPrefix` | manager/xfw/geoip.cc:240-288 | the child address spells the parent's bits and the branch taken |
| `GeoImport.BothRecords` | manager/xfw/geoip.cc:240-288 | visiting both records of a node adds exactly what following the node answers |
| `GeoImport.PrefixImporter.constructor` | manager/xfw/geoip.cc:300-346 | empty buckets represent the empty table |
| `GeoImport.PrefixImporter.MergePrefix` | manager/xfw/geoip.cc:147-177 | the in-place cascade of sibling merges computes the recursive merge of the table and fails exactly when that does or the length is invalid |
| `GeoImport.PrefixImporter.MergeUpwards` | manager/xfw/geoip.cc:147-177 | the loop from a base address up computes the recursive merge |
| `GeoImport.PrefixImporter.EraseSibling` | manager/xfw/geoip.cc:147-177 | the sibling is removed exactly when it is present with the same country |
| `GeoImport.PrefixImporter.TryEmplace` | manager/xfw/geoip.cc:147-177 | inserts the prefix unless another country holds it |
| `GeoImport.PrefixImporter.AddCountryPrefix` | manager/xfw/geoip.cc:290-298 | adds the country of a data entry to exactly the addresses of the prefix; fails exactly for an unreadable code |
| `GeoImport.PrefixImporter.WalkSearchTree` | manager/xfw/geoip.cc:240-288 | the table gains exactly the answers of following the tree below the prefix; fails exactly on a malformed subtree |
| `GeoImport.PrefixImporter.VisitRecord` | manager/xfw/geoip.cc:253-282 | the same for one record of a node |
| `GeoImport.PrefixImporter.ImportIpv4Tree` | manager/xfw/geoip.cc:300-346 | after import the table gives every IPv4 address the country its path ends in, and its entries are exactly the maximal single-country blocks of those answers; fails exactly on a malformed path, a wrong depth of the start node or a failed lookup |
| `GeoImport.PrefixImporter.ImportIpv6Tree` | manager/xfw/geoip.cc:348-370 | the same for IPv6, with every address left out whose path meets the IPv4 start node |
| `MachineArith.ShrIsDiv` | bpf/filter.h:155-222 | a right shift divides by the power of two |
| `MachineArith.AndMaskIsMod` | bpf/filter.h:155-222 | masking with a power of two less one is the remainder |
| `RateLimiter.EffectiveShift` | bpf/filter.h:204-208 | the interpolation by shift is the interpolation by division |
| `RateLimiter.WindowIndex` | bpf/filter.h:159 | the shift yields the window number |
| `RateLimiter.WindowOffset` | bpf/filter.h:160-161 | the mask yields the position in the window |
| `RateLimiter.SlotIndex` | bpf/filter.h:163-164 | the low bit of the window number selects the slot |
| `RateLimiter.IsWithinRlimit` | bpf/filter.h:155-223 | decides as the specification on the old slots and leaves the slots recycled, and charged exactly if admitted |
| `RateLimiter.Decide` | bpf/filter.h:204-217 | the early exits amount to: packets below the limit, and size plus interpolated bytes within it |
| `RateLimiter.RingRefinesHistory` | bpf/filter.h:155-223 | after every run in time order the two slots hold the counts of the last window and of the one before, whatever the gaps |
| `RateLimiter.ReadsAreHistory` | bpf/filter.h:163-188 | recycling a slot for a later window shows exactly the history of that window and its predecessor |
| `RateLimiter.RingAdvance` | bpf/filter.h:163-188 | moving the ring any number of windows ahead keeps or zeroes each count as the distance demands |
| `RateLimiter.RefineStep` | bpf/filter.h:163-222 | charging one packet keeps slots and history in step |
| `RateBounds.EveryWindowBounded` | bpf/filter.h:190-222 | no run admits more than a full window holds in any aligned window, for any limits where a count and a wrapped share cannot carry out of 64 bits |
| `RateBounds.AdmittedWithin` | bpf/filter.h:190-222 | an admitted packet finds its own window short of the limit, even if the product wrapped around |
| `RateBounds.WrappedShare` | bpf/filter.h:190-208 | a product that wraps around gives a share no larger than the previous count |
| `RateBounds.FitsHasRoom` | bpf/filter.h:190-208 | limits whose full windows fit leave that room |
| `RateBounds.TwoWindowsBounded` | bpf/filter.h:190-222 | where full windows fit 64 bits, at every packet the current and previous window together admit at most the limit plus the part of the previous one that has slid out |
| `RateBounds.ManyWindowsBounded` | bpf/filter.h:190-222 | any n consecutive windows admit at most n times the limit, under the same condition as one |
| `RateBounds.IdleForgets` | bpf/filter.h:163-222 | after two idle windows a packet is admitted exactly if the limit allows a packet of its size at all |
| `RateBounds.DecisionIsIdeal` | bpf/filter.h:190-222 | where full windows fit 64 bits the decision equals exact arithmetic over the whole history |
| `RateBounds.NeverOverflows` | bpf/filter.h:190-208 | where full windows fit, for any least packet size, no product in any run leaves 64 bits |
| `RateBounds.BurstAdmitted` | bpf/filter.h:190-222 | a burst within the limit is admitted whole |
| `RateBounds.FillingOverflows` | bpf/filter.h:190-208 | where they do not fit, the run of packets no shorter than the least size that fills one window overflows at the next |
| `RateBounds.OverflowIff` | bpf/filter.h:190-208 | for every least packet size, some run overflows exactly when a full window does not fit |
| `RateBounds.BytesDecide` | bpf/filter.h:190-208 | with non-empty packets a full window fits exactly when its bytes do |
| `RateBounds.WithinMax` | bpf/filter.h:210-222 | counts within the limits, of packets between the least and the largest size, are within what a full window holds |
| `RateBounds.CarryFits` | bpf/filter.h:210-222 | a full window's bytes can be carried by packets of the allowed sizes within the packet limit |
| `RateBounds.OneTickPairs` | bpf/filter.h:190-222 | with a window of one tick two adjacent windows stay within any 64-bit limit |
| `RateBounds.PairBreaks` | bpf/filter.h:190-222 | where the bytes of a full window overflow, the packet after it is admitted and the pair exceeds the limit |
| `RateScaling.RoundPow2Nearest` | manager/xfw/maps_manager.cc:112-144 | the window length is the nearest power of two to the tick rate, ties going up |
| `RateScaling.TrailingZerosOfPow2` | manager/xfw/maps_manager.cc:220-226 | counting trailing zeros recovers the exponent |
| `RateScaling.WindowForValid` | manager/xfw/maps_manager.cc:220-226 | shift, mask and length of the derived window belong together and stay in range |
| `RateScaling.ScaleKeepsAllBits` | manager/xfw/maps_manager.cc:675-698 | scaling an accepted rate loses no bits in the shift |
| `RateScaling.ScaleExact` | manager/xfw/maps_manager.cc:675-683 | the scaled rate is the exact quotient, at least 1 |
| `RateScaling.ScaledFits` | manager/xfw/maps_manager.cc:675-698 | a scaled rate fits the interpolation when the window is no longer than a second |
| `RateScaling.RateCheckSufficesIff` | manager/xfw/maps_manager.cc:685-698 | all accepted rates fit exactly when the window is no longer than a second |
| `RateScaling.ConfiguredNeverOverflows` | manager/xfw/maps_manager.cc:675-698 | then no run under configured rates overflows the datapath arithmetic |
| `RateScaling.LargestRateOverflows` | manager/xfw/maps_manager.cc:675-698 | otherwise the highest accepted rate has a run that overflows |
| `RateScaling.CheckSufficesIff` | manager/xfw/maps_manager.cc:675-698 | for every tick frequency and least packet size, no run under accepted rates overflows exactly when the window is no longer than a second |
| `RateScaling.OverflowAt1000Hz` | manager/xfw/maps_manager.cc:220-226 | at 1000 Hz the window is 1024 jiffies, and accepted rates have a run that overflows, whatever the least packet size |
| `RateScaling.LimitsHaveRoom` | manager/xfw/maps_manager.cc:675-698 | the limits of accepted rates leave room for a wrapped share |
| `RateScaling.ConfiguredWindowsBounded` | manager/xfw/maps_manager.cc:675-698 | for every tick frequency and all accepted rates no run admits more than the limit in any aligned window |
| `RateScaling.ConfiguredPairBounded` | manager/xfw/maps_manager.cc:675-698 | when the window is no longer than a second, no run under accepted rates breaks the bound on adjacent windows |
| `RateScaling.LargestRateBreaks` | manager/xfw/maps_manager.cc:675-698 | otherwise the highest accepted rate has a run that breaks it with an admitted packet |
| `RateScaling.PairBoundIff` | manager/xfw/maps_manager.cc:675-698 | for every tick frequency and least packet size the bound holds for all runs exactly when the window is no longer than a second |
| `RateScaling.PairBreaksAt1000Hz` | manager/xfw/maps_manager.cc:220-226 | at 1000 Hz: window 0 filled at the highest rate, one octet admitted at jiffy 1024, bound broken |
| `BpfHashMaps.BpfHashMap.DeleteBatch` | lib/bpf/hash_map.hh:130-135 | success deletes all keys; failing at any point leaves a part of the old content, at every moment a submap |
| `BpfHashMaps.BpfHashMap.UpdateBatch` | lib/bpf/hash_map.hh:122-128 | writes a prefix of the batch; no-space means a new key met a full map |
| `BpfHashMaps.BpfHashMap.LookupAndDeleteBatch` | lib/bpf/hash_map.hh:99-118 | removes and returns some entries; end-of-map means it is empty; a fault may have removed entries too |
| `BpfHashMaps.BpfHashMap.Clear` | lib/bpf/hash_map.hh:75-119 | success leaves the map empty, failure a submap |
| `ShadowHashMap.DiffApplies` | lib/bpf/shadow_hash_map.hh:137-158 | deleting and writing the lists of any correct diff turns the old map into the new one |
| `ShadowHashMap.BlendPeak` | lib/bpf/shadow_hash_map.hh:70-118 | no intermediate state is larger than the larger of the two maps |
| `ShadowHashMap.NoRoomMeansTooMany` | lib/bpf/shadow_hash_map.hh:185-206 | running out of space during a diff proves the new state larger than the capacity |
| `ShadowHashMap.BpfShadowHashMap.Replace` | lib/bpf/shadow_hash_map.hh:70-118 | success: kernel map, snapshot and new state agree; failure: snapshot kept and resync scheduled; every intermediate kernel state blends old and new entries; no spurious no-space |
| `ShadowHashMap.BpfShadowHashMap.BuildDiff` | lib/bpf/shadow_hash_map.hh:137-158 | the lists name exactly the removed keys and exactly the added or changed entries |
| `ShadowHashMap.BpfShadowHashMap.ApplyDelete` | lib/bpf/shadow_hash_map.hh:163-180 | batch by batch, success deletes all keys, failure schedules a resync |
| `ShadowHashMap.BpfShadowHashMap.ApplyUpsert` | lib/bpf/shadow_hash_map.hh:185-206 | batch by batch, success writes all entries in order, failure schedules a resync |
| `ShadowHashMap.BpfShadowHashMap.FullResync` | lib/bpf/shadow_hash_map.hh:211-238 | from any kernel content, success establishes the state and clears the flag |
| `ShadowHashMap.Entries` | lib/bpf/shadow_hash_map.hh:211-228 | lists every entry of the state |
| `RateBuckets.LiveBucketKeepsCounters` | manager/xfw/maps_manager.hh:325-345 | while a bucket stays published its counters only accumulate, through any number of uploads and releases of other buckets |
| `RateBuckets.FreshBucketStartsZero` | manager/xfw/maps_manager.hh:224-240 | a bucket that becomes published starts from zero |
| `RateBuckets.QuietKeeps` | manager/xfw/maps_manager.hh:325-345 | without an upload every published bucket accumulates what it is charged |
| `RateBuckets.UploadKeeps` | manager/xfw/maps_manager.cc:662-673 | a bucket published before and after an upload accumulates through it |
| `RateBuckets.UploadStartsZero` | manager/xfw/maps_manager.cc:662-673 | a bucket that an upload makes live holds exactly what it was charged since that upload |
| `RateBuckets.BucketArray.Charge` | bpf/filter.h:155-223 | charges a published bucket; all others keep their slots |
| `RateBuckets.BucketArray.Zero` | manager/xfw/maps_manager.hh:224-240 | the release callback zeroes a bucket no published rule refers to |
| `RateBuckets.BucketArray.Publish` | manager/xfw/maps_manager.cc:662-673 | publishing changes which buckets are live and keeps all counters |
| `RateBuckets.BucketArray.Traffic` | bpf/filter.h:235-249 | traffic touches published buckets only |
| `IndexPools.PartitionAllocate` | manager/xfw/index_pool.cc:22-31 | allocation moves one index from free to pending; free, pending and live stay a partition |
| `IndexPools.PartitionRelease` | manager/xfw/index_pool.cc:33-38 | release moves one pending index to free; the partition stays |
| `IndexPools.IndexPool.constructor` | manager/xfw/index_pool.cc:14-20 | all indices are free |
| `IndexPools.IndexPool.Allocate` | manager/xfw/index_pool.cc:22-31 | takes the last free index, fails exactly if there is none |
| `IndexPools.IndexPool.Release` | manager/xfw/index_pool.cc:33-38 | zeroes the bucket, then frees it |
| `IndexPools.IndexPool.ReleaseAll` | manager/xfw/index_pool.cc:64-82 | all pending indices become free and zeroed, with traffic going on |
| `IndexPools.IndexPoolTransaction.Allocate` | manager/xfw/index_pool.cc:49-56 | reserves what it takes from the pool |
| `IndexPools.IndexPoolTransaction.Release` | manager/xfw/index_pool.cc:58-62 | retires an index without freeing it yet |
| `IndexPools.IndexPoolTransaction.Commit` | manager/xfw/index_pool.cc:64-73 | exactly the retired indices become free; nothing leaks |
| `IndexPools.IndexPoolTransaction.Rollback` | manager/xfw/index_pool.cc:75-82 | exactly the reserved indices become free again; nothing leaks |
| `RuleTables.UpdateStep` | manager/xfw/maps_manager.cc:167-208 | reconciling one more slot keeps the bookkeeping of kept, reserved and retired buckets right |
| `RuleTables.PublishPartition` | manager/xfw/maps_manager.cc:662-673 | publishing turns reserved buckets live and leaves retired ones pending; still a partition, still unshared |
| `RuleTables.UpdatedInherits` | manager/xfw/maps_manager.cc:167-208 | a rule with an unchanged named limit keeps its bucket; any other limit rule gets one no old rule used |
| `RuleRequests.RequestOf` | bpf_uapi/action_rules.h:146-170 | every configured key is requested, and the rule blocks, limits or allows as its group chose |
| `RuleRequests.RequestFrom` | manager/xfw/maps_manager.cc:532-565 | every request comes from a configured key |
| `RuleRequests.RequestKeys` | manager/xfw/maps_manager.cc:532-565 | requests and configured keys correspond one to one, so a repeated key is a repeated request |
| `MapsManager.ReconcileRatelimitBucket` | manager/xfw/maps_manager.cc:167-208 | keeps, allocates or retires a bucket exactly as old and new limit demand; fails exactly when one is needed and none is free |
| `MapsManager.ReconcileSlot` | manager/xfw/maps_manager.cc:167-208 | the same within an update in progress |
| `MapsManager.ReconcileOne` | manager/xfw/maps_manager.cc:543-565 | adds one requested rule, or reports a duplicate or an empty pool |
| `MapsManager.ReconcileRequests` | manager/xfw/maps_manager.cc:543-566 | reconciles all requests exactly if they are distinct and the pool suffices |
| `MapsManager.ReleaseRemoved` | manager/xfw/maps_manager.cc:571-575 | retires the bucket of every rule without successor |
| `MapsManager.PrepareRules` | manager/xfw/maps_manager.cc:525-575 | the staged table holds exactly the requests; duplicates and excess rules are reported only when there are any |
| `MapsManager.StageRules` | manager/xfw/maps_manager.cc:525-580 | the inactive copy holds exactly the staged table |
| `MapsManager.StageUpdate` | manager/xfw/maps_manager.cc:525-593 | rules and defaults are staged together |
| `MapsManager.UpdateInstalls` | manager/xfw/maps_manager.cc:524-596 | publishing what was staged installs exactly the requested rules and defaults and nothing else |
| `MapsManager.InstalledMeans` | manager/xfw/maps_manager.cc:524-596 | an installed update makes every key do what its group chose and every default what was chosen or built in, gives no other slot of the family a rule, and leaves all else alone |
| `MapsManager.SourceDefaultsMean` | manager/xfw/maps_manager.cc:282-302 | the same for the eight source defaults |
| `MapsManager.FlagRuleMeans` | manager/xfw/maps_manager.cc:232-253 | the same for a flag filter: limited by the named rate, or allowed without one |
| `MapsManager.PublishedAtMost` | bpf_uapi/limits.h:31-34 | no published table refers to more than half of the buckets |
| `MapsManager.EmptyPoolMeansAllUsed` | bpf_uapi/limits.h:31-34 | an empty pool means reserved and published buckets are all there are |
| `MapsManager.KeepCounters` | bpf/filter.h:235-249 | between uploads every published rule goes on counting |
| `MapsManager.CarryCounters` | manager/xfw/maps_manager.cc:167-208 | through an upload a rule with an unchanged limit goes on counting, any other limit counts from that upload on |
| `MapsManager.BpfMapsManager.constructor` | manager/xfw/maps_manager.cc:220-230 | a freshly loaded datapath satisfies the invariant |
| `MapsManager.BpfMapsManager.Publish` | manager/xfw/maps_manager.cc:662-673 | one write switches the datapath from the old table to the updated one, the only upload in the history |
| `MapsManager.BpfMapsManager.UploadConfigChanges` | manager/xfw/maps_manager.cc:662-673 | with traffic before and after: exactly one upload, published, and retired buckets freed; or none, nothing changed, and reserved ones freed |
| `MapsManager.BpfMapsManager.Abort` | manager/xfw/index_pool.cc:75-82 | a failed update gives its reserved buckets back, without an upload |
| `MapsManager.BpfMapsManager.Settle` | manager/xfw/index_pool.cc:64-73 | after publication the replaced rules' buckets go back, without another upload |
| `MapsManager.BpfMapsManager.TrafficWhileStaged` | bpf/filter.h:235-249 | traffic during staging disturbs no reserved bucket and uploads nothing |
| `MapsManager.BpfMapsManager.PublishedKept` | manager/xfw/maps_manager.cc:577-580 | writing the unused copy leaves the published table alone |
| `MapsManager.BpfMapsManager.SwitchIsUpdate` | manager/xfw/maps_manager.cc:577-595 | selecting the other copy publishes exactly the staged update |
| `MapsManager.BpfMapsManager.Stage` | manager/xfw/maps_manager.cc:525-593 | staging leaves the published table alone and, on success, prepares exactly the request |
| `MapsManager.BpfMapsManager.Finish` | manager/xfw/maps_manager.cc:595 | the invariant holds again; the table is the update or the old one; counters are carried over or kept |
| `MapsManager.BpfMapsManager.GiveUp` | manager/xfw/maps_manager.cc:525-596 | on failure everything is as before and every counter goes on |
| `MapsManager.BpfMapsManager.Traffic` | bpf/filter.h:235-249 | between updates every published rule goes on counting |
| `MapsManager.BpfMapsManager.SetRules` | manager/xfw/maps_manager.cc:525-596 | applied: exactly the requested rules, buckets and counters inherited, other limits counting from the upload on; otherwise nothing changed and counters kept; each failure is reported only for its cause; the pool suffices for any request below half of it |
| `MapsManager.BpfMapsManager.SetConfigRules` | manager/xfw/maps_manager.cc:232-253 | the same for flag and default rules |
| `MapsManager.BpfMapsManager.SetDstRules` | manager/xfw/maps_manager.cc:524-596 | applied: every key of a group blocks, limits by the named rate or allows as the group chose, no other destination has a rule, the four defaults do what was chosen or else block if there are rules and allow if there are none, all other rules stay; otherwise nothing changed; counters carried or kept; within the rule limit never fails for lack of buckets or of room in a kernel map |
| `MapsManager.BpfMapsManager.SetIcmpRules` | manager/xfw/maps_manager.cc:471-522 | the same for ICMP rules, with two defaults that allow |
| `MapsManager.BpfMapsManager.SetSrcDefaults` | manager/xfw/maps_manager.cc:452-468 | succeeds exactly if the configuration can be read and written; each of the eight source defaults then does what was chosen or allows, and the index of the source maps is set; counters carried or kept |
| `MapsManager.BpfMapsManager.SetTcpFlagRule` | manager/xfw/maps_manager.cc:232-253 | applied: the flag is limited by the named rate, or allowed without one; every other slot stays; counters carried or kept |
| `SourceRules.FillCopy` | manager/xfw/maps_manager.cc:437-448 | success: all maps of the copy hold the new rules; a failure at any of them leaves sound shadows and is never for lack of room |
| `SourceRules.SourceMaps.SetSrcRules` | manager/xfw/maps_manager.cc:415-469 | six maps and the eight source defaults, each doing what was chosen or allowing, switch together or stay together, counters carried or kept; each failure is reported only for its cause |
| `SourceRules.SourceMaps.FillInactive` | manager/xfw/maps_manager.cc:430-448 | filling the unused copy leaves the published one alone |
| `SourceRules.SourceMaps.Switch` | manager/xfw/maps_manager.cc:450-469 | one upload publishes the other copy together with the defaults |
| `RatelimitTable.NamesUnique` | manager/xfw/configuration.cc:122-131 | the slots determine the name index |
| `RatelimitTable.LastRuleDecides` | manager/xfw_config_updater.cc:434-465 | the last rule for a name decides its limit |
| `RatelimitTable.UnmentionedKept` | manager/xfw_config_updater.cc:434-465 | names no rule mentions stay as they were |
| `RatelimitTable.ApplicableIff` | manager/xfw_config_updater.cc:434-465 | a message succeeds exactly when each deletion names a limit known by then and old and set names together fit the table |
| `RatelimitTable.ApplyKeys` | manager/xfw_config_updater.cc:434-465 | a message adds exactly the names it sets; deletions keep theirs |
| `RatelimitTable.FullTableRefuses` | manager/xfw_config_updater.cc:434-465 | a full table refuses a new name even with a deletion before it |
| `RatelimitTable.UnknownDeleteRefused` | manager/xfw/configuration.cc:71-78 | deleting an unknown name is refused |
| `RatelimitTable.EveryNameSettled` | manager/xfw_config_updater.cc:434-465 | after a message a name has the limit of its last rule, is gone if that deletes it, and without a rule stays under a patch and is gone under a full message |
| `RatelimitTable.NamesDecide` | manager/xfw_config_updater.cc:434-465 | whether a message can be applied depends on the names only |
| `RatelimitTable.Ratelimits.constructor` | manager/xfw/configuration.cc:19-24 | the free queue lists all slots and the table is empty |
| `RatelimitTable.Ratelimits.Copy` | manager/xfw/configuration.hh:258-259 | a copy stands for the same limits |
| `RatelimitTable.Ratelimits.GetActiveIndex` | manager/xfw/configuration.cc:32-42 | finds the slot of a name exactly if it is active |
| `RatelimitTable.Ratelimits.Upsert` | manager/xfw/configuration.cc:44-69 | sets one name's limit, in its old slot or the next free one, and nothing else; fails exactly for a new name in a full table |
| `RatelimitTable.Ratelimits.Inactivate` | manager/xfw/configuration.cc:71-78 | switches one name off; fails exactly for an unknown name |
| `RatelimitTable.Ratelimits.InactivateAll` | manager/xfw/configuration.cc:80-87 | switches every name off; names and slots stay |
| `RatelimitTable.Ratelimits.FreeInactive` | manager/xfw/configuration.cc:89-100 | exactly the active names remain, in their slots; queue and index stay consistent |
| `RatelimitTable.Ratelimits.MoveFrom` | manager/xfw/configuration.cc:102-119 | the moved table stands for the same limits |
| `RatelimitTable.Ratelimits.RefillNameToIndex` | manager/xfw/configuration.cc:122-131 | rebuilds exactly the former index |
| `RatelimitTable.Ratelimits.PrepareRatelimits` | manager/xfw_config_updater.cc:434-465 | computes the meaning of the message; no name loses or changes its slot |
| `RatelimitTable.Ratelimits.Update` | manager/xfw/xfw.cc:150-206 | a whole update: succeeds exactly if deletions are known, names fit and everything was uploaded; every name is then settled as its last rule says, a patch keeping what it does not mention and a full message dropping it; a name that survives keeps its slot; failing, nothing changes |
| `TcpAuth.StepElsewhere` | bpf/tcp_auth.h:162-252 | peers do not influence one another |
| `TcpAuth.OutdatedExact` | bpf/tcp_auth.h:120-125 | the wrapped comparison is the exact one, and an open peer never times out |
| `TcpAuth.StampsAreTimes` | bpf/tcp_syncookies.h:141-182 | the timestamps of a CPU are the times of its last try and of the last bare SYN it answered or failed to answer |
| `TcpAuth.ModesFromTrace` | bpf/tcp_syncookies.h:141-182 | flood and passive mode are what the trace shows: the last answer at most the flood timer back, the last try at least the passive timer back |
| `TcpAuth.EverySegmentRuled` | bpf/xdp.c:434-587 | over every trace and for every segment the exact verdict: bare SYNs by rate, mode and cookie outcome; pure ACKs in a flood by trust or exactly a socket past listening or a valid cookie, else dropped with the table unchanged; all others by trust, or let through while authentication is off |
| `TcpAuth.EntryExplained` | bpf/tcp_auth.h:162-252 | every trusted peer was seeded by some event, unbroken since, with its FIN time that of the last recorded close unless re-armed |
| `TcpAuth.AuthenticatedOnly` | bpf/xdp.c:541-587 | over every trace, with authentication on, a segment other than a bare SYN goes on only if in a flood the kernel reports a socket past listening or a valid cookie, or its peer was seeded, nothing ended that trust, and its last recorded FIN is within a minute or re-armed |
| `TcpTrust.OpenPeerKept` | bpf/tcp_auth.h:162-252 | a peer whose trust was opened stays in the table for ever while no FIN, RST or eviction comes |
| `TcpTrust.OpenPeerAdmitted` | bpf/xdp.c:541-587 | and its segments are never dropped by authentication |
| `TcpTrust.InheritedExpires` | bpf/tcp_auth.h:197-252 | over every trace, a connection that does not open its peer's trust inherits the old FIN time: once that has timed out every segment but a bare SYN is dropped |
| `TcpTrust.OpensIff` | bpf/tcp_auth.h:197-252 | after a seeding event without FIN the entry has no FIN time exactly when it had none before, did not exist or had timed out |
| `TcpTrust.TrustLastsIff` | bpf/tcp_auth.h:197-252 | over every trace, trust started by outgoing traffic outlasts the old grace period exactly under that condition |
| `TcpTrust.EntryKept` | bpf/tcp_auth.h:162-252 | while events at most end a peer's trust its FIN time stays |
| `TcpTrust.LapsesUnlessRearmed` | bpf/tcp_auth.h:197-252 | on a clock that does not run backwards only a FIN, the end of trust, a cookie or traffic after the grace period changes an entry |
| `TcpTrust.OneMinuteIff` | bpf/tcp_auth.h:78-81 | a FIN bounds the trust of its peer to exactly one more minute exactly when it is recorded |
| `TcpTrust.UnknownPeerFin` | bpf/tcp_auth.h:238-242 | the outgoing FIN of an unknown peer with authentication off leaves the peer trusted for good |
| `TcpTrust.FinWhileOff` | bpf/tcp_auth.h:162-168 | an incoming FIN with authentication off leaves an open peer trusted for good |
| `TcpTracker.Tracker.constructor` | bpf/tcp_auth.h:69-76 | the connection table starts empty, with nothing handled |
| `TcpTracker.Tracker.Handle` | bpf/xdp.c:541-587 | the tables updated in place stay those of everything handled so far; every segment gets exactly the verdict and table effect the trace demands; and with authentication on a segment other than a bare SYN is let through only with grounds in the trace |
| `Checksum.CsumFold` | bpf/tcp_syncookies.h:53-64 | folds to 16 bits, congruent to the complement modulo 65535, in the bounded number of rounds |
| `Checksum.RewriteIpv4` | bpf/tcp_syncookies.h:541-552 | the header sum is preserved modulo 65535 while TTL becomes 64, the length the given one in network order and the addresses swap, and no other word changes but the checksum |
| `Checksum.UpdatedCheck` | bpf/tcp_syncookies.h:72-92 | the incremental update balances the changed words |
| `Checksum.SwapAddresses` | bpf/tcp_syncookies.h:552 | swapping the addresses keeps the sum |
| `Checksum.TcpCsumUpdate` | bpf/tcp_syncookies.h:94-131 | the emitted checksum balances header, addresses, protocol and length |
| `Checksum.FoldTotal` | bpf/tcp_syncookies.h:94-131 | two folds to 32 bits and one to 16 keep the sum modulo 65535 |
| `Checksum.LengthsAgree` | bpf/tcp_syncookies.h:104-125 | the IPv4 and IPv6 forms of protocol and length agree modulo 65535 |
| `Checksum.HalvesSum` | bpf/tcp_syncookies.h:97-109 | adding 32-bit address words is adding their halves modulo 65535 |
| `Checksum.SynAckChecksIff` | bpf/tcp_syncookies.h:499-572 | a segment whose header and pseudo-header balance checks out exactly when length and octets of the data behind the header, and of nothing beyond, cancel out |
| `SynAck.MakeSynAck` | bpf/tcp_syncookies.h:499-572 | turns the octets of a SYN into those of its SYN-ACK: swapped ports, cookie and acknowledgement numbers in network order, offset, ACK added to the flags, window 65535, options octet by octet with the segment size in network order, nothing behind the header, and the new IP length; over IPv4 and IPv6 a receiver accepts it exactly when the answer fits the frame and the data behind its header balances itself |
| `SynAck.OptionsSpelled` | bpf/tcp_syncookies.h:425-488 | the option octets: segment size, window scale 7, SACK, cookie timestamp and echoed timestamp, each where the frame has room |
| `SynAck.AcceptedIff` | bpf/tcp_syncookies.h:541-568 | for every old and new length, wrap-around of the length field included, acceptance is exactly that condition |
| `SynAck.AnswersAtBorders` | bpf/tcp_syncookies.h:499-572 | it holds without data, fails with one zero octet, and fails for a word of data behind a header without options or padding |
| `SynAck.TenOctetsCut` | bpf/tcp_syncookies.h:436-466 | ten octets of data without options: two words are written over them and the length passes the frame by eight octets |
| `SynAck.WriteOptions` | bpf/tcp_syncookies.h:499-506 | the option words follow from the room in the frame and the client's options; nothing else is written |
| `SynAck.ReplyLength` | bpf/tcp_syncookies.h:425-488 | how many words the options of the answer take |
| `SynAck.StoreChecksum` | bpf/tcp_syncookies.h:525-568 | the stored checksum makes header and pseudo-header balance; only ports and checksum change |
| `SynAck.RewriteHeader` | bpf/tcp_syncookies.h:511-516 | sequence numbers, offset, flags and window of the answer, nothing else |
| `SynAck.CsumDiff` | bpf/tcp_syncookies.h:525-526 | a 32-bit sum with end-around carry is the sum of the octets as words modulo 65535 |
| `SynAck.PseudoHeader` | bpf/tcp_syncookies.h:104-125 | both address families add the same lengths |
| `TcpOptions.ScanEncode` | bpf/tcp_syncookies.h:232-322 | every list of well-sized options is read back as written |
| `TcpOptions.ScanSound` | bpf/tcp_syncookies.h:232-322 | only such lists, ended by end-of-list or the area, are accepted |
| `TcpOptions.LastScaleTaken` | bpf/tcp_syncookies.h:287-296 | the last window scale counts, capped at 14 |
| `TcpOptions.FirstTimestampTaken` | bpf/tcp_syncookies.h:303-313 | the first non-zero timestamp counts, its first octet weighing most |
| `TcpOptions.SackTaken` | bpf/tcp_syncookies.h:297-302 | one SACK option suffices |
| `TcpOptions.TakeNone` | bpf/tcp_syncookies.h:232-322 | an option that does not occur leaves its field alone |
| `TcpOptions.OptCtx.ParseOne` | bpf/tcp_syncookies.h:232-322 | one iteration stops with the outcome of the rest or moves on with the same outcome, always in bounds |
| `TcpOptions.OptCtx.TakeValue` | bpf/tcp_syncookies.h:286-314 | stores the value exactly if the option has its size |
| `TcpOptions.Run` | bpf/tcp_syncookies.h:366-375 | 41 iterations always suffice |
| `TcpOptions.ParseOpts` | bpf/tcp_syncookies.h:337-376 | the outcome is that of the option list; every malformed or truncated header is rejected; the iteration limit never shows |
| `TcpOptions.LoadBytes` | bpf/tcp_syncookies.h:358-364 | copies exactly the option area |
| `TcpOptions.CookieTsExact` | bpf/tcp_syncookies.h:389-412 | the cookie is the one clock value of the last 64 ms, modulo 2^32, with the encoded low bits |
| `TcpOptions.CookieFields` | bpf/tcp_syncookies.h:389-412 | window scale, SACK and ECN can be read back from it |
| `TcpOptions.WriteOpts` | bpf/tcp_syncookies.h:425-488 | writes exactly the advertised options behind the header, never beyond the packet, and returns their exact length |
| `TcpOptions.WriteWords` | bpf/tcp_syncookies.h:433-488 | word by word up to the room left |
| `TcpOptions.WriteLastWords` | bpf/tcp_syncookies.h:451-486 | SACK and timestamp words by room and client options |
| `TcpOptions.ReplyWords` | bpf/tcp_syncookies.h:425-488 | the words written are the encoded option list |
| `TcpOptions.ReplyParses` | bpf/tcp_syncookies.h:425-488 | the option list written is read back with exactly what was advertised |
| `TcpOptions.SizeAdvertised` | bpf/tcp_syncookies.h:438-443 | the option list announces the segment size first |
| `TcpOptions.WriteAndParse` | bpf/tcp_syncookies.h:425-505 | parsing the packet the writer left, with the data offset of the answer, succeeds with exactly the advertised options, and its first option announces the segment size |
| `TcpOptions.OptCtx.ParseSized` | bpf/tcp_syncookies.h:273-321 | an option with a length octet stops with the outcome of the rest or moves on with the same outcome |
| `IncidentTally.SoundEvent` | bpf/incident_log.h:119-162 | recording or dropping one incident keeps the books, per address and in total |
| `IncidentTally.SoundWrite` | logger/incident_log_plugin/incident_log_processor.cc:173-200 | handing a batch to the writer keeps the books |
| `IncidentTally.SoundLose` | lib/bpf/hash_map.hh:103-113 | so does a failing batch, recorded with what it removed |
| `IncidentTally.SoundSwap` | logger/incident_log_plugin/incident_log_processor.cc:158-171 | so does swapping the maps |
| `IncidentTally.ColumnsAgree` | logger/incident_log_plugin/incident_log_processor.cc:173-200 | for every address the incidents seen, the sum of their sizes and the set of their reasons are those in the maps, written, dropped and lost |
| `IncidentTally.SeenCounts` | bpf/incident_log.h:129-141 | packets and octets seen are the incidents of the address and the sum of their sizes |
| `IncidentTally.SeenWhy` | bpf/incident_log.h:129-141 | the reasons seen are those of the incidents of the address |
| `IncidentTally.WrittenWhy` | logger/incident_log_plugin/incident_log_processor.cc:181-190 | the reasons written are those of the rows of the address |
| `IncidentTally.ConservedIff` | logger/incident_log_plugin/incident_log_processor.cc:173-200 | over any run, seen equals maps plus written plus dropped exactly when no batch failed after removing an entry |
| `IncidentTally.LossFreeIff` | lib/bpf/hash_map.hh:99-118 | no packet is lost exactly when no batch failed after removing an entry |
| `IncidentTally.FailingBatchLoses` | lib/bpf/hash_map.hh:103-113 | an incident whose entry a failing batch removed is in no map, not written and not counted |
| `IncidentTally.PacketsSplit` | lib/bpf/hash_map.hh:99-118 | removing a batch splits the packet total |
| `IncidentLog.IncidentLogProcessor.constructor` | logger/incident_log_plugin/incident_log_processor.cc:20-36 | two empty maps, the first active |
| `IncidentLog.IncidentLogProcessor.UpdateMapInfo` | bpf/incident_log.h:97-117 | counts inserts since the active map last changed |
| `IncidentLog.IncidentLogProcessor.PushSwapEvent` | bpf/incident_log.h:35-45 | stamps a swap request |
| `IncidentLog.IncidentLogProcessor.UpdateDropCnt` | bpf/incident_log.h:73-83 | counts the incident as dropped; books kept |
| `IncidentLog.IncidentLogProcessor.StoreNew` | bpf/incident_log.h:134-150 | a new entry keeps the insert counter at or above the map's size and asks for a swap from the threshold on |
| `IncidentLog.IncidentLogProcessor.RegisterIncident` | bpf/incident_log.h:119-162 | a recorded incident adds one packet, its size and its reason to the entry of its address, which is new or not, else it is dropped and counted, exactly as the kernel answers; asks for a swap exactly when due; a full map has been preceded by a swap request for every entry beyond the threshold, less what a failed drain left behind |
| `IncidentLog.IncidentLogProcessor.Traffic` | bpf/incident_log.h:119-162 | any number of incidents keeps all invariants |
| `IncidentLog.IncidentLogProcessor.SwapActiveMap` | logger/incident_log_plugin/incident_log_processor.cc:158-171 | switches the datapath to the other map, or changes nothing |
| `IncidentLog.IncidentLogProcessor.AppendEvents` | logger/incident_log_plugin/incident_log_processor.cc:181-190 | hands every removed entry to the writer once, with the drop counter of the round |
| `IncidentLog.IncidentLogProcessor.DrainBatch` | lib/bpf/hash_map.hh:99-118 | one batch leaves the map for the writer, or on a fault for nowhere; exactly the removed entries, with the drop counter of the round; nothing written before changes |
| `IncidentLog.IncidentLogProcessor.ReadAndClearInactiveMap` | logger/incident_log_plugin/incident_log_processor.cc:173-200 | with incidents in between: success empties the inactive map and no batch failed, failure ended in a failing batch or for lack of memory; what was written and counted stays |
| `IncidentLog.IncidentLogProcessor.HandleSwapEvent` | logger/incident_log_plugin/incident_log_processor.cc:202-225 | swaps, drains and restarts the timer, or changes neither maps nor timer; every request up to the end of the drain is older than the new swap time; what was written and counted stays; says whether the drain succeeded |
| `IncidentLog.IncidentLogProcessor.Consume` | logger/incident_log_plugin/incident_log_processor.cc:63-106 | swaps exactly when stopping, when the timer ran out or when a request is newer than the end of the last drain, if the kernel accepts; books kept, what was written and counted stays; says whether all drains succeeded |
| `IncidentLog.IncidentLogProcessor.DrainedConserves` | logger/incident_log_plugin/incident_log_processor.cc:173-200 | as long as every drain has succeeded, every incident is in a map, written or counted as dropped |
| `IncidentLog.IncidentLogProcessor.EveryAddressAccounted` | logger/incident_log_plugin/incident_log_processor.cc:173-200 | whatever has failed, packets, octets and reasons of every address are accounted for |
| `DnsName.LengthSound` | bpf/dns.h:117-141 | a length is found only for a well-formed name, of at most 257 octets |
| `DnsName.LengthComplete` | bpf/dns.h:117-141 | and for every well-formed name whose labels take at most 255 |
| `DnsName.LongNameAccepted` | bpf/dns.h:118-121 | a name of 257 octets is accepted |
| `DnsName.ProcessLabel` | bpf/dns.h:117-141 | one label at a time, every read in bounds |
| `DnsName.Metadata.ProcessDnameGlobal` | bpf/dns.h:147-174 | the whole name; the limit of 255 labels never decides |
| `DnsName.Metadata.ProcessDname` | bpf/dns.h:176-196 | succeeds exactly if a name starts at the cursor and ends strictly inside the packet; the cursor is then just behind it |
| `DnsName.NameThere` | bpf/dns.h:176-196 | names in place and found lengths correspond |
| `Headers.ParseEthhdr` | bpf/parsing_helpers.h:159-189 | protocol and offset behind at most two whole VLAN tags |
| `Headers.Follow` | bpf/parsing_helpers.h:191-221 | the unbounded chain ends in bounds, at a header that is neither an extension nor a fragment |
| `Headers.SkipIp6hdrext` | bpf/parsing_helpers.h:191-221 | finds that header exactly if at most five extension headers precede it; reads stay in bounds |
| `Headers.ParseIp6hdr` | bpf/parsing_helpers.h:223-240 | accepts exactly a whole version-6 header |
| `Headers.ParseIphdr` | bpf/parsing_helpers.h:242-266 | accepts exactly a whole version-4 header with a valid length |
| `Headers.InProcessL3` | bpf/xdp.c:365-427 | goes on exactly for acceptable IPv4 and IPv6, with both offsets within their bounds |
| `Headers.FindTcp` | bpf/xdp.c:600-610 | finds a TCP header exactly where the frame has one; the offset checks then always succeed |
| `Frames.Ipv4FrameLocated` | bpf/parsing_helpers.h:242-266 | in every frame written with up to two VLAN tags and an unfragmented IPv4 header the TCP header is found behind the IP options |
| `Frames.Ipv6FrameLocated` | bpf/parsing_helpers.h:191-221 | in every such IPv6 frame it is found behind the extension headers, authentication headers in units of four octets and the others of eight, exactly if there are at most five |
| `Frames.TagsSkipped` | bpf/parsing_helpers.h:159-189 | tags are skipped and the type behind them is read in network order |
| `Frames.ChainFollowed` | bpf/parsing_helpers.h:191-221 | a chain of well-sized extension headers is followed to its end |
| `Frames.TcpHeaderSized` | bpf/parsing_helpers.h:334-355 | the TCP header has the size its data offset gives, if it is whole |
| `XxHash.SynXxh64Ipv4` | bpf/syn_hash.h:143-172 | unrolling two blocks is the generic algorithm, whatever the mixing steps, as long as packing agrees with loading |
| `XxHash.SynXxh64Ipv6` | bpf/syn_hash.h:199-286 | the same for a stripe and a block, with accumulators updated in place |
| `XxHash.SynHashIpv4` | bpf/syn_hash.h:143-172 | the unrolled IPv4 hash is XXH64 of the 16 serialized octets, for every tuple and seed |
| `XxHash.SynHashIpv6` | bpf/syn_hash.h:199-286 | the unrolled IPv6 hash is XXH64 of the 40 serialized octets, for every tuple and seed |
| `XxHash.Xxh64Packs` | bpf/syn_hash.h:78-83 | with XXH64's own steps, packing blocks by shifts is loading them from little-endian memory |
| `XxHash.RotlMoves` | bpf/xxh64_hash.h:92-106 | rotating moves every bit up by the amount, around the end |
| `XxHash.EmptyVector` | bpf/xxh64_hash.h:228-253 | the hash of the empty input is the published one |
| `XxHash.AlphabetVector` | bpf/xxh64_hash.h:108-253 | so is that of the 26 letters, by blocks of eight and single octets |
| `XxHash.StripeVector` | bpf/xxh64_hash.h:44-253 | and that of 39 octets, by a stripe, a block of four and single octets |
| `XxHash.Layout4` | bpf/syn_hash.h:143-172 | where the fields of the IPv4 tuple lie |
| `XxHash.Layout6` | bpf/syn_hash.h:199-286 | where the fields of the IPv6 tuple lie |
| `XxHash.LongInput` | bpf/syn_hash.h:199-286 | one stripe is absorbed by four rounds and a merge |
| `XxHash.InitAccsInPlace` | bpf/xxh64_hash.h:65-72 | fills the four accumulators |
| `XxHash.HashTwo` | bpf/syn_hash.h:143-172 | hashing two blocks is two updates and the avalanche |
| `XxHash.HashStripe` | bpf/syn_hash.h:199-286 | hashing one stripe and one block is four rounds, a merge, one update and the avalanche |

## Left out

- Servers, message decoding, statistics, logging output and command-line tools: plumbing around the modelled state.
- Decoding of MaxMind database files, LPM lookups in the kernel and the country rules built from the imported table: the model starts at decoded search-tree nodes and ends at the prefix table.
- TCP anomaly, ICMP, source, destination and protected-network decisions of the datapath, and the DNS query and answer checks behind the name walk: sequences of independent tests.
- `set_simple_rules`, `set_tcp_anomaly_rule`, `set_prot_net_settings` and `turn_filtration_on`: one upload each, without buckets, or the same double buffering as the source maps.
- Kernel side of SYN cookies (generation and validation) and socket lookup: their answers are parameters.
- Building the source rule maps from configuration and country prefixes: the model starts at six finished maps.
- RateLimiter.IsWithinRlimit: packets of one bucket are handled one after another; the lost updates that the code accepts when several CPUs race for a slot are not modelled.
- RateBuckets.BucketArray.Traffic: traffic sees the published rules as a whole; a packet that still uses rules read before a publication is not modelled.
- MapsManager.BpfMapsManager.SetRules: rules are requests per key; that one rule of a group is reconciled once per key with the same object is not visible in the model.
- ShadowHashMap.BpfShadowHashMap.Replace: failing memory allocation in user space is not modelled.
- RatelimitTable.Ratelimits.MoveFrom: the moved-from table and the lifetime of the index's string views are not modelled.
- TcpAuth.AuthenticatedOnly: for traces whose times stay a close timeout below the end of the 64-bit clock; evictions by the kernel's LRU map are arbitrary events.
- TcpTracker.Tracker.Handle: promises the grounds for the same traces, and only while the clock has not wrapped around.
- TcpTrust.OneMinuteIff: for FINs earlier than a close timeout before the end of the 64-bit clock.
- Checksum.RewriteIpv4: the header's protocol is TCP, as the caller has established.
- SynAck.MakeSynAck: for frames more than 40 octets below the 65536 the IP length field can count; Ethernet addresses and the IPv6 hop limit are not modelled, and the rewritten IPv4 header is `Checksum.RewriteIpv4`.
- IncidentLog.IncidentLogProcessor.RegisterIncident: one step; a datapath program that looked up a map before a swap and writes to it afterwards is not modelled, nor are wrap-around of the 64-bit counters and the sum of `drop_cnt` over CPUs.
- DnsName.Metadata.ProcessDname: for packets shorter than 65536 octets, which the 16-bit cursor can address.
- XxHash.SynHashIpv4: a little-endian machine, as the code's packing presumes.
