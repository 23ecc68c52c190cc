# Maskman, modelled and proved in Dafny

Maskman is an HTTP/3 MASQUE proxy. It tunnels IP and UDP for clients, leases them addresses, exchanges routes
with them, and changes the host it runs on (forwarding sysctls, NAT, a TUN device, routes) while it does so.
This project models the parts of it that carry state or arithmetic and proves what the rest relies on:

* **Codecs.** QUIC variable-length integers (section 16 of RFC 9000), the capsule protocol (section 3.2 of
  RFC 9297) with its incremental decoder, HTTP datagrams (section 2.1 of RFC 9297), and the address and route
  capsules (section 4.7 of RFC 9484). `Varint`, `Capsules`, `CapsuleDecoder`, `Datagrams`, `AddressCapsule`,
  `RouteRanges`, `RouteCapsule`.
* **Policy.** CIDR arithmetic, the classifier of global addresses, the destination, prefix and range checks, and
  the routes a session is offered. `Net`, `AddressScope`, `Policy`, `IpScope`.
* **Sessions.** The registry with its dispatch index over every run, the answers to address requests, the
  address pools, and both over the lives of tunnels. `IpRegistry`, `RegistryRuns`, `AddressRequest`,
  `AddressPools`, `TunnelRuns`.
* **Packets.** Checksums, parsing, the hop limit rewrite, ICMP errors, and what a session makes of packets from
  either side. `Checksums`, `Packets`, `IcmpErrors`, `ClientPackets`.
* **Limits.** Token buckets and per-principal quotas. `TokenBuckets`, `Quotas`.
* **Failure.** The write-ahead journal of platform resources, start-up and cleanup with a failure at any step,
  and the installation of an update. `ResourceJournal`, `Startup`, `Install`.
* **End to end.** What arrives on a stream or in a packet means the same in every part. `EndToEnd`.
* **Ground.** Octets, numbers, sorting and sets: `Bytes`, `AddressOctets`, `Basics`, `Wrappers`.

`dafny verify dfyconfig.toml` checks the whole project.

## How the model is built

An object whose methods change its fields is a class with those fields, and each method is proved against a
function or relation on values; the properties are lemmas about those. Concurrency is modelled by one event per
critical section, in any order. Platform calls succeed, fail, or fail although they took effect, as an arbitrary
choice; every state in between is recorded in a ghost trace, so that a property of every recorded state is a
property of a crash at any point. Clock readings are parameters that never go back.

The callers' promises taken from the source are: a stream key is not used again once its session is gone
(`crates/maskman-server/src/transport_context.rs:94`), a session is inserted with a handle of its own and no
routes (`crates/maskman-server/src/proxy/ip.rs:122`), and pools lease host prefixes. The updater's binary,
backup and staged paths are distinct, and a rename or removal that reports an error did nothing.

## What the proofs found

Where the code does not do what its names or comments suggest, the code is followed, an input is given (the first
lemma named), and the condition under which it does is proved:

* `Policy.RangeUnsoundV6`: the static list of denied IPv6 networks is narrower than the classifier, so a range
  may be accepted with addresses that are then refused. `Policy.RangeSoundExactlyV6` says when not.
* `Policy.ShortBlocksNeedTheGuard`: both ends of 0.0.0.0/1 are reserved and most of it is not; the length guard
  is what makes looking at two addresses enough.
* `IpScope.IntersectionCanWiden`: the intersection of two networks is the wider configured route when the
  narrower target starts where it does. `IpScope.IntersectionExactly` gives the condition for two networks,
  `IpScope.OfferedMatchesExactly` for a whole advertisement.
* `RegistryRuns.QuotingCanDisagree`: an ICMP error is dispatched by the packet it quotes, and the session it goes
  to may refuse it by its outer destination. `RegistryRuns.QuotingDispatch` says when.
* `AddressRequest.FullListIsRefused`: a request list of the permitted length is refused when the assignments
  nobody asked for no longer fit beside the answers. `AddressRequest.RoomForVolunteered` says when, by how many
  of each family are held and asked for.
* `TokenBuckets.RefillCanVanish`: the cast to 64 bits can lose a whole refill. `TokenBuckets.RefillIsExact` says
  when nothing is lost.
* `TokenBuckets.HurriedBucketStarves`: calls in quick succession never refill the bucket, because each refill is
  rounded down. `TokenBuckets.HurriedCallsStarve` says how quick, and `TokenBuckets.LossIsBounded` how much is
  lost otherwise.
* `Quotas.TwiceTheLimitIsReached`: a minute can see twice the permitted number of new tunnels. With
  `Quotas.PromptGrantsAreBounded` it sees one fewer when no call is held up between two clock reads, and
  `Quotas.PromptBoundIsReached` shows that many.
* `IcmpErrors.LongHeadersAreNotNamed`: an ICMPv6 error about a packet with long extension headers names no
  packet. `IcmpErrors.ErrorV6Names`: it does exactly when those headers fit the quote.
* `ResourceJournal.PendingIsLeftOver`: cleaning up leaves a change that a pending entry announces.
  `ResourceJournal.ReplayLeaves`: nothing is left over exactly when no such change was made, and
  `Startup.CrashesAreCleanedUp` applies this to every state a crash of a start can leave.
* `ClientPackets.TrySend`: the error for a source that is not the client's own is never sent, because only a
  client's own addresses are told of errors.

## Model

| member | source | states |
|---|---|---|
| `Varint.Decode` | crates/maskman-protocol/src/varint.rs:13-27 | the loop computes the integer the octets from the front announce, or that they are cut short |
| `Varint.Encode` | crates/maskman-protocol/src/varint.rs:29-55 | the encoding lands at the front of the caller's buffer and the rest of it is untouched; too large a value or too short a buffer changes nothing |
| `Varint.RoundTrip` | crates/maskman-protocol/src/varint.rs:13-55 | every value up to 2^62-1, encoded and standing anywhere in an input, is read back with its length |
| `Varint.OnlyTruncationFails` | crates/maskman-protocol/src/varint.rs:13-27 | decoding succeeds exactly when the announced octets are there, fails only as truncated, and never yields more than 2^62-1 |
| `Varint.EncodingIsShortest` | crates/maskman-protocol/src/varint.rs:29-55 | no accepted encoding of a value is shorter than the one the encoder picks |
| `Capsules.Encode` | crates/maskman-protocol/src/capsule/encoder.rs:5-13 | appends type, length and value exactly when both integers fit; what is appended is the capsule and nothing else |
| `Capsules.HeaderIsExact` | crates/maskman-protocol/src/capsule/decoder.rs:196-204 | a header is recognised at its last octet and no sooner |
| `Capsules.SixteenOctetsSuffice` | crates/maskman-protocol/src/capsule/decoder.rs:86-89 | an incomplete header has at most 15 octets, so the 16-octet buffer never overflows |
| `CapsuleDecoder.Decoder.Push` | crates/maskman-protocol/src/capsule/decoder.rs:110-144 | never fails on any chunk, stays within its header buffer, and ends in the state and with the events of feeding each octet in turn |
| `CapsuleDecoder.Decoder.Finish` | crates/maskman-protocol/src/capsule/decoder.rs:146-151 | succeeds exactly between capsules |
| `CapsuleDecoder.Decoder.BufferedLen` | crates/maskman-protocol/src/capsule/decoder.rs:153-161 | what is buffered is at most the larger of 15 octets and the largest limit |
| `CapsuleDecoder.ChunkingIndependence` | crates/maskman-protocol/src/capsule/decoder.rs:110-187 | from any state, every split of an input into chunks gives the events and final state of the whole |
| `CapsuleDecoder.RefinesOneShot` | crates/maskman-protocol/src/capsule/decoder.rs:110-187 | for every input the decoder reports exactly the whole capsules a one-shot parser finds and holds exactly the octets after them |
| `CapsuleDecoder.BufferingIsBounded` | crates/maskman-protocol/src/capsule/decoder.rs:153-161 | over every run of chunks the bound on buffered octets holds |
| `CapsuleDecoder.FinishMeansWholeCapsules` | crates/maskman-protocol/src/capsule/decoder.rs:146-151 | after any chunks the stream may end exactly when no octets follow the last whole capsule |
| `CapsuleDecoder.StreamRoundTrip` | crates/maskman-protocol/src/capsule/encoder.rs:5-13 | any sequence of capsules, encoded and cut anywhere, comes back capsule for capsule, the unknown and oversized ones reported as skipped |
| `Datagrams.Encode` | crates/maskman-server/src/datagram.rs:33-48 | succeeds exactly for request streams with an encodable quarter identifier, and yields that encoding followed by the payload |
| `Datagrams.LayeredRoundTrip` | crates/maskman-server/src/datagram.rs:20-48 | stream identifier, context identifier and payload all come back through both layers |
| `Datagrams.EncodeContext` | crates/maskman-protocol/src/capsule/datagram.rs:24-34 | appends the context identifier and the payload exactly when the identifier fits; otherwise nothing is written |
| `Datagrams.ContextRoundTrip` | crates/maskman-protocol/src/capsule/datagram.rs:19-34 | a context datagram decodes to what was encoded |
| `Datagrams.AcceptedCanBeResent` | crates/maskman-server/src/datagram.rs:20-31 | every accepted datagram names a request stream, and re-encoding it means the same in no more octets |
| `Datagrams.RefusedExactly` | crates/maskman-server/src/datagram.rs:20-31 | a datagram is refused as cut short exactly when it is shorter than its first octet announces, and as invalid exactly when that octet begins an eight-octet identifier of 2^60 or more |
| `RouteRanges.ValidateRanges` | crates/maskman-protocol/src/capsule/route.rs:143-186 | the loops over neighbours and the binary search for wildcards compute the verdict, first error first |
| `RouteRanges.AcceptedExactly` | crates/maskman-protocol/src/capsule/route.rs:143-186 | a list is accepted exactly when well formed, ordered by version, protocol and start, disjoint in each group, and no wildcard range overlaps a scoped one |
| `RouteRanges.NoConflicts` | crates/maskman-protocol/src/capsule/route.rs:24-31 | no two ranges anywhere in an accepted list conflict, though only neighbours and one searched candidate are looked at |
| `RouteRanges.PartitionPoint` | crates/maskman-protocol/src/capsule/route.rs:169-183 | the binary search returns how many leading ranges end before an address |
| `RouteRanges.MeetsWildcard` | crates/maskman-protocol/src/capsule/route.rs:169-183 | one binary search decides whether any wildcard range of an ordered family overlaps a range |
| `RouteRanges.SublistValid` | crates/maskman-protocol/src/capsule/route.rs:143-186 | any sublist, in order, of an accepted list is accepted |
| `RouteCapsule.Encode` | crates/maskman-protocol/src/capsule/route.rs:107-129 | writes exactly the valid lists; a refusal writes nothing and says why |
| `RouteCapsule.Decode` | crates/maskman-protocol/src/capsule/route.rs:76-105 | the loop computes the list the octets hold, or the first error |
| `RouteCapsule.RoundTrip` | crates/maskman-protocol/src/capsule/route.rs:76-141 | every valid advertisement is read back as it was written |
| `RouteCapsule.EncodingIsUnique` | crates/maskman-protocol/src/capsule/route.rs:76-141 | every accepted capsule holds a valid advertisement and is its only encoding |
| `RouteCapsule.RouteAdvertisement.Replace` | crates/maskman-protocol/src/capsule/route.rs:69-73 | all or nothing: the routes become what the capsule holds, or stay |
| `AddressCapsule.EncodeEntries` | crates/maskman-protocol/src/capsule/address.rs:132-148 | succeeds exactly for at most 256 entries with encodable identifiers, appending their encoding |
| `AddressCapsule.EncodeRequest` | crates/maskman-protocol/src/capsule/address.rs:113-130 | succeeds exactly for a list that is not empty, whose identifiers are distinct, not zero and encodable, of at most 256 entries |
| `AddressCapsule.DecodeAssign` | crates/maskman-protocol/src/capsule/address.rs:64-78 | the loop computes the entries the octets hold, or the first error |
| `AddressCapsule.DecodeRequest` | crates/maskman-protocol/src/capsule/address.rs:80-104 | the loop, with its set of seen identifiers, computes the request the octets hold, or the first error |
| `AddressCapsule.AssignRoundTrip` | crates/maskman-protocol/src/capsule/address.rs:64-202 | an assignment list comes back whole exactly when no prefix in it has host bits set |
| `AddressCapsule.RequestRoundTrip` | crates/maskman-protocol/src/capsule/address.rs:80-202 | every aligned request the encoder lets through comes back |
| `AddressCapsule.AcceptedRequests` | crates/maskman-protocol/src/capsule/address.rs:80-104 | an accepted request has between one and 256 aligned prefixes under distinct nonzero identifiers, and survives re-encoding |
| `AddressCapsule.AddressAssignments.Replace` | crates/maskman-protocol/src/capsule/address.rs:57-61 | all or nothing, as for routes |
| `AddressRequest.RequestingSession.AddressRequestCapsule` | crates/maskman-server/src/proxy/ip.rs:204-246 | answers exactly when the list is short enough, repeats no answered identifier and its response fits a capsule; only then are its identifiers remembered |
| `AddressRequest.AnsweredInOrder` | crates/maskman-server/src/proxy/ip.rs:204-246 | each request is answered once, in order, in its family; the entries after carry identifier zero |
| `AddressRequest.RejectedExactly` | crates/maskman-server/src/proxy/ip.rs:409-443 | a request is rejected exactly when every assignment of its family went to earlier requests |
| `AddressRequest.PreferenceIsKept` | crates/maskman-server/src/proxy/ip.rs:409-426 | when a free assignment lies in the requested prefix, the request gets the first such one |
| `AddressRequest.EveryAssignmentOnce` | crates/maskman-server/src/proxy/ip.rs:204-246 | every assigned prefix stands at exactly one place of the response; all other entries are rejections |
| `AddressRequest.VolunteeredCount` | crates/maskman-server/src/proxy/ip.rs:236-242 | what is volunteered is, in each family, what is held beyond what was asked for |
| `AddressRequest.RoomForVolunteered` | crates/maskman-server/src/proxy/ip.rs:204-246 | fresh requests are answered exactly when they and, family by family, what is held beyond them are together at most 256 |
| `AddressRequest.FullListIsRefused` | crates/maskman-server/src/proxy/ip.rs:204-246 | a session with an address of each family refuses 256 fresh requests of one family |
| `AddressRequest.ClientReadsResponse` | crates/maskman-server/src/proxy/ip.rs:403-407 | the client decodes exactly the response |
| `AddressRequest.AnsweredOnce` | crates/maskman-server/src/proxy/ip.rs:211-245 | over any sequence of calls no identifier is answered twice |
| `Net.NestedOrDisjoint` | crates/maskman-server/src/policy.rs:125-135 | two CIDR blocks are nested or disjoint |
| `Net.CommonAddress` | crates/maskman-server/src/policy.rs:125-135 | two blocks that share an address hold the first address of one another |
| `AddressScope.GlobalExactly` | crates/maskman-protocol/src/packet/scope.rs:30-112 | the masks, shifts and octet tests of the classifier amount to a list of intervals |
| `Policy.EndsDecide` | crates/maskman-server/src/policy.rs:206-215 | for a block of length 8 (IPv4) or 7 (IPv6) or more, both ends are non-global exactly when every address is |
| `Policy.ShortBlocksNeedTheGuard` | crates/maskman-server/src/policy.rs:206-215 | a shorter block with both ends non-global and a global address inside |
| `Policy.PrefixNeverTooStrict` | crates/maskman-server/src/policy.rs:50-60 | a prefix that contains an address the policy allows is never rejected, aligned or not |
| `Policy.PrefixExactly` | crates/maskman-server/src/policy.rs:50-60 | a prefix is accepted exactly when one role allows an address in it, denies it through no one network, and finds it short or not wholly non-global if it refuses private space |
| `Policy.OverlapIsIntersection` | crates/maskman-server/src/policy.rs:141-155 | the three-way overlap test is interval intersection |
| `Policy.DefaultDeniedNetworks` | crates/maskman-server/src/policy.rs:161-192 | the list built holds exactly the networks the proofs reason about |
| `Policy.AuthorizeDestinationRange` | crates/maskman-server/src/policy.rs:62-81 | the loops over roles and the static list decide whether some role allows the range |
| `Policy.RangeExact` | crates/maskman-server/src/policy.rs:62-81 | a range of either family is accepted exactly when one role allows all of it in one network, denies none of it and, if it refuses private space, finds none of it in the static list |
| `Policy.DefaultListExactV4` | crates/maskman-server/src/policy.rs:161-192 | the denied IPv4 networks are together exactly what the classifier calls non-global |
| `Policy.RangeExactV4` | crates/maskman-server/src/policy.rs:62-81 | an IPv4 range is accepted exactly when one role allows all of it in one network, denies none of it and, if it refuses private space, finds all of it global |
| `Policy.RangeSoundV4` | crates/maskman-server/src/policy.rs:62-81 | every address of an accepted IPv4 range passes the destination check |
| `Policy.RangeSound` | crates/maskman-server/src/policy.rs:62-81 | every address of an accepted range passes the destination check, for IPv6 when some role that accepts the range keeps its promise |
| `Policy.RangeSoundExactlyV6` | crates/maskman-server/src/policy.rs:157-192 | for IPv6 a role keeps that promise exactly when it does not refuse private space or the range avoids what the static list forgets |
| `Policy.RangeUnsoundV6` | crates/maskman-server/src/policy.rs:180-186 | a role, an IPv6 range it accepts, and an address of it the role refuses |
| `IpScope.ValidateAdvertiseRoutes` | crates/maskman-config/src/validate.rs:422-445 | accepts exactly the lists whose neighbours are ordered and disjoint |
| `IpScope.NeighboursSeparateAll` | crates/maskman-config/src/validate.rs:422-445 | ordered, disjoint neighbours order and separate every pair |
| `IpScope.Advertisement` | crates/maskman-server/src/proxy/ip_scope.rs:63-95 | the passes over the list (intersecting, filtering and mapping, sorting, dropping repeats) leave the ranges `Offered` stands for, or the error of checking them; what these are is stated by the rows below |
| `IpScope.OfferedIsValid` | crates/maskman-server/src/proxy/ip_scope.rs:63-95 | with accepted routes, the offered ranges are always a valid advertisement |
| `IpScope.AdvertisementNeverFails` | crates/maskman-server/src/proxy/ip.rs:248-260 | building a session's advertisement never fails, and filtering by policy leaves it valid |
| `IpScope.AdvertisedExactly` | crates/maskman-server/src/proxy/ip.rs:248-260 | advertised is exactly what is offered and what the policy authorizes as a range |
| `IpScope.AdvertisedIsAuthorized` | crates/maskman-server/src/proxy/ip.rs:248-260 | no address is advertised that the policy refuses; for IPv6, provided a role that keeps its promise accepted the range |
| `IpScope.OfferedCovers` | crates/maskman-server/src/proxy/ip_scope.rs:63-95 | sorting and deduplicating neither lose nor add an address |
| `IpScope.OfferedInsideConfigured` | crates/maskman-server/src/proxy/ip_scope.rs:63-108 | unless the target was resolved to addresses, nothing outside the configured routes is offered |
| `IpScope.OfferedCoversTarget` | crates/maskman-server/src/proxy/ip_scope.rs:37-95 | every configured address the scope matches, of a family the client was given, is offered |
| `IpScope.ResolvedOfferedExactly` | crates/maskman-server/src/proxy/ip_scope.rs:63-95 | a resolved target is offered exactly, in the families the client was given |
| `IpScope.IntersectionExactly` | crates/maskman-server/src/proxy/ip_scope.rs:97-108 | the intersection is exact exactly unless a wider route starts where the target starts |
| `IpScope.IntersectionCanWiden` | crates/maskman-server/src/proxy/ip_scope.rs:97-108 | a target, a route, and an address of their intersection outside the target |
| `IpScope.OfferedMatchesExactly` | crates/maskman-server/src/proxy/ip_scope.rs:37-108 | every address offered matches the scope exactly when the target is no prefix that a route of a served family starts with and exceeds |
| `IpScope.CompatibleTunnelsHaveRoutes` | crates/maskman-server/src/proxy/ip_scope.rs:51-95 | only a tunnel found compatible has a route to offer; a compatible one has, when resolved to addresses, and otherwise exactly when a configured route of a served family overlaps its target |
| `IpRegistry.IpSessionRegistry.Insert` | crates/maskman-server/src/proxy/ip_registry.rs:38-54 | registers the session under its key and addresses, or changes nothing |
| `IpRegistry.IpSessionRegistry.Remove` | crates/maskman-server/src/proxy/ip_registry.rs:56-63 | removes the stream with its addresses and routes and returns the session |
| `IpRegistry.ValidateRoutes` | crates/maskman-server/src/proxy/ip.rs:272-291 | the loop accepts exactly a decodable list of at most 256 ranges, every one within the policy, or gives the first error |
| `IpRegistry.IpSessionRegistry.ReplaceRoutes` | crates/maskman-server/src/proxy/ip_registry.rs:65-89 | undisturbed, a call looks the session up, validates, and replaces; any refusal says why and changes nothing |
| `IpRegistry.IpSessionRegistry.Replace` | crates/maskman-server/src/proxy/ip_registry.rs:77-89 | the second critical section checks, replaces the slice, sorts and commits, or changes nothing |
| `IpRegistry.IpSessionRegistry.SelectSession` | crates/maskman-server/src/proxy/ip_registry.rs:153-172 | the address index first, then the first matching route |
| `IpRegistry.SortingRanks` | crates/maskman-server/src/proxy/ip_registry.rs:140-151 | sorting distinct routes orders them strictly by family, protocol, range and session |
| `Basics.SortedKeeps` | crates/maskman-server/src/proxy/ip_registry.rs:140-151 | sorting keeps exactly the routes it was given |
| `RegistryRuns.RunsStayCoherent` | crates/maskman-server/src/proxy/ip_registry.rs:37-151 | over every run, with replacements split in two: addresses and routes point only at live streams, each live session's slice is its committed advertisement, routes are sorted, at most 4096, pairwise without conflict, valid and within policy |
| `RegistryRuns.PlacesDoNotConflict` | crates/maskman-server/src/proxy/ip_registry.rs:120-138 | no two places of the route list conflict |
| `RegistryRuns.RegisteredRoutesAuthorized` | crates/maskman-server/src/proxy/ip.rs:272-291 | every address of every registered route is one the policy of its session allows; for IPv6, provided a role that keeps its promise accepted the route |
| `RegistryRuns.InsertExactly` | crates/maskman-server/src/proxy/ip_registry.rs:38-54 | insert succeeds exactly when the key is free and no live session owns the start of a prefix; otherwise nothing changes |
| `RegistryRuns.RemoveUndoesInsert` | crates/maskman-server/src/proxy/ip_registry.rs:38-63 | removing a session just inserted gives back the registry from before |
| `RegistryRuns.ReplaceExactly` | crates/maskman-server/src/proxy/ip_registry.rs:65-138 | replace succeeds exactly when the session lives, there is room and no other live session has a conflicting route; then only its advertisement changes, otherwise nothing |
| `RegistryRuns.DispatchIsExact` | crates/maskman-server/src/proxy/ip_registry.rs:153-172 | in every coherent registry a packet that quotes none is given a session exactly when some live session's own check takes it, and the one given does |
| `RegistryRuns.AtMostOneRoutes` | crates/maskman-server/src/proxy/ip.rs:390-400 | no two live sessions have a route for one packet that is not ICMP |
| `RegistryRuns.AtMostOneOwns` | crates/maskman-server/src/proxy/ip.rs:390-400 | no two live sessions own one address |
| `RegistryRuns.OwnerComesFirst` | crates/maskman-server/src/proxy/ip_registry.rs:153-156 | the owner of an address is chosen whatever routes others have |
| `RegistryRuns.QuotingDispatch` | crates/maskman-server/src/proxy/ip_registry.rs:157-172 | for a quoting ICMP error: a session is chosen exactly when one owns its destination or routes the quoted packet; the chosen one takes it exactly when its destination is owned, or the least-ranked route for the quoted packet is of a session that routes the error too; unless the quoted packet is ICMP as well, exactly when any session routes both |
| `RegistryRuns.QuotingCanDisagree` | crates/maskman-server/src/proxy/ip_registry.rs:157-172 | a run of one session with an address and a route of its own, and an ICMP error then sent to that session, which refuses it |
| `Checksums.FoldKeeps` | crates/maskman-protocol/src/packet/ipv4.rs:91-94 | folding keeps the sum modulo 65535 and reaches zero only from zero |
| `Checksums.FoldCarries` | crates/maskman-protocol/src/packet/ipv4.rs:91-93 | the carry loop terminates with the folded sum |
| `Checksums.ComplementCancels` | crates/maskman-protocol/src/packet/ipv4.rs:83-95 | adding the complement of any sum to it makes the checksum of the whole zero |
| `Checksums.StoredComplementVerifies` | crates/maskman-protocol/src/packet/mod.rs:153-156 | storing the complement in a word that was zero makes the recomputed checksum zero |
| `Checksums.Checksum` | crates/maskman-protocol/src/packet/icmp.rs:129-143 | the loop over pairs, with its saturating sum and odd last octet, computes the complement of the word sum |
| `Checksums.HeaderChecksum` | crates/maskman-protocol/src/packet/ipv4.rs:83-95 | the loop over whole words and the odd octet computes the complement of the word sum |
| `Packets.ParsePrefix` | crates/maskman-protocol/src/packet/mod.rs:59-67 | the loops of both versions compute the view or the first error |
| `Packets.WalkExtensions` | crates/maskman-protocol/src/packet/ipv6.rs:38-65 | the walk over extension headers ends where the recursive walk does, or with its error |
| `Packets.V4AcceptedExactly` | crates/maskman-protocol/src/packet/ipv4.rs:24-43 | an IPv4 packet is read exactly when its header is whole, sized consistently and sums to a positive multiple of 65535 |
| `Packets.V6AcceptedExactly` | crates/maskman-protocol/src/packet/ipv6.rs:28-73 | the walk accepts exactly the packets whose extension headers form a chain: known types, in bounds, hop-by-hop first, one fragment header, at most eight; and finds its end |
| `Packets.DecrementHopLimit` | crates/maskman-protocol/src/packet/mod.rs:142-162 | rewrites the buffer to the decremented packet, or refuses a malformed or expiring packet and leaves it alone |
| `Packets.DecrementKeepsPacket` | crates/maskman-protocol/src/packet/mod.rs:142-162 | the rewritten packet still parses, with hop limit one lower, the same addresses, protocol and payload, and every octet but hop limit and checksum the same |
| `IcmpErrors.BuildError` | crates/maskman-protocol/src/packet/icmp.rs:28-109 | fails exactly for a malformed invoking packet or a family mismatch, and otherwise answers it field by field; the length errors cannot occur |
| `IcmpErrors.BuildV4` | crates/maskman-protocol/src/packet/icmp.rs:46-78 | fills an IPv4 error: header, message, clamped MTU, quote of at most 548 octets, both checksums over zeroed fields |
| `IcmpErrors.BuildV6` | crates/maskman-protocol/src/packet/icmp.rs:80-109 | fills an IPv6 error: header, message, MTU, quote of at most 1232 octets, checksum over the pseudo-header |
| `IcmpErrors.ErrorV4IsWhole` | crates/maskman-protocol/src/packet/icmp.rs:46-78 | a built IPv4 error parses whole, from the given source to the invoking source, both checksums verify, and it has at most 576 octets |
| `IcmpErrors.ErrorV6IsWhole` | crates/maskman-protocol/src/packet/icmp.rs:80-109 | a built IPv6 error parses whole, its checksum verifies under the pseudo-header of section 8.1 of RFC 8200, and it has at most 1280 octets, which every allowed MTU carries |
| `IcmpErrors.ErrorV4Names` | crates/maskman-protocol/src/packet/mod.rs:118-136 | reading a built IPv4 error back finds the source, destination and protocol of the invoking packet |
| `IcmpErrors.ErrorV6Names` | crates/maskman-protocol/src/packet/mod.rs:118-136 | for IPv6 it does exactly when the invoking packet's headers fit the 1232-octet quote |
| `IcmpErrors.LongHeadersAreNotNamed` | crates/maskman-protocol/src/packet/mod.rs:118-136 | a packet whose errors name nothing |
| `ClientPackets.ForwardingError` | crates/maskman-server/src/proxy/ip.rs:313-335 | when the client may be told, an address of its family is always found, building never fails, and the error is whole, from the session to an address of its own, and within any MTU of 1280 or more |
| `ClientPackets.TrySend` | crates/maskman-server/src/proxy/ip.rs:149-193 | the verdict on a client's packet, and an error back exactly when the packet comes from the client's own address and is too long or goes where it may not; never one about the source |
| `ClientPackets.RepliesComeBack` | crates/maskman-server/src/proxy/ip.rs:337-401 | the reply to a packet a session let through is dispatched to that session and let through |
| `ClientPackets.ErrorsComeBack` | crates/maskman-server/src/proxy/ip.rs:349-378 | so is an ICMP error that quotes such a packet, wherever it comes from |
| `TokenBuckets.TokenBucket.Allow` | crates/maskman-server/src/proxy/ip.rs:461-472 | computes the admission and the new bucket, with flooring, 64-bit truncation, saturation and both clock reads |
| `TokenBuckets.RateIsKept` | crates/maskman-server/src/proxy/udp.rs:169-181 | between any two calls of any run, the bytes admitted are at most the burst plus rate times elapsed time |
| `TokenBuckets.BurstIsKept` | crates/maskman-server/src/proxy/udp.rs:164-181 | over every run the tokens never exceed the burst |
| `TokenBuckets.RefillIsExact` | crates/maskman-server/src/proxy/ip.rs:462-464 | a refill equals an ideal one exactly when the bucket is full anyway or nothing was truncated |
| `TokenBuckets.AdmissionIsExact` | crates/maskman-server/src/proxy/ip.rs:461-472 | then a call is admitted exactly when an ideal bucket has enough, and takes its amount or nothing |
| `TokenBuckets.RefillCanVanish` | crates/maskman-server/src/proxy/ip.rs:463 | a rate and a wait whose truncated refill is nothing |
| `TokenBuckets.HurriedCallsStarve` | crates/maskman-server/src/proxy/ip.rs:461-472 | calls each less than a byte's earning apart admit no more than the tokens at their start, however many they are |
| `TokenBuckets.HurriedBucketStarves` | crates/maskman-server/src/proxy/ip.rs:461-472 | three such calls, in which an ideal bucket earns two bytes and this one nothing |
| `TokenBuckets.LossIsBounded` | crates/maskman-server/src/proxy/ip.rs:461-472 | over any run without truncation or a full bucket, tokens and admitted bytes fall short of the ideal by less than a byte a call, besides what is earned between the two clock reads of each |
| `Quotas.QuotaState.Enter` | crates/maskman-server/src/session.rs:39-44 | the first critical section counts the call in, or refuses at the limit and leaves the entry |
| `Quotas.QuotaState.AskWindow` | crates/maskman-server/src/session.rs:46-63 | the second creates or restarts the window as needed and grants while it has room |
| `Quotas.QuotaState.BackOut` | crates/maskman-server/src/session.rs:55-58 | a refused call takes itself out of the count |
| `Quotas.QuotaState.Release` | crates/maskman-server/src/session.rs:68-78 | a dropped permit takes itself out of the count and removes an entry at zero |
| `Quotas.PermitsAreBounded` | crates/maskman-server/src/session.rs:32-78 | under every interleaving the count is live permits plus calls in flight, and live permits never exceed the limit |
| `Quotas.GrantsAreBounded` | crates/maskman-server/src/session.rs:46-63 | under every interleaving any half-open minute sees at most twice the per-minute limit of grants |
| `Quotas.DecrementsAreExact` | crates/maskman-server/src/session.rs:55-78 | no saturating decrement ever saturates |
| `Quotas.EntersExactly` | crates/maskman-server/src/session.rs:39-44 | a call enters exactly when fewer than the limit are live or in flight |
| `Quotas.GrantedExactly` | crates/maskman-server/src/session.rs:46-63 | a call that entered is granted exactly when the limit is not zero and the current window not full |
| `Quotas.RefusalLeavesCounts` | crates/maskman-server/src/session.rs:39-61 | a call that enters and backs out, or is released, leaves every count as it was |
| `Quotas.TwiceTheLimitIsReached` | crates/maskman-server/src/session.rs:46-63 | a run that reaches the factor two |
| `Quotas.PromptGrantsAreBounded` | crates/maskman-server/src/session.rs:46-63 | when creating and checking a window read the same time, any half-open minute sees at most one grant fewer than twice the limit |
| `Quotas.PromptBoundIsReached` | crates/maskman-server/src/session.rs:46-63 | a run without such delays that reaches this bound: three grants in a minute at a limit of two |
| `AddressPools.BoundsAreUsable` | crates/maskman-server/src/proxy/address_pool.rs:108-114 | for every prefix length the usable bounds are non-empty, inside the block, and their span fits 128 bits |
| `AddressPools.AddressPool.Lease` | crates/maskman-server/src/proxy/address_pool.rs:81-97 | the unbounded loop terminates with the first free address in cyclic order, or there is none |
| `AddressPools.AddressPool.Release` | crates/maskman-server/src/proxy/address_pool.rs:99-101 | frees the address and nothing else |
| `AddressPools.AddressPoolSet.Lease` | crates/maskman-server/src/proxy/address_pool.rs:24-40 | leases one address of each configured family that has one left, as host prefixes, IPv4 first |
| `AddressPools.CountDecidesExhaustion` | crates/maskman-server/src/proxy/address_pool.rs:85-88 | comparing the number of leases with the span decides whether every address is taken |
| `AddressPools.LeasesAreDistinct` | crates/maskman-server/src/proxy/address_pool.rs:59-102 | over every run live leases are distinct, and usable addresses of the pool as it was configured |
| `AddressPools.LeasesAreTracked` | crates/maskman-server/src/proxy/address_pool.rs:59-102 | over every run a pool counts an address as leased exactly when a live lease of its family holds it |
| `AddressPools.RefusedExactly` | crates/maskman-server/src/proxy/address_pool.rs:81-97 | a pool refuses exactly when live leases hold every usable address |
| `AddressPools.LeaseIsDetermined` | crates/maskman-server/src/proxy/address_pool.rs:89-96 | which address comes next is determined |
| `TunnelRuns.RunsKeepInv` | crates/maskman-server/src/request_ip.rs:105-166 | over every interleaving of the tunnels' pool and registry sections: both keep their invariants, no lease is held twice, and every live session is a registered tunnel's, made of the leases it holds |
| `TunnelRuns.SessionsAreBacked` | crates/maskman-server/src/request_ip.rs:133-166 | what a live session is assigned is leased, to its own tunnel, which is registered |
| `TunnelRuns.NoRegistryConflict` | crates/maskman-server/src/request_ip.rs:133-135 | registering a tunnel with the addresses it leased, one family or both, never conflicts |
| `TunnelRuns.OneHolder` | crates/maskman-server/src/proxy/address_pool.rs:43-63 | two places in tunnels' leases never hold one address |
| `TunnelRuns.NothingLeaks` | crates/maskman-server/src/request_ip.rs:105-166 | over every run every live lease is held by some tunnel |
| `TunnelRuns.AllGivenBack` | crates/maskman-server/src/proxy/address_pool.rs:59-63 | once every tunnel has given its leases back, every pool has nothing leased |
| `ResourceJournal.ReplayExact` | crates/maskman-platform/src/journal.rs:348-418 | after a reverse replay every resource is what its first active entry says, or what it was if it has none |
| `ResourceJournal.ReplayRestores` | crates/maskman-platform/src/journal.rs:292-294 | replaying the journal of any sequence of changes restores what was there before the first, even with repeated keys, when nothing it created was there already |
| `ResourceJournal.RerunReachesSame` | crates/maskman-platform/src/journal.rs:348-418 | rerunning a cleanup from any partial progress reaches the state the whole would have |
| `ResourceJournal.ReplayLeaves` | crates/maskman-platform/src/journal.rs:358-366 | a cleanup leaves nothing over exactly when nothing only pending entries mention was left over before |
| `ResourceJournal.PendingIsLeftOver` | crates/maskman-platform/src/journal.rs:358-366 | a safe, anchored journal whose cleanup leaves a sysctl changed |
| `ResourceJournal.ReplayCleans` | crates/maskman-platform/src/journal.rs:348-418 | a safe, anchored journal with nothing pending undoes everything |
| `Startup.Machine.Persist` | crates/maskman-platform/src/journal.rs:177-210 | three outcomes: done, failed before the rename, failed after it |
| `Startup.Machine.PrepareEntry` | crates/maskman-platform/src/journal.rs:228-235 | the entry is in memory and on disk, or not in memory and perhaps on disk |
| `Startup.Machine.PromoteLast` | crates/maskman-platform/src/journal.rs:251-272 | the pending entry becomes active in memory and on disk, or stays in memory; a wrong last entry is refused |
| `Startup.Machine.Perform` | crates/maskman-platform/src/forwarding.rs:36-47 | announce, change, confirm: success settles the change, any failure leaves a recoverable machine, and so does a crash at any state between |
| `Startup.Machine.EnableForwarding` | crates/maskman-platform/src/forwarding.rs:26-70 | both keys end up on and settled, or a failure leaves a recoverable machine |
| `Startup.Machine.ApplyNat` | crates/maskman-platform/src/nat.rs:65-111 | NAT is there and settled, or a failure leaves a recoverable machine |
| `Startup.Machine.CreateTun` | crates/maskman-platform/src/tun.rs:37-65 | the device is there and settled, or a failure, with the device dropped, leaves a recoverable machine |
| `Startup.Machine.ProvisionRoutes` | crates/maskman-server/src/resources.rs:202-220 | every pool has its route, settled, or a failure leaves a recoverable machine |
| `Startup.Machine.RollbackSysctls` | crates/maskman-server/src/resources.rs:193-199 | best effort in reverse: only sysctls with an active entry change, to what an entry says they were, and the machine stays recoverable |
| `Startup.Machine.CleanupJournal` | crates/maskman-platform/src/journal.rs:348-418 | success is the whole reverse replay with the file gone; a failure midway keeps the file and touches only resources with an active entry |
| `Startup.Machine.CleanupFailedStart` | crates/maskman-server/src/resources.rs:152-162 | changes nothing when an entry is pending; otherwise either undoes everything and removes the file, or keeps the file; every state between is recoverable |
| `Startup.Machine.Provision` | crates/maskman-server/src/resources.rs:99-142 | the stages after forwarding: success has provisioned and settled everything, failure leaves nothing over or a non-empty journal |
| `Startup.Machine.Prepare` | crates/maskman-server/src/resources.rs:62-142 | whatever fails or crashes, in every state every leftover resource is listed on disk and what active entries say undoes to the start; success has provisioned and settled everything; failure leaves nothing over or a non-empty journal, and a non-empty journal makes the start refuse and change nothing |
| `Startup.CrashesAreCleanedUp` | crates/maskman-platform/src/journal.rs:348-418 | cleaning up after a crash in any recorded state leaves over exactly what no active entry undoes, and all of that is announced by a pending entry |
| `Startup.SettledUndoes` | crates/maskman-server/src/resources.rs:144-150 | after a successful start the journal on disk undoes everything and restores both keys |
| `Install.Updater.RestoreBinary` | crates/maskman-update/src/install.rs:217-244 | success puts the original back; any failure leaves the old binary at its path or at the backup |
| `Install.Updater.RollBack` | crates/maskman-update/src/install.rs:196-215 | stop, restore, start; an error other than a failed rollback means the original is back and the last call a successful start |
| `Install.Updater.AwaitHealth` | crates/maskman-update/src/install.rs:170-188 | polls at most 51 times before the five seconds are over, and success is a healthy report |
| `Install.Updater.InstallStaged` | crates/maskman-update/src/install.rs:96-194 | an old binary is intact at its path or the backup in every state; success means new binary live, old one backed up, service healthy; an error other than a failed rollback leaves the original, and after a stop the last call is a start |
| `EndToEnd.CapsuleArrives` | crates/maskman-protocol/src/capsule/decoder.rs:110-144 | a capsule within its limit arrives whole however the stream is cut |
| `EndToEnd.AdvertisementArrives` | crates/maskman-server/src/proxy/ip.rs:248-260 | the advertisement built for a session reaches the client as it was |
| `EndToEnd.AdvertisementAccepted` | crates/maskman-server/src/proxy/ip.rs:272-291 | a client's valid advertisement is taken over exactly when it has at most 256 ranges within policy |
| `EndToEnd.DispatchOfOctets` | crates/maskman-server/src/proxy/ip_registry.rs:109-117 | from the octets of a whole packet that quotes none, a session is chosen exactly when some live session takes the packet |
| `EndToEnd.HopLimitDoesNotSteer` | crates/maskman-server/src/proxy/ip.rs:169-177 | rewriting the hop limit does not change the session a packet is dispatched to |

## Left out

* QUIC, HTTP/3, TLS, the async runtime, channels and metrics: library calls and I/O. A session's queues are not part
  of this model: an error or packet that finds its queue full is dropped.
* UDP tunnels: beyond the framing of their datagrams, the token bucket and the quotas, they add one socket and its
  timeouts.
* Authentication, configuration parsing, DNS, the CLI, downloads, signatures and archives: opaque inputs.
* macOS: the Linux branches are modelled. The `RouteNamed` entries of the journal exist only there.
* The text of the journal file, its permissions and temporary names: writing it succeeds, fails before the rename,
  or fails after it.
* Loss of power: a recorded state is what a crashed process leaves; a rename that is not yet durable is not modelled.
* `Machine.Prepare`: leftovers are sysctls that differ from the start, and devices, routes and tables that differ and
  still exist. An owned NAT table from before is deleted when NAT is applied, and is gone after a failed start; that
  is not counted as left over.
* `Machine.Prepare`: the name of the TUN device is the configured one. The configuration admits no pattern
  character, so the kernel picks no other.
* `Machine.CleanupJournal`: the dry run, which only counts entries, is not modelled.
* `Updater.InstallStaged`: unpacking and the version check of the staged binary are one step that may fail; the
  checks of the parent directory, the lock and the removal of the staging directory around it are left out.
* `RangeSoundV4`: stated for IPv4. For IPv6 it is false, and `RangeSoundExactlyV6` gives the exact condition for a
  role; `RangeSound` asks it of one role that accepts the range.
* `IpSessionRegistry.ReplaceRoutes`: stated for a call that no other disturbs. `RegistryRuns` splits it into its two
  critical sections with anything in between.
* `Decoder.Push`: allocation limits of the host are not modelled; a value within its limit can always be buffered.
