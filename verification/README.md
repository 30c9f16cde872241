# Verified model of ustc-iwan

ustc-iwan is a VPN client and server, a local proxy that rides on the tunnel,
and a mirror that publishes releases. This project models the parts whose
correctness is not visible from any one function and proves what they promise,
for all inputs, all interleavings and all runs. `dafny verify dfyconfig.toml`
checks everything.

Code that updates state in place is a method or a class here, proved equal to a
function of the old state; what the system promises is then proved about those
functions. Clocks, sockets, the TUN device, the TCP stack, random tokens and
the answers of the object store are parameters. The AES block function is a
parameter with its inverse (`Crypto.Lawful`), MD5 an arbitrary function to
sixteen bytes.

**Release publishing** (`ReleaseIndex`, `Publishing`). Any number of jobs
publish concurrently to a store with write-once objects and one index replaced
by compare-and-swap; a request may fail after taking effect and may be resent.
In every interleaving each published release stays in the index unchanged, and
it is what was ordered: the order's tag, date and prerelease mark, and a file
of the announced name, size and digest for every asset. Each indexed release
equals its write-once manifest and is completely stored. A refused swap has
another writer's success behind it, or a resent write of the job's own that has
put its release in; the script's client resends requests, so the second case is
real, and a job alone can meet it. The release list is the unique descending
order of the catalogue, so merges of distinct tags commute. `latest` names the
newest stable release. A single merge moves it back in time exactly when the
merged record is a prerelease or earlier and replaces the only listed stable
release of that time; since manifests are written once, no run of the mirror
does so.

**Server sessions** (`Sessions`, `SessionActivity`, `SessionTable`). Over every
run of opens, closes, activity and idle reaping, in whatever order a hash map
lists its entries, the addresses handed out are split without loss or
repetition between live sessions and the free stack, and a session that was
looked up outlives every sweep until its idle time is over. Allocation fails
exactly when every host address of the subnet is held. The session id is the
low half of the address: two live sessions can be given the same one exactly
when more than 65536 sessions are allowed on a subnet of prefix 15 or shorter.
While no client names its own IPv6 address the two halves of the pool stay in
step and both lookups name the same session; a client-named address is taken
unchecked, and a concrete run shows two sessions sharing one.

**Reassembly on the server** (`Reassembly`, `ServerFragments`,
`FragmentTable`). Pieces of a packet in any order, with any repetitions and any
other traffic between, return nothing until the last missing piece and then
exactly the packet, also as encoded datagrams, direct or over segment routing.
For arbitrary fragments, what is returned is exactly a tiling of the stored
parts of the declared length. Over every run the table stays within its limit,
and a set is evicted only after as many other sets as the limit says have been
pushed to no earlier than it was last touched.

**Tunnel codec** (`IpPacket`, `Crypto`, `SrKey`, `Tunnel`, `Downlink`,
`FragmentedDownlink`, `TunnelCodec`, `WireContents`, `DownlinkRouting`).
Whatever the payload mode, with or without segment routing in any of its modes,
one side writes exactly the packet the other side encoded, and what is on the
wire between them is given byte by byte: type, header, mask or encrypted
blocks. A packet for the address of a session reaches that session's client and
leaves every other client as it was. A packet sent down in two fragments, with
any traffic of other sets between them, is emitted exactly when the bytes sent
number at most 4094 and at no moment from the first fragment's arrival to the
second's more than sixteen sets were pending. The client side differs from the
server side: it keeps repeated offsets, does not look at the end flag, clears
its table when more than sixteen sets are pending before an arrival, and so can
hold seventeen. Under segment routing the server sends both halves whatever
their length, and their eleven-bit length fields wrap around. What comes out is
given for every length: the packet up to 4094 bytes after padding; of an
unencrypted packet of 4095 bytes its first 2047 bytes, as if they were the
packet; nothing from 4096 to 16383 bytes. From 16384 bytes on the halves join
again exactly where half the length leaves 1 to 2047 modulo 8192, some of the
front to some of the middle, which is never the packet. The key of a segment
routing configuration is the same for both directions of the links.

**Upload batching** (`UploadBatch`). Whatever the device delivers and however
much of each batch the kernel takes, the batches flushed are, one after the
other, exactly the datagrams due for the packets read, each followed by its
duplicate when duplication is on; no slot index leaves the buffer, because the
count stays even when datagrams come in pairs.

**Authenticated decryption** (`Field128`, `Gcm`). The shift-and-add product is
the product in the field of section 6.3 of NIST SP 800-38D: it is the remainder
of the polynomial product, bilinear, commutative and associative. The chained
hash is the sum of powers of section 6.4. Decryption accepts exactly the
messages made by the encryption of section 7.1 and gives back what was
encrypted. Counter blocks repeat exactly every 2^32 blocks.

**Opening a session** (`Tlv`, `Handshake`, `Opening`). Entries are read back
exactly when their values have at most 253 bytes, since the length byte of a
longer one wraps around. From the client's OPEN through the server's checks and
address pool to the client's reading of the answer, the client learns its
session, addresses and modes, or the text of the refusal. Only a signed OPEN of
a known user with the right password block and a supported mode changes the
table or is acknowledged, and each that finds an address is.

**DNS client** (`Dns`). A response is accepted with an address exactly when it
is the encoding of questions and records, with plain and compressed names in
any mixture, whose first address record holds that address. Queries are built
exactly for valid names and encode them in at most 255 bytes.

**Local proxy** (`ProxySteps`, `HttpForward`, `ProxyFlow`, `ProxyEngine`,
`ProxyRuns`, `ProxyProgress`, `LocalProxy`). Over every run with fewer than
2^64 clients, the bytes given to the peer followed by the waiting ones are the
rewritten head followed by the client's bytes after its handshake, and the
client gets the proxy's replies and then the peer's bytes; each end of stream
is passed on only after everything before it. A flow opens at most one
connection, gets at most one outcome and never goes back a state, and the
allocated ports are those of the flows with a socket. At any moment of any run,
one tick in which client and TCP stack do their part hands on all that waits
for an open flow, both ways, as far as the write limit allows. SOCKS decisions
do not depend on how the bytes arrive. An HTTP decision does not exactly when
the head ends within the limit of 65536 bytes and three, or is refused as bad
anyway; an example shows a request refused or accepted by how it arrives. What
is decided on an HTTP request is given for every request laid out as three
words, header lines and a blank line, and what is sent on is laid out the same
way, with the headers that do not concern the proxy; it parses at the other end
as one head with the client's remaining bytes after it. Two limits of the code
are shown in concrete runs and stated for all runs: a SOCKS request sent
together with its greeting waits until more data comes, and a flow that closes
with bytes waiting, as at the peer's end of stream, never hands them on.

## Model

| member | source | states |
|---|---|---|
| `ReleaseIndex.DescendingUnique` | workers/downloads/scripts/sync_r2.py:81-90 | A catalogue has exactly one descending, duplicate-free listing: the merged order depends on the set of releases alone |
| `ReleaseIndex.MergeReleases` | workers/downloads/scripts/sync_r2.py:81-90 | After a merge the list holds the new release and every earlier one under another tag, and nothing else |
| `ReleaseIndex.MergeIntoIndex` | workers/downloads/scripts/sync_r2.py:81-90 | Merging into an index is updating its tag-keyed catalogue and listing it anew |
| `ReleaseIndex.MergesCommute` | workers/downloads/scripts/sync_r2.py:81-90 | Merges of releases with distinct tags give the same list in either order |
| `ReleaseIndex.MergeIdempotent` | workers/downloads/scripts/sync_r2.py:81-90 | Merging a release a second time changes nothing |
| `ReleaseIndex.LatestIsNewestStable` | workers/downloads/scripts/sync_r2.py:81-90 | `latest` is null exactly when no stable release is listed, otherwise a stable release with the maximal publication time, the preferred tag winning exactly when it is one of those |
| `ReleaseIndex.LatestGoesBackIff` | workers/downloads/scripts/sync_r2.py:81-90 | For the newest stable release listed, a merge leaves no latest release as recent exactly when the merged record is a prerelease or earlier and every listed stable release of that time has the merged tag |
| `ReleaseIndex.LatestNeverGoesBack` | workers/downloads/scripts/sync_r2.py:81-90 | A merge that does not change an existing record names a latest release at least as recent as every stable one listed |
| `ReleaseIndex.RepublishingMovesLatestBack` | workers/downloads/scripts/sync_r2.py:81-90 | In an index of two stable releases, merging the newer one again as a prerelease, or with a date before the older, moves `latest` to the older |
| `Publishing.StepSafe` | workers/downloads/scripts/sync_r2.py:93-132 | Every step of every job keeps the invariant of the store, and only adds to the bucket |
| `Publishing.RunSafe` | workers/downloads/scripts/sync_r2.py:159-202 | The invariant holds in every state of every interleaving |
| `Publishing.RunGrows` | workers/downloads/scripts/sync_r2.py:106-132 | Over a run objects and manifests once written never change or vanish, and indexed releases stay |
| `Publishing.NoPartialRelease` | workers/downloads/scripts/sync_r2.py:159-202 | Every indexed release equals its stored manifest, and all its objects exist with the recorded size and digest |
| `Publishing.NoLostUpdate` | workers/downloads/scripts/sync_r2.py:93-103 | A release whose publication succeeded is in the index at every later moment, unchanged; `Publishing.OrderPublished` says what it holds |
| `Publishing.OrderPublished` | workers/downloads/scripts/sync_r2.py:135-202 | In every run, once a publisher has finished, the index lists at every later moment a release with the tag, date and prerelease mark of its order and one file for each ordered asset, of its name and size and with its announced digest where one was announced |
| `Publishing.PreferredWins` | workers/downloads/scripts/sync_r2.py:81-103 | The index a publisher's accepted write leaves names the tag the publisher prefers as latest exactly when a newest stable release has it |
| `Publishing.IndexedForever` | workers/downloads/scripts/sync_r2.py:93-103 | A release once indexed stays indexed with the same record |
| `Publishing.ConflictHasWitness` | workers/downloads/scripts/sync_r2.py:93-103 | In every run, a step by which a job's index write is refused has another writer's write since the job read the index, or else a resent write of the job's own that has put its release in |
| `Publishing.GivingUpNeedsFiveOthers` | workers/downloads/scripts/sync_r2.py:93-103 | A job gives up only after five index writes by others in the meantime, or with its own release in the index through a resent write |
| `Publishing.LonelyRefusal` | workers/downloads/scripts/sync_r2.py:93-103 | With a client that resends requests, a job's first index write can be refused although nobody else writes |
| `Publishing.LatestOnlyMovesForward` | workers/downloads/scripts/sync_r2.py:81-103 | In every interleaving, at every later moment the release named as latest is at least as recent as every stable release indexed before |
| `Sessions.PoolConserved` | src/bin/server/session.rs:73-117 | Over every run the addresses from the third of the subnet to the high-water mark are live or free, never both, never twice; at most one more than `max_sessions` is ever carved |
| `Sessions.OpenInv` | src/bin/server/handler.rs:160-219 | An OPEN keeps the pool invariant whether it is accepted, refused by the table, or finds no address |
| `Sessions.NoAddressIff` | src/bin/server/session.rs:73-84 | In every reachable state allocation fails exactly when every host address of the subnet is held by a live session |
| `Sessions.NoCollision` | src/bin/server/session.rs:107-117 | No OPEN is refused for an id collision while at most 65536 sessions are allowed or the subnet has at most 65536 host addresses |
| `Sessions.CollisionReachable` | src/bin/server/session.rs:107-117 | With more than 65536 sessions allowed on a wide enough subnet, the 65537th OPEN in a row is refused for a collision |
| `Sessions.CollisionIff` | src/bin/server/session.rs:45-117 | A collision is reachable exactly when more than 65536 sessions are allowed on a subnet of prefix 15 or shorter |
| `Sessions.HostCount` | src/bin/server/session.rs:45-64 | A fresh pool can hand out 2^(32 - prefix) - 3 addresses, or none if that is not positive, also where the bounds saturate; they exceed 65536 exactly for prefixes up to 15 |
| `Sessions.PoolsInLockstep` | src/bin/server/session.rs:86-105 | In runs where no client names an IPv6 address the two free stacks match entry by entry and each session's IPv6 address is the server's plus its host number |
| `Sessions.LookupByIpUnique` | src/bin/server/session.rs:137-151 | The lookup by IPv4 address has one possible answer whatever the order of the walk |
| `Sessions.LookupsAgree` | src/bin/server/session.rs:137-167 | In such runs the lookups by either address of a session name that session, whatever the order of the walk |
| `Sessions.RequestedAddressShared` | src/bin/server/session.rs:86-97 | A concrete run with client-named addresses after which two sessions share an IPv6 address and the lookup depends on the order of the walk |
| `SessionActivity.ReapKeepsIff` | src/bin/server/session.rs:181-196 | A sweep drops exactly the sessions idle for the given time or longer and leaves the others as they are |
| `SessionActivity.UsedSessionSurvives` | src/bin/server/session.rs:119-196 | Over every run, a session looked up at some time outlives every sweep before that time plus the idle time, unless its client closes it |
| `SessionTable.SessionTable.constructor` | src/bin/server/session.rs:45-65 | A new table is the empty pool of its subnet |
| `SessionTable.SessionTable.AllocateIpv4` | src/bin/server/session.rs:73-84 | Takes the top of the free stack, else the next address, else none |
| `SessionTable.SessionTable.AllocateIpv6` | src/bin/server/session.rs:86-97 | Takes the requested address, else the top of the free stack, else the next one, wrapping as 128-bit addition does |
| `SessionTable.SessionTable.Insert` | src/bin/server/session.rs:107-117 | Inserts, or refuses for capacity first and collision second, leaving the table alone |
| `SessionTable.SessionTable.Snapshot` | src/bin/server/session.rs:119-135 | Finds a session by id and token and renews its activity, touching nothing else |
| `SessionTable.SessionTable.FindByIp` | src/bin/server/session.rs:137-151 | Returns some session with the address if there is one, in whatever order the table is walked |
| `SessionTable.SessionTable.FindByIpv6` | src/bin/server/session.rs:153-167 | The same for IPv6 addresses |
| `SessionTable.SessionTable.Remove` | src/bin/server/session.rs:169-179 | Removes a session by id and token and frees both its addresses |
| `SessionTable.SessionTable.Reap` | src/bin/server/session.rs:181-196 | Drops exactly the idle sessions, freeing their addresses in the order of the walk, and counts them |
| `SessionTable.AdmitOpen` | src/bin/server/handler.rs:160-219 | Allocation, insertion and release on refusal have together the effect of `Sessions.Open` |
| `Reassembly.PushResultIff` | src/bin/server/fragment.rs:52-84 | For arbitrary fragments a push returns bytes exactly when the stored parts and the new one tile them, their number is the end declared last and they start like an IP packet |
| `Reassembly.TilesJoin` | src/bin/server/fragment.rs:67-84 | Sorted tiles of a packet join to it |
| `Reassembly.PushKeepsEntry` | src/bin/server/fragment.rs:52-84 | Stored parts stay sorted and without repeated offsets |
| `Reassembly.Reassembles` | src/bin/server/fragment.rs:52-84 | Pieces in any order with any repetitions: nothing before the last missing piece, then exactly the packet |
| `Reassembly.SetDependsOnOwnFragments` | src/bin/server/fragment.rs:42-61 | While a set is neither evicted nor reaped its content depends on its own fragments alone |
| `Reassembly.ReassemblesAmongOthers` | src/bin/server/fragment.rs:33-93 | The same result for a packet's pieces amid any other traffic in the table |
| `Reassembly.SizeBounded` | src/bin/server/fragment.rs:42-51 | Over every run of pushes, evictions and reaping the table holds at most `max(1, max_entries)` sets |
| `Reassembly.EvictedOnlyWhenCrowded` | src/bin/server/fragment.rs:42-51 | Over every run with a clock that does not go back, at an eviction at least `max_entries` other keys have been pushed to no earlier than the push that last touched the evicted set |
| `ServerFragments.FragmentRead` | src/bin/server/fragment.rs:106-121 | What the server reads from an encoded fragment of any length and offset: the offset modulo 8192, the end flag, and as much data as the length field says |
| `ServerFragments.FragmentRecoveredIff` | src/bin/server/fragment.rs:106-121 | The fragment encoded is read back exactly when its offset is below 8192 and its data has 1 to 2047 bytes |
| `ServerFragments.DatagramsReassemble` | src/bin/server/handler.rs:27-94 | Pieces of a packet in datagrams of their own, in any order with any repetitions, direct or over segment routing, amid any other datagrams and sweeps: nothing is written before the last missing one, then exactly the packet |
| `FragmentTable.FragmentTable.Oldest` | src/bin/server/fragment.rs:42-51 | Finds a least recently touched set, in whatever order ties are met |
| `FragmentTable.FragmentTable.Push` | src/bin/server/fragment.rs:33-85 | Evicts if full, stores the part, and returns and forgets the packet when it is complete |
| `FragmentTable.FragmentTable.Reap` | src/bin/server/fragment.rs:87-93 | Keeps exactly the sets younger than the limit, as they are |
| `FragmentTable.HandleFragment` | src/bin/server/fragment.rs:95-124 | A datagram of a live session that is an encoded fragment of 1 to 2047 bytes at an offset below 8192 pushes exactly that fragment, end flag included; one that is too short, empty or of no session changes nothing |
| `SrKey.JhashOf` | src/core/sr.rs:169-309 | The hash by 12-byte blocks with its eleven-case tail equals one loop over zero-padded little-endian words, the top byte slot kept for the length |
| `SrKey.AddTail` | src/core/sr.rs:207-298 | The eleven cases add the words of the zero-padded rest |
| `SrKey.MixBlock` | src/core/sr.rs:176-206 | Nine mixing steps of one block, with the words added as the reference adds them |
| `SrKey.FillUserKey` | src/core/sr.rs:64-103 | Password bytes, then whole copies of the hash, then its low bytes: exactly 32 bytes with a closed form |
| `SrKey.DeriveKey` | src/core/sr.rs:64-103 | The derived key equals the closed form of the configuration |
| `SrKey.KeyBytes` | src/core/sr.rs:64-103 | Every byte of a key: the password, then zeros or the little-endian bytes of the sum of the hashes of the links' big-endian bytes in both directions; sixteen bytes in mode 1, else 32 |
| `SrKey.KeyIgnoresDirection` | src/core/sr.rs:64-103 | Listing the links the other way round gives the same key |
| `Crypto.XoredTwice` | src/core/crypto.rs:56-63 | The repeating mask undoes itself |
| `Crypto.XorSlice` | src/core/crypto.rs:56-63 | Masks one stretch of a buffer in place and leaves the rest alone |
| `Crypto.DecryptsBlocks` | src/core/crypto.rs:65-116 | Block-wise decryption restores any block-aligned data |
| `Crypto.EncryptSlice` | src/core/crypto.rs:65-90 | Encrypts one stretch of a buffer in place, block by block, and leaves the rest alone |
| `Crypto.DecryptSlice` | src/core/crypto.rs:91-116 | Decrypts one stretch of a buffer in place, and leaves the rest alone |
| `IpPacket.TrimRestores` | src/core/tunnel.rs:322-339 | Trimming a padded well-formed packet gives the packet |
| `Tunnel.HeaderRead` | src/core/protocol.rs:133-140 | Type, mode, session id and token are read back from a header whatever follows it |
| `Tunnel.DeciphersCiphered` | src/core/tunnel.rs:283-320 | Deciphering undoes each payload mode up to zero padding |
| `Tunnel.UplinkRoundTrip` | src/core/tunnel.rs:283-320 | Every well-formed packet that fits its slot with the padding its mode needs, in each payload mode, sent once or as a duplicate, is written by the server unchanged |
| `Tunnel.UplinkSrRoundTrip` | src/core/tunnel.rs:200-264 | The same over segment routing, for each inner and outer mode and any number of links |
| `Tunnel.EchoAnsweredIff` | src/bin/server/handler.rs:222-249 | An echo request is answered exactly when it comes over segment routing, whole and for a live session, and the answer is the request with the next hop, type and mode bytes replaced |
| `Tunnel.ServedOnlySessions` | src/bin/server/handler.rs:27-94 | Only a datagram whose inner header names a live session is written or answered |
| `Downlink.PlainRoundTrip` | src/bin/server/downlink.rs:8-126 | A packet sent down in one datagram is emitted by the client unchanged, the table of fragments untouched |
| `Downlink.SrRoundTrip` | src/bin/server/downlink.rs:128-186 | The same over segment routing |
| `Downlink.OnlyOwnSession` | src/core/tunnel.rs:46-137 | Only a datagram whose inner header has the client's own session id and token changes its table, is emitted or reported as failed |
| `Downlink.EmittedIsIp` | src/core/tunnel.rs:46-190 | Whatever arrives, only IP packets are given to the TUN device |
| `WireContents.PlainOnWire` | src/bin/server/downlink.rs:8-126 | The datagram sent down: session id, token and mode, then the packet in clear under 0x23 or 0x14, masked byte by byte under 0x18, or zero-padded and encrypted block by block under 0x18 |
| `WireContents.SrOnWire` | src/bin/server/downlink.rs:128-186 | The same over segment routing, behind a header of type, next hop, link count, padding and links last one first, with the payload encrypted again block by block unless the outer mode is 0 |
| `WireContents.UplinkOnWire` | src/core/tunnel.rs:283-320 | The header and payload sent up for a packet, laid out as on the way down |
| `WireContents.UplinkSrOnWire` | src/core/tunnel.rs:200-264 | The same over segment routing, the next hop being the number of links less one |
| `WireContents.SrFragmentsOnWire` | src/bin/server/downlink.rs:223-283 | The two fragments sent over segment routing are the halves of the packet encrypted as a whole, each behind the same outer header, the second with the offset where the first ends and the end flag |
| `DownlinkRouting.Handle` | src/bin/server/downlink.rs:8-88 | The session found by the destination address, whatever the order of the walk, and the datagrams sent to its client for every version, mode, segment routing and fragmentation |
| `DownlinkRouting.HolderReceives` | src/bin/server/downlink.rs:8-88 | In every reachable pool, a packet for a session's IPv4 address goes out in one datagram to that session's client, which emits exactly the packet; the same for its IPv6 address while the two halves of the pool are in step |
| `DownlinkRouting.HolderFound` | src/bin/server/downlink.rs:8-26 | The session that holds the destination is the one found |
| `DownlinkRouting.UnheldDropped` | src/bin/server/downlink.rs:8-28 | A packet for an address that no session holds is not sent anywhere |
| `DownlinkRouting.NobodyElse` | src/bin/server/downlink.rs:28-88 | Every datagram sent for a packet leaves a client of any other session as it was, nothing emitted |
| `FragmentedDownlink.WordFields` | src/bin/server/downlink.rs:201-216 | What is read back from a packed word for any length and offset, the lowest length bit sharing its place with bit 13 of the offset |
| `FragmentedDownlink.WordRoundTrip` | src/bin/server/downlink.rs:188-221 | The 13-bit offset and 11-bit length packed into one word are unpacked again, as far as they fit |
| `FragmentedDownlink.FirstHalf` | src/core/tunnel.rs:139-190 | The first half to arrive, whichever it is, only opens a set |
| `FragmentedDownlink.HalvesJoin` | src/core/tunnel.rs:341-354 | For any number of bytes, the halves as stored join to what their length fields leave of them when the second's offset field is where the first ends, and otherwise to a byte at most or nothing |
| `FragmentedDownlink.DeliveryByLength` | src/core/tunnel.rs:139-190 | What the client makes of both halves: the packet up to 4094 bytes, its first 2047 bytes at 4095, nothing from 4096 to 16383, never the packet beyond |
| `FragmentedDownlink.SecondHalfEmitsIff` | src/core/tunnel.rs:139-190 | The second half makes the client emit that delivery, or nothing with more than sixteen sets pending; it is the packet exactly when the bytes are at most 4094 and at most sixteen sets are pending |
| `FragmentedDownlink.OtherTraffic` | src/core/tunnel.rs:46-190 | Datagrams for other sets leave a set alone unless they clear the table |
| `FragmentedDownlink.CalmKeepsSet` | src/core/tunnel.rs:46-190 | While the table is never overfull, any run of datagrams of other sets leaves a set alone |
| `FragmentedDownlink.OverfullLosesSet` | src/core/tunnel.rs:156-158 | Once the table has been overfull, the set is gone or will be cleared by the next fragment, to the end of the run |
| `FragmentedDownlink.FragmentedRoundTrip` | src/bin/server/downlink.rs:188-221 | Both fragments, in either order with any traffic of other sets between: nothing comes of the first, and of the second exactly the packet if never more than sixteen sets were pending from one to the other, else nothing; two fragments are sent exactly for packets of at most 4094 bytes |
| `FragmentedDownlink.SrFragmentedRoundTrip` | src/bin/server/downlink.rs:223-283 | The same over segment routing, where both halves are always sent, with what comes out for every padded length: the packet exactly up to 4094, its first 2047 bytes at 4095, nothing from 4096 to 16383 |
| `FragmentedDownlink.TruncatedAt4095` | src/bin/server/downlink.rs:254-276 | An IP packet of 4095 bytes over unencrypted segment routing makes a client with nothing pending emit its first 2047 bytes |
| `TunnelCodec.EncodeUplinkSlot` | src/core/tunnel.rs:283-320 | Pads and ciphers the packet inside its slot, leaves every other byte alone and returns the header and length of `Tunnel.EncodeUplink`, or its error |
| `TunnelCodec.PadAndEncrypt` | src/core/tunnel.rs:283-320 | Zero padding and block encryption inside the slot, refused when the padding does not fit |
| `TunnelCodec.EncodeUplinkSrPacket` | src/core/tunnel.rs:200-264 | The buffer built up step by step is the encoding of `Tunnel.EncodeUplinkSr` |
| `TunnelCodec.HandleUdp` | src/bin/server/handler.rs:27-94 | The server's dispatch of data datagrams does what `Tunnel.ServerReceive` says |
| `TunnelCodec.HandleSrUplink` | src/bin/server/handler.rs:222-298 | So does its handling of segment routing |
| `TunnelCodec.SendPlainPacket` | src/bin/server/downlink.rs:8-106 | The datagram sent down for a packet; `WireContents.PlainOnWire` lays out its bytes |
| `TunnelCodec.SendSrPacket` | src/bin/server/downlink.rs:128-186 | The same over segment routing; `WireContents.SrOnWire` lays out its bytes |
| `TunnelCodec.SendTwoFragments` | src/bin/server/downlink.rs:188-221 | The fragments sent down, built byte by byte |
| `TunnelCodec.SendTwoSrFragments` | src/bin/server/downlink.rs:223-283 | The same over segment routing, padded and encrypted before splitting |
| `TunnelCodec.TunnelRx.Handle` | src/core/tunnel.rs:46-55 | The client's receiver emits, fails and updates its table as `Downlink.Receive` says |
| `TunnelCodec.TunnelRx.HandleSr` | src/core/tunnel.rs:57-100 | The outer layer of segment routing |
| `TunnelCodec.TunnelRx.HandleInner` | src/core/tunnel.rs:102-138 | The inner datagram, with session id and token checked |
| `TunnelCodec.TunnelRx.HandleFragment` | src/core/tunnel.rs:139-190 | One fragment: table cleared if crowded, part stored, set finished if complete |
| `Reassembly.JoinParts` | src/core/tunnel.rs:341-354 | Joins sorted parts, giving up at the first that does not follow on, as both ends do |
| `UploadBatch.UploadBatch.Queue` | src/core/tun_proxy.rs:77-82 | Queues the slot's payload under a header and changes no other queued datagram |
| `UploadBatch.UploadBatch.QueueDuplicate` | src/core/tun_proxy.rs:84-95 | Queues the last datagram again under another header if there is room |
| `UploadBatch.UploadBatch.QueuePacket` | src/core/tun_proxy.rs:97-110 | Queues a complete datagram if it fits a slot |
| `UploadBatch.UploadBatch.Flush` | src/core/tun_proxy.rs:116-149 | Hands over the queued datagrams from the front, each at most once, until the kernel has them all or the flush gives up, and empties the batch |
| `UploadBatch.UploadOne` | src/core/tun_proxy.rs:288-331 | One packet adds its datagram, and its duplicate right after it, never skipped for lack of room since the count stays even |
| `UploadBatch.Pump` | src/core/tun_proxy.rs:283-355 | The batches flushed are together exactly the datagrams due for the packets read, at most 64 each, and what went out is of each batch the part the kernel took |
| `UploadBatch.FramesOnWire` | src/core/tun_proxy.rs:288-331 | The datagram due for a packet is laid out as its version and mode say; the duplicate differs in its first byte alone, 0x19 for 0x14 and 0x20 for 0x18 |
| `UploadBatch.SrFramesOnWire` | src/core/tun_proxy.rs:288-331 | Over segment routing the datagram due is laid out behind the outer header, the duplicate is the same datagram, and only one too long for a slot is not sent |
| `UploadBatch.DeliveredInOrder` | src/core/tun_proxy.rs:116-149 | What goes out is a subsequence of the datagrams due, whatever the kernel refuses |
| `UploadBatch.DeliveredInFull` | src/core/tun_proxy.rs:116-149 | A kernel that takes everything gets exactly the datagrams due |
| `Field128.Gf128Mul` | src/core/gcm.rs:5-20 | The shift-and-add loop computes the field product |
| `Field128.MulIsPolynomialProduct` | src/core/gcm.rs:5-20 | The product is the remainder of the polynomial product on division by x^128 + x^7 + x^2 + x + 1 |
| `Field128.MulBilinear` | src/core/gcm.rs:5-20 | The product is linear in each factor |
| `Field128.MulCommutative` | src/core/gcm.rs:5-20 | The product is commutative |
| `Field128.MulAssociative` | src/core/gcm.rs:5-20 | The product is associative |
| `Gcm.CounterClosedForm` | src/core/gcm.rs:22-26 | k increments of J0 give the nonce and the counter k + 1 modulo 2^32 |
| `Gcm.CountersCollideIff` | src/core/gcm.rs:22-26 | Two counter blocks, J0 among them, agree exactly when their positions differ by a multiple of 2^32 |
| `Gcm.PowerSumStep` | src/core/gcm.rs:43-46 | One chained step extends the sum of powers by one block |
| `Gcm.ComputeGhash` | src/core/gcm.rs:28-48 | The padded, chained computation equals the sum of powers over the input laid out in section 7.1 of NIST SP 800-38D |
| `Gcm.GcmDecrypt` | src/core/gcm.rs:50-81 | The block-by-block decryption and tag comparison is `Gcm.Decrypt`, errors included |
| `Gcm.DecryptsExactlyEncrypted` | src/core/gcm.rs:50-81 | Decryption yields a plaintext exactly when the message is its encryption |
| `Tlv.ParseTlvs` | src/core/protocol.rs:165-182 | The reading loop returns the entries of the recursive reading, stopping at the first that does not fit |
| `Tlv.ParseEncoded` | src/core/protocol.rs:157-182 | Entries of at most 253 bytes are read back in order, unknown types passed over, whatever follows |
| `Tlv.ParseRecoversIff` | src/core/protocol.rs:157-182 | Entries of known types survive exactly when each value has at most 253 bytes |
| `Handshake.ControlRead` | src/core/protocol.rs:133-151 | A control packet verifies and its header and payload are read back |
| `Handshake.PipeRecoveredIff` | src/core/auth.rs:41-44 | The packed pipe fields are recovered exactly when the index is below 2 and the id below 0x8000 |
| `Handshake.OfferRecoveredIff` | src/core/auth.rs:24-50 | The server reads the user, password block, MTU, mode, pipe, link and nonce the client offered exactly when the user name has at most 253 bytes |
| `Handshake.ReadOffer` | src/bin/server/handler.rs:101-137 | The loop over the entries reads them as the fold does, later ones winning |
| `Opening.HandleOpenPacket` | src/bin/server/handler.rs:96-220 | The handler's effect on the table and the packets it sends, in order, for every datagram; the rows below say what they are |
| `Opening.OnlyTheEntitled` | src/bin/server/handler.rs:96-158 | The table changes or an acknowledgement is sent only for a signed OPEN with a mode of at most 2, a known user and the password block of that user |
| `Opening.RefusedFor` | src/bin/server/handler.rs:96-158 | Each refusal is sent for its own reason, the first that applies, and an unsigned or short datagram is not answered |
| `Opening.EntitledAcknowledged` | src/bin/server/handler.rs:160-219 | An OPEN that meets all conditions is acknowledged exactly when an address can be had; with one answer the acknowledged session is in the table, with two the table refused it |
| `Opening.NewSession` | src/bin/server/handler.rs:160-219 | A session that an OPEN adds has the digest of user and password as key, its first eight bytes as mask, and the mode, link and address that were offered; no session already there changes |
| `Opening.ReadAck` | src/core/auth.rs:52-153 | The client's reading of an answer, errors in the order the code finds them |
| `Opening.AckRoundTrip` | src/core/auth.rs:52-153 | An acknowledgement tells the client its session, addresses and modes, and is unusable exactly when it echoes another nonce |
| `Opening.AcceptedOnlySigned` | src/core/auth.rs:52-153 | The client accepts only a signed acknowledgement, takes session and token from its header, keeps its MTU from 576 to 9000, and every nonce echoed in it is the one sent |
| `Opening.RejectRoundTrip` | src/bin/server/handler.rs:307-311 | A rejection carries its text to the client |
| `Opening.ClientLearns` | src/bin/server/handler.rs:96-220 | The whole exchange for every offer with a user name of at most 253 bytes: each refusal by its own condition on mode, user and password block, otherwise the session that the pool gives and what the client learns of it |
| `Dns.NameSkipped` | src/core/dns.rs:291-314 | Skipping an encoded name, plain or compressed, lands just after it |
| `Dns.NameLengthIff` | src/core/dns.rs:291-314 | Exactly the encodings of names are skipped |
| `Dns.SkipName` | src/core/dns.rs:291-314 | The loop over the offset stays inside the packet and finds the end of the name or the same error |
| `Dns.ParseAResponse` | src/core/dns.rs:248-289 | The loops over questions and answers return what the recursive reading returns |
| `Dns.ResponseRead` | src/core/dns.rs:248-289 | A well-formed message gives its first address record, or the error for a wrong id, a failed query or no address |
| `Dns.AcceptedIff` | src/core/dns.rs:248-289 | An arbitrary packet gives an address exactly when it holds the announced questions and then records the first address among which is that one |
| `Dns.SplitJoins` | src/core/dns.rs:235-241 | Splitting a domain at its dots loses nothing |
| `Dns.BuildAQuery` | src/core/dns.rs:223-246 | A query is built exactly for a good domain and is a well-formed message with that one question |
| `Dns.QueryLaidOut` | src/core/dns.rs:223-246 | A query is built for names of at most 253 bytes with labels of 1 to 63, and its bytes are the id, recursion desired, one question, the labels, type A and class IN |
| `Dns.QueryNameFits` | src/core/dns.rs:223-246 | The name in a query is two bytes longer than the domain and at most 255 bytes |
| `ProxySteps.GreetingStable` | src/core/local_proxy/socks.rs:5-25 | A decided greeting is decided the same way with more bytes there, and uses up only bytes it has |
| `ProxySteps.SocksConnectStable` | src/core/local_proxy/socks.rs:27-68 | The same for a SOCKS request |
| `ProxySteps.GreetingUsedUp` | src/core/local_proxy/socks.rs:5-25 | A greeting as section 3 of RFC 1928 lays it out is used up exactly and accepted exactly when it offers no authentication |
| `ProxySteps.SocksConnectIff` | src/core/local_proxy/socks.rs:27-68 | A connection is asked for exactly when the input starts with a CONNECT request for it as section 4 of RFC 1928 lays it out, and exactly that request is used up |
| `ProxySteps.HttpRequestStable` | src/core/local_proxy/http.rs:18-91 | The same for an HTTP request whose head is complete |
| `ProxySteps.HttpStableIff` | src/core/local_proxy/http.rs:18-26 | A decided HTTP request with a header end is decided the same way whatever follows; without one it was refused, for its length alone; and exactly when that decision changes |
| `ProxySteps.HttpUndecidedIff` | src/core/local_proxy/http.rs:18-26 | Nothing is decided exactly while no header end is there and the input is within 65536 bytes |
| `ProxySteps.HttpArrivalsIff` | src/core/local_proxy/http.rs:18-91 | Every prefix of a stream with a complete head is undecided or decided as the whole exactly when the head ends within the limit and three bytes or is refused as bad anyway |
| `ProxySteps.LengthRefusalDependsOnArrival` | src/core/local_proxy/http.rs:18-26 | A CONNECT request with a long header line that is refused without its last four bytes and accepted with them |
| `ProxySteps.ParseHttpRequest` | src/core/local_proxy/http.rs:18-87 | The parser returns the step of the specification, errors in the same order |
| `ProxySteps.Rewrite` | src/core/local_proxy/http.rs:61-78 | The loop over header lines keeps exactly those that do not concern the proxy connection, in order |
| `ProxySteps.ForwardedHeadIsOneHead` | src/core/local_proxy/http.rs:52-91 | The first blank line of what is sent on is the end of the rewritten head, so the peer sees one head followed by exactly the remaining bytes |
| `HttpForward.RequestDecided` | src/core/local_proxy/http.rs:18-91 | For every request laid out as three words, header lines and a blank line: the refusal by its own condition, the CONNECT target, or the forwarded request, laid out with the same verb and version, the path and query alone, the headers passed on and `Connection: close` |
| `HttpForward.LaidOutRead` | src/core/local_proxy/http.rs:18-32 | Whatever follows, such a head ends where it was laid out to end, and its words and header lines are read back |
| `HttpForward.PassedOnIff` | src/core/local_proxy/http.rs:61-78 | A header line is passed on, in order, exactly when it is not empty and its name, whatever its case and the white space around it, is none of the four that concern the proxy connection |
| `ProxyFlow.PumpKeeps` | src/core/local_proxy/flow.rs:138-204 | Moving bytes from the client keeps both streams and closes the socket at the client's end only with nothing waiting |
| `ProxyFlow.ServeKeeps` | src/core/local_proxy/flow.rs:207-255 | Moving bytes to the client keeps both streams and passes the peer's end on only after all its bytes |
| `ProxyFlow.OutputBounded` | src/core/local_proxy/flow.rs:208-220 | However much the peer sends, at most the write limit of its bytes waits for the client |
| `ProxyProgress.PumpSends` | src/core/local_proxy/flow.rs:138-204 | A send buffer that takes what it is given gets all that waited and what was read, and the end of the client's stream after it; nothing is left waiting |
| `ProxyProgress.ServeDelivers` | src/core/local_proxy/flow.rs:207-250 | A client that takes what it is given gets all that was queued and then the peer's bytes up to the write limit, and the end of the peer's stream exactly after the last of them |
| `ProxyProgress.RepliesDelivered` | src/core/local_proxy/flow.rs:222-240 | The proxy's own replies reach a client whose flow has no socket |
| `ProxyProgress.TickRelays` | src/core/local_proxy/engine.rs:120-151 | One tick in which the surroundings do their part leaves nothing of an open flow waiting either way, whatever it does with other flows, and the flow stays unless its socket is closed |
| `ProxyProgress.RunRelays` | src/core/local_proxy/engine.rs:100-151 | The same at any moment of any run |
| `ProxyProgress.GreetingTaken` | src/core/local_proxy/connections.rs:113-131 | A greeting that offers no authentication is answered and used up, any other is refused with 0xFF |
| `ProxyProgress.RequestTaken` | src/core/local_proxy/connections.rs:113-160 | A SOCKS request for an address is used up and asks for that connection, one for a name is resolved first, and one for a name with a colon is refused |
| `ProxyProgress.OpensIff` | src/core/local_proxy/connections.rs:281-312 | A connection opens exactly when the stack agrees and some port is free, on a port not taken; otherwise the failure is announced |
| `ProxyProgress.UpdateDecides` | src/core/local_proxy/connections.rs:195-244 | What becomes of a waiting flow and what its client is told, by its socket's state and the time elapsed |
| `ProxyProgress.ResolvedDecides` | src/core/local_proxy/connections.rs:163-193 | An answer of the resolver connects a flow that is still resolving exactly when it has an address, the stack agrees and a port is free, closes it otherwise, and changes no other flow |
| `ProxyProgress.NoDeadFlows` | src/core/local_proxy/connections.rs:348-380 | After a tick no flow is left that has nothing to write and a closed socket, or no socket and nothing to do |
| `ProxyProgress.ErrorIsOneHead` | src/core/local_proxy/flow.rs:257-269 | What an HTTP client is told of a failure is one complete head of three lines without a body, whatever follows |
| `ProxyFlow.UpdateKeeps` | src/core/local_proxy/connections.rs:195-244 | Success, exactly when the TCP connection is established, or failure is announced once, before any byte of the peer |
| `ProxyFlow.ProcessKeeps` | src/core/local_proxy/connections.rs:113-160 | Handshake bytes are used up exactly once and a rewritten head goes before the remaining ones |
| `ProxyEngine.FreePortIsFirst` | src/core/local_proxy/connections.rs:337-346 | The port allocated is the first free one in cyclic order; none is found exactly when all 16384 are taken |
| `ProxyEngine.TickKeeps` | src/core/local_proxy/engine.rs:120-151 | One tick keeps every flow's streams and the port table and only moves flows forward |
| `ProxyEngine.RunInv` | src/core/local_proxy/engine.rs:100-151 | The invariant holds in every state of every run with fewer than 2^64 clients |
| `ProxyEngine.RunOnward` | src/core/local_proxy/flow.rs:76-84 | From any moment to any later one a flow's state rank, sent bytes, outcome and port only go forward |
| `ProxyEngine.StreamsConserved` | src/core/local_proxy/flow.rs:138-250 | Both streams of every flow are conserved, and each end of stream follows everything before it |
| `ProxyEngine.OneConnectionOneOutcome` | src/core/local_proxy/connections.rs:163-319 | A flow opens at most one connection and never gets both a success and an error |
| `ProxyEngine.PortsOfFlows` | src/core/local_proxy/connections.rs:281-379 | The allocated ports are exactly the ports of the flows with a socket, no two alike, all from 49152 up |
| `ProxyRuns.HandshakeStalls` | src/core/local_proxy/connections.rs:99-110 | A flow in its handshake decides nothing and opens nothing over every run whose later visits bring it no data, whatever its waiting bytes ask for |
| `ProxyRuns.PipelinedRequestStalls` | src/core/local_proxy/connections.rs:99-131 | From the start, a client whose first read holds a greeting and a complete request is kept waiting so |
| `ProxyRuns.ClosedIsFinal` | src/core/local_proxy/flow.rs:138-171 | Over every run, a flow that has closed never hands on another byte, and has handed over every byte past the handshake exactly when none was waiting as it closed |
| `ProxyRuns.UploadCutShort` | src/core/local_proxy/flow.rs:242-249 | A run of three ticks in which the peer's end of stream closes a flow with a byte of the client's still waiting |
| `LocalProxy.LocalFlow.constructor` | src/core/local_proxy/flow.rs:108-125 | A new flow waits for the handshake of its protocol |
| `LocalProxy.LocalFlow.PumpInput` | src/core/local_proxy/flow.rs:138-204 | The step from client to socket changes the flow as `ProxyFlow.Pump` says; `ProxyProgress.PumpSends` says what reaches the socket |
| `LocalProxy.LocalFlow.ServiceOutputs` | src/core/local_proxy/flow.rs:207-250 | The loops from socket to client change the flow as `ProxyFlow.Serve` says; `ProxyProgress.ServeDelivers` says what reaches the client |
| `LocalProxy.LocalFlow.QueueProxyError` | src/core/local_proxy/flow.rs:257-269 | An error reply is queued and the flow closes |
| `LocalProxy.AllocatePort` | src/core/local_proxy/connections.rs:337-346 | The loop finds the port of the specification, none exactly when all are taken |
| `LocalProxy.Connections.OpenTcpConnection` | src/core/local_proxy/connections.rs:281-312 | A connection takes a port and advances the search start, or the flow gets an error |
| `LocalProxy.Connections.ServiceInputs` | src/core/local_proxy/connections.rs:99-110 | The visits change the tables one after the other |
| `LocalProxy.Connections.ProcessRequest` | src/core/local_proxy/connections.rs:113-160 | One handshake step is applied to one flow and to the tables |
| `LocalProxy.Connections.HandleDns` | src/core/local_proxy/connections.rs:163-193 | Answers are applied in order, those for flows no longer resolving ignored |
| `LocalProxy.Connections.UpdateStates` | src/core/local_proxy/connections.rs:195-244 | Every flow is updated, whatever the order |
| `LocalProxy.Connections.ServiceOutputs` | src/core/local_proxy/connections.rs:246-250 | Every flow is served, whatever the order |
| `LocalProxy.Connections.ReapDeadFlows` | src/core/local_proxy/connections.rs:348-380 | Exactly the dead flows are dropped and their ports freed, whatever the order |
| `LocalProxy.Connections.RunTick` | src/core/local_proxy/engine.rs:120-151 | One tick changes the tables as `ProxyEngine.TickStep` says |

## Left out

- AES, MD5, SHA-256 and HMAC themselves: the block function and the digest are parameters.
- smoltcp, TLS and HTTP client libraries: the TCP stack is an oracle bound only by `ProxyFlow.NetStep`, and the resolver's transport is not modelled.
- TUN and socket system calls, routes, NAT rules, interface selection and shutdown handling: operating-system calls.
- OIDC login, controller signing, configuration files, command lines and server selection: plumbing.
- Echo, ping and keepalive packets and their timers, debug output, and `client::open`'s retries: bounded loops and table lookups.
- The downloads worker, the web pages and `doc/full_flow.py`: I/O, or a second copy of code modelled here.
- Publishing: the entity tag of an object stands for its contents; HTTP 409 counts as a failed precondition; `describe_asset`, archive downloads and the build-info fields of a release are not modelled.
- Gcm.GcmDecrypt: the base64 and UTF-8 decoding around it in `decrypt_password` is not modelled.
- Handshake.OfferRecoveredIff: user names are byte strings; the lossy decoding of a name that is not UTF-8 is not modelled.
- Opening.HandleOpenPacket: the token is a parameter, and packets are listed in the order sent, not lost or delayed.
- SessionTable.SessionTable.Reap: the mutex is not modelled; the server's main loop calls its handlers one at a time.
- TunnelCodec.HandleUdp: activity renewal by `snapshot` is modelled in `SessionTable`, not repeated here.
- FragmentedDownlink.FragmentedRoundTrip: a datagram repeated under the same fragment id by the network may poison the client's set, which keeps repeated offsets; the theorem is about each half arriving once, under an id that is fresh.
- UploadBatch.Pump: the packets read are at most 9208 bytes, the size of a slot's payload; the poll timeout and the shutdown flags are not modelled.
- ProxySteps.ParseHttpRequest: UTF-8 checking, URL parsing and `split_host_port` are parameters, and white space is ASCII.
- ProxySteps.ForwardedHeadIsOneHead: assumes that paths and queries returned by the URL library hold no line breaks.
- LocalProxy.Connections.OpenTcpConnection: each socket is kept inside its flow; the socket set's handles, which are never shared between flows, are not modelled.
- LocalProxy.Connections.ServiceOutputs: the table holds flows as values and applies the step proved equal to the methods of `LocalFlow`; aliasing between flow objects is not modelled.
