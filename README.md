# Peer-to-peer connection engine of src/net.cpp, modelled in Dafny

This project models the deterministic core of the node's connection engine, `src/net.cpp`. The core has these parts:

- **Framer.** Turns a received byte stream into a queue of messages. Each message is a 24-byte header followed by a payload whose length the header declares.
- **Send queue.** `EndMessage` appends a framed message to the queue. `SocketSendData` drains the queue front-first into the socket.
- **Inbound eviction.** Chooses which inbound peer to drop when the node is full.
- **Ban list.** Subnets mapped to ban entries, plus a dirty flag.
- **Relay cache.** Remembers relayed transactions for fifteen minutes and announces them to peers. As written, the expiry can drop a message that was cached again; a corrected expiry is modelled beside it.
- **Outbound byte quota.** Counts bytes sent in a rolling cycle against an upload target.
- **Per-peer request queue (`AskFor`).** Schedules requests for announced inventory.
- **Local-address table.** Scores the node's own addresses and picks the best one for a peer.
- **Thread decisions.** Choosing between send and receive readiness, dropping idle peers, choosing an outbound address, and checking before dialling.
- **Two string helpers.** Used by the HTTP and IPFS clients.

State that the source updates in place is modelled as classes. This covers each node's receive queue and send buffer, the ban list, the relay cache, the byte counters, the request queue, and the local-address table. Their methods carry `modifies` clauses and are proved against specification functions. Each algorithm that has a loop in the source has a method with a loop here. The rest is modelled as functions and lemmas.

Some computations happen outside this code, and the model takes them as parameters:

- header deserialisation and the checksum hash;
- `CSubNet::Match`;
- the bloom filter's relevance test;
- reachability of an address from a peer, whether an address is routable, and its network;
- what `addrman.Select()` returns;
- the result of each `send()` call;
- the clock.

Compile-time constants from headers that are not part of this model are also parameters: `MAX_SIZE`, `MAX_PROTOCOL_MESSAGE_LENGTH`, `TIMEOUT_INTERVAL`, `BIP0031_VERSION`, `MAX_BLOCK_SIZE`, the `AskFor` caps and the default ban time.

Files:

- `types.dfy`: bytes, the 64-bit wrap and `Option`. It also holds the inventory type and lexicographic byte order.
- `wire.dfy`: the message header layout.
- `framer.dfy`: `CNetMessage` and `ReceiveMsgBytes`.
- `sendqueue.dfy`: `SocketSendData` and `EndMessage`.
- `eviction.dfy`: `AttemptToEvictConnection`.
- `banstore.dfy`: the ban list.
- `relay.dfy`: `RelayTransaction`.
- `quota.dfy`: the byte counters and the outbound target.
- `askfor.dfy`: `AskFor`.
- `localaddr.dfy`: the local-address table.
- `decisions.dfy`: the thread decisions.
- `strings.dfy`: `GetDomainFromURL` and `ipfs_header_value`.

## Model

| member | source | states |
|---|---|---|
| Wire.DecodeEncodeLE32 | src/net.cpp:2595 | Reading back a little-endian 32-bit field gives the value written. |
| Wire.EncodeDecodeLE32 | src/net.cpp:2595 | Re-encoding a decoded 4-byte field gives the same bytes. |
| Wire.ParseSerializeHeader | src/net.cpp:2594-2602 | Parsing a serialised header gives back its magic, command, size and checksum. |
| Wire.SerializeParseHeader | src/net.cpp:2594-2602 | Any 24 bytes parsed and re-serialised are unchanged. |
| Wire.FinishMessage | src/net.cpp:2594-2602 | Finishing a message rewrites only the size and checksum fields. The magic, the command and the payload keep their bytes, and the length is unchanged. |
| Wire.FinishedHeaderParses | src/net.cpp:2594-2602 | A finished header parses to the payload's length, plus the first four bytes of the payload's hash as checksum. |
| Framer.Resize | src/net.cpp:781-784 | `vector::resize` gives the new length and keeps the common prefix. |
| Framer.NetMessage.ReadHeader | src/net.cpp:745-774 | Copies min(24 - nHdrPos, n) bytes into the header buffer. Sets `in_data` only once all 24 bytes are present and decoding succeeded. Returns -1 exactly when decoding fails or the size exceeds MAX_SIZE. |
| Framer.NetMessage.ReadData | src/net.cpp:776-790 | Copies min(nMessageSize - nDataPos, n) bytes into the payload. Grows `vRecv` by at most 256 KiB ahead, never past the declared size. Keeps nDataPos <= size(vRecv) <= nMessageSize. |
| Framer.NetMessage.Read | src/net.cpp:720-726 | Dispatches to the header or the payload reader. A non-negative result consumes a non-empty prefix of the input and extends what the message absorbed by exactly that prefix. |
| Framer.RecvQueue.ReceiveMsgBytes | src/net.cpp:707-743 | On success, the queue absorbed exactly the input bytes, every message but the last is complete, and no message declares more than MAX_PROTOCOL_MESSAGE_LENGTH. On failure, the last header was refused or oversized, and the queue absorbed a prefix of the input. The messages queued before the call are left as they were, field by field. The one exception is a last message that was still incomplete, which this call goes on filling. Every message this call completes is stamped with the time. |
| Framer.RecvQueue.FeedOnce | src/net.cpp:711-739 | One pass of the receive loop consumes a non-empty part of the input from `pos` on and appends it to the stream, or reports the rejection. Messages before the one it fills are left as they were. |
| Framer.RecvQueue.FeedTail | src/net.cpp:716-739 | Feeding the open message keeps the queue valid and its declared sizes within MAX_PROTOCOL_MESSAGE_LENGTH, or rejects. |
| Framer.RecvQueue.OpenMessage | src/net.cpp:712-714 | A fresh message is pushed only when the queue is empty or its last message is complete. The stream so far is unchanged. |
| Framer.RecvQueue.AbsorbIntoTail | src/net.cpp:719-726 | The last message absorbs a prefix of the input or refuses its header. The messages before it are untouched. |
| Framer.RecvQueue.StampTail | src/net.cpp:736-739 | A completed message gets its receive time. Nothing else changes. |
| Framer.RecvQueue.ValidAllButLastComplete | src/net.cpp:712-714 | In a valid queue every message except the last is complete. |
| SendQueue.SendFrom | src/net.cpp:805-835 | The round stops inside the queue, with an offset inside the current block. A hard error stops it on a block. It never sends more than was pending. |
| SendQueue.SendFromPending | src/net.cpp:805-841 | After a round, the pending bytes are exactly the old pending bytes minus the ones sent. |
| SendQueue.SendFromDrains | src/net.cpp:837-840 | The round empties the queue exactly when it sent every pending byte. |
| SendQueue.TotalSizeAppend | src/net.cpp:2608 | Appending a block adds its size to the queued size. |
| SendQueue.FlattenAppend | src/net.cpp:2606-2607 | The bytes of a queue with a block appended are the old bytes followed by the block. |
| SendQueue.Mod64Step | src/net.cpp:811-813 | Adding a count to a uint64 counter modulo 2^64, step by step, equals adding it once. |
| SendQueue.SendBuffer.SocketSendData | src/net.cpp:801-842 | Erases exactly the fully sent prefix and leaves the offset into the next block. `nSendSize` stays the total of what remains. It adds the bytes sent to `nSendBytes` and the quota counters, and sets `fDisconnect` only on a non-transient error. |
| SendQueue.SendBuffer.SendRound | src/net.cpp:803-835 | The send loop ends in the state `SendFrom` describes. |
| SendQueue.SendBuffer.SendFront | src/net.cpp:806-834 | One loop pass either moves to the next block or stops, and keeps the round invariant. |
| SendQueue.SendBuffer.Advance | src/net.cpp:809-821 | A positive send advances the offset, counts the bytes, and moves on only when the block is finished. |
| SendQueue.SendBuffer.MoveOffset | src/net.cpp:812-821 | A finished block resets the offset to 0 and subtracts its size. A partial one stops the round. |
| SendQueue.SendBuffer.CountSent | src/net.cpp:809-813 | The bytes of a send are added to the node's counters and to `RecordBytesSent`. |
| SendQueue.SendBuffer.EndMessage | src/net.cpp:2588-2612 | An empty message is dropped. Otherwise the finished message is appended and the pending bytes grow by it. When the queue was empty, an immediate send round follows, with the new queue, offset, byte count, last-send time, disconnect flag and node-wide counters of `SocketSendData`. Without that round, the counters, the last-send time, the disconnect flag and every quota field are unchanged. |
| SendQueue.SendBuffer.PushBlock | src/net.cpp:2606-2608 | Appending a block keeps the queue valid and adds the block to the pending bytes. |
| Eviction.BeforeIsStrictWeakOrder | src/net.cpp:863-876 | Each of the three comparators is a strict weak order. |
| Eviction.InsertPermutes | src/net.cpp:901-916 | Inserting into the sorted sequence adds exactly one element. |
| Eviction.InsertSorted | src/net.cpp:901-916 | Inserting keeps the sequence sorted. |
| Eviction.SortSorted | src/net.cpp:901-916 | Sorting yields a sorted permutation of the candidates. |
| Eviction.ProtectionSplits | src/net.cpp:901-916 | Erasing the last `drop` after a sort splits the candidates into survivors and shielded ones. No shielded candidate sorts before a survivor, and the survivors stay sorted. |
| Eviction.NetGroupProtection | src/net.cpp:899-902 | min(4, n) candidates are shielded, and each has a keyed net-group no smaller than any survivor's. These are the four largest. |
| Eviction.PingProtection | src/net.cpp:906-909 | min(8, n) candidates are shielded, and each has a minimum ping no higher than any survivor's. |
| Eviction.AgeProtection | src/net.cpp:913-916 | Half the candidates are shielded, and each connected no later than any survivor. |
| Eviction.SurvivorsCount | src/net.cpp:895-918 | Some candidate survives exactly when there are more than 12, and the survivors come newest first. |
| Eviction.SurvivorsAreUnshielded | src/net.cpp:897-918 | Every survivor is a candidate that each of the three protections left exposed. |
| Eviction.PickIsLargestNewestGroup | src/net.cpp:920-937 | The group loop picks a largest net-group. Among the largest, it picks the one whose newest member connected latest. |
| Eviction.GroupOfSorted | src/net.cpp:926-940 | A net-group's members keep the newest-first order and all belong to the group. |
| Eviction.SelectGroup | src/net.cpp:922-940 | The loop over `mapAddrCounts` ends with the group `Pick` chooses and that group's members. |
| Eviction.VictimExists | src/net.cpp:940-950 | There is no victim exactly when at most 12 candidates exist, or when the chosen group has one member and new connections are not preferred. |
| Eviction.VictimIsNewestOfLargestGroup | src/net.cpp:920-953 | The victim is the newest member of a largest surviving group. |
| Eviction.FirstWithId | src/net.cpp:956-961 | Gives the first node with the victim's id, or none. |
| Eviction.AttemptToEvictConnection | src/net.cpp:878-966 | Returns true exactly when there is a victim and a node with its id. Only that first node gets `fDisconnect` set, and every other flag is unchanged. |
| Eviction.CollectCandidates | src/net.cpp:879-893 | The snapshot holds exactly the inbound, non-whitelisted, not-yet-disconnecting nodes, in order. |
| Eviction.ChooseVictim | src/net.cpp:895-953 | The sorting-and-erasing steps compute `Victim`. |
| Eviction.DisconnectFirst | src/net.cpp:954-965 | Flags the first node with the id, and reports whether there was one. |
| BanStore.BanUntil | src/net.cpp:572-579 | An offset <= 0 means now plus the default ban time. Otherwise the offset counts from now, or from the epoch when `sinceUnixEpoch` is set. |
| BanStore.BanNeverShortens | src/net.cpp:571-586 | After `Ban` the subnet has an entry lasting to the later of its old end and the new one. Other entries are unchanged. |
| BanStore.BanTakesEffect | src/net.cpp:571-586 | A ban ending after now bans every address the subnet matches. |
| BanStore.SweepKeepsBans | src/net.cpp:616-633 | Sweeping never changes whether an address is banned now. |
| BanStore.EntryEndingNowIsKeptButInert | src/net.cpp:616-633 | An entry ending exactly now bans nothing (`<` at line 543) but survives the sweep (`>` at line 625). |
| BanStore.SubNetBanCoversMatches | src/net.cpp:533-547 | A subnet's own unexpired entry bans every address it matches. |
| BanStore.BanList.ClearBanned | src/net.cpp:526-531 | Empties the list and marks it dirty. |
| BanStore.BanList.IsBanned | src/net.cpp:533-547 | True exactly when some matching entry lasts beyond now. |
| BanStore.BanList.IsSubNetBanned | src/net.cpp:550-564 | True exactly when this subnet's own entry lasts beyond now. |
| BanStore.BanList.Ban | src/net.cpp:571-586 | The list becomes `AfterBan`, an operator[] insert followed by a replacement only when the new ban lasts longer. The list is marked dirty. |
| BanStore.BanList.Unban | src/net.cpp:593-601 | Returns true exactly when an entry was erased. The dirty flag is set exactly then. |
| BanStore.BanList.GetBanned | src/net.cpp:603-607 | Returns the whole list. |
| BanStore.BanList.SetBanned | src/net.cpp:609-614 | Replaces the list and marks it dirty. |
| BanStore.BanList.SweepBanned | src/net.cpp:616-633 | Erases exactly the entries with now > nBanUntil. Marks the list dirty exactly when one was erased. |
| BanStore.BanList.BannedSetIsDirty | src/net.cpp:635-639 | Returns the dirty flag. |
| BanStore.BanList.SetBannedSetDirty | src/net.cpp:641-645 | Sets the dirty flag and nothing else. |
| Relay.RelayInvType | src/net.cpp:2145-2146 | MSG_DSTX for a broadcast transaction. Otherwise MSG_TXLOCK_REQUEST when a lock request exists, else MSG_TX. |
| Relay.ExpiredCount | src/net.cpp:2151 | The queue head whose times all lie before now, as long as possible. |
| Relay.RelayCache.Expire | src/net.cpp:2150-2155 | Pops exactly that head and erases each popped inventory from the map, as `ExpireAsWritten` on the cache's value. The new head, if any, has not expired. |
| Relay.RelayCache.ExpireKeepingRequeued | src/net.cpp:2150-2155 | The corrected expiry: pops the same head but erases a popped inventory only when no later entry for it is still queued, as `ExpireUnlessRequeued`. Every cached message keeps a queued entry. |
| Relay.RelayCache.Record | src/net.cpp:2157-2159 | Inserts the payload without overwriting an existing one. Queues the inventory to expire fifteen minutes from now. Every cached message keeps a queued entry. |
| Relay.AnnounceToPeers | src/net.cpp:2161-2173 | A peer gets the inventory exactly when it relays transactions and has no filter or a filter that finds the transaction relevant. Other peers are unchanged. |
| Relay.RelayTransaction | src/net.cpp:2142-2174 | Expires, then records, then announces, with the combined new state of the cache and of every peer. |
| Relay.AsWrittenDropsFreshRecord | src/net.cpp:2150-2159 | As written, relaying a transaction at t0 and t0+1, again at t0+901, and then another one at t0+902 leaves the first transaction uncached, one second after it was cached afresh. With the corrected expiry it is still cached. |
| Relay.CorrectedKeepsQueued | src/net.cpp:2150-2159 | With the corrected expiry, a cached inventory with an entry queued until t stays cached through every later relay made at or before t. |
| Relay.CorrectedRecordLivesFifteenMinutes | src/net.cpp:2150-2159 | With the corrected expiry, a relayed transaction stays cached through every relay made within fifteen minutes of it. |
| Relay.StepAsWrittenKeepsOrder | src/net.cpp:2150-2159 | One relay at a time no earlier than the last keeps the expiry queue sorted by time and within fifteen minutes of that relay. Every cached message keeps a queued entry. An entry due by d for another inventory stays queued. |
| Relay.StepCorrectedKeepsOrder | src/net.cpp:2150-2159 | The same for a relay with the corrected expiry. |
| Relay.AsWrittenRunKeepsOrder | src/net.cpp:2150-2159 | A run of relays at non-decreasing times keeps the queue sorted and every cached message queued. An entry due by d stays queued while no relay of the run is for its inventory. |
| Relay.CorrectedRunKeepsOrder | src/net.cpp:2150-2159 | The same for relays with the corrected expiry. |
| Relay.StaleRecordErased | src/net.cpp:2150-2159 | In a sorted queue whose only entries for inv are due by d, a relay of another inventory after d removes inv from the cache, with either expiry. |
| Relay.AsWrittenRecordExpires | src/net.cpp:2150-2159 | Relays at non-decreasing times: once inv was last relayed at t, a relay of another inventory later than t plus fifteen minutes leaves inv uncached. |
| Relay.CorrectedRecordExpires | src/net.cpp:2150-2159 | The same with the corrected expiry, so the correction does not keep a message cached forever. |
| Quota.CycleRecordsCombine | src/net.cpp:2189-2204 | Two `RecordBytesSent` calls at one time add up to one call with the sum of the bytes. |
| Quota.OutboundQuota.RecordBytesRecv | src/net.cpp:2183-2187 | Adds the bytes to the receive total, wrapping at 2^64. |
| Quota.OutboundQuota.RecordBytesSent | src/net.cpp:2189-2204 | Adds the bytes to the send total and to the cycle counter. When start + timeframe < now, it first restarts the cycle at now with 0 bytes. |
| Quota.OutboundQuota.SetMaxOutboundTarget | src/net.cpp:2206-2214 | Sets the target. Nothing else changes. |
| Quota.OutboundQuota.SetMaxOutboundTimeframe | src/net.cpp:2242-2252 | A different timeframe restarts the cycle at now. The same one leaves it alone. |
| Quota.OutboundQuota.TimeLeftInCycle | src/net.cpp:2228-2240 | 0 when there is no target. |
| Quota.OutboundQuota.TargetReached | src/net.cpp:2254-2272 | Never reached when there is no target. |
| Quota.OutboundQuota.BytesLeft | src/net.cpp:2274-2281 | Never more than the target. |
| Quota.OutboundQuota.BytesLeftComplementsSent | src/net.cpp:2274-2281 | Under a target, no bytes are left exactly when the cycle's bytes reach it. Otherwise bytes left plus bytes sent equal the target. |
| Quota.OutboundQuota.ReachedIffNoBytesLeft | src/net.cpp:2254-2281 | Without the historical buffer, the target is reached exactly when one is set and no bytes are left. |
| Quota.OutboundQuota.HistoricalRuleIsStricter | src/net.cpp:2260-2269 | Whenever the plain rule says reached, so does the historical-block rule. |
| Quota.OutboundQuota.TimeLeftWithinTimeframe | src/net.cpp:2228-2240 | Once the cycle has begun, without wrap-around, the time left never exceeds the timeframe. |
| AskFor.NextTick | src/net.cpp:2541-2546 | The new `nLastTime` is past the old one and not before the clock less one second. |
| AskFor.RequestTime | src/net.cpp:2548-2549 | The request time is two minutes after the last schedule of the hash, and not before the tick. |
| AskFor.AskQueue.AskFor | src/net.cpp:2511-2555 | Full queues drop the item and count at most one warning per interval. A hash already queued is dropped. Otherwise the hash joins `setAskFor`, `nLastTime` ticks, the request is queued at `RequestTime`, and `mapAlreadyAskedFor` remembers it. The queues stay within one item of their caps. |
| AskFor.RetriesAreSpaced | src/net.cpp:2533-2553 | Successive requests for one item are scheduled at least two minutes apart, and the first is two minutes after the prior schedule. |
| AskFor.TicksIncrease | src/net.cpp:2541-2546 | Time indexes strictly increase across calls, whatever the clock does. |
| LocalAddr.BestExists | src/net.cpp:178-188 | Every non-empty address table has an entry that no other outranks by (reachability, score). |
| LocalAddr.BestsTie | src/net.cpp:182 | Any two best entries have the same reachability and score. |
| LocalAddr.AddRaisesScore | src/net.cpp:284-289 | `AddLocal` never lowers a score. A known address whose new score reaches its old one gets that score plus one. Other entries are unchanged. |
| LocalAddr.VoteKeepsBest | src/net.cpp:329-338 | A vote for the best address keeps it best. |
| LocalAddr.LocalHosts.GetnScore | src/net.cpp:231-237 | The address's score, or 0 when it is not local. |
| LocalAddr.LocalHosts.IsReachable | src/net.cpp:349-353 | A network is reachable exactly when it is not limited. |
| LocalAddr.LocalHosts.GetLocal | src/net.cpp:169-191 | Nothing when not listening. Otherwise the result is a best entry with its port and a non-negative score. Nothing is found only when every best entry scores below 0. |
| LocalAddr.LocalHosts.AddLocal | src/net.cpp:269-293 | Accepts exactly a routable address, with discovery on or a score >= LOCAL_MANUAL, on a network that is not limited. The table becomes `AfterAdd`. |
| LocalAddr.LocalHosts.RemoveLocal | src/net.cpp:300-306 | Erases the address and returns true. |
| LocalAddr.LocalHosts.SetLimited | src/net.cpp:309-315 | Sets the network's flag, except that NET_UNROUTABLE is never changed. |
| LocalAddr.LocalHosts.SeenLocal | src/net.cpp:329-338 | A local address gains one point and the call returns true. Otherwise nothing changes and it returns false. |
| Decisions.IdleOnlyWithWorkQueued | src/net.cpp:1169-1181 | With both locks held, the socket waits for nothing exactly when nothing is queued to send and a complete message over the flood size waits to be processed. |
| Decisions.DroppedStaysDropped | src/net.cpp:1283-1306 | A peer the inactivity check drops at some time is dropped at every later time too. |
| Decisions.GraceMinute | src/net.cpp:1284 | No connection is dropped in its first minute. |
| Decisions.LegacyPeersGetLonger | src/net.cpp:1296 | A peer at or below BIP0031_VERSION is kept whenever a newer one with the same times would be. |
| Decisions.OutboundGroups | src/net.cpp:1576-1585 | `setConnected` holds exactly the groups of the outbound connections. |
| Decisions.ChooseIff | src/net.cpp:1589-1618 | Draw k is dialled exactly when all of these hold: k is among the first 100 draws, it is acceptable, and every earlier draw was passed over without stopping the round. |
| Decisions.SelectCandidate | src/net.cpp:1589-1618 | The loop dials the draw `Choose` names, or nothing. |
| Decisions.CandidateIsAcceptable | src/net.cpp:1595-1616 | A dialled address is valid, not local, outside every connected group and not limited. A recently tried one is dialled only from the 30th try, and one on another port only from the 50th. |
| Decisions.BannedAddressIsNotDialled | src/net.cpp:1757-1762 | Once `Ban` (src/net.cpp:571-586) bans a subnet beyond now, an unnamed dial to any address it matches is refused by the pre-dial check. |
| Decisions.CandidateNotRefusedAsLocal | src/net.cpp:1595-1621 | An address the outbound loop picks passes the locality part of the dial check. |
| TextHelpers.Find | src/net.cpp:2911 | `find` returns the first occurrence at or after the start, or none when there is no occurrence. |
| TextHelpers.FindFirstNotOf | src/net.cpp:3394 | `find_first_not_of` returns the first position whose character is outside the set. |
| TextHelpers.FindFirstOf | src/net.cpp:3395 | `find_first_of` returns the first position whose character is in the set. |
| TextHelpers.AsWrittenCutsHost | src/net.cpp:2911-2917 | For an http URL whose path holds "https://", the as-written function drops the host's first character. |
| TextHelpers.AsWrittenCutsHostExample | src/net.cpp:2911-2917 | "http://a/?u=https://b" becomes "/?u=https://b". |
| TextHelpers.AsWrittenAgreesOnPlainURLs | src/net.cpp:2908-2924 | The as-written and corrected functions agree on https URLs that hold no other scheme. |
| TextHelpers.DomainFromURL | src/net.cpp:2908-2924 | The corrected function removes "https://" or "http://" only from the front. |
| TextHelpers.DomainFromURLStripsScheme | src/net.cpp:2908-2924 | Removing the scheme undoes adding it, for every host and path. A URL without a scheme is returned unchanged. |
| TextHelpers.HeaderRoundTrip | src/net.cpp:3388-3402 | For a header written as name, colons and spaces, value, then a terminator, reading it back gives the value. |
| TextHelpers.MissingHeaderIsEmpty | src/net.cpp:3390-3401 | An absent header reads as empty. |
| TextHelpers.EmptyValueReadsAsCarriageReturn | src/net.cpp:3394-3398 | The terminator search starts one past the value's first character, so an empty value before "\r\n" reads as "\r". The corrected reading gives the empty value. |
| TextHelpers.HeaderFixedRoundTrip | src/net.cpp:3388-3402 | With the terminator searched from the value's first character, every written header reads back as its value, the empty value included. |

## Left out

- **Thread bodies.** The socket, message-handler and connection threads are left out as wholes, along with their locking, sleeps, semaphores and `select()`. Only their decisions are modelled. A TRY_LOCK comes in as whether it succeeded.
- **Socket I/O and OS calls.** `send()` is a parameter giving, for each call, the bytes accepted or an error code. Dialling, binding, UPnP, DNS seeding and interface discovery are left out.
- **Persistence and foreign components.** File persistence of the ban list and the address database is left out. So are the HTTP/HTTPS/IPFS clients except their two string helpers, and reference counting of nodes.
- **Foreign computations as parameters.** The message checksum hash, the header deserialiser, `CSubNet::Match`, `CBloomFilter`, `GetGroup`, the keyed net-group hash, `addrman` and reachability are parameters. So is the `CSubNet` built from a `CNetAddr` by the address overloads of `Ban` and `Unban`. Those overloads are therefore not modelled separately.
- **`-dropmessagestest` and `-fuzzmessagestest`.** These hooks in `EndMessage` are randomised debugging and are left out. So are `Fuzz`, `PoissonNextSend` and the ping doubles of `copyStats`.
- **Logging.** Left out everywhere, including `SetMaxOutboundTarget`'s warning about a small target.
- **Eviction.SortSorted: ordering of ties.** The model sorts by insertion, which is stable, while `std::sort` is not. Every eviction property is therefore stated over the strict orderings only: which candidates are shielded and which group wins. The identity of the victim, for `Victim` and `AttemptToEvictConnection`, is the insertion sort's when two candidates tie on a sort key.
- **LocalAddr.LocalHosts.GetLocal: which of several equally ranked addresses is returned.** `GetLocal` iterates over `mapLocalHost` in the map's key order. The model's loop takes the keys in any order, so when two addresses tie on both reachability and score, the contract only promises one of them.
- **AskFor.AskQueue.AskFor: `mapAlreadyAskedFor` capacity.** It is a `limitedmap` with a capacity, and the evictions it makes when full are not modelled: the model's map is unbounded. The `int64_t` times are unbounded integers. `mapAskFor` is a multimap and is modelled as a multiset of (time, inventory) pairs, since `AskFor` only inserts into it.
- **Quota.OutboundQuota.TimeLeftInCycle: single clock reading.** The source reads the clock twice (lines 2238-2239). The model uses one time, so it does not capture a clock that moves between the two reads.
- **Uint64 counters.** The `unsigned int` send/receive lengths and the uint64 counters are modelled with explicit wrap-around modulo 2^64 (`Wrap64`, `Add64`, `Mul64`). The quota arithmetic wraps; it does not saturate.
- **Decisions.DroppedStaysDropped: no flag write.** The inactivity rules are a function returning why a peer is dropped. The write of `fDisconnect` itself, and the 64-bit overflow of `nPingUsecStart + TIMEOUT_INTERVAL * 1000000`, are not modelled.
- **Decisions.SelectCandidate: `nOutbound` and the dial.** The outbound count computed beside `setConnected` is not modelled, because it is not used in the candidate loop. The candidate loop ends in `OpenNetworkConnection`, whose pre-dial check is the predicate `Decisions.MayDial`; the dial itself is I/O.
- **Relay.RelayCache.Expire: single clock reading.** The source calls `GetTime()` for every expiry test of the loop (line 2151). The model compares every entry with one time, so it does not capture a clock that moves during the loop.
- **Relay.RelayTransaction: single clock reading.** The source reads the clock again for the new expiry (line 2159). The model uses the same time as for the expiry loop.
- **Relay.RelayTransaction: as written.** It uses the expiry as written, with the lost record the Findings describe. The corrected expiry is `Relay.RelayCache.ExpireKeepingRequeued`.
- **Relay.AnnounceToPeers: `PushInventory` as an append.** The model records each `PushInventory` call (lines 2170 and 2172) as an append to `vInventoryToSend`. The filtering `PushInventory` does itself, against `filterInventoryKnown` in net.h, is not modelled.
- **BanStore.BanList.IsBanned: single clock reading.** The source calls `GetTime()` once per entry (line 543). The model uses one time for the whole walk.
- **BanStore.BanUntil: int64 overflow.** The end of a ban, `(sinceUnixEpoch ? 0 : GetTime()) + bantimeoffset` (line 579), is an `int64_t` sum. The model adds unbounded integers. For a positive offset above INT64_MAX less the time, the source overflows, which is undefined behaviour; in practice it gives a negative end, and the test at line 582 then stores no ban. The model instead bans until the unbounded sum. `BanStore.BanList.Ban`, `BanStore.BanTakesEffect` and `Decisions.BannedAddressIsNotDialled` carry this over: they hold only for offsets whose sum fits in 64 bits.
- **BanStore.BanList.Ban: single clock reading.** The source reads the clock twice, for `nCreateTime` (line 572) and for the end of the ban (line 579). The model uses one time for both.
- **Framer.RecvQueue.ReceiveMsgBytes: single clock reading.** The source stamps each message it completes with its own `GetTimeMicros()` call (line 737). The model stamps all of them with one time.
- **SendQueue.SendBuffer.SocketSendData: cycle fields after a wrap.** When `now + nMaxOutboundTimeframe` reaches 2^64, the end of a cycle started at now wraps below now, so once one `send()` of the round starts a new cycle, every later one starts another. The cycle start and the bytes sent in the cycle then depend on the size of each `send()`, not only on the round's total. The contract does not state them in that case.
- **SendQueue.SendBuffer.SocketSendData: single clock reading.** The source reads the clock at every `send()` that writes bytes: once for `nLastSend` (line 810) and once inside `RecordBytesSent` (line 2194). The model uses one time for the whole round. So when a quota cycle ends between two sends of a round, the source starts the new cycle at the later send, and the model does not. `nLastSend` is likewise that one time.
- **SendQueue.SendBuffer.EndMessage: single clock reading.** Its optimistic write (line 2612) is a `SocketSendData` round, and the model runs it with the same single time.
- **Framer.NetMessage.ReadData: `unsigned int` arithmetic.** Lengths are naturals. `MAX_SIZE` bounds the declared size, so the source's `unsigned int` arithmetic there does not wrap.
- **Network and score constants.** `vfLimited` is indexed by the four networks of netbase.h and `LOCAL_MANUAL` is 4, as in net.h. Neither header is part of this model.
- **`GetnScore` and `LOCAL_NONE`.** `GetnScore` compares `mapLocalHost.count(addr)` with `LOCAL_NONE`, which is 0. The model reads this as "not a local address".

## Findings

| source | as written | input that shows it | evidently intended | confidence | as-written member | corrected member |
|---|---|---|---|---|---|---|
| src/net.cpp:2908-2924 | `GetDomainFromURL` tests with `find` whether "https://" or "http://" occurs anywhere in the URL, then always drops the first 8 or 7 characters. | "http://a/?u=https://b" gives "/?u=https://b" | Remove the scheme only when the URL starts with it, giving "a/?u=https://b". | high; not executed | TextHelpers.AsWrittenCutsHost | TextHelpers.DomainFromURLStripsScheme |
| src/net.cpp:2150-2159 | The expiry loop erases the cached message of every popped entry, even when a later entry for the same inventory is still queued. | Relay inv at t0 and t0+1, again at t0+901, then another transaction at t0+902: the stale entry (t0+901, inv) pops and erases inv, cached afresh one second earlier. | A relayed message stays cached for fifteen minutes: erase only when no later entry for the inventory is queued. | high; not executed | Relay.AsWrittenDropsFreshRecord | Relay.CorrectedRecordLivesFifteenMinutes |
| src/net.cpp:3394-3398 | `ipfs_header_value` searches for the terminator from `begin + 1`, so the value's first character is never tested. | "Etag:\r\n" with name "Etag" gives "\r". | An empty value reads as empty. | medium; not executed | TextHelpers.EmptyValueReadsAsCarriageReturn | TextHelpers.HeaderFixedRoundTrip |
