# Verified models of the capture, session and replay core

Dafny models of the parts of the daemon whose correctness is easiest to get wrong, with proofs of what they
promise. Where the program updates state in place, the model is a class with the same fields, whose methods are
proved equal to a function on values; the properties over whole runs are then proved about those functions.

| part | files | main results |
|---|---|---|
| sessions and the zone demultiplexer | `Identity`, `RegistryModel`, `RegistryInvariant`, `PromotionEffect`, `IdleSweep`, `Demux`, `DemuxInvariant`, `ZoneRouting`, `Attribution`, `SessionHistory`, `BoxRegistry`, `PacketDispatcher` | the box list, the character store and the active id agree in every reachable state; who gets every packet, and that it is the box told last; a binding is exclusive and stays; each stream gets exactly its own traffic; what a promotion leaves, and exactly when no session is live after it; the idle sweep takes exactly the idle |
| wire packets and reassembly | `Bytes`, `Wire`, `Fragments`, `OversizedStream`, `ArqStream`, `ArqOrder` | the packets of any messages, cut, framed and compressed in any way, arriving early, late or repeated within the window, give those messages whole and in order and nothing else; the buffer never passes its cap; exactly when bytes are copied past it |
| golden comparison | `GoldenCompare`, `GoldenAsync`, `GoldenFields` | the comparison does not see emission order; exactly when it does not see the asynchronous fields; two streams compare equal exactly if the same spawns with the same fields are tracked at every snapshot |
| recordings | `Recording`, `Varints`, `MessageDecode`, `KindScan`, `MessageEncode`, `TypedMessages` | a recording cut off anywhere reads back as the envelopes it holds whole; decoding inverts the protobuf encoding, and gives back values of every type; the kind scan agrees with the full decode, and exactly when it does not |
| cursors | `Arithmetic`, `BitStreams`, `NetStreams`, `GuildRoster` | the byte-wise bit reader equals a bit-at-a-time one; the roster loop ends on any bytes and reads back what was sent |
| map files | `MapText`, `MapEncoding`, `MapFile`, `MapRecords`, `MapRoundTrip`, `MapDisk`, `MapSurvival`, `MapScaling`, `MapData`, `SoeMap` | from bytes to bytes: exactly which layers are loaded as they were saved, and that every layer loaded and scaled keeps all its lines; merging segments loses none |
| capture queue | `CaptureQueue`, `CapturePlayback` | under every interleaving frames go out in capture order, the end is announced only when all are out, and it is reached |
| message filters | `MessageFilters`, `Messages` | the cached flags are always those of a fresh evaluation |

Envelopes are in the Protocol Buffers encoding, sections "Base 128 Varints" and "Message Structure".

Foreign code enters as parameters about which only what is written in a `requires` is known: the name digest, the
decompressor and its inverse, the regular expression match, the colour conversion. Clocks are parameters too.

## Where the code and its comments disagree

The models follow the code.

- `scripts/semantic_diff.py:37-41` says that asynchronous spawn fields are stripped before comparing. They are from
  snapshots and added spawns, but not from `spawn_updated` (lines 79-83). `AsyncHiddenIff` says exactly which
  streams this shows in, `UpdateShowsGuildTag` gives the smallest.
- The checkpoint sort gives a record without an id the key 0 (line 56), so such a record and one with id 0 keep the
  order they were put in. `OrderHiddenIff` says that this is the only way the order shows, and
  `TieShowsInStreams` gives two streams.
- `src/packetfragment.cpp:164-177` compares a fragment with the size of the allocation, which may be left from an
  earlier, larger message, and not with the declared total. `OverrunsTotalIff` and `OverrunHappens` say when the
  data collected passes the total without being abandoned. A first fragment is not compared with anything
  (lines 150-151): its bytes go past the allocation exactly when they are more than it and than the total declared
  (`StaysWithinIff`, `OverstepHappens`). In every other case all bytes stay within it.
- `src/mapcore.cpp` writes names and colours as Latin-1 (lines 1259-1262 and 1283-1286) and reads them as UTF-8
  (line 569). Points, heights and flags survive for every layer; names and colours exactly if they are plain ASCII
  (`RoundTripIff`, `AccentedLayerChanges`).
- A colour preference that is no colour counts as black when segments are merged (`ColorKeptIff`,
  `BlackIsSwallowed`).
- `scripts/decode_pbstream.py:362-383` promises the payload number of an envelope. For a message that is given up
  at a group tag, the scan names the tag's number though nothing is stored (`ScanAgreesIff`, `GroupTagIsNamed`).
- A zone packet with both ports 0 matches every box of its client that was never bound
  (`ZeroTupleIsEverybodys`); `ZeroTupleOwnerIff` says when it has one owner all the same, and the other results on
  exclusive routing leave that tuple out.
- `src/boxregistry.cpp:275-282` means to leave one session of the character promoted Attached. If the character's row
  points to a newer session that has been renamed since, none is (`OneAttachedIff`, `NobodyIsAttached`).
- `src/packetstream.cpp:61-63` and lines 873-895 take a number from far back for one that wrapped round. A repeat from
  more than 1024 back is kept as if it were ahead (`AheadIff`), and what is kept is taken when its number comes
  (`KeptIsTaken`).
- `scripts/decode_pbstream.py:253` gives enum numbers as they are on the wire: a negative one comes as 2 to the 64th
  more (`EnumBackIff`).
- A 3D line saved while it still has one point is written but not read back (`OnePointLineIsLost`).

## Model

| member | source | states |
|---|---|---|
| `Identity.PlaceholderInjective` | src/boxregistry.cpp:72-75 | anonymous sessions have the same id only if their world tuples are the same |
| `Identity.PlaceholderIsNotPromoted` | src/boxregistry.cpp:72-75 | no name's id is ever a placeholder |
| `Identity.PlaceholderSpells` | src/boxregistry.cpp:72-75 | how a placeholder is spelt: the address in eight and both ports in four hexadecimal digits |
| `RegistryModel.BestUnique` | src/boxregistry.cpp:346-371 | the lookups that take the best match have one answer: the earliest of the highest ranked |
| `RegistryInvariant.ObserveKeepsInv` | src/boxregistry.cpp:46-97 | observing keeps the invariant, and the observed tuple is registered afterwards |
| `RegistryInvariant.NameDecodedKeepsInv` | src/namepromoter.cpp:35-73 | the OP_EnterWorld promotion and its hook keep the invariant |
| `RegistryInvariant.PromoteByNameKeepsInv` | src/boxregistry.cpp:231-286 | the OP_PlayerProfile promotion, renames included, keeps it |
| `RegistryInvariant.ReclassifyOk` | src/boxregistry.cpp:275-282 | reclassifying leaves at most one Attached session under the id, whatever was there before |
| `RegistryInvariant.SetActiveKeepsInv` | src/boxregistry.cpp:108-118 | switching the active character keeps it |
| `RegistryInvariant.AnnounceKeepsInv` | src/zoneserverobserver.cpp:33-63 | a zone announcement, which clears a binding, keeps it |
| `RegistryInvariant.ActiveIsLive` | src/boxregistry.cpp:288-298 | once there is a box, the active id resolves to a registered one |
| `RegistryInvariant.SharedIdIsSharedDigest` | src/boxregistry.h:72-90 | two boxes share an id only as sessions of characters whose names have the same digest |
| `PromotionEffect.PromotionDoes` | src/boxregistry.cpp:231-286 | a promotion that takes effect, field by field: the box has the name and its id; of the boxes with that id the one the character's row points to is Attached and every other Superseded, no other state changes; the row goes to the box unless it pointed to one first seen later; the active id follows, or adopts a character nobody else is known by unless a named box is active |
| `PromotionEffect.PromotionIgnored` | src/boxregistry.cpp:231-234 | without a box, without a name or under the same name nothing happens |
| `PromotionEffect.OneAttachedIff` | src/boxregistry.cpp:275-282 | at most one session of the character is Attached afterwards, and one is exactly unless its row points to a newer box that has another id by now |
| `PromotionEffect.NobodyIsAttached` | src/boxregistry.cpp:275-282 | three promotions from power-on after which none is |
| `PromotionEffect.NameDecodedDoes` | src/namepromoter.cpp:35-73 | the first name of an anonymous box: name, id, row and active id follow, states stay |
| `PromotionEffect.NameDecodedIgnored` | src/namepromoter.cpp:35-73 | a box that has a name keeps it |
| `PromotionEffect.SwitchDoes` | src/boxregistry.cpp:108-118 | switching takes effect exactly for the id of some box, and changes nothing else |
| `IdleSweep.SweepTakesExactlyTheIdle` | src/boxregistry.cpp:143-200 | a sweep takes exactly the non-primary boxes idle past the time-to-live that are not the active character's live one; the others keep order and contents |
| `IdleSweep.SweepKeepsPrimaryAndActive` | src/boxregistry.cpp:143-200 | the one primary stays in front, and the active id resolves to the same box |
| `IdleSweep.RowsFollowSessions` | src/boxregistry.cpp:186-196 | the character rows left are exactly those whose session is still registered |
| `IdleSweep.EvictKeepsInv` | src/boxregistry.cpp:143-200 | a sweep keeps the invariant |
| `DemuxInvariant.PickIsOldOrNew` | src/packet.cpp:937-999 | no packet rebinds a bound box: the pick holds the tuple already, or is unbound and takes one nobody held, or there is none |
| `DemuxInvariant.StepKeepsInv` | src/packet.cpp:800-1069 | every event keeps the invariant |
| `DemuxInvariant.RunKeepsInv` | src/packet.cpp:800-1069 | so does every run of events |
| `DemuxInvariant.Reachable` | src/boxregistry.h:72-90 | in every reachable state rows point to registered boxes, row ids and world tuples are unique, the active id is live, at most one box per id is Attached, and no two boxes hold a zone tuple |
| `DemuxInvariant.StepEvolves` | src/packet.cpp:937-1019 | what any event but a sweep may change in a box |
| `DemuxInvariant.SweepLeavesAlone` | src/boxregistry.cpp:171-196 | a sweep changes no box that it leaves |
| `ZoneRouting.StepKeepsBinding` | src/packet.cpp:937-999 | a binding outlives every event except an announcement to its own box |
| `ZoneRouting.RunKeepsBinding` | src/packet.cpp:937-999 | and every run without one in which the box stays registered |
| `ZoneRouting.ClientPacketReachesBox` | src/packet.cpp:937-1019 | every client-side packet of a bound tuple reaches the bound box's client stream |
| `ZoneRouting.ServerPacketReachesBox` | src/packet.cpp:937-1019 | a server-side one does exactly when no box holds the same two endpoints the other way round |
| `ZoneRouting.ServerPacketFromForeignAddress` | src/packet.cpp:937-1019 | in particular when the server's address is no tracked client's |
| `ZoneRouting.BoundForGood` | src/boxregistry.cpp:300-320 | once bound, packets of the tuple in both directions reach that box after any run in which it is neither announced anew nor evicted |
| `ZoneRouting.ZonePacketGoesToOwner` | src/packet.cpp:1001-1041 | with several boxes, a zone packet goes to the box and side that own it after the look, and is dropped if nobody does |
| `ZoneRouting.StreamsHoldExactlyBoundTraffic` | src/packet.cpp:1001-1041 | over any such run, what is delivered to a box's stream is exactly the subsequence of zone packets whose tuple was its at that moment, in order |
| `ZoneRouting.ZeroTupleIsEverybodys` | src/boxregistry.cpp:300-320 | the excepted tuple: with both ports 0 a packet is owned by every never-bound box of the client |
| `ZoneRouting.ZeroTupleOwnerIff` | src/packet.cpp:937-1041 | with several boxes, such a packet goes to its one owner exactly when it matches no more than one never-bound box |
| `ZoneAttribution.HeldGoes` | src/packet.cpp:937-1019 | a zone packet whose tuple is held goes to the first box that holds it as sender, or else as receiver; that box was heard now, and nothing else changes |
| `ZoneAttribution.UnheldGoes` | src/packet.cpp:937-1041 | a tuple nobody holds goes to the unbound box of the sender that was told last to await this server, or else of the receiver; or else, for a session request only, to the box of the sender last heard at this server's network within 15 seconds; or else to nobody and nothing changes; on the side of each, with the whole state afterwards |
| `ZoneAttribution.AnnounceSets` | src/zoneserverobserver.cpp:33-63 | an announcement sets the port and time awaited and clears the binding of its box, and touches no other |
| `ZoneAttribution.AwaitsWhatItWasTold` | src/zoneserverobserver.cpp:33-63 | in every reachable state each box awaits exactly what it was last told since it was registered, or nothing |
| `ZoneAttribution.ToldLastGetsIt` | src/boxregistry.cpp:373-407 | from power-on, after any run: of the client's unbound boxes told this port, exactly the one told last gets the tuple |
| `ZoneAttribution.AnnouncedGetsIt` | src/boxregistry.cpp:377-384 | in particular a box just told gets the next such packet, unless another was told the same port later |
| `ZoneAttribution.PortClasses` | src/packet.cpp:846-922 | which ports are dropped, which are chat, login, world and zone, and in what order they are asked about |
| `ZoneAttribution.WorldPacketGoes` | src/packet.cpp:800-921 | a world packet is observed as the first box with its tuple or a new one, whose fields are given, settles the client watched, and goes to that box on the side it comes from |
| `SessionHistory.HeardIsNotReaped` | src/boxregistry.cpp:145-165 | a box that received a packet at time t survives every run whose sweeps come no later than t plus the time-to-live |
| `SessionHistory.PromotionGoesForward` | src/boxregistry.cpp:468-487 | a promotion never moves a row to an older session, and its own row is no older than the box promoted |
| `SessionHistory.StepGoesForward` | src/boxregistry.cpp:468-487 | no event leaves a row pointing to an older session than before |
| `SessionHistory.RowIsNoOlderThanPromoted` | src/boxregistry.cpp:468-487 | as long as a row lives its session is no older than any box promoted to its id since |
| `BoxRegistries.BoxRegistry.FindById` | src/boxregistry.cpp:99-106 | the first box with the id, or none |
| `BoxRegistries.BoxRegistry.LookupByWorld` | src/boxregistry.cpp:207-219 | the first box with the world tuple, or none |
| `BoxRegistries.BoxRegistry.LookupByName` | src/boxregistry.cpp:221-229 | the first other box with the name, or none |
| `BoxRegistries.BoxRegistry.LookupBoundZone` | src/boxregistry.cpp:300-320 | the first box holding the zone tuple, or none |
| `BoxRegistries.BoxRegistry.HasClient` | src/boxregistry.cpp:322-327 | whether any box has the client address |
| `BoxRegistries.BoxRegistry.LookupByExpectedZone` | src/boxregistry.cpp:373-407 | of the unbound boxes expecting this zone, the earliest with the latest announcement |
| `BoxRegistries.BoxRegistry.LookupByRecentWorld` | src/boxregistry.cpp:346-371 | of the unbound boxes recently seen near the server, the earliest of the most recent |
| `BoxRegistries.BoxRegistry.CurrentBoxFor` | src/boxregistry.cpp:288-298 | the row's session, else the first box with the id |
| `BoxRegistries.BoxRegistry.Observe` | src/boxregistry.cpp:46-97 | the objects afterwards are the model's observation of those before; the box returned is the observed one |
| `BoxRegistries.BoxRegistry.UpsertCharacter` | src/boxregistry.cpp:468-487 | the character store afterwards is the model's upsert |
| `BoxRegistries.BoxRegistry.OnPromoted` | src/boxregistry.cpp:120-136 | the active id follows a rename of its box, and the row is upserted |
| `BoxRegistries.BoxRegistry.NameDecoded` | src/namepromoter.cpp:35-73 | the OP_EnterWorld path on the objects is the model's |
| `BoxRegistries.BoxRegistry.PromoteByName` | src/boxregistry.cpp:231-286 | the OP_PlayerProfile path on the objects is the model's, and returns the earlier session with the name |
| `BoxRegistries.BoxRegistry.SetActiveCharacterId` | src/boxregistry.cpp:108-118 | the switch is made exactly when some box has the id |
| `BoxRegistries.BoxRegistry.Announce` | src/zoneserverobserver.cpp:33-63 | the port and time awaited are set and the binding cleared, on that box alone |
| `BoxRegistries.BoxRegistry.EvictStale` | src/boxregistry.cpp:143-200 | the boxes and rows afterwards are the model's sweep; the count is that of the boxes removed |
| `PacketDispatcher.EQPacket.PickBox` | src/packet.cpp:937-999 | the three lookups and the binding of the last two, in order, are the model's pick |
| `PacketDispatcher.EQPacket.ZoneDispatch` | src/packet.cpp:1001-1041 | the matched box is touched and its stream named; otherwise the legacy streams or a drop |
| `PacketDispatcher.EQPacket.DispatchPacket` | src/packet.cpp:800-1069 | the registry afterwards and the stream chosen are the model's dispatch, for every packet |
| `Wire.SequencedRoundTrip` | src/packetformat.cpp:148-298 | a sequenced packet, plain or compressed, gives back opcode, number and payload |
| `Wire.UnsequencedRoundTrip` | src/packetformat.cpp:148-298 | the other flagged net packets give back their payload |
| `Wire.AppRoundTrip` | src/packetformat.cpp:148-298 | an app opcode split by the flags, and half compressed, is put together again, with its body |
| `Wire.SubpacketRoundTrip` | src/packetformat.cpp:148-218 | inside another packet there are no flags and no checksum |
| `Wire.OpcodeTable` | src/packetformat.h:64-73 | by the bytes on the wire, which packets carry flags and which a sequence number |
| `Wire.CompressedIff` | src/packetformat.cpp:148-218 | a packet is taken for compressed exactly if it carries flags and they are 0x5a |
| `Wire.LengthWrapsIff` | src/packetformat.cpp:148-218 | the payload length computed wraps round exactly for packets shorter than their headers, and is that of the payload for all others |
| `Wire.InflatedLengthWrapsIff` | src/packetformat.cpp:267-292 | after inflating it wraps round exactly when there is less than is taken off the front |
| `Wire.ProtocolPacket.Init` | src/packetformat.cpp:148-218 | the fields after construction are those of the parsed packet |
| `Wire.ProtocolPacket.Decode` | src/packetformat.cpp:222-298 | decoding gives the decompressed packet's opcode, number and payload, or fails as the decompressor does |
| `Fragments.BufferIsBounded` | src/packetfragment.cpp:95-190 | whatever is fed in, the allocation never exceeds 4 MB and never shrinks |
| `Fragments.StaysWithinIff` | src/packetfragment.cpp:110-188 | a fragment's bytes stay within the allocation exactly when it is not a first one that brings more than the allocation and the declared total |
| `Fragments.HistoryStaysWithinIff` | src/packetfragment.cpp:95-190 | the same of every history |
| `Fragments.OverstepHappens` | src/packetfragment.cpp:141-151 | a first fragment that goes past |
| `Fragments.OverstepIsAbandoned` | src/packetfragment.cpp:164-184 | a sequence that went past is never complete, and the next fragment abandons it |
| `Fragments.PrefixesReassemble` | src/packetfragment.cpp:95-190 | after each fragment the buffer holds exactly the bytes so far, whatever an earlier message left |
| `Fragments.Reassembles` | src/packetfragment.h:56-59 | with the last fragment the message is complete and whole |
| `Fragments.NotCompleteBefore` | src/packetfragment.h:56-59 | and it is complete with no fragment before the last |
| `Fragments.RecoversFromGarbage` | src/packetfragment.cpp:83-190 | after any garbage, oversteps included, that ends in an abandoned or reset sequence the next message arrives whole |
| `Fragments.OverrunsTotalIff` | src/packetfragment.cpp:164-177 | exactly when the data collected passes the declared total without being abandoned |
| `Fragments.OverrunHappens` | src/packetfragment.cpp:164-177 | a message for which it does |
| `Fragments.FragmentSequence.Reset` | src/packetfragment.cpp:83-91 | a reset empties the sequence and keeps the allocation |
| `Fragments.FragmentSequence.AddFragment` | src/packetfragment.cpp:95-190 | the buffer object afterwards is the model's, its bytes included, and something was copied past it exactly when a first fragment overstepped |
| `OversizedStream.FeedMessages` | src/packetstream.cpp:819-957 | packets taken in their turn: any number of messages, each in one packet or cut in pieces, are dispatched whole and in order, and nothing else is |
| `ArqStream.EQPacketStream.SetCache` | src/packetstream.cpp:242-286 | a packet is kept under its number, in place of one kept there before |
| `ArqStream.EQPacketStream.ProcessPacket` | src/packetstream.cpp:819-982 | the awaited packet is taken, one ahead kept, any other dropped; the object afterwards is the model's |
| `ArqStream.EQPacketStream.ProcessCache` | src/packetstream.cpp:289-425 | walking the ordered cache, round the end of the numbers too, takes exactly what follows on |
| `ArqStream.EQPacketStream.HandlePacket` | src/packetstream.cpp:538-634 | one packet off the wire: decoded, processed, and what was kept for then taken |
| `ArqOrder.OtherNumbers` | src/packetstream.cpp:873-895 | a packet with another number than the one awaited changes neither that nor the message being put together, and nothing is dispatched; it is kept exactly if it is ahead |
| `ArqOrder.AheadIff` | src/packetstream.cpp:873-875 | exactly which numbers count as ahead |
| `ArqOrder.KeptIsTaken` | src/packetstream.cpp:340-400 | what was kept is taken in its turn, whatever it is |
| `ArqOrder.GivesUpToNearest` | src/packetstream.cpp:308-329 | with as many kept as allowed the numbers up to the nearest kept are given up, and only they |
| `ArqOrder.SessionInAnyOrder` | src/packetstream.cpp:819-982 | the packets of any messages, arriving in any order within the window, some more than once, with strays that are not ahead between them: at every moment what has been dispatched is what the packets before the first missing one amount to, and with all there exactly the messages, whole and in order |
| `ArqOrder.SessionRoundTrip` | src/packetstream.cpp:898-957 | in particular when they arrive as they were sent |
| `GoldenCompare.Normalize` | scripts/semantic_diff.py:59-90 | the loop over the running dictionary gives the checkpoints and events of the replay |
| `GoldenFields.SnapshotShows` | scripts/semantic_diff.py:71-75 | after a snapshot there is a record for each id listed: the last spawn listed with it, without its guild tag and with every other field as it is |
| `GoldenFields.ReplayShows` | scripts/semantic_diff.py:71-87 | which spawns are tracked and what every field of each is, said on the envelopes alone |
| `GoldenFields.EventsKept` | scripts/semantic_diff.py:86-87 | the other envelopes are kept, all of them and in order |
| `GoldenFields.DifferencesShow` | scripts/semantic_diff.py:59-103 | streams that compare equal have as many snapshots, and at each and at the end the same spawns with the same fields: whatever differs there shows |
| `GoldenFields.EqualIff` | scripts/semantic_diff.py:59-103 | and without ties that and the other envelopes is exactly what is compared |
| `GoldenCompare.NormalizedBySegments` | scripts/semantic_diff.py:71-90 | each checkpoint depends on its own segment between snapshots only |
| `GoldenCompare.TracksOneId` | scripts/semantic_diff.py:76-85 | the record under an id depends on the deltas about that id only |
| `GoldenCompare.SameSegmentsSameResult` | scripts/semantic_diff.py:59-90 | with the same changes per id within each segment, checkpoints without ties are the same |
| `GoldenAsync.UntiedIff` | scripts/semantic_diff.py:55-90 | a scan of the ids in the stream tells exactly whether a checkpoint has a tie |
| `GoldenAsync.EmissionOrderDoesNotShow` | scripts/semantic_diff.py:59-90 | streams with the same snapshots, the same changes per id within each segment and the same other envelopes compare equal |
| `GoldenAsync.OrderAndAsyncDoNotShow` | scripts/semantic_diff.py:37-90 | and so do streams that differ in order and in asynchronous fields at once, if no update leaves one at a checkpoint |
| `GoldenAsync.TieShowsInStreams` | scripts/semantic_diff.py:55-56 | two streams of two spawns in which the order shows |
| `GoldenCompare.OrderHiddenIff` | scripts/semantic_diff.py:55-56 | a checkpoint is a function of the map's contents exactly when it does not hold a record without id beside one with id 0 |
| `GoldenAsync.AsyncHiddenIff` | scripts/semantic_diff.py:41-85 | the comparison ignores the asynchronous fields exactly for streams in which no update leaves one on a tracked spawn at a checkpoint |
| `GoldenAsync.UpdateShowsGuildTag` | scripts/semantic_diff.py:79-83 | a two-envelope stream in which one shows |
| `GoldenAsync.FirstDiff` | scripts/semantic_diff.py:93-103 | none exactly when the lists are equal, else the first difference or the shorter length |
| `Recording.FileSink.Send` | src/filesink.cpp:48-61 | the file is the framing of the envelopes sent, in order |
| `Recording.IterRecords` | scripts/decode_pbstream.py:347-359 | the loop yields the spans of the records |
| `Recording.WholeWithinIsMost` | scripts/decode_pbstream.py:355-356 | the number of envelopes counted as whole fits in the prefix, and one more would not |
| `Recording.TruncatedReadBack` | scripts/decode_pbstream.py:347-359 | a file cut off after any number of bytes reads back as exactly the envelopes wholly in it, in order |
| `Varints.ReadVarintAt` | scripts/decode_pbstream.py:227-235 | the accumulating loop is the base 128 value, or runs off the data |
| `Varints.VarintRoundTrip` | scripts/decode_pbstream.py:227-235 | every number written as a varint reads back, up to the byte behind it |
| `Varints.NumberRoundTrip` | scripts/decode_pbstream.py:238-252 | every value of every integer type comes back with its sign |
| `MessageDecode.DecodePacked` | scripts/decode_pbstream.py:271-287 | packed scalars one behind another |
| `MessageDecode.DecodeMessage` | scripts/decode_pbstream.py:290-340 | the loop over fields, nested messages included, is the recursive decode, and crashes on the same data |
| `MessageDecode.StoreGets` | scripts/decode_pbstream.py:327-339 | storing changes what is under its own number only, and a new number goes behind the others |
| `MessageDecode.FixedRoundTrip` | scripts/decode_pbstream.py:255-268 | fixed-width integers of both widths come back with their sign |
| `KindScan.EnvelopeKindNum` | scripts/decode_pbstream.py:362-383 | the loop is the skipping scan |
| `KindScan.PayloadNumsAre` | scripts/decode_pbstream.py:44-48 | the payload fields are those whose type is none of the fifteen scalar ones |
| `KindScan.ScanAgreesIff` | scripts/decode_pbstream.py:362-383 | on every data that decodes, the scan does not crash and names the first payload field stored, except exactly when, as skipping alone tells, the first payload field's number is that of the tag at which the message is given up |
| `KindScan.GroupTagIsNamed` | scripts/decode_pbstream.py:362-383 | an envelope of the exceptional kind |
| `MessageEncode.RoundTrip` | scripts/decode_pbstream.py:290-340 | a message written anywhere in the data decodes to what it means under the schema, nested, repeated and packed fields included |
| `MessageEncode.RecordHolds` | scripts/decode_pbstream.py:327-339 | a repeated field holds all the values written for it, in order, packed or not; any other the last |
| `TypedMessages.TypedRoundTrip` | scripts/decode_pbstream.py:238-340 | a message of typed values, of every scalar type and nested, singular, repeated and packed, written anywhere in the data, decodes to those very values: every field once, in the order they first come, a repeated one with all its values and any other with its last |
| `TypedMessages.VarintMeans` | scripts/decode_pbstream.py:243-253 | booleans, integers of every varint type and enum numbers are read as themselves |
| `TypedMessages.FixedMeans` | scripts/decode_pbstream.py:255-268 | fixed-width integers of every type and floats are |
| `TypedMessages.EnumBackIff` | scripts/decode_pbstream.py:253 | an enum number comes back exactly if it is not negative |
| `TypedMessages.BoolComesBack` | scripts/decode_pbstream.py:244-245 | one boolean field, as bytes |
| `TypedMessages.UnknownFieldIsKept` | scripts/decode_pbstream.py:305-321 | a field the schema does not know is kept under its number, as an unsigned number or as its bytes |
| `TypedMessages.CutShortIsKept` | scripts/decode_pbstream.py:317-329 | a field of bytes or text whose length is more than there is keeps what there is |
| `MessageEncode.KindOfWritten` | scripts/decode_pbstream.py:362-383 | on a well-formed envelope the scan, the decode and the writer agree on the first payload field |
| `MessageEncode.RecordingDecodes` | scripts/semantic_diff.py:59-69 | every envelope whole in a truncated recording decodes in place to what was written, and its kind is found |
| `BitStreams.BitStream.ReadUInt` | src/netstream.cpp:250-316 | the next n bits as a big-endian number and n bits on, or 0 and no move when there are not as many |
| `BitStreams.BitStream.ReadInt` | src/netstream.cpp:318-325 | sign and magnitude; when the bits run out behind the sign, the sign alone is consumed |
| `BitStreams.BitsSplit` | src/netstream.cpp:250-316 | reading a bits and then b is reading a + b at once |
| `BitStreams.TwoReads` | src/netstream.cpp:250-316 | two reads against one of both: the same bits and position if all are there, and what each gives if only the first are, or none |
| `NetStreams.NetStream.ReadUInt8` | src/netstream.cpp:47-62 | a byte, or 0 and no move |
| `NetStreams.NetStream.ReadUInt32NC` | src/netstream.cpp:207-222 | four bytes as a little-endian number, or 0 and no move |
| `NetStreams.NetStream.ReadLPText` | src/netstream.cpp:174-188 | as much of the text as its length says and the data has |
| `NetStreams.NetStream.SkipBytes` | src/netstream.cpp:224-230 | all of the bytes or none |
| `NetStreams.NearTheEnd` | src/netstream.cpp:174-230 | near the end numbers and skips that do not fit read 0 and move nothing, and text takes what there is |
| `GuildRoster.MemberTakesSomething` | src/guildshell.cpp:49-102 | every member read takes at least one byte of a stream that has not ended, so the roster loop ends on any data |
| `GuildRoster.ReadMember` | src/guildshell.cpp:49-102 | the fields read one after the other are those of the model |
| `GuildRoster.Kept` | src/guildshell.cpp:57-67 | banker and alt are the two bits of the flag, exactly when that is 0 to 3 |
| `GuildRoster.KeptFields` | src/guildshell.cpp:49-102 | what becomes of every field read: three lose all but their lowest eight bits, the rest are kept |
| `GuildRoster.GuildShell.GuildMemberList` | src/guildshell.cpp:395-439 | the members held are the directory of the roster in the data, and the name width that of the longest name |
| `GuildRoster.DirectoryNames` | src/guildshell.cpp:435 | the directory has exactly the names sent |
| `GuildRoster.DirectoryHoldsLast` | src/guildshell.cpp:435 | with the last member sent under each |
| `GuildRoster.LongestNameIs` | src/guildshell.cpp:438-439 | the width is an upper bound that some name reaches |
| `GuildRoster.RosterBack` | src/guildshell.cpp:49-102 | members sent are read back, whatever follows them |
| `GuildRoster.ListBack` | src/guildshell.cpp:395-435 | and so is the whole message, its header included |
| `MapRoundTrip.LineLBack` | src/mapcore.cpp:728-814 | the text of a 2D line's record is read as that line under its height, an empty colour as the default |
| `MapRoundTrip.LineMBack` | src/mapcore.cpp:647-726 | the text of a 3D line's record is read as that line, an empty colour as the default |
| `MapRoundTrip.LinesLBack` | src/mapcore.cpp:1233-1275 | the height records are where the reader needs them: the text of all 2D lines is read with their heights and flags |
| `MapFile.LoadedIsGood` | src/mapcore.cpp:517-966 | whatever a file's lines say, the layer loaded has only lines of two points or more with 16-bit numbers and fields without separators, those without height in front |
| `MapRecords.RecordL` | src/mapcore.cpp:728-814 | a 2D record, well-formed or not, on its fields: it adds one line exactly if it has two points and a count, with the points, colour and height in force given; what does not read as a number counts 0 |
| `MapRecords.RecordM` | src/mapcore.cpp:647-726 | the same for a 3D record |
| `MapRecords.RecordH` | src/mapcore.cpp:904-927 | a height record, with a number, without or with a bad one; and records of other kinds disturb nothing |
| `MapRecords.LoadedIff` | src/mapcore.cpp:585-606 | a file is loaded exactly if it has a first line with a comma |
| `MapEncoding.TextBack` | src/mapcore.cpp:568-570 | well-formed UTF-8 is read as the text it encodes |
| `MapEncoding.OnlyEncodings` | src/mapcore.cpp:568-570 | and nothing else is: what is read as a character is its encoding, any other byte is replaced |
| `MapEncoding.RecodeIff` | src/mapcore.cpp:568-570 | text written as Latin-1 and read as UTF-8 is the same exactly when it is ASCII |
| `MapEncoding.RereadIff` | src/mapcore.cpp:1259-1262 | a name written as a C string and read again is the same exactly when it is ASCII without NUL |
| `MapEncoding.AccentIsLost` | src/mapcore.cpp:1259-1262 | U+00E9 is written as one byte and read as the replacement character |
| `MapOnDisk.FileBack` | src/mapcore.cpp:562-576 | the lines read of a file are those written, recoded, whether or not it starts like a byte order mark |
| `MapSurvival.SaveThenLoad` | src/mapcore.cpp:1211-1298 | what is loaded of a saved layer: every line, in order, with points, height and flag, and what the two encodings leave of names and colours |
| `MapSurvival.RoundTripIff` | src/mapcore.cpp:1211-1298 | from bytes to bytes, exactly which layers are loaded as they were saved: those a file could hold, with names and colours in plain ASCII |
| `MapSurvival.AccentedLayerChanges` | src/mapcore.cpp:1259-1262 | a layer that a file can hold and that is not |
| `MapScaling.ScaleKeepsGood` | src/mapcore.cpp:1613-1681 | a scaled layer is still one that a file could hold |
| `MapScaling.OnlyHeightsChange` | src/mapcore.cpp:1613-1681 | scaling touches heights only, each by the 16-bit product or quotient without fraction; lines, points, names and colours stay |
| `MapScaling.ReachableRoundTrips` | src/mapcore.cpp:1211-1298 | a layer loaded from any bytes and scaled any number of times keeps every line's points, height and flag when saved and loaded, and is the very same exactly when its names and colours are plain ASCII |
| `MapScaling.OnePointLineIsLost` | src/mapcore.cpp:1529-1545 | a 3D line saved with its first point only is not loaded, and all else is |
| `MapScaling.ScaleUndoneIff` | src/mapcore.cpp:1613-1681 | scaling down undoes scaling up exactly when the product fits in 16 bits, or the lowest height is negated |
| `Maps.OneRecord` | src/mapcore.cpp:647-927 | one record of the file with all its checks is the model's step |
| `Maps.MapData.LoadMap` | src/mapcore.cpp:517-966 | the layer in the file's bytes is added, or replaces the others, or a bad header adds none |
| `Maps.MapData.SaveMap` | src/mapcore.cpp:1211-1298 | the bytes written are the model's; loading them gives every line back, and the very layer exactly when its names and colours are plain ASCII |
| `Maps.MapData.ScaleUpZ` | src/mapcore.cpp:1648-1681 | the layer being edited is scaled, every height cut to 16 bits and fixed; the others are not |
| `Maps.MapData.ScaleDownZ` | src/mapcore.cpp:1613-1646 | the same with division that drops the fraction |
| `SoeMap.LoadSOEMap` | src/mapcore.cpp:1079-1151 | the loop with its point index gives the merged polylines |
| `SoeMap.SaveSOEMap` | src/mapcore.cpp:1393-1419 | the loop gives each polyline's segments |
| `SoeMap.NothingIsLost` | src/mapcore.cpp:1079-1151 | loading and saving gives back the very segments, in order and direction, for every list and every colouring |
| `SoeMap.JoinsIff` | src/mapcore.cpp:1103-1130 | a segment goes on the line of the one before it exactly if it ends where that starts and is of the line's colour, as read or as shown; else it starts a line |
| `SoeMap.ColorKeptIff` | src/mapcore.cpp:1103-1112 | exactly which segments are saved in their own colour or the one shown: all but black ones merged into a line of another colour that is shown in none |
| `SoeMap.BlackIsSwallowed` | src/mapcore.cpp:1103-1112 | one that is not |
| `SoeMap.ColorsAreKept` | src/mapcore.cpp:1399-1402 | so all are when every colour is shown in a valid one |
| `CaptureQueues.CaptureQueue.Enqueue` | src/packetcaptureprovider.cpp:46-70 | the frame goes to the end of the linked queue, unless it is closed |
| `CaptureQueues.CaptureQueue.GetPacket` | src/packetcaptureprovider.cpp:109-139 | the oldest frame is taken off, with its time and as much of it as its 16-bit length says |
| `CaptureQueues.HandedWholeIff` | src/packetcaptureprovider.cpp:109-139 | a frame is handed over whole exactly if it is shorter than 64 KB, and looks empty exactly if its length is a multiple of that |
| `CaptureQueues.DispatchKeeps` | src/packet.cpp:511-549 | what is dispatched of a frame: its time, its first bytes and their number as a signed 16-bit one |
| `CaptureQueues.CaptureQueue.OfflinePlaybackComplete` | src/packetcaptureprovider.cpp:72-82 | exactly when the end was reached and the queue is empty |
| `CaptureQueues.EQPacketPlayback.Drain` | src/packet.cpp:523-549 | frames are dispatched with their own data and time up to the first of length 0, which is taken too |
| `CaptureQueues.EQPacketPlayback.ProcessPackets` | src/packet.cpp:511-563 | one tick, and that one within another does nothing |
| `CapturePlayback.RunKeepsInv` | src/packetcapture.cpp:269-280 | under every interleaving nothing is lost between file, queue, hand and dispatch |
| `CapturePlayback.ReaderGetsOn` | src/packetcapture.cpp:247-280 | a reader that is not broken off takes one frame each time until the file ends, closed queue or not |
| `CapturePlayback.InCaptureOrder` | src/packetcapture.cpp:393-414 | at every moment what was dispatched is what is due of the first frames of the file, in order |
| `CapturePlayback.FinishedMeansAll` | src/packet.cpp:551-563 | when the end is announced in a session that was not closed, every frame due has been dispatched once |
| `CapturePlayback.FinishedAllIff` | src/packetcapture.cpp:247-267 | in one that was closed on the way, exactly when every frame turned away had length 0 |
| `CapturePlayback.PlaybackEnds` | src/packet.cpp:551-563 | once the reader is through, the loop gets to the announcement, frames of length 0 included |
| `CapturePlayback.TickIsACall` | src/packet.cpp:523-563 | an undisturbed tick of the interleaved model is one call of the loop |
| `MessageFilterFlags.FlagMeans` | src/messagefilter.cpp:189-205 | a flag is set exactly when its slot holds a filter that matches |
| `MessageFilterFlags.BitValues` | src/messagefilter.h:108 | the flag of slot 0 is the lowest bit, that of slot 31 the highest |
| `MessageFilterFlags.FlagsAfterAdd` | src/messages.cpp:89-97 | a fresh evaluation after filling a slot is the old one with the slot's flag where the filter matches |
| `MessageFilterFlags.FlagsAfterRemove` | src/messages.cpp:81-87 | and after vacating one, the old one without that flag |
| `MessageStore.MessageFilters.Filter` | src/messagefilter.cpp:189-205 | the loop computes the flags |
| `MessageStore.MessageFilters.AddFilter` | src/messagefilter.cpp:106-135 | the first vacant slot is filled, if any, and every message's flags stay those of a fresh evaluation |
| `MessageStore.MessageFilters.RemFilter` | src/messagefilter.cpp:150-173 | the slot is vacated, and so they do |
| `MessageStore.MessageFilters.RemFilterByName` | src/messagefilter.cpp:175-187 | the first filter with the name goes |
| `MessageStore.MessageFilters.RemFilterEqual` | src/messagefilter.cpp:137-148 | the first equal filter goes |
| `MessageStore.Messages.AddMessage` | src/messages.cpp:54-70 | the message is appended with its flags |
| `MessageStore.Messages.AddedFilter` | src/messages.cpp:89-97 | updating every entry in place brings all up to date with the slots as they are now |
| `MessageStore.Messages.RemovedFilter` | src/messages.cpp:81-87 | the same on removal |
| `MessageStore.FlagsTell` | src/messagefilter.h:81-86 | an up-to-date message has a slot's flag exactly when the filter there has its type and matches its text |
| `MessageStore.TypeMaskValues` | src/messagefilter.h:131 | the bit of a type is that of its number |

## Left out

- BoxRegistries.BoxRegistry.Observe: packet counts and millisecond clocks are unbounded integers, and addresses and ports are held in host order.
- BoxRegistries.BoxRegistry.EvictStale: the hook that tears down a reaped session's streams, the reaped mark's reader and log lines are not modelled.
- Identity.PlaceholderSpells: the digits are those of the address in host order; the source spells the number as it is stored, in network order.
- PacketDispatcher.EQPacket.DispatchPacket: the streams themselves, and what a dispatched packet makes them do, are not modelled; every registered box is taken to have its streams installed.
- Wire.AppRoundTrip: assumes that the compressed bytes are not empty, as the header check needs a fifth byte.
- Wire.ProtocolPacket.Init: packets shorter than their headers are excluded, LengthWrapsIff says for which; what is read past their end is not modelled; checksums are taken to be right and are not computed.
- Wire.ProtocolPacket.Decode: the same for inflated bytes shorter than what is taken off their front, see InflatedLengthWrapsIff.
- Fragments.FragmentSequence.AddFragment: assumes that a first fragment has its four length bytes; what is copied past the buffer is kept apart, and what it does to other memory is not modelled.
- ArqStream.EQPacketStream.HandlePacket: the session key and the latched client are taken to be right; acknowledgements, session packets, resets and hand-overs are not modelled.
- ArqStream.EQPacketStream.ProcessPacket: packets combined in one are not taken apart, and a message that is itself a net packet is given out as it is.
- GoldenCompare.Normalize: JSON text is represented by the values it is made from.
- MessageDecode.DecodeMessage: floating point numbers and text keep the bytes they are made from; field names are unique in a message, so numbers stand for them.
- Recording.FileSink.Send: a sink that is not open, which drops envelopes, is not modelled; clearing the wall-clock fields and the protobuf serialisation happen before; envelopes are shorter than 2 GB.
- NetStreams.NetStream.ReadLPText: characters are the bytes themselves; `readText` and the signed and big-endian reads are not modelled.
- GuildRoster.GuildShell.GuildMemberList: signals and the release of replaced members are not modelled.
- MapSurvival.RoundTripIff: white space and plus signs around numbers, which QString accepts, do not count as numbers; bounding rectangles are not modelled; the header and the records of locations and ranges are given as text, the header with its two names and the records of kinds P, A and Z.
- MapEncoding.RecodeIff: Qt's UTF-8 decoder is not part of this model; it is taken to replace each byte that starts no well-formed sequence by U+FFFD and to skip a byte order mark at the start of a file.
- Maps.MapData.LoadMap: the lines of a layer are values in its list; the pointer to the line being edited is not modelled, nor are files that cannot be opened or are empty.
- Maps.MapData.SaveMap: adding and deleting lines, points and locations by hand is not among the operations, as it can make layers that saving does not keep.
- SoeMap.NothingIsLost: coordinates are the 16-bit integers behind the printed decimals; reading and printing the decimals is not modelled.
- CaptureQueues.EQPacketPlayback.ProcessPackets: recording to a packet file while decoding is not modelled; frames are not cut to the decode buffer.
- CapturePlayback.PlaybackEnds: the timer is taken to go on ticking, and the reader's own progress is a hypothesis.
- MessageStore.MessageFilters.AddFilter: saving filters to the preferences is not modelled; one message list is connected.
- Map `P`, `A` and `Z` records, locations and aggro ranges, except that they disturb no line.
- Signals that re-enter the registry while it is being changed.
- The alias count and the list of characters that clients are shown, which are views of the registry.
- The group manager, string templates, item cache, preferences, command line and opcode reports: plumbing or easy members.
