# Verified model of the node's communication layer

The repository carries the messages of a blockchain node: a websocket link that acknowledges what
it delivers, and a libp2p layer that chooses peers, dispatches messages and remembers who is
preferred. This project models its stateful and arithmetic core in Dafny and proves what the
components promise each other, over every input and every run.

| files | what they model |
|---|---|
| `Bits`, `Varint`, `Skip` | machine integers, base-128 varints, and the skipping of unknown fields |
| `Codec`, `CodecLaws`, `Writing` | decoding and encoding for any message layout, and the laws of the wire format |
| `WsMessage`, `TopicMessage` | the two generated codecs, as classes that decode onto themselves and write buffers from the back |
| `Distance`, `DistanceBits`, `Sorting` | the two distances between peer hashes, and peers in order of distance |
| `Eviction`, `EvictionLaws`, `PeerKinds` | which peers a full node drops, and what the survivors keep |
| `PeerVerdicts`, `Admission` | what that means for one peer, and the two callers that must agree on it |
| `Transceiver`, `AckProtocol` | one end of the acknowledged websocket, and two ends over an unreliable connection |
| `LoadBalancer` | the outgoing channels by name, with a forwarder behind each |
| `MessagesHandler` | registration of processors on topics, and the broadcast and direct paths to them |
| `PeersRating`, `DirectSender`, `PeersHolder` | the two-tier ratings, direct-message sequencing and filtering, the preferred peers |
| `Basics` | optional values and Go's operations on strings and slices |

A class has the fields its Go struct updates; its methods are proved against functions of a value,
`View()`, and the lemmas are about those functions. Concurrent parts are state machines: a run is
any sequence of enabled actions, so timing, loss and interleaving are arbitrary.

## What the proofs found

- **Re-encoding.** Decoding and encoding again never grows a `TopicMessage`. It can grow a
  `WsMessage`, by exactly 5 bytes, and that happens if and only if `Type` is negative: the decoder
  accepts a negative number in 5 bytes and the encoder writes 10. For any layout the growth is at
  most 5 bytes for each negative 32-bit field, and the bound is reached.
- **Merge.** Decoding `a + b` is decoding `b` onto the result of `a`, in message and in error, with
  one exception: a length that overruns the input is reported as `ErrInvalidLength` or as
  `io.ErrUnexpectedEOF` depending on whether the absolute index wraps. For given `a` and `b` the
  errors differ if and only if the end announced by the failing field of `b` fits in `int` by
  itself and does not fit behind `a`. Behind every `a` except the empty one there is such a `b`.
- **Groups.** The skipping of an unknown group counts start and end tags but looks at no field number
  inside the group. So a group may be closed by an end tag with another number, and its fields
  may carry any number, 0 included, which is illegal elsewhere. Here the code is more lenient
  than the Protocol Buffers encoding, and the grammar follows the code.
- **Eviction.** For distinct peers the verdict is independent of list order, and of what the sort
  does with ties, if and only if no cut falls between two peers at equal distance. One given peer
  is treated alike by every verdict if and only if the cut of its own list does not fall among
  the peers at its distance; exactly then do the admission test and every eviction step over
  the same peers agree about it. The comment on the type `listsSharder` speaks of three lists;
  the code splits into six, and the model has six.
- **Acknowledgements.** An acknowledged `Send` that returned nil was processed by the other side, in
  all runs with at most 2^64 calls of `Send` on that side, and no processing stands for two calls.
  With one call more, a late acknowledgement of the first call answers the last one, which was
  never processed.
- **Removed channels.** The forwarder of a removed channel goes on receiving from the closed channel, so the
  collector can get nil items; a channel yields them if and only if it was removed.
- **UnregisterAllMessageProcessors** succeeds if and only if no topic has a nil entry. Unregistering the
  last processor of a topic leaves one behind, so after any sequence of calls it succeeds if and
  only if every topic a processor was ever registered on still has one; registering one
  processor and unregistering it again makes it fail.
- **Message age.** The comment on `validateMessageByTimestamp` gives an open interval that begins 20
  seconds later than the code's; the code accepts the closed interval from 600 seconds ago to 20
  seconds ahead, and the model does the same.
- **Message IDs.** A message ID is the sender followed by the sequence number. Two different messages
  share one if and only if one sender extends the other by what its own sequence number lacks in
  front; with sequence numbers of equal length that cannot be.
- **Preferred peers.** `Remove` does not correct the stored places of later peers of the shard. The
  places stay right after a removal if and only if it took the last live peer of its shard; two
  peers behind one address, given the same shard and removed in order of arrival, make the second
  removal slice out of range. A removed peer that returns becomes preferred again if and only if it
  comes under the address it was removed from, or under a preferred address that holds no record
  of it: a record left behind at a second address shuts it out there.

## Model

| member | source | states |
|---|---|---|
| `Varint.DecodeVarint` | websocket/data/wsMessage.pb.go:343-356 | the loop computes the specified read: error, bits accumulated so far and index, for 64-bit and 32-bit registers |
| `Varint.ReadMeaning` | websocket/data/wsMessage.pb.go:343-356 | a read succeeds exactly on a well-formed varint of at most ten bytes, and then returns its little-endian base-128 value modulo the register width; overflow means ten continued bytes, end of input means only continued bytes were left |
| `Varint.EncodeVarint` | websocket/data/wsMessage.pb.go:267-277 | writes the varint ending just before the offset, returns its start, and touches no other byte |
| `Varint.UvarintIsVarint` | websocket/data/wsMessage.pb.go:267-277 | what is written for any 64-bit number is a well-formed varint that denotes it |
| `Varint.ReadWritten` | websocket/data/wsMessage.pb.go:389-403 | a written number is read back, anywhere in a buffer, modulo the width of the register |
| `Varint.SovIsLength` | websocket/data/wsMessage.pb.go:307-309 | the bits of `x` or 1, counted in groups of seven, are the number of bytes written, between 1 and 10 for 64-bit numbers |
| `Varint.UvarintMinimal` | websocket/data/wsMessage.pb.go:267-277 | no varint of a number is shorter than the one written |
| `Bits.OrShlAdds` | websocket/data/wsMessage.pb.go:351 | or-ing a shifted 7-bit group into a register of either width adds it, modulo the width, also when bits are shifted out |
| `SkipField.SkipVarint` | websocket/data/wsMessage.pb.go:554-566 | skipping a varint moves the index as reading it does, with the same errors |
| `SkipField.SkipUnknown` | websocket/data/wsMessage.pb.go:532-609 | the loop with its depth counter computes the specified skip |
| `SkipField.SkipFrom` | websocket/data/wsMessage.pb.go:532-609 | success means strictly positive progress to an index that fits in `int` |
| `SkipField.SkipConsumes` | websocket/data/wsMessage.pb.go:532-609 | at any depth and whatever surrounds it, one field, nested groups included, is consumed whole before the loop goes on |
| `SkipField.SkipAccepts` | websocket/data/wsMessage.pb.go:532-609 | every well-formed field with balanced groups is skipped to exactly its last byte |
| `SkipField.GroupNumbersIgnored` | websocket/data/wsMessage.pb.go:552-606 | a group is skipped whatever its number, the number of a field in it and the number of its end tag, 0 included |
| `SkipField.SkipOnlyFields` | websocket/data/wsMessage.pb.go:532-609 | conversely, whatever is skipped inside the input is exactly one well-formed field |
| `SkipField.SkipExtend` | websocket/data/wsMessage.pb.go:532-609 | skipping does not look at what follows the skipped field |
| `SkipField.SkipRefused` | websocket/data/wsMessage.pb.go:552-606 | an end of group without a group, a wire type that does not exist, a negative length and a payload end beyond `int` each give their own error |
| `Codec.DecodeField` | websocket/data/wsMessage.pb.go:340-524 | a field that decodes moves the index forward and stays inside the input |
| `Codec.Encode` | websocket/data/wsMessage.pb.go:278-305 | the length of the encoding is exactly the computed size |
| `CodecLaws.ConcatenationIsMerge` | p2p/data/topicMessage.pb.go:304-496 | where `a` decodes onto `m`, decoding `a + b` onto `m` leaves the message, and reports the error, of decoding `b` onto the result, up to the kind of an overrun error |
| `CodecLaws.EndDecides` | p2p/data/topicMessage.pb.go:371-380 | a field fails because of the end it announces exactly if that lies behind the input; the error tells whether it fits in `int` |
| `CodecLaws.MergeIsExactIff` | p2p/data/topicMessage.pb.go:304-496 | for given `a` and `b`, message and error are literally the same if and only if the failing field of `b` does not announce an end that fits in `int` alone and not behind `a` |
| `CodecLaws.MergeKeepsErrorsIff` | p2p/data/topicMessage.pb.go:356-380 | the error is literally the same for every `b` if and only if `a` is empty |
| `CodecLaws.DecodeAccepts` | p2p/data/topicMessage.pb.go:304-496 | every sequence of well-formed fields with the right wire types decodes, each field replacing what was there: the last one wins |
| `CodecLaws.DecodeOnlyFields` | p2p/data/topicMessage.pb.go:304-496 | conversely, an input that decodes is to its last byte such a sequence, and the message is what its fields mean |
| `CodecLaws.UnknownFieldIgnored` | p2p/data/topicMessage.pb.go:473-488 | inserting a well-formed field with an unknown number, a balanced group included, at a field boundary changes nothing |
| `CodecLaws.UnknownNumberIgnored` | p2p/data/topicMessage.pb.go:473-488 | the same by the number in the tag: any from the one behind the last field up to 2^31 - 1 |
| `CodecLaws.NumberAndType` | websocket/data/wsMessage.pb.go:356-357 | a tag of value 8n + w has number n and wire type w, for every positive 32-bit n |
| `CodecLaws.NumberRead` | websocket/data/wsMessage.pb.go:356 | the decoder reads the low 32 bits of the value in front of the wire type, in two's complement, also for tags beyond 64 bits |
| `CodecLaws.TagRefused` | websocket/data/wsMessage.pb.go:356-367 | which of the three tag errors is given, in the order of the checks, and that none is given otherwise |
| `CodecLaws.FailureLeaves` | websocket/data/wsMessage.pb.go:364-507 | a refused field leaves the message as it was, except that a number cut off or too long has already stored the groups read; a boolean has not |
| `CodecLaws.NoTagLeaves` | websocket/data/wsMessage.pb.go:341-355 | a tag that cannot be read leaves the message as it was, and which error it gives |
| `CodecLaws.PatternMeans` | websocket/data/wsMessage.pb.go:369-384 | any set bit makes a boolean true; an unsigned number is its register; a signed one is its register modulo its width, in its range |
| `CodecLaws.EqualIffSameBytes` | websocket/data/wsMessage.pb.go:143-181 | two messages that can be encoded are equal if and only if their encodings are the same bytes |
| `CodecLaws.NumberReadsBack` | websocket/data/wsMessage.pb.go:243-254 | every field value survives the sign extension to 64 bits and the truncation on reading |
| `CodecLaws.RoundTrip` | websocket/data/wsMessage.pb.go:205-265 | for any layout and every message whose size fits in `int`: decoding the encoding into a reset message succeeds and gives an equal message |
| `CodecLaws.ReencodeBound` | p2p/data/topicMessage.pb.go:249-274 | the size of a decoded message exceeds the input by at most 5 bytes for each negative 32-bit field |
| `CodecLaws.ReencodeReached` | websocket/data/wsMessage.pb.go:278-305 | that bound is reached, by an input that decodes to the same message |
| `CodecLaws.ReencodeNeverGrowsIff` | websocket/data/wsMessage.pb.go:278-305 | no input of a message is shorter than its encoding if and only if none of its fields is a negative 32-bit number |
| `Writing.DecodeBytes` | websocket/data/wsMessage.pb.go:426-456 | length, sign, overflow and bounds checks of a bytes field in the code's order, and the bytes it delimits |
| `Writing.WriteNumber` | websocket/data/wsMessage.pb.go:243-252 | a number field is written just before the end index, nothing else is touched, and zero is not written |
| `Writing.WriteBool` | websocket/data/wsMessage.pb.go:253-262 | a true flag is written in two bytes, a false one not at all |
| `Writing.WriteBytes` | websocket/data/wsMessage.pb.go:230-242 | tag, length and bytes are written just before the end index, nothing else is touched, and empty bytes are not written |
| `Writing.NumberLength` | websocket/data/wsMessage.pb.go:284-292 | the size summand of a number field is the length of what is written for it |
| `Writing.BlobLength` | websocket/data/wsMessage.pb.go:293-300 | the size summand of a bytes field is the length of what is written for it |
| `WsCodec.WsMessage.Reset` | websocket/data/wsMessage.pb.go:39 | every field has its zero value |
| `WsCodec.WsMessage.Unmarshal` | websocket/data/wsMessage.pb.go:336-531 | error and fields, also after a failure, are those of decoding the input onto the old fields |
| `WsCodec.WsMessage.UnmarshalField` | websocket/data/wsMessage.pb.go:341-525 | one round of the loop is one step of the decoding for this layout |
| `WsCodec.WsMessage.ComputeSize` | websocket/data/wsMessage.pb.go:278-305 | the sum over the fields is the size of the encoding |
| `WsCodec.WsMessage.MarshalToSizedBuffer` | websocket/data/wsMessage.pb.go:220-265 | returns the size, fills exactly the end of the buffer with the fields in ascending order, and leaves every byte in front as it was; a buffer of that size is filled from index 0 |
| `WsCodec.WsMessage.Marshal` | websocket/data/wsMessage.pb.go:205-213 | the new buffer is exactly the encoding |
| `WsCodec.WsMessage.IsEqual` | websocket/data/wsMessage.pb.go:162-180 | true exactly for equal fields, nil and empty payload being equal |
| `WsCodec.EqualTo` | websocket/data/wsMessage.pb.go:143-181 | nil, in either form, equals nil only; a pointer or a struct is compared by its fields, and nothing else is equal |
| `WsCodec.Layout` | websocket/data/wsMessage.pb.go:220-265 | the bytes of the six fields, with their constant tags, in ascending order |
| `WsCodec.WsRoundTrip` | websocket/data/wsMessage.pb.go:220-531 | every field comes back, negative types included; a payload without bytes comes back nil |
| `WsCodec.WsReencodeNeverGrowsIff` | websocket/data/wsMessage.pb.go:278-305 | no accepted input of a message is shorter than its encoding if and only if its type is not negative |
| `TopicCodec.TopicMessage.Reset` | p2p/data/topicMessage.pb.go:37 | every field has its zero value |
| `TopicCodec.TopicMessage.Unmarshal` | p2p/data/topicMessage.pb.go:304-496 | error and fields, also after a failure, are those of decoding the input onto the old fields |
| `TopicCodec.TopicMessage.UnmarshalField` | p2p/data/topicMessage.pb.go:309-490 | one round of the loop is one step of the decoding for this layout |
| `TopicCodec.TopicMessage.ComputeSize` | p2p/data/topicMessage.pb.go:249-274 | the sum over the fields is the size of the encoding |
| `TopicCodec.TopicMessage.MarshalToSizedBuffer` | p2p/data/topicMessage.pb.go:199-236 | returns the size, fills exactly the end of the buffer with the fields in ascending order, and leaves every byte in front as it was |
| `TopicCodec.TopicMessage.Marshal` | p2p/data/topicMessage.pb.go:184-192 | the new buffer is exactly the encoding |
| `TopicCodec.TopicMessage.IsEqual` | p2p/data/topicMessage.pb.go:145-160 | true exactly for equal fields, nil and empty bytes being equal |
| `TopicCodec.EqualTo` | p2p/data/topicMessage.pb.go:126-161 | nil, in either form, equals nil only; a pointer or a struct is compared by its fields, and nothing else is equal |
| `TopicCodec.Layout` | p2p/data/topicMessage.pb.go:199-236 | the bytes of the five fields, with their constant tags, in ascending order |
| `TopicCodec.TopicRoundTrip` | p2p/data/topicMessage.pb.go:199-496 | every field comes back, negative timestamps included; slices without bytes come back nil |
| `TopicCodec.TopicReencode` | p2p/data/topicMessage.pb.go:249-496 | for every accepted input, the size of the message is at most the length of the input, and its encoding decodes to an equal message |
| `Distance.ComputeDistanceByCountingBits` | p2p/libp2p/networksharding/listsSharder.go:328-339 | the loop over bytes counts the set bits of the exclusive or of the two hashes, read as numbers |
| `Distance.ComputeDistanceLog2Based` | p2p/libp2p/networksharding/listsSharder.go:342-358 | the loop with its early exit gives the bit length of the exclusive or, that is, all bits minus its leading zeros |
| `Distance.LeadingZerosTable` | p2p/libp2p/networksharding/listsSharder.go:34-67 | each of the 256 entries is the number of zeros in front of the highest set bit |
| `Distance.CountDistanceIsMetric` | p2p/libp2p/networksharding/listsSharder.go:328-339 | zero exactly for equal hashes, symmetric, triangle inequality |
| `Distance.Log2DistanceIsUltrametric` | p2p/libp2p/networksharding/listsSharder.go:342-358 | zero exactly for equal hashes, symmetric, ultrametric inequality |
| `Distance.CountWithinLog2` | p2p/libp2p/networksharding/listsSharder.go:328-358 | the bit count never exceeds the log2 distance |
| `DistanceBits.CountIsDiffering` | p2p/libp2p/networksharding/listsSharder.go:328-339 | the bit-count distance is the number of bit positions in which the two hashes differ |
| `DistanceBits.Log2IsFirstDifference` | p2p/libp2p/networksharding/listsSharder.go:342-358 | the log2 distance is the number of bits behind the first position in which the hashes differ, that position included |
| `DistanceBits.Log2WithoutDifference` | p2p/libp2p/networksharding/listsSharder.go:342-358 | hashes that differ in no position are equal and at log2 distance zero |
| `Sorting.Swap` | p2p/libp2p/networksharding/sorting/peerDistances.go:30-32 | exactly the two elements change places |
| `Sorting.Sort` | p2p/libp2p/networksharding/listsSharder.go:316-317 | the array becomes an ascending permutation of itself |
| `Eviction.ProcessNumConnections` | p2p/libp2p/networksharding/listsSharder.go:160-183 | succeeds exactly for limits that leave the unknown peers a slot; the quotas are then the configured ones, with the rest for unknown peers, and sum to the peer count |
| `Eviction.NewListsSharder` | p2p/libp2p/networksharding/listsSharder.go:113-158 | a sharder is made exactly when the limits pass the checks, with those quotas and no seeders |
| `Eviction.NewOneListSharder` | p2p/libp2p/networksharding/oneListSharder.go:24-37 | a sharder is made exactly for a peer count of at least 3 |
| `Eviction.ListsSharder.SetSeeders` | p2p/libp2p/networksharding/listsSharder.go:376-380 | replaces the seeders and nothing else |
| `Eviction.ListsSharder.SetPeerShardResolver` | p2p/libp2p/networksharding/listsSharder.go:383-393 | replaces the resolver and nothing else; a nil one is refused and changes nothing |
| `Eviction.ListsSharder.SplitPeerIds` | p2p/libp2p/networksharding/listsSharder.go:247-307 | each of the six lists holds exactly the peers of its class with their distances, in input order; preferred peers that are no seeders, and peers of an unexpected type, are on none |
| `Eviction.ListsSharder.SplitPeer` | p2p/libp2p/networksharding/listsSharder.go:261-304 | one round: the peer is appended, with its distance, to the list of its class and to no other |
| `Eviction.SplitNext` | p2p/libp2p/networksharding/listsSharder.go:261-304 | appending a peer to the list of its class keeps every list the members of its class, in input order |
| `Eviction.ComputeUsedAndSpare` | p2p/libp2p/networksharding/listsSharder.go:224-230 | used and spare slots sum to the maximum; nothing is spare unless everybody fits |
| `Eviction.Evict` | p2p/libp2p/networksharding/listsSharder.go:309-325 | sorts in place and returns the peers behind the nearest `numKeep`; everybody when that is negative, nobody when the list is no longer than that |
| `Eviction.ListsSharder.ComputeEvictionList` | p2p/libp2p/networksharding/listsSharder.go:186-220 | the evicted peers are those cut from the six lists under quotas passed down the chain of classes |
| `Eviction.OneListSharder.ConvertList` | p2p/libp2p/networksharding/oneListSharder.go:47-59 | every peer with its distance, in input order |
| `Eviction.OneListSharder.ComputeEvictionList` | p2p/libp2p/networksharding/oneListSharder.go:40-45 | the evicted peers are those cut behind the nearest `maxPeerCount` |
| `Eviction.Has` | p2p/libp2p/networksharding/listsSharder.go:237-245 | membership |
| `EvictionLaws.ClassesPartition` | p2p/libp2p/networksharding/listsSharder.go:247-307 | the six lists and the uncounted peers together are the input, as multisets |
| `EvictionLaws.VerdictPartitions` | p2p/libp2p/networksharding/listsSharder.go:186-325 | evicted, kept and uncounted peers are the input, each as often as it occurs there |
| `EvictionLaws.PreferredNotEvicted` | p2p/libp2p/networksharding/listsSharder.go:266-279 | an evicted peer is a seeder or not preferred |
| `EvictionLaws.KeptIsKeeps` | p2p/libp2p/networksharding/listsSharder.go:200-205 | in each list exactly the number given by the chain of quotas stays |
| `EvictionLaws.ChainBudget` | p2p/libp2p/networksharding/listsSharder.go:200-205 | up to every link the chain gives out no more than the quotas so far, and exactly those if that link is cut short |
| `EvictionLaws.SurvivorsFit` | p2p/libp2p/networksharding/listsSharder.go:160-230 | the counted peers that stay never exceed the peer count |
| `EvictionLaws.NoSlotWasted` | p2p/libp2p/networksharding/listsSharder.go:200-205 | if a class of the chain loses a peer, the classes up to it hold exactly the sum of their quotas |
| `EvictionLaws.SurvivorsStay` | p2p/libp2p/networksharding/listsSharder.go:186-220 | eviction over the survivors, in any order, evicts nobody |
| `EvictionLaws.DeterminedCutUnique` | p2p/libp2p/networksharding/listsSharder.go:309-325 | a cut that does not fall between equal distances always loses the same peers, for every order of the list |
| `EvictionLaws.CutUniqueIff` | p2p/libp2p/networksharding/listsSharder.go:309-325 | for distinct peers a cut is unique if and only if it does not fall between equal distances |
| `EvictionLaws.DistinctDistancesDetermine` | p2p/libp2p/networksharding/listsSharder.go:309-325 | distinct distances determine every cut |
| `EvictionLaws.VerdictUnique` | p2p/libp2p/networksharding/listsSharder.go:186-325 | without ties at a cut the evicted peers are the same for every permutation of the input |
| `EvictionLaws.TieLeavesVerdictOpen` | p2p/libp2p/networksharding/listsSharder.go:309-325 | with a tie at a cut another verdict over the same list evicts a peer this one keeps |
| `EvictionLaws.VerdictUniqueIff` | p2p/libp2p/networksharding/listsSharder.go:186-325 | for distinct peers the verdict is independent of order and sort if and only if no cut falls between equal distances |
| `Basics.ContainsMeans` | p2p/libp2p/networksharding/listsSharder.go:361-373 | a string contains a part exactly if it is the part with something in front and something behind |
| `PeerKinds.ListOfKind` | p2p/libp2p/networksharding/listsSharder.go:247-304 | the list of a peer, from its address, preference, type and shard alone: seeders first, then preferred peers on none, then unknown ones, then validators and observers of the own shard and of others |
| `PeerKinds.KeepsAreStay` | p2p/libp2p/networksharding/listsSharder.go:200-205 | how many of each kind stay, in closed form: along the chain as many as fit into the quotas so far less those who already stay; seeders within their own quota |
| `PeerKinds.EvictedOfKind` | p2p/libp2p/networksharding/listsSharder.go:186-220 | the evicted peers of each of the six kinds are listed ones, in number exactly those beyond the ones that stay; nobody else is evicted |
| `PeerKinds.NobodyGoesWithinQuota` | p2p/libp2p/networksharding/listsSharder.go:186-220 | while no more peers of a kind are listed than its own quota, no verdict evicts one of them, for each of the six kinds |
| `PeerKinds.SeedersCut` | p2p/libp2p/networksharding/listsSharder.go:204 | seeders are cut only when more than their maximum are listed, and then to exactly it |
| `PeerKinds.FarthestGo` | p2p/libp2p/networksharding/listsSharder.go:309-325 | of one kind, nobody who stays differs in more bits of the hash from the own identity than anybody who goes |
| `PeerVerdicts.CutFateDecides` | p2p/libp2p/networksharding/listsSharder.go:309-325 | every cut keeps a peer when all peers up to its distance fit, and evicts it when nearer ones fill the list |
| `PeerVerdicts.OpenCutTurns` | p2p/libp2p/networksharding/listsSharder.go:309-325 | where the cut falls among the peers at its distance, another cut treats the peer the other way |
| `PeerVerdicts.EvictedIffGone` | p2p/libp2p/networksharding/listsSharder.go:186-220 | a peer is evicted exactly if it is cut from the list of its own class |
| `PeerVerdicts.FateDecides` | p2p/libp2p/networksharding/listsSharder.go:186-325 | a settled fate, computed from the peer's own list and distance, is what every verdict does to a listed peer |
| `PeerVerdicts.FatePermuted` | p2p/libp2p/networksharding/listsSharder.go:186-325 | the fate does not depend on the order of the list |
| `PeerVerdicts.TreatedAlikeIff` | p2p/libp2p/networksharding/listsSharder.go:186-325 | for distinct peers, every verdict in every order treats a given peer alike if and only if the cut of its list does not fall among the peers at its distance |
| `PeerVerdicts.OneListTreatedAlikeIff` | p2p/libp2p/networksharding/oneListSharder.go:40-59 | the same for the sharder with one list |
| `Admission.CanConnectToPeer` | p2p/libp2p/discovery/hostWithConnectionManagement.go:70-82 | admits exactly the peers that a verdict over the connected peers and the new one does not evict |
| `Admission.Connected` | p2p/libp2p/connectionMonitor/libp2pConnectionMonitorSimple.go:119-145 | a denied peer is closed and nothing else; otherwise the peer is recorded with the holder of preferred peers, which makes nobody preferred, and exactly the evicted peers are closed |
| `Admission.CheckConnectionsBlocking` | p2p/libp2p/connectionMonitor/libp2pConnectionMonitorSimple.go:249-263 | exactly the denied peers are closed |
| `Admission.AdmittedIsKept` | p2p/libp2p/discovery/hostWithConnectionManagement.go:70-82 | where the fate of the tested peer is settled, it is admitted if and only if the eviction step over the same peers keeps it, in whatever orders the two list them |
| `Admission.AdmissionAgreesIff` | p2p/libp2p/discovery/hostWithConnectionManagement.go:70-82 | every eviction step over the same peers agrees with the test on the tested peer if and only if the cut of its list does not fall among the peers at its distance |
| `Admission.OneListAdmissionAgreesIff` | p2p/libp2p/networksharding/oneListSharder.go:40-59 | the same for the sharder with one list |
| `Admission.TieLetsThemDisagree` | p2p/libp2p/connectionMonitor/libp2pConnectionMonitorSimple.go:134-144 | where it does, another verdict over the very same list treats the tested peer the other way |
| `Admission.EvictedIsListed` | p2p/libp2p/connectionMonitor/libp2pConnectionMonitorSimple.go:134-144 | only connected peers are closed |
| `Admission.EvictionSettles` | p2p/libp2p/connectionMonitor/libp2pConnectionMonitorSimple.go:134-144 | after an eviction step, the same step over the peers that stayed closes nobody |
| `Transceivers.Transceiver.PrepareChanAndCounter` | websocket/transceiver/transceiver.go:225-237 | a new open channel under the next counter, modulo 2^64, entered as pending exactly if acknowledgements are on |
| `Transceivers.Transceiver.HandleAckMessage` | websocket/transceiver/transceiver.go:152-164 | closes the channel of a pending counter and forgets the counter, never closing a closed one; an unknown counter changes nothing |
| `Transceivers.AckCloses` | websocket/transceiver/transceiver.go:152-164 | afterwards the counter is not pending and its channel is closed; every other entry and every other channel is as before |
| `Transceivers.ReceiveIgnores` | websocket/transceiver/transceiver.go:121-150 | nothing, bytes that do not decode, and messages of another type have no effect |
| `Transceivers.Transceiver.VerifyPayloadAndSendAckIfNeeded` | websocket/transceiver/transceiver.go:121-204 | the payload call, the acknowledgement and the bookkeeping are those specified for the raw message, decoded by the real codec |
| `AckProtocol.ReceivePayload` | websocket/transceiver/transceiver.go:121-204 | reading a written send calls the handler with exactly its payload, topic and version, and owes an acknowledgement exactly if one is wanted and not blocked by an error |
| `AckProtocol.ReceiveAck` | websocket/transceiver/transceiver.go:166-204 | reading a written acknowledgement only handles its counter |
| `AckProtocol.WrittenMessages` | websocket/transceiver/transceiver.go:166-223 | a send is written as type 2 with its content, an acknowledgement as type 1 with nothing but its counter |
| `AckProtocol.StepKeeps` | websocket/transceiver/transceiver.go:121-264 | every action of either side or of the network keeps the invariant: bookkeeping in order, only sends and acknowledgements written, only processed sends acknowledged |
| `AckProtocol.RunKeeps` | websocket/transceiver/transceiver.go:121-264 | the invariant holds in every reachable state |
| `AckProtocol.AcknowledgedWasProcessed` | websocket/transceiver/transceiver.go:207-264 | in every run with at most 2^64 sends on a side: an acknowledged `Send` that returned nil was processed by the remote with exactly its payload, topic and version, from a message with its counter, and successfully under `blockingAckOnError` |
| `AckProtocol.OwnProcessing` | websocket/transceiver/transceiver.go:207-237 | in such a run no call of the payload handler stands for two sends, however alike they are |
| `AckProtocol.AckEnablesReturn` | websocket/transceiver/transceiver.go:152-264 | without counter wrap, a waiting `Send` can return nil once its acknowledgement is read |
| `AckProtocol.CountersSplit` | websocket/transceiver/transceiver.go:225-237 | without counter wrap, `1..counter` split exactly into pending counters with an open channel and acknowledged ones with a closed channel |
| `AckProtocol.NoChannelClosedTwice` | websocket/transceiver/transceiver.go:152-164 | in every run, however long, a channel that can still be closed is open |
| `AckProtocol.RepeatedAckChangesNothing` | websocket/transceiver/transceiver.go:152-164 | unknown and repeated acknowledgements change nothing |
| `AckProtocol.WrapBreaksGuarantee` | websocket/transceiver/transceiver.go:225-237 | a run with 2^64 + 1 sends in which an acknowledged `Send` returns nil though the remote never got its payload: the bound above is tight |
| `LoadBalancer.OutgoingChannelLoadBalancer.constructor` | p2p/libp2p/outgoingChannelLoadBalancer.go:31-51 | one channel, the default one, and coherent structures |
| `LoadBalancer.OutgoingChannelLoadBalancer.AppendChannel` | p2p/libp2p/outgoingChannelLoadBalancer.go:53-73 | a new channel at the end of all three structures |
| `LoadBalancer.OutgoingChannelLoadBalancer.AddChannel` | p2p/libp2p/outgoingChannelLoadBalancer.go:76-92 | refuses the default name; any other is present afterwards: a known one changes nothing, a new one comes last with an open channel made by this call; the structures stay coherent |
| `LoadBalancer.OutgoingChannelLoadBalancer.RemoveChannel` | p2p/libp2p/outgoingChannelLoadBalancer.go:95-132 | refuses the default name and unknown ones, changing nothing; else the name and its channel are taken out of their place, the others keep their order, and the channel is closed |
| `LoadBalancer.OutgoingChannelLoadBalancer.GetChannelOrDefault` | p2p/libp2p/outgoingChannelLoadBalancer.go:135-145 | the open channel at the position of the name, or the one at index 0 |
| `LoadBalancer.AddCoherent` | p2p/libp2p/outgoingChannelLoadBalancer.go:53-92 | adding keeps one bijection between names and open channels, the default channel first |
| `LoadBalancer.AddAdds` | p2p/libp2p/outgoingChannelLoadBalancer.go:53-92 | a new name comes last in all structures, with a channel not used before; a known one changes nothing |
| `LoadBalancer.RemoveCoherent` | p2p/libp2p/outgoingChannelLoadBalancer.go:95-132 | removing keeps it, and the name is gone |
| `LoadBalancer.OthersUndisturbed` | p2p/libp2p/outgoingChannelLoadBalancer.go:76-145 | adding or removing a name leaves every other name its channel; a removed name is served by the default channel; no two names share one |
| `LoadBalancer.StepKeeps` | p2p/libp2p/outgoingChannelLoadBalancer.go:53-155 | every add, remove, send, forward and collect keeps: what was collected and what the forwarder holds is what was sent |
| `LoadBalancer.RunKeeps` | p2p/libp2p/outgoingChannelLoadBalancer.go:53-155 | so does every run |
| `LoadBalancer.SentIsCollected` | p2p/libp2p/outgoingChannelLoadBalancer.go:57-72 | a sent item goes to the channel of its name and is the next one collected from it; no other channel is concerned |
| `LoadBalancer.CollectedIsPrefix` | p2p/libp2p/outgoingChannelLoadBalancer.go:57-72 | in every run, what was collected from a channel that was not removed is a prefix of what was sent on it, with at most one item held |
| `LoadBalancer.ItemsConserved` | p2p/libp2p/outgoingChannelLoadBalancer.go:57-72 | in every run and for every channel, removed or not, no item is lost, repeated, invented or overtaken |
| `LoadBalancer.NilComesIffRemoved` | p2p/libp2p/outgoingChannelLoadBalancer.go:57-72 | a channel can yield a nil item if and only if it was removed |
| `MessagesHandlers.TopicProcessors.AddTopicProcessor` | p2p/libp2p/topicProcessors.go:22-37 | adds exactly one entry, or refuses a known identifier and changes nothing |
| `MessagesHandlers.TopicProcessors.RemoveTopicProcessor` | p2p/libp2p/topicProcessors.go:40-55 | removes exactly one entry, or refuses an unknown identifier and changes nothing |
| `MessagesHandlers.TopicProcessors.GetList` | p2p/libp2p/topicProcessors.go:58-71 | every identifier once, each with its own processor, in some order |
| `MessagesHandlers.MessagesHandler.RegisterMessageProcessor` | p2p/libp2p/messagesHandler.go:301-327 | the registry gains the processor, or the identifier is taken; a validator exists exactly for topics whose entry is a non-empty set, the one its callback captured; only new sets are added |
| `MessagesHandlers.MessagesHandler.OpenTopic` | p2p/libp2p/messagesHandler.go:310-319 | a topic without processors gets a new, still empty set and a validator that captures it |
| `MessagesHandlers.MessagesHandler.Join` | p2p/libp2p/messagesHandler.go:321-326 | a processor joins the set in use, or its identifier is taken; other topics are untouched |
| `MessagesHandlers.MessagesHandler.UnregisterMessageProcessor` | p2p/libp2p/messagesHandler.go:455-477 | the registry loses the processor, and with the last one the topic and its validator, while the entry of the topic stays and is nil; an unknown identifier is an error and an unknown topic is not |
| `MessagesHandlers.MessagesHandler.DropTopic` | p2p/libp2p/messagesHandler.go:469-474 | the emptied topic loses its validator, and its entry becomes nil |
| `MessagesHandlers.MessagesHandler.UnregisterTopic` | p2p/libp2p/messagesHandler.go:484-491 | fails exactly for a nil entry, changing nothing; else entry and validator go |
| `MessagesHandlers.MessagesHandler.UnregisterAllMessageProcessors` | p2p/libp2p/messagesHandler.go:480-493 | succeeds, leaving no entry and no validator, if and only if no entry is nil; otherwise what remains registered is unchanged |
| `MessagesHandlers.CheckTimestamp` | p2p/libp2p/messagesHandler.go:426-441 | accepted exactly from 600 seconds ago to 20 seconds ahead, both ends included |
| `MessagesHandlers.MessagesHandler.ReceiveBroadcast` | p2p/libp2p/messagesHandler.go:329-422 | validated exactly on registered topics; an unreadable message has its originator and its bearer blacklisted; every processor of the topic gets a timely message, and it passes if all accept |
| `MessagesHandlers.MessagesHandler.ProcessReceivedMessage` | p2p/libp2p/messagesHandler.go:539-591 | nothing happens without a message or a source; error for a message out of time or a topic without processors; otherwise every processor of the topic gets it |
| `MessagesHandlers.RunProcessors` | p2p/libp2p/messagesHandler.go:338-357 | every listed processor is called, also after a refusal, and all must accept |
| `MessagesHandlers.ListedPerIdentifier` | p2p/libp2p/topicProcessors.go:58-71 | a processor is listed once for every identifier it serves |
| `MessagesHandlers.SameProcessors` | p2p/libp2p/messagesHandler.go:338-340 | two listings of one set reach the same processors equally often, so broadcast and direct dispatch agree |
| `MessagesHandlers.Perform` | p2p/libp2p/messagesHandler.go:301-477 | any sequence of register and unregister calls leaves the registry the calls amount to, validators and entries agreeing, and an entry for every topic a processor was registered on |
| `MessagesHandlers.RegistryHasHolders` | p2p/libp2p/messagesHandler.go:301-477 | that registry has, for every topic and identifier, who registered while it was free and was not unregistered since, and a topic exactly while somebody serves it |
| `MessagesHandlers.DispatchBothWays` | p2p/libp2p/messagesHandler.go:329-591 | after any sequence of calls, a timely message is taken both as broadcast and as direct or neither way, reaches the same processors equally often, exactly those who hold an identifier of the topic, and gets the same answer |
| `MessagesHandlers.UnregisterAllAfter` | p2p/libp2p/messagesHandler.go:480-493 | after any sequence of calls it succeeds if and only if every topic a processor was ever registered on still has one |
| `MessagesHandlers.UnregisterAllFails` | p2p/libp2p/messagesHandler.go:480-493 | one processor registered and unregistered again, and it fails |
| `PeersRating.PeersRatingHandler.IncreaseRating` | p2p/rating/peersRatingHandler.go:69-75 | disjoint tiers with ratings in their ranges are kept; every rating left is the one after an update of this peer by +2, clamped, or the default if it is new; without eviction all are left |
| `PeersRating.PeersRatingHandler.DecreaseRating` | p2p/rating/peersRatingHandler.go:78-84 | the same for -1 |
| `PeersRating.PeersRatingHandler.GetOldRating` | p2p/rating/peersRatingHandler.go:86-100 | the rating in whichever tier has the peer, or the default and not found |
| `PeersRating.PeersRatingHandler.UpdateRating` | p2p/rating/peersRatingHandler.go:102-120 | as above, for any factor |
| `PeersRating.PeersRatingHandler.UpdateRatingCacher` | p2p/rating/peersRatingHandler.go:122-136 | the new rating is stored in its tier and in no other |
| `PeersRating.PeersRatingHandler.MovePeerToNewTier` | p2p/rating/peersRatingHandler.go:146-154 | the peer leaves one tier and enters the other |
| `PeersRating.PeersRatingHandler.SplitPeersByTiers` | p2p/rating/peersRatingHandler.go:200-223 | the listed peers in the bad tier and all others, each in input order; without eviction unknown peers become known at the default |
| `PeersRating.PeersRatingHandler.GetTopRatedPeersFromList` | p2p/rating/peersRatingHandler.go:157-175 | returns the selection from the listed peers; ratings change only by peers becoming known |
| `PeersRating.FilterPartitions` | p2p/rating/peersRatingHandler.go:200-223 | the two lists are a partition of the input |
| `PeersRating.SelectionOrder` | p2p/rating/peersRatingHandler.go:157-175 | with at least one peer wanted: no bad peer before a top one, all top peers included; everybody when the top peers are too few, and exactly the top peers when they suffice |
| `PeersRating.NothingRequested` | p2p/rating/peersRatingHandler.go:157-163 | without a request for at least one peer nobody is returned |
| `PeersRating.FilterKeepsOrder` | p2p/rating/peersRatingHandler.go:200-223 | both lists keep the order of the input |
| `PeersRating.ClampMeans` | p2p/rating/peersRatingHandler.go:102-120 | a sum from -100 to 100 is kept, and one beyond becomes the end it passed |
| `PeersRating.RatingIsClampedSum` | p2p/rating/peersRatingHandler.go:102-136 | after any run of calls without eviction, a peer's rating is the clamped sum of its updates after it was first seen |
| `DirectSender.DirectSender.NextSequenceNumber` | p2p/libp2p/directSender.go:197-202 | the next 64-bit number as 8 big-endian bytes in a new array |
| `DirectSender.PutUint64` | p2p/libp2p/directSender.go:199-200 | exactly the 8 big-endian bytes of the number |
| `DirectSender.BigEndianNumber` | p2p/libp2p/directSender.go:199-200 | those bytes denote the number again |
| `DirectSender.SequenceNumbersRepeatIff` | p2p/libp2p/directSender.go:197-202 | two sequence numbers of a sender are equal exactly when a multiple of 2^64 lies between them, so fewer than 2^64 are distinct |
| `DirectSender.DirectSender.CheckAndSetSeenMessage` | p2p/libp2p/directSender.go:182-194 | seen exactly if the ID was remembered, and it is remembered from now on |
| `DirectSender.DirectSender.ProcessReceivedDirectMessage` | p2p/libp2p/directSender.go:139-180 | the handler gets the message exactly if a handler is set, the message has a topic, comes from the connected peer, has no key and a sequence number of at most 8 bytes, was not remembered, and has a good signature and payload; the ID is remembered before signature and payload are looked at |
| `DirectSender.FirstError` | p2p/libp2p/directSender.go:139-180 | for each error, the exact condition under which its check is the first that fails |
| `DirectSender.ArrivalMeans` | p2p/libp2p/directSender.go:139-194 | what one arrival adds to the remembered IDs and to the handled messages |
| `DirectSender.ExpiredIsFree` | p2p/libp2p/directSender.go:182-194 | exactly the expired IDs are free again |
| `DirectSender.AtMostOncePerWindow` | p2p/libp2p/directSender.go:139-194 | while an ID does not expire, at most one message with it reaches the handler, and none if it was already remembered |
| `DirectSender.UnseenNotRefused` | p2p/libp2p/directSender.go:182-194 | with 8-byte sequence numbers, a message refused as seen has the sender and sequence number of one examined before |
| `DirectSender.MsgIdInjective` | p2p/libp2p/directSender.go:183 | for sequence numbers of equal length, equal IDs mean equal sender and sequence number |
| `DirectSender.MsgIdsCollideIff` | p2p/libp2p/directSender.go:183 | different messages share an ID if and only if one sender extends the other by what the other's sequence number has in front |
| `PeersHolders.NewPeersHolder` | p2p/peersHolder/peersHolder.go:34-56 | made exactly if every address is valid, with the preferred addresses and no peers |
| `PeersHolders.PeersHolder.PutConnectionAddress` | p2p/peersHolder/peersHolder.go:59-90 | a peer first seen under a preferred address is recorded and waits there; links and places are kept |
| `PeersHolders.PeersHolder.GetKnownConnection` | p2p/peersHolder/peersHolder.go:213-221 | the first preferred address that the connection contains, or nothing |
| `PeersHolders.FirstContained` | p2p/peersHolder/peersHolder.go:213-221 | the answer is the first preferred address the connection contains, and empty otherwise only if it contains none |
| `PeersHolders.PeersHolder.GetPeerInfoForPeerID` | p2p/peersHolder/peersHolder.go:92-100 | the place of the first record of the peer |
| `PeersHolders.PeersHolder.PutShardID` | p2p/peersHolder/peersHolder.go:103-133 | a waiting peer becomes the last of the shard and preferred; links and places are kept |
| `PeersHolders.PeersHolder.HasPeer` | p2p/peersHolder/peersHolder.go:149-155 | true exactly for preferred peers |
| `PeersHolders.PeersHolder.Remove` | p2p/peersHolder/peersHolder.go:158-229 | panics exactly when the stored place is beyond the shard's peers; links are kept; while places are right it does not panic, and they stay right exactly when it took the last peer |
| `PeersHolders.PeersHolder.Clear` | p2p/peersHolder/peersHolder.go:242-250 | each of the four maps is empty, the preferred addresses remain |
| `PeersHolders.PutConnectionAddressMeans` | p2p/peersHolder/peersHolder.go:59-90 | under a preferred address without a record of it the peer is recorded last, with no shard yet, and waits for that address; otherwise nothing changes |
| `PeersHolders.PutShardIDMeans` | p2p/peersHolder/peersHolder.go:103-133 | a waiting peer comes last in the shard and is preferred under the address it waited for, its record has the shard; other peers' records, and peers that do not wait, are untouched |
| `PeersHolders.RemoveMeans` | p2p/peersHolder/peersHolder.go:158-229 | a preferred peer leaves its shard by its place there, the preferred and waiting peers, and the records of its address; other shards and addresses are untouched |
| `PeersHolders.PutConnectionAddressKeeps` | p2p/peersHolder/peersHolder.go:59-90 | no peer twice under one address, every waiting and every preferred peer recorded under its address; the preferred peers do not change |
| `PeersHolders.PutShardIDKeeps` | p2p/peersHolder/peersHolder.go:103-133 | the same links, the places, and: the peer is preferred afterwards exactly if it was or had been waiting |
| `PeersHolders.RemoveKeepsLinked` | p2p/peersHolder/peersHolder.go:158-208 | the same links; the peer is preferred no longer; a peer that only waits keeps waiting |
| `PeersHolders.RemoveKeepsLocatedIff` | p2p/peersHolder/peersHolder.go:224-229 | where stored places are right, they stay right if and only if no live peer of the shard has a later place |
| `PeersHolders.ReturnsIff` | p2p/peersHolder/peersHolder.go:59-180 | a removed peer that is seen again and given a shard is preferred again if and only if it comes under its former address or under a preferred address without a record of it |
| `PeersHolders.NewHolderRuns` | p2p/peersHolder/peersHolder.go:59-250 | in every run the maps stay linked; in runs whose removals take the last peer of its shard, places are right and no removal panics |
| `PeersHolders.RemovalInOrderPanics` | p2p/peersHolder/peersHolder.go:224-229 | any two peers of one shard behind one preferred address, removed in order of arrival: the second removal panics |

## Left out

- The generated `String`, `GoString`, `Descriptor` and getter code, `MarshalTo`, and `PeerShard`, whose codec has the shape of the other two with one field.
- Nil receivers of the generated methods other than `Equal`, and the reuse of a slice's backing array when bytes are decoded onto it: the decoded bytes are values here.
- `Decode`: an input longer than `int` can count is not modelled, because no Go slice is that long.
- `PutUint64`: the library function writes its eight bytes without a loop; here a loop writes them, and only the bytes matter.
- `Sort`: which order the library's sort gives to peers at equal distance is left open; the verdicts allow every order.
- `CanConnectToPeer`: the connection that follows a positive answer is not part of this model; it and `Connected` call the sharder with six lists, and for the one-list sharder the agreement is stated on verdicts.
- `Connected`: the connection watcher is not part of it, and closing one connection of a peer counts as closing the peer.
- The monitor's `Disconnected`, its reconnection loop and thresholds; it hands the preferred peers holder the ID of the connection rather than that of the peer.
- Distances other than the bit count in the verdicts: the log2 distance is proved on its own, because the sharders do not use it.
- The hash of a peer ID, its printed form, its shard and type, and whether it is preferred are arbitrary functions; the hash is assumed to have 32 bytes.
- The acknowledgement writer's retry loop and all timers: an acknowledgement is written at any time after it is owed, any number of times or never, and a waiting `Send` may give up at any time.
- Marshallers other than protobuf for websocket messages, and more than one connection: each new server connection starts a new transceiver.
- A `Send` whose construction or write fails keeps its channel pending for ever; the model has this, and no property forbids it.
- `CollectOneElementFromChannels`: cancellation of the context, which ends forwarders and collectors, is not modelled; nor is a sender that is still blocked on a channel when it is removed.
- `RegisterMessageProcessor`: pubsub accepts a validator for every topic without one; other refusals, which would leave an entry without a validator, are not modelled.
- `ProcessReceivedMessage`: the goroutine that calls the processors runs to its end here, and debug counters and ratings are left out.
- `ReceiveBroadcast`: how long a peer stays blacklisted is left out.
- Topics, broadcasting, message signing and the pubsub message checks in front of the processors.
- `Put` and `Remove` of the rating caches and the expiry of the seen cache: a cache may lose any entries when it takes a new one, or none; IDs leave the seen cache at any time.
- `ProcessReceivedDirectMessage`: signature check and payload parsing are flags of the message; streams and connections are left out.
- The preferred peers holder's `Get`, whose slices are shared with later updates; which addresses are valid is an arbitrary predicate.
- Interleavings inside a method: methods run to their end, as they do under their mutex. Two paths hold no such mutex: `processReceivedDirectMessage` takes a read lock only for the handler, and the pubsub callback does not take `mutTopics`. So a callback that starts between the removal of the last processor of a topic and the removal of its validator, and then accepts with an empty list, is not among the runs.
- Logging, configuration, metrics and nil checks of constructor arguments.
