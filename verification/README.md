# Verified model of a passive industrial-protocol inspection engine

This project models the stateful and parsing core of marlinspike-dpi, a Rust library that inspects
captured packets of industrial networks. It is written in Dafny 4.11; `dafny verify dfyconfig.toml`
checks all of it.

What is modelled, and the main results about it:

- **Flow table** (`Recency`, `FlowTable`, `FlowAnswers`, `Session`, `L4`). A session keeps a bounded table of
  flows with the tick of their last packet and evicts the flow with the smallest tick. Over every run
  the table is exactly the most recently fed flows, whichever victim a tie in the hash map would have
  chosen (there are no ties). While a flow stays in the table its answers are those of a session that
  sees no other flow, and they have one shape: undecided, then one verdict for ever. The packet
  extraction that feeds it is proved in both directions for IPv4 and for IPv6 extension chains.
- **Dissector registry** (`Registry`). The port index refines a linear scan in registration order.
- **OPC UA** (`OpcUaReader` to `OpcUaDecoder`). Every decoder, from the cursor up to whole read
  requests and responses with diagnostic information nested to any depth, is proved both ways: it
  recovers each value from its encoding followed by any bytes, and whatever it accepts is such an
  encoding. On top of that, request and response are correlated over whole runs of raw message bodies
  with LRU and TTL eviction.
- **PCCC** (`PcccWire`, `Pccc`). The same for the unbounded pending table of PCCC reads, here as an
  exact characterisation of every output of every run.
- **Deduplication** (`Dedup`). Exactly when a record is dropped, for records in any time order.
- **Sparkplug sessions** (`SparkplugSession`, `SparkplugStore`, `StoreResidency`). Aliases, birth sequence
  and gap signal of every resident session over every run of the store, isolation of sessions, and
  exactly which sessions are resident under LRU and TTL eviction.
- **DNS and SNMP** (`DnsName`, `DnsRfc`, `DnsMessage`, `DnsAccepted`, `Ber`, `Snmp`). Name decompression
  against an inductive relation and against RFC 1035, bounds whatever the header counts claim, and whole
  messages both ways.
- **Line protocol** (`InfluxText`, `InfluxLine`, `InfluxMany`). A reader that undoes the renderer, and
  exactly which readings survive.
- **Sliding windows** (`SlidingWindow`) and **frame splitters** (`Ethercat`, `Framing`, `Iec104`, `HartIp`).

## How to read it

Code that updates state in place is a class or a method with a loop; each is proved equal to a
specification function or relation, and the theorems are about those. Encodings are datatypes named
`Wire...` with `Encode` (the bytes) and `Meaning` (what the decoder should return), so that lemmas
called `...Forward` say that decoding inverts encoding and lemmas called `...Backward` say that
nothing else is accepted. `At(s, p, e)` says that the bytes `e` stand in `s` at offset `p`, with
anything before and after. Runs are sequences of events with the tables between them; where a hash map
may break a tie either way, the step is a relation and the theorems hold for every choice. The classes
carry the run of their calls as a ghost field, so the theorems about runs are theorems about them.

Ticks and timestamps are naturals, floats are raw bits, text is its bytes, and integer widths,
saturation, wrap-around and truncation are written out where the code has them.

## Where code and documentation disagree

The model follows the code in each case.

- IPv4: the comment at src/engine/streaming.rs:264 says that packets with the MF bit are skipped, but
  only the offset is checked, so first fragments are parsed (`FirstFragmentAccepted`); an accepted packet
  is unfragmented exactly when that bit is clear (`UnfragmentedIff`).
- Registry: four dissectors of the default registry accept packets on ports that they are not registered
  for. DNS accepts 5353 (src/dissectors/dns.rs:71) and is registered for 53; OPC UA accepts 12001
  (src/dissectors/opc_ua.rs:8) and is registered for 4840; MQTT accepts 8883 (src/dissectors/mqtt.rs:194)
  and is registered for 1883; BACnet accepts any port when the first byte is 0x01
  (src/dissectors/bacnet.rs:23) and is registered for 47808. Such packets that nothing else accepts are not
  classified (`MulticastDnsLost`, `OpcUaAltPortLost`, `MqttTlsPortLost`, `BacnetElsewhereLost`); an accepted
  packet is lost in no other way (`LostIff`).
- Sparkplug: the gap flag is said to be reset by any new BIRTH (src/sparkplug/state.rs:63) but only a
  superseding one resets it (`OlderBirthKeepsGap`, `GapFiresOncePerEpoch`); a BIRTH is said to need a
  strictly newer bdSeq (src/sparkplug/state.rs:59) but an equal one supersedes too (`SupersedesIff`). A
  BIRTH without bdSeq forgets the old value, so the stored bdSeq can decrease (`BdSeqMayDecrease`); it
  cannot otherwise (`BdSeqNeverDecreases`).
- Sparkplug store: eviction goes by the times of the fetches and not by their order. Where the two
  disagree, a session fetched more recently goes first (`EarlierTimeGoesFirst`), and which of two sessions
  fetched at one time goes first is left to the hash map (`TiesAreLuck`). Which sessions surely stay and
  surely go is stated for every run (`SurelyKept`, `SurelyGone`). The two meet wherever the last fetch of a
  session is in order with those of other sessions (`ResidentInOrder`), hence in every run in which the
  fetches of different sessions come at rising times (`ResidentIff`).
- Sparkplug sweep: the documented rule differs from the code for a TTL of zero (`ZeroTtlDropsFuture`, `SweepRule`).
- Deduplication: the fields are hashed without separators, so different endpoints can collide
  (`DifferentEndpointsDropped`). Records that hash the same bytes mean the same if and only if their
  address lengths agree; with different lengths they are collisions (`SameFieldsIff`). A bucket longer
  than the window lets a record through twice (`LongerBucketPassesTwice`).
- DNS: the parser accepts three kinds of names that RFC 1035 does not have: length bytes 0x40 to 0xBF,
  reserved by section 4.1.4 (`ReservedLengthAccepted`), pointers that do not lead to a prior place, against
  the same section (`ForwardPointerAccepted`), and names of more than 255 octets, against section 2.3.4
  (`LongNameAccepted`, `FiveLongLabels`). It agrees with the RFC exactly where the walk meets none of these
  (`RfcNameIff`). It rejects the names of the RFC that take more than 128 steps or have a label that is
  not UTF-8, and no others (`RejectedIff`, `LongChainRejected`, `BinaryLabelRejected`).
- SNMP: under root arc 2 a second arc of 40 or more is misread (`FirstArcsIff`, `ReadsAnotherRoot`). The
  tags of version, community and request id are not looked at (`MessageForward`).
- Sliding windows: the items kept are those of the window after every call exactly when times never go
  back (`ExactIff`); a count alone can still be right by accident (`CountsAgreeByAccident`).
- EtherCAT: a payload without a frame header is cut short when its first two bytes look like one
  (`HeaderlessIff`).
- PCCC: the header comment calls 0x67 the read and 0x68 the write, the code has them the other way
  round, and the model follows the code (`ReadAsk`).
- IEC 104: the last branch of the frame parser is unreachable (`FrameAlwaysParsed`).
- Line protocol: the sentinel field for readings without fields is never written, because every
  quality contributes a field (`PushFields`). A measurement or tag string that ends in a backslash
  swallows the separator after it (`LineRoundTrip`), and newlines are not escaped (`BatchSplitsIff`).

## Model

| member | source | states |
|---|---|---|
| `FlowTable.TableTracks` | src/engine/streaming.rs:153-234 | after every prefix of every run the table's keys are the most recently fed distinct flows, as many as fit, and each flow's stamp is the position of its last packet |
| `FlowTable.ResidentIff` | src/engine/streaming.rs:211-234 | a flow is in the table if and only if fewer than max(1, max_flows) distinct flows were fed since its last packet; one that was never fed is not |
| `FlowTable.OldestFedFirst` | src/engine/streaming.rs:224-234 | the flow with the smallest tick is unique and no resident flow was last fed before it, so the eviction choice is determined |
| `FlowTable.RunsAreDetermined` | src/engine/streaming.rs:153-234 | two runs over the same packets have the same tables, although eviction is modelled as a free choice among minima |
| `FlowTable.RecentReplaced` | src/engine/streaming.rs:224-234 | dropping the flow fed longest ago and admitting a new one keeps the set of most recent flows |
| `FlowTable.KeysNext` | src/engine/streaming.rs:211-234 | making room and storing, in all three cases (known flow, free slot, full table), keeps the set of most recent flows |
| `FlowAnswers.OwnPacketsOnly` | src/engine/streaming.rs:153-222 | while a flow stays resident, its state and all its answers are a function of its own packets since its admission |
| `FlowAnswers.NonInterference` | src/engine/streaming.rs:153-222 | the answers of a resident flow equal those of a fresh session fed only that flow's packets since its admission |
| `FlowAnswers.AnswersSettle` | src/engine/streaming.rs:153-208 | for any sequence of packets of one flow the answers are at most max(1, max_classify_attempts) times undecided and then one constant classification, or unknown, for ever |
| `FlowAnswers.AnswersAre` | src/engine/streaming.rs:153-208 | the answer to each packet of a flow in closed form: the protocol of the first match among the first max(1, max_classify_attempts) packets, unknown once those are used up without one, undecided before |
| `FlowAnswers.ResidentAnswersAre` | src/engine/streaming.rs:153-222 | in every run every answer to a resident flow is that closed form of its own packets since admission |
| `FlowAnswers.ResidentAnswersSettle` | src/engine/streaming.rs:153-222 | the same shape for every flow of every run, as long as it stays resident |
| `FlowAnswers.AdmissionExists` | src/engine/streaming.rs:211-222 | every resident flow has a last admission, so the two theorems above apply to every resident flow |
| `Session.DpiSession.constructor` | src/engine/streaming.rs:127-138 | a new session, with the empty run |
| `Session.DpiSession.FlowCount` | src/engine/streaming.rs:141-143 | as many as distinct flows were ever fed, up to max(1, max_flows) |
| `Session.DpiSession.TouchFlow` | src/engine/streaming.rs:211-222 | returns the flow's state or a default one and stores it stamped with the current tick, after evicting the oldest flow exactly when a new flow meets a full table |
| `Session.DpiSession.Inspected` | src/engine/streaming.rs:168-193 | the verdict on a packet is that of extraction followed by the registry's linear scan |
| `Session.DpiSession.FeedPacket` | src/engine/streaming.rs:153-208 | the calls on a session are a run: one packet adds exactly one step, with the verdict of extraction and classification, the new table and the answer, so that every theorem about runs is one about sessions |
| `L4.ExtractL4Payload` | src/engine/streaming.rs:245-254 | the imperative extraction equals the specification for every byte string |
| `L4.ExtractV6` | src/engine/streaming.rs:273-311 | the header walk with its two mutable variables equals the recursive walk of at most eight steps |
| `L4.TransportForward` | src/engine/streaming.rs:313-339 | a TCP segment with any header size or a UDP datagram gives back its ports and payload |
| `L4.TransportBackward` | src/engine/streaming.rs:313-339 | whatever is accepted is such a segment, byte for byte |
| `L4.V4Forward` | src/engine/streaming.rs:256-271 | an IPv4 packet with any header length, zero fragment offset and any flags gives back ports and payload |
| `L4.V4Backward` | src/engine/streaming.rs:256-271 | every accepted IPv4 packet has that form |
| `L4.UnfragmentedIff` | src/engine/streaming.rs:256-271 | an accepted IPv4 packet is unfragmented if and only if bit 0x20 of byte 6 is clear |
| `L4.FirstFragmentAccepted` | src/engine/streaming.rs:256-271 | every first fragment with a whole transport header is accepted as a datagram |
| `L4.V6Forward` | src/engine/streaming.rs:273-311 | at most seven Hop-by-Hop, Routing or Destination headers of any lengths before TCP or UDP are walked to exactly the ports and payload |
| `L4.V6TooDeep` | src/engine/streaming.rs:273-311 | eight or more such headers give nothing, whatever follows |
| `L4.V6Backward` | src/engine/streaming.rs:273-311 | every accepted IPv6 packet is a header, at most seven such extension headers and a transport segment |
| `L4.PayloadIsSuffix` | src/engine/streaming.rs:245-339 | the payload is always a suffix of the packet |
| `Registry.FirstOf` | src/registry.rs:434-479 | the first element that passes: none exactly when no element passes |
| `Registry.ScanSkipsRepeatedPort` | src/registry.rs:485-491 | probing the port once when source and destination agree finds the same dissector as probing it twice |
| `Registry.ClassifiedIff` | src/registry.rs:462-479 | classification succeeds if and only if some registered dissector accepts and is free or indexed under one of the two ports |
| `Registry.CompleteForPortBound` | src/registry.rs:462-479 | if accepting dissectors are always reachable through their ports, classification succeeds exactly when any registered dissector accepts |
| `Registry.LostIff` | src/registry.rs:462-479 | a packet that some dissector accepts is not classified if and only if all dissectors that accept it are indexed, under neither of its ports |
| `Registry.MulticastDnsLost` | src/registry.rs:358-359 | with DNS registered for port 53 only, every packet on port 5353 that DNS alone accepts is not classified |
| `Registry.OpcUaAltPortLost` | src/registry.rs:344-345 | with OPC UA registered for port 4840 only, every packet on port 12001 that OPC UA alone accepts is not classified |
| `Registry.MqttTlsPortLost` | src/registry.rs:370-371 | with MQTT registered for port 1883 only, every packet on port 8883 that MQTT alone accepts is not classified |
| `Registry.BacnetElsewhereLost` | src/registry.rs:354-355 | with BACnet registered for port 47808 only, every packet on other ports that BACnet alone accepts is not classified |
| `Registry.DispatchAfterClassify` | src/registry.rs:434-479 | a dispatch that succeeds implies that classification succeeds, at the same candidate or an earlier one |
| `Registry.SlotSearch` | src/registry.rs:424-430 | searching the index slot of a port finds what a search of the registrations listing that port in registration order finds, however often a registration lists it |
| `Registry.PushPorts` | src/registry.rs:424-430 | after the loop each port's slot holds its old content followed by one entry per mention of the port |
| `Registry.DissectorRegistry.constructor` | src/registry.rs:325-331 | no registrations |
| `Registry.DissectorRegistry.Register` | src/registry.rs:413-415 | appends a free registration and keeps the index invariant |
| `Registry.DissectorRegistry.RegisterWithPorts` | src/registry.rs:424-430 | appends an indexed registration and keeps the index invariant |
| `Registry.DissectorRegistry.Probe` | src/registry.rs:434-479 | the loop over one port's slot finds the first passing dissector among the registrations listing the port |
| `Registry.DissectorRegistry.ProbeFree` | src/registry.rs:434-479 | the loop over the free list finds its first passing dissector |
| `Registry.DissectorRegistry.Search` | src/registry.rs:434-491 | index search equals the linear scan: destination port, source port, free list, each in registration order |
| `Registry.DissectorRegistry.ClassifyName` | src/registry.rs:462-479 | the name of the first accepting dissector of the linear scan |
| `Registry.DissectorRegistry.Dispatch` | src/registry.rs:434-456 | the parse of the first dissector of the linear scan that accepts and parses |
| `OpcUaReader.UintForward` | src/opc_ua/reader.rs:58-104 | a little-endian integer is read back from its bytes, at any offset |
| `OpcUaReader.IntForward` | src/opc_ua/reader.rs:54-84 | likewise for two's complement |
| `OpcUaReader.ByteStringForward` | src/opc_ua/reader.rs:115-134 | length-prefixed bytes and text, with every negative length standing for null, are read back and the cursor lands behind them |
| `OpcUaReader.ByteStringBackward` | src/opc_ua/reader.rs:115-134 | whatever is accepted is such an encoding |
| `OpcUaReader.CountForward` | src/opc_ua/reader.rs:135-142 | array lengths, with every negative length standing for a null array |
| `OpcUaReader.ManyForward` | src/opc_ua/reader.rs:95-142 | consecutive encodings are read back as a list, each from where the previous one ended |
| `OpcUaReader.Reader.constructor` | src/opc_ua/reader.rs:21-23 | a cursor at the start |
| `OpcUaReader.Reader.ReadU8` | src/opc_ua/reader.rs:41-48 | the cursor agrees with decoding at its position: on success value and new position, never past the end |
| `OpcUaReader.Reader.ReadBytes` | src/opc_ua/reader.rs:105-113 | likewise for a slice |
| `OpcUaReader.Reader.ReadUint` | src/opc_ua/reader.rs:58-94 | likewise for unsigned integers and float bits |
| `OpcUaReader.Reader.ReadInt` | src/opc_ua/reader.rs:54-84 | likewise for signed integers |
| `OpcUaReader.Reader.ReadByteString` | src/opc_ua/reader.rs:115-123 | likewise for byte strings |
| `OpcUaReader.Reader.ReadString` | src/opc_ua/reader.rs:125-133 | likewise for text, with invalid UTF-8 an error |
| `OpcUaReader.Reader.ReadArrayLength` | src/opc_ua/reader.rs:135-142 | likewise for array lengths |
| `OpcUaNodeId.NodeIdForward` | src/opc_ua/node_id.rs:27-33 | each of the six encodings is read back, whatever the two flag bits |
| `OpcUaNodeId.NodeIdBackward` | src/opc_ua/node_id.rs:27-112 | whatever is accepted is the encoding of a node id, and ends where it says |
| `OpcUaNodeId.NodeBodyForward` | src/opc_ua/node_id.rs:48-112 | the body of each encoding is read back |
| `OpcUaNodeId.NodeBodyBackward` | src/opc_ua/node_id.rs:48-112 | whatever body is accepted is one of the six |
| `OpcUaNodeId.ExpandedForward` | src/opc_ua/node_id.rs:35-46 | namespace URI and server index are skipped exactly when their flags are set |
| `OpcUaNodeId.ExpandedBackward` | src/opc_ua/node_id.rs:35-46 | whatever is accepted is an expanded node id with exactly the tails its flags announce |
| `OpcUaNodeId.DecodeNodeId` | src/opc_ua/node_id.rs:48-112 | the cursor code equals decoding at its position |
| `OpcUaNodeId.ReadNodeId` | src/opc_ua/node_id.rs:27-33 | the cursor code equals decoding at its position |
| `OpcUaNodeId.ReadExpandedNodeId` | src/opc_ua/node_id.rs:35-46 | the cursor code equals decoding at its position |
| `OpcUaVariant.UnixMicros` | src/opc_ua/datetime.rs:11-21 | the result is u exactly when the tick count lies in the ten ticks of microsecond u after 1970; earlier times give nothing |
| `OpcUaVariant.ScalarForward` | src/opc_ua/variant.rs:57-95 | a scalar of every supported type, and the empty unsupported ones, is read back |
| `OpcUaVariant.ScalarBackward` | src/opc_ua/variant.rs:57-95 | whatever scalar is accepted is such an encoding |
| `OpcUaVariant.ArrayForward` | src/opc_ua/variant.rs:97-106 | an array is consumed to its exact end |
| `OpcUaVariant.ArrayBackward` | src/opc_ua/variant.rs:97-106 | whatever is consumed is an array of scalars of the type |
| `OpcUaVariant.VariantForward` | src/opc_ua/variant.rs:39-55 | scalars keep their value; arrays, with dimensions or without, are consumed exactly and mean null |
| `OpcUaVariant.VariantBackward` | src/opc_ua/variant.rs:39-106 | whatever is accepted is a variant encoding |
| `OpcUaVariant.ReadScalar` | src/opc_ua/variant.rs:57-95 | the cursor code equals decoding at its position |
| `OpcUaVariant.ConsumeArray` | src/opc_ua/variant.rs:97-106 | the loop equals consuming that many scalars one after the other |
| `OpcUaVariant.ReadVariant` | src/opc_ua/variant.rs:39-55 | the cursor code equals decoding at its position |
| `OpcUaDataValue.DataValueForward` | src/opc_ua/data_value.rs:28-71 | for every mask, exactly the fields it announces are read back, with absent ones defaulted |
| `OpcUaDataValue.DataValueBackward` | src/opc_ua/data_value.rs:28-71 | whatever is accepted is a mask and exactly the fields it announces |
| `OpcUaDataValue.ReadDataValue` | src/opc_ua/data_value.rs:28-71 | the cursor code equals decoding at its position |
| `OpcUaServices.DiagForward` | src/opc_ua/services.rs:54-80 | diagnostic information nested to any depth is skipped to its exact end |
| `OpcUaServices.DiagBackward` | src/opc_ua/services.rs:54-80 | whatever is skipped is such a nesting |
| `OpcUaServices.SkipDiagnosticInfo` | src/opc_ua/services.rs:54-80 | the recursion terminates on the remaining bytes and equals decoding at the cursor |
| `OpcUaServices.ExtensionForward` | src/opc_ua/services.rs:106-120 | an extension object with or without a body is skipped to its exact end |
| `OpcUaServices.ExtensionBackward` | src/opc_ua/services.rs:106-120 | whatever is skipped is an extension object |
| `OpcUaServices.SkipExtensionObject` | src/opc_ua/services.rs:106-120 | the cursor code equals decoding at its position |
| `OpcUaServices.StringArrayForward` | src/opc_ua/services.rs:82-92 | an array of strings is skipped to its exact end |
| `OpcUaServices.StringArrayBackward` | src/opc_ua/services.rs:82-92 | whatever is skipped is an array of strings |
| `OpcUaServices.SkipStringArray` | src/opc_ua/services.rs:82-92 | the loop equals skipping that many strings |
| `OpcUaServices.RequestHeaderForward` | src/opc_ua/services.rs:31-41 | the request handle is recovered and the header skipped exactly |
| `OpcUaServices.RequestHeaderBackward` | src/opc_ua/services.rs:31-41 | whatever is accepted is a request header |
| `OpcUaServices.SkipRequestHeader` | src/opc_ua/services.rs:31-41 | the cursor code equals decoding at its position |
| `OpcUaServices.ResponseHeaderForward` | src/opc_ua/services.rs:43-52 | handle and service result are recovered and the header, with its nested diagnostics, skipped exactly |
| `OpcUaServices.ResponseHeaderBackward` | src/opc_ua/services.rs:43-52 | whatever is accepted is a response header |
| `OpcUaServices.SkipResponseHeader` | src/opc_ua/services.rs:43-52 | the cursor code equals decoding at its position |
| `OpcUaServices.ReadServiceTypeId` | src/opc_ua/services.rs:20-26 | the cursor code equals decoding at its position: the number of a numeric id in namespace zero, an error for any other id |
| `OpcUaServices.RequestBodyForward` | src/opc_ua/services.rs:122-150 | the node list of a whole read request is recovered in order, with the cursor at its end |
| `OpcUaServices.RequestBodyBackward` | src/opc_ua/services.rs:122-150 | whatever is accepted is a whole read request |
| `OpcUaServices.ReadNodes` | src/opc_ua/services.rs:122-150 | the loop over the items equals decoding that many items |
| `OpcUaServices.ParseReadRequestBody` | src/opc_ua/services.rs:122-150 | the cursor code equals decoding at its position |
| `OpcUaServices.ResponseBodyForward` | src/opc_ua/services.rs:152-174 | handle, result and all values of a whole read response are recovered in order |
| `OpcUaServices.ResponseBodyBackward` | src/opc_ua/services.rs:152-174 | whatever is accepted is a whole read response |
| `OpcUaServices.ParseReadResponseBody` | src/opc_ua/services.rs:152-174 | the loop and the cursor code equal decoding at the position |
| `Eviction.StaysBounded` | src/opc_ua/state.rs:70-81 | evicting when a new key meets a full table and then inserting never exceeds max(1, cap) |
| `Eviction.Sweep` | src/opc_ua/state.rs:96-102 | an entry survives exactly when the TTL is positive and now is before its stamp plus the TTL; survivors are unchanged |
| `Eviction.EvictOldest` | src/opc_ua/state.rs:104-114 | exactly one entry goes, one whose stamp is minimal, the choice among ties left free |
| `OpcUaPending.PendingReads.constructor` | src/opc_ua/state.rs:63-68 | an empty table |
| `OpcUaPending.PendingReads.Insert` | src/opc_ua/state.rs:70-81 | the entry is stored after one oldest entry is evicted exactly when a new key meets a full table |
| `OpcUaPending.PendingReads.Take` | src/opc_ua/state.rs:83-85 | the entry is returned and removed, all others kept |
| `OpcUaPending.PendingReads.EvictExpired` | src/opc_ua/state.rs:96-102 | the sweep, and how many entries it removed |
| `OpcUaCorrelation.Provenance` | src/opc_ua/decoder.rs:52-123 | over every run, each pending entry is exactly what the latest unanswered request on its key put there |
| `OpcUaCorrelation.ResponseReadings` | src/opc_ua/decoder.rs:80-120 | over every run, a response yields one reading per value in order; points are those of the request it answers if still pending, positional placeholders otherwise |
| `OpcUaCorrelation.AnsweredOnce` | src/opc_ua/decoder.rs:84-90 | a node list serves at most one response |
| `OpcUaCorrelation.TableBounded` | src/opc_ua/decoder.rs:66-79 | over every run the table stays within max(1, max_pending) |
| `OpcUaCorrelation.Answered` | src/opc_ua/decoder.rs:80-120 | a request and the next message on its key, a response: the readings carry the request's nodes if its entry is still there and placeholders otherwise, in every run |
| `OpcUaCorrelation.NeverEvictedIff` | src/opc_ua/decoder.rs:52-123 | without a message on its key, an entry is there when the response comes if and only if it was never evicted in between |
| `OpcUaCorrelation.RoomForAll` | src/opc_ua/decoder.rs:66-79 | with no sweep and no more other keys than fit, no request is ever pushed out, whatever the times and whatever has been answered |
| `OpcUaCorrelation.Survives` | src/opc_ua/decoder.rs:52-123 | a request with no message on its key and no expiring sweep after it is still pending while fewer keys than fit can be pending with a stamp not older than its own: those asked for later, and those of earlier unanswered requests that are not older |
| `OpcUaCorrelation.Correlates` | src/opc_ua/decoder.rs:52-123 | such a request and the next response on its key give exactly the paired readings |
| `OpcUaDecoder.MessageForward` | src/opc_ua/decoder.rs:62-83 | an encoded read request or response followed by any bytes is recognised and decoded |
| `OpcUaDecoder.MessageBackward` | src/opc_ua/decoder.rs:62-83 | only bodies that start with such an encoding are acted upon |
| `OpcUaDecoder.CorrelatesFromBytes` | src/opc_ua/decoder.rs:52-123 | from raw bytes over whole runs, with nothing on the key between: request of n nodes, response of m values, exactly m readings in order, with value, status and source time of value i; if the entry was never evicted reading i carries node i for i < n and the placeholder (0, i) otherwise, and if it was, placeholders only |
| `OpcUaDecoder.KeptFromBytes` | src/opc_ua/decoder.rs:52-123 | the entry of an encoded request is never evicted before an event that protects it |
| `OpcUaDecoder.OpcUaServiceDecoder.constructor` | src/opc_ua/decoder.rs:30-34 | an empty pending table, with the empty run |
| `OpcUaDecoder.OpcUaServiceDecoder.HandleMsgBody` | src/opc_ua/decoder.rs:52-123 | the calls on a decoder are a run: one body adds exactly the event it encodes, and its readings; malformed and other bodies change nothing |
| `OpcUaDecoder.OpcUaServiceDecoder.EvictExpired` | src/opc_ua/decoder.rs:40-42 | one sweep adds exactly one event to the run; returns how many entries it removed |
| `Dedup.DedupEngine.constructor` | src/dedup.rs:26-32 | nothing seen, no calls |
| `Dedup.DedupEngine.IsDuplicate` | src/dedup.rs:35-61 | the answer is the one that the history of all calls on the engine determines, eviction included |
| `Dedup.DuplicateIff` | src/dedup.rs:35-61 | for records in any time order, a record is dropped if and only if an earlier record with the same preimage was passed and no call since then, this one included, came later than that record's time plus the window |
| `Dedup.DroppedIffRepeated` | src/dedup.rs:35-77 | in time order and with a bucket of at most the window plus one, a record is dropped exactly when its preimage occurred before |
| `Dedup.PassedOncePerPreimage` | src/dedup.rs:35-90 | then the number of records passed equals the number of distinct preimages, at every point of the run |
| `Dedup.LongerBucketPassesTwice` | src/dedup.rs:58-77 | for every longer bucket there is a run of two equal records that both pass |
| `Dedup.SameBucket` | src/dedup.rs:72-76 | records with equal preimages are less than a bucket apart |
| `Dedup.SameFieldsIff` | src/dedup.rs:63-90 | equal preimages and equal address lengths together mean equal bucket, endpoints, ports and protocol, and conversely |
| `Dedup.DifferentEndpointsDropped` | src/dedup.rs:78-84 | for any configuration, time, ports and protocol there are two records with different source and destination of which the second is dropped |
| `DnsName.ParseDnsName` | src/dissectors/dns.rs:175-228 | the loop with its jump flag and hop count equals the specification on every input |
| `DnsName.NameIff` | src/dissectors/dns.rs:175-228 | the result is (labels, next) if and only if the inductive name relation derives the labels in at most 128 label or pointer steps, all are UTF-8, and next is where the first terminator or pointer ends |
| `DnsName.DerivesUnique` | src/dissectors/dns.rs:175-228 | a name is spelled in one way only: the relation is a function of the bytes |
| `DnsName.NameWithin` | src/dissectors/dns.rs:175-228 | the returned offset is past the start and within the message |
| `DnsName.EndIsLocal` | src/dissectors/dns.rs:181-208 | the returned offset depends only on the bytes up to the first terminator or pointer |
| `DnsName.LoopRejected` | src/dissectors/dns.rs:181-208 | a name whose walk comes back to an offset it has visited is rejected |
| `DnsName.WrittenName` | src/dissectors/dns.rs:175-228 | up to 128 UTF-8 labels written in full are read back |
| `DnsName.CompressedName` | src/dissectors/dns.rs:195-208 | labels followed by a pointer to any name that can be spelled give the joined labels, and the offset behind the pointer |
| `DnsRfc.RfcIff` | src/dissectors/dns.rs:181-218 | a derivable name is derivable under section 4.1.4 of RFC 1035 if and only if its walk stands on no reserved length byte and on no pointer that leads to its own place or beyond |
| `DnsRfc.WalkMeasures` | src/dissectors/dns.rs:181-218 | the octets met on the walk are those of the name written in full |
| `DnsRfc.ConformingIff` | src/dissectors/dns.rs:181-218 | a name derivable in at most 128 steps is one of RFC 1035, at most 255 octets included, if and only if the walk is conforming |
| `DnsRfc.RfcNameIff` | src/dissectors/dns.rs:175-228 | the parser returns these labels and this end on a conforming walk if and only if they are a UTF-8 name of RFC 1035 in at most 128 steps that ends there |
| `DnsRfc.RejectedIff` | src/dissectors/dns.rs:175-228 | a name of RFC 1035 is rejected if and only if it takes more than 128 steps or has a label that is not UTF-8 |
| `DnsRfc.ReservedLengthAccepted` | src/dissectors/dns.rs:210-218 | every label of 64 to 191 bytes is accepted and is none of the RFC |
| `DnsRfc.ForwardPointerAccepted` | src/dissectors/dns.rs:195-208 | a pointer to a name behind it is followed, against the RFC |
| `DnsRfc.LongNameAccepted` | src/dissectors/dns.rs:175-228 | every name of at most 128 labels and more than 255 octets is accepted, against the RFC |
| `DnsRfc.FiveLongLabels` | src/dissectors/dns.rs:175-228 | for example five labels of 63 bytes |
| `DnsRfc.LongChainRejected` | src/dissectors/dns.rs:181-208 | a name of the RFC behind 129 pointers is rejected |
| `DnsRfc.BinaryLabelRejected` | src/dissectors/dns.rs:210-218 | a name of the RFC with a byte 0xFF in a label is rejected |
| `DnsAccepted.NameBackward` | src/dissectors/dns.rs:175-228 | every name that is read is labels in place, then a terminator or a pointer to a name spelled in the message |
| `DnsAccepted.QueryBackward` | src/dissectors/dns.rs:94-111 | every question that is read is such a name, a type and a class |
| `DnsAccepted.ResourceBackward` | src/dissectors/dns.rs:115-139 | every record that is read is such a name, type, class, TTL and length, and that many bytes of data at the place reported |
| `DnsAccepted.ResourcesBackward` | src/dissectors/dns.rs:113-161 | the records read stand one behind the other, up to the count or to the first bytes that no record can be read from |
| `DnsAccepted.MessageBackward` | src/dissectors/dns.rs:75-171 | an accepted message is a header, exactly the questions it counts, and records up to its counts or to the first bytes that are none; id, response flag, questions, answers and every typed record reported are what these say, with record data read at the place where it stands |
| `DnsMessage.Parse` | src/dissectors/dns.rs:75-171 | question and record loops equal the specification; a malformed question rejects, a malformed record ends the list |
| `DnsMessage.ParseQueries` | src/dissectors/dns.rs:94-111 | the question loop equals decoding that many questions |
| `DnsMessage.ParseRecords` | src/dissectors/dns.rs:113-161 | the record loop yields the typed records of all three sections up to the first malformed one, and as answers those among the first ancount |
| `DnsMessage.MessageBounds` | src/dissectors/dns.rs:75-171 | for every accepted message all claimed questions are present, answers are the first min(ancount, records) records, and 12 + 5 per question + 11 per record fit in the data |
| `DnsMessage.QueryForward` | src/dissectors/dns.rs:94-111 | a written question, its name in full or compressed, is read back at any offset |
| `DnsMessage.ResourceForward` | src/dissectors/dns.rs:115-139 | a written record, its name in full or compressed, gives back name, type, TTL and data, with the data's place in the message |
| `DnsMessage.MessageRoundTrip` | src/dissectors/dns.rs:75-171 | every question and every record of the three sections comes back in order, the answers apart, whatever bytes follow, with names in full or ending in a pointer to any name spelled in the message |
| `DnsMessage.NameForward` | src/dissectors/dns.rs:175-228 | a name of labels and a terminator, or of labels and a pointer to a name spelled elsewhere, is read back |
| `DnsMessage.TypedForward` | src/dissectors/dns.rs:298-352 | record data of every kind (A, AAAA, PTR, TXT, SRV, other), names in it in full or compressed, is given its meaning back wherever the record stands |
| `DnsMessage.RecordRoundTrip` | src/dissectors/dns.rs:75-171 | record i of a written message comes back with its name and the meaning of its data |
| `DnsMessage.ParseTxtRdata` | src/dissectors/dns.rs:358-373 | the loop equals the specification |
| `DnsMessage.TxtRoundTrip` | src/dissectors/dns.rs:358-373 | length-prefixed strings come back in order, without those that are not UTF-8 |
| `Ber.ReadTlvHeader` | src/dissectors/snmp.rs:203-230 | the cursor loop over the length octets equals the specification |
| `Ber.HeadForward` | src/dissectors/snmp.rs:203-230 | a header with any definite length below 2^32, in short form or in one to four octets, minimal or not, is read back |
| `Ber.HeadBackward` | src/dissectors/snmp.rs:203-230 | whatever header is accepted has that form |
| `Ber.ElemForward` | src/dissectors/snmp.rs:189-230 | an element with its length in any definite form is delimited exactly, at any offset, with its contents |
| `Ber.ElemBackward` | src/dissectors/snmp.rs:189-230 | whatever is delimited is such an element |
| `Ber.ParseInteger` | src/dissectors/snmp.rs:232-248 | the shift-and-or loop on 64 bits equals the specification |
| `Ber.IntegerMeaning` | src/dissectors/snmp.rs:232-248 | content octets of any number mean the two's complement of the last eight of them |
| `Ber.IntegerRoundTrip` | src/dissectors/snmp.rs:232-248 | every 64-bit integer in minimal two's complement is read back |
| `Ber.OidToArcs` | src/dissectors/snmp.rs:280-303 | the accumulator loop on 32 bits equals the specification |
| `Ber.OidRoundTrip` | src/dissectors/snmp.rs:280-303 | an object identifier with root at most 2, second arc below 40 and later arcs below 2^32 is read back |
| `Ber.FirstArcsIff` | src/dissectors/snmp.rs:280-303 | every identifier of section 8.19 of X.690 with later arcs below 2^32 is read back if and only if its second arc is below 40; otherwise the root read is 3 or more |
| `Ber.ReadsAnotherRoot` | src/dissectors/snmp.rs:280-303 | 2.999, the octets 0x88 0x37, is read as 3.16.55 |
| `Snmp.ParseBinding` | src/dissectors/snmp.rs:138-187 | one round of the loop equals decoding one binding |
| `Snmp.ParseVarBinds` | src/dissectors/snmp.rs:138-187 | the loop equals decoding bindings to the end of the list, and the three system values are those last bound to their identifiers |
| `Snmp.LastValueIff` | src/dissectors/snmp.rs:176-181 | a system value is that of a binding of its identifier behind which it is not bound again |
| `Snmp.ParseSnmp` | src/dissectors/snmp.rs:52-136 | the cursor code equals the specification, for request, trap and error shapes |
| `Snmp.ValueRoundTrip` | src/dissectors/snmp.rs:254-278 | a value of a known tag is read back as itself, contents under any other tag as raw octets |
| `Snmp.BindingForward` | src/dissectors/snmp.rs:138-187 | a binding with its lengths in any form and any octets behind the value is read as its identifier and value, and the cursor lands behind it |
| `Snmp.BindingBackward` | src/dissectors/snmp.rs:138-187 | every binding that is read is of that form |
| `Snmp.VarBindsForward` | src/dissectors/snmp.rs:138-187 | any list of such bindings is read in order |
| `Snmp.VarBindsBackward` | src/dissectors/snmp.rs:138-187 | every list that is read is of that form |
| `Snmp.PduForward` | src/dissectors/snmp.rs:71-123 | request id and bindings of every PDU kind are read, with the elements in between skipped and octets behind the bindings ignored |
| `Snmp.PduBackward` | src/dissectors/snmp.rs:71-123 | every PDU that is read is of that form |
| `Snmp.MessageForward` | src/dissectors/snmp.rs:52-136 | every message whose elements have their lengths in any form is read, with octets behind the PDU and behind the message ignored |
| `Snmp.MessageBackward` | src/dissectors/snmp.rs:52-136 | whatever is accepted begins with such a message, and what is reported is what it means |
| `Snmp.MessageRoundTrip` | src/dissectors/snmp.rs:52-136 | version, community, PDU tag, request id and every identifier and value written are recovered, in whatever form the lengths are written and whatever bytes follow |
| `Snmp.BoundWritable` | src/dissectors/snmp.rs:138-187 | every identifier and value below 2^32 octets can be written as a binding |
| `Snmp.MessageWritable` | src/dissectors/snmp.rs:52-136 | every version, community, PDU kind and request id below 2^32 octets can be written around any bindings |
| `SparkplugSession.SessionState.constructor` | src/sparkplug/state.rs:54-68 | a fresh session |
| `SparkplugSession.SessionState.BindAlias` | src/sparkplug/state.rs:75-77 | binds one alias and changes nothing else |
| `SparkplugSession.SessionState.RecordBirth` | src/sparkplug/state.rs:81-92 | the whole new state and the verdict of one BIRTH |
| `SparkplugSession.SessionState.ForgetAliases` | src/sparkplug/state.rs:94-96 | only the aliases go |
| `SparkplugSession.SessionState.RecordDeath` | src/sparkplug/state.rs:98-100 | only the aliases go; bdSeq stays |
| `SparkplugSession.SessionState.NoteGapAnomalyIfFirst` | src/sparkplug/state.rs:102-109 | true exactly if the flag was down, and the flag is up afterwards |
| `SparkplugSession.SessionState.TouchAt` | src/sparkplug/state.rs:120-122 | only the touch time changes |
| `SparkplugSession.AliasIff` | src/sparkplug/state.rs:71-100 | at every point of every run an alias resolves to a name if and only if some operation bound it so and nothing later rebound it, cleared the aliases or ended the session |
| `SparkplugSession.GapFlag` | src/sparkplug/state.rs:81-109 | at every point of every run the flag is up exactly when a gap was noted since the last superseding BIRTH |
| `SparkplugSession.GapFiresOncePerEpoch` | src/sparkplug/state.rs:81-109 | a gap call fires if and only if every earlier one is separated from it by a superseding BIRTH; so it fires at most once between superseding BIRTHs |
| `SparkplugSession.OlderBirthKeepsGap` | src/sparkplug/state.rs:81-109 | for every older number: after a BIRTH that does not supersede, a second gap is not signalled |
| `SparkplugSession.BdSeqIsMax` | src/sparkplug/state.rs:81-92 | the stored bdSeq is the maximum of those offered since the last BIRTH without one |
| `SparkplugSession.SupersedesIff` | src/sparkplug/state.rs:81-92 | a BIRTH supersedes if and only if no bdSeq offered since the last BIRTH without one is above its own |
| `SparkplugSession.BdSeqNeverDecreases` | src/sparkplug/state.rs:81-92 | across BIRTHs with no BIRTH without bdSeq between them, accepted values never decrease |
| `SparkplugSession.BdSeqMayDecrease` | src/sparkplug/state.rs:81-92 | with one in between, every decrease is possible |
| `SparkplugStore.SessionStore.constructor` | src/sparkplug/state.rs:144-150 | an empty store, with the empty run |
| `SparkplugStore.SessionStore.EntryMut` | src/sparkplug/state.rs:154-162 | one fetch adds exactly one step to the store's run: the session, created if absent, is touched and returned, after one oldest session is evicted exactly when a new key meets a full store; the bound is kept |
| `SparkplugStore.SessionStore.Work` | src/sparkplug/state.rs:154-162 | one operation through the returned reference adds exactly one step: that session's own method changes that session only, and its answer is recorded |
| `SparkplugStore.SessionStore.ShouldSweep` | src/sparkplug/state.rs:182-190 | call n answers true if and only if 1024 divides n |
| `SparkplugStore.SessionStore.EvictExpired` | src/sparkplug/state.rs:194-200 | one sweep adds exactly one step; returns how many sessions it removed |
| `SparkplugStore.SweepRule` | src/sparkplug/state.rs:192-200 | a session is dropped exactly under the documented rule or when the TTL is zero |
| `SparkplugStore.ZeroTtlDropsFuture` | src/sparkplug/state.rs:192-200 | with a TTL of zero, any session touched after now is dropped, against the documented rule |
| `SparkplugStore.StoreBounded` | src/sparkplug/state.rs:154-214 | over every run the store stays within max(1, max_sessions) |
| `SparkplugStore.SessionIsItsOwnHistory` | src/sparkplug/state.rs:154-162 | while a session stays in the store, its state and every answer it gave are what its own operations since admission make of a fresh one |
| `SparkplugStore.AdmissionExists` | src/sparkplug/state.rs:154-162 | every resident session has an admission that its residence goes back to |
| `SparkplugStore.GapFiresOncePerStoreEpoch` | src/sparkplug/state.rs:81-162 | in every run of the store, a resident session signals a gap if and only if every earlier gap since its admission is separated from it by a BIRTH that was told it supersedes |
| `SparkplugStore.BdSeqInStore` | src/sparkplug/state.rs:81-162 | in every run, the bdSeq of a resident session is the largest offered since its last BIRTH without one, and a BIRTH is told it supersedes exactly when none offered is above its own |
| `SparkplugStore.BdSeqNeverDecreasesInStore` | src/sparkplug/state.rs:81-162 | in every run, the numbers of a resident session's superseding BIRTHs never decrease unless a BIRTH without one comes between |
| `SparkplugStore.AliasInStore` | src/sparkplug/state.rs:71-162 | in every run, an alias of a resident session resolves to a name if and only if it was bound so since the admission and not rebound, cleared or ended since |
| `SparkplugStore.VictimTouchedFirst` | src/sparkplug/state.rs:203-214 | a session evicted for room was touched no later than any that stays |
| `SparkplugStore.TouchIsLatestFetch` | src/sparkplug/state.rs:120-162 | the touch time of a resident session is the time of its latest fetch |
| `InfluxText.PushEscaped` | src/output/influx_line.rs:347-377 | the loop appends exactly the escaped string |
| `InfluxText.EscapeRoundTrip` | src/output/influx_line.rs:347-377 | a reader undoes the escaping of every string that does not end in a backslash, and misreads every one that does |
| `InfluxText.FormatString` | src/output/influx_line.rs:331-345 | the loop yields exactly the quoted string |
| `InfluxText.QuoteRoundTrip` | src/output/influx_line.rs:331-345 | a reader undoes the quoting of every string |
| `InfluxText.DecimalRoundTrip` | src/output/influx_line.rs:72-74 | printed numbers are read back |
| `InfluxLine.QualityRecoverable` | src/output/influx_line.rs:231-271 | different qualities have different fields |
| `InfluxLine.PushTags` | src/output/influx_line.rs:33-40 | the loop appends exactly the tags, in order |
| `InfluxLine.PushFields` | src/output/influx_line.rs:44-68 | value field, quality fields and separators are written exactly; the sentinel never is |
| `InfluxLine.RenderProcessReading` | src/output/influx_line.rs:23-77 | the rendered text is that of measurement, tags, fields and saturated nanosecond timestamp |
| `InfluxLine.ValueRoundTrip` | src/output/influx_line.rs:211-229 | every field value is read back with its type |
| `InfluxLine.FieldsRoundTrip` | src/output/influx_line.rs:44-68 | fields are read back in order |
| `InfluxLine.TagsRoundTrip` | src/output/influx_line.rs:33-40 | tags are read back in order if and only if none of their strings ends in a backslash |
| `InfluxLine.LineRoundTrip` | src/output/influx_line.rs:23-77 | a whole line is recovered (measurement, ordered tags, fields, timestamp) if and only if neither the measurement nor a tag string ends in a backslash |
| `InfluxMany.RenderMany` | src/output/influx_line.rs:80-91 | the loop yields the readings' lines joined by newlines; other events leave no trace |
| `InfluxMany.SplitIff` | src/output/influx_line.rs:80-91 | joined non-empty lines are recovered by splitting if and only if none holds a newline |
| `InfluxMany.LineOneLine` | src/output/influx_line.rs:23-77 | a line holds a newline exactly when one of its strings does |
| `InfluxMany.BatchSplitsIff` | src/output/influx_line.rs:80-91 | a rendered batch splits back into its lines if and only if no string from the wire holds a newline |
| `InfluxMany.BatchRoundTrip` | src/output/influx_line.rs:23-91 | then, without final backslashes, the line of every reading of the batch is recovered from the text in order |
| `InfluxMany.SameLineIff` | src/output/influx_line.rs:23-77 | two readings give the same line if and only if they agree in protocol, tags, quality and timestamp, and in value up to raw bytes against their hex text and an unsigned number against a time |
| `PcccWire.FieldForward` | src/pccc/decoder.rs:138-145 | a plain or 0xFF-extended field is read back |
| `PcccWire.FieldBackward` | src/pccc/decoder.rs:138-145 | whatever is accepted is such a field |
| `PcccWire.AddressForward` | src/pccc/decoder.rs:315-330 | an address of plain or extended fields is read back, file number and sub-element cut to a byte |
| `PcccWire.AddressBackward` | src/pccc/decoder.rs:315-330 | whatever is accepted is such an address |
| `PcccWire.PduForward` | src/pccc/decoder.rs:96-119 | requestor id and header are stripped and the PDU recovered |
| `PcccWire.PduBackward` | src/pccc/decoder.rs:96-119 | whatever is accepted is an encoded PDU, byte for byte |
| `PcccWire.AskForward` | src/pccc/decoder.rs:208-249 | a written read request, followed by any bytes, gives its address and element count |
| `PcccWire.AskBackward` | src/pccc/decoder.rs:208-249 | only written read requests are remembered |
| `PcccWire.Quantity` | src/pccc/decoder.rs:227-234 | between 1 and 127 elements, whatever size and type are announced |
| `PcccWire.DecodeValue` | src/pccc/decoder.rs:341-348 | the value of the next slice, or nothing when it does not fit or the type carries none |
| `Pccc.PcccDecoder.constructor` | src/pccc/decoder.rs:164-166 | nothing pending, no event numbered, no calls |
| `Pccc.PcccDecoder.HandlePdu` | src/pccc/decoder.rs:181-206 | the calls on a decoder are a run: one PDU adds exactly one event, and returns its output in the run |
| `Pccc.PcccDecoder.HandleRequest` | src/pccc/decoder.rs:208-249 | exactly the read requests are stored, overwriting an older one on the key |
| `Pccc.PcccDecoder.HandleResponse` | src/pccc/decoder.rs:251-283 | the request is consumed whatever the status, and read only when the status is zero |
| `Pccc.PcccDecoder.Collect` | src/pccc/decoder.rs:268-282 | the loop with its early exit yields exactly min(quantity, body / width) readings, each from its own slice, and advances the event counter by as many |
| `Pccc.TableIsSource` | src/pccc/decoder.rs:181-249 | at every point of every run a key is pending if and only if an unconsumed request on it exists, and then it holds the latest one |
| `Pccc.ResponseReadings` | src/pccc/decoder.rs:181-283 | every output of every run: a successful response yields the readings of the latest unconsumed request of its client and transaction, everything else yields nothing |
| `Pccc.AnsweredOnce` | src/pccc/decoder.rs:259-261 | no request is answered twice |
| `Pccc.IdIsPosition` | src/pccc/decoder.rs:172-175 | the readings of a run are numbered by their position in it, modulo 2^64 |
| `Pccc.ConsecutiveIff` | src/pccc/decoder.rs:271-281 | element numbers are consecutive if and only if the last one fits in 16 bits |
| `Pccc.ResponseRoundTrip` | src/pccc/decoder.rs:251-283 | values written as a response body come back in order, as many as were asked for and are there |
| `Pccc.CorrelatesFromBytes` | src/pccc/decoder.rs:181-283 | from raw bytes over whole runs: a written read request and the next response on its key give the readings of that request, whatever other traffic runs between |
| `SlidingWindow.RateCounter.constructor` | src/bilgepump/state.rs:69-71 | no events |
| `SlidingWindow.RateCounter.Prune` | src/bilgepump/state.rs:82-87 | drops the front while it is older than the cutoff, nothing else |
| `SlidingWindow.RateCounter.Record` | src/bilgepump/state.rs:75-79 | if times and cutoffs never went back, the count is the number of all events ever recorded in the window |
| `SlidingWindow.MacFlapTracker.constructor` | src/bilgepump/state.rs:95-97 | no observations |
| `SlidingWindow.MacFlapTracker.Record` | src/bilgepump/state.rs:109-139 | if times and cutoffs never went back, the count is the number of distinct addresses of all observations ever recorded in the window |
| `SlidingWindow.CountDistinct` | src/bilgepump/state.rs:131-138 | the nested search loop counts distinct addresses |
| `SlidingWindow.DequeIsSuffix` | src/bilgepump/state.rs:75-87 | for times in any order the deque is the latest part of the history; with times and cutoffs that never go back it is cut exactly at the cutoff |
| `SlidingWindow.RateIsExact` | src/bilgepump/state.rs:75-87 | the deque holds as many events as the window, over every such run |
| `SlidingWindow.FlapIsExact` | src/bilgepump/state.rs:109-139 | the deque holds the addresses of the window, over every such run |
| `SlidingWindow.FixedWindow` | src/bilgepump/state.rs:82-83 | with one fixed window, times that never go back are enough |
| `SlidingWindow.ExactIff` | src/bilgepump/state.rs:75-139 | with one fixed window, the deque holds exactly the calls of the window after every call if and only if the times never go back |
| `SlidingWindow.StepBackMiscounts` | src/bilgepump/state.rs:75-139 | whenever a time is below the one before it, the deque holds a call that is not in the window |
| `SlidingWindow.CountsAgreeByAccident` | src/bilgepump/state.rs:75-87 | a run whose last count is right although it counts the wrong events |
| `Ethercat.ParsePayload` | src/dissectors/ethercat.rs:82-99 | the loop equals cutting the payload into datagrams without a remainder |
| `Ethercat.ParseFrame` | src/dissectors/ethercat.rs:67-80 | with or without the frame header, the payload is what is cut |
| `Ethercat.DatagramForward` | src/dissectors/ethercat.rs:101-151 | a datagram is read back, whatever its reserved bits and what follows it |
| `Ethercat.DatagramBackward` | src/dissectors/ethercat.rs:101-151 | whatever is accepted is the encoding of a datagram |
| `Ethercat.PayloadForward` | src/dissectors/ethercat.rs:82-99 | every concatenation of well-formed datagrams is parsed into them, in order |
| `Ethercat.PayloadBackward` | src/dissectors/ethercat.rs:82-99 | nothing else is accepted |
| `Ethercat.ReencodeIff` | src/dissectors/ethercat.rs:82-151 | encoding the result again gives back the bytes if and only if no reserved bit was set |
| `Ethercat.FrameForward` | src/dissectors/ethercat.rs:67-80 | a frame with a header gives its datagrams, whatever padding follows |
| `Ethercat.HeaderlessIff` | src/dissectors/ethercat.rs:67-80 | without a header, a run of datagrams is recovered if and only if its first two bytes cannot be taken for one |
| `Ethercat.LooksFramedIff` | src/dissectors/ethercat.rs:67-80 | they can be exactly when command plus 256 times the low three bits of the index lies between 12 and the length less two |
| `Framing.SplitForward` | src/dissectors/iec104.rs:30-52 | a run of whole frames is split into exactly those frames and what follows is split on its own, for any frame size announced at the front |
| `Framing.SplitBackward` | src/dissectors/iec104.rs:30-52 | the frames found are the bytes themselves, cut as far as whole frames reach |
| `Framing.SplitAdds` | src/dissectors/iec104.rs:30-52 | splitting is additive behind whole frames |
| `Framing.WholeIfFrames` | src/dissectors/iec104.rs:30-52 | every concatenation of frames is whole, and is split into exactly those frames |
| `Framing.ParsedIsSplit` | src/dissectors/iec104.rs:30-52 | what a splitter loop returns is the parse of each frame of the stream, one by one |
| `Framing.ParsedAdds` | src/dissectors/iec104.rs:30-52 | parse(a + b) = parse(a) + parse(b) when a is whole, for any frame size announced at the front and any parser of whole frames |
| `Iec104.SizeFromFront` | src/dissectors/iec104.rs:34-42 | start byte and length decide the frame whatever follows it |
| `Iec104.ParseFrames` | src/dissectors/iec104.rs:30-52 | the loop equals parsing the frames of the stream up to the first that is not whole |
| `Iec104.StreamAdds` | src/dissectors/iec104.rs:30-52 | for any concatenation a of whole frames, parse(a + b) = parse(a) + parse(b), and parse(a) is the parse of each |
| `Iec104.FrameAlwaysParsed` | src/dissectors/iec104.rs:54-119 | a frame that has been delimited is always parsed |
| `Iec104.IForward` | src/dissectors/iec104.rs:59-90 | sequence numbers and ASDU of an information frame are recovered |
| `Iec104.SUForward` | src/dissectors/iec104.rs:91-119 | supervisory and unnumbered frames are told apart and read |
| `Iec104.IBackward` | src/dissectors/iec104.rs:59-90 | every delimited information frame is such a frame, byte for byte |
| `Iec104.SUBackward` | src/dissectors/iec104.rs:91-119 | every other delimited frame is a supervisory or unnumbered frame |
| `Iec104.AsduForward` | src/dissectors/iec104.rs:63-78 | type, cause, common address and object address are recovered, with the flag bits of the cause masked |
| `Iec104.ShortAsduForward` | src/dissectors/iec104.rs:63-78 | an ASDU of six to eight octets is read without an object address |
| `Iec104.AsduBackward` | src/dissectors/iec104.rs:63-78 | every ASDU that is read is of one of these two forms |
| `Recency.LastUse` | src/sparkplug/state.rs:154-162 | the latest event that used a key, with no use of it since; none exactly when there is no use |
| `StoreResidency.ResidentIff` | src/sparkplug/state.rs:154-214 | after every run in which the fetches of different sessions come at rising times, a session is resident if and only if it was fetched, fewer than max(1, max_sessions) distinct sessions were fetched since, and no sweep since found it expired |
| `StoreResidency.ResidentInOrder` | src/sparkplug/state.rs:154-214 | the same for a single session of any run, if its own last fetch comes at a later time than the fetches of other sessions before it and at an earlier time than those after it |
| `StoreResidency.SurelyKept` | src/sparkplug/state.rs:154-214 | in every run, whatever the times, a session that no sweep since its last fetch found expired and that fewer than max(1, max_sessions) others may outlive is resident |
| `StoreResidency.SurelyGone` | src/sparkplug/state.rs:154-214 | in every run, whatever the times, a resident session was found expired by no sweep since its last fetch, and fewer than max(1, max_sessions) others were fetched since it at later times only |
| `StoreResidency.StampIsLastFetch` | src/sparkplug/state.rs:154-162 | in every run a resident session carries the time of its last fetch |
| `StoreResidency.VictimDead` | src/sparkplug/state.rs:203-214 | in every run, whatever the times, a session evicted for room is one that at least max(1, max_sessions) others may outlive: others fetched since, or before it at no earlier time |
| `StoreResidency.LaterAlive` | src/sparkplug/state.rs:154-214 | in every run, whatever the times, a session fetched since a resident session was, and only at later times, is resident too |
| `StoreResidency.TiesAreLuck` | src/sparkplug/state.rs:203-214 | two runs of the same calls, with two sessions fetched at one time, hold different sessions |
| `StoreResidency.EarlierTimeGoesFirst` | src/sparkplug/state.rs:203-214 | a session fetched second at an earlier time goes before the one fetched first |
| `HartIp.ParseFrames` | src/dissectors/hart_ip.rs:93-114 | the loop equals parsing the frames of the stream up to the first that is not whole |
| `HartIp.FrameForward` | src/dissectors/hart_ip.rs:116-145 | a written frame is delimited and read back |
| `HartIp.FrameBackward` | src/dissectors/hart_ip.rs:116-145 | a delimited frame is the encoding of what is read from it |
| `HartIp.ParsedIff` | src/dissectors/hart_ip.rs:93-114 | the result is exactly the frames of the longest prefix of whole frames |
| `HartIp.SizeFromFront` | src/dissectors/hart_ip.rs:97-102 | the length field decides the frame whatever follows it |
| `HartIp.FrameAlwaysParsed` | src/dissectors/hart_ip.rs:116-145 | a frame that has been delimited is always parsed |
| `HartIp.StreamAdds` | src/dissectors/hart_ip.rs:93-114 | any run of whole frames is recovered and what follows is parsed on its own |

## Left out

- FlowTable.TableTracks: assumes fewer than 2^64 packets, so that the tick does not wrap around.
- InfluxMany.BatchRoundTrip: tags come as a list; which tags a point identifier contributes (a table) is not modelled.
- Pccc.PcccDecoder.Collect: element numbers wrap at 2^16 as in a release build; a debug build stops there.
- SlidingWindow.RateCounter.Record: times and windows are whole numbers of one unit; a window beyond the range of a 64-bit signed number is not modelled.
- SHA-256 in deduplication is replaced by the hashed bytes themselves, that is, assumed free of collisions.
- Lossy text conversion, float printing and float meaning, number and name tables, dotted names: values stay structured; floats in lines are any text of digits, sign and point.
- Event ids other than the PCCC counter, capture ids, schema versions and envelopes around readings.
- The place of record data in a DNS message is passed along; the pointer arithmetic that finds it and the reader for names without compression are not modelled.
- Names of the record types NS and CNAME in the flat DNS answer strings, and the formatting of those strings.
- The unused skipper for arrays of diagnostic information, the unused three-field address reader with a leading size, alias counts and length getters.
- EtherCAT identity hints and command names, HART-IP bodies, IEC 104 names of unnumbered formats.
- Stack depth of the recursive diagnostic skipper and overflow of machine-word offsets.
- SparkplugStore.SessionStore.Work: the mutable reference that `entry_mut` hands out is modelled by operations on the session it points to.
- Packet capture, command line, foreign-function and Python bindings, OCSF output, fixed-offset dissectors and text heuristics.
