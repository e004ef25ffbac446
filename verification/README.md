# A verified model of the daemon's library code

The project models, in Dafny, the data structures and protocols that the daemon is built on, and proves
what they promise:

- **the ordered map** (`RedBlack*.dfy`, `MapIndexes.dfy`, `MultiMap.dfy`, `MapRuns.dfy`): a doubly linked
  list with one red-black tree per comparator. Tree nodes and list entries are heap objects whose fields
  the methods rewrite. `Shape` is the tree that hangs below a slot, `Zipper` the path that leads to a
  slot; every rotation is a lemma about these values and about the writes that make it.
- **the MQTT client** (`SendBuffer.dfy`, `Qos.dfy`, `MqttClient.dfy`, `MqttRun.dfy`, `PacketId.dfy`,
  `MqttRequests.dfy`, `MqttCodec.dfy`): the send buffer is one byte array with packets at one end and
  headers at the other; on it run the requests, `__mqtt_send` and `__mqtt_recv`. What is kept between any
  two calls is the predicate `Qos.Inv`.
- **remote calls over MQTT** (`Transport.dfy`), from `invoke` on one side to the method on the other.
- **the JSON parser** (`Json*.dfy`): both passes as step functions over the text, what the strings in the
  text stand for apart from them, and the iterative free.
- **the XML reader and writer** (`Xml*.dfy`).
- **presence subscriptions** (`Notify.dfy`): the links between subscribers, contacts and presentities.
- **MD5** (`Md5.dfy`) for any compression function, and **base64** (`Base64.dfy`).

`Bytes`, `Options`, `Sequences`, `Division`, `LittleEndian`, `Counting` and `MqttErrors` are shared. The whole project
is checked by `dafny verify dfyconfig.toml`.

## Findings

Places where the code does not do what it promises. Each has a theorem that says exactly when.

- A text whose first character other than white space is `]` makes the parser read a field of a null
  value (`lib/common/json.c:371-384`): `JsonParse.CrashExactly`; every other text is parsed without a wild
  access.
- A character outside the basic plane, escaped as a surrogate pair, is not written in UTF-8: each half is
  encoded by itself (`lib/common/json.c:265-306`): `JsonStrings.Utf8Exactly`.
- A QoS 2 message is lost when its id is used again after the PUBREL but before the completed PUBREC is
  cleaned out of the queue (`lib/mqtt/mqtt.c:755-769`): `MqttClient.DroppedWhen` says when the client and
  the standard differ, `MqttClient.LosingClient` is a run from initialisation in which it happens.
- A PUBLISH is packed but does not come back when its topic is longer than 65535 bytes or its remaining
  length is below 4, as for a QoS 0 message with an empty payload and a topic of one byte
  (`lib/mqtt/mqtt.c:1343-1384`): `MqttCodec.PublishExact`. One whose topic is said to be longer than its
  packet is read past its end: `MqttCodec.OverrunExactly`.
- A contact address that two subscribers use at one presentity gets one signature only, so the second is
  never notified (`src/notify.c:240-242`): `Notify.UpdateExact`.
- A deletion that names no presentity leaves presentities without signatures behind
  (`src/notify.c:310-359`): `Notify.BareExact` for one deletion, `Notify.RunBare` for whole runs.
- The sequence number of notifications is counted without sign but printed with one; the printed numbers
  go up exactly until they pass the largest signed number (`src/notify.c:480-490`): `Notify.NumbersUp`.
- Base64 is undone for every byte string exactly with the tails `+/=` and `+/` with a NUL: the decoder
  knows one alphabet only (`lib/common/base64.c:118-137`): `Base64.RoundTripExact`.

## Model

| member | source | states |
|---|---|---|
| RedBlackTree.Index.TSearch | lib/common/map.c:124-179 | Insertion into any valid tree keeps search order, no red edge below a red node and equal black height; it adds exactly the new entry in its place, or returns the stored equal one and leaves the keys alone |
| RedBlackTree.Index.MaybeSplit | lib/common/map.c:49-119 | The recolouring and the four rotations leave the heap holding the tree that the split describes, and never touch a missing grandparent |
| RedBlackInsert.SplitBalanced | lib/common/map.c:49-119 | The split tree is balanced and fits its place |
| RedBlackInsert.SplitKeys | lib/common/map.c:49-119 | A split does not change the order of the keys |
| RedBlackInsert.SplitNodes | lib/common/map.c:49-119 | A split neither loses nor repeats a node |
| RedBlackDescent.NextFuel | lib/common/map.c:140-160 | The search goes down although rotations lift nodes above it |
| RedBlackDescent.NearSplits | lib/common/map.c:140-160 | Wherever two red children are met, parent and grandparent are known, in spite of slots gone stale after a rotation |
| RedBlackTree.Index.TFind | lib/common/map.c:186-205 | A search finds an equal entry exactly if one is stored |
| RedBlackTree.Index.TDelete | lib/common/map.c:210-446 | A deletion takes out exactly the entry with the key, keeps the tree valid, and changes nothing if there is none |
| RedBlackTree.Index.Repair | lib/common/map.c:320-446 | The repair loop ends, and turns a tree with one black node missing on a path into a balanced one with the same keys |
| RedBlackDelete.SiblingExists | lib/common/map.c:330-350 | The brother of a short subtree is never null |
| RedBlackDelete.SiblingRedShort | lib/common/map.c:330-345 | After the rotation for a red brother the place is still short by one, with a black brother |
| RedBlackDelete.NephewNearBalanced | lib/common/map.c:355-400 | Lifting the near grandchild completes the tree |
| RedBlackDelete.NephewFarBalanced | lib/common/map.c:355-400 | Lifting the brother, when the far grandchild is red, completes the tree |
| RedBlackShape.HeightBound | lib/common/map.c:221-238 | A valid tree of fewer than 2^(k+1) - 1 nodes is at most 2k + 1 high |
| RedBlackTree.Index.DeepEnough | lib/common/map.c:221-271 | Of a tree of at most 2^50 - 2 nodes no place is 99 slots deep, so the stack of 100 suffices and `abort` is not reached |
| RedBlackTree.Index.MakeSiblingBlack | lib/common/map.c:332-345 | The extra slot that a rotation pushes fits the stack too |
| RedBlackTree.Index.TRecurse | lib/common/map.c:453-489 | A walk gives the entries to the callback in order, up to the first that it does not answer with 0 |
| MapIndexes.MapKey | lib/common/map.c:967-990 | The entry goes into every tree, or, on a clash in any of them, all trees hold what they held; the result tells which |
| MapIndexes.InsertRemove | lib/common/map.c:967-990 | Deleting the key just inserted undoes the insertion |
| MapIndexes.DeleteAt | lib/common/map.c:872-902 | A deletion from one tree takes exactly the entry and leaves the other trees alone |
| MultiMap.Map.Push | lib/common/map.c:1132-1157 | A new item is in front of the list and in every index, unless one of its keys is taken: then nothing changes |
| MultiMap.Map.PushBack | lib/common/map.c:1028-1053 | The same at the end of the list |
| MultiMap.Map.PushFind | lib/common/map.c:1058-1127 | Inserts, or updates and moves up the entry with the first key, or refuses if another key is taken; with the flag handed back |
| MultiMap.Map.Remove | lib/common/map.c:872-902 | An entry goes from the list and from every index; no other entry moves |
| MultiMap.Map.Pop | lib/common/map.c:1188-1195 | Takes the newest item |
| MultiMap.Map.PopBack | lib/common/map.c:1200-1207 | Takes the oldest item |
| MultiMap.Map.Search | lib/common/map.c:1229-1240 | Finds the entry with the key, if there is one |
| MultiMap.Map.Get | lib/common/map.c:1261-1269 | Takes out the item with the key under the index, or changes nothing; an index that the map does not have takes nothing |
| MultiMap.Map.Until | lib/common/map.c:931-941 | Drops exactly the longest run of items at the end that the callback accepts |
| MultiMap.Map.Erase | lib/common/map.c:916-926 | Leaves the map empty and valid |
| MultiMap.Map.AddKey | lib/common/map.c:998-1023 | A further comparator gets a tree with exactly the entries of the list |
| MultiMap.DistinctBound | lib/common/map.c:872-902 | A tree holds no more entries than the list that holds all of them |
| MapRuns.Run | lib/common/map.c:872-1269 | Whatever operations are applied to a new map (insertions, removals, searches, walks and further comparators), each does to the list of items what it says, and the map stays valid: linked both ways, sized, every index holding exactly the list |
| MapRuns.Empty | lib/common/map.c:709-757 | Any number of comparators can be given to a new map |
| MapRuns.ContentsDistinct | lib/common/map.c:967-993 | No two items of a valid map have the same key under any comparator |
| PacketId.Cycle | lib/mqtt/mqtt.c:91-98 | 65535 moves of the register bring any nonzero value back |
| PacketId.Order | lib/mqtt/mqtt.c:91-98 | No fewer moves do |
| PacketId.SingleCycle | lib/mqtt/mqtt.c:91-98 | The register is one cycle through all 65535 nonzero values |
| PacketId.FewIds | lib/mqtt/mqtt.c:99-109 | Fewer than 65535 queued ids leave a nonzero id free |
| PacketId.SearchEnds | lib/mqtt/mqtt.c:85-111 | The search for an id ends exactly if some nonzero id is free |
| PacketId.Register.NextPid | lib/mqtt/mqtt.c:85-111 | The search returns the first free id after the current one, never 0 |
| MqttRequests.NextPid | lib/mqtt/mqtt.c:85-111 | On the client's queue of fewer than 65535 messages: a nonzero id that no queued message holds |
| MqttRequests.RequestNew | lib/mqtt/mqtt.c:271-303 | A new request holds an id that no other message in the queue holds |
| SendBuffer.NativeSound | lib/mqtt/mqtt.h:930-961 | The headers of 40 bytes of a 64-bit machine are read back as they were written |
| SendBuffer.Appended | lib/mqtt/mqtt.c:1625-1638 | Writing one header below the last makes the bytes just packed a message more, and harms no other |
| SendBuffer.Moved | lib/mqtt/mqtt.c:1662-1672 | The two moves of a cleaning keep the bytes and the headers of every message that stays |
| SendBuffer.CleanedIs | lib/mqtt/mqtt.c:1640-1648 | What a cleaning drops is the longest prefix of complete messages |
| SendBuffer.CleanedRoom | lib/mqtt/mqtt.c:1640-1684 | Cleaning never takes room away |
| SendBuffer.MessageQueue.Register | lib/mqtt/mqtt.c:1625-1638 | Appends one message, unsent, with the bytes packed at `curr` |
| SendBuffer.MessageQueue.Clean | lib/mqtt/mqtt.c:1640-1684 | The queue is what `Cleaned` says, and memory, `curr`, `queue_tail` and `curr_sz` agree with it |
| SendBuffer.MessageQueue.Find | lib/mqtt/mqtt.c:1686-1698 | The first message of the type with the id, or not yet complete |
| SendBuffer.MessageQueue.SetMessage | lib/mqtt/mqtt.h:930-961 | Storing state, time, type or id in one header changes that message only |
| SendBuffer.MessageQueue.SetFirstByte | lib/mqtt/mqtt.c:605-616 | Setting the DUP bit where a packet lies changes that byte only |
| Qos.DeliveredOnce | lib/mqtt/mqtt.c:755-823 | Between two deliveries of an id a PUBREL for it came in (section 4.3.3 of MQTT 3.1.1) |
| Qos.CleanKeeps | lib/mqtt/mqtt.c:1640-1684 | Cleaning anywhere keeps the invariant |
| Qos.AppendKeeps | lib/mqtt/mqtt.c:207-233 | So does a new message |
| Qos.PubrecKeeps | lib/mqtt/mqtt.c:755-769 | So do a new PUBREC and the delivery that goes with it |
| Qos.ReleaseKeeps | lib/mqtt/mqtt.c:806-823 | So does a PUBREL for a queued PUBREC |
| Qos.UnknownKeeps | lib/mqtt/mqtt.c:806-823 | So does a PUBREL for none |
| Qos.SendKeeps | lib/mqtt/mqtt.c:521-630 | So does sending a message, a QoS 2 PUBLISH only if all before it are complete |
| MqttClient.Client.TryPack | lib/mqtt/mqtt.c:207-233 | The packet is at `curr`, before or after a cleaning, exactly if it fits a cleaned queue and no error stands; nothing is cleaned if it fits at once |
| MqttClient.Client.Request | lib/mqtt/mqtt.c:271-503 | Queues one message with its type and id exactly if it was packed, and keeps the invariant |
| MqttClient.Client.Connect | lib/mqtt/mqtt.c:236-269 | Queues a CONNECT exactly if it fits and no error but a missing connect stands; else the return code is the error and is kept |
| MqttClient.Client.Consider | lib/mqtt/mqtt.c:525-553 | A message is sent if it is unsent or its answer is late, which counts as a timeout, but no second QoS 2 PUBLISH while one is in flight |
| MqttClient.Client.Send | lib/mqtt/mqtt.c:507-647 | Whatever clock and socket do: messages only move forward, and at most one QoS 2 PUBLISH awaits an answer, the oldest that is not complete. If all goes out and the result is OK, no message is left unsent but a QoS 2 PUBLISH behind another; else the result is the error |
| MqttClient.Client.Handle | lib/mqtt/mqtt.c:700-884 | Which message each response completes, what it queues, what it returns and leaves as the error, when the callback runs, and that the invariant holds |
| MqttClient.Client.Recv | lib/mqtt/mqtt.c:649-899 | Any responses in turn keep the invariant, and messages only move forward |
| MqttClient.DroppedWhen | lib/mqtt/mqtt.c:755-769 | A PUBLISH is dropped exactly if a PUBREC for its id is queued; this differs from the standard exactly while a completed one lingers |
| MqttClient.LostMessage | lib/mqtt/mqtt.c:755-823 | With room for the two answers, a message under a released id is lost |
| MqttClient.LosingClient | lib/mqtt/mqtt.c:113-150 | The same from initialisation on, with 1024 bytes and headers of 40 |
| MqttRun.Run | lib/mqtt/mqtt.c:112-899 | In every run of connects, requests, sends and receipts: the three properties above, from initialisation on |
| MqttCodec.VarintLength | lib/mqtt/mqtt.c:1050-1102 | A remaining length below 128^k takes at most k bytes |
| MqttCodec.HeaderRoundTrip | lib/mqtt/mqtt.c:992-1102 | A fixed header comes back, whatever follows, and is not accepted while part of its packet is missing (section 2.2.3 of MQTT 3.1.1) |
| MqttCodec.PublishRoundTrip | lib/mqtt/mqtt.c:1273-1384 | A PUBLISH comes back with topic, payload, QoS, retain bit and id, and uses exactly its packet, whatever follows (section 3.3 of MQTT 3.1.1) |
| MqttCodec.PublishPrefix | lib/mqtt/mqtt.c:1702-1741 | Every strict prefix of a PUBLISH is reported as incomplete |
| MqttCodec.PublishExact | lib/mqtt/mqtt.c:1273-1384 | It comes back exactly if the topic is at most 65535 bytes long and the remaining length at least 4 |
| MqttCodec.ShortPublish | lib/mqtt/mqtt.c:1343-1384 | A QoS 0 message with a topic of one byte and no payload is packed and then refused |
| MqttCodec.AckRoundTrip | lib/mqtt/mqtt.c:1387-1447 | PUBACK, PUBREC, PUBREL and PUBCOMP come back with their id |
| MqttCodec.OverrunExactly | lib/mqtt/mqtt.c:1343-1384 | The unpacker reads past its packet exactly for a PUBLISH whose topic and id are said to be longer than what remains |
| MqttCodec.PackPublish | lib/mqtt/mqtt.c:1273-1340 | The bytes written in place are those of the packet, or an error or 0, and nothing outside the room changes |
| MqttCodec.PackFixedHeader | lib/mqtt/mqtt.c:1050-1102 | The same of a fixed header |
| MqttCodec.PackAck | lib/mqtt/mqtt.c:1387-1420 | The same of an acknowledgement |
| MqttCodec.UnpackFixedHeader | lib/mqtt/mqtt.c:992-1048 | Reading the buffer byte by byte gives what the bytes say |
| MqttCodec.UnpackResponse | lib/mqtt/mqtt.c:1702-1741 | The same of a whole response |
| Transport.TopicNames | lib/proto/transport.c:48-73 | The method part of a topic is the method's name |
| Transport.TopicParts | lib/proto/transport.c:48-73 | Equal topics have equal parts |
| Transport.Routed | lib/proto/transport.c:293-321 | A call's topic is subscribed to exactly by the service, host and port it is addressed to |
| Transport.GetTopic | lib/proto/transport.c:89-124 | Cutting the topic in place at its slashes finds the method's name, or none |
| Transport.Transport.GetMethod | lib/proto/transport.c:129-140 | The method with the name, or the number of methods |
| Transport.Transport.Input | lib/proto/transport.c:186-198 | A message for a known method that unpacks reaches that method, any other reports an error |
| Transport.Transport.Command | lib/proto/transport.c:326-381 | What a received packet makes the peer do, for each type: subscriptions after a CONNACK, the count of those granted in a SUBACK and when the peer is ready, the call that a PUBLISH makes, the errors, and how many bytes it uses |
| Transport.Call | lib/proto/transport.c:48-381 | A call of method k on one peer arrives at another with the same methods as a call of method k with the same message, and uses the whole packet |
| JsonPasses.FutureHolds | lib/common/json.c:190-733 | What the second pass is sized by is what the first pass ends with, at every step of it |
| JsonPasses.SimStep | lib/common/json.c:211-733 | One step of the second pass follows one step of the first |
| JsonPasses.TwoPasses | lib/common/json.c:190-733 | If the first pass succeeds so does the second: same end, every value used in order of creation, every string, key block and member list filled exactly |
| JsonStrings.QuotedOnce | lib/common/json.c:232-361 | What stands between quotes can be read as a string in one way only |
| JsonStrings.PlacedStep | lib/common/json.c:211-733 | Every turn of the second pass keeps each value at its place in the text, with the text and keys that stand there |
| JsonStrings.SecondFaithful | lib/common/json.c:211-733 | In the end the values stand in the text in order of creation, each at a character of its kind, and every string and key is, unescaped, what stands between the quotes at its place, an object's keys in order |
| JsonStrings.Utf8Exactly | lib/common/json.c:265-306 | An escaped code unit is written in UTF-8 exactly unless it is half of a surrogate pair (section 3 of RFC 3629) |
| JsonStrings.PairExample | lib/common/json.c:265-306 | The escaped pair of U+1F600 becomes six bytes that are no UTF-8 |
| JsonParse.CrashExactly | lib/common/json.c:371-384 | The first pass makes a wild access exactly if the first dark character is `]` |
| JsonParse.CrashExample | lib/common/json.c:371-384 | The text `]` does |
| JsonParse.Parse | lib/common/json.c:190-733 | For every other text the parser answers what the first pass says, with complete values that are what the text says |
| JsonFree.OrderDistinct | lib/common/json.c:786-834 | No value is freed twice |
| JsonFree.OrderBottomUp | lib/common/json.c:786-834 | Members are freed before what holds them |
| JsonFree.FreedOnce | lib/common/json.c:786-834 | Exactly the values inside are freed, each once |
| JsonFree.BlocksOnce | lib/common/json.c:798-823 | So are the blocks of the containers and strings inside |
| JsonFree.FreeValue | lib/common/json.c:786-834 | The loop over parents and shrinking lengths ends and frees values and blocks in that order |
| JsonFree.ParsedFreed | lib/common/json.c:190-834 | Of any parsed text all values are freed |
| XmlRoundTrip.RoundTrip | lib/common/xml.c:539-941 | A normalised tree written and read is the same tree with each attribute list reversed |
| XmlRoundTrip.TwoRoundTrips | lib/common/xml.c:539-941 | A second time gives the tree itself |
| Xml.ReadAttrs | lib/common/xml.c:1089-1207 | The attributes written are read back, last first, whether a text or a slash follows |
| XmlIo.AttributeNext | lib/common/xml.c:1089-1174 | The scanning loop finds the next attribute, and where it ends |
| XmlIo.CompileTag | lib/common/xml.c:1188-1207 | The loop collects the attributes of a tag |
| XmlIo.Feed | lib/common/xml.c:675-742 | The loop over tokens builds the tree that the text denotes |
| XmlIo.Write | lib/common/xml.c:929-941 | Writes exactly the text of the tree, or fails exactly if it does not fit |
| XmlIo.WriteAndFeed | lib/common/xml.c:675-941 | Both in turn on one buffer |
| Notify.UpdateExact | src/notify.c:361-396 | An update adds its triple to the relation, and keeps everything mirrored exactly if no other subscriber has that address at that presentity |
| Notify.DeleteExact | src/notify.c:310-359 | A deletion takes out exactly the triples asked for and keeps everything mirrored, with no subscriber or contact left empty |
| Notify.SharedExample | src/notify.c:361-396 | A run in which the second of two subscribers with one address is related but has no signature |
| Notify.BareExample | src/notify.c:310-359 | A run that leaves a presentity without signatures |
| Notify.BareExact | src/notify.c:310-359 | Which presentities a deletion leaves without signatures, whatever was bare before |
| Notify.RunRefines | src/notify.c:310-396 | In every run in which no address is used by two subscribers the links are mirrored and relate exactly the triples last subscribed |
| Notify.RunBare | src/notify.c:310-396 | In such a run the presentities kept are those subscribed to, until a deletion that names the contact and the presentity takes the last triple; without signatures are those of them that nobody watches |
| Notify.ChosenOwn | src/notify.c:361-396 | An update notifies its own subscriber with its own id |
| Notify.NotifiedOnce | src/notify.c:471-563 | A change notifies each related contact exactly once and nobody else |
| Notify.NumbersUp | src/notify.c:484-490 | The printed numbers of any number of notifications go up exactly until they pass the largest signed number |
| Notify.FallingExample | src/notify.c:484-490 | After the sequence 0x7FFFFFFE the second of two numbers is the smaller |
| Notify.Notify.Update | src/notify.c:361-469 | The new links, the number and the notification; a missing argument is refused |
| Notify.Notify.Delete | src/notify.c:310-359 | The new links, through the loops that free contacts and subscribers |
| Notify.Notify.Change | src/notify.c:471-563 | One notification to each signature, newest first, with consecutive numbers |
| Md5.FoldedCut | lib/common/md5.c:349-352 | Whole blocks can be worked in first |
| Md5.CountUp | lib/common/md5.c:333-337 | Two words with a carry count the bits modulo 2^64 |
| Md5.PaddedDiffer | lib/common/md5.c:361-381 | Two messages that are padded alike are alike |
| Md5.State.Append | lib/common/md5.c:322-357 | The registers hold the full blocks of the message so far, the buffer the rest, the count its bits |
| Md5.State.Finish | lib/common/md5.c:360-381 | The digest is that of the message padded as in sections 3.1 and 3.2 of RFC 1321 |
| Md5.DigestOf | lib/common/md5.c:312-381 | However a message is cut, its digest is the same |
| LittleEndian.LittleValue | lib/common/md5.c:372-374 | The bytes of a number give it back |
| Base64.EncodedAt | lib/common/base64.c:145-173 | Four characters to every three bytes begun; each character stands for its own six bits (section 4 of RFC 4648) |
| Base64.Carried | lib/common/base64.c:157-168 | The bits carried over in 32 bits give the next six |
| Base64.Encode | lib/common/base64.c:145-173 | The loop with deferred characters writes the text of the grouping and a NUL, or refuses exactly the sizes out of range and the buffers too small |
| Base64.DecodeInto | lib/common/base64.c:118-137 | The decoder writes what the text means as far as it fits, and answers -1 exactly to a foreign character |
| Base64.RoundTripExact | lib/common/base64.c:118-173 | Decoding undoes encoding for all byte strings exactly with the tails named above |
| Base64.ReadBack | lib/common/base64.c:118-137 | In memory, with a buffer that is large enough |

## Left out

- Comparators are given by a real number per entry and comparator, which any total order on the keys allows; wildcard comparators are not orders.
- RedBlackTree.Index.TDelete: the pointer that the source returns is a flag here; callers ignore it.
- MultiMap.Map.AddKey: asks for entries that differ under the new comparator; for others the source returns -1 and destroys the new tree through a callback that is null.
- MultiMap.Map.PushFind: a copier that returns null.
- Failing allocations, mutexes and `map_map`; list sizes stay within an int.
- The client's partial sends and `send_offset`, response-time averages, the reconnect callbacks and `mqtt_reinit`; the clock and the socket are arbitrary functions.
- MqttClient.Client.Request: what a packer makes of its arguments is a parameter; only PUBLISH, the acknowledgements and the fixed header are packed byte by byte, in MqttCodec.
- MqttRequests.NextPid: the ids are read off the headers first and searched then, where the source reads each header as it compares.
- MqttClient.Client.Recv: the socket reads and the receive buffer; it is given the responses, as unpacked, in turn.
- MqttClient.Client.Send: which messages went out before an error, beyond the state of each.
- Headers are laid out by an abstract write and read, of which the 64-bit layout is one; alignment of the buffer is the caller's duty.
- MqttCodec.PackPublish: a topic and a payload whose sizes add up to 2^32 or more, where the source's sum wraps.
- Transport.GetTopic: the host and the port in the topic, which the source's callers do not use.
- Transport.Transport.Command: the packets of `MqttCodec.OverrunExactly`, on which the source reads past the buffer.
- The network and event loop around `command`, and the packing of messages, which is a parameter.
- JsonParse.Parse: texts that begin with `]`, on which the source reads through null; settings are zero, numbers are skipped but their values are not computed, and the size of a member list stays below 2^31.
- The turns of the parser's loop are functions, and its values a sequence in order of creation, rather than linked cells.
- XmlIo.Feed: the tree under construction is a stack of open elements rather than linked nodes; the tag table is a parameter; entities, URL escapes and names that begin with `?` are not followed.
- Notify.Notify.Update: maps are Dafny maps and sequences of addresses, up to what `url_compare` does not tell apart, rather than objects that refer to each other; addresses with a missing URL, which compare equal to all, are left out, as is the text of the SIP message.
- Notify.Notify.Delete: asks for mirrored links, since with a shared address the source would follow references to freed objects.
- The file `src/notify.c` is not part of the build (`src/CMakeLists.txt:30`); its algorithm is modelled all the same.
- Md5.DigestOf: pieces of 2^31 - 64 bytes or more, as for one append.
- Md5.State.Append: the compression of one block is any function; an append is shorter than 2^31 - 64 bytes, beyond which the source's sum of ints overflows.
- Base64.DecodeInto: what an erroneous text has left in the buffer.
- Sockets, TLS, SIP transactions, DNS, command sessions and start-up.
