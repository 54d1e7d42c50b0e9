# A Dafny model of the packet tracker, the RPC servers and their helpers

The project models seven pieces of the repository and proves what they do on every input or in every run.

* **The DNS message parser** (`src/capture_packet/src/dns.c`): one label walker with its two callbacks, the
  wire-length calculator, the in-place rewriting of a wire name into dotted text, and the parser that fills a
  `DNSContext`. Names, questions and records follow RFC 1035, sections 2.3.4, 3.1, 3.2.1 and 4.1.
  `DnsName.dfy`, `DnsWalk.dfy`, `DnsPointer.dfy`, `DnsPacket.dfy`, `DnsContext.dfy`; what the tracker below learns
  from a message is in `DnsTracking.dfy`, and a lookup from end to end in `DnsLookups.dfy`.
* **The tail and circular queues** (`src/capture_packet/inc/util-queue.h`) as heap cells, with the head/entry
  punning of `TAILQ_LAST` and `TAILQ_PREV` as field reads. The tail queue is the one the `DNSContext` uses.
  `TailQueue.dfy`, `CircleQueue.dfy`.
* **The request tracker** (`src/capture_packet/src/capture_network_packet.cxx`): the tables behind
  `handle_packet`, and whole-run theorems about conservation, order, causes, ages and every notification. `Tracker.dfy`,
  `TrackerRuns.dfy`; the URL assembly is in `HttpUrl.dfy`.
* **The RPC server** (`src_refactoring/rpcsrv/implements.cxx`) with its task table and asset string, and **the
  older one** (`src_refactoring/rpcsrvorigin/implements.cxx`) with its 16-bit keys. `RpcServer.dfy`,
  `Assets.dfy`, `RpcOrigin.dfy`.
* **The module configuration loader** (`src/main_daemon/daemon_module_config.cxx`): the counting and the filling
  pass over parser events. `ModuleConfig.dfy`.
* **The retrying I/O loops** (`src/common/libuuid-1.0.3/all-io.h`) against an arbitrary kernel. `AllIo.dfy`.

`Splitting.dfy` (joining and cutting at a separator, C strings) serves names, texts and the asset string.

Code that changes state is a class or a method over arrays; each such method is proved to compute a function, and
the theorems are about that function. 8- and 16-bit arithmetic is written out (`Cut`, `Wrap`, `Increased`).
Undefined behaviour of the C code is an explicit outcome, never a precondition on the data: a read or write outside the
memory it was given, a read through a null or stray pointer, a negative copy length, a copy over the end of a buffer.
Methods report it (`faulted`, `Unreadable...`, `NegativeLength`), and a run of the tracker or of the RPC server ends with
it (`Trackers.Faults`, `RpcServers.Overruns`). What the caller owes is memory as long as it says: a message of `len`
octets has them, and six octets behind a TCP payload can be read.

Environment: a packet, a callback, a parser event or a system-call result is an input; a notification or a message is
an appended trace entry. The traversal order of the unordered map is an input too (`order`). Each RPC callback is one
atomic step. Allocation succeeds.

## Where the code and its purpose part

* `calculate_name_length` takes an 8-bit offset: below message offset 256 it is exact (`NameLengthIsExact`), and from
  there on it measures the name at the offset modulo 256 (`NameLengthIsTakenModulo256`, `NameLengthWraps`). It measures
  a name as nothing exactly when its first octet is 64 to 191, or when 254 octets of labels and a pointer bring the
  8-bit sum back to zero (`MeasuredAsNothing`).
* The query loop restarts at offset 0 on every turn; it records the question section exactly when all questions mean
  the same (`QueriesAddedExactly`).
* The NUL scan over a question lands right exactly when no label holds a NUL and a root question has a type below 256
  (`SkipQuestionExactly`).
* A well-formed record is recorded exactly when it is of an accepted kind, its canonical name stays in its field, 16
  octets of payload follow its start, and the name measured in its place has its owner's length (`RecordIsRead`).
* Rewriting received octets is sure to stay in the 256-octet name field exactly if there are at most 192 of them
  (`AnyOctetsStay`, `LeadingOutFaults`); longer data stays if it holds no pointer octet, or is a name that does not stray
  (`SafeOctetsStay`). A name strays only if it has 255 octets and ends in a pointer with low octet one, to which the
  field's own octets lead (`FieldFaults`, `MeasuredFaults`, `StrayNames`, `StrayNamesExist`). The walk always ends and
  stays below index 512 (`RewriteReach`, met by `RewriteReachIsTight`).
* Recorded answers lie inside the payload for every message exactly if the payload is at most 65286 octets long; with
  every longer one the 16-bit offset can wrap, if the octets behind the payload take part (`ShortPayloadsExactly`,
  `LongPayloadWraps`).
* Two names, the root included, share their text exactly when they have the same pieces between dots up to the first
  NUL (`SharedText`); so distinct names with NULs or dots can share a key (`DifferentNamesShareText`), and distinct names
  without cannot (`NamesDetermined`).
* The rewriting zeroes a pointer before its high bits are read, so compression is not resolved: a compressed name gets
  its own labels, with what at most two chases of pointers inside the name field have zeroed or dotted
  (`CompressedText`). It keeps them exactly when the pointer's low octet lands harmlessly (`TextOfCompressedName`,
  `CompressedNameLosesDigit`).
* A reply whose first name is measured as nothing queues its answers with a null queryer, which the tracker then reads
  through if four octets of data are kept of one (`NullQueryerExactly`, `FaultingReplyFaults`).
* A request without a whole "Host: " in the payload, or whose first line has fewer than 13 octets, makes a copy length
  negative; no other does (`NegativeLengthExactly`, `NoHostFaults`).
* A URL is host and path exactly for GET; a POST URL has one octet more (`UrlIsExactForGet`).
* A scan text of 4096 octets or more runs over the buffer it is copied to; one of 4095 is forwarded
  (`LongTextOverruns`).
* A text posted by the older server goes astray exactly when another connect or close used the same 16-bit key last
  (`PostReaches`, `SharedKeyGoesAstray`).
* The two configuration passes agree exactly when the parser delivers each argument's text as one non-empty chunk of
  less than 256 octets; one of exactly 256 fills its slot and is not terminated (`PassesAgreeExactly`).
* The path of a module is the value of whatever attribute follows the last name attribute (`LastNameDecides`). Loading a
  document faults exactly when a start tag below its modules tag ends with a name attribute, or a text that gets a slot
  is longer than 256 octets (`DocumentFaults`).
* Replacing ends exactly if the replacement holds none of the characters looked for, or the text holds none
  (`StringReplace`, `PassesForever`).
* A response reports its own direction, so its stored connection is the reverse (`KeyOf`).

## Model

| member | source | states |
|---|---|---|
| TailQueues.LinkedDetermines | src/capture_packet/inc/util-queue.h:315-328 | a head cannot carry two different element sequences: the heap determines the queue |
| TailQueues.LinkedIsDistinct | src/capture_packet/inc/util-queue.h:315-328 | no element is in a queue twice |
| TailQueues.TailQueue.constructor | src/capture_packet/inc/util-queue.h:363-366 | initialisation gives the empty sequence |
| TailQueues.TailQueue.InsertHead | src/capture_packet/inc/util-queue.h:368-376 | prepends the element and keeps every back pointer addressing the link that points at its element |
| TailQueues.TailQueue.InsertTail | src/capture_packet/inc/util-queue.h:378-383 | appends the element, same invariant |
| TailQueues.TailQueue.InsertAfter | src/capture_packet/inc/util-queue.h:385-393 | inserts behind position k, same invariant |
| TailQueues.TailQueue.InsertBefore | src/capture_packet/inc/util-queue.h:395-400 | inserts in front of position k, same invariant |
| TailQueues.TailQueue.Remove | src/capture_packet/inc/util-queue.h:402-411 | takes out position k, same invariant |
| TailQueues.TailQueue.Replace | src/capture_packet/inc/util-queue.h:413-423 | exchanges position k, same invariant |
| TailQueues.TailQueue.Last | src/capture_packet/inc/util-queue.h:336-337 | the punned read yields the true last element, or NULL when empty |
| TailQueues.TailQueue.Prev | src/capture_packet/inc/util-queue.h:339-340 | the punned read yields the true previous element, or NULL for the first |
| TailQueues.TailQueue.Forward | src/capture_packet/inc/util-queue.h:344-347 | the traversal visits exactly the sequence |
| TailQueues.TailQueue.Backward | src/capture_packet/inc/util-queue.h:355-358 | the reverse traversal visits exactly the reversed sequence |
| TailQueues.TailQueue.Clear | src/capture_packet/src/dns.c:524-537 | the safe traversal removes and frees each element once, in order, and leaves the queue empty |
| CircleQueues.CircleQueue.constructor | src/capture_packet/inc/util-queue.h:467-470 | the empty ring is the head alone |
| CircleQueues.CircleQueue.InsertAfter | src/capture_packet/inc/util-queue.h:472-480 | inserts behind ring position k and keeps the ring doubly linked through the head |
| CircleQueues.CircleQueue.InsertBefore | src/capture_packet/inc/util-queue.h:482-490 | inserts in front of ring position k, ring kept |
| CircleQueues.CircleQueue.InsertHead | src/capture_packet/inc/util-queue.h:492-500 | inserts as first element, ring kept |
| CircleQueues.CircleQueue.InsertTail | src/capture_packet/inc/util-queue.h:502-510 | inserts as last element, ring kept |
| CircleQueues.CircleQueue.Remove | src/capture_packet/inc/util-queue.h:512-525 | takes out ring position k, ring kept |
| CircleQueues.CircleQueue.Forward | src/capture_packet/inc/util-queue.h:454-457 | the traversal ends and visits exactly the elements |
| CircleQueues.CircleQueue.Backward | src/capture_packet/inc/util-queue.h:459-462 | the reverse traversal ends and is the reverse of the forward one |
| DnsNames.NamesDetermined | src/capture_packet/src/dns.c:223-261 | names whose labels hold neither dot nor NUL have the same text, as a C string, if and only if they are the same name |
| DnsNames.SharedText | src/capture_packet/src/dns.c:223-261 | any two names, the root included, share their text if and only if their labels have the same pieces between dots up to the first NUL |
| DnsNames.DifferentNamesShareText | src/capture_packet/src/dns.c:223-261 | two names that differ only behind a NUL have one text |
| DnsWalks.AccumulateLabelLength | src/capture_packet/src/dns.c:106-131 | the callback adds a label or a pointer to the 8-bit accumulator, with its wrap-around |
| DnsWalks.ReplaceLabelLengthOctet | src/capture_packet/src/dns.c:199-221 | the callback zeroes a pointer octet and replaces a length octet, and touches nothing else |
| DnsWalks.TurnProgress | src/capture_packet/src/dns.c:37-90 | a turn that goes on has raised the label total, or lowered the number of octets that look like pointers |
| DnsWalks.ParseDnsLabels | src/capture_packet/src/dns.c:23-104 | the loop ends on every memory content and computes the walk: verdict, memory and callback parameter, or that it leaves the memory |
| DnsWalks.BadOctetStops | src/capture_packet/src/dns.c:45-51 | an octet of 64 to 191 ends either walk with the verdict false, memory and parameter as they were |
| DnsWalks.LongLabelStops | src/capture_packet/src/dns.c:52-58 | a label that takes the total over 255 or over the packet length ends it with the verdict false, after the callback has seen it |
| DnsWalks.EndStops | src/capture_packet/src/dns.c:59-71 | the verdict is true at a root octet in range, and for the measuring walk at a pointer |
| DnsWalks.RewriteReach | src/capture_packet/src/dns.c:37-90 | started at 0 the rewriting walk touches no octet past index 511, whatever the memory holds |
| DnsWalks.RewriteReachIsTight | src/capture_packet/src/dns.c:37-90 | the bound is met: with 511 octets of memory some content makes it leave |
| DnsWalks.AccumulatorIsTotal | src/capture_packet/src/dns.c:106-131 | while it counts, the 8-bit accumulator equals the walker's running total |
| DnsWalks.MeasuredIsWireLength | src/capture_packet/src/dns.c:133-140 | a name ended by the root octet or a pointer, of wire size at most 255 and inside the packet, is measured exactly |
| DnsWalks.CalculateNameLength | src/capture_packet/src/dns.c:133-140 | the accumulator of the measuring walk, whatever its verdict, and the packet unchanged; or that it leaves the memory |
| DnsWalks.NameTransFormat | src/capture_packet/src/dns.c:223-245 | the buffer becomes the rewritten memory shifted down by one octet and ended by NUL; or the rewriting leaves it |
| DnsWalks.TextOfName | src/capture_packet/src/dns.c:223-261 | an uncompressed name becomes its labels joined by dots, cut at the first NUL; the walk stays in the name field |
| DnsWalks.TextOfCleanName | src/capture_packet/src/dns.c:223-261 | with NUL-free labels it is all of them joined by dots, two octets shorter than the wire form (empty for the root) |
| DnsPointers.PointerIsFollowed | src/capture_packet/src/dns.c:74-80 | behind the labels the rewriting walk goes to the place in the field that the low octet names; the high bits are gone |
| DnsPointers.MeasuredHasShape | src/capture_packet/src/dns.c:106-140 | whatever the octets, what is measured is labels ended by a root octet, a pointer or nothing, or a single length octet |
| DnsPointers.MeasuredAsNothing | src/capture_packet/src/dns.c:106-140 | the measured length is zero if and only if the first octet is 64 to 191, or 254 octets of labels precede a pointer |
| DnsPointers.FieldFaults | src/capture_packet/src/dns.c:223-261 | rewriting labels ended by a root octet, a pointer or nothing leaves the 256-octet field if and only if the name strays |
| DnsPointers.MeasuredFaults | src/capture_packet/src/dns.c:247-261 | the same for anything that calculate_name_length measures |
| DnsPointers.StrayNames | src/capture_packet/src/dns.c:74-80 | only a name of 255 octets whose last octet is one and whose first label starts with a pointer octet can stray |
| DnsPointers.StrayNamesExist | src/capture_packet/src/dns.c:74-80 | one with labels of 63, 63, 63 and 60 octets does |
| DnsPointers.AnyOctetsStay | src/capture_packet/src/dns.c:289-292 | rewriting stays in the 256-octet field for all data of n octets if and only if n is at most 192 |
| DnsPointers.LeadingOutFaults | src/capture_packet/src/dns.c:289-292 | for each longer length three octets lead out of it |
| DnsPointers.SafeOctetsStay | src/capture_packet/src/dns.c:289-292 | data of at most 192 octets, data without a pointer octet and names that do not stray stay in the field |
| DnsPointers.TextIsKept | src/capture_packet/src/dns.c:199-245 | a compressed name whose pointer lands harmlessly gets the text of its own labels |
| DnsPointers.SettlementIsReached | src/capture_packet/src/dns.c:199-245 | the walk behind a pointer chases pointers in the field to an octet that is none and marks it, and once more if that was a one |
| DnsPointers.CompressedText | src/capture_packet/src/dns.c:199-245 | the text of every compressed name: its labels as that has left them, up to the first NUL |
| DnsPointers.TextOfCompressedName | src/capture_packet/src/dns.c:199-245 | nothing is ever added to the labels; they are kept if and only if the pointer lands harmlessly, and on an octet of 2 to 63 it puts a dot there |
| DnsPointers.CompressedNameLosesDigit | src/capture_packet/src/dns.c:199-245 | "abcdefghijk9m" before C0 0C becomes "abcdefghijk.m" |
| DnsPointers.TextOfBarePointer | src/capture_packet/src/dns.c:199-245 | a bare pointer gets its own low octet for its text |
| DnsPackets.NameLengthIsExact | src/capture_packet/src/dns.c:321-322 | below message offset 256 the parser measures the name that stands at the offset |
| DnsPackets.NameLengthIsTakenModulo256 | src/capture_packet/src/dns.c:386-387 | at every offset the name that is measured is the one at the message offset modulo 256 |
| DnsPackets.NameLengthWraps | src/capture_packet/src/dns.c:386-387 | at every message offset that is a multiple of 256, with a zero first octet of the message, any name is taken for one octet |
| DnsPackets.FirstQuestionIsRead | src/capture_packet/src/dns.c:316-338 | a well-formed first question is read back: its dotted text, its type and its class |
| DnsPackets.NoNameExactly | src/capture_packet/src/dns.c:321-329 | no first name is found if and only if the payload starts with an octet of 64 to 191, or with 254 octets of labels and a pointer |
| DnsPackets.FirstQuestionFaults | src/capture_packet/src/dns.c:321-338 | with its octets there, reading the first question fails if and only if its name strays from the field |
| DnsPackets.TextsDistinguishNames | src/capture_packet/src/dns.c:247-265 | two questions are kept with the same text if and only if their names have the same pieces up to the first NUL; for clean names, if and only if these are equal |
| DnsPackets.SkipQuestionExactly | src/capture_packet/src/dns.c:364-373 | over one question the NUL scan lands where the label walk plus four octets lands, if and only if the question is scan-safe |
| DnsPackets.SkipQuestionsExactly | src/capture_packet/src/dns.c:361-376 | any number of scan-safe questions is skipped exactly |
| DnsPackets.AnswersAreSound | src/capture_packet/src/dns.c:379-422 | recorded answers lie wholly inside the payload, do not overlap, and are at most min(num_answers, payloadLen/13) |
| DnsPackets.LongPayloadWraps | src/capture_packet/src/dns.c:395-409 | with every payload over 65286 octets the offset can wrap, the octets behind the payload taking part: an answer is recorded whose data lie in front of its name |
| DnsPackets.ShortPayloadsExactly | src/capture_packet/src/dns.c:379-422 | every answer found in any message lies inside the payload if and only if the payload is at most 65286 octets long |
| DnsPackets.NetworkByteOrder | src/capture_packet/src/dns.c:181-197 | the 16- and 32-bit readers take the first octet for the highest |
| DnsPackets.AnswerStops | src/capture_packet/src/dns.c:381-393 | the answer loop returns 0 where fewer than 16 octets are left, and 1 where the name starts with an octet of 64 to 191 |
| DnsPackets.RecordIsRead | src/capture_packet/src/dns.c:381-421 | a well-formed record anywhere is recorded with its own fields if and only if it is accepted, its alias stays in its field, 16 octets follow its start and the measured name has its owner's length; below message offset 256 every outcome is given |
| DnsPackets.AnswersAreRead | src/capture_packet/src/dns.c:379-422 | an answer section is read back record for record if and only if each record is taken at its place |
| DnsPackets.AliasIsSafe | src/capture_packet/src/dns.c:286-292 | rewriting a well-formed canonical name, compressed or not, stays in its field if and only if it does not stray; below 255 octets it never does |
| DnsPackets.PlainAliasIsSafe | src/capture_packet/src/dns.c:286-292 | canonical names of at most 192 kept octets, without a pointer octet, or that are names and do not stray, stay in their field |
| DnsPackets.LongAliasFaults | src/capture_packet/src/dns.c:286-292 | for each length from 193 on, one canonical name does not |
| DnsPackets.RecordsInReach | src/capture_packet/src/dns.c:379-422 | accepted records with such canonical names that start below message offset 256 are all taken |
| DnsContexts.QueriesAddedExactly | src/capture_packet/src/dns.c:314-338 | n questions give n copies of the first; this is the question section if and only if all mean the same |
| DnsContexts.ReplyIsRead | src/capture_packet/src/dns.c:346-425 | a reply of scan-safe questions and any records yields exactly its records, in order and in place, if and only if each is taken |
| DnsContexts.UsualReplyIsRead | src/capture_packet/src/dns.c:346-425 | accepted records with such canonical names in the first 256 octets of the message are always found |
| DnsContexts.RecordDataIsKept | src/capture_packet/src/dns.c:282-296 | the kept data are the address's octets, or the text of the canonical name: its labels up to the first NUL if it is uncompressed or its pointer lands harmlessly |
| DnsContexts.DnsContext.constructor | src/capture_packet/src/dns.c:510-522 | a new context has empty queues and zero counters |
| DnsContexts.ReadHeader | src/capture_packet/src/dns.c:429-441 | each header field is its two octets, the first the higher |
| DnsContexts.ParsedExactly | src/capture_packet/src/dns.c:302-360 | a message is a query if its third octet is below 128; questions are parsed if there are 1 to 16, a reply only if one of its three record counts is 1 to 16 too |
| DnsContexts.FieldTextOf | src/capture_packet/src/dns.c:255-261 | copying into the zeroed field, rewriting and strlen give the field's text, or the rewriting leaves the field |
| DnsContexts.DnsContext.AddQuery | src/capture_packet/src/dns.c:247-265 | appends one query with the text of the copied name, unless rewriting that leaves its field |
| DnsContexts.DnsContext.AddResponse | src/capture_packet/src/dns.c:267-300 | appends one response with its data and the first query, and adds one, modulo 65536, to the address counter for an address and to the other for a canonical name; unless keeping the data leaves the memory |
| DnsContexts.DnsContext.ProDnsQueryParse | src/capture_packet/src/dns.c:302-344 | appends the queries the message adds and counts them; says when reading the first question leaves the memory |
| DnsContexts.DnsContext.ProDnsResponseParse | src/capture_packet/src/dns.c:346-425 | appends the queries and exactly the responses of the recorded answers, and adds their numbers to the three counters (ParseReply says what these are for records); nothing for a bad header; faults exactly if the reply is not readable |
| DnsContexts.SkipQuestionSection | src/capture_packet/src/dns.c:361-376 | the nested loops compute the skipped position, or leave the memory |
| DnsContexts.ReadAnswer | src/capture_packet/src/dns.c:381-418 | the loop body finds, stops or leaves the memory as specified |
| DnsContexts.DnsContext.ProDnsParse | src/capture_packet/src/dns.c:427-467 | on every message: short ones are refused; the flag bit selects query or reply parsing; queues, counters and header are given in each case, for records by ParseReply; faults exactly if the message is not readable |
| DnsContexts.DnsContext.Clear | src/capture_packet/src/dns.c:524-537 | both queues end empty; header and counters keep their values |
| DnsTracking.ParseMessage | src/capture_packet/src/capture_network_packet.cxx:820-829 | for every message a fresh context shows the tracker what the octets say - names octet by octet, data lengths, addresses, null queryers where there is no first name -, unless parsing faults |
| DnsTracking.AddressIsInOrder | src/capture_packet/src/capture_network_packet.cxx:789-790 | the notified address is the four octets of the data, the first the highest |
| DnsTracking.RecordsKeep | src/capture_packet/src/dns.c:267-300 | every record that is read back is queued with its own type, class and time to live, and keeps the four octets of an address, the text of a canonical name of more than four, or nothing |
| DnsTracking.RecordsAreCounted | src/capture_packet/src/dns.c:282-296 | what the counters count among records: those of type 1 with four octets of data, and those of type 5 with more than four |
| DnsTracking.NullQueryerExactly | src/capture_packet/src/capture_network_packet.cxx:763-773 | a message makes the tracker read through a null queryer if and only if it is a good reply from port 53 whose first name is measured as nothing and of one of whose answers four octets are kept |
| DnsTracking.NullQueryerOfRecords | src/capture_packet/src/capture_network_packet.cxx:763-773 | for a good reply whose answers stand in it as records: exactly if its first name is measured as nothing and a record is an address, or a canonical name with a text of four octets |
| DnsTracking.FaultingReplyFaults | src/capture_packet/src/capture_network_packet.cxx:773 | a reply of 33 octets does, for each first octet from 64 to 191 |
| DnsLookups.QueryIsLearnt | src/capture_packet/src/capture_network_packet.cxx:831-860 | from a well-formed query the tracker learns the text of the name it asks about, once for each question, and nothing else |
| DnsLookups.KeysTellNames | src/capture_packet/src/capture_network_packet.cxx:831-841 | the keys under which two queries are remembered are equal if and only if their names have the same pieces up to the first NUL; for clean names, if and only if these are equal |
| DnsLookups.ParseReply | src/capture_packet/src/dns.c:346-425 | for a reply that carries records, on the fields: query_num grows by its questions, response_addr_num by the records of type 1 with four octets, response_domain_num by those of type 5 with more than four, modulo 65536; each record is queued in order with its fields, its data and the first query |
| DnsLookups.ReplyIsLearnt | src/capture_packet/src/capture_network_packet.cxx:763-773 | from a well-formed reply it learns that text, and the address in the first record that keeps four octets |
| DnsLookups.LookupIsNotified | src/capture_packet/src/capture_network_packet.cxx:763-811 | a query and, within 15 seconds, a reply with an address: exactly one DNS notification with the name, the address and the time of the latest question |
| DnsLookups.LookupOfA | src/capture_packet/src/dns.c:302-467 | a query of 19 octets and a reply of 35, written out, are such messages |
| DnsLookups.LookupOfAIsNotified | src/capture_packet/src/capture_network_packet.cxx:763-841 | from these octets, a second apart, comes exactly the notification that "a" is at 127.0.0.1, with the time of the query |
| DnsLookups.ParseReplyForA | src/capture_packet/src/dns.c:346-467 | parsing that reply leaves the counters 1, 1 and 0 and one response of type 1 with the octets 127, 0, 0, 1 |
| Trackers.Tracker.SweepList | src/capture_packet/src/capture_network_packet.cxx:700-730 | erasing while iterating keeps the young requests and notifies the others in order |
| Trackers.Tracker.SweepPending | src/capture_packet/src/capture_network_packet.cxx:697-740 | each connection is swept once, in some traversal order, and dropped when its list is empty |
| Trackers.Tracker.SweepNames | src/capture_packet/src/capture_network_packet.cxx:684-695 | exactly the names at least 15 seconds old are erased |
| Trackers.Tracker.CleanUpStoredRequest | src/capture_packet/src/capture_network_packet.cxx:676-744 | nothing happens within 30 seconds of the last clean-up, else both tables are swept |
| Trackers.Tracker.CheckDnsPacket | src/capture_packet/src/capture_network_packet.cxx:763-868 | a query is remembered; a response notifies for its first four-octet answer if the name is remembered; faults if parsing does, or if that answer has no name |
| Trackers.Tracker.AnswerRequests | src/capture_packet/src/capture_network_packet.cxx:1067-1109 | a response flushes the reversed connection's list in order and erases it |
| Trackers.Tracker.HandlePacket | src/capture_packet/src/capture_network_packet.cxx:870-1197 | one packet performs the specified step - what it sends is in PlainNoticesAreOwed, StepNotice and HandleAccount -, and is reported to fault exactly on the packets of FaultsExactly |
| TrackerRuns.CleanUpAccount | src/capture_packet/src/capture_network_packet.cxx:697-740 | a clean-up moves exactly a connection's expired requests to its notified ones |
| TrackerRuns.HandleAccount | src/capture_packet/src/capture_network_packet.cxx:1040-1191 | a packet answers all that waits on the reversed connection, or stores at most one request |
| TrackerRuns.Conservation | src/capture_packet/src/capture_network_packet.cxx:1067-1108 | in every run, whatever the times, stored requests are notified ones plus pending ones, as multisets |
| TrackerRuns.NoEmptyList | src/capture_packet/src/capture_network_packet.cxx:732-739 | in every run no connection is kept with an empty list |
| TrackerRuns.GivesUpPrefix | src/capture_packet/src/capture_network_packet.cxx:702-730 | on a list in time order a clean-up removes a prefix |
| TrackerRuns.FirstInFirstOut | src/capture_packet/src/capture_network_packet.cxx:697-740 | with nondecreasing times, stored requests are the notified ones followed by the pending ones, as sequences |
| TrackerRuns.HttpNoticesAreJustified | src/capture_packet/src/capture_network_packet.cxx:706-717 | what a step of a run appends is justified by that step's packet: result 1 only at age 15 or more, result 0 only by a response on exactly the reported connection |
| TrackerRuns.EveryNoticeHasItsPacket | src/capture_packet/src/capture_network_packet.cxx:706-717 | in every run each notification was sent by one packet of the run, which justifies it |
| TrackerRuns.AgeBound | src/capture_packet/src/capture_network_packet.cxx:676-744 | with nondecreasing times, after any packet nothing pending or remembered is older than 43 seconds |
| TrackerRuns.AgeBoundIsTight | src/capture_packet/src/capture_network_packet.cxx:676-744 | a legal run reaches 43 seconds for a request and a name |
| TrackerRuns.NamesAreLatestQuestions | src/capture_packet/src/capture_network_packet.cxx:831-841 | a name is remembered exactly when its latest question was younger than 15 seconds at the last clean-up, with that question's time |
| TrackerRuns.StepNotice | src/capture_packet/src/capture_network_packet.cxx:763-811 | a DNS response about a remembered name causes exactly one DNS notification; no other packet causes any |
| TrackerRuns.DnsNoticesAreTimely | src/capture_packet/src/capture_network_packet.cxx:763-811 | it carries the time of the latest question, is sent if that is under 15 seconds old and withheld if over 43 |
| TrackerRuns.PlainNoticesAreOwed | src/capture_packet/src/capture_network_packet.cxx:1003-1117 | in every run the notifications about no stored request and no name are, in order, one NP_UDP for each UDP packet and one NP_TCP for each TCP packet that carries a DNS message not breaking off, or off port 53 neither request nor response |
| TrackerRuns.FaultsExactly | src/capture_packet/src/capture_network_packet.cxx:763-1180 | a packet faults if and only if it carries on port 53 a message that parsing does not get through, or from port 53 one whose first four-octet answer lacks its query, or off port 53 a request with a negative length |
| HttpUrls.GetDomainAndUrl | src/capture_packet/src/capture_network_packet.cxx:273-283 | the loop finds the first occurrence of the key, or the end |
| HttpUrls.AssembleUrl | src/capture_packet/src/capture_network_packet.cxx:1147-1180 | the reallocated buffer is filled exactly by host part, path part and one NUL; no buffer if a length is negative |
| HttpUrls.ClassifyPayload | src/capture_packet/src/capture_network_packet.cxx:1053-1182 | every TCP payload that is not DNS is classified as ClassifiedExactly, NegativeLengthExactly and UrlOfRequest say |
| HttpUrls.ClassifiedExactly | src/capture_packet/src/capture_network_packet.cxx:1053-1144 | a payload is a response if and only if it starts with "HTTP/", truncated if and only if it starts with "GET /" or "POST /" and no blank line starts inside it, and another payload if and only if it starts with none of the three |
| HttpUrls.NegativeLengthExactly | src/capture_packet/src/capture_network_packet.cxx:1152-1172 | a length is negative if and only if the request, with its header section complete, holds no whole "Host: " or has a first line under 13 octets |
| HttpUrls.NoHostFaults | src/capture_packet/src/capture_network_packet.cxx:1152 | "GET / HTTP/1.0" without a Host header is one, whatever follows it in memory |
| HttpUrls.UrlOfRequest | src/capture_packet/src/capture_network_packet.cxx:1053-1182 | for a plain request the URL is host and path, and for POST the blank behind the path as well |
| HttpUrls.UrlIsExactForGet | src/capture_packet/src/capture_network_packet.cxx:1172-1180 | the URL is exactly host and path if and only if the request is a GET |
| HttpUrls.UrlOfA | src/capture_packet/src/capture_network_packet.cxx:1053-1182 | "GET /a HTTP/1.1" to host b gives "b/a", and POST "b/a ", whatever follows the request in memory |
| Assets.StringReplace | src_refactoring/rpcsrv/implements.cxx:484-496 | from the left, each character of the first set takes as many characters as that has out, for the replacement; it ends if the replacement or the text holds none of the set |
| Assets.PassesForever | src_refactoring/rpcsrv/implements.cxx:486-494 | otherwise each pass leaves a character for the next one, so it never ends |
| Assets.ReplacedFromTheLeft | src_refactoring/rpcsrv/implements.cxx:484-496 | a text free of the set stays as it is; otherwise its first character of the set goes, with as many behind it as the set has, for the replacement |
| Assets.SingleCharacter | src_refactoring/rpcsrv/implements.cxx:513-514 | a single character is replaced wherever it stands and nothing else changes |
| Assets.StrippedUnique | src_refactoring/rpcsrv/implements.cxx:458-482 | a string has only one stripped form |
| Assets.StringStrip | src_refactoring/rpcsrv/implements.cxx:458-482 | the loop computes the stripped form |
| Assets.WhiteSpace | src_refactoring/rpcsrv/implements.cxx:458-482 | white space is the six characters of the C locale |
| Assets.CleanedExactly | src_refactoring/rpcsrv/implements.cxx:511-515 | a cleaned value is the one stripped form of the value with a blank for each : and ; |
| Assets.AssetString.AssetsAssemble | src_refactoring/rpcsrv/implements.cxx:511-520 | appends one name:value; pair with the cleaned value |
| Assets.AssetString.GetAssets | src_refactoring/rpcsrv/implements.cxx:522-530 | appends the six pairs |
| Assets.CleanedIsSeparatorFree | src_refactoring/rpcsrv/implements.cxx:511-515 | a cleaned value holds neither separator |
| Assets.DecodesExactly | src_refactoring/rpcsrv/implements.cxx:511-520 | for all values, cutting at ; and then at : gives back exactly the names and cleaned values |
| Assets.GatheredDecodes | src_refactoring/rpcsrv/implements.cxx:522-530 | for the six command outputs, whatever their characters, it gives back host, cpu, memory, baseboard, sound and video with the cleaned outputs, in this order |
| RpcServers.RpcServer.OnConnect | src_refactoring/rpcsrv/implements.cxx:212-218 | the connection is entered under its address |
| RpcServers.RpcServer.OnReceiveKVEngine | src_refactoring/rpcsrv/implements.cxx:161-210 | every request does what RequestExactly says |
| RpcServers.TakenExactly | src_refactoring/rpcsrv/implements.cxx:151-159 | a request is taken if and only if its checksum is right and its type lies strictly between 1234 and 1244 |
| RpcServers.RequestExactly | src_refactoring/rpcsrv/implements.cxx:161-210 | in every state: one that is not taken sends exactly the octet -1 back to its sender and changes nothing else; one that is taken is registered, and then 1239 sends nothing, 1238 the assets to its sender, and every other type exactly its notification to the other modules |
| RpcServers.RpcServer.OnDataRecv | src_refactoring/rpcsrv/implements.cxx:309-384 | 9528 forwards a scan and acknowledges, or overruns; 9527 makes the sender the main connection |
| RpcServers.StrCpy | src_refactoring/rpcsrv/implements.cxx:339-340 | copies a C string, or runs over the target exactly if the string has as many octets as that or more |
| RpcServers.LongTextOverruns | src_refactoring/rpcsrv/implements.cxx:339-340 | a scan text overruns if and only if it has 4096 octets or more; then nothing is sent, otherwise it is forwarded and acknowledged |
| RpcServers.PageOfTextOverruns | src_refactoring/rpcsrv/implements.cxx:339-340 | a text of 4096 letters does |
| RpcServers.OverrunsExactly | src_refactoring/rpcsrv/implements.cxx:339-340 | a message overruns if and only if it is a 9528 whose text has 4096 octets or more before its first NUL |
| RpcServers.RpcServer.OnCloseConnection | src_refactoring/rpcsrv/implements.cxx:233-293 | exactly the closed connection's tasks go; a closed main connection stops the scan |
| RpcServers.RpcServer.OnPostData | src_refactoring/rpcsrv/implements.cxx:386-400 | a post goes to the main connection or nowhere |
| RpcServers.RpcServer.FindTask | src_refactoring/rpcsrv/implements.cxx:402-415 | finds the task of the type with the least id |
| RpcServers.RpcServer.DoResponse | src_refactoring/rpcsrv/implements.cxx:417-456 | answers by id, else by type, inserting an empty entry for an unknown id |
| RpcServers.StepRefines | src_refactoring/rpcsrv/implements.cxx:417-456 | one callback does to the live tasks, and sends, what a server with pure lookups does |
| RpcServers.LookupsAreHarmless | src_refactoring/rpcsrv/implements.cxx:424 | in every run the inserted empty entries change no message |
| RpcServers.TableIsRegistry | src_refactoring/rpcsrv/implements.cxx:180-184 | in every run the table holds for each id its latest valid registration whose connection has not closed since |
| RpcServers.ReplyReachesRegistrant | src_refactoring/rpcsrv/implements.cxx:708-709 | a reply with nonzero id reaches that registrant and nobody else, and is dropped if there is none |
| RpcServers.NoticeReachesLeast | src_refactoring/rpcsrv/implements.cxx:728-729 | a notice reaches the least registered id of its type, or nobody |
| RpcServers.PostReachesMain | src_refactoring/rpcsrv/implements.cxx:386-400 | a post reaches the latest 9527 sender that has not closed since, or nobody |
| RpcServers.OutputExactly | src_refactoring/rpcsrv/implements.cxx:212-400 | in every run, what the callbacks other than requests send: a 9528 its scan, unless the text is missing or empty, and OKAY; closing the main connection the end of the scan; connecting, 9527, a post without text and a reply without id and type nothing |
| RpcServers.AssetsReply | src_refactoring/rpcsrv/implements.cxx:194-201 | every asset request is answered with a string that decodes to the six names with the cleaned outputs of the first one |
| RpcServers.SendsAreSafe | src_refactoring/rpcsrv/implements.cxx:233-456 | in every run, up to a fault, each message goes to a connection open at that moment |
| RpcOrigin.OriginServer.OnConnect | src_refactoring/rpcsrvorigin/implements.cxx:199-203 | enters the connection under its 16-bit key |
| RpcOrigin.OriginServer.OnClose | src_refactoring/rpcsrvorigin/implements.cxx:218-222 | clears the entry under the 16-bit key |
| RpcOrigin.OriginServer.PostData | src_refactoring/rpcsrvorigin/implements.cxx:290-306 | sends to the entry under the tag's key, if any |
| RpcOrigin.KeysShared | src_refactoring/rpcsrvorigin/implements.cxx:439 | two connections have one key if and only if their addresses differ by a multiple of 65536 |
| RpcOrigin.PostReaches | src_refactoring/rpcsrvorigin/implements.cxx:290-306 | a post only ever goes to an open connection, and to the tagged one if and only if the latest connect or close on its key was its own connect; without a text nothing is sent |
| RpcOrigin.UnsharedKeyIsReached | src_refactoring/rpcsrvorigin/implements.cxx:290-306 | an open connection whose key nobody else in the run shares is always reached |
| RpcOrigin.SharedKeyGoesAstray | src_refactoring/rpcsrvorigin/implements.cxx:439 | two open connections with the same low 16 bits: the post for one goes to the other |
| ModuleConfig.Loader.BaseInfoStart | src/main_daemon/daemon_module_config.cxx:86-111 | the start callback of the counting pass; reads past the list exactly if that ends with a name attribute |
| ModuleConfig.LastNameDecides | src/main_daemon/daemon_module_config.cxx:100-108 | the last name attribute gives the module its name, and the attribute behind it the path |
| ModuleConfig.ModuleIsNamed | src/main_daemon/daemon_module_config.cxx:86-111 | whatever the events: if the counting pass comes to its end, the last name attribute behind the first modules tag has given the module its name, and the attribute behind it the path; without one both are empty |
| ModuleConfig.Loader.BaseInfoEnd | src/main_daemon/daemon_module_config.cxx:113-127 | the end callback of the counting pass |
| ModuleConfig.Loader.ElementCb | src/main_daemon/daemon_module_config.cxx:156-166 | the text callback of the filling pass; runs over a slot exactly if a text that gets one is longer than 256 octets |
| ModuleConfig.Loader.LoadDmSetting | src/main_daemon/daemon_module_config.cxx:199-246 | both passes over the same events, with as many empty slots between them as were counted, or the fault that ends them |
| ModuleConfig.FillExactly | src/main_daemon/daemon_module_config.cxx:149-173 | on every event sequence slot i gets the i-th non-empty text at depth 3 until slots or texts run out |
| ModuleConfig.DocumentPass | src/main_daemon/daemon_module_config.cxx:86-173 | a document counts exactly its arguments, both passes return to depth 0, the texts at depth 3 are those of its arguments, and the counting pass faults exactly if a start tag below modules ends with a name attribute |
| ModuleConfig.DocumentFaults | src/main_daemon/daemon_module_config.cxx:86-166 | loading a document faults if and only if such a tag occurs or a text that gets a slot is longer than 256 octets |
| ModuleConfig.PassesAgreeExactly | src/main_daemon/daemon_module_config.cxx:86-173 | all arguments are stored, each in its own slot, if and only if each argument's text came as exactly one non-empty chunk of less than 256 octets |
| AllIo.CallBound | src/common/libuuid-1.0.3/all-io.h:57-79 | reading count octets takes at most 6 * count calls, whatever the kernel answers |
| AllIo.CallBoundIsTight | src/common/libuuid-1.0.3/all-io.h:57-79 | some kernel makes it take exactly that many, for every count |
| AllIo.LogEnds | src/common/libuuid-1.0.3/all-io.h:64-77 | the loop ends only with the buffer full, on an error other than EAGAIN and EINTR, or after six empty-handed calls in a row |
| AllIo.LogAsks | src/common/libuuid-1.0.3/all-io.h:64-77 | each call asks for exactly the room that the replies before it have left |
| AllIo.RetriedExactly | src/common/libuuid-1.0.3/all-io.h:66-68 | end of file, EAGAIN and EINTR are retried, and no other error is |
| AllIo.ReadAll | src/common/libuuid-1.0.3/all-io.h:57-79 | the buffer is what was delivered, in order, then zeros; -1 exactly when there was room and nothing came |
| AllIo.NothingDelivered | src/common/libuuid-1.0.3/all-io.h:70 | nothing came exactly when no call delivered |
| AllIo.WriteAll | src/common/libuuid-1.0.3/all-io.h:18-35 | what went out is a prefix of the buffer, and all of it exactly on success |
| AllIo.WrittenExactly | src/common/libuuid-1.0.3/all-io.h:18-35 | EAGAIN and EINTR only cost a call: the loop is done once all octets are accepted; another error ends it with the octets accepted before |

## Left out

- DnsWalks.ParseDnsLabels: the debug print of a failed name (src/capture_packet/src/dns.c:92-101) is not modelled.
- DnsPointers.SafeOctetsStay: canonical-name data of 193 octets and more that hold pointer octets and are no well-formed name may leave the field or not; no condition simpler than following them is given.
- DnsContexts.FieldTextOf: what a rewriting that leaves the field does to the memory behind it; the fault is the end of the model. The same holds for every other fault.
- DnsContexts.DnsContext.AddResponse: an address is kept as its four octets.
- Trackers.Tracker.HandlePacket: link, IP, TCP and UDP header decoding; packets come with decoded connections and payloads.
- Trackers.Tracker.CheckDnsPacket: takes any answer whose data length is 4 for an address, as the code does, also a canonical name of four characters.
- HttpUrls.AssembleUrl: states the buffer octet by octet; later readers of the URL stop at its first NUL, should host or path hold one.
- RpcServers.RpcServer.OnReceiveKVEngine: the checksum comparison is an input, and byte order of ids and types is taken as decoded.
- RpcServers.RpcServer.OnCloseConnection: the missing lock; callbacks do not interleave in the model.
- RpcOrigin.OriginServer.PostData: the older server's other messages, whose scan text is copied to the same 4096 octets (src_refactoring/rpcsrvorigin/implements.cxx:267-268).
- AllIo.WriteAll: does not end when every call fails with EAGAIN or EINTR, so the replies are a finite sequence and the outcome may be that it still retries; fwrite_all is the same loop over items.
- DNSContextFindQuery, debug_dns_ctx and ProIPParse: a linear search, a print and header casts.
- SLIST, LIST, SIMPLEQ and CIRCLEQ_REPLACE: easier copies of the same arguments, and a macro that does not compile.
- pcap, threads, sockets, the scheduler, expat itself, module loading, file I/O and allocation: environment.
- src/network, the kv_engine sources, the vendored headers and the build scripts: no logic that would add a harder property.
