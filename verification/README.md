# HAM-router: verified models of its protocol cores

HAM-router receives packets from radios and networks, drops duplicates, filters, forwards, and offers an SNMP
agent and a web view of its traffic. These Dafny modules model the parts of it that have a protocol or an
algorithm inside, and state what each of them promises over every input and every run.

| file | models |
|---|---|
| `OidText`, `OidOrder`, `SnmpData`, `OidRegistry` | the agent's mutable tree of object identifiers, GETNEXT and lookups |
| `OidCodec`, `SnmpElem`, `Snmp`, `SnmpExchange` | the BER encoder with eight-bit sizes, the request decoder, replies, whole exchanges |
| `SnmpManager` | the other side of an exchange: a manager's reader of the bytes of a reply, independent of the agent |
| `WorkQueue` | the two-queue hand-over between receiver threads and the main loop, over all interleavings |
| `Kiss` | KISS framing: escape encoder, byte-at-a-time decoder, resynchronisation |
| `ShiftRegister`, `CrcPpp`, `Crc32` | the bit-serial CRC register and the two table-driven checksums |
| `Filter`, `FilterEnding` | the message filter's scanner and evaluator against the expressions it is given, and when it ends |
| `RateLimiter`, `Seen` | the token bucket, and one bucket per packet hash with eviction |
| `Websockets` | the bounded history and each client's cursor |
| `Base64`, `Ax25` | the base64 codec and the AX.25 address and packet codec |
| `Wrappers`, `Bytes` | optional values, and bytes as numbers |

Objects whose methods change their fields are classes whose methods are proved against functions of the old state;
the lemmas then say what those functions mean. A thread's critical section is one atomic step. Bytes are numbers
below 256, except in the checksum modules, where they are bit vectors. Where a property that one would expect turns
out not to hold, a lemma states the exact condition under which it does:

- a leaf's GETNEXT is empty at the end of its own top-level tree, even if another top-level tree follows
  (`KnownNameExact`); an unknown name gets the first leaf below its longest known part (`UnknownNameExact`), and one
  with an unknown first component the first leaf below whatever was registered first (`UnknownRootExact`), because
  top-level nodes all keep index zero and stay in order of registration;
- identifiers survive encoding and decoding only below 1.3 and with components below 2^31 (`OidRoundTrip`), and only
  those below 1.3 are written as the standard has it (`StandardIdentifierExactly`);
- numbers are written without a sign byte, so a manager that reads them as two's complement gets some of them wrong
  (`SignedExactly` says which);
- one-byte lengths are those of X.690 only for contents shorter than 128 bytes (`StandardExactly`), and eight-bit sizes
  wrap above 253 bytes (`SizeDoesNotWrap`);
- the KISS encoder's buffer is one byte short when the type byte and every payload byte need an escape (`EncodedSize`),
  and the first frame after noise is lost exactly when the noise ends in an escape with a partial frame before it
  (`FirstFrameSurvives`);
- the value of a binding changes nothing in a request (`VarBindDecoded`), unless it is an identifier, which is taken for
  one more name (`NameAsValueIsAsked`), or a nested sequence, whose integer is taken for the version
  (`NestedValueChangesVersion`);
- evaluating a filter need not end: it never does exactly when the scan is sent back twice, or meets a group of which
  this is true (`NeverEndsExactly`, for every text). With all fields found that is so for an expression that ends in a
  comparison with an unclosed quote (`OpenQuoteNeverEnds`), and for one whose first term has no space in its text and
  that ends in a term without `=` and `!=` (`BareWordNeverEnds`);
- an eviction pass removes the limiters used last: the one newest packet is forgotten exactly when anything is
  (`NewestIsForgotten`);
- with a clock that does not go backwards, a call misses a websocket record that came before it, and then for good,
  exactly when 250 newer ones came before the call as well, or another call came between the record and an earlier one of the same microsecond (`ClientMissesExactly`, `NeverSentAfterwards`);
- an AX.25 payload of one byte is dropped, the string constructor always stores SSID 1, the control byte is not kept,
  and a bad destination address is not rejected because assignment marks it valid (`UFrameRoundTrip`,
  `CallsignRoundTrip`, `RewritingNeedsBoth`, `DestinationIsNotChecked`).

## Model

| member | source | states |
|---|---|---|
| OidText.SplitAtDots | str.cpp:50-78 | splitting at dots, with an empty part kept behind a final dot and nothing for the empty text |
| OidText.SplitLossless | str.cpp:50-78 | for every text, joining the parts with dots gives the text back |
| OidText.SplitJoin | str.cpp:50-78 | splitting a path's text gives exactly its components' decimals |
| OidText.AtoiOfDigits | snmp-data.cpp:36-43 | reading a canonical decimal in front of a non-digit gives the number back |
| SnmpData.Node.SetTreeData | snmp-data.cpp:36-43 | the node takes the name, and as index the number behind the last dot; without a dot the index stays |
| SnmpData.SnmpData.FindSlot | snmp-data.cpp:153-162 | the slot in front of the first greater index |
| SnmpData.SnmpData.LocateSlot | snmp-data.cpp:151-162 | the slot keeps the list sorted; at the top level it is always the last |
| SnmpData.SnmpData.Attach | snmp-data.cpp:155-162 | the node enters one vector at its slot and no other vector changes |
| SnmpData.SnmpData.Insert | snmp-data.cpp:147-165 | the tree's invariant (lists sorted and complete, each node named by its parent's name and its own index) survives; exactly one node is added; top-level names are appended |
| SnmpData.SnmpData.InsertChild | snmp-data.cpp:148-162 | the node is labelled and inserted |
| SnmpData.SnmpData.RegisterLevel | snmp-data.cpp:145-168 | a missing node is made, with the value at the last level only; an existing one is followed and nothing changes |
| SnmpData.SnmpData.RegisterOid | snmp-data.cpp:127-170 | the tree keeps its invariant and its map becomes the old one with the missing prefixes without data and the name with its value; existing nodes keep theirs |
| SnmpData.SnmpData.FindOidInVector | snmp-data.cpp:9-19 | an index of a node with that name, or -1 and there is none |
| SnmpData.SnmpData.FindChild | snmp-data.cpp:192-201 | the child whose canonical name the next part is, or none |
| SnmpData.SnmpData.FindByOid | snmp-data.cpp:182-210 | for every text: the value of the node its parts lead to, or nothing if a part cannot be followed |
| SnmpData.SnmpData.FindNextOid | snmp-data.cpp:212-281 | for every text: the first leaf below its longest known part (below the first registered top-level node if nothing is known), or, if that leaf has the name itself, the least leaf above it in its top-level tree, or the empty text |
| SnmpData.SnmpData.FollowName | snmp-data.cpp:225-240 | the name is followed as far as it goes, and the branch records the position taken at every level |
| SnmpData.SnmpData.FollowFirst | snmp-data.cpp:242-248 | first children are taken down to the first leaf, and the branch with them |
| SnmpData.SnmpData.DescendFirst | snmp-data.cpp:270-276 | from a node to the first leaf below it |
| SnmpData.SnmpData.Climb | snmp-data.cpp:253-280 | from a leaf's branch: the successor in the leaf's top-level tree, or nothing if all its leaves have been passed; the branch is at its first entry when the top is reached |
| OidRegistry.LookupIsMap | snmp-data.cpp:182-210 | for every canonical name the lookup answers as the map from names to registered values |
| OidRegistry.AnswerUnique | snmp-data.cpp:212-281 | the contract of the search determines its answer |
| OidRegistry.AnswerExists | snmp-data.cpp:212-281 | every name in the tree has an answer |
| OidRegistry.KnownNameExact | snmp-data.cpp:250-280 | for a name in the tree the answer is the lexicographic successor of RFC 1157 if and only if its top-level tree has a later leaf or is the last one |
| OidRegistry.KnownNameCorrect | snmp-data.cpp:212-281 | if all names share their first component, the answer for every name in the tree is the least leaf above it, or empty if there is none |
| OidRegistry.UnknownNameExact | snmp-data.cpp:233-251 | for a name not in the tree the answer is the successor if and only if the longest known part has children and all of them come after the name |
| OidRegistry.UnknownRootExact | snmp-data.cpp:36-43 | for a name with an unknown first component the answer is the successor if and only if the first registered top-level name is the next one after it |
| OidRegistry.WalkVisits | snmp-data.cpp:212-281 | in any tree, every walk of GETNEXTs visits leaves in strictly ascending order, takes at most one request per node and one more, and when it has stopped has visited every leaf above its start in the start's top-level tree exactly once |
| OidRegistry.FinishedWalk | snmp-data.cpp:212-281 | from every name in the tree there is a walk that stops |
| OidRegistry.WalkReportsRegistrations | snmp-data.cpp:127-281 | over any registrations without proper prefixes, from every name in the tree there is a walk that stops, and it reports exactly the registered names above it that share its first component, each once |
| OidRegistry.NodesArePrefixes | snmp-data.cpp:127-170 | after any sequence of registrations the nodes are exactly the prefixes of registered names |
| OidRegistry.LeavesAreOutermost | snmp-data.cpp:127-170 | the leaves are exactly the registered names below which no other is registered |
| OidRegistry.LeavesAreRegistered | snmp-data.cpp:127-170 | without proper prefixes the leaves are exactly the registered names |
| OidRegistry.RootsAre | snmp-data.cpp:149-162 | the top-level list holds exactly the registered first components, the first registered one first |
| OidRegistry.RootsListed | snmp-data.cpp:149-162 | after any registrations the top-level list and the top-level nodes agree |
| OidRegistry.FirstRegistrationWins | snmp-data.cpp:145-168 | over any sequence of registrations the first one of a name below which no other is registered decides its value |
| OidRegistry.LookupFindsFirst | snmp-data.cpp:127-210 | after any sequence of registrations a lookup of such a name gives the value registered first for it |
| OidOrder.NextSibling | snmp-data.cpp:267-277 | the first leaf below the next sibling of a passed branch is the least leaf above |
| OidOrder.NoSibling | snmp-data.cpp:256-267 | without a later sibling everything below the parent has been passed |
| OidCodec.CollectGroups | snmp-elem.cpp:187-203 | the seven-bit groups of any number below 2^63, lowest first, fit the ten-byte scratch buffer |
| OidCodec.EmitGroups | snmp-elem.cpp:205-208 | the groups come out highest first, all but the last with the continuation bit, and the bytes before stay |
| OidCodec.EmittedIsBase128 | snmp-elem.cpp:190-208 | what is written is the base-128 numeral of X.690 section 8.19 |
| OidCodec.Base128Size | snmp-elem.cpp:176-178 | a base-128 numeral is never longer than the decimal one |
| OidCodec.EncodeOid | snmp-elem.cpp:174-218 | for every text, canonical or not: its pieces between dots, each read as a 64-bit number and written in base 128, into a buffer as long as the text; only texts that do not fit it are excluded |
| OidCodec.TextBytesOfPath | snmp-elem.cpp:174-218 | for canonical names with components below 2^63 these are the identifier's bytes, and they fit |
| OidCodec.DottedFits | snmp-elem.cpp:176-208 | every text of digits and dots fits the buffer |
| OidCodec.DecodedFits | snmp-elem.cpp:174-218 | so does every name the decoder can yield, unless it has a negative component |
| OidCodec.GetOid | snmp.cpp:62-92 | the text decoded with 32-bit wrap-around and signed printing, and failure on an unfinished component |
| OidCodec.OidRoundTrip | snmp.cpp:62-92 | decoding the encoding of any identifier gives the same text if and only if it lies below 1.3 and all components are below 2^31 |
| OidCodec.StandardIdentifierExactly | snmp-elem.cpp:174-218 | what is written reads, by X.690 section 8.19, as the standard's subidentifiers (40 X + Y, then the rest) if and only if the identifier lies below 1.3; every other one reads as its plain components |
| SnmpElem.IntegerPayload | snmp-elem.cpp:42-67 | the tag of the type, the length and the value's bytes, most significant first |
| SnmpElem.LeafPayload | snmp-elem.cpp:160-170 | tag, length and the bytes |
| SnmpElem.GetSize | snmp-elem.cpp:88-98 | the size of an element's content modulo 256 |
| SnmpElem.GetSequenceSize | snmp-elem.cpp:88-98 | the sizes and two header bytes of all elements, added up in eight bits |
| SnmpElem.SequencePayload | snmp-elem.cpp:100-123 | tag, length and the encodings of the elements in order fill a buffer of the computed size exactly |
| SnmpElem.GetPayload | snmp-elem.cpp:247-254 | every nested element's bytes are its unbounded encoding, for contents up to 253 bytes |
| SnmpElem.SizeDoesNotWrap | snmp-elem.cpp:88-103 | as numbers, the buffer size in eight bits is the length of the encoding if and only if the content is at most 253 bytes; what is written beyond that is not modelled |
| SnmpElem.ParseEncoded | snmp-elem.cpp:100-123 | an independent tag-length-value parser reads every encoding back as the same nested elements, so every length at every depth is right |
| SnmpElem.StandardExactly | snmp-elem.cpp:105-106 | the bytes are those of X.690 section 8.1.3 if and only if the content is shorter than 128 bytes |
| SnmpManager.IntegerHeard | snmp-elem.cpp:29-67 | an independent reader of unsigned big-endian numbers gets every 64-bit number back |
| SnmpManager.SignedExactly | snmp-elem.cpp:29-67 | read as two's complement (X.690 section 8.3) a number comes back if and only if it is below 2^31, or at least 2^32 and below 2^63 |
| SnmpManager.KindsOnWire | snmp-elem.cpp:42-67 | the bytes of a small number of each kind: universal type 2, application types 1, 3 and 6 |
| Snmp.GetIntegerBytes | snmp.cpp:35-48 | the big-endian number, modulo 2^64 |
| Snmp.Agent.StoreOid | snmp.cpp:208-227 | a name is stored as it is, or as its successor in the tree, or the error is set if it has none; only the search for a successor needs a registered name |
| Snmp.Agent.ProcessBer | snmp.cpp:166-259 | verdict and request record are the decoding function of the bytes, for every input and every tree; the mutual recursion ends |
| Snmp.Agent.ProcessPdu | snmp.cpp:94-140 | id, error and index are read, then the bindings, each as the decoding function has it |
| Snmp.Agent.ProcessVarBinds | snmp.cpp:142-163 | the list of bindings, each decoded as an element sequence whose own verdict is ignored |
| Snmp.Agent.FindValue | snmp.cpp:294-314 | the value found for the name, or for the name before a final .0, or null |
| Snmp.Agent.GenReply | snmp.cpp:261-315 | the elements of the reply, for any names whose bytes fit the encoder's buffers; what they say to a manager is ReplyHeard |
| Snmp.Agent.SendReply | snmp.cpp:261-322 | the bytes of the reply, and that a manager reads from them version, community, response tag, id, error and index of the request record and one binding for each of its names, in order |
| Snmp.ReplyHeard | snmp.cpp:261-315 | for every reply of up to 253 bytes, a manager's reader that knows nothing of the agent finds the request's version, community ("public" for an empty one), tag 0xa2, id, error and index, each in its place, and then one binding for each name, in order, with the name's bytes and its value |
| SnmpExchange.NewIntegerDecoded | snmp-elem.cpp:29-36 | every 64-bit number survives encoding and decoding |
| SnmpExchange.IntegerWraps | snmp.cpp:35-48 | any number of bytes is read as the unsigned number they stand for, modulo 2^64 |
| SnmpExchange.RequestDecoded | snmp.cpp:94-259 | every well-formed request of up to 253 bytes is accepted and gives back version, community, id and its names in order, for GetNext their successors, whatever integer, string or null its bindings carry |
| SnmpExchange.VarBindDecoded | snmp.cpp:142-206 | a binding adds its name, and its value changes nothing in the record, whatever its type |
| SnmpExchange.NameAsValueIsAsked | snmp.cpp:204-230 | unless it is an identifier, which is taken for one more name asked for |
| SnmpExchange.NestedValueChangesVersion | snmp.cpp:186-190 | or a nested sequence with an integer in it, which is taken for the version |
| SnmpExchange.TruncatedRejected | snmp.cpp:166-184 | a message cut off anywhere is rejected, and nothing is taken from it |
| SnmpExchange.LastByteIgnored | snmp.cpp:177 | a single byte behind a message is not looked at |
| SnmpExchange.GetNames | snmp.cpp:225-227 | a Get request yields exactly its names in order |
| SnmpExchange.GetNextName | snmp.cpp:214-224 | in any tree, a GetNext of a name in it yields the least leaf above it in its top-level tree, or error 2 at index 1 if there is none there |
| SnmpExchange.GetNextNames | snmp.cpp:208-227 | a GetNext of any list of names in the tree yields their successors in order, and the error if some name has none |
| SnmpExchange.NextOfSingleRoot | snmp-data.cpp:255-263 | where all names share their first component, that successor is the least leaf above the name of all |
| SnmpExchange.RegisteredValue | snmp.cpp:294-308 | a registered name below which no other is registered is bound to the value registered first for it |
| SnmpExchange.InstanceValue | snmp.cpp:296-308 | so is the name with .0 behind it |
| SnmpExchange.UnknownValue | snmp.cpp:310-314 | any other name is bound to null |
| SnmpExchange.GetExchange | snmp.cpp:166-322 | from the bytes of any Get or Set request to what a manager reads from the bytes of the reply: its own version, community and id, no error, and each name asked for, in order, with what is found for it |
| SnmpExchange.GetNextExchange | snmp.cpp:166-322 | from the bytes of any GetNext request, in any tree, to what a manager reads from the bytes of the reply: its own version, community and id, and, in order, each name's least leaf above it in its top-level tree with the value registered first for it; names without one are left out, with error 2 at index 1 |
| SnmpExchange.ExchangedNamesFit | snmp-elem.cpp:174-218 | the names of such exchanges fit the encoder's buffers |
| WorkQueue.Router.PushIncoming | tranceiver.cpp:109-113 | first critical section of a producer: the message joins the tranceiver's queue |
| WorkQueue.Router.PushWork | tranceiver.cpp:119-125 | second critical section: the tranceiver joins the work list at its end (`ServedInOrder` over all runs) |
| WorkQueue.Router.PopWork | main.cpp:34-45 | main takes the first tranceiver of the work list |
| WorkQueue.Router.AssertPeek | main.cpp:47 | under the invariant the assertion holds |
| WorkQueue.Router.TakeMessage | tranceiver.cpp:137-150 | under the invariant a message is there and the oldest one is taken |
| WorkQueue.StepConsistent | tranceiver.cpp:109-150 | every atomic step of any thread keeps the invariant that spans both queues |
| WorkQueue.IncomingLength | tranceiver.cpp:109-125 | at every moment of every interleaving a tranceiver's queue is as long as its occurrences in the work list, its producers between their two steps, and what main holds, together |
| WorkQueue.NeverFails | main.cpp:47-56 | in no interleaving of any number of producers does the assertion fail or the queue come back empty |
| WorkQueue.FirstInFirstOut | tranceiver.cpp:137-150 | in every interleaving the messages queued at a tranceiver, read off the run's actions, are in order those main has taken from it and those that wait there: nothing lost, doubled or overtaken |
| WorkQueue.ServedInOrder | tranceiver.cpp:119-125 | in every interleaving the tranceivers announced, read off the run's actions, are in order those main has taken up and those on the work list |
| WorkQueue.Drains | main.cpp:31-49 | without new traffic every schedule ends after exactly the pending steps, with no message left waiting anywhere |
| Kiss.EscapePut | tranceiver-kiss.cpp:120-133 | the byte, or its two-byte escape, behind what is there |
| Kiss.SendMkiss | tranceiver-kiss.cpp:135-164 | the frame's encoding, within twice the payload and three bytes |
| Kiss.EncodedSize | tranceiver-kiss.cpp:137-151 | the encoding fits that buffer if and only if the type byte or some payload byte needs no escape |
| Kiss.EncodedOnWire | tranceiver-kiss.cpp:20-23 | the bytes sent for a payload with a delimiter and an escape byte in it: 0xc0 and 0xdb become 0xdb 0xdc and 0xdb 0xdd, all else stays |
| Kiss.Port.RecvMkiss | tranceiver-kiss.cpp:27-118 | one call returns the payload of the next frame, or fails on an overrun or a dead line, and leaves exactly the bytes behind it |
| Kiss.EndOfFileFails | tranceiver-kiss.cpp:37-82 | the zero bytes read for ever at the end of a file make the call fail and return, by an overrun |
| Kiss.DropFirst | tranceiver-kiss.cpp:93-96 | the rest of the buffer is moved down by one |
| Kiss.Port.ReceiveLoop | tranceiver-kiss.cpp:197-222 | repeated calls queue the frames of the line in order |
| Kiss.RunBounded | tranceiver-kiss.cpp:50-80 | on any input the decoder's length never passes the buffer |
| Kiss.RecvAllIsRun | tranceiver-kiss.cpp:27-118 | repeated calls are one automaton over the whole line |
| Kiss.RoundTrip | tranceiver-kiss.cpp:27-164 | decoding the encodings of any list of frames with payloads up to 253 bytes gives the payloads back in order |
| Kiss.ReceivedExactly | tranceiver-kiss.cpp:27-118 | a frame is received as it was sent if and only if its payload has at most 253 bytes |
| Kiss.SelfSynchronising | tranceiver-kiss.cpp:27-118 | after any bytes whatsoever and one frame, everything sent after that frame arrives exactly |
| Kiss.FirstFrameSurvives | tranceiver-kiss.cpp:50-80 | the frame right behind noise arrives if and only if the noise does not end in an escape with a partial frame before it |
| CrcPpp.TableIsShift8 | crc_ppp.cpp:31-64 | every table entry is eight shifts of its index in the register with polynomial 0x8408 |
| CrcPpp.PppFcs | crc_ppp.cpp:72-80 | for every buffer and start value the table loop is the bit-serial register |
| CrcPpp.ComputeCrc | crc_ppp.cpp:93-101 | the complement of the register after the buffer |
| CrcPpp.OkCrc | crc_ppp.cpp:104-111 | whether the register ends in the good residue |
| CrcPpp.AcceptedMeansTrailer | crc_ppp.cpp:93-111 | a buffer of any length is accepted if and only if its last two bytes are the check sequence of the rest, low byte first |
| CrcPpp.BuildFrame | tranceiver-axudp.cpp:27-39 | the content with its check sequence behind it, low byte first |
| CrcPpp.SentFrameAccepted | tranceiver-axudp.cpp:27-39 | every frame so built is accepted |
| CrcPpp.BurstRejected | crc_ppp.cpp:104-111 | two different frames of equal length that differ within sixteen consecutive bits are never both accepted, anywhere and at any length |
| CrcPpp.AdjacentBytesRejected | crc_ppp.cpp:104-111 | nor are two that differ within two adjacent bytes |
| CrcPpp.CheckValue | crc_ppp.cpp:93-101 | the check sequence of the digits 1 to 9 is 0x906e |
| CrcPpp.ZeroInFrontRejected | crc_ppp.cpp:93-111 | an accepted frame of any length is not accepted with a zero byte in front |
| Crc32.TableIsShift8 | crc_32.c:72-116 | every table entry is eight shifts of its index in the register with polynomial 0xedb88320 |
| Crc32.UpdateIsSerial | crc_32.h:41-42 | one table step is eight message bits fed to the bit-serial register |
| Crc32.Crc32Buf | crc_32.c:159-172 | for every buffer the loop is the complemented bit-serial register |
| Crc32.BurstChangesHash | crc_32.c:159-172 | packets of equal length that differ within 32 consecutive bits have different hashes |
| Crc32.FourBytesChangeHash | crc_32.c:159-172 | so have packets that differ within four consecutive bytes |
| Crc32.CheckValue | crc_32.c:159-172 | the hash of the digits 1 to 9 is 0xcbf43926 |
| Crc32.ZeroInFrontChangesHash | crc_32.c:159-172 | every packet's hash changes with a zero byte in front |
| ShiftRegister.BurstChangesRegister | crc_ppp.cpp:72-80 | a burst no longer than the register always changes it, whatever comes before and after |
| Filter.RetrieveSubfilter | filter.cpp:10-31 | the text before the matching parenthesis outside quotes, or nothing |
| Filter.SubfilterOfBalanced | filter.cpp:10-31 | behind an opening parenthesis exactly the balanced text before the closing one is cut out, whatever its nesting and quotes |
| Filter.SubfilterOfPrinted | filter.cpp:10-31 | so is the text of any expression without parentheses in names and bare values and with quotes only around values |
| Filter.ExecuteFilter | filter.cpp:33-128 | the evaluation loop is the scanning function Evaluate, for every text; PrintedFilter, ComparisonAsks and the lemmas on other texts say what that is |
| Filter.PrintedFilter | filter.cpp:33-128 | for every tree of comparisons and balanced groups the printed text evaluates, without the scan ever going back, to the strict left-to-right fold of what the comparisons ask of the message's fields, with a missing field true if ignored and an error otherwise |
| Filter.ComparisonAsks | filter.cpp:75-108 | `field=value` is true if and only if the field has that value, `field!=value` if and only if it has another one; for a missing field both are true if it is ignored and an error otherwise; spaces behind the field and quotes around the value do not matter |
| Filter.BlankIsFalse | filter.cpp:33-48 | a text of spaces only is false |
| Filter.AdjacentTerms | filter.cpp:110-124 | two terms without an operation: the value of the first is forgotten |
| Filter.UnknownOperationStops | filter.cpp:110-117 | any other operation behind any expression stops the program once the term behind it has a value |
| Filter.OpenGroupStops | filter.cpp:50-54 | so does a group that is never closed |
| Filter.LastBangStops | filter.cpp:75-86 | and an exclamation mark at the end of the text |
| Filter.PlainIsPrintable | filter.cpp:10-31 | without parentheses in names and bare values, and with quotes only around values, all groups are balanced |
| Filter.JoinedExec | filter.cpp:67-73 | an operation between two terms is read and combines them, from any place in any text |
| FilterEnding.BackTo | filter.cpp:75-93 | the scan is only ever sent back to the start or behind the text's first right-hand side |
| FilterEnding.NeverEndsExactly | filter.cpp:33-128 | for every text: evaluation never ends if and only if the sweep over its positions is sent back twice or meets a group of which this is true; otherwise it ends within as many returns as the text has characters |
| FilterEnding.NeverEndsWithoutGroups | filter.cpp:66-125 | without groups: if and only if it is sent back twice |
| FilterEnding.ExpressionEnds | filter.cpp:33-128 | the printed text of every expression ends |
| FilterEnding.LoneOpenQuoteNeverEnds | filter.cpp:88-94 | a filter that is one comparison with an unclosed quote never ends if and only if its field is found |
| FilterEnding.OpenQuoteNeverEnds | filter.cpp:88-94 | behind any expression such a comparison makes evaluation go on for ever if and only if all fields are found |
| FilterEnding.LoneWordEnds | filter.cpp:75-108 | alone, a term without separator and spaces asks whether the field of that name has its own name as value, and evaluation ends |
| FilterEnding.BareWordNeverEnds | filter.cpp:75-86 | behind any expression whose first term has no space in its text, a term without separator makes evaluation from the start go on for ever if and only if all fields are found |
| RateLimiter.RateLimiter.Check | rate-limiter.cpp:16-41 | the verdict and the whole new state of the bucket; what a refused check leaves is RefusedLeavesNoTrace |
| RateLimiter.WindowBound | rate-limiter.cpp:16-41 | in any window of any run with any evictions at most one allowance, one more per eviction, and what the window earns is let through |
| RateLimiter.SpacedIsAccepted | rate-limiter.cpp:24-40 | a check at least per/rate after the previous one on the same limiter always passes |
| RateLimiter.RefusedLeavesNoTrace | rate-limiter.cpp:24-36 | whatever the clock does and whatever is evicted, a run without one of its refused checks has the same later verdicts |
| RateLimiter.SpacedSinceAccepted | rate-limiter.cpp:24-40 | a check at least per/rate after one that was made passes however many were refused in between |
| RateLimiter.UnknownIsAccepted | seen.cpp:56-67 | the first check of a message passes if and only if the clock shows at least per/rate |
| RateLimiter.BurstPasses | rate-limiter.cpp:32-40 | of any number of copies at one moment exactly the first `rate` pass |
| RateLimiter.NothingPasses | rate-limiter.cpp:32-36 | with a limit below one nothing ever passes |
| Seen.Seen.Check | seen.cpp:46-72 | the packet's own limiter, made if need be, decides; every other one stays as it was |
| Seen.CalcCrc32 | seen.cpp:48 | the packet's hash |
| Seen.Seen.Evict | seen.cpp:84-103 | a pass over a full history leaves exactly max - max/10 limiters, unchanged, none used in a later second than one removed |
| Seen.PassInTime | seen.cpp:84-103 | in real time: max - max/10 stay, and whatever goes had been checked later than a second before anything that stays |
| Seen.Seen.Collect | seen.cpp:84-87 | every hash once, with the second of its last check |
| Seen.Seen.Sorted | seen.cpp:84-93 | the same, latest first |
| Seen.SortNewestFirst | seen.cpp:89-93 | a permutation in descending order of time |
| Seen.Seen.EraseFirst | seen.cpp:97-103 | the first entries' limiters go; every index and lookup is in range |
| Seen.OwnLimiter | seen.cpp:46-103 | over any run of packets and passes each hash fares as with one limiter of its own |
| Seen.HashWindowBound | seen.cpp:46-103 | of all packets with one hash in any window of any run at most one allowance, one more per eviction of that hash, and what the window earns get through |
| Seen.NearTwinsAreSeparate | seen.cpp:46-65 | packets that differ within four consecutive bytes never share a limiter, and seeing one does not change what becomes of the other |
| Seen.NewestIsForgotten | seen.cpp:89-103 | a pass removes the one packet seen in the latest second if and only if it removes anything, and its next copy then passes from per/rate on the clock |
| Websockets.Context.Push | websockets.cpp:27-37 | the record is appended and the history trimmed to its last 250 |
| Websockets.Session.SendRecords | websockets.cpp:39-76 | what is sent is the longest end part newer than the cursor, and the cursor moves to its end |
| Websockets.ExactlyTheNewer | websockets.cpp:47-54 | with records in order of time, a record is sent if and only if it is newer than the cursor |
| Websockets.StreamIsDelivered | websockets.cpp:27-76 | over any run and with any clock, cursor and trimmed history do the same as counting records |
| Websockets.ClientSeesOnce | websockets.cpp:27-76 | over any run and with any clock a client gets records in order and none twice |
| Websockets.ClientMissesExactly | websockets.cpp:27-76 | with a clock that does not go backwards, a record with a positive time is sent if and only if its client's next call comes before 250 newer records do and no call falls between it and an earlier record of the same microsecond |
| Websockets.NeverSentAfterwards | websockets.cpp:48-54 | a record pushed after a call in the microsecond of one pushed before it is never sent, however the run goes on |
| Websockets.SameMicrosecondIsMissed | websockets.cpp:48-54 | the shortest such run: two records of one microsecond with a call between them |
| Base64.Base64Encode | base64.cpp:41-82 | groups of three bytes become four characters, the rest is padded |
| Base64.Emit | base64.cpp:51-57 | the first characters of a group of four |
| Base64.EncodeRest | base64.cpp:62-78 | the last one or two bytes, filled with zeros and padded with equal signs |
| Base64.Base64Decode | base64.cpp:84-123 | characters up to the first outside the alphabet are decoded, four at a time |
| Base64.Merge | base64.cpp:95-103 | the first bytes of a group of three |
| Base64.DecodeRest | base64.cpp:108-120 | the last one to three characters; a single one gives nothing |
| Base64.SixBitsAtATime | base64.cpp:51-54 | the four places are the 24-bit number of the three bytes, six bits each (RFC 4648 section 4) |
| Base64.RoundTrip | base64.cpp:41-123 | decoding an encoding gives the bytes back, for every sequence of bytes |
| Base64.WholeGroupsBack | base64.cpp:41-123 | encoding what a text of whole groups decodes to gives the text back, for every such text in the alphabet |
| Base64.ForeignEnds | base64.cpp:92 | nothing from the first character outside the alphabet on is decoded |
| Base64.SingleIsDropped | base64.cpp:108-120 | a single character behind whole groups gives nothing |
| Base64.Capitals | base64.cpp:32-35 | the alphabet, through the bytes whose six-bit groups count up: A to X |
| Base64.SmallLetters | base64.cpp:32-35 | Y to v |
| Base64.DigitsAndSigns | base64.cpp:32-35 | w to the slash |
| Base64.EncodedLength | base64.cpp:41-82 | the encoding has four characters for every three bytes begun |
| Ax25.ParseAddress | ax25.cpp:11-39 | the address read from seven bytes, invalid if one of six has its lowest bit set |
| Ax25.GenerateAddress | ax25.cpp:88-103 | seven bytes: six shifted characters filled up with spaces, and the flags |
| Ax25.AddressOnWire | ax25.cpp:11-39 | from an address as it is on the wire, callsign, SSID, end mark and repeat flag are each read from their bits, whatever the reserved bits |
| Ax25.WrittenOnWire | ax25.cpp:88-103 | writing an address that was read puts each part back there, with the reserved bits set |
| Ax25.ValidExactly | ax25.cpp:11-39 | seven bytes are an address if and only if none of the first six has its lowest bit set |
| Ax25.AddressRoundTrip | ax25.cpp:11-39 | a valid address that was read is read again the same after writing, flags and all |
| Ax25.CallsignRoundTrip | ax25.cpp:54-65 | an address made from a callsign comes back with it if and only if it has at most six 7-bit characters without NUL and space, with its flags, and always with SSID 1 |
| Ax25.Ax25.Parse | ax25.cpp:109-154 | all fields of the packet object, for every input; PacketByRoute says what they are for digipeated packets |
| Ax25.PacketByRoute | ax25.cpp:109-153 | for no, one and two valid repeaters, the last or with two of them none with the end mark: from the bytes of destination, sender, repeaters, control byte and the rest, exactly these repeaters are read in order, and number, PID and data from behind them, as the control byte's two lowest bits say |
| Ax25.BadRepeater | ax25.cpp:126-136 | a repeater that is no address makes the packet invalid, and one before it is kept |
| Ax25.TooShort | ax25.cpp:109-140 | less than two addresses are not a packet, and where a control byte or a repeater is missing the original reads past the end |
| Ax25.Ax25.ParseRest | ax25.cpp:140-153 | the control byte decides which of number and PID follow; a single last byte is not data |
| Ax25.Ax25.SetFrom | ax25.cpp:180-183 | the sender is replaced, with SSID 1, and nothing else changes |
| Ax25.Ax25.SetTo | ax25.cpp:185-188 | the destination is replaced likewise |
| Ax25.Ax25.SetData | ax25.cpp:190-193 | the payload is replaced, nothing else |
| Ax25.Ax25.SetControl | ax25.cpp:195-198 | the control byte is replaced, nothing else |
| Ax25.Ax25.SetPid | ax25.cpp:200-203 | the PID is set, nothing else |
| Ax25.Ax25.GeneratePacket | ax25.cpp:210-239 | the packet's bytes, or the failure of a missing number or PID |
| Ax25.PacketReadBack | ax25.cpp:109-239 | any packet with the sender's end mark is read back up to what addresses lose, the control byte, and data of one byte |
| Ax25.EndMarkNeeded | ax25.cpp:124-138 | without that mark it never comes back as a packet without repeaters |
| Ax25.UFrameRoundTrip | ax25.cpp:180-239 | a U frame made with the setters keeps PID and flags, each callsign if and only if it is plain, and its data if and only if it is not one byte |
| Ax25.RewritingNeedsBoth | ax25.cpp:140-148 | a packet that was read can be written again if and only if it has both number and PID, since its control byte is gone |
| Ax25.DestinationIsNotChecked | ax25.cpp:67-117 | whatever seven bytes stand for the destination, the rest is read the same and the packet is not rejected for it |

## Left out

- Sockets, serial lines, shared memory, MQTT, MongoDB, HTTP and gpsd: bytes that arrive or leave are sequences; a read that fails is the end of the sequence, and a write succeeds.
- Configuration and the `instantiate` functions, logging, statistics counters, thread names, shutdown and the `terminate` flags, and freeing of memory.
- `switchboard.cpp`, `dissect-packet.cpp`, `gps.cpp`, `LoRa.c`: regular expressions, trigonometry, register access; they would add easy members or calls into code that is not visible.
- Locks and condition variables: every critical section is one atomic step; a wait that times out is a step not yet enabled. The duplicate check in front of the queue is not part of the hand-over model.
- SnmpData.SnmpData.RegisterOid: names are canonical decimal with components below 2^31, as `atoi` needs; the ghost path says which. A node handed over a second time is not modelled.
- SnmpData.SnmpData.FindNextOid: needs at least one registered name; on an empty tree the original follows a null reference, which the decoder's verdict NoTree stands for.
- Snmp.Agent.ProcessPdu: where a length inside a unit leads past its end the original reads on; the model stops with the verdict OutOfRange. All theorems are about well-formed requests.
- Snmp.Agent.GenReply: the values bound are those stored when a name was registered; live counters and the uptime are read through references in the original. Names whose bytes are longer than their text are excluded, since the encoder's buffer is as long as the text; only decoded names with negative components can be of that kind (`DecodedFits`).
- SnmpElem.GetPayload: elements are one datatype instead of objects with virtual methods; content is at most 253 bytes, above which the original's sizes wrap.
- OidCodec.EncodeOid: only texts whose bytes fit a buffer of the text's length, as for GenReply.
- Kiss.SendMkiss: excludes the one kind of frame that overruns the buffer; `EncodedSize` says exactly which. Frames sent by the router have type byte zero and are never of that kind.
- Kiss.Port.RecvMkiss: the line is the bytes up to a failed read; an end of file, which yields zero bytes for ever, is `EndOfFileFails`. Interrupted reads are not modelled.
- CrcPpp.FcsTab and Crc32.Crc32Tab: the tables are functions in rows of sixteen; 16-bit words are held in 32 bits.
- Filter.ExecuteFilter: the number of times the scan may be sent back is a parameter; running out of it is the outcome StillRunning, and `NeverEndsExactly` says when that happens for every number. A program exit is an outcome, too.
- RateLimiter.RateLimiter.Check: times and allowances are real numbers, so the rounding of doubles is not modelled; the interval is positive. The run theorems take a clock that does not go backwards.
- Seen.SortNewestFirst: only its contract is used, a permutation in descending order, as for the library sort it stands for.
- Websockets.Session.SendRecords: the libwebsockets calls and the callback that schedules them are left out; each client is followed on its own.
- Websockets.ClientMissesExactly: which records are sent is stated for a clock that does not go backwards; for any other one, `StreamIsDelivered` has the order and the counting.
- Ax25.Ax25.Parse: reading past the end of a packet, which the original does for short ones, is the outcome PastEnd.
