# A verified model of the device server

The server accepts TCP connections from cameras and phones, cuts their byte streams into checksummed
frames, hands each event of a connection to a worker thread, and keeps registries of connections, devices,
logins, timers and database connections. Its messages carry Base64 text and XML documents. This project
models those parts in Dafny and proves what they are meant to guarantee. `dafny verify dfyconfig.toml`
checks everything.

A component that changes its fields in place is a class whose methods are proved against a specification
function, and the guarantees are lemmas about that function over every input, every history or every run.
Bytes are 0..255, words are little-endian and 32 bits wide, a body that holds a lock and a callback of the
event loop are one step each.

| module | component |
|---|---|
| `Bytes`, `OrderedKeys` | words, byte sums, and walks over an ordered map |
| `SmartBuffers` | the growable receive buffer `CSmartBuffer` |
| `Framing`, `ProtocolParsers` | the wire protocol as a function of the stream; the parser, the frame builder and the heartbeat frame that implement it |
| `Base64` | both encoders and both decoders |
| `XmlText`, `XmlAttributes`, `XmlNodes`, `XmlTree`, `XmlEdits`, `XmlPrinter`, `XmlReader`, `XmlPrinted` | TinyXML: entity encoding, the attribute ring, the pointers of the document tree, the deep copy, inserting, replacing and removing children, the printing visitor, and what an XML reader makes of its output |
| `ThreadPool`, `EventLoop` | worker queues, connection life cycle, heartbeat |
| `Delivery` | from a connection's received bytes, over the workers, to the parser's callbacks |
| `ConnectionPool` | database adapters and their holders |
| `AddressIndexes` | the handle, link and device maps |
| `LoginRegistry` | sessions by uuid |
| `Timers` | the one-second timer thread |

What a reader of the code might not expect, each stated by a lemma below:

- The parser is independent of how the stream was cut into receive calls exactly when no frame has a bad
  checksum, or the bad frame is the last thing received: a bad checksum throws away everything buffered,
  so bytes that follow in the same call are lost and bytes that follow in the next are not.
- `EncodeString` is inverted by the reader exactly for strings without `&#x`, and the delimiter chosen for a
  printed attribute value can occur inside the value when the value holds a double quote and an apostrophe
  inside such a reference.
- The Base64 decoder never raises its byte budget again after a `=`, so two concatenated encodings decode
  only in four cases.
- `ReplaceChild` does not refuse a document, as the other child operations do; a copy made later drops it.
- Returning an adapter twice wraps its unsigned count, and no later run hands it out.
- The kick-out loop stops early exactly when the null address itself is logged in under the uuid. The case is
  theoretical: the login handler uses the address right after entering it in the map
  (business/src/wisLogginHandler.cpp lines 45-46).

## Model

| member | source | states |
|---|---|---|
| Bytes.WordOfLoad | parseProtocolModule/src/ProtocolParser.cpp:38-41 | storing a word read from memory gives back the same four bytes, so reading and storing are inverse |
| Bytes.WordBytes | parseProtocolModule/src/ProtocolParser.cpp:61-84 | byte k of a stored word is the word divided by 256^k, modulo 256 |
| Bytes.SumLaws | parseProtocolModule/src/ProtocolParser.cpp:116-124 | the sum is nothing for no bytes, a byte for itself, and additive |
| Bytes.ChecksumExact | parseProtocolModule/src/ProtocolParser.cpp:116-124 | the 32-bit sum does not wrap for at most 16843009 bytes |
| Bytes.SumUpdate | parseProtocolModule/src/ProtocolParser.cpp:116-124 | changing one byte moves the sum by exactly the difference |
| SmartBuffers.SmartBuffer.Append | tinyXml/src/tinyxml.cpp:2282-2305 | appending is concatenation, across reallocation, and grows the block exactly when it is too small |
| SmartBuffers.SmartBuffer.Truncate | tinyXml/src/tinyxml.cpp:2355-2366 | truncating drops a prefix, all of it when asked for more than there is, and keeps the block |
| SmartBuffers.SmartBuffer.Find | tinyXml/src/tinyxml.cpp:2330-2353 | the least index at or after the start where a non-empty pattern matches, and -1 exactly when there is none |
| SmartBuffers.SmartBuffer.FindByte | tinyXml/src/tinyxml.cpp:2317-2327 | the least index of a byte, and -1 exactly when it does not occur |
| Framing.DrainInSteps | parseProtocolModule/src/ProtocolParser.cpp:23-59 | draining early and going on with the rest fires the same callbacks and keeps the same bytes as draining late |
| Framing.BadEndSeenAtEnd | parseProtocolModule/src/ProtocolParser.cpp:23-59 | a bad frame is noticed with the byte that completes it, not before and not later |
| Framing.EventsBeforeBadChecksum | parseProtocolModule/src/ProtocolParser.cpp:23-59 | for every cut, the callbacks before the first bad frame are fired, in order |
| Framing.ChunkInvariantExactly | parseProtocolModule/src/ProtocolParser.cpp:23-59 | all cuts of a stream agree on callbacks and leftover if and only if it has no bad frame or ends with it |
| Framing.EmptyChunk | parseProtocolModule/src/ProtocolParser.cpp:23-59 | a receive call without bytes changes neither the callbacks nor the leftover, so it is harmless that CDevice::Receive (deviceModule/src/device.cpp lines 26-34) leaves it out |
| Framing.FrameBytes | parseProtocolModule/src/ProtocolParser.cpp:61-84 | every byte of a built frame: byte sum, command and length with the least significant byte first, then the data |
| Framing.FramesRoundTrip | parseProtocolModule/src/ProtocolParser.cpp:61-84 | parsing built frames and an incomplete tail fires exactly the built commands and keeps exactly the tail |
| Framing.FramesRoundTripChunked | parseProtocolModule/src/ProtocolParser.cpp:23-84 | the same over every cut of the stream |
| Framing.WrongByteDetected | parseProtocolModule/src/ProtocolParser.cpp:91-114 | a wrong byte anywhere outside the length word fails the checksum, whatever follows |
| Framing.WrongByteNeverDelivered | parseProtocolModule/src/ProtocolParser.cpp:91-114 | a frame with one wrong byte, the length word included, is never delivered, whatever follows it, as long as the sum of all that is buffered cannot wrap |
| ProtocolParsers.GetCheckSum | parseProtocolModule/src/ProtocolParser.cpp:116-124 | the accumulator loop computes the byte sum modulo 2^32 |
| ProtocolParsers.CheckCheckSum | parseProtocolModule/src/ProtocolParser.cpp:91-114 | true exactly for present, long enough input whose first word is the sum of the rest |
| ProtocolParsers.ProtocolParser.ParseSocketProtocol | parseProtocolModule/src/ProtocolParser.cpp:23-59 | one receive call fires the callbacks and keeps the bytes that the stream function says |
| ProtocolParsers.ParseChunks | parseProtocolModule/src/ProtocolParser.cpp:23-59 | any run of receive calls on a fresh parser does what `Framing.Receive` says |
| ProtocolParsers.MakeProtocolForSocket | parseProtocolModule/src/ProtocolParser.cpp:61-84 | the in-place stores leave exactly the frame in the output, and nothing behind it changes |
| ProtocolParsers.StoresMakeFrame | parseProtocolModule/src/ProtocolParser.cpp:61-84 | the overlapping stores, checksum last, make up a frame the parser recognises |
| ProtocolParsers.HeartbeatFrame | libEventMoudle/src/ServrSocket.cpp:226-235 | the heartbeat assembled by hand is the frame the builder would make, with the command 0x8000 and the length 4 |
| Base64.TablesInverse | parseProtocolModule/src/Base64.cpp:7-33 | the two tables are inverse on the 64 letters, and only `=` is the padding mark |
| Base64.EncodedLength | parseProtocolModule/src/Base64.cpp:75-105 | calcOutLength foretells the encoded length for every length |
| Base64.EncodedAlphabet | parseProtocolModule/src/Base64.cpp:75-105 | only letters, and one or two `=` exactly at the end of the two padded cases |
| Base64.EncodedBits | parseProtocolModule/src/Base64.cpp:7-33 | character k of an encoding is the letter of the RFC 4648 alphabet for bits 6k to 6k+5 of the bytes, zero bits behind them, and `=` where none of their bits is left |
| Base64.EncodeString | parseProtocolModule/src/Base64.cpp:75-105 | the string form replaces its output by the encoding and fails only on null |
| Base64.EncodeBytes | parseProtocolModule/src/Base64.cpp:40-73 | the vector form appends the same encoding and a zero byte, and refuses empty input |
| Base64.Decode | parseProtocolModule/src/Base64.cpp:112-165 | both decoder loops append what the decoder function gives, and fail only on null |
| Base64.DecodedGroups | parseProtocolModule/src/Base64.cpp:112-137 | letters without padding are decoded four by four into the 24 bits they spell, and a last group that is not full gives nothing |
| Base64.DecoderReads | parseProtocolModule/src/Base64.cpp:7-33 | the decoder reacts to exactly the 64 letters of the alphabet and `=` |
| Base64.OthersIgnored | parseProtocolModule/src/Base64.cpp:112-137 | leaving out everything else changes neither the bytes nor the state |
| Base64.AccumulatorBound | parseProtocolModule/src/Base64.cpp:112-137 | the accumulator never holds more than three sextets between characters |
| Base64.RoundTrip | parseProtocolModule/src/Base64.cpp:75-137 | decoding the encoding of any byte string gives it back |
| Base64.VectorRoundTrip | parseProtocolModule/src/Base64.cpp:40-165 | so does decoding the vector form, whose zero byte is skipped |
| Base64.NoiseIgnored | parseProtocolModule/src/Base64.cpp:112-137 | characters outside the alphabet change neither the bytes nor the state, wherever they stand |
| Base64.ConcatenationExactly | parseProtocolModule/src/Base64.cpp:112-137 | two encodings one after the other decode to both inputs if and only if the first has full groups, the second is empty, or one of two small cases holds |
| XmlText.EncodeString | tinyXml/src/tinyxml.cpp:57-138 | the loop with its pass-through inner loop appends the encoding and ends on every string |
| XmlText.EncodedByte | tinyXml/src/tinyxml.cpp:93-136 | each byte by itself: the five entities of section 4.6 of XML 1.0, two upper-case hexadecimal digits for a control character, any other byte unchanged |
| XmlText.EncodedJoins | tinyXml/src/tinyxml.cpp:57-138 | a text without `&#x` is written byte by byte |
| XmlText.ReferencePassed | tinyXml/src/tinyxml.cpp:66-92 | the first `&#x` is passed through up to the next `;` or the last byte, and writing goes on from there |
| XmlText.InvertibleExactly | tinyXml/src/tinyxml.cpp:57-138 | reading the encoding gives the string back if and only if it has no `&#x` |
| XmlText.ReadEscape | tinyXml/src/tinyxml.cpp:98-134 | every escaped character is read back, by GetEntity at tinyXml/src/tinyxmlparser.cpp lines 453-546, whatever follows it |
| XmlText.ReadLength | tinyXml/src/tinyxml.cpp:69-97 | a passed-through reference always reads back shorter |
| XmlText.NothingRaw | tinyXml/src/tinyxml.cpp:57-138 | without `&#x` no angle bracket, quote or control byte is written raw |
| XmlAttributes.PutLaws | tinyXml/src/tinyxml.cpp:813-845 | setting keeps names unique and non-empty and changes only that name's value |
| XmlAttributes.NamesAfterPut | tinyXml/src/tinyxml.cpp:828-839 | setting a known name leaves the order of the names as it is, a new one comes last |
| XmlAttributes.DeleteLaws | tinyXml/src/tinyxml.cpp:442-455 | removing keeps names unique and takes away only that name |
| XmlAttributes.ActsAsMap | tinyXml/src/tinyxml.cpp:813-845 | over every sequence of settings and removals the list answers like a map |
| XmlAttributes.OrderFollowsHistory | tinyXml/src/tinyxml.cpp:813-845 | over every sequence of settings and removals exactly the names set since their last removal are there, in the order of the first of these settings |
| XmlAttributes.AttributeSet.Find | tinyXml/src/tinyxml.cpp:1963-1976 | walking the ring finds the attribute with the name, null exactly when there is none |
| XmlAttributes.AttributeSet.Add | tinyXml/src/tinyxml.cpp:1904-1917 | the ring stays well formed with the attribute as the last |
| XmlAttributes.AttributeSet.Remove | tinyXml/src/tinyxml.cpp:1919-1935 | the ring stays well formed without the attribute |
| XmlAttributes.AttributeSet.SetAttribute | tinyXml/src/tinyxml.cpp:813-845 | the ring becomes the map with the name set, in place or at the end |
| XmlAttributes.AttributeSet.RemoveAttribute | tinyXml/src/tinyxml.cpp:442-455 | the ring becomes the map without the name |
| XmlAttributes.AttributeSet.ClearThis | tinyXml/src/tinyxml.cpp:584-593 | the loop ends with the sentinel pointing to itself both ways, as the destructor asserts |
| XmlNodes.SpliceKeepsForest | tinyXml/src/tinyxml.cpp:190-344 | appending, inserting, replacing and removing keep every child list linked forwards and backwards and every parent pointer right |
| XmlNodes.WalksMirror | tinyXml/src/tinyxml.cpp:190-344 | the walk along `prev` from the last child visits the children in the reverse order of the walk along `next` |
| XmlEdits.NewNodeAlone | tinyXml/src/tinyxml.cpp:141-149 | a new node is a well-formed forest of its own, standing for a tree without children |
| XmlEdits.ForestsUnite | tinyXml/src/tinyxml.cpp:219-293 | separate forests together are one, so what one holds can be inserted into the other |
| XmlNodes.Node.LinkEndChild | tinyXml/src/tinyxml.cpp:190-216 | the pointers, also when the parent is already set: they become those of the list with the node appended; for a document null is returned and nothing is linked |
| XmlEdits.LinkEndTree | tinyXml/src/tinyxml.cpp:190-216 | a separate tree becomes the last child, with the trees above following; a document is refused and deleted with exactly the nodes below it, and every other node keeps its tree |
| XmlEdits.InsertEndChild | tinyXml/src/tinyxml.cpp:219-229 | the node stands for its tree with a copy appended, every node above it for its tree with that subtree replaced, and all others keep their trees |
| XmlEdits.InsertBeforeChild | tinyXml/src/tinyxml.cpp:232-260 | the copy stands right before the child, with the same for the nodes above and the others; null, foreign child and document are refused without any change |
| XmlEdits.InsertAfterChild | tinyXml/src/tinyxml.cpp:263-293 | the copy stands right behind the child, with the same refusals |
| XmlEdits.ReplaceChild | tinyXml/src/tinyxml.cpp:296-321 | the copy stands in the child's place, exactly the nodes below the child are gone, the trees above follow and all other remaining nodes keep theirs |
| XmlEdits.RemoveChild | tinyXml/src/tinyxml.cpp:324-344 | the child and exactly the nodes below it are gone, the trees above follow and all other remaining nodes keep theirs; a foreign child is refused without any change |
| XmlEdits.ShapeAfter | tinyXml/src/tinyxml.cpp:296-344 | what is left after a splice, without the deleted part, is again a forest that points only into itself |
| XmlEdits.TreeAfter | tinyXml/src/tinyxml.cpp:232-344 | a node whose child list is spliced stands for its tree with the subtree inserted, replaced or removed, and for nothing else |
| XmlTree.RepresentsOne | tinyXml/src/tinyxml.cpp:190-216 | a node stands for only one tree |
| XmlEdits.Follow | tinyXml/src/tinyxml.cpp:219-344 | after an edit a node with the edited one at some path below it stands for its tree with the subtree at that path replaced, and a node not above it stands for the tree it stood for |
| XmlEdits.SiblingsApart | tinyXml/src/tinyxml.cpp:190-216 | no node is below two children of one node |
| XmlEdits.DocumentDroppedByCopy | tinyXml/src/tinyxml.cpp:296-321 | a document put in a child's place is a child, and the copy made of such a tree is the copy of the tree without it |
| XmlEdits.NotBelowChild | tinyXml/src/tinyxml.cpp:324-344 | deleting a child never deletes its parent |
| XmlTree.CStrExactly | tinyXml/src/tinyxml.cpp:988-1001 | a value read as a C string is everything before its first zero byte |
| XmlTree.CopiedValue | tinyXml/src/tinyxml.cpp:994-1001 | a copied list holds for each name the value last given under it, as a C string |
| XmlTree.CloneParts | tinyXml/src/tinyxml.cpp:988-1032 | kind and value stay, only elements keep attributes, only elements and documents keep children, each copied by itself, documents left out |
| XmlTree.CopyPairsExactly | tinyXml/src/tinyxml.cpp:988-1001 | copied attributes are equal if and only if they are well named and their values hold no zero byte |
| XmlTree.CopyAttributes | tinyXml/src/tinyxml.cpp:994-1001 | the attribute loop leaves the source ring alone and sets the target to the copied list |
| XmlTree.CloneExactly | tinyXml/src/tinyxml.cpp:988-1032 | the copy of a tree is equal to it if and only if its attributes copy, its leaves have no children, and no document is a child |
| XmlTree.CloneIdempotent | tinyXml/src/tinyxml.cpp:988-1032 | a copy of a copy is equal to it, for every tree |
| XmlTree.Clone | tinyXml/src/tinyxml.cpp:1024-1032 | cloning any node ends in a new, separate, well-formed tree that shares no node with the original and stands for the copied tree; nothing existing is changed |
| XmlTree.CopyChildren | tinyXml/src/tinyxml.cpp:1003-1007 | the loop over the children links the copies in order and leaves out documents |
| XmlPrinter.Printer.Accept | tinyXml/src/tinyxml.cpp:1010-1021 | visiting any tree, at any depth and with any indentation, appends exactly the recursively described text and gives back depth and flag |
| XmlPrinter.Printer.AcceptChildren | tinyXml/src/tinyxml.cpp:1438-1449 | the visits of the children append their texts in order |
| XmlPrinter.Printer.VisitEnterElement | tinyXml/src/tinyxml.cpp:2161-2195 | the opening tag is appended, the depth raised, and the flag set exactly for a lone text child that is not CDATA |
| XmlPrinter.Printer.VisitExitElement | tinyXml/src/tinyxml.cpp:2198-2221 | the closing tag is appended unless there is none, and depth and flag go back |
| XmlPrinter.Printer.PrintAttributes | tinyXml/src/tinyxml.cpp:2167-2171 | the attributes are printed in ring order |
| XmlPrinter.ElementText | tinyXml/src/tinyxml.cpp:2161-2221 | the two visits of an element and those of its children make up its text in each of the three layouts |
| XmlPrinter.ElementShape | tinyXml/src/tinyxml.cpp:2173-2192 | the pointer tests of the visitor hold exactly when the tree has no child, or one text child that is not CDATA |
| XmlPrinted.PrettyReadsBack | tinyXml/src/tinyxml.cpp:2151-2280 | a reader of XML 1.0 reads the printed nodes back as they are, with exactly the white space of the layout between them: a line break and one indentation per level in front of each node, none around a lone text |
| XmlPrinted.RoundTrip | tinyXml/src/tinyxml.cpp:2151-2280 | without the white space around texts the reader's result is the printed list of trees |
| XmlPrinted.PrintedDocument | tinyXml/src/tinyxml.cpp:1438-1449 | the same for a whole document and for a single node, at any depth |
| XmlPrinter.DelimiterExactly | tinyXml/src/tinyxml.cpp:1492-1515 | the delimiter occurs in a printed value if and only if the value holds a double quote and an apostrophe in a passed-through reference |
| XmlPrinter.AttributeReadable | tinyXml/src/tinyxml.cpp:1492-1515 | without references only the delimiters are quotes and the reader gives name and value back |
| XmlPrinter.DelimiterLost | tinyXml/src/tinyxml.cpp:1492-1515 | a value for which the delimiter comes too early |
| ThreadPool.Worker.AddJob | libEventMoudle/src/CWorkThread.cpp:32-37 | a job goes behind all waiting ones |
| ThreadPool.Worker.GetJob | libEventMoudle/src/CWorkThread.cpp:39-54 | the oldest job is taken |
| ThreadPool.EnqueueExactly | libEventMoudle/src/CThreadPool.cpp:32-38 | a job is added behind the queue numbered index modulo the number of queues, and to no other |
| ThreadPool.Pool.Run | libEventMoudle/src/CThreadPool.cpp:32-38 | the job goes to the end of the queue numbered index modulo pool size, and to no other |
| EventLoop.ServerSocket.AcceptConnCb | libEventMoudle/src/ServrSocket.cpp:121-155 | the tables, queues and live connections after an accept |
| EventLoop.ServerSocket.ReadCb | libEventMoudle/src/ServrSocket.cpp:157-172 | a read resets the counter and posts one job |
| EventLoop.ServerSocket.EventCb | libEventMoudle/src/ServrSocket.cpp:189-208 | only an error or an end of file closes |
| EventLoop.ServerSocket.TimerCb | libEventMoudle/src/ServrSocket.cpp:211-238 | a tick counts, then beats or closes |
| EventLoop.ServerSocket.BufMapDeleteBuf | libEventMoudle/src/ServrSocket.cpp:246-269 | closing posts one close job and clears all tables, once |
| EventLoop.ServerSocket.BufSend | libEventMoudle/src/ServrSocket.cpp:272-281 | only a connection in the map is written to, and then libevent's answer is given; otherwise -1 |
| EventLoop.MapsFollowHistory | libEventMoudle/src/ServrSocket.cpp:121-279 | in every reachable state the three tables have the same keys and are what the history of each connection says |
| EventLoop.JobsInOrder | libEventMoudle/src/ServrSocket.cpp:121-172 | over every run and interleaving of workers, executed and waiting jobs of a connection together are one accept, its reads in order, one close: none lost, none run twice |
| EventLoop.OneQueue | libEventMoudle/src/CThreadPool.cpp:32-38 | over every run all waiting and running jobs of a connection are at the worker numbered by its socket modulo the number of workers |
| EventLoop.ExecutedPrefix | libEventMoudle/src/CWorkThread.cpp:21-54 | what was run for a connection is always a prefix of that |
| EventLoop.OneCloseLast | libEventMoudle/src/ServrSocket.cpp:246-269 | at most one close is run, as the last job |
| EventLoop.TimersFollowHistory | libEventMoudle/src/ServrSocket.cpp:240-269 | over every run the table holds for each open connection the timer made when it was accepted, the one that closing deletes |
| EventLoop.SilenceCounted | libEventMoudle/src/ServrSocket.cpp:211-238 | the phase counter of a connection is its number of ticks since the last accept or read |
| EventLoop.CountersAreSilence | libEventMoudle/src/ServrSocket.cpp:211-238 | every counter in every reachable state is that number, and it is 0 to 4 |
| EventLoop.ClosedAtFifthSilentTick | libEventMoudle/src/ServrSocket.cpp:211-238 | a tick closes a connection exactly when it is the fifth in a row without a read |
| EventLoop.BeatsFollowHistory | libEventMoudle/src/ServrSocket.cpp:211-238 | over every run one heartbeat is written for each tick of an open connection that is not its fifth silent one, in order, and no others |
| EventLoop.SendableExactlyWhileOpen | libEventMoudle/src/ServrSocket.cpp:272-281 | a bufferevent can be sent to exactly while a connection is open on it |
| Delivery.HandledFirst | libEventMoudle/src/CWorkThread.cpp:21-54 | over every run the chunks handled for a connection are the first of the received ones, in order |
| Delivery.AllHandled | libEventMoudle/src/CWorkThread.cpp:21-54 | once none of its jobs waits or is being run, all are handled |
| Delivery.CallbacksInOrder | libEventMoudle/src/ServrSocket.cpp:157-172 | over every run and interleaving, while no bad frame is received, the callbacks fired are the first of those the received stream calls for, and all of them once all chunks are handled |
| Delivery.CommandsInOrder | parseProtocolModule/src/ProtocolParser.cpp:23-84 | when a client sends built frames, the callbacks fired at any moment are the first of the sent commands, in order and with their data, whatever is still under way |
| ConnectionPool.DbNVManager.GetNVDataAccess | libSql/src/DbNVManager.cpp:153-215 | the loop locks and returns the first free adapter, else a newly created one |
| ConnectionPool.DbNVManager.ReleaseNVDataAccess | libSql/src/DbNVManager.cpp:218-230 | the count of that adapter goes down and no other changes |
| ConnectionPool.ChoiceExactly | libSql/src/DbNVManager.cpp:153-215 | the adapter handed out is the first one nobody holds, and the new one only when there is none |
| ConnectionPool.StepKeepsExclusive | libSql/src/DbNVManager.cpp:153-230 | every step keeps each count at 1 for a held adapter and 0 for the others |
| ConnectionPool.PoolSizeIsPeak | libSql/src/DbNVManager.cpp:153-230 | over every run the pool is exactly as large as the largest number of adapters ever held together |
| ConnectionPool.NeverHandedTwice | libSql/src/DbNVManager.cpp:153-230 | no run hands out an adapter somebody holds |
| ConnectionPool.ReturnKeepsCountsExactly | libSql/src/DbNVManager.cpp:63-78 | a return keeps the counts at 0 or 1 if and only if the adapter is held or unknown |
| ConnectionPool.DoubleReturnLosesAdapter | libSql/src/DbNVManager.cpp:72-78 | an adapter returned twice is not handed out by any later run |
| AddressIndexes.ColonKeyInjective | tcpModule/src/HostAdddress.cpp:46-62 | two addresses share an ip:port key if and only if they differ in nothing but commas |
| AddressIndexes.DecimalExactly | tcpModule/src/HostAdddress.cpp:52-62 | the port's digits stand for the port, without a leading zero |
| AddressIndexes.RemoveCommaExactly | tcpModule/src/HostAdddress.cpp:52-62 | removing commas drops each comma and keeps every other character in its place |
| AddressIndexes.KeyForms | tcpModule/src/TCPServiceManager.cpp:184-202 | the keys character by character: ip, `-` or `:`, and the port in decimal |
| AddressIndexes.DashKeyInjective | tcpModule/src/TCPServiceManager.cpp:184-202 | ip-port keys are injective |
| AddressIndexes.HostAddressMap.SetHostAddress | tcpModule/src/HostAddressMap.cpp:33-46 | an entry is replaced exactly for a valid handle and port |
| AddressIndexes.HostAddressMap.RemoveHostAddress | tcpModule/src/HostAddressMap.cpp:57-77 | exactly the entry of the key goes |
| AddressIndexes.TCPServiceManager.RemoveTcpService | tcpModule/src/TCPServiceManager.cpp:165-181 | handle and link of the address go, each under its own key |
| AddressIndexes.TCPServiceManager.SaveLinkAndCallBack | tcpModule/src/TCPServiceManager.cpp:84-104 | a connect changes all three maps as one step |
| AddressIndexes.TCPServiceManager.DeleteLinkAndCallBack | tcpModule/src/TCPServiceManager.cpp:116-136 | so does a disconnect |
| AddressIndexes.TCPServiceManager.StopTcpServer | deviceModule/src/deviceManager.cpp:54-66 | a stop removes handle and link and keeps the device |
| AddressIndexes.DeviceManager.CountByUuid | deviceModule/src/deviceManager.cpp:187-197 | the counting loop gives the number of devices with the uuid |
| AddressIndexes.DeviceManager.OnConnect | deviceModule/src/deviceManager.cpp:122-133 | a new address gets a device, a known one keeps its own |
| AddressIndexes.DeviceManager.OnDisconnect | deviceModule/src/deviceManager.cpp:199-211 | the device goes and its client is reported exactly when it was logged in and alone |
| AddressIndexes.LinksFollowHistory | tcpModule/src/TCPServiceManager.cpp:84-181 | over every run, for all ips, links and devices have exactly the keys of the addresses the history says, and the linked ones are among the known |
| AddressIndexes.HandlesFollowHistory | tcpModule/src/HostAddressMap.cpp:33-77 | over every run on comma-free ips the handle map holds exactly the linked addresses, each with the handle of its last connect |
| AddressIndexes.LinkFollowsHistory | tcpModule/src/TCPServiceManager.cpp:84-136 | over every run the link of an address is the service of its first connect since it was last stopped or disconnected |
| AddressIndexes.DeviceFollowsHistory | deviceModule/src/deviceManager.cpp:122-211 | over every run the device of an address has the uuid, login flag, type and expiry that its history gives |
| AddressIndexes.LinkAndDevice | tcpModule/src/TCPServiceManager.cpp:84-181 | an address has a link exactly when it is linked, a device exactly when it is known, and so a device whenever it has a link |
| AddressIndexes.IndexesAgree | tcpModule/src/HostAddressMap.cpp:19-31 | a handle goes with a link in both directions, and GetHostAddress gives the handle of the last connect exactly while the address is linked |
| AddressIndexes.NoStopsNoStrays | deviceModule/src/deviceManager.cpp:122-211 | in runs without a stop the device map and the link map have the same keys, for all ips |
| AddressIndexes.StraysExactly | deviceModule/src/deviceManager.cpp:54-66 | in all runs the device map exceeds the link map by exactly the addresses stopped and not yet disconnected |
| AddressIndexes.StopLeavesDevice | deviceModule/src/deviceManager.cpp:54-66 | a stop leaves the device of a linked address until the disconnect |
| AddressIndexes.ReportsExactly | deviceModule/src/deviceManager.cpp:199-211 | over every run a disconnect or stop adds a report exactly when the client is logged in on the only device with its uuid, and then exactly that report; no other step adds any |
| AddressIndexes.OneReportPerLogin | deviceModule/src/deviceManager.cpp:173-211 | over every run a client is reported gone at most once per login |
| AddressIndexes.ReportedAlone | deviceModule/src/deviceManager.cpp:173-211 | every report of every run was made by a stop or disconnect before which its client was logged in on the only device with its uuid |
| LoginRegistry.Registry.MapAddUser | business/src/wisLogginHandler.cpp:204-221 | the walk that erases while it iterates evicts exactly the other sessions of the uuid, and each gets a kick-out |
| LoginRegistry.Registry.MapAddDevice | business/src/wisLogginHandler.cpp:223-238 | the same without a kick-out |
| LoginRegistry.Registry.MapDeleteUser | business/src/wisLogginHandler.cpp:240-245 | exactly the entry of the address goes |
| LoginRegistry.Registry.MapDeleteDevice | business/src/wisLogginHandler.cpp:262-266 | the same for devices |
| LoginRegistry.Registry.MapDeleteSameUser | business/src/wisLogginHandler.cpp:247-260 | exactly the sessions of the uuid go |
| LoginRegistry.Registry.GetAddress | business/src/wisLogginHandler.cpp:182-202 | the lowest address of the uuid, null when there is none |
| LoginRegistry.Registry.HandleKickoutUser | business/src/wisLogginHandler.cpp:73-83 | the loop ends, and the sessions and kick-outs after it |
| LoginRegistry.KickoutsExactly | business/src/wisLogginHandler.cpp:204-221 | the kick-outs go to exactly the other sessions of the uuid, or to all of them, each once and in ascending order |
| LoginRegistry.KickoutsFollowHistory | business/src/wisLogginHandler.cpp:73-83 | over every history of users one kick-out is sent for each session ended by another address's login or by a kick-out, and no others |
| LoginRegistry.SessionsFollowHistory | business/src/wisLogginHandler.cpp:204-267 | over every history an address holds a uuid exactly when the history says so |
| LoginRegistry.OneSessionPerUuid | business/src/wisLogginHandler.cpp:204-267 | no two addresses ever hold one uuid, and lookup finds the one there is |
| LoginRegistry.FindExactly | business/src/wisLogginHandler.cpp:182-202 | a lookup finds the lowest address logged in under the uuid, and null only when there is none |
| LoginRegistry.LookupAfterLogin | business/src/wisLogginHandler.cpp:204-221 | after a login lookup returns the new address, whatever the registry held |
| LoginRegistry.StaleLogoutHarmless | business/src/wisLogginHandler.cpp:262-266 | deleting a stale address never removes the newer session |
| LoginRegistry.KickoutExactly | business/src/wisLogginHandler.cpp:73-83 | no session of the uuid is left if and only if the null address is not one of them |
| Timers.TicksExactly | timer/src/TimerThread.cpp:20-40 | after n passes a timer has fired n/p times and its countdown shows p - n%p, where p is its interval k, or k + 2^32 when k is not positive, because the 32-bit countdown then goes once around |
| Timers.TimerThread.Register | timer/src/TimerThread.cpp:42-48 | the timer is added behind the others |
| Timers.TimerThread.Pass | timer/src/TimerThread.cpp:20-40 | one pass ticks every timer once |
| Timers.TimerThread.Run | timer/src/TimerThread.cpp:20-48 | n passes over distinct timers give each exactly its own count, n/k for an interval k > 0, whatever the others are |

## Left out

- Sockets, libevent, threads, sleeping, MySQL, push services, mail and logging: they appear as steps, as parameters, or as lists of what was sent.
- EventLoop.MapsFollowHistory: what libevent and the allocator guarantee is the predicate `Allowed`; a late callback of a closed connection does not meet its bufferevent in use again.
- Re-entrant callbacks: parser and timer callbacks are recorded in order and do not call back into the parser or the timer list.
- ProtocolParsers.ProtocolParser.ParseSocketProtocol: the function has no return statement, so its result is not modelled; buffers of 2^31 bytes or more and a null callback are excluded.
- SmartBuffers.SmartBuffer.Append: a failing allocation is not modelled.
- AddressIndexes.HandlesFollowHistory: addresses whose ip holds a comma are excluded from the statements about the handle map, because their ip:port keys collide as `ColonKeyInjective` says; the fixed ip buffer size and the internals of CDevice beyond uuid, login flag and type are not modelled.
- ConnectionPool.PoolSizeIsPeak: covers getting and releasing; CDbNVManager::Release, which clears the map while iterating over it, and the unused life counts are not modelled.
- LoginRegistry.Registry.HandleKickoutUser: one step of a run, although the source holds no lock across its loop: each lookup and each deletion locks by itself, so another thread's step may come in between.
- Delivery.CallbacksInOrder: the read jobs of a connection are taken to reach one parser, that of the device made by its accept job; data for an address without a device, which the source drops, is not modelled.
- Timers.TicksExactly: a decrement below the smallest `int` is taken to wrap, as the x86-64 build does; the language leaves it undefined.
- Timers.TimerThread.Run: unRegister and registering one timer twice are excluded.
- XmlText.InvertibleExactly: the reader is written as functions over the entity code with the legacy encoding; UTF-8 decoding and the rest of the XML parser are not modelled.
- XmlTree.Clone: error fields, tab size, byte-order mark and user data of the cloned nodes are not modelled, nor is the null result of a failing allocation; attribute names are taken to hold no zero byte, as every way of naming an attribute goes through a C string.
- XmlNodes.Node.LinkEndChild: the source deletes a refused document; this contract leaves it, unlinked, among the nodes, CopyChild drops it from the copy, and LinkEndTree states the deletion for a tree without a parent.
- XmlEdits.ReplaceChild: deleting a child takes its nodes out of the forest; the memory itself is not modelled.
- XmlEdits.RemoveChild: the assertion on a foreign child is modelled as the refusal that follows it.
- XmlPrinter.Printer.Accept: the FILE printing and the stand-alone Print into a buffer are not modelled; the loop over the children can stop early, but this visitor never asks it to.
- XmlPrinted.PrettyReadsBack: trees that XML cannot express are not read back: names that are no names, texts and values with `&#x`, comments with `--`, CDATA sections with `]]>`; names are checked byte by byte, and the reader does not check that attribute names differ.
- XmlPrinted.RoundTrip: texts that are empty, start or end with white space, or stand next to another text cannot be told from the layout.
- The JSON headers, the DES wrapper and the STL and Windows branches: declarations, foreign code and duplicates.
- Trivial accessors, and child searches by value.
