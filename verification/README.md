# moc, modelled and verified in Dafny

moc is a message server with a client library. This project models the parts of it whose
meaning is simple and whose code is not, and proves that the code means what it should:

- **Streams.** A connection carries messages behind 32-bit length words. `Framing` says what a
  byte stream means. `TcpSocket` (server) and `ClientStream` (client) rebuild messages from
  arbitrary `recv()` chunks in shared and private buffers, and are proved to deliver exactly
  the messages of the whole stream.
- **Requests and answers.** `Packet` and `ClientSend` build and decode requests,
  `Conversation` follows ids, answers and pushes back to the client, and `Delivery` puts the
  pieces together: a tree set by a client is the tree found by the server.
- **HDF trees.** `HdfLevel` and `HdfTree` are the linked tree with its hash per level and its
  last-hit shortcut, changed in place and proved against the path map of `HdfView`.
  `HdfHash` carries the hash of a level down to the buckets of `HashTable`.
  `HdfDoc` and `HdfText` are the text form, with the printer and the reader, and `HdfAgree`
  ties the reader's trees to the path map. `HdfGrammar` and `HdfMeaning` say what written
  text means: comments, indentation, dotted paths and nested blocks.
- **Tables.** `HashTable` is the chained hash table whose buckets are split in place;
  `CacheRun`, `CacheHistory` and `Cache` are the cache: what it means, what its answers say
  about the past of a run, and the doubly linked chains that realise it. `Decimal` is the
  text form of its counters, and `CacheCount` what runs of increments answer.
- **The running server.** `Queue` is the request queue. `ServerRun` is the server as a system
  of atomic steps of the main thread and the workers; `ServerSafe` and `ServerOrder` prove
  what every run keeps.
- **Algorithms.** `Wildmat` (wildcards with the ABORT cut-off) with `WildPattern` (what written
  patterns match), `Crc` (table-driven CRC-32)
  and `Escape` (escaping codecs).

Code that changes things in place is modelled by classes, arrays and loops; what it means is
a function of values, and the main theorems are about those functions and about whole runs.
A byte is an integer below 256 and an HDF string is a C string without its NUL.

## Where the code does not do what one would expect

The theorem is named where there is one, with the exact condition.

- The round trip of the text form loses attributes of value `1`, leaves without a value,
  attributes of nodes without a value, and outer space of values. `HdfText.RoundTrip` says
  that it returns the tree exactly when there is none of these (`HdfText.Lossless`);
  `HdfText.OneIsLost` is a tree that does not come back.
- `neos_unescape` never recognises an escape character above 127, because it compares a byte
  with a signed char. `Escape.RoundTrip` holds exactly for ASCII escape characters or when
  nothing is listed; `Escape.HighEscapeFails` is a string that does not come back.
- The synchronous reader drops whatever else one `recv()` brings, and if a `recv()` ends
  inside a later message it takes the middle of that message for a length, an id and a code.
  - It accepts the answer whenever every earlier `recv()` ends with a message or inside its
    first one and the answer comes first in its own `recv()`
    (`Conversation.ReaderTakesLatest`, wherever that `recv()` ends and whatever follows).
  - If the answer comes behind another message in a `recv()` that brings all of it, it is
    never looked at (`Conversation.ReaderDropsLatest`; `Conversation.AnswerLost`).
  - If an earlier `recv()` ends inside a later message, the next round starts there
    (`Conversation.EndsInside`, `Conversation.OneRecv`), and a push can be taken for the
    answer (`Conversation.PushTaken`; `Conversation.WrongAnswer` is such a stream). This
    condition is not necessary: misread bytes may happen to bring the reader back into step.
  - If the peer closes inside the answer, at least one byte after the first `recv()`, the
    beginning of the answer is accepted as if it were all (`Conversation.TruncatedAnswer`, with
    the exact condition).
  - When every `recv()` of the stream ends with a message or inside its first one, the answer
    is accepted exactly when it comes first in its `recv()`
    (`Conversation.AlignedReaderExact`).
- A worker reads the stop flag after it has given the queue back, so a request that arrives in
  between is freed unprocessed (`ServerOrder.LateRequest`). A worker that has stopped has
  processed exactly the requests queued before its last look
  (`ServerOrder.ProcessedIffInTime`).
- A queue grows past `MAX_QUEUE_ENTRY`, since requests are refused only at multiples of a
  hundred: the lengths it reaches are exactly those up to 2097200 (`ServerOrder.QueueLengths`).
- A cache chain holds `chainlen + 1` entries: the lengths it reaches are exactly those up to
  five (`CacheHistory.ChainLengths`).
- Setting a key that is there does not renew its expiry. A set gives an entry its own expiry
  exactly when the key was not in its chain, or had that expiry already
  (`CacheRun.SetExpiry`); an entry keeps the expiry of the set that made it
  (`CacheHistory.ExpiryIsOfBirth`); `CacheHistory.OldExpiryStays` is a key that is lost
  although it was set again in time.
- `num` in the hash table counts overwrites too (neo_hash.c:101): it is the number of entries
  plus the number of overwrites (`HashTable.Table.Insert`), so it is the number of entries
  exactly when no insert has overwritten one. `HashTable.InsertTwice` is a table of one entry
  that counts two.
- The comment at server/parse.c:277-280 allows for messages of one byte; the code refuses
  everything below 17 bytes (line 245). The code is followed.

## Model

| member | source | states |
|---|---|---|
| `Bytes.BigEndian` | client/packet.c:65-68 | words are stored with their highest byte first |
| `Framing.FirstLength` | server/tcp.c:374-380 | a stream breaks at its first length word exactly if that is 8 or less, or above 65536 |
| `Framing.DeframeExact` | server/tcp.c:369-465 | a stream is waiting with messages ms and pending bytes r exactly when it is the frames of ms followed by r, r is the beginning of a legal frame and all of ms are accepted: nothing is lost or invented |
| `Framing.DeframeShape` | server/tcp.c:369-465 | the messages of any stream are legal, and its pending bytes are fewer than the frame they begin |
| `Framing.DeframeAppend` | server/tcp.c:409-442 | a waiting stream goes on as if only the pending bytes had been kept; a broken one stays broken with the same messages |
| `Framing.DeframeJoin` | server/tcp.c:369-442 | framed messages are read back, whatever follows them |
| `Framing.ChunkingIsIrrelevant` | server/tcp.c:311-465 | a reader that keeps only pending bytes between chunks delivers the messages of the whole stream, for every cutting |
| `TcpSocket.Socket.Receive` | server/tcp.c:311-365 | after any chunk of up to what was asked for, delivered messages, pending bytes and status are those of all bytes received |
| `TcpSocket.Socket.ProcessBuf` | server/tcp.c:369-465 | the recursive unwrapping, with excess bytes moved to the front of either buffer, delivers the messages of the buffer and keeps its incomplete rest |
| `TcpSocket.Socket.KeepPartial` | server/tcp.c:387-407 | an incomplete frame is kept byte for byte in the private buffer, with the number of bytes it wants |
| `TcpSocket.Socket.HangUp` | server/tcp.c:357-365 | the end of the stream delivers nothing and leaves the connection hung up |
| `TcpSocket.ReceiveAll` | server/tcp.c:311-465 | for every way the network cuts a stream, the server delivers the messages of the whole stream and drops the connection exactly when the stream is broken |
| `ClientStream.Link.Receive` | client/eloop.c:116-124 | after any chunk that fits beside the pending bytes, the link has delivered the messages of all bytes received |
| `ClientStream.Link.Parse` | client/mscli.c:248-333 | the recursive reassembly delivers the messages of the buffer and keeps the rest; it ends because every message takes more than eight bytes |
| `ClientStream.ReceiveAll` | client/mscli.c:248-333 | every cutting of a legal stream that fits the buffer delivers the messages of the whole stream |
| `Packet.NamesThatFit` | client/moc.c:44-51 | module names of up to 476 bytes are exactly those for which every text fits the 65536 bytes of a frame |
| `Packet.TextReadsBack` | client/packet.c:54-74 | the text ends at its NUL or at the word that ends the packet: of a text too long, exactly the first 65024 bytes arrive |
| `Packet.CellReadsBack` | client/packet.c:3-36 | `unpack_data_str` gets back the text that `pack_hdf` wrote, and counts the whole cell |
| `Packet.RequestReadsBack` | server/parse.c:186-295 | every request that fits is decoded to the same id, command, flags, module name and text |
| `Packet.RequestArrives` | server/parse.c:237-295 | on the stream a request is one frame if it fits, and breaks the stream if it does not |
| `Packet.AcceptedMessages` | server/parse.c:245-275 | a message is not refused outright exactly if it has 17 bytes or more and its first four bits are 1 |
| `Packet.DecodesExactly` | server/parse.c:186-295 | a message is taken for a request exactly if it has the form of one: header, name, a string cell under any key, a NUL, and sizes that pass the checks modulo 2^32 |
| `Packet.SmallRequest` | client/packet.c:54-94 | the bytes of a small request |
| `ClientSend.Client.Trigger` | client/moc.c:33-57 | the payload buffer holds the frame of the request under the next id, which is not zero |
| `ClientSend.Client.PackDataStr` | client/packet.c:54-74 | the bytes of a string cell behind what was there |
| `ClientSend.Client.PackHdf` | client/packet.c:76-94 | the cell and the end word behind what was there |
| `ClientSend.Client.PutLength` | client/tcp.c:181-187 | the length word in front of what was written |
| `Conversation.EncodeReadsBack` | server/tcp.c:130-188 | id, code and value of short and long answers and of pushes are where the client reads them |
| `Conversation.SmallAnswers` | server/tcp.c:130-188 | the bytes of a push and of short and long answers |
| `Conversation.IdsCycle` | client/moc.c:33-35 | the k-th request has id 1 + (k - 1) mod 0x0FFFFFFD, so ids lie in 1..0x0FFFFFFD |
| `Conversation.AnswersAreReplies` | client/mscli.c:179-227 | an answer carries the id of its request, is never taken for a push, and is a reply or stale by the order of the ids |
| `Conversation.PushesArePushes` | plugin/private/base_internal.c:171-190 | a push is taken for a push, whatever the last id |
| `Conversation.Pushes` | client/mscli.c:179-189 | a message is taken for a push exactly if it starts with id 0 and code 10000 and has four bytes more |
| `Conversation.Reader` | client/tcp.c:264-297 | the receive loop computes the reader function, for every cutting of the stream |
| `Conversation.TooLong` | client/tcp.c:141-145 | a length above 65536 ends the reading |
| `Conversation.OneMessage` | client/tcp.c:124-157 | for every recv, one round looks at the message at the front only, and all bytes of the recv are gone |
| `Conversation.OneRecv` | client/tcp.c:124-157 | for every recv, after the first message is skipped the next round finds the rest of the message the recv ended in, and what comes after it |
| `Conversation.EndsInside` | client/tcp.c:141-157 | a recv that ends inside a message behind others leaves the second half of that message to the next round |
| `Conversation.SkipsAligned` | client/tcp.c:264-297 | recvs that end with a message or inside their first one are skipped if their first messages are pushes or stale, whatever bytes follow |
| `Conversation.ReaderTakesLatest` | client/tcp.c:264-297 | before the counter wraps, if the earlier recvs end with a message or inside their first one and the answer is first in its recv, the reader skips pushes and stale answers and accepts it, wherever its recv ends and whatever follows |
| `Conversation.ReaderDropsLatest` | client/tcp.c:264-297 | an answer that a recv brings whole behind another message is never looked at: the outcome depends on later bytes only |
| `Conversation.AlignedReaderExact` | client/tcp.c:264-297 | if every recv ends with a message or inside its first one, the message with the awaited id is accepted exactly when it is first in its recv, and nothing is found otherwise |
| `Conversation.TruncatedAnswer` | client/tcp.c:147-156 | if the stream ends inside the answer past its code, its beginning is accepted exactly when the end is a close and a byte came after the first recv, and nothing is found otherwise |
| `Conversation.AnswerLost` | client/tcp.c:264-289 | a push and an answer in one recv: the answer is lost |
| `Conversation.PushTaken` | client/tcp.c:264-297 | whenever a recv ends four bytes into a push behind other messages and the next brings twelve bytes or more, the push is taken for the answer, with the length of its value for a code |
| `Conversation.WrongAnswer` | client/tcp.c:264-297 | two pushes and an answer, cut after 20, 12 and 12 bytes: the reader returns code 0 from the second push |
| `Delivery.CallsArrive` | client/moc.c:33-57 | any sequence of calls, cut into any chunks, arrives as the same calls in order, each with what the printer keeps of its tree, and no byte is left |
| `Delivery.LosslessArrives` | client/packet.c:38-52 | a call arrives unchanged exactly when its tree is one that the text form keeps |
| `HdfView.SplitIsInverse` | client/clearsilver/util/neo_hdf.c:641-643 | every name is its components with dots between them, and no component has a dot |
| `HdfView.SplitOfDotted` | client/clearsilver/util/neo_hdf.c:641-643 | the components of a path joined with dots are those of the path |
| `HdfView.ApplyByName` | client/clearsilver/util/neo_hdf.c:575-825 | setting and removing by name is setting and removing the path whose components the name joins; an empty component stops a set, and the empty name is the root |
| `HdfView.AddPathLaw` | client/clearsilver/util/neo_hdf.c:641-825 | making a path makes it and its ancestors, without values; every other node is as it was, and old children stay in front |
| `HdfAgree.ViewAdd` | client/clearsilver/util/neo_hdf.c:641-825 | exactly what making a path shows at every path: which name is appended to which children, and nothing else |
| `HdfView.RemovePathLaw` | client/clearsilver/util/neo_hdf.c:949-1023 | after a removal a path is there exactly when it was and is not below the removed one |
| `HdfView.RemovePathKids` | client/clearsilver/util/neo_hdf.c:1000-1017 | a removal takes one name out of the children of the parent and leaves the others in order |
| `HdfLevel.FindForSet` | client/clearsilver/util/neo_hdf.c:668-714 | shortcut, hash and scan find what a scan would find, or the place where a new child goes |
| `HdfLevel.Child` | client/clearsilver/util/neo_hdf.c:243-262 | a step down by the hash or by a scan finds the child of that name, if there is one |
| `HdfLevel.HashLevel` | client/clearsilver/util/neo_hdf.c:557-573 | the new hash maps every name of the level to its node and nothing else |
| `HdfHash.BuildIndex` | client/clearsilver/util/neo_hdf.c:557-573 | the loop over the children leaves a hash table that holds each of them under its name and nothing else |
| `HdfHash.FindInIndex` | client/clearsilver/util/neo_hdf.c:687-693 | a lookup in the buckets of the table finds what a scan of the list would find |
| `HdfHash.AddToIndex` | client/clearsilver/util/neo_hdf.c:748-752 | the table of a level stays in step with its list when a child is added |
| `HdfHash.RemoveFromIndex` | client/clearsilver/util/neo_hdf.c:1000-1003 | the table of a level stays in step with its list when a child is removed |
| `HdfLevel.AddChild` | client/clearsilver/util/neo_hdf.c:716-753 | the level is its old children and the new one, with `last_child`, shortcut and hash in step |
| `HdfLevel.RemoveChild` | client/clearsilver/util/neo_hdf.c:1000-1020 | the level is its old children without the removed one, with `last_child`, shortcut and hash in step |
| `HdfTree.Tree.Walk` | client/clearsilver/util/neo_hdf.c:199-294 | the node found is the one the view has at that path, and none is found exactly when the view has none |
| `HdfTree.Tree.Get` | client/clearsilver/util/neo_hdf.c:313-322 | the value in the view, or the default if there is no node or no value |
| `HdfTree.Tree.Set` | client/clearsilver/util/neo_hdf.c:575-825 | the view is the old one with the path set; an empty component stops it after the nodes made so far |
| `HdfTree.Tree.Remove` | client/clearsilver/util/neo_hdf.c:949-1023 | the view is the old one without the path and everything below it |
| `HdfTree.Tree.ShowsATree` | client/clearsilver/util/neo_hdf.c:557-825 | what a reachable tree shows has no name twice among siblings, no empty name and no orphan |
| `HdfTree.RunAll` | client/clearsilver/util/neo_hdf.c:575-1023 | after any run of sets and removes the linked tree shows what the plain path map shows |
| `HdfDoc.QuotedReadsBack` | client/clearsilver/util/neo_hdf.c:1439-1492 | the quoted-value reader undoes `repr_string_alloc` for every text |
| `HdfDoc.AttrsReadBack` | client/clearsilver/util/neo_hdf.c:1408-1545 | a printed attribute list is read back in order, with every value 1 come back empty |
| `HdfDoc.BareValueReads` | client/clearsilver/util/neo_hdf.c:1493-1504 | an unquoted value reaches to the next space, comma or bracket |
| `HdfDoc.QuotedForm` | client/clearsilver/util/neo_str.c:534-605 | how quotes, backslashes, line breaks and other bytes are written |
| `HdfDoc.OtherEscapes` | client/clearsilver/util/neo_hdf.c:1439-1492 | an escaped character without meaning stands for itself, and octal may be short |
| `HdfText.PrintedReadsBack` | client/clearsilver/util/neo_hdf.c:1552-1767 | a printed tree is read to its end, as exactly what the printer keeps of it, with order and attributes |
| `HdfText.KidsReadBack` | client/clearsilver/util/neo_hdf.c:1552-1767 | printed siblings are read back behind the children already there, whatever text follows |
| `HdfText.KeptIsAll` | client/clearsilver/util/neo_hdf.c:1150-1264 | the printer keeps a tree as it is exactly when the tree is lossless |
| `HdfText.KeptAt` | client/clearsilver/util/neo_hdf.c:1150-1264 | what is left at every path of a printed tree: nothing of a node without value and children, else the stripped value, the attributes if there is a value, and what is kept of the children |
| `HdfText.KeptJoins` | client/clearsilver/util/neo_hdf.c:1169-1260 | siblings are kept one by one, in order |
| `HdfText.RoundTrip` | client/clearsilver/util/neo_hdf.c:1150-1264 | reading back the print of a tree gives the tree exactly when it is lossless |
| `HdfText.OneIsLost` | client/clearsilver/util/neo_hdf.c:1193-1194 | an attribute of value 1 is printed as a bare key and comes back empty |
| `HdfText.PrintedForm` | client/clearsilver/util/neo_hdf.c:1150-1264 | a small tree as it is printed |
| `HdfText.MergeLaw` | client/clearsilver/util/neo_hdf.c:514-555 | what merging attributes leaves under every key; if the first new key is not there yet, it is the only one taken over |
| `HdfText.Dump` | client/clearsilver/util/neo_hdf.c:1150-1264 | the loop over siblings, with recursion on children, prints the text form |
| `HdfText.DumpAttrs` | client/clearsilver/util/neo_hdf.c:1184-1214 | the loop over attributes prints the list |
| `HdfText.Read` | client/clearsilver/util/neo_hdf.c:1552-1767 | the loop over lines, with recursion on braces, computes the reading of the text |
| `HdfText.ParseAttr` | client/clearsilver/util/neo_hdf.c:1408-1545 | the loop over attributes computes the reading of the list, or fails where it fails |
| `HdfGrammar.BlankLines` | client/clearsilver/util/neo_hdf.c:1571-1621 | the lines that say nothing are exactly those of space and the comments |
| `HdfGrammar.CloseLines` | client/clearsilver/util/neo_hdf.c:1609-1620 | the lines that end a block are exactly a closing brace in space |
| `HdfGrammar.StripPadded` | client/clearsilver/util/neo_str.c:33-56 | stripping takes off exactly the outer space |
| `HdfGrammar.SetLine` | client/clearsilver/util/neo_hdf.c:1623-1646 | a line of a name and a value, with any space around them, sets that name to that value |
| `HdfGrammar.CommentsSayNothing` | client/clearsilver/util/neo_hdf.c:1562-1608 | for every text, blank lines and comments put before any of its lines change neither the tree nor the outcome |
| `HdfGrammar.EmptyComponentFails` | client/clearsilver/util/neo_hdf.c:1646-1650 | a line that sets a name with an empty component makes the reading fail |
| `HdfMeaning.DocReads` | client/clearsilver/util/neo_hdf.c:1552-1767 | reading a document does what its items do, whatever follows it |
| `HdfMeaning.DocBelow` | client/clearsilver/util/neo_hdf.c:1677-1699 | inside a block, the items do to its node what acts with full paths do to the whole tree |
| `HdfMeaning.DocumentMeans` | client/clearsilver/util/neo_hdf.c:1552-1767 | reading any document, with indentation, comments, dotted paths and nested blocks, leaves what setting the same full paths in order leaves in the path map |
| `HdfMeaning.LinesAreCalls` | client/clearsilver/util/neo_hdf.c:1640-1651 | lines that set dotted paths are read as the same calls of hdf_set_value leave it |
| `HdfAgree.TreeSet` | client/clearsilver/util/neo_hdf.c:575-825 | what a caller sees at any path of a value tree after a set |
| `HdfAgree.ViewSet` | client/clearsilver/util/neo_hdf.c:575-825 | what a caller sees at any path of a path map after a set |
| `HdfAgree.SetsAgree` | client/clearsilver/util/neo_hdf.c:575-825 | the set of the reader and the set of the linked tree keep a tree and a path map in agreement |
| `HashTable.MaskBound` | client/clearsilver/util/neo_hash.c:190-217 | `hashv & (size - 1)` is a bucket of the table |
| `HashTable.MaskIsRemainder` | client/clearsilver/util/neo_hash.c:190-217 | the bucket of a hash value is its remainder by the size of the table |
| `HashTable.MaskDouble` | client/clearsilver/util/neo_hash.c:219-276 | a doubled mask leaves a node in its bucket or moves it up by the old size |
| `HashTable.DoublingKeepsPlaced` | client/clearsilver/util/neo_hash.c:219-276 | after the split every node sits in the bucket of its hash, and no key occurs twice |
| `HashTable.DoublingKeepsHolds` | client/clearsilver/util/neo_hash.c:219-276 | the split loses and invents no entry |
| `HashTable.SplitChain` | client/clearsilver/util/neo_hash.c:249-272 | the inner loop relinks one chain into the nodes that stay and, reversed, the nodes that move |
| `HashTable.Table.Lookup` | client/clearsilver/util/neo_hash.c:106-113 | the value of the finite map, or nothing |
| `HashTable.Table.Insert` | client/clearsilver/util/neo_hash.c:79-104 | the map with the key set; num is the number of entries plus overwrites and stays below size, a power of two |
| `HashTable.InsertTwice` | client/clearsilver/util/neo_hash.c:79-104 | two inserts of one key: one entry, and num is 2 |
| `HashTable.Table.Remove` | client/clearsilver/util/neo_hash.c:115-131 | the map without the key, and the value it had |
| `HashTable.Table.Resize` | client/clearsilver/util/neo_hash.c:219-276 | the same map in a table of twice the size |
| `HashTable.Table.Next` | client/clearsilver/util/neo_hash.c:143-188 | the entry that follows in the order of the table, or none at its end |
| `HashTable.Table.Enumerate` | client/clearsilver/util/neo_hash.c:143-188 | starting without a key and going on until there is no entry visits every entry of the map exactly once |
| `HashTable.RemainingStep` | client/clearsilver/util/neo_hash.c:143-188 | each step leaves the same entries to visit, less the one visited |
| `HashTable.OrderIsComplete` | client/clearsilver/util/neo_hash.c:143-188 | the order of visits has every node once and no key twice |
| `CacheRun.StepChainKeeps` | server/cache.c:141-413 | each operation keeps a chain short, of different keys, in order of last set and right; its answer is a miss or the answer of a map that never forgets |
| `CacheRun.RunsAgree` | server/cache.c:141-413 | for every run from a new cache, chains stay right and each answer is a miss or that of an unbounded map, whose swaps and increments are written out by themselves |
| `CacheRun.EvictsLeastRecent` | server/cache.c:229-241 | a full chain gives up exactly the entry set longest ago |
| `CacheRun.SetExpiry` | server/cache.c:182-252 | a set gives an entry its own expiry exactly when the key was not there, or had that expiry already |
| `CacheHistory.ExpiryIsOfBirth` | server/cache.c:182-252 | in every run, the expiry of an entry is that of the set that made it: the key was absent before that step and has been present since |
| `CacheHistory.HitsAreFresh` | server/cache.c:141-165 | after any run a get hits exactly when the entry was made by a set whose expiry has not passed, and then returns the bytes last written |
| `CacheHistory.MissesHaveReasons` | server/cache.c:141-165 | after any run a key that the map holds is missed only if more than `chainlen` keys of its chain were set since, or a get since then found it past the expiry of the set that had made it |
| `CacheHistory.AnswersAreExact` | server/cache.c:274-413 | after any run, deletions, swaps and increments miss exactly when the key is gone, and else answer as the map does |
| `CacheHistory.OldExpiryStays` | server/cache.c:242-252 | set for 10 at time 0 and for 1000 at time 1, a key is gone at time 20 |
| `CacheHistory.ChainLengths` | server/cache.c:217-241 | the lengths that a chain reaches are exactly those up to 5 |
| `Cache.ChainList.Find` | server/cache.c:104-120 | the first entry of the key, and its place |
| `Cache.ChainList.SetEntry` | server/cache.c:168-271 | the doubly linked chain holds what setting the key gives, and is consistent |
| `Cache.ChainList.Promote` | server/cache.c:254-266 | the entry is first, the others in order behind it, all links right |
| `Cache.ChainList.ReplaceLast` | server/cache.c:229-241 | the last entry is gone, the new one first, all links right |
| `Cache.ChainList.Unlink` | server/cache.c:292-310 | the entry is gone, the others in order, all links right |
| `Cache.ChainList.GetEntry` | server/cache.c:141-165 | the value, or a miss that drops an expired entry |
| `Cache.ChainList.DelEntry` | server/cache.c:274-314 | the entry is gone, or there was none |
| `Cache.ChainList.CasEntry` | server/cache.c:320-358 | the value is swapped exactly when it is the expected one |
| `Cache.ChainList.IncrEntry` | server/cache.c:373-413 | the counter is rewritten with the sum, or refused if it is not text |
| `Cache.Cache.constructor` | server/cache.c:9-43 | one empty chain for every four objects |
| `Cache.Cache.Perform` | server/cache.c:141-413 | on the heap, every operation of a run answers as the run of values does, and leaves the other chains alone |
| `Decimal.PaddedReadsBack` | server/cache.c:394-409 | a printed 64-bit number, ended by anything but a digit, reads back |
| `Decimal.RewrittenReadsBack` | server/cache.c:400-409 | what the next increment finds is what the last one wrote, in an old or a new buffer |
| `Decimal.IncrementsAdd` | server/cache.c:373-413 | after any run of increments without overflow the text reads as the first number plus their sum |
| `Decimal.Written` | server/cache.c:394-409 | numbers are written in decimal, highest digit first, and read behind space and either sign |
| `Decimal.OutOfRange` | server/cache.c:394-394 | a number of too many digits is read as the largest or smallest of 64 bits |
| `CacheCount.CacheCounts` | server/cache.c:373-413 | in any run, after a set of text every increment answers the number that was set plus all amounts up to it, or misses, while the key is only read and counted and nothing overflows |
| `Queue.Queue.Put` | server/queue.c:119-129 | the entry leaves last; `size` is the length of the list |
| `Queue.Queue.Cas` | server/queue.c:131-141 | the entry leaves first; `size` is the length of the list |
| `Queue.Queue.Get` | server/queue.c:143-159 | the first entry and the others, or none exactly when there is none |
| `Queue.Queue.Drain` | server/queue.c:27-48 | everything leaves in order and the queue is empty |
| `ServerSafe.StepSafe` | server/parse.c:37-169 | every step keeps every entry in one place, the allocated entries exactly those in use, the reference counts exact and the queues bounded |
| `ServerSafe.RunSafe` | server/mocd.c:32-97 | so every state of every run of any number of modules does |
| `ServerOrder.SocketLife` | server/tcp.c:467-485 | one reference for the open connection and one per live entry; freed once when none is left, else never; the hook runs at most once; no live entry refers to a freed socket |
| `ServerOrder.HookRunsOnce` | server/tcp.c:35-42 | the close hook of a socket has run once if the socket has been freed and some driver had set the hook, and else never |
| `ServerOrder.FirstComeFirstServed` | server/queue.c:119-159 | asynchronous requests of a module leave in the order in which they were queued |
| `ServerOrder.SyncGoesFirst` | server/queue.c:131-159 | a synchronous request leaves before everything that was waiting when it was queued |
| `ServerOrder.ExactlyOnce` | server/mocd.c:64-79 | a queued request is at every time in one place, once: waiting, in hand, processed or freed unprocessed |
| `ServerOrder.StopsAfterEmpty` | server/mocd.c:64-73 | a worker stops only after finding its queue empty, having processed exactly the order of that moment |
| `ServerOrder.OrderWasInserted` | server/parse.c:144-147 | whatever a module has in its order was queued for it at some earlier step |
| `ServerOrder.ProcessedIffInTime` | server/mocd.c:64-79 | a worker that has stopped has processed exactly the requests queued before its last look at the queue |
| `ServerOrder.QueueLengths` | server/parse.c:129-137 | the lengths that a queue reaches are exactly those up to 2097200 |
| `ServerOrder.AtTheEnd` | server/mocd.c:85-97 | after shutdown no entry is left, closed sockets have been freed once, and every request was processed or dropped, once |
| `ServerOrder.LateRequest` | server/mocd.c:64-73 | a run in which a request is queued after the worker's last look and freed unprocessed |
| `Wildmat.AbortPassesOn` | client/clearsilver/util/wildmat.c:58-116 | ABORT below a token that takes one character means that no suffix matches above it either |
| `Wildmat.StarFails` | client/clearsilver/util/wildmat.c:87-90 | if no suffix matches what follows a star, none matches the star |
| `Wildmat.StarStar` | client/clearsilver/util/wildmat.c:80-83 | two stars in a row match what one does |
| `Wildmat.DoMatch` | client/clearsilver/util/wildmat.c:58-116 | TRUE exactly when the naive backtracking semantics matches; ABORT only when no suffix of the text does |
| `Wildmat.ScanRanges` | client/clearsilver/util/wildmat.c:97-104 | the loop over a bracket class decides membership in its ranges and ends at its bracket |
| `Wildmat.Wildmat` | client/clearsilver/util/wildmat.c:186-194 | matches exactly when the naive semantics does |
| `Wildmat.WildmatCase` | client/clearsilver/util/wildmat.c:199-207 | the same after folding letters to upper case |
| `WildPattern.WrittenReads` | client/clearsilver/util/wildmat.c:65-109 | a pattern written as pieces is read as the tokens of these pieces |
| `WildPattern.PatternMeans` | client/clearsilver/util/wildmat.c:58-116 | what a written pattern matches, without tokens: plain and escaped characters, any character for ?, any stretch for *, the characters and ranges of a class or the others after ^ |
| `WildPattern.PlainPattern` | client/clearsilver/util/wildmat.c:73-76 | a pattern without special characters matches exactly itself, or itself in other letter case |
| `WildPattern.CaseDoesNotMatter` | client/clearsilver/util/wildmat.c:122-184 | texts that differ in letter case only get the same answer |
| `Crc.BitsLinear` | client/clearsilver/util/neo_misc.c:219-263 | taking bits through the divider distributes over exclusive or |
| `Crc.EntryIsBits` | client/clearsilver/util/neo_misc.c:219-263 | each of the 256 table words is its index taken through eight bits |
| `Crc.TableStepIsBits` | client/clearsilver/util/neo_misc.c:265-277 | one table step is eight steps of the bitwise algorithm |
| `Crc.NeCrc` | client/clearsilver/util/neo_misc.c:265-277 | the table loop computes the bit-by-bit CRC-32 of section 8 of RFC 1952 |
| `Crc.KnownValues` | client/clearsilver/util/neo_misc.c:265-277 | the CRC of no bytes and of the letter a |
| `Escape.RoundTrip` | client/clearsilver/util/neo_str.c:433-532 | decoding undoes encoding exactly for ASCII escape characters or when nothing is listed |
| `Escape.HighEscapeFails` | client/clearsilver/util/neo_str.c:509-532 | escape character 128, list and data `a`: the three bytes written stay as they are |
| `Escape.EscapesOnlyListed` | client/clearsilver/util/neo_str.c:471-502 | data stays as it is exactly if it has neither a listed byte nor the escape character |
| `Escape.NoneListedIsLeft` | client/clearsilver/util/neo_str.c:471-502 | no listed byte is left, if the list has no hex digits and not the escape character |
| `Escape.NothingToDecode` | client/clearsilver/util/neo_str.c:514-529 | text without the escape character is decoded as it is |
| `Escape.HexCase` | client/clearsilver/util/neo_str.c:494-522 | hex digits are written in upper case and read in either case; an incomplete escape stays |
| `Escape.SizeEscaped` | client/clearsilver/util/neo_str.c:442-463 | the sizing pass counts the bytes the writing pass emits |
| `Escape.NeosEscape` | client/clearsilver/util/neo_str.c:433-507 | the buffer holds the escaped bytes and a NUL, and nothing is left over |
| `Escape.NeosUnescape` | client/clearsilver/util/neo_str.c:509-532 | the in-place decoder computes the decoding |
| `Escape.SizeRepr` | client/clearsilver/util/neo_str.c:545-561 | the sizing pass counts the characters the writing pass emits |
| `Escape.ReprAlloc` | client/clearsilver/util/neo_str.c:534-605 | the buffer holds the quoted text and a NUL, and nothing is left over |

## Left out

- ClientSend.Client.Trigger: requires that the frame fits the payload buffer; the source does not check, and writes past the buffer otherwise. `Packet.RequestArrives` covers the frames that do not fit.
- ClientStream.Link.Receive: requires that the chunk fits beside the pending bytes; the source does not check, and writes past its buffer otherwise.
- Conversation.ReaderTakesLatest: the condition is sufficient, not necessary; misread bytes may happen to lead the reader to the answer.
- Conversation.Reader: a round of fewer than twelve bytes is one outcome, `Illegible`; the source takes length, id and code from what an earlier round left in the buffer.
- TcpSocket.Socket.HangUp: the descriptor is not modelled; the connection's reference is dropped in `ServerRun`.
- HdfView.AddPathLaw: what is appended to the children of an ancestor is in `HdfAgree.ViewAdd`.
- Delivery.CallsArrive: trees whose text exceeds 65024 bytes are cut by the packet (`Packet.RequestReadsBack`); what the reader makes of a cut text is not stated.
- HdfText.PrintedReadsBack: values of one line and alphanumeric attribute keys only.
- HdfTree.Tree.Set: attributes are not kept in the linked tree, only in the value trees of the text form; links, copies and hdf_sort_obj are not modelled.
- HdfTree.Tree.Remove: the recursive freeing of the nodes below the removed one is not modelled.
- HdfText.Read: multi-line values, links, copies by `:=`, `#include` and the line-length limit of the reader end the model with the outcome `Outside` or are not read.
- HdfText.KidsReadBack: the domain of HdfText.PrintedReadsBack.
- HdfText.RoundTrip: the domain of HdfText.PrintedReadsBack.
- HdfText.Dump: only the compact form; a value with a line break, which the source prints in its multi-line form, is printed on one line.
- HashTable.Table.Insert: `num` and `size` do not wrap at 32 bits, and the hash function is a parameter.
- Cache.Cache.Perform: the hash function is a parameter, the clock an argument, and allocation succeeds.
- Cache.ChainList.IncrEntry: a sum beyond 64 bits is not wrapped, and a value of no bytes counts as not being text (the source reads the byte before it).
- Wildmat.DoMatch: patterns whose bracket class is not closed are not covered; the source reads past the end of the pattern when such a class matches.
- Wildmat.Wildmat: the patterns of Wildmat.DoMatch.
- Wildmat.WildmatCase: the patterns of Wildmat.DoMatch.
- HdfLevel.HashLevel: the field of a node is the map that the hash table of its level holds; `HdfHash` proves the four uses of the table against the list of children, but its buckets are not part of the footprint of `HdfTree.Tree`.
- Packet.RequestReadsBack: reads past the end of a malformed message are one outcome, `OutOfBounds`, since what they find is not part of the message.
- ServerSafe.RunSafe: steps are atomic, so the unlocked reference counts of the source are assumed not to race; base_user_quit, which drops the connection's reference, is not a step.
- ServerOrder.StopsAfterEmpty: errors of the condition variable, which leave a worker to go round again, are not steps.
- Timers, statistics, logging, configuration, plugins (base, chat, bang, skeleton) and system commands.
- Sockets themselves, reconnecting, the event loop and thread primitives.
- The one-at-a-time hash, module lookup by name, and the selection of a server by key.
- client/internal.c `checksum`, and the url, html and javascript escapes of neo_str.c.
- The Android code, the demos, and failed allocations everywhere.
