# Verified models of the state, encoding and transport cores

These modules model the parts of the program on which everything else rests, and prove what they
are for. `dafny verify dfyconfig.toml` checks all of them.

- **The Merkle Patricia trie** (Ethereum Yellow Paper, Appendix D). `TrieNode` is the trie as a
  tree, with its normal form, which is unique for a map. `TrieMerge` and `TrieDelete` are the local
  rewrites of insertion and removal, `TrieRemovable` the keys whose removal goes wrong. `TrieCode`
  gives each node its RLP item, with the rule that a node below 32 bytes is inlined in its parent,
  and the digests that a trie needs in the store. `NodeStore` is the reference-counted store over an
  optional disk, `TrieEffects` what each rewrite does to digests, and `TrieDB` the class that
  performs the rewrites on items and store. `TrieHash` computes the root from scratch, from the
  trie that `TrieBuild` describes. `YellowPaper` defines the root of a map as the paper does, without
  tries, and shows that all of these have it. `TrieHistory`
  and `TrieOverlay` are runs of the program, `TrieCommitment` shows that roots commit to contents,
  and `TrieEntries` and `TrieCursor` are the ordered visit.
- **RLP** (Appendix B). `Rlp` is the recursive encoding and the strict decoder, `RlpStream` the
  writer that inserts list headers after the bodies, `RlpView` the reader with its index cache.
- **Hex-prefix keys** (Appendix C) are in `HexPrefix`.
- **RLPx frames.** `FrameCoder` is one end of an enciphered connection, `FrameIntegrity` what it puts
  on the wire and what its tags vouch for, `FrameWriter` cuts two
  queues of packets into frames, `FrameReader` puts the packets together again, `RlpxPacket` is a
  packet, and `FrameSession` runs both ends of a connection.
- **RangeMask** is a set of numbers as an ordered map of intervals, and **Worker** the life of a
  worker thread over all interleavings.

A class of the source is a class here, with the fields it updates; its methods are proved against
functions, and the main results are theorems about these functions or about whole runs.

## Conventions

The hash is a parameter `sha3` with results of 32 bytes. No function into 32 bytes is injective, so
the trie theorems ask only that it has no collision among the strings in question: those that a
run hashes, or those of the two tries compared. A key-value disk is a map that takes a batch as one
step. Exceptions are results (`None`, `false`, an outcome). Ghost parameters of the trie's methods
name the tree that an item stands for, the digests that belong to something else (`live`), and
whether exact counts are claimed (`exact`). The digests of other tries in the same store are allowed
as `live` (`TrieEffects.SettledRoot`).

## Where the code does less than it promises

- `remove` goes wrong on some keys (`TrieRemovable.FailsExactly` gives the exact condition): it takes
  the value of a leaf whose key ends too early for a reference, it reads a nibble behind a key that
  ends in a branch without a value, and it takes a value of more than 32 bytes that is left alone in
  a branch for a hash. With keys of which none is the beginning of another, such as keys of one
  length, this never happens (`TrieHistory.PrefixFreeRun`). A shorter value that is taken for a hash
  is looked up; the results ask that it is not the hash of a stored node.
- The index cache of an RLP list is transparent exactly when no item is malformed or the first one
  is (`RlpView.TransparentExactly`). A query that runs into a malformed item leaves the cache on it,
  and the good item before it can then no longer be read (`RlpView.BadItemSpoilsCache`).
- A packet without data is valid and may share a frame with others, but the reader then takes the
  type of the next packet for its data (`FrameReader.EmptyDataMisread`); unsegmented frames come
  back exactly when all packets but the last have data (`FrameReader.SeveralExactly`).
- The reader compares the first frame of a segmented packet, with padding and tag, to the size of
  the packet, and drops it when it is longer (`FrameReader.StartDemuxed`). A packet that is only
  slightly longer than its first payload is lost (`FrameReader.DroppedExample`).
- The first frame that mux writes while both classes wait computes its allotment out of range when
  less than 96 bytes are left. The frame then has no limit, and the assertion that it fits fails
  exactly when it is too long (`FrameWriter.OverrunExactly`, `FrameWriter.OverrunExample`).
- A frame header has three bytes for a length that `writeFrame` and `mux` do not limit. The cut-off
  length still lets the frame be checked and taken apart, but does not tell its size
  (`FrameCoder.AnnouncedExactly`).
- The reader binds the counter of missing bytes as a reference into its map, erases the entry with
  the last frame of a segmented packet, and then reads the counter again
  (`libp2p/RLPXFrameReader.cpp:46-61`). The model keeps the value; delivery is proved for that.
- `operator-=` of a mask puts in numbers when its operand has a larger ground range
  (`RangeMask.DifferenceExactly`), and leaves a mask that is taken from itself as it is, which is the
  difference only when it is empty (`RangeMask.SelfDifferenceExactly`).
- `operator[]` of an RLP view looks into a string as it does into a list. The empty view that its
  documentation announces is given for every position exactly when there is no list and nothing to
  look into (`RlpView.StringIndexedExactly`).
- `orderedTrieRoot` counts its items in 32 bits. Of a longer list, items are filed over earlier ones
  (`TrieCommitment.ListMapExactly`), and the first item no longer makes a difference exactly from
  2 to the 32 plus one items on (`TrieCommitment.FirstItemTold`).
- When both classes wait and exactly 128 bytes are left, the test for half of the space fails by one,
  and the first frame may take all of it (`FrameWriter.FilledShared`).
- `insert` takes an empty value. The trie then holds the same map as without the key, but is in normal
  form only if keys part right behind the key (`TrieRemovable.EmptyValueKeys`); otherwise it is not
  the trie that `hash256` builds for the map.

## Model

| member | source | states |
|---|---|---|
| Bytes.BigEndianRoundTrip | libdevcore/CommonData.h:118-125 | a number comes back from its minimal big-endian bytes |
| Bytes.BigEndianCanonical | libdevcore/CommonData.h:203-209 | bytes without a leading zero are the minimal form of the number they stand for |
| Rlp.SizeOfEncoding | libdevcore/RLP.cpp:103-112 | the size announced by an encoding is its own length, whatever follows it |
| Rlp.HeaderRead | libdevcore/RLP.cpp:154-210 | every header that the writer produces is read back: payload offset and item size |
| Rlp.HeaderWritten | libdevcore/RLP.cpp:114-210 | every header that the reader accepts is the one the writer would have produced (no leading zeros, no long form for short lengths, no two-byte form of a small byte) |
| Rlp.DecodeEncode | libdevcore/RLP.cpp:103-223 | strict recursive decoding of the encoding of any item tree gives the tree back |
| Rlp.EncodeDecode | libdevcore/RLP.cpp:103-223 | any byte string that the strict recursive decoder accepts is the encoding of what it decoded to |
| Rlp.PrefixFree | libdevcore/RLP.cpp:103-112 | no encoding is a proper prefix of another, and different items have different encodings |
| RlpStream.BytesRequired | libdevcore/CommonData.h:203-209 | the loop counts the digits of the minimal form |
| RlpStream.RLPStream.PushInt | libdevcore/RLP.h:410-416 | writing digits backwards into fresh bytes appends the big-endian form |
| RlpStream.RLPStream.PushCount | libdevcore/RLP.cpp:337-344 | count byte and digits, refused exactly when the count byte does not fit |
| RlpStream.RLPStream.InsertHeader | libdevcore/RLP.cpp:246-265 | moving the body and filling the gap inserts exactly the list header in front of it; refused exactly when the body is too long for a header |
| RlpStream.RLPStream.NoteAppended | libdevcore/RLP.cpp:232-269 | the loop over the open lists does to output and stack what the recursive description says, and throws exactly then |
| RlpStream.RLPStream.AppendRaw | libdevcore/RLP.cpp:225-230 | raw bytes at the end of the output, then the given number of items noted |
| RlpStream.RLPStream.AppendList | libdevcore/RLP.cpp:271-279 | an announced list is open, an empty one complete at once |
| RlpStream.RLPStream.AppendBody | libdevcore/RLP.cpp:281-289 | a list given by its body is one complete item |
| RlpStream.RLPStream.Append | libdevcore/RLP.cpp:291-310 | a string, with or without its leading zeros, is one complete item in its encoding; refused exactly when too long |
| RlpStream.CompactSameNumber | libdevcore/RLP.cpp:295-296 | leaving out leading zeros keeps the number and gives its minimal form |
| RlpStream.RLPStream.AppendInt | libdevcore/RLP.cpp:312-335 | a number of any size is written as the string of its minimal form |
| RlpStream.RLPStream.AppendItem | libdevcore/RLP.h:370-375 | announcing a list and streaming its elements, at any nesting depth and with any lists open, has the same effect as appending the recursive encoding of the whole as one item |
| RlpStream.OneMore | libdevcore/RLP.cpp:232-269 | one more element inside a list; the last one puts the finished list in place with its header |
| RlpStream.RLPStream.Finished | libdevcore/RLP.h:394-394 | the bytes are handed out exactly when no list is open |
| RlpStream.PutShown | libdevcore/RLP.cpp:225-310 | one more item in the output is one more item in the forest that the calls mean, closing every list it completes; it throws exactly when such a list has a body of 2 to the 64 bytes or more |
| RlpStream.CallsShown | libdevcore/RLP.cpp:225-310 | any sequence of calls throws exactly when a list that it completes has a body of 2 to the 64 bytes or more; otherwise output and stack show finished items encoded and open lists without headers |
| RlpStream.ShortCalls | libdevcore/RLP.cpp:225-310 | calls whose items and longest headers stay below 2 to the 64 bytes never throw, with whatever lists open |
| RlpStream.FinishedStream | libdevcore/RLP.cpp:225-310 | from an empty stream: calls that stay below 2 to the 64 bytes never throw; calls that leave no list open have written exactly the encodings of the items they mean, and these decode back to the items |
| RlpView.ReadBigEndian | libdevcore/CommonData.h:118-125 | the shift loop computes the big-endian number, modulo the size of its type |
| RlpView.LengthOf | libdevcore/RLP.cpp:154-210 | the length loop with its order of checks accepts and computes what the recursive decoder relies on |
| RlpView.SizeOfPrefix | libdevcore/RLP.h:330-330 | the size of an item does not depend on what follows it |
| RlpView.SplitEncoded | libdevcore/RLP.cpp:48-101 | the pieces of an encoded payload are the encodings of its items, one by one |
| RlpView.RLP.At | libdevcore/RLP.cpp:76-91 | the loop over the cached position computes the described new cache and result, whether or not the view is a list |
| RlpView.RLP.Items | libdevcore/RLP.h:116-116 | the number of items, or an error when one is bad; 0 for a view that is no list |
| RlpView.Iterator.Next | libdevcore/RLP.cpp:48-59 | the iterator moves from one item to the next or to the end, or finds a bad item |
| RlpView.RLP.ToList | libdevcore/RLP.cpp:61-101 | iteration from begin to end visits each item once, in order, and stops at the end after as many steps as there are items; nothing for a view that is no list |
| RlpView.QueryFinds | libdevcore/RLP.cpp:76-91 | on a well-formed list a query finds its item, or the empty view past the end, from any cache state |
| RlpView.CacheIsTransparent | libdevcore/RLP.cpp:76-91 | any sequence of queries in any order leaves the answer to the next query unchanged |
| RlpView.BadItemSpoilsCache | libdevcore/RLP.cpp:76-91 | on a list with a bad item after good ones the promise fails: asking for the bad one makes the good one before it unreadable |
| RlpView.SpoiledExample | libdevcore/RLP.cpp:76-91 | for instance the list [0xc2, 0x01, 0x81]: after asking for item 1, item 0 is refused |
| RlpView.AlwaysEmptyExactly | libdevcore/RLP.cpp:76-91 | the exact condition: whatever was asked for before, every query gives the empty view if and only if the payload is empty |
| RlpView.StringIndexedExactly | libdevcore/RLP.h:137-140 | so on a view that is no list operator[] always gives the documented empty view if and only if the view is on nothing or on the empty string |
| RlpView.StringIndexed | libdevcore/RLP.h:137-140 | for instance the string [0x82, 0x01, 0x02]: operator[] gives the item 0x01 of its bytes, not the empty view that its documentation announces for a view that is no list |
| RlpView.TransparentExactly | libdevcore/RLP.cpp:76-91 | the exact condition: earlier queries never matter if and only if no item is bad or the first one is |
| RlpView.NumbersRead | libdevcore/RLP.h:254-276 | what toInt makes of any decodable item under any flags: leading zeros refused unless allowed, too long numbers refused or wrapped around |
| RlpView.NumberRoundTrip | libdevcore/RLP.h:254-276 | a number written by the stream is read back by every type that can hold it, and refused by every other |
| HexPrefix.KeyOfEncode | libdevcore/TrieCommon.h:96-111 | key and leaf flag invert the hex-prefix form, for either parity |
| HexPrefix.EncodeInjective | libdevcore/TrieCommon.cpp:43-111 | different keys or flags have different forms |
| HexPrefix.NibbleSlice.Shared | libdevcore/TrieCommon.h:37-47 | the loop finds the length of the longest common prefix |
| HexPrefix.SharedUnique | libdevcore/TrieCommon.h:65-67 | the longest common prefix is characterised by agreeing up to it and not beyond |
| HexPrefix.NibbleSlice.IsEarlierThan | libdevcore/TrieCommon.h:73-84 | the loop decides the lexicographic order in which a proper prefix is earlier |
| HexPrefix.EncodeVector | libdevcore/TrieCommon.cpp:43-58 | the form over a vector of nibbles, a negative end counting from the back, is the form of that part; its nibbles are 2, or 3 for an odd key, of a leaf, 0 or 1 otherwise, then a zero before an even key, then the key |
| HexPrefix.EncodeSlice | libdevcore/TrieCommon.cpp:60-79 | the form over a byte slice, from any offset, is the form of that part of its nibbles, with the same flags |
| HexPrefix.EncodeTwo | libdevcore/TrieCommon.cpp:81-111 | the form over two slices is the form of their concatenation, with the same flags |
| TrieNode.NormalUnique | libdevcore/TrieHash.cpp:46-157 | two tries in normal form that hold the same map are the same trie |
| TrieMerge.MergeLookup | libdevcore/TrieDB.h:819-893 | inserting changes the map at the key and nowhere else, for arbitrary keys |
| TrieMerge.MergeNormal | libdevcore/TrieDB.h:819-893 | inserting keeps the normal form: no extension above a two-item node, no branch with fewer than two occupied slots |
| TrieRemovable.EmptyValueKeys | libdevcore/TrieDB.h:1070-1089 | an empty value, which the trie cannot tell from a missing one, may be inserted as well; the normal form is then kept if and only if two keys with values part right behind its key |
| TrieMerge.CleveLookup | libdevcore/TrieDB.h:1122-1141 | splitting a key path holds the same map |
| TrieMerge.BranchLookup | libdevcore/TrieDB.h:1189-1221 | opening a two-item node into a branch holds the same map |
| TrieDelete.DeleteLookup | libdevcore/TrieDB.h:943-1048 | for any key, removal reports an absent key as such, and otherwise takes out this key only |
| TrieDelete.DeleteNormal | libdevcore/TrieDB.h:943-1048 | removal restores the normal form, whatever the keys |
| TrieDelete.RejigLookup | libdevcore/TrieDB.h:1031-1045 | replacing a branch with a single slot left, or only its value, by a two-item node holds the same map |
| TrieRemovable.FailsExactly | libdevcore/TrieDB.h:970-1045 | the exact condition, on the keys, under which remove goes wrong: a key ends before the given one and none goes on from there (its value is taken for a reference); the given one is absent and keys part right behind it (a nibble behind the key is read); or it is the only one that goes on from a key whose value has more than 32 bytes (which is taken for a hash) |
| TrieRemovable.FreeWorks | libdevcore/TrieDB.h:943-1048 | among keys of which none is the beginning of another no removal goes wrong, and none takes a value for a reference |
| TrieRemovable.FailingRemovals | libdevcore/TrieDB.h:970-1019 | a concrete trie with keys of whole bytes for each of the three: removing a key that goes on from the only key; one right behind which two others part; and one that is present and leaves a long value alone |
| TrieCode.CodeInjective | libdevcore/TrieDB.h:1113-1120 | equal node encodings under a collision-free hash have equal item trees |
| TrieCode.ReadableStored | libdevcore/TrieDB.h:290-295 | when every live digest can be read, so can the whole trie |
| TrieCode.LiveStored | libdevcore/TrieDB.h:1113-1120 | the same below a single node, inlined or hashed |
| TrieEffects.SlotDigests | libdevcore/TrieDB.h:883-891 | replacing one child of a branch replaces exactly its digests |
| TrieEffects.CleveDigests | libdevcore/TrieDB.h:1122-1141 | the digests after splitting a path are those before plus that of the new child if it is long enough |
| TrieEffects.BranchDigests | libdevcore/TrieDB.h:1189-1221 | the same for opening a two-item node |
| TrieEffects.GraftDigests | libdevcore/TrieDB.h:1143-1168 | grafting releases exactly the digest of the child it absorbs |
| TrieEffects.SettledRoot | libdevcore/TrieDB.h:819-893 | the digests of a trie in normal form are never those of a branch with fewer than two slots in use, so what an insertion opens and closes again is counted nowhere |
| TrieEffects.SplitSettled | libdevcore/TrieDB.h:1122-1221 | after a split the digests are still such, and the new node leads on to a child or is an opened branch that nothing else refers to |
| NodeStore.OverlayDB.Lookup | libdevcrypto/OverlayDB.cpp:119-125 | memory first, then the disk |
| NodeStore.OverlayDB.Exists | libdevcrypto/OverlayDB.cpp:127-135 | in memory, or on disk with a value |
| NodeStore.OverlayDB.Insert | libdevcore/MemoryDB.cpp:85-101 | value stored, count raised or set to one, all else unchanged |
| NodeStore.OverlayDB.MemoryKill | libdevcore/MemoryDB.cpp:103-130 | a positive count is lowered, and only then is this reported |
| NodeStore.OverlayDB.Kill | libdevcrypto/OverlayDB.cpp:137-155 | counts as above; the disk is not touched |
| NodeStore.OverlayDB.Purge | libdevcore/MemoryDB.cpp:159-169 | the loop removes exactly the entries without references |
| NodeStore.OverlayDB.Keys | libdevcore/MemoryDB.cpp:171-181 | the loop collects exactly the referenced digests |
| NodeStore.OverlayDB.Commit | libdevcrypto/OverlayDB.cpp:46-95 | the disk gains exactly the referenced values, as one batch, and memory is empty; without a disk nothing happens |
| NodeStore.OverlayDB.Rollback | libdevcrypto/OverlayDB.cpp:111-117 | memory is empty, the disk as it was |
| NodeStore.OverlayDB.LookupAux | libdevcrypto/OverlayDB.cpp:97-109 | auxiliary data, memory first |
| NodeStore.Preimage | libdevcrypto/OverlayDB.cpp:46-117 | a preimage outlasts a commit as well as a rollback; one that was removed again does not reach the disk |
| NodeStore.InsertedRead | libdevcore/MemoryDB.cpp:85-101 | an insertion counts once more, and is read back whatever is on disk; nothing else changes |
| NodeStore.KilledRead | libdevcore/MemoryDB.cpp:103-130 | a kill takes back one insertion; what was inserted is read on, or with enforced references until the last one is gone |
| NodeStore.CommittedRead | libdevcrypto/OverlayDB.cpp:46-95 | after a commit every digest reads as it did with enforced references: what had a count, and of the rest what was on disk |
| NodeStore.CountedReadable | libdevcrypto/OverlayDB.cpp:119-125 | while counts cover the live digests that are not on disk, every live digest can be read |
| NodeStore.KillUncounted | libdevcore/MemoryDB.cpp:103-130 | killing a digest that nobody refers to changes no count that matters |
| NodeStore.CommitCounted | libdevcrypto/OverlayDB.cpp:46-95 | a commit keeps this: everything live is then on disk |
| TrieDB.GenericTrieDB.StreamNode | libdevcore/TrieDB.h:1113-1120 | a node whose encoding has 32 bytes or more is stored and appended as its hash; a shorter one is appended itself, and nothing is stored |
| TrieDB.GenericTrieDB.PlaceAt | libdevcore/TrieDB.h:1070-1089 | sets the value of a leaf or branch, or makes a leaf; releases the old node, or a digest that was counted nowhere |
| TrieDB.GenericTrieDB.CleveAt | libdevcore/TrieDB.h:1122-1141 | the item of the split path, store and counts following |
| TrieDB.GenericTrieDB.BranchAt | libdevcore/TrieDB.h:1189-1221 | the item of the opened node, store and counts following |
| TrieDB.GenericTrieDB.GraftAt | libdevcore/TrieDB.h:1143-1168 | the item of the joined two-item nodes; the absorbed child is released |
| TrieDB.GenericTrieDB.UniqueInUse | libdevcore/TrieCommon.cpp:113-125 | the one item in use besides the exception, or 255 |
| TrieDB.GenericTrieDB.IsTwoItemNode | libdevcore/TrieDB.h:932-936 | whether the referenced node has two items; a value in its place throws if and only if it is longer than a hash |
| TrieDB.GenericTrieDB.MergeAt | libdevcore/TrieDB.h:819-893 | returns the item of the merged trie for any key, with everything below it readable and counts exact |
| TrieDB.GenericTrieDB.MergeAtAux | libdevcore/TrieDB.h:895-914 | the same through a reference, whether inlined or hashed |
| TrieDB.GenericTrieDB.DeleteAt | libdevcore/TrieDB.h:943-1048 | for any key: goes wrong exactly when the walk runs into one of the described places; else returns the item of the trie without the key, or reports the key as absent and changes nothing; store and counts following |
| TrieDB.GenericTrieDB.RejigAt | libdevcore/TrieDB.h:1031-1045 | what is left of a branch is merged and grafted exactly when one slot is left in use; a value left alone throws if and only if it is longer than a hash |
| TrieDB.GenericTrieDB.DeleteAtAux | libdevcore/TrieDB.h:1050-1068 | the same through a reference, or through a value that is taken for one |
| TrieDB.GenericTrieDB.Init | libdevcore/TrieDB.h:76-76 | the empty trie, counted once |
| TrieDB.GenericTrieDB.SetRoot | libdevcore/TrieDB.h:78-92 | a root that is stored is found, one that is not is refused, and the missing empty trie is set up |
| TrieDB.GenericTrieDB.Insert | libdevcore/TrieDB.h:759-775 | for any key and value the trie becomes the merged one, nothing readable is lost, and counts stay exact; the normal form is kept unless the value is empty and no two keys part right behind its key |
| TrieDB.GenericTrieDB.Remove | libdevcore/TrieDB.h:916-930 | for any key: wrong exactly when described, and then trie and root are as before; else the trie becomes the one without the key and counts stay exact; for an absent key neither root nor any count changes |
| TrieDB.GenericTrieDB.At | libdevcore/TrieDB.h:777-812 | exactly the value of the key, or the empty string, in any trie that can be read |
| TrieDB.GenericTrieDB.Commit | libdevcrypto/OverlayDB.cpp:46-95 | the trie stays valid and every node of it is on disk afterwards |
| TrieDB.GenericTrieDB.Rollback | libdevcrypto/OverlayDB.cpp:111-117 | a trie whose nodes are all on disk is valid again under its root |
| TrieDB.GenericTrieDB.LeftOvers | libdevcore/TrieDB.h:204-209 | the referenced digests outside the trie; the scan accepts every valid trie |
| TrieDB.GenericTrieDB.Check | libdevcore/TrieDB.h:219-230 | true exactly when nothing is left over or this is not asked for; always true in a memory store with exact counts |
| TrieHash.FindShared | libdevcore/TrieHash.cpp:69-77 | the two nested loops find the common prefix of all entries |
| TrieHash.Hash256Rlp | libdevcore/TrieHash.cpp:46-136 | writes the item of the trie that the recursive description builds |
| TrieHash.Hash256Aux | libdevcore/TrieHash.cpp:138-157 | the same as a child: the item itself when its encoding is shorter than 32 bytes, else the hash of the encoding |
| TrieBuild.BuildCorrect | libdevcore/TrieHash.cpp:46-157 | the trie built from sorted entries is in normal form and holds exactly these entries |
| TrieBuild.PutCorrect | libdevcore/TrieHash.cpp:164-166 | the ordered map of nibble strings stays sorted and holds the assigned values |
| TrieHash.Rlp256 | libdevcore/TrieHash.cpp:159-170 | the serialisation of the structure that the Yellow Paper gives the map, in whatever order the map is gone through |
| TrieBuild.SameListing | libdevcore/TrieHash.cpp:164-166 | a map has only one sorted listing of its nibble keys |
| TrieHash.Hash256 | libdevcore/TrieHash.cpp:172-175 | the root of the map as Appendix D of the Yellow Paper defines it, for any map |
| YellowPaper.EncodeIsRLP | libdevcore/RLP.cpp:225-310 | the encoding of any item is the RLP of Appendix B, with its constants |
| YellowPaper.EncodeIsHP | libdevcore/TrieCommon.cpp:43-111 | the hex-prefix form is the HP of Appendix C |
| YellowPaper.BuildIsC | libdevcore/TrieHash.cpp:46-157 | the trie of a range of sorted entries has the structure that Appendix D gives what is left of the keys: one pair, the longest common prefix, or sixteen slots and a value, with nodes of 32 bytes or more by their hash; and holds a digest for exactly the places with a hash |
| YellowPaper.TrieOfIsRoot | libdevcore/TrieHash.cpp:159-175 | so the trie of a whole map has the root of the paper, empty values included |
| YellowPaper.NormalIsRoot | libdevcore/TrieDB.h:759-930 | and so has every trie in normal form that holds the map; its live digests are one for each place with a hash in the structure of the paper, and the root |
| TrieBuild.TrieOfCorrect | libdevcore/TrieHash.cpp:46-175 | the from-scratch trie is in normal form and holds exactly the map |
| TrieBuild.NormalIsTrieOf | libdevcore/TrieHash.cpp:46-175 | every trie in normal form that holds the map is the from-scratch trie |
| TrieCommitment.ItemInjective | libdevcore/TrieHash.cpp:138-157 | under a collision-free hash different tries in normal form have different items: inlined and hashed children cannot be confused |
| TrieCommitment.RootCommitsToTrie | libdevcore/TrieHash.cpp:172-175 | equal roots mean equal tries |
| TrieCommitment.Hash256Commits | libdevcore/TrieHash.cpp:172-175 | equal hash256 values mean equal maps |
| TrieCommitment.OrderedTrieRoot | libdevcore/TrieHash.cpp:177-184 | the root, as the Yellow Paper defines it, of the map from index encodings to items; indices are counted in 32 bits |
| TrieCommitment.RlpOf | libdevcore/RLP.h:428-428 | the key of an index is what a stream holds after the number was written to it |
| TrieCommitment.ListMapExactly | libdevcore/TrieHash.cpp:177-184 | every key decodes strictly to an index without leading zeros, and holds the last item with that index modulo 2 to the 32; each of the last 2 to the 32 items is there |
| TrieCommitment.FirstItemTold | libdevcore/TrieHash.cpp:180-182 | the exact condition: the first item of a list makes no difference if and only if there are more than 2 to the 32 items |
| TrieCommitment.IndexKeysPrefixFree | libdevcore/TrieHash.cpp:181-182 | no index key is a prefix of another |
| TrieCommitment.OrderedRootCommits | libdevcore/TrieHash.cpp:177-193 | equal orderedTrieRoot values mean equal lists of at most 2 to the 32 items, empty items included |
| TrieHistory.RunHolds | libdevcore/TrieDB.h:759-930 | after any run of inserts and removals the trie holds exactly the map of the run |
| TrieHistory.SameMapSameTrie | libdevcore/TrieDB.h:759-930 | runs that end in the same map end in the same trie |
| TrieHistory.PrefixFreeRun | libdevcore/TrieDB.h:916-930 | in any run over keys of which none is the beginning of another, every removal works, and no value is taken for a reference |
| TrieHistory.EqualLengthPrefixFree | libdevcore/TrieDB.h:320-335 | keys of one length, as the fixed-size key types give, are such keys |
| TrieHistory.Run | libdevcore/TrieDB.h:759-930 | the program performs any run up to the first removal that goes wrong: valid throughout, the described trie, and exact counts |
| TrieHistory.RootTwice | libdevcore/TrieHash.cpp:172-175 | history independence: for any run in which no removal goes wrong, with any keys, the incremental root equals hash256 of the final map, and both are the root of the Yellow Paper |
| TrieHistory.CountsAfterRun | libdevcore/TrieDB.h:204-230 | after any such run over an empty memory store every count equals the number of places with that hash in the structure of the Yellow Paper for the final map, plus one for its root, and check(true) holds |
| TrieOverlay.Act | libdevcrypto/OverlayDB.cpp:46-155 | any insert, removal, commit or rollback keeps the current trie readable and the last committed one recoverable, also when a removal goes wrong |
| TrieOverlay.RunOverlay | libdevcrypto/OverlayDB.cpp:46-155 | any interleaving of inserts, removals, commits and rollbacks over a disk, with any keys, up to the first removal that goes wrong: the trie holds, and its root is the root of the Yellow Paper for, the map that results when a rollback returns to the last commit; that commit stays recoverable under the root of its map, and counts are exact |
| TrieOverlay.RunTriesHold | libdevcrypto/OverlayDB.cpp:46-117 | current and committed trie hold current and committed map |
| TrieOverlay.PrefixFreeActions | libdevcrypto/OverlayDB.cpp:46-155 | with keys of which none is the beginning of another, every action of every interleaving works |
| TrieEntries.EntriesSorted | libdevcore/TrieDB.h:139-145 | the entries in visiting order are strictly ascending |
| TrieEntries.EntriesAreTheMap | libdevcore/TrieDB.h:487-747 | the entries are exactly the keys with a value |
| TrieCursor.Cursor.Begin | libdevcore/TrieDB.h:487-492 | begin stands at the first entry, or off the end of an empty trie |
| TrieCursor.Cursor.LowerBound | libdevcore/TrieDB.h:494-499 | lower_bound stands at the least key that is not before the given one, or off the end |
| TrieCursor.Cursor.At | libdevcore/TrieDB.h:501-510 | the key in whole bytes and the value of the entry where the cursor stands |
| TrieCursor.Cursor.Advance | libdevcore/TrieDB.h:660-745 | one turn of the loop finds the next entry, or loses none and leaves less to do |
| TrieCursor.Cursor.Next | libdevcore/TrieDB.h:650-747 | moves to the next entry or off the end; terminates by the remaining cost of the trail |
| TrieCursor.Cursor.AdvanceFrom | libdevcore/TrieDB.h:523-646 | one turn of the keyed loop passes only entries before the key and keeps the aim of the descent |
| TrieCursor.Cursor.NextFrom | libdevcore/TrieDB.h:512-648 | the keyed loop ends at the lower bound |
| TrieCursor.Cursor.Step | libdevcore/TrieDB.h:121-121 | increment moves from the i-th entry to the next one |
| TrieCursor.Visit | libdevcore/TrieDB.h:156-157 | from begin to end every key of the map is seen exactly once, with its value, in ascending order |
| TrieCursor.ListsHeldMap | libdevcore/TrieDB.h:156-157 | for a trie that holds a map, what is listed is that map |
| FrameCoder.XorAllTwice | libp2p/RLPXFrameCoder.cpp:102-103 | the same nonce xored in twice is gone again, which recovers the MAC secret |
| FrameCoder.XorBit | libp2p/RLPXFrameCoder.cpp:244-247 | a bit of the exclusive or is set where the two differ |
| FrameCoder.RLPXFrameCoder.constructor | libp2p/RLPXFrameCoder.cpp:54-109 | overwriting one key buffer in place derives cipher key, MAC secret and both MAC seeds as described |
| FrameCoder.MirroredSetUp | libp2p/RLPXFrameCoder.cpp:54-109 | with mirrored arguments and commuting key agreement, what one end sends with is what the other receives with, both ways |
| FrameCoder.RLPXFrameCoder.UpdateMac | libp2p/RLPXFrameCoder.cpp:231-252 | the MAC absorbs one more block, which mixed with the seed, or without one with the tag, is the enciphered tag |
| FrameCoder.RLPXFrameCoder.WriteFrame | libp2p/RLPXFrameCoder.cpp:138-159 | header block, tag, payload, zero padding and tag in one buffer, with the egress state after it |
| FrameCoder.RLPXFrameCoder.AuthAndDecryptHeader | libp2p/RLPXFrameCoder.cpp:170-180 | in place: deciphered if and only if the tag is the digest after the MAC absorbed a block that mixed with these cipher bytes is the enciphered tag; untouched otherwise; ingress state either way |
| FrameCoder.RLPXFrameCoder.AuthAndDecryptFrame | libp2p/RLPXFrameCoder.cpp:182-191 | the same for the body, which the MAC absorbs as it is before that block |
| FrameCoder.RLPXFrameCoder.MakeHeader | libp2p/RLPXFrameCoder.cpp:111-136 | the stream writes three length bytes and the list of the fields |
| FrameCoder.RLPXFrameCoder.WriteFields | libp2p/RLPXFrameCoder.cpp:111-136 | the three forms of writeFrame send exactly the described frame |
| FrameCoder.FieldsSize | libp2p/RLPXFrameCoder.cpp:138-145 | a header of at most three fields fits its block of 16 bytes |
| FrameCoder.InfoReadBack | libp2p/RLPXFrameCoder.cpp:33-47 | protocol, sequence and total size come back unchanged from a header, of the length its low 24 bits |
| FrameCoder.InfoOfNumbers | libp2p/RLPXFrameCoder.cpp:33-42 | what is read from a header that lists any numbers: the third one counts only when there are exactly three |
| FrameCoder.LegacyHeader | libp2p/RLPXFrameCoder.cpp:161-168 | the fixed legacy header is that of protocol and sequence 0 |
| FrameCoder.HeaderLockstep | libp2p/RLPXFrameCoder.cpp:138-191 | a header that is sent passes the check, comes back, and leaves both states equal |
| FrameCoder.BodyLockstep | libp2p/RLPXFrameCoder.cpp:138-191 | the same for a payload with its padding |
| FrameCoder.RunLockstep | libp2p/RLPXFrameCoder.cpp:111-191 | for every run of frames written at one end and read in order at the other: all tags verify, fields and payload come back, of the length its low 24 bits, and the states stay equal |
| FrameCoder.AnnouncedExactly | libp2p/Session.cpp:378-396 | the header announces the size of its frame if and only if the payload is shorter than 2 to the 24 bytes |
| FrameIntegrity.HeaderSpelled | libp2p/RLPXFrameCoder.cpp:111-136 | a header is the length in three bytes, high byte first, and a strict list of the fields in their minimal forms |
| FrameIntegrity.SetUpExactly | libp2p/RLPXFrameCoder.cpp:59-109 | keys and MAC states after the set-up: the hash chain over the secret and the nonces, the nonce of the receiving end in either MAC, and the handshake message of the sending end |
| FrameIntegrity.HeaderOnTheWire | libp2p/RLPXFrameCoder.cpp:138-145 | a sent header byte by byte: each is mixed with the next byte of the key stream, the MAC absorbs a block mixed with what is on the wire, and the tag is the digest then |
| FrameIntegrity.BodyOnTheWire | libp2p/RLPXFrameCoder.cpp:147-158 | the same for a body with its zero padding; the key stream goes on from where it was left, so none of it is used twice |
| FrameIntegrity.HeaderAccepted | libp2p/RLPXFrameCoder.cpp:170-180 | which headers are accepted, what comes out, and how far the key stream is used, in the same terms |
| FrameIntegrity.BodyAccepted | libp2p/RLPXFrameCoder.cpp:182-191 | the same for bodies |
| FrameIntegrity.HeaderVouched | libp2p/RLPXFrameCoder.cpp:170-180 | a header accepted under the tag of another one from the same state is that one, or the hash collides on two continuations by one block |
| FrameIntegrity.BodyVouched | libp2p/RLPXFrameCoder.cpp:182-191 | the same for bodies of any lengths |
| FrameIntegrity.LastTagVouches | libp2p/RLPXFrameCoder.cpp:170-252 | the last tag vouches for all before it: two accepted runs of frames of the same sizes with the same last tag are equal byte for byte, or the hash collides |
| RlpxPacket.BeginningNotExact | libp2p/RLPXPacket.h:55-60 | a proper beginning of the data of a packet never looks complete |
| RlpxPacket.NextFound | libp2p/RLPXPacket.h:34-34 | the first item in front of anything is found |
| FrameWriter.RLPXFrameWriter.Enque | libp2p/RLPXFrameWriter.cpp:31-43 | a valid packet joins the end of its queue; data that is not one item is dropped |
| FrameWriter.AllotmentFits | libp2p/RLPXFrameWriter.cpp:68-71 | the allotment, computed in 64 bits, leaves room for the frame if and only if it is not the first frame of two waiting classes in less than 96 bytes |
| FrameWriter.RLPXFrameWriter.TakeUp | libp2p/RLPXFrameWriter.cpp:83-111 | which packets are taken up, whole or to be segmented, and the new sequence number |
| FrameWriter.RLPXFrameWriter.Portion | libp2p/RLPXFrameWriter.cpp:113-132 | the next bytes of the data, as many as fit; the packet leaves the queue with its last byte |
| FrameWriter.RLPXFrameWriter.Fill | libp2p/RLPXFrameWriter.cpp:74-136 | the payload of a frame: whole packets, or the beginning or more of one, greedily; the inline assertions hold |
| FrameWriter.RLPXFrameWriter.MuxFrame | libp2p/RLPXFrameWriter.cpp:56-158 | one turn: class by the swapping rule, payload, form of header, bytes; whether the frame fits into the remaining space, as the source asserts |
| FrameWriter.RLPXFrameWriter.Mux | libp2p/RLPXFrameWriter.cpp:45-161 | a run of frames of at most the given size in all, each of the class whose turn it is and as full as its allotment allows, until space or packets run out; the result counts the packets completed; the bytes are those of the coder; otherwise the assertion on the first frame fails; the space is shared as FilledShared says |
| FrameWriter.OverrunExactly | libp2p/RLPXFrameWriter.cpp:68-147 | the assertion fails if and only if both classes wait, there is space for one frame of 64 or 80 bytes, and all that is next in the class of high priority does not fit into it |
| FrameWriter.OverrunExample | libp2p/RLPXFrameWriter.cpp:68-147 | for instance mux(64), with a packet of 21 bytes waiting in each class, writes a frame of 80 bytes |
| FrameWriter.FilledShared | libp2p/RLPXFrameWriter.cpp:67-71 | how the space is shared: when both classes wait in more than 128 bytes, the first frame is of high priority and its payload has half of the space less 48 bytes, all of that when its next packet is longer; the frames after it are of low priority while that class waits, and each may fill what is left. With 128 bytes the first frame may fill all, with 96 or 112 low priority goes first |
| FrameWriter.BothServed | libp2p/RLPXFrameWriter.cpp:45-161 | so neither class starves: with both waiting and space for 144 bytes or more, every call sends something of either, high priority first |
| FrameWriter.FilledUnique | libp2p/RLPXFrameWriter.cpp:45-161 | the description of a call of mux leaves no choice: class, cut and number of its frames are determined by queues and space |
| FrameWriter.CutConserves | libp2p/RLPXFrameWriter.cpp:74-136 | a frame sends the next bytes of its queue, at least one, and nothing else |
| FrameWriter.RunConserves | libp2p/RLPXFrameWriter.cpp:45-161 | in each class a run of frames sends the queued bytes in order, each exactly once, and completes packets in order |
| FrameWriter.MuxSends | libp2p/RLPXFrameWriter.cpp:45-161 | with packets and space for a frame, what is unsent strictly shrinks |
| FrameReader.RLPXFrameReader.Demux | libp2p/RLPXFrameReader.cpp:28-90 | reassembly in place, with the checks and errors of the source; the counter of missing bytes is read once more after its entry was erased, and has its last value then |
| FrameReader.RLPXFrameReader.Parse | libp2p/RLPXFrameReader.cpp:68-89 | the loop over the packets of a buffer |
| FrameReader.SeveralExactly | libp2p/RLPXFrameReader.cpp:68-89 | the packets of an unsegmented frame come back if and only if all but the last have data |
| FrameReader.EmptyDataMisread | libp2p/RLPXFrameReader.cpp:68-89 | otherwise a packet without data takes the type of the next one for its data |
| FrameReader.CutOffExactly | libp2p/RLPXFrameReader.cpp:68-89 | an unsegmented frame that ends within the data of a packet is refused if and only if it holds the whole header of the data; otherwise the packet comes out without data |
| FrameReader.StartDemuxed | libp2p/RLPXFrameReader.cpp:37-86 | the first frame of a segmented packet is kept, or dropped when padding and tag make it longer than the packet |
| FrameReader.DroppedExample | libp2p/RLPXFrameReader.cpp:37-41 | for instance mux(64) begins a packet of 21 bytes with a frame of 16, which is dropped |
| FrameReader.MoreDemuxed | libp2p/RLPXFrameReader.cpp:43-63 | a further frame extends the held part, and the last one gives the packet back intact |
| FrameReader.AnyFrame | libp2p/RLPXFrameReader.cpp:28-90 | whatever frame arrives, only the part with its number changes: it grows, begins anew or goes; a packet that comes out is valid, and has the announced size and the bytes of its frames in order |
| FrameReader.AnyRun | libp2p/RLPXFrameReader.cpp:28-90 | so any frames at all give valid packets only |
| FrameReader.InStepExactly | libp2p/RLPXFrameReader.cpp:28-90 | the exact condition for each frame: the reader gives the completed packets and holds the same parts as the writer, if and only if packets sharing a frame have data and a first frame is not longer than its packet |
| FrameReader.HeadersExactly | libp2p/RLPXFrameWriter.cpp:104-146 | the header fields of a run: the protocol, for a packet that is begun its size and a number one more, in 16 bits, than that of the one begun before, and for one that goes on its number |
| FrameReader.Reassembled | libp2p/RLPXFrameReader.cpp:28-90 | for any run of such frames, with distinct numbers in flight, each class gets back exactly its completed packets, intact and in order |
| FrameReader.FewStartsDeliverable | libp2p/RLPXFrameWriter.cpp:104-105 | with less than 65536 segmented packets the 16-bit numbers in flight are distinct, whatever wraps around |
| FrameReader.LongKept | libp2p/RLPXFrameWriter.cpp:74-136 | packets with data that are almost as long as the space of a call of mux are always kept by the reader |
| FrameReader.EndToEnd | libp2p/RLPXFrameReader.cpp:28-90 | the same from the writer through both coders to the packets at the other end |
| FrameSession.ReadFrame | libp2p/RLPXFrameCoder.cpp:170-191 | one frame off the wire: header and fields checked and read, the body into the reader |
| FrameSession.GoingSent | libp2p/RLPXFrameWriter.cpp:45-161 | one call of mux, through both coders and the reader, keeps both ends in step and every packet accounted for, while every frame is kept and starts no packet with a number in flight |
| FrameSession.TraceUnique | libp2p/RLPXFrameWriter.cpp:31-161 | the calls of enque and mux determine every state of the writer and every frame |
| FrameSession.Session | libp2p/RLPXFrameWriter.cpp:31-161 | any interleaving of enque and mux, however long, run on writer, coders and reader: if every frame is kept and no packet is started with a number that is in flight, no frame is refused, and in each class what came out and then what is still queued is what was queued, in order |
| FrameSession.FewStartsFine | libp2p/RLPXFrameWriter.cpp:104-105 | a session whose frames are kept and that segments less than 65536 packets starts none with a number in flight, whatever wraps around |
| FrameSession.Connection | libp2p/RLPXFrameCoder.cpp:54-109 | the same over two coders set up with mirrored arguments, in either direction |
| RangeMask.SameSetSameForm | libdevcore/RangeMask.h:136-139 | masks with the same elements have the same intervals |
| RangeMask.RangeMask.UnionWithRange | libdevcore/RangeMask.h:233-292 | the in-place loop adds exactly the range, keeps intervals non-empty, ordered and separated, and terminates; its assertions hold |
| RangeMask.TurnBoth | libdevcore/RangeMask.h:271-287 | one turn of that loop where two intervals grow into one |
| RangeMask.RangeMask.UnionWith | libdevcore/RangeMask.h:102-109 | exactly the union, on the hull of the ground ranges; a mask added to itself stays as it is |
| RangeMask.RangeMask.Inverted | libdevcore/RangeMask.h:78-91 | exactly the complement within the ground range |
| RangeMask.InvertedTwice | libdevcore/RangeMask.h:75-95 | inverting twice gives back the same intervals |
| RangeMask.RangeMask.Subtract | libdevcore/RangeMask.h:97-98 | what operator-= leaves: the difference, and on a larger ground range also its other numbers that the operand does not have; a mask taken from itself stays as it is |
| RangeMask.DifferenceExactly | libdevcore/RangeMask.h:97-98 | it is the difference if and only if the operand reaches beyond the ground range only by numbers that it has |
| RangeMask.DifferenceExample | libdevcore/RangeMask.h:97-98 | for instance the empty mask over [0, 1) minus the empty mask over [0, 2) gets the element 1 |
| RangeMask.SelfDifferenceExactly | libdevcore/RangeMask.h:97-98 | for a mask taken from itself what is left is the difference if and only if the mask is empty |
| RangeMask.RangeMask.SubtractRange | libdevcore/RangeMask.h:97-98 | the same for a range |
| RangeMask.RangeMask.Lowest | libdevcore/RangeMask.h:65-72 | the least elements: as many as asked for or as there are, all below what is left out |
| RangeMask.RangeMask.Contains | libdevcore/RangeMask.h:123-129 | membership |
| RangeMask.RangeMask.Full | libdevcore/RangeMask.h:136-139 | true if and only if every number of the ground range is in the mask |
| RangeMask.RangeMask.Next | libdevcore/RangeMask.h:183-192 | the least element after a number, or the end of the ground range |
| RangeMask.RangeMask.Count | libdevcore/RangeMask.h:195-201 | the loop adds up the lengths |
| RangeMask.SizeCounts | libdevcore/RangeMask.h:195-201 | the size is the number of elements |
| RangeMask.RangeMask.FirstOut | libdevcore/RangeMask.h:203-208 | the least number of the ground range that is not in the mask, or its end |
| RangeMask.RangeMask.LastIn | libdevcore/RangeMask.h:210-215 | the greatest element |
| RangeMask.RangeMask.Elements | libdevcore/RangeMask.h:157-192 | from begin to end each element once, ascending, in as many steps as the size says |
| Worker.RunKeeps | libdevcore/Worker.cpp:30-122 | an invariant over shared state, thread and caller, kept by every step of every interleaving |
| Worker.NeverStartingAtExchange | libdevcore/Worker.cpp:60-64 | the thread never finds Starting when it stores Stopped |
| Worker.StartTakesEffect | libdevcore/Worker.cpp:34-46 | a start takes effect exactly on a fresh or stopped worker |
| Worker.StartReturns | libdevcore/Worker.cpp:80-82 | when such a start returns, the thread has left Starting and work has begun exactly once since |
| Worker.StopReturns | libdevcore/Worker.cpp:85-97 | when stopWorking returns, the thread is outside startedWorking to doneWorking |
| Worker.StaysQuiet | libdevcore/Worker.cpp:85-97 | and it stays outside, whatever is called, until the next start |
| Worker.KillingNotLost | libdevcore/Worker.cpp:62-64 | a Killing request is in the state, or about to be put back, until the thread has ended |
| Worker.TerminateReturns | libdevcore/Worker.cpp:99-112 | after terminate there is no thread, and only terminate ends one; it leaves Killing where there was a thread, and the state of a fresh or terminated worker as it was |
| Worker.WorkingExactly | libdevcore/Worker.h:76-76 | isWorking is true only between startedWorking and doneWorking, and while nobody is inside another call, which the lock ensures, exactly there |
| Worker.WaitsEnd | libdevcore/Worker.cpp:80-109 | each step of the thread brings the end of a waiting call nearer, so no wait blocks for ever |
| Worker.WaitIsSeen | libdevcore/Worker.cpp:114-122 | while a call waits for work to stop, the work loop can see it |

## Left out

- TrieDB.GenericTrieDB.Remove: a value of at most 32 bytes that is taken for a reference and is, with zeros in front, the hash of a stored node; and what the source goes on to do after it has read a nibble behind the key.
- TrieDB.GenericTrieDB.DeleteAt: the same two things.
- TrieDB.GenericTrieDB.DeleteAtAux: the same two things.
- TrieDB.GenericTrieDB.IsTwoItemNode: a value of at most 32 bytes that is, with zeros in front, the hash of a stored node.
- TrieDB.GenericTrieDB.RejigAt: the same.
- TrieHistory.Run: the same for each removal; with keys of which none is the beginning of another nothing is left out.
- TrieHistory.RootTwice: the same.
- TrieHistory.CountsAfterRun: the same.
- TrieOverlay.Act: the same for a removal.
- TrieOverlay.RunOverlay: the same for each removal; with keys of which none is the beginning of another nothing is left out.
- TrieDB.GenericTrieDB.Check: valid tries only; which damage the scan of the structure finds is not modelled.
- TrieDB.GenericTrieDB.SetRoot: a digest that can be read is that of a trie; other contents are not modelled.
- FrameWriter.RLPXFrameWriter.Mux: what is written after the assertion on the first frame has failed.
- FrameReader.Reassembled: sequence numbers in flight are assumed distinct, which holds for less than 65536 segmented packets (`FrameReader.FewStartsDeliverable`), and packets shorter than 4 GB; a number that is given again while it is in flight is not followed further.
- FrameReader.RLPXFrameReader.Demux: that the counter of missing bytes is read after its map entry was erased; the model reads the value it had.
- FrameSession.Session: after a frame that the reader does not keep, or a number that is given again while it is in flight, only the sending end is described.
- FrameSession.Connection: the same.
- FrameSession.ReadFrame: a frame arrives whole and by itself; the socket reads that cut it out of the stream by the length in its header are not modelled.
- YellowPaper.EncodeIsRLP: the paper serialises nothing of 2 to the 64 bytes or more; from there on the first byte wraps around in both definitions.
- RangeMask.RangeMask.Subtract: numbers do not overflow.
- RlpStream.RLPStream.AppendItem: encodings shorter than 2 to the 64, the size type of the source.
- RlpView.RLP.constructor: the other strictness flags, under which a view may be cut off or may have bytes behind its item.
- Values: the runs of `TrieHistory` and `TrieOverlay` insert values that are not empty; `TrieDB.GenericTrieDB.Insert` takes any, and a trie that an empty value took out of normal form is read and inserted into but not removed from.
- The nodes of the trie and of hash256rlp are built as item values and encoded as a whole; that streaming them element by element writes the same bytes is `RlpStream.RLPStream.AppendItem`.
- One class stands for the memory store and the overlay: without a disk it is the former.
- HashedGenericTrieDB and FatGenericTrieDB, apart from the auxiliary map of the store.
- The enforced-reference mode of the memory store and reference counts beyond the machine's integers.
- Branches for corrupted tries in the cursor and the structure scan, and diagnostics.
- Keccak, AES and the key agreement themselves; hash, block cipher, key stream and agreement are parameters.
- Iteration over an RLP view with trailing bytes.
- Frames sent by the handshake, Session and Host: sockets, timers and callbacks.
- Worker code that calls its own start or stop from inside the thread, and the sleeping times of the waits.
- Retrying and giving up when a disk write fails.
