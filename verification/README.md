# Verification model of the Sharelin core

A Dafny model of the core of Sharelin, a Gnutella2 client, with proofs of what its parts promise.
The model follows the program file by file: classes with mutable fields and loops where the program
has them, functions where it computes. Every class is proved against functions that say what it
means, and the properties of the program are lemmas about those functions or invariants that every
method keeps. `dafny verify dfyconfig.toml` checks the whole project with Dafny 4.11.

| file | models | main results |
|---|---|---|
| `Merkle`, `Thex`, `Ttr` | the streaming Tiger tree hash, `hash/ttr.c` | `Ttr.DigestOfPieces`, `Thex.OnlyTreeHash`, `Ttr.CapacityIsBlockLimit`, `Merkle.StackHoldsRunRoots` |
| `TreeShape`, `TigerTree` | the depth-truncated hash tree, `tigertree.cpp` | `TreeShape.RootIsDigest`, `TreeShape.GetIsDigest`, `TreeShape.TreeOfFileIff`, `TigerTree.TigerTree.FromBytes`, `TigerTree.LoadTreeOf` |
| `G2Packet`, `G2Writer`, `G2Reader`, `G2RoundTrip` | packets of nested frames, `g2packet/` | `G2Packet.EncIsPacket`, `G2Writer.EncodePacket`, `G2Reader.ReadPacket`, `G2RoundTrip.RoundTrip` |
| `Range`, `FileRanges`, `FileMap` | the byte map of a file, `range.hpp`, `filemap.*` | `FileMap.FileMap.ModifyRange`, `FileMap.SaveAndLoad` |
| `Ownership`, `HashedParts`, `Download`, `DownloadRun` | one download with its downloaders and its hash job, `download.cpp`, `downloader_impl.cpp` | `DownloadRun.Run`, `DownloadRun.CheckedRun`, `DownloadRun.RightBytesFound`, `DownloadRun.StaysStuck`, `HashedParts.RootProven` |
| `BlockHash`, `Sha1`, `Md5` | the streaming digests, `hash/sha1.c`, `hash/md5.c` | `Sha1.DigestOfPieces`, `Sha1.DigestIs`, `Md5.DigestOfPieces`, `Md5.DigestIs` |
| `Fragments`, `ArrivalCache`, `DepartureCache` | datagrams that carry parts of messages | `Fragments.DeliveredAtLastGap`, `ArrivalCache.ReceiveAll`, `DepartureCache.Run`, `DepartureCache.DeliveredIfOnePiece` |
| `Base32` | `conv/base32.hpp`, RFC 4648 section 6 | `Base32.RoundTrip`, `Base32.EncodedAt`, `Base32.AcceptedIff` |
| `KeywordCache` | the keyword index, `kwcache.hpp`, `querylang.hpp` | `KeywordCache.Search` |
| `AsyncTasks`, `TrafManager`, `UploadManager`, `DownloadManager` | the schedulers | `AsyncTasks.Run`, `TrafManager.Run`, `UploadManager.Run`, `DownloadManager.Manager.Update` |

Tiger, the block functions of SHA-1 and MD5, and zlib are function parameters, so the results hold for
every choice of them. Clocks, random choices, socket results and the bandwidth that is granted are
parameters of the steps. Ghost fields keep books: which bytes a downloader has claimed, which slot a
buffer is in, when a packet was sent.

Where the code and its documentation differ the model follows the code:

- `hash/ttr.h` speaks of 2^64 bytes and `hash/ttr.c` of about 2^72 bytes. The 56 stack slots
  suffice for exactly the inputs of fewer than 2^55 blocks of 1024 bytes (`Ttr.CapacityIsBlockLimit`).
- `TigerTree::Get` halves a 0-based heap index, whose parent is `(i - 1) / 2`. The walk still reaches the
  right node if and only if the range starts an aligned power-of-two run of slices
  (`TreeShape.WalkReachesAncestor`).
- A child packet that is empty and has a one-character name begins with a zero byte, which the reader
  takes for the end of the children. A tree survives the round trip if and only if it has no such
  child anywhere (`G2RoundTrip.ViewIsPlain`).
- A map saved while bytes were being fetched may come back with equal neighbours. It is coalesced if and
  only if no ACTIVE range touched an EMPTY one (`FileMap.SavedCoalesced`).
- `DepartureCache::Put` takes the end of every piece from the begin of the buffer instead of from the begin of
  the piece. A message is cut as it should be if and only if it fits into one piece; 1008 bytes give a second
  piece that is empty, and any other length a range that ends before it begins (`DepartureCache.FewPieces`,
  `DepartureCache.FragmentedIfOnePiece`). It also increments a fresh copy of the header for every piece, so
  that all pieces are numbered 1, and a message arrives if and only if it is a single piece
  (`DepartureCache.DeliveredIfOnePiece`, and for any count `DepartureCache.DeliveredIfCountIsOne`).
- `TigerTree::FromBytes` takes the number of rows from the number of hashes it is given, whatever the size of the
  file. Its loops stay inside the node array if and only if the hashes call for at least two rows and for no
  more than the file has, or for one row if the file is empty (`TigerTree.TigerTree.FromBytes`,
  `TigerTree.NotAlwaysDefined`).
- `Range::Intersects` lets the end of a range wrap. A host that announces bytes up to offset 2^32 - 1 is taken to
  have none (`FileMap.IntersectsIff`, `FileMap.LastOffsetWraps`).
- `FileMap::FromStream` keeps the cached status of the map that was there before (`FileMap.FileMap.FromStream`).
- `DownloaderImpl::HandleResponse` takes all that came along with the headers for a piece of the range. The write stays
  inside the bytes that the downloader has claimed if and only if no more came along than was asked for; else
  an assertion fails after the bytes behind the range have been overwritten
  (`Downloads.DownloaderImpl.HandleResponse`, `Ownership.StaysInsideIff`).
- `FileMap::GetForValidation` hands out the FULL end of a file also if it begins inside a block. Its digest is then
  compared with that of the whole block, and right bytes are found wrong (`DownloadRun.PartFoundIff`,
  `HashedParts.PartHashIs`); the right bytes of every other part are found right (`DownloadRun.RightBytesFound`).
- `Download::Resume` starts no job. A download that is resumed when no byte is vacant, for instance because it was
  stopped while its last parts were being hashed, stays as it is for good; in all other cases the next tick
  with a source goes on (`DownloadRun.ResumedFull`, `DownloadRun.ResumedTick`).

The file map is used for sizes whose sum with the verification size stays within 32-bit offsets. A run of a
download is one in which the bytes of every tree that arrives are ones for which `FromBytes` is defined, and no
accepted answer overruns (`Downloads.Overruns`).

## Model

| member | source | states |
|---|---|---|
| Thex.LevelIsDigest | sharelin-core/jni/src/hash/ttr.c:82-97 | k levels up in the hash tree of a file, node i is the digest of the i-th slice of 2^k blocks, for every file, slice and level |
| Thex.SliceDigest | sharelin-core/jni/src/hash/ttr.c:99-134 | the digest of a slice that begins at a block boundary is the root over the run of its block hashes |
| Thex.OneBlockRoot | sharelin-core/jni/src/hash/ttr.c:82-87 | a message of at most 1024 bytes is hashed behind one zero byte |
| Thex.HalvedRoot | sharelin-core/jni/src/hash/ttr.c:71-97 | a message of more than 2^k and at most 2^(k+1) blocks has the digest of its first 2^k blocks and that of the others, in this order, hashed behind a one |
| Thex.RootIsTreeHash | sharelin-core/jni/src/hash/ttr.c:71-152 | the root satisfies both equations of the draft |
| Thex.OnlyTreeHash | sharelin-core/jni/src/hash/ttr.c:71-152 | and no other function does: whatever satisfies them has the same value for every message |
| Merkle.StackPush | sharelin-core/jni/src/hash/ttr.c:82-97 | combining as often as the block count has trailing zero bits turns the stack of n leaves into the stack of n + 1 |
| Merkle.StackRoot | sharelin-core/jni/src/hash/ttr.c:145-152 | folding any such stack from the top gives the root of the level-by-level tree in which an odd node is promoted |
| Merkle.StackHoldsRunRoots | sharelin-core/jni/src/hash/ttr.c:82-97 | after n blocks the stack holds the root of one perfect subtree per 1 bit of n, largest first |
| Merkle.LevelsAreRunRoots | sharelin-core/jni/src/hash/ttr.c:71-97 | k levels up, node i of the tree is the root of its aligned run of 2^k leaves |
| Merkle.LevelsKeepRoot | sharelin-core/jni/src/hash/ttr.c:145-152 | starting from any level of the tree gives the same root |
| Ttr.StackFits | sharelin-core/jni/src/hash/ttr.h:28-41 | k + 1 slots, scratch slot included, suffice for n blocks if and only if n < 2^k |
| Ttr.CapacityIsBlockLimit | sharelin-core/jni/src/hash/ttr.h:28-41 | the 56 slots suffice if and only if fewer than 2^55 blocks are hashed (the comments promise 2^64 and 2^72 bytes) |
| Ttr.TtContext.constructor | sharelin-core/jni/src/hash/ttr.c:61-69 | a new context has absorbed the empty message |
| Ttr.TtContext.Compose | sharelin-core/jni/src/hash/ttr.c:71-80 | the two top slots are replaced by their inner node, through the scratch slot above them |
| Ttr.TtContext.Block | sharelin-core/jni/src/hash/ttr.c:82-97 | a leaf is pushed and combined; the slots are the old stack with the leaf pushed, and no slot beyond the area is touched |
| Ttr.TtContext.Carries | sharelin-core/jni/src/hash/ttr.c:92-96 | the combining loop runs once per trailing zero bit of the block count |
| Ttr.TtContext.CompleteBlock | sharelin-core/jni/src/hash/ttr.c:102-119 | a buffered partial block is completed, hashed and added to the stack |
| Ttr.TtContext.WholeBlocks | sharelin-core/jni/src/hash/ttr.c:121-128 | whole blocks are hashed in order; what is left is shorter than a block |
| Ttr.TtContext.Keep | sharelin-core/jni/src/hash/ttr.c:129-133 | the leftovers are buffered, and the context again stands for everything absorbed |
| Ttr.TtContext.Update | sharelin-core/jni/src/hash/ttr.c:99-134 | any piece extends the absorbed message, whatever the earlier pieces were |
| Ttr.TtContext.Final | sharelin-core/jni/src/hash/ttr.c:137-143 | the last partial block, or the empty block of an empty message, is hashed: the slots are the stack over all leaves |
| Ttr.TtContext.ComposeAll | sharelin-core/jni/src/hash/ttr.c:145-152 | the stack is folded into its lowest slot |
| Ttr.TtContext.Digest | sharelin-core/jni/src/hash/ttr.c:145-152 | the digest is the THEX root of the absorbed message |
| Ttr.DigestOfPieces | sharelin-core/jni/src/hash/ttr.c:61-152 | for every message and every way of cutting it into pieces, the digest is the THEX root of the whole |
| TreeShape.MarkUpShape | sharelin-core/jni/src/tigertree.cpp:131-140 | creating bottom node j and its missing ancestors turns the shape for j bottom nodes into the shape for j + 1 |
| TreeShape.NodeCountBounds | sharelin-core/jni/src/tigertree.cpp:222-229 | the number of present nodes of a tree of d rows lies strictly between 2^(d-1) - 1 and 2^d |
| TreeShape.RootIs | sharelin-core/jni/src/tigertree.cpp:249-292 | the root of a validated tree is the root of its bottom hashes |
| TreeShape.NodeAt | sharelin-core/jni/src/tigertree.cpp:249-292 | k rows above the bottom of a validated tree every node holds what k rounds of pairing give |
| TreeShape.ConsistentIff | sharelin-core/jni/src/tigertree.cpp:249-292 | the test of Validate accepts a tree of any shape if and only if every node, k rows above the bottom, holds what k rounds of pairing give; a node without a right neighbour below it holds its left one |
| TreeShape.RootIsDigest | sharelin-core/jni/src/tigertree.cpp:249-292 | if Validate accepts and the bottom nodes are the digests of their slices, the root is the digest of the file, for every truncated depth |
| TreeShape.NodeIsDigest | sharelin-core/jni/src/tigertree.cpp:249-292 | under the same hypotheses every present node, not only the root, is the digest of the bytes below it |
| TreeShape.TreeOfFileIff | sharelin-core/jni/src/tigertree.cpp:249-292 | every node is the digest of the bytes below it if and only if Validate accepts and the bottom nodes are the digests of their slices |
| TreeShape.WalkReachesAncestor | sharelin-core/jni/src/tigertree.cpp:73-78 | halving a 0-based heap index k times reaches the ancestor k rows up if and only if the bottom node starts an aligned run of 2^k |
| TreeShape.GetIsDigest | sharelin-core/jni/src/tigertree.cpp:69-84 | for an aligned range the node that Get ends at holds the digest of exactly its bytes |
| TigerTree.TigerTree.Truncate | sharelin-core/jni/src/tigertree.cpp:106-118 | rows, slice size and slice count of a tree limited to maxDepth rows, for every file size and limit; the count stays the ceiling of size over slice size |
| TigerTree.TigerTree.Init | sharelin-core/jni/src/tigertree.cpp:104-154 | an unfilled tree that fits the file, with exactly the nodes that have slices below them; defined if and only if the file is empty, or has more than one block and more than one row is asked for |
| TigerTree.TigerTree.Grow | sharelin-core/jni/src/tigertree.cpp:120-140 | a node array for all rows, filled with the nodes over the slices and no others; a single node over a slice makes the walk leave the array |
| TigerTree.TigerTree.AddNodes | sharelin-core/jni/src/tigertree.cpp:133-139 | a bottom node and its missing ancestors below the root are created; from the root itself the unsigned index wraps and the walk leaves the array |
| TigerTree.TigerTree.Validate | sharelin-core/jni/src/tigertree.cpp:249-292 | accepts if and only if every present inner node agrees with its children, and clears the tree otherwise |
| TigerTree.TigerTree.ToBytes | sharelin-core/jni/src/tigertree.cpp:196-201 | appends the hashes of the present nodes in index order |
| TigerTree.HashIsAt | sharelin-core/jni/src/tigertree.cpp:196-201 | in the bytes of a tree the hash of every present node stands behind those of the present nodes in front of it |
| TigerTree.TigerTree.Get | sharelin-core/jni/src/tigertree.cpp:69-84 | the hash of the node its index walk ends at, an error for an empty tree |
| TigerTree.TigerTree.RootMatchesFile | sharelin-core/jni/src/tigertree.cpp:303-308 | Root of a validated tree over the right slice digests is the digest of the whole file |
| TigerTree.TigerTree.GetMatchesFile | sharelin-core/jni/src/tigertree.cpp:69-84 | Get of an aligned power-of-two run of slices is the digest of its bytes, and the node is present |
| TigerTree.TigerTree.RightTreeIff | sharelin-core/jni/src/tigertree.cpp:249-292 | the same of the node array of the class |
| TigerTree.TigerTree.FindHeight | sharelin-core/jni/src/tigertree.cpp:222-229 | the least number of rows whose full tree has at least that many nodes |
| TigerTree.TigerTree.FillFrom | sharelin-core/jni/src/tigertree.cpp:232-239 | present nodes take the hashes in index order; the loop leaves the array if and only if hashes are left when the nodes run out |
| TigerTree.TigerTree.FromBytes | sharelin-core/jni/src/tigertree.cpp:214-247 | for all bytes and all sizes, stays inside the node array if and only if the hashes call for at least two rows and for no more than the file has (for one row if the file is empty); then it becomes the tree whose bytes these are if they are consistent, and refuses otherwise |
| TigerTree.FillStaysIff | sharelin-core/jni/src/tigertree.cpp:222-239 | the filling loop runs out of nodes before it runs out of hashes if and only if the hashes call for more rows than the file has |
| TigerTree.NotAlwaysDefined | sharelin-core/jni/src/tigertree.cpp:214-239 | four hashes for a file of two blocks, and a single hash for any file that is not empty, make the loops leave the array |
| TigerTree.RoundTrip | sharelin-core/jni/src/tigertree.cpp:196-247 | FromBytes after ToBytes recovers rows, slice size, slice count and all hashes of every valid tree |
| TigerTree.LoadTreeOf | sharelin-core/jni/src/tigertree.cpp:196-247 | the bytes of the tree of a file, of any number of slices, are accepted by FromBytes, and its root is the digest of the file |
| G2Packet.EncAllConcat | sharelin-core/jni/src/g2packet/writer.cpp:64-95 | the encodings of packets one after the other are the encoding of the list |
| G2Packet.EncIsPacket | sharelin-core/jni/src/g2packet/writer.cpp:27-140 | the encoding of a packet is the one byte string of the specified form: two bits for the number of length bytes, three for the name, one for children, the length in as few bytes as hold it, lowest first, the name, the children, and behind a zero byte the payload |
| G2Writer.Writer.Allocate | sharelin-core/jni/src/g2packet/writer.cpp:129-133 | room is made without touching what is there |
| G2Writer.Writer.Put | sharelin-core/jni/src/g2packet/writer.cpp:112-127 | bytes are appended at the write position |
| G2Writer.Writer.Begin | sharelin-core/jni/src/g2packet/writer.cpp:27-62 | opens a frame and marks its parent compound; refused after a payload has begun, with nothing changed |
| G2Writer.Writer.MarkCompound | sharelin-core/jni/src/g2packet/writer.cpp:29-35 | only the control byte of the enclosing packet changes |
| G2Writer.Writer.PutHeader | sharelin-core/jni/src/g2packet/writer.cpp:44-58 | control byte, three reserved length bytes and the name |
| G2Writer.Writer.PutName | sharelin-core/jni/src/g2packet/writer.cpp:53-58 | the name up to its first zero byte |
| G2Writer.Writer.Close | sharelin-core/jni/src/g2packet/writer.cpp:64-95 | closes the innermost packet: the buffer is exactly the encodings of the finished packets and the unfinished bytes of the open ones; the wrong type is refused with nothing changed |
| G2Writer.Writer.SealTop | sharelin-core/jni/src/g2packet/writer.cpp:69-85 | header back-patching and the shift leave exactly the encoding of the closed packet |
| G2Writer.Writer.CountLength | sharelin-core/jni/src/g2packet/header.hpp:83-92 | the number of bytes of a length without leading zero bytes |
| G2Writer.Writer.Compact | sharelin-core/jni/src/g2packet/writer.cpp:69-85 | unused length bytes are squeezed out and the length is filled in |
| G2Writer.Writer.MoveDown | sharelin-core/jni/src/g2packet/writer.cpp:72-77 | the body moves down by the unused length bytes |
| G2Writer.Writer.PutLength | sharelin-core/jni/src/g2packet/writer.cpp:83-85 | the length bytes, lowest first |
| G2Writer.Writer.Write | sharelin-core/jni/src/g2packet/writer.cpp:97-110 | a payload is appended, after the end-of-children marker when the packet is compound |
| G2Writer.WritePacket | sharelin-core/jni/src/g2packet/writer.cpp:27-140 | writing any packet tree adds exactly that tree to the enclosing packet or to the finished ones |
| G2Writer.EncodePacket | sharelin-core/jni/src/g2packet/writer.cpp:27-140 | for every well-formed tree the buffer holds exactly its recursive encoding |
| G2Reader.DecodeEnc | sharelin-core/jni/src/g2packet/header.hpp:50-73 | decoding the header of any encoded packet, whatever follows it, gives its type, flags and sizes |
| G2Reader.DecodeIs | sharelin-core/jni/src/g2packet/header.hpp:50-73 | what the fields of any header are, byte by byte; it is refused if and only if it is cut short |
| G2Reader.Reader.Assign | sharelin-core/jni/src/g2packet/reader.cpp:111-121 | the reader stands in front of the packet; every encoded packet is accepted |
| G2Reader.Reader.Next | sharelin-core/jni/src/g2packet/reader.cpp:45-63 | moves to the next child, and reports the end after the last visible one; stays in bounds on any bytes |
| G2Reader.Reader.Settle | sharelin-core/jni/src/g2packet/reader.cpp:50-62 | behind a packet the reader stands at the next child, or knows that no visible one is left |
| G2Reader.Reader.SkipPackets | sharelin-core/jni/src/g2packet/reader.cpp:33-36 | leaves all children behind |
| G2Reader.Reader.Follow | sharelin-core/jni/src/g2packet/reader.cpp:100-109 | a reader of its own over the current or first child; an error if there is none |
| G2Reader.Reader.BytesLeft | sharelin-core/jni/src/g2packet/reader.cpp:38-43 | the length of the unread payload |
| G2Reader.Reader.Skip | sharelin-core/jni/src/g2packet/reader.cpp:74-84 | advances in the payload; fails exactly beyond its end |
| G2Reader.Reader.Read | sharelin-core/jni/src/g2packet/reader.cpp:86-98 | the piece of the payload asked for, of the current child or of the packet itself; an error beyond its end |
| G2Reader.Reader.ReadHere | sharelin-core/jni/src/g2packet/reader.cpp:86-98 | the piece of the own payload that was asked for, after which the reader stands behind it; an error beyond its end |
| G2Reader.Reader.Contains | sharelin-core/jni/src/g2packet/reader.cpp:65-72 | whether a visible child has the type |
| G2Reader.ReadPacket | sharelin-core/jni/src/g2packet/reader.cpp:26-121 | walking any encoded tree gives its view: types, visible children and payloads |
| G2RoundTrip.MarkerIsEmptyShort | sharelin-core/jni/src/g2packet/reader.cpp:45-63 | a packet begins with a zero byte if and only if it is empty with a one-character name |
| G2RoundTrip.ViewIsPlain | sharelin-core/jni/src/g2packet/reader.cpp:26-121 | a tree reads back as written if and only if none of its children anywhere is such a packet |
| G2RoundTrip.RoundTrip | sharelin-core/jni/src/g2packet/writer.cpp:27-140 | writing and reading back through the classes gives the same tree if and only if it has no such child |
| FileRanges.StatusIsOr | sharelin-core/jni/src/filemap.cpp:33-41 | the status of a range inside the file is the OR of the statuses of its bytes |
| FileRanges.FindRangeIs | sharelin-core/jni/src/filemap.cpp:193-201 | FindRange finds the range that holds the byte |
| FileRanges.CutAt | sharelin-core/jni/src/filemap.cpp:203-227 | cutting a partition at a byte keeps every byte |
| FileRanges.MergeKeeps | sharelin-core/jni/src/filemap.cpp:234-244 | joining two equal neighbours keeps the partition and every byte, and the insertion succeeds |
| FileRanges.MergeNarrows | sharelin-core/jni/src/filemap.cpp:230-247 | each step of the merging loop narrows the places where neighbours may be equal |
| FileMap.Splicing | sharelin-core/jni/src/filemap.cpp:214-228 | erasing, inserting what is left over and inserting the new range gives a partition whose bytes are overwritten in that range only |
| FileMap.OrRangesIs | sharelin-core/jni/src/filemap.cpp:23-31 | the OR over the ranges is the OR over the bytes |
| FileMap.InsideStatus | sharelin-core/jni/src/filemap.cpp:33-41 | a part of one range has the status of that range in all its bytes, so marking it is permitted |
| FileMap.FileMap.Init | sharelin-core/jni/src/filemap.cpp:188-191 | all bytes are EMPTY; an empty file gets one empty range, which is no partition |
| FileMap.FileMap.TotalStatus | sharelin-core/jni/src/filemap.cpp:23-31 | the OR over all bytes, through a cache that never holds anything else |
| FileMap.FileMap.RangeStatus | sharelin-core/jni/src/filemap.cpp:33-41 | the OR over the bytes of the range |
| FileMap.FileMap.ModifyRange | sharelin-core/jni/src/filemap.cpp:203-249 | the pointwise update of the bytes in the range; the ranges stay a gap-free partition, and stay coalesced if they were |
| FileMap.FileMap.Splice | sharelin-core/jni/src/filemap.cpp:214-228 | erasing the touched ranges, putting back what sticks out on both sides and inserting the new range |
| FileMap.FileMap.Merge | sharelin-core/jni/src/filemap.cpp:230-247 | three merge steps suffice to restore a coalesced list |
| FileMap.FileMap.GetEmptyRange | sharelin-core/jni/src/filemap.cpp:126-186 | a part of one vacant range, at most max long, not crossing a multiple of max and no shorter than these limits force; empty only if nothing is vacant; the first vacant range that begins or ends inside a verification block is served first |
| FileMap.FileMap.PickVacant | sharelin-core/jni/src/filemap.cpp:137-162 | the first vacant range that begins or ends inside a verification block, else any vacant one, else none |
| FileMap.FileMap.PickPart | sharelin-core/jni/src/filemap.cpp:164-177 | all of a range that begins inside a verification block, the unfinished last block of one that ends inside a block, else everything from the chosen block on |
| FileMap.FileMap.GetAvailableRange | sharelin-core/jni/src/filemap.hpp:78-118 | what one announced range and one vacant range have in common, at most max bytes of it; empty if and only if no vacant byte is announced, where a range that ends with offset 2^32 - 1 announces nothing because its end wraps to 0 |
| FileMap.IntersectsIff | sharelin-core/jni/src/range.hpp:51-54 | an announced range intersects a range of the map if and only if they share a byte and the announced one does not end with offset 2^32 - 1 |
| FileMap.LastOffsetWraps | sharelin-core/jni/src/range.hpp:51-54 | a range announced up to offset 2^32 - 1 intersects nothing |
| FileMap.FileMap.GetForValidation | sharelin-core/jni/src/filemap.cpp:71-97 | the first verification block of which a FULL range holds every byte, or else a FULL last range shorter than a block; nothing if and only if there is neither |
| FileMap.FileMap.CountBytes | sharelin-core/jni/src/filemap.cpp:99-106 | the number of positions whose byte has one of the flags |
| FileMap.FileMap.ToStream | sharelin-core/jni/src/filemap.cpp:269-278 | first byte, last byte and status of every range, ACTIVE as EMPTY |
| FileMap.FileMap.FromStream | sharelin-core/jni/src/filemap.cpp:251-267 | accepts exactly the entries that follow each other without a gap, and becomes the map of them; the cached status is kept, so that the map is sound if and only if that was not yet computed or is the one of the entries |
| FileMap.SaveAndLoad | sharelin-core/jni/src/filemap.cpp:251-278 | saving and loading any map gives a partition with the same bytes, ACTIVE ones as EMPTY |
| FileMap.SavedCoalesced | sharelin-core/jni/src/filemap.cpp:269-278 | the loaded map is coalesced if and only if no ACTIVE range had an EMPTY neighbour |
| Ownership.Claim | sharelin-core/jni/src/downloader_impl.cpp:504-531 | claiming bytes nobody fetches keeps the ACTIVE bytes the disjoint union of the claims |
| Ownership.Release | sharelin-core/jni/src/downloader_impl.cpp:121-128 | so does giving a claim up |
| Ownership.ClaimVacant | sharelin-core/jni/src/downloader_impl.cpp:504-531 | a part of a vacant range may be marked ACTIVE, and then belongs to one downloader only |
| Ownership.HandOver | sharelin-core/jni/src/downloader_impl.cpp:204-224 | a fetched range is wholly ACTIVE, so it may be marked FULL |
| Ownership.GiveUp | sharelin-core/jni/src/downloader_impl.cpp:277-285 | stopping gives back exactly what was being fetched |
| Ownership.WrittenAt | sharelin-core/jni/src/downloader_impl.cpp:231-232 | where data is written the file holds the data in order, everywhere else what it held |
| Ownership.StaysInsideIff | sharelin-core/jni/src/downloader_impl.cpp:226-245 | data written at the start of a range leaves every other byte of every file alone, and its size, if and only if it is not longer than the range |
| Ownership.ReleaseSaved | sharelin-core/jni/src/filemap.cpp:269-278 | giving a claim up changes nothing that saving the map would show |
| Downloads.DownloaderImpl.CancelTask | sharelin-core/jni/src/downloader_impl.cpp:121-128 | the fetched range becomes EMPTY, nothing else changes |
| Downloads.DownloaderImpl.Close | sharelin-core/jni/src/downloader_impl.cpp:277-285 | closed once and for all, the range given back |
| Downloads.DownloaderImpl.DetachMe | sharelin-core/jni/src/downloader_impl.cpp:183-188 | closed and out of the list |
| Downloads.DownloaderImpl.Transfer | sharelin-core/jni/src/downloader_impl.cpp:190-202 | at most 16 KiB and never beyond the range is read next, as far as the traffic manager grants it |
| Downloads.DownloaderImpl.FetchFile | sharelin-core/jni/src/downloader_impl.cpp:504-531 | claims at most 128 KiB of bytes that were vacant, inside one announced range if there are any; gets work if and only if a vacant byte is on offer, else leaves with no byte changed |
| Downloads.DownloaderImpl.Request | sharelin-core/jni/src/downloader_impl.cpp:517-530 | the bytes become ACTIVE and belong to this downloader |
| Downloads.DownloaderImpl.FetchTiger | sharelin-core/jni/src/downloader_impl.cpp:487-502 | a tree is asked for and no bytes are claimed |
| Downloads.DownloaderImpl.TaskComplete | sharelin-core/jni/src/downloader_impl.cpp:204-224 | a fetched range is FULL afterwards, and the downloader has new work or is gone |
| Downloads.DownloaderImpl.HandRangeOver | sharelin-core/jni/src/downloader_impl.cpp:207-210 | SetFull of the own range is permitted, and the range is nobody's afterwards |
| Downloads.DownloaderImpl.HandTreeOver | sharelin-core/jni/src/downloader_impl.cpp:211-218 | a tree is kept if there was none and its root is the known one, and changes no byte of the map |
| Downloads.DownloaderImpl.OnData | sharelin-core/jni/src/downloader_impl.cpp:226-246 | data is written at its place inside the own range only; the last piece makes the range FULL, after any other the transfer goes on |
| Downloads.DownloaderImpl.Store | sharelin-core/jni/src/downloader_impl.cpp:226-236 | the write keeps every byte that is not being fetched by this downloader |
| Downloads.DownloaderImpl.OnTransfer | sharelin-core/jni/src/downloader_impl.cpp:259-275 | data is stored at its place, an error ends the downloader, an aborted operation and a closed downloader change nothing |
| Downloads.DownloaderImpl.OnConnected | sharelin-core/jni/src/downloader_impl.cpp:165-181 | work is assigned, an error ends the downloader, an aborted operation and a closed downloader change nothing |
| Downloads.DownloaderImpl.OnHeadersSent | sharelin-core/jni/src/downloader_impl.cpp:287-303 | the clock of the downloader is set, an error ends it, an aborted operation and a closed downloader change nothing |
| Downloads.DownloaderImpl.OnHeadersReceived | sharelin-core/jni/src/downloader_impl.cpp:454-474 | any answer that is not acceptable ends the downloader and gives its range back; an aborted operation and a closed downloader change nothing; the assertion of OnData fails if and only if more came along with an accepted answer than was asked for |
| Downloads.DownloaderImpl.HandleResponse | sharelin-core/jni/src/downloader_impl.cpp:306-433 | throws if and only if the answer is not exactly the requested range, a tree of a sane length or a place in a queue; what came along with accepted headers is stored, and a queued downloader has given its range back; the assertion of OnData fails if and only if more came along than was asked for |
| Downloads.DownloaderImpl.ReadHeaders | sharelin-core/jni/src/downloader_impl.cpp:321-376 | throws if and only if a line cannot be understood; the last length and bounds count; queued if and only if 503 with a queue line |
| Downloads.AnnouncementsAre | sharelin-core/jni/src/downloader_impl.cpp:42-58 | the announced ranges go from the first to the last bound of every pair, up to the first pair out of order |
| Downloads.LengthIsLast | sharelin-core/jni/src/downloader_impl.cpp:351-352 | the length is that of the last such line, 0 without one |
| Downloads.BoundsAreLast | sharelin-core/jni/src/downloader_impl.cpp:366-371 | the bounds are those of the last such line, 0 without one |
| Downloads.DownloaderImpl.TakeHeader | sharelin-core/jni/src/downloader_impl.cpp:323-376 | a header line sets the announced ranges, the tree flag or the place in the queue, and leaves the range alone unless the downloader is queued |
| Downloads.DownloaderImpl.ExtractAvailableRanges | sharelin-core/jni/src/downloader_impl.cpp:42-58 | exactly the pairs of bounds up to the first one out of order, each a range that Intersects can handle |
| Downloads.DownloaderImpl.EnterQueue | sharelin-core/jni/src/downloader_impl.cpp:357-365 | a queued downloader has given its range back |
| Downloads.DownloaderImpl.BeginTransfer | sharelin-core/jni/src/downloader_impl.cpp:405-421 | what came along with the headers is written at the start of the range, and completes it if and only if it is all of it; it all belongs there if and only if it is not longer than what was asked for |
| Downloads.DownloaderImpl.Overrun | sharelin-core/jni/src/downloader_impl.cpp:226-243 | too long a piece is written in full, behind the range and past the end of the file, before the assertion fails |
| Downloads.DownloaderImpl.OnTimer | sharelin-core/jni/src/downloader_impl.cpp:139-163 | a stalled downloader is let go and gives its range back, one whose transfer was paused reads on, a queued one is given work once its time is over; no other downloader is touched while the download is transferring |
| Downloads.DownloaderImpl.Fail | sharelin-core/jni/src/downloader_impl.cpp:176-180 | an error ends the downloader and gives its range back |
| Downloads.Download.constructor | sharelin-core/jni/src/download.cpp:63-72 | a stopped download without downloaders over a map in which nothing is ACTIVE |
| Downloads.Download.CloseDownloaders | sharelin-core/jni/src/download.cpp:658-663 | all ranges are given back: the bytes become what saving the map would write |
| Downloads.Download.FileUpdated | sharelin-core/jni/src/download.cpp:270-302 | no byte changes; a download without a job is moved if every byte is VALID, moved as corrupted if every byte is INVALID, hashed as a whole if every byte is FULL, and keeps its state otherwise; with the tree known a job runs whenever a FULL range holds a block |
| Downloads.Download.FileDone | sharelin-core/jni/src/download.cpp:276-281 | the copy starts and no byte changes, although all downloaders are closed |
| Downloads.Download.LastHash | sharelin-core/jni/src/download.cpp:282-289 | the hash of the whole file starts and no byte changes, although all downloaders are closed |
| Downloads.Download.PartHash | sharelin-core/jni/src/download.cpp:290-301 | a hash starts whenever a FULL range holds a block, of a range that is FULL and that the tree has a node for |
| Downloads.Download.FileComplete | sharelin-core/jni/src/download.cpp:311-331 | the copy job starts, as corrupted if and only if the bytes are INVALID, with no other job running |
| Downloads.Download.Hashed | sharelin-core/jni/src/download.cpp:368-412 | exactly the hashed range becomes VALID or INVALID, as its digest matches or not; then the download is moved if every byte is VALID, moved as corrupted if every byte is INVALID, and goes on transferring otherwise; a read error changes nothing |
| Downloads.Download.Compare | sharelin-core/jni/src/download.cpp:380-396 | the whole file matches by any of its digests, a part by the node of the tree, which is present |
| Downloads.Download.SetHashed | sharelin-core/jni/src/download.cpp:398-409 | the hashed range is wholly FULL, so the change is permitted |
| Downloads.Download.TaskDone | sharelin-core/jni/src/asynctaskserver.cpp:81-88 | the result of an aborted job is dropped; the file content under a hash is what it was when the job started; the last good hash moves the download |
| Downloads.Download.Copied | sharelin-core/jni/src/download.cpp:333-366 | stopped after a good copy, failed after a bad one, no byte changes |
| Downloads.Download.OnIdle | sharelin-core/jni/src/download.cpp:471-493 | the download moves on if and only if its bytes allow it; else the downloader gets work if and only if a tree is missing or a vacant byte is on offer; only vacant bytes change, and no other downloader |
| Downloads.Download.Assign | sharelin-core/jni/src/download.cpp:476-491 | the tree if it is missing, else a part of the file if and only if a vacant byte is on offer, else dismissal |
| Downloads.Download.OnTiger | sharelin-core/jni/src/download.cpp:414-426 | the first tree with the right root is kept and sets the verification size; any later or other tree is refused |
| Downloads.Download.OnTimer | sharelin-core/jni/src/download.cpp:428-455 | every downloader that has stalled by every clock reading is let go; one more is connected if and only if a vacant byte is left and a source is known; nothing happens unless transferring |
| Downloads.Download.NewDownloader | sharelin-core/jni/src/download.cpp:245-267 | a new downloader holds no bytes |
| Downloads.Download.HandleGIV | sharelin-core/jni/src/download.cpp:181-212 | a pushed connection is taken if and only if it is a known source, there is room and something is vacant, and then it gets work at once or the download has moved on |
| Downloads.Download.WriteFile | sharelin-core/jni/src/downloader_impl.cpp:231-232 | the write goes to ACTIVE bytes of one downloader; VALID bytes and bytes under a hash keep their content |
| Downloads.Download.AbortWork | sharelin-core/jni/src/download.cpp:665-668 | a running job is marked aborted, a waiting one is dropped, nothing else changes |
| Downloads.Download.Stop | sharelin-core/jni/src/download.cpp:649-656 | no downloader and no live job is left, all ranges are given back |
| Downloads.Download.Pause | sharelin-core/jni/src/download.cpp:128-132 | no downloader and no live job is left, all ranges are given back, and the state is Paused |
| Downloads.Download.Resume | sharelin-core/jni/src/download.cpp:625-647 | transferring, or failed when the file cannot be opened |
| Downloads.Download.Cancel | sharelin-core/jni/src/download.cpp:140-147 | no downloader and no live job is left, and all ranges are given back only once |
| Downloads.Download.DetachMe | sharelin-core/jni/src/download.cpp:304-309 | no downloader and no live job is left |
| DownloadRun.Callback | sharelin-core/jni/src/downloader_impl.cpp:165-303 | every callback keeps the invariant of the run; errors and unacceptable answers end the downloader, data lands at its place |
| DownloadRun.Command | sharelin-core/jni/src/download.cpp:128-147 | every command keeps the invariant of the run; after stop, pause and cancel nothing is being fetched and no job is live |
| DownloadRun.Step | sharelin-core/jni/src/download.cpp:270-493 | every event keeps the invariant of the run, and a finished hash of a live job marks exactly its range |
| DownloadRun.EndJob | sharelin-core/jni/src/download.cpp:368-412 | a hash job that was not aborted marks its range VALID if and only if the digest of the bytes in it is the right one, and moves the download if that was the last of them |
| DownloadRun.RightBytesFound | sharelin-core/jni/src/download.cpp:368-412 | the bytes of the file whose tree is known are found right, as a whole, as a slice and as the whole of the last slice |
| DownloadRun.PartFoundIff | sharelin-core/jni/src/download.cpp:390-396 | a part is found right if and only if its bytes have the digest of the slice in which it begins |
| DownloadRun.CheckedStep | sharelin-core/jni/src/download.cpp:368-412 | every event keeps the account of the parts whose digest was compared with the tree |
| DownloadRun.Run | sharelin-core/jni/src/download.cpp:270-493 | through every sequence of events the ACTIVE bytes are exactly the disjoint union of the ranges being fetched, a range being hashed is FULL with unchanged content, VALID bytes stay VALID and are never written again, and a file is moved only when its bytes are all VALID or all INVALID; no assertion of the map can fail |
| DownloadRun.CheckedRun | sharelin-core/jni/src/download.cpp:368-412 | through every run that begins without VALID bytes and in which no other digest decides, every VALID byte lies in a part whose content has the digest that the tree holds for it, and a file moved as valid has the known root digest |
| DownloadRun.StaysStuck | sharelin-core/jni/src/download.cpp:270-302 | a transferring download without downloaders, live job and vacant bytes never changes again, whatever callbacks, ticks, connections and jobs follow |
| DownloadRun.ResumedFull | sharelin-core/jni/src/download.cpp:625-647 | a download resumed when no byte is vacant is never hashed or moved |
| DownloadRun.ResumedTick | sharelin-core/jni/src/download.cpp:428-455 | after resuming, the next tick with a source connects a downloader if and only if a byte is vacant; otherwise the download is stuck |
| HashedParts.PartPresent | sharelin-core/jni/src/tigertree.cpp:69-84 | Get of a range that GetForValidation may ask to hash finds its node |
| HashedParts.PartHashIs | sharelin-core/jni/src/tigertree.cpp:69-84 | Get of such a range is the digest of the slice in which it begins |
| HashedParts.RightPartPasses | sharelin-core/jni/src/tigertree.cpp:69-84 | which is its own digest if it begins with the slice |
| HashedParts.SliceProven | sharelin-core/jni/src/download.cpp:390-396 | parts that cover the file and do not overlap, each with the digest in the tree, are the slices of the tree |
| HashedParts.RootProven | sharelin-core/jni/src/download.cpp:390-396 | if every byte was found valid in such a part, the root of the tree is the digest of the file |
| BlockHash.FoldConcat | sharelin-core/jni/src/hash/sha1.c:232-317 | folding whole blocks in one go or piecewise is the same |
| BlockHash.PaddingIsUnambiguous | sharelin-core/jni/src/hash/sha1.c:343-389 | no two messages have the same padded form |
| BlockHash.PaddedIs | sharelin-core/jni/src/hash/sha1.c:343-389 | only one byte string is a padding in the words of the standards: a 1 bit, as few zeros as fill the last block, the length in bits |
| BlockHash.ChainFolds | sharelin-core/jni/src/hash/sha1.c:232-317 | the last of a chain of chaining values, one more for each block of 64 bytes, is the fold |
| BlockHash.PutWords | sharelin-core/jni/src/hash/md5.c:361-381 | the digest bytes are the words, low or high byte first |
| Sha1.Sha1Context.constructor | sharelin-core/jni/src/hash/sha1.c:59-80 | a new context has absorbed the empty message |
| Sha1.Sha1Context.PutByte | sharelin-core/jni/src/hash/sha1.c:184-206 | one byte is absorbed; the two-word length carries, and wrapping corrupts the context |
| Sha1.Sha1Context.Input | sharelin-core/jni/src/hash/sha1.c:159-209 | a piece extends the message; refused after a result; the context is corrupted if and only if the length reaches 2^64 bits |
| Sha1.Sha1Context.PutZeros | sharelin-core/jni/src/hash/sha1.c:352-371 | zeros up to a position |
| Sha1.Sha1Context.PutLength | sharelin-core/jni/src/hash/sha1.c:378-386 | the 64-bit length, high byte first |
| Sha1.Sha1Context.FillBlock | sharelin-core/jni/src/hash/sha1.c:350-358 | a block without room for the length is filled up and folded in |
| Sha1.Sha1Context.PadBlock | sharelin-core/jni/src/hash/sha1.c:343-372 | the blocks are those of the padded message, in the one-block and the two-block case |
| Sha1.Sha1Context.PadMessage | sharelin-core/jni/src/hash/sha1.c:343-389 | the chaining value is the fold over the padded message of RFC 3174 |
| Sha1.Sha1Context.Result | sharelin-core/jni/src/hash/sha1.c:101-137 | the digest of the message, any number of times, unless corrupted |
| Sha1.DigestIs | sharelin-core/jni/src/hash/sha1.c:59-389 | the digest is what RFC 3174 says, with its constants, padding and byte order written out |
| Sha1.DigestOfPieces | sharelin-core/jni/src/hash/sha1.c:59-209 | for every message and cut into pieces: the digest of RFC 3174 if and only if the message is shorter than 2^64 bits |
| Md5.LengthBytes | sharelin-core/jni/src/hash/md5.c:369-371 | the two count words, low word first, are the low 64 bits of the length |
| Md5.Md5Context.constructor | sharelin-core/jni/src/hash/md5.c:313-320 | a new context has absorbed the empty message |
| Md5.Md5Context.Count | sharelin-core/jni/src/hash/md5.c:328-338 | the two-word bit count with its carry |
| Md5.Md5Context.Offset | sharelin-core/jni/src/hash/md5.c:327 | the offset taken from the bit count is the number of buffered bytes |
| Md5.Md5Context.FirstBlock | sharelin-core/jni/src/hash/md5.c:341-350 | a partial block is completed and folded in |
| Md5.Md5Context.FullBlocks | sharelin-core/jni/src/hash/md5.c:353-354 | whole blocks are folded in order |
| Md5.Md5Context.Append | sharelin-core/jni/src/hash/md5.c:323-358 | any piece extends the message |
| Md5.Md5Context.Finish | sharelin-core/jni/src/hash/md5.c:361-381 | the digest of RFC 1321 of the message |
| Md5.DigestIs | sharelin-core/jni/src/hash/md5.c:313-381 | the digest is what RFC 1321 says, with its constants, padding and byte order written out |
| Md5.DigestOfPieces | sharelin-core/jni/src/hash/md5.c:313-381 | for every message and cut into pieces the digest is that of RFC 1321 |
| Fragments.Independent | sharelin-core/jni/src/arrivalcache.cpp:26-78 | a datagram leaves all other messages alone |
| Fragments.Refused | sharelin-core/jni/src/arrivalcache.cpp:26-58 | datagrams numbered 0, with another number of parts or without payload change nothing; a number beyond the number of parts is reported and opens the message if it is new |
| Fragments.DeliveredAtLastGap | sharelin-core/jni/src/arrivalcache.cpp:26-78 | among any other traffic a message is delivered exactly by the datagram that fills its last gap: the first payloads seen of all parts in order, as they are if its first datagram was not compressed, else what inflating them gives, or an error |
| ArrivalCache.GetKeeps | sharelin-core/jni/src/arrivalcache.cpp:43-51 | every buffer is in the pool or in exactly one slot, still, when one goes to a slot |
| ArrivalCache.Cache.NewPacket | sharelin-core/jni/src/arrivalcache.cpp:43-51 | a packet with empty buffers for all its parts |
| ArrivalCache.Cache.GetParts | sharelin-core/jni/src/arrivalcache.cpp:46-50 | a buffer of its own for every part |
| ArrivalCache.Cache.FillPart | sharelin-core/jni/src/arrivalcache.cpp:59-64 | the payload is kept, and the counter reaches the number of parts if and only if no gap is left |
| ArrivalCache.Cache.OnCompleted | sharelin-core/jni/src/arrivalcache.cpp:80-105 | the parts in order, as they are or inflated as the first datagram said; an error if they cannot be inflated |
| ArrivalCache.Cache.ErasePacket | sharelin-core/jni/src/arrivalcache.cpp:124-129 | all buffers go back to the pool, the other packets stay as they are |
| ArrivalCache.Cache.Put | sharelin-core/jni/src/arrivalcache.cpp:26-78 | does to the held payloads what the specification of a datagram says, delivery and errors included |
| ArrivalCache.Cache.PutPart | sharelin-core/jni/src/arrivalcache.cpp:59-77 | a part is kept unless it is empty or there already; the last one delivers |
| ArrivalCache.Cache.PurgeOld | sharelin-core/jni/src/arrivalcache.cpp:107-122 | forgets exactly the messages older than 10 seconds |
| ArrivalCache.ReceiveAll | sharelin-core/jni/src/arrivalcache.cpp:26-129 | a run of datagrams has exactly the specified outcomes, and every buffer stays free and empty in the pool or in exactly one slot |
| DepartureCache.SendKeeps | sharelin-core/jni/src/departurecache.cpp:37-58 | sending the head keeps the limits on number and spacing |
| DepartureCache.Cache.Put | sharelin-core/jni/src/departurecache.cpp:65-102 | up to 504 bytes become one packet as they are, more than 505 are compressed first; the pieces are queued, each numbered 1; defined if and only if the buffer has at most 504 or exactly 1008 bytes; a compression error queues nothing |
| DepartureCache.Cache.PutPieces | sharelin-core/jni/src/departurecache.cpp:89-101 | the pieces as the program cuts them are queued in order, each numbered 1, until one would end before it begins |
| DepartureCache.Cache.PutHeader | sharelin-core/jni/src/departurecache.cpp:60-63 | queues a bare header |
| DepartureCache.Cache.Get | sharelin-core/jni/src/departurecache.cpp:37-58 | hands out the head if it was last sent more than five seconds ago, and queues it again with one more attempt if it waits for an acknowledgement and was sent fewer than three times |
| DepartureCache.Cache.Acknowledge | sharelin-core/jni/src/departurecache.cpp:25-35 | drops the first packet with that id and number |
| DepartureCache.Run | sharelin-core/jni/src/departurecache.cpp:25-102 | in any run a packet is sent at most three times, once if nobody acknowledges it, more than five seconds apart; the run is defined if and only if every message, compressed if it is long, can be cut |
| DepartureCache.DeliveredIfOnePiece | sharelin-core/jni/src/departurecache.cpp:87-100 | whatever datagrams of the packets that Put queues arrive, the message is delivered, by the first of them, if and only if it fits into one piece |
| DepartureCache.DeliveredIfCountIsOne | sharelin-core/jni/src/departurecache.cpp:87-95 | datagrams that are all numbered 1 deliver the first payload as the whole message if the count they carry is 1, and never deliver anything for any other count |
| DepartureCache.FewPieces | sharelin-core/jni/src/departurecache.cpp:89-100 | the pieces of all buffers: one for up to 504 bytes, two of which the second is empty for 1008 bytes, and an undefined range for any other size |
| DepartureCache.FragmentedIfOnePiece | sharelin-core/jni/src/departurecache.cpp:87-100 | the pieces hold 1 to 504 bytes, are as many as counted and make up the buffer if and only if it fits into one piece |
| DepartureCache.SecondPieceRunsBackwards | sharelin-core/jni/src/departurecache.cpp:96-97 | of 505 bytes the second piece would run from 504 to 1 |
| Base32.EncodeMasks | sharelin-core/jni/src/conv/base32.hpp:93-118 | the masks of the encoder are the 5-bit groups of RFC 4648 |
| Base32.DecodeMasks | sharelin-core/jni/src/conv/base32.hpp:69-73 | the masks of the decoder are the 8-bit groups |
| Base32.GroupRoundTrip | sharelin-core/jni/src/conv/base32.hpp:49-142 | a group of 1 to 5 bytes is read back, with and without padding |
| Base32.RoundTrip | sharelin-core/jni/src/conv/base32.hpp:49-142 | decoding the encoding of any bytes gives them back, in the padded and the compact form |
| Base32.EncodedLength | sharelin-core/jni/src/conv/base32.hpp:79-142 | 8 characters for every 5 bytes begun; in the compact form as few as can hold the bits |
| Base32.EncodedAt | sharelin-core/jni/src/conv/base32.hpp:79-142 | character i of the encoding is the one of RFC 4648 for bits 5i to 5i + 4 of the data, or an equals sign behind them |
| Base32.IgnoresCase | sharelin-core/jni/src/conv/base32.hpp:146-158 | small letters are read as the capital ones |
| Base32.FirstSwitch | sharelin-core/jni/src/conv/base32.hpp:91-118 | the fall-through of the first switch computes all values for every group length |
| Base32.Pads | sharelin-core/jni/src/conv/base32.hpp:124-132 | the second switch pads what the bytes do not reach |
| Base32.EncodeRound | sharelin-core/jni/src/conv/base32.hpp:84-142 | a group of 1 to 5 bytes becomes the characters of RFC 4648; the range check never throws |
| Base32.Emit | sharelin-core/jni/src/conv/base32.hpp:134-141 | the characters of all eight values, or in the compact form of those before the padding |
| Base32.Encode | sharelin-core/jni/src/conv/base32.hpp:79-142 | the encoder computes the specified text |
| Base32.ReadRound | sharelin-core/jni/src/conv/base32.hpp:53-67 | reads the values of a round, counting padding through all rounds; fails exactly on a bad character or on something after padding, also of an earlier round |
| Base32.DecodeRound | sharelin-core/jni/src/conv/base32.hpp:69-73 | as many bytes as the padding leaves |
| Base32.Decode | sharelin-core/jni/src/conv/base32.hpp:49-75 | the decoder computes the specified bytes or fails |
| Base32.AcceptedIff | sharelin-core/jni/src/conv/base32.hpp:53-67 | exactly the texts of letters and the digits 2 to 7 followed by equals signs are accepted, wherever the rounds fall |
| KeywordCache.ExtractKeywords | sharelin-core/jni/src/querylang.hpp:28-40 | exactly the lower-cased maximal alphanumeric runs of at least three characters |
| KeywordCache.SmallLetters | sharelin-core/jni/src/querylang.hpp:28-40 | of ASCII the letters and digits are alphanumeric, and exactly the capital letters have another small form |
| KeywordCache.IgnoresCase | sharelin-core/jni/src/querylang.hpp:28-40 | texts that differ only in capital letters have the same keywords |
| KeywordCache.Cache.Add | sharelin-core/jni/src/kwcache.hpp:70-79 | the key has exactly the keywords of the text, or is absent if there are none; other keys stay |
| KeywordCache.Cache.InsertKeywords | sharelin-core/jni/src/kwcache.hpp:74-78 | index and table hold the same pairs afterwards |
| KeywordCache.Cache.Remove | sharelin-core/jni/src/kwcache.hpp:81-97 | the key is gone, no empty bucket stays |
| KeywordCache.Cache.RemoveKeywords | sharelin-core/jni/src/kwcache.hpp:86-94 | the key is taken from the buckets of all its keywords, other keys keep theirs, and no empty bucket stays |
| KeywordCache.Cache.Find | sharelin-core/jni/src/kwcache.hpp:99-126 | exactly the keys with all of the one words and none of the other, if the different words have five characters together; nothing otherwise |
| KeywordCache.SizeWithout | sharelin-core/jni/src/kwcache.hpp:106-108 | the characters of a set of words can be added up in any order |
| KeywordCache.Cache.FilterAll | sharelin-core/jni/src/kwcache.hpp:119-123 | of the candidates exactly those with all wanted words and none of the unwanted stay |
| KeywordCache.Search | sharelin-core/jni/src/kwcache.hpp:70-126 | after any run of additions and removals the index agrees with a plain filter over the last text of every key |
| AsyncTasks.Server.Update | sharelin-core/jni/src/asynctaskserver.cpp:32-44 | a free slot goes to the task that has waited longest, which is not aborted |
| AsyncTasks.Server.Add | sharelin-core/jni/src/asynctaskserver.cpp:26-30 | the task runs at once if a slot is free, else it waits last |
| AsyncTasks.Server.Abort | sharelin-core/jni/src/asynctaskserver.cpp:53-69 | a running task is marked and the end of its thread is posted once; a waiting task leaves the queue and the others keep their order |
| AsyncTasks.Server.AbortRunning | sharelin-core/jni/src/asynctaskserver.cpp:55-59 | a running task is marked, and the end of its thread is posted unless it was already |
| AsyncTasks.Server.AbortWaiting | sharelin-core/jni/src/asynctaskserver.cpp:60-68 | exactly that task leaves the queue, the others in their order |
| AsyncTasks.Server.AbortAll | sharelin-core/jni/src/asynctaskserver.cpp:46-51 | nothing waits and every running task is marked |
| AsyncTasks.Server.Finish | sharelin-core/jni/src/asynctaskserver.cpp:71-74 | the end of a thread is posted |
| AsyncTasks.Server.Complete | sharelin-core/jni/src/asynctaskserver.cpp:81-88 | the posted task is found and dropped, its handler runs once unless it was aborted, and the task that has waited longest starts |
| AsyncTasks.Run | sharelin-core/jni/src/asynctaskserver.cpp:26-88 | in any run: bounded threads, no idle slot while a task waits, every posted completion finds its task, a handler runs at most once and never after an abort |
| TrafManager.SumUpdate | sharelin-core/jni/src/trafmanager.cpp:62-76 | the total of all amounts after one of them changes |
| TrafManager.SumEqual | sharelin-core/jni/src/trafmanager.cpp:53-54 | the total of equal amounts |
| TrafManager.Manager.OnTimer | sharelin-core/jni/src/trafmanager.cpp:32-55 | a new second: nine tenths are free, one tenth is split evenly among the clients that stay |
| TrafManager.Manager.Split | sharelin-core/jni/src/trafmanager.cpp:48-54 | the quotas together do not exceed the tenth |
| TrafManager.Manager.Use | sharelin-core/jni/src/trafmanager.cpp:62-76 | grants exactly the smaller of what is wanted and what the free share and the own amount allow |
| TrafManager.Manager.Sweep | sharelin-core/jni/src/trafmanager.cpp:78-91 | forgets exactly the clients silent for more than three seconds |
| TrafManager.Run | sharelin-core/jni/src/trafmanager.cpp:32-91 | in any run the grants of a second stay within its limit, and every client that was there got all it wanted or at least its quota |
| UploadManager.Manager.UpdateQueue | sharelin-core/jni/src/uploadmanager.cpp:91-103 | positions and lengths follow from the places in the list |
| UploadManager.Manager.Places | sharelin-core/jni/src/uploadmanager.cpp:91-103 | the first maxUploads places have position 0, the next one 1, and each further one more; the length of the queue is the position of the last |
| UploadManager.CountHostIs | sharelin-core/jni/src/uploadmanager.cpp:65-75 | the uploaders of a host are counted |
| UploadManager.CountTransferringIs | sharelin-core/jni/src/uploadmanager.cpp:91-103 | so are those that transfer |
| UploadManager.Manager.Accept | sharelin-core/jni/src/uploadmanager.cpp:65-89 | refuses exactly on the two limits, else appends an uploader that transfers only if it is among the first maxUploads; nobody else moves |
| UploadManager.Manager.Detach | sharelin-core/jni/src/uploadmanager.cpp:45-63 | exactly that uploader leaves the list, the others keep their order and nobody moves back |
| UploadManager.Manager.OnRequest | sharelin-core/jni/src/uploader_impl.cpp:204-235 | a valid request is served at position 0 and queued at any other |
| UploadManager.Run | sharelin-core/jni/src/uploadmanager.cpp:45-103 | in any run with fixed settings at most maxUploads uploaders transfer, no host has too many, the list is bounded, positions of those who stay never grow |
| DownloadManager.SortedFalls | sharelin-core/jni/src/downloadmanager.cpp:66-69 | the sort is by falling weight |
| DownloadManager.MayPrecede | sharelin-core/jni/src/downloadmanager.cpp:41-63 | paused downloads come last, those that may transfer by priority, and those being hashed, moved or failed before every priority below 500 |
| DownloadManager.CountIsSet | sharelin-core/jni/src/downloadmanager.cpp:211-232 | the transferring downloads are counted |
| DownloadManager.SortIsStable | sharelin-core/jni/src/downloadmanager.cpp:213 | of any two downloads the later one overtakes only if it is heavier |
| DownloadManager.Manager.Sort | sharelin-core/jni/src/downloadmanager.cpp:213 | the same downloads in falling order, equally heavy ones in the order they had |
| DownloadManager.Manager.Activate | sharelin-core/jni/src/downloadmanager.cpp:216-224 | from the front every stopped download is resumed, until maxFiles are transferring or the list ends; a download whose file cannot be opened fails and takes no place |
| DownloadManager.Manager.StopRest | sharelin-core/jni/src/downloadmanager.cpp:226-231 | behind that point exactly the transferring downloads are stopped |
| DownloadManager.Manager.Choose | sharelin-core/jni/src/downloadmanager.cpp:214-231 | on a list in falling order at most maxFiles end up transferring, exactly maxFiles if anything is left stopped, and no stopped download outranks a transferring one |
| DownloadManager.Manager.Update | sharelin-core/jni/src/downloadmanager.cpp:211-232 | at most maxFiles transfer, nothing that waits outranks a transferring one, nothing waits while a place is free, other states stay |

## Left out

- Sockets, timers, DNS, HTTP text, files and directories: events and inputs of the steps.
- zlib, Tiger, and the block functions of SHA-1 and MD5: function parameters.
- `Ttr.TtContext`: the 56 stack entries are slots of one digest each, not 24 bytes each; `tt_copy` and the big-endian paths are not modelled.
- `G2Writer.Writer.Begin`: reading past a name of 8 characters; types are images of 8 bytes, zero-padded.
- `G2Writer.Writer.Allocate`: the growth factor of the buffer, and buffers beyond 4 GB.
- `G2Reader.Reader.Next`: the partly filled header after a decoding error.
- `G2Reader.Reader.Settle`: the same.
- `FileMap.FileMap.FromStream`: number parsing, statuses above 255, and entries that end with the last offset there is.
- `Range.FileRange`: `Includes`, the setters and the comparisons.
- `Downloads.DownloaderImpl`: connection counts of hosts, received bytes, the rest time after an unsuccessful source, and the bytes of a tree being fetched.
- `Downloads.DownloaderImpl.HandTreeOver`: which tree the received bytes make is an input; `TigerTree.TigerTree.FromBytes` says which it is.
- `Downloads.Download`: sources, searching, pushing and saving; which of the allowed downloaders and sources is chosen and the limits on their number are inputs. Whether the SHA-1, MD5 or eDonkey digest of the whole file is the known one is an input.
- `Sha1.Sha1Context.Input`, `Md5.Md5Context.Append`: null pointers, and lengths beyond the range of the C argument types.
- `ArrivalCache.Cache`: unpacking headers, endpoints, and the size of the output buffer other than as an argument of zlib.
- `DepartureCache.Cache.Put`: what becomes of the queue when a piece would end before it begins.
- `Base32`: the iterator interface; the incremental encoder and decoder classes behind it are commented out in the program.
- `KeywordCache.Cache.Find`: the order of the results; the query is given as its two sets of words.
- `AsyncTasks.Server`: what tasks compute, and exceptions in handlers.
- `TrafManager.Manager`: the average usage shown to the user; counters are unbounded, which the proved limit makes equivalent.
- `UploadManager.Manager`: reading and sending files, history, and settings that change during a run.
- `DownloadManager.Manager`: Create, Detach and OnTimer, which change the list and call Update; the downloads themselves are those of `Download`, seen here as status and priority.
- `ed2khash.c`, `searcher.cpp`, hex, URL and address conversion, share sync, hub cache, query hash tables, the user interfaces and the Android bridge: easier members of the same families, or not core.
