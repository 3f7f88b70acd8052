# Verified model of the contract runtime libraries

This project models parts of the libraries that contracts are linked against, in Dafny, and
proves what they are for. It covers

- the heap allocator of a contract (`libraries/platonlib/malloc/malloc.cpp`): in-band headers,
  lazy coalescing, growth with the linear memory, reallocation in place;
- Recursive Length Prefix encoding and decoding (`libraries/platonlib/src/RLP.cpp`), Appendix B
  of the Ethereum Yellow Paper;
- runtime arithmetic (`libraries/builtins`): shift-subtract division, word-split products,
  rounding of integers to binary32, binary32 division by Newton-Raphson;
- from libc++: the next prime by a 210-wheel, decimal printing, the reference counts behind
  shared_ptr and weak_ptr, and the iterator debug database;
- atomic operations on objects of any size under hashed spin locks
  (`libraries/builtins/atomic.c`).

Code that updates state is modelled by classes and methods with loops; each method is proved
against a specification that does not repeat it. The two concurrent protocols are state machines
over their atomic steps, and their theorems hold for every interleaving of any number of threads.
What a contract writes into its own blocks is the method `Store` of the allocator.

Files: `Products` and `Bits` hold multiplication and bit operations, `Binary32` the meaning of
a binary32 number and of rounding to nearest even. `Division`, `WideMul`, `FloatConv`, `DivSf3`,
`Primality`, `PrimeWheel`, `CharConv`, `Rlp`, `RlpStream`, `RlpReader`, `RlpDecode`, `RlpList`, `SharedCount`,
`Atomic`, `FetchBits`, `AtomicObjects`, `AtomicProgress`, `HeapBlocks`, `LinearMemory`, `Heap`, `Malloc`, `HashTable` and `DebugDb` follow the
source files.

## Where the code does not do what it is for

For each of these the exact condition under which the code meets its purpose is proved, over all
inputs, and for most an input for which it does not.

- The 128-bit `wideMultiply` drops a carry out of the low half. The low half is right for all
  inputs. The high half is one too small if and only if the partial sum for the lowest 64-bit
  digit carries and the next 64-bit digit of the product is zero (`WideMul.WideMultiply128`,
  `WideMul.LostCarryExample`).
- `__u64toa` prints the values from 10^8 to 10^12 - 1 with leading zeros, in 13 digits; all other
  values canonically. Parsing gives the value back in every case (`CharConv.Text64Canonical`,
  `CharConv.Text64Example`).
- `__divsf3` flushes subnormal quotients to zero. For finite nonzero operands the result is the
  rounded quotient if and only if the quotient is at least 2^-126 or at most 2^-150
  (`DivSf3.DeliveredIsRounded`, `DivSf3.FlushExample`).
- Growing a block in place by merging walks to the end of the heap instead of the end of its used
  part. The heap stays well-formed if and only if the walk does not leave the used part
  (`Heap.Memory.ReallocInPlace`); a program of four calls breaks it (`Malloc.LeavesUsedRun`), and
  then the next block handed out from there begins inside the grown one (`Heap.LeavingBreaks`).
  In the same method the size check wraps around when the request exceeds the address at which
  the heap ends; for the last block this, too, breaks the heap (`Malloc.WrapsRun`).
- Shrinking in place does not change the chain of headers: the tail is not released
  (`Heap.WritePayload`), and the block keeps its recorded size.
- An RLP iterator reaches `end()` if and only if nothing follows the list in the data
  (`RlpList.MeetsEnd`).
- `__insert_iterator` stores what `malloc` returns in the bucket before it looks at it. When the
  allocation fails, the chain of the bucket is lost: its iterators are no longer found, while
  their containers still list them. The table holds what it held, and the database is consistent,
  if and only if the bucket, after any rehashing, was empty (`HashTable.Table.InsertUnchecked`,
  `DebugDb.Db.InsertIterator`, `DebugDb.LostIteratorRun`). This reaches `__insert_ic` and
  `__iterator_copy`. Entering a container allocates first, and is safe (`DebugDb.Db.InsertC`).
- `__iterator_copy` sets the iterator's pointer before it makes room in the container's array.
  The database is consistent afterwards if and only if the array was not full or there is memory
  for a larger one (`DebugDb.Db.Join`, `DebugDb.Db.IteratorCopy`); otherwise the pointer stands
  alone. `__insert_ic` does it in the other order, and there the relation holds
  (`DebugDb.Db.InsertIC`).
- The hashed locks of `atomic.c` make the operations on a set of objects atomic if and only if
  objects that share a byte have the same lock (`AtomicObjects.AtomicExactly`). One address for an
  object, or objects within 16-byte granules, suffice (`Atomic.GranulesDisciplined`); a 32-byte
  object that is also named by its second half does not have it, and two exchanges can miss each
  other (`AtomicObjects.LargeObjectsCounterexample`).
- The comment on heap growth promises at least 1 KiB. In the last 1023 bytes of an odd page the
  code grows by fewer bytes (`LinearMemory.GrowthIsAligned`); from a page boundary, which is where
  the allocator always stands when it alone calls `sbrk`, it grows by one page.

## Model

| member | source | states |
|---|---|---|
| Malloc.MemoryManager.Malloc | libraries/platonlib/malloc/malloc.cpp:113-168 | a block that is new, of the rounded size, with all other live blocks and their contents untouched. Until the host has refused a page: if the block fits at once or after some pages that the host gives, it stands at the end of the active heap after the least number of pages that suffices, each added to the heap that ends where memory ends or opening the next one; otherwise growth ends. After a refusal there is a block if and only if some run of adjacent free blocks has a merged payload that suffices; null only then, or for size 0 |
| Malloc.MemoryManager.Realloc | libraries/platonlib/malloc/malloc.cpp:170-211 | the block stays where it is if and only if it fits there, as it always does when it shrinks, and otherwise moves to a new block whenever the host gives enough pages, or, after a refusal, exactly when some run of free blocks suffices; the result holds the first min(old, new) bytes of the former contents and all other live blocks are untouched, on the shrinking, extending, merging and copying paths; a null result loses nothing; the allocator stays consistent if and only if the attempt in place neither wraps around nor leaves the used part |
| Malloc.MemoryManager.Move | libraries/platonlib/malloc/malloc.cpp:199-210 | the copying path: new block, contents arrived, old block released, the others untouched; null only when the host has refused a page and no run of free blocks suffices, and never while it gives enough pages |
| Malloc.MemoryManager.ReallocIn | libraries/platonlib/malloc/malloc.cpp:182-197 | the in-place path seen from all heaps: consistent if and only if the guard holds, and then resized where it stands if and only if it fits there, and otherwise nothing changed |
| Malloc.MemoryManager.Free | libraries/platonlib/malloc/malloc.cpp:213-227 | exactly this block leaves the live blocks; no payload of any block changes |
| Malloc.MemoryManager.Find | libraries/platonlib/malloc/malloc.cpp:185-187 | the search over the heaps finds the one heap that a live block belongs to |
| Malloc.MemoryManager.NextActiveHeap | libraries/platonlib/malloc/malloc.cpp:74-111 | one more page, which the active heap takes in if it ends where memory ends, and which is the next heap otherwise, with nothing live disturbed; null if and only if the host refuses the page, and then every heap in use is divided to its end; never more than two heaps are started |
| Malloc.MemoryManager.MallocGrowing | libraries/platonlib/malloc/malloc.cpp:139-148 | the loop takes pages until the block fits or a page is refused: there is a block if and only if the host gives enough pages, and then after the least number of them |
| Malloc.MemoryManager.GiveUp | libraries/platonlib/malloc/malloc.cpp:92-97 | after a refused page every heap in use is divided to its end and no heap is active; nothing live is disturbed |
| Malloc.OneMore | libraries/platonlib/malloc/malloc.cpp:74-111 | when too few pages have been taken, the refusal of the next one means that there is no block at all, and its grant is one page more on the way to it |
| Malloc.ObtainedAtOnce | libraries/platonlib/malloc/malloc.cpp:142-145 | a block that fits the active heap takes no page |
| Malloc.MemoryManager.SmallerFits | libraries/platonlib/malloc/malloc.cpp:330-338 | a request that is not larger than the block fits where it stands, without wrapping around or leaving the used part |
| Malloc.MemoryManager.Reserve | libraries/platonlib/malloc/malloc.cpp:79-90 | the allocator's calls of sbrk are contiguous and run from page boundary to page boundary, one page at a time; the second fails, changing nothing, if and only if the host refuses the next page |
| Malloc.MemoryManager.CleanupActive | libraries/platonlib/malloc/malloc.cpp:92-104 | closing a heap keeps every live block and divides the heap to its end |
| Malloc.MemoryManager.MallocActive | libraries/platonlib/malloc/malloc.cpp:142-145 | allocation from the active heap, seen from all heaps: exactly when it fits, at the end of the used part |
| Malloc.MemoryManager.MallocFreed | libraries/platonlib/malloc/malloc.cpp:156-159 | first fit in one heap, seen from all heaps: it succeeds exactly when that heap can serve, at the first run that suffices |
| Malloc.MemoryManager.MallocFromAllFreed | libraries/platonlib/malloc/malloc.cpp:150-167 | the round over the freed blocks of all heaps fails exactly when no heap can serve, and then none can serve afterwards either; it serves from the heap where the last round ended if that can, and from the other one otherwise |
| Malloc.MemoryManager.LiveBlocksApart | libraries/platonlib/malloc/malloc.cpp:229-236 | in every state between calls live blocks have sizes of 4 modulo 8, lie in memory, and overlap neither each other nor each other's headers |
| Malloc.MemoryManager.CopyInto | libraries/platonlib/malloc/malloc.cpp:206 | copying into a live block disturbs no other block and no header |
| Malloc.MemoryManager.constructor | libraries/platonlib/malloc/malloc.cpp:62-69 | the allocator starts consistent, with nothing live |
| Malloc.AdjustedIsLeast | libraries/platonlib/malloc/malloc.cpp:229-236 | the rounded size is the least one that is 4 modulo 8 and suffices |
| Malloc.OtherHeap | libraries/platonlib/malloc/malloc.cpp:259-264 | a heap is unaffected by any change within another |
| Malloc.SameService | libraries/platonlib/malloc/malloc.cpp:285-308 | whether a heap can serve does not depend on memory outside it |
| Heap.Memory.Malloc | libraries/platonlib/malloc/malloc.cpp:271-283 | the next bytes of the untouched part become a live block, by writing one header and nothing else; null exactly when they do not suffice |
| Heap.Memory.MallocFromFreed | libraries/platonlib/malloc/malloc.cpp:285-308 | first fit with lazy merging: success exactly when some run of adjacent free blocks has a merged payload that suffices, and then at the first such run; merging and splitting keep the tiling, every live block and every payload, and a failure leaves no run that suffices |
| Heap.Memory.ReallocInPlace | libraries/platonlib/malloc/malloc.cpp:310-356 | the heap stays tiled if and only if the request neither wraps around nor leaves the used part; then the block is resized exactly when it fits where it stands, its first bytes and all other payloads are kept, and shrinking writes one word inside the payload and leaves the chain as it is |
| Heap.Memory.Free | libraries/platonlib/malloc/malloc.cpp:358-362 | exactly this block is released, by writing one header and nothing else; the tiling and all payloads stay |
| Heap.Memory.CleanupRemaining | libraries/platonlib/malloc/malloc.cpp:364-374 | the untouched rest becomes one free block, of one header, so that the headers tile the heap to its end |
| Heap.Memory.ExpandMemory | libraries/platonlib/malloc/malloc.cpp:376-384 | memory is taken in exactly when it begins where the heap ends |
| Heap.Memory.Init | libraries/platonlib/malloc/malloc.cpp:248-252 | a heap over untouched memory has no blocks |
| Heap.Append | libraries/platonlib/malloc/malloc.cpp:273-282 | a header written at the top of the used part extends the tiling by one block |
| Heap.FreeBlock | libraries/platonlib/malloc/malloc.cpp:441-444 | clearing one alloc bit releases one block and changes no payload |
| Heap.WritePayload | libraries/platonlib/malloc/malloc.cpp:330-338 | writing inside a payload, as shrinking does, changes neither the chain nor the live blocks |
| Heap.ExtendLast | libraries/platonlib/malloc/malloc.cpp:340-346 | the last block grows over untouched memory |
| Heap.Grow | libraries/platonlib/malloc/malloc.cpp:350-355 | a block grows over the free blocks behind it; the tiling, the other blocks and all payloads stay |
| Heap.MergedTiling | libraries/platonlib/malloc/malloc.cpp:481-490 | what merging writes is a tiling of the merged stretch: the grown block and at most one free block |
| Heap.LeavingBreaks | libraries/platonlib/malloc/malloc.cpp:468-483 | a walk that leaves the used part takes untouched words for free blocks up to the requested size, the chain is broken, and the next block from there begins inside the grown one |
| Heap.LeavesUsedExample | libraries/platonlib/malloc/malloc.cpp:350-355 | two blocks, the second freed and the first grown: a concrete heap that breaks |
| Heap.WrapsExample | libraries/platonlib/malloc/malloc.cpp:324-344 | a request that exceeds the address at which the heap ends and passes the size check |
| Heap.FullHeapIsSafe | libraries/platonlib/malloc/malloc.cpp:468-476 | no walk leaves the used part of a heap that is divided to its end |
| Malloc.LeavesUsedRun | libraries/platonlib/malloc/malloc.cpp:350-355 | a program of four calls, all in order and with nothing exhausted, after which the allocator is inconsistent: two blocks, the second freed, the first grown |
| Malloc.WrapsRun | libraries/platonlib/malloc/malloc.cpp:324-344 | a program of two calls, the second asking for more than the address at which the first heap ends, after which the allocator is inconsistent |
| Malloc.MemoryManager.SecondFreedUnsafe | libraries/platonlib/malloc/malloc.cpp:350-355 | in the state of that program growing the first block leaves the used part |
| Heap.SecondFreed | libraries/platonlib/malloc/malloc.cpp:467-476 | on any heap that starts with a live and a freed block of 4 bytes, growing the first to 20 bytes leaves the used part |
| Heap.InPlaceCases | libraries/platonlib/malloc/malloc.cpp:312-348 | when a request fits in place, wraps around or leaves the used part, for shrinking, last and inner blocks |
| Heap.StaysInside | libraries/platonlib/malloc/malloc.cpp:467-476 | otherwise the walk stops on the chain |
| Heap.SearchMerges | libraries/platonlib/malloc/malloc.cpp:290-303 | a run that is too small becomes one free block, and no run before it suffices |
| Heap.SearchTakes | libraries/platonlib/malloc/malloc.cpp:296-300 | a run that suffices is taken, and it was a run of the memory before the search |
| Heap.SearchEnds | libraries/platonlib/malloc/malloc.cpp:303-308 | a search that reaches the end has seen every run, and all were too small |
| HeapBlocks.LiveApart | libraries/platonlib/malloc/malloc.cpp:287-304 | live blocks of a tiled heap overlap neither each other nor each other's headers |
| HeapBlocks.HeaderApart | libraries/platonlib/malloc/malloc.cpp:409-416 | no header of the chain lies in a live payload |
| HeapBlocks.BytesConserved | libraries/platonlib/malloc/malloc.cpp:461-493 | free and allocated blocks with their headers add up to the used bytes, whatever was split or merged |
| HeapBlocks.Rewrite | libraries/platonlib/malloc/malloc.cpp:481-490 | tiling a stretch afresh keeps the whole chain, with exactly the live blocks outside it and those of the new tiling |
| HeapBlocks.StopOnChain | libraries/platonlib/malloc/malloc.cpp:467-476 | the merging walk stops on a header or the heap's end, after free blocks only, unless it overruns |
| HeapBlocks.MergedTooSmall | libraries/platonlib/malloc/malloc.cpp:481-483 | merging free blocks makes no run before them longer |
| HeapBlocks.StopOverruns | libraries/platonlib/malloc/malloc.cpp:467-476 | an overrunning walk stops exactly at the requested size |
| LinearMemory.Wasm.Sbrk | libraries/platonlib/malloc/malloc.cpp:17-51 | the break moves by the rounded request, contiguously, and memory grows with zeros to exactly the pages that are needed; it fails, changing nothing, if and only if more than 2^31 - 1 bytes are asked for or pages are needed that the host refuses |
| LinearMemory.NoWrap | libraries/platonlib/malloc/malloc.cpp:29-41 | the bound on requests keeps every 32-bit sum of sbrk from wrapping around |
| LinearMemory.Wasm.Grow | libraries/platonlib/malloc/malloc.cpp:44-46 | memory grows by exactly the pages asked for, with zeros, if the host gives them, and otherwise not at all |
| LinearMemory.Wasm.MergeContiguous | libraries/platonlib/malloc/malloc.cpp:461-493 | the block takes what it needs of the walk's stretch and the rest becomes a free block; all-or-nothing changes nothing unless it suffices |
| LinearMemory.GrowthIsAligned | libraries/platonlib/malloc/malloc.cpp:83-89 | growth ends at a page boundary; it is less than 1 KiB exactly in the last 1023 bytes of an odd page, more than a page, by at most 1023 bytes, exactly in those of an even one, and one page from a page boundary |
| RlpStream.Serialize | libraries/platonlib/src/RLP.cpp:152-188 | for every forest of byte strings and counted lists the output is the concatenation of their encodings |
| RlpStream.RLPStream.NoteAppended | libraries/platonlib/src/RLP.cpp:158-179 | items complete the lists around them, each wrapped in place; failure exactly when the innermost list expects fewer items; the loop ends |
| RlpStream.RLPStream.AppendRaw | libraries/platonlib/src/RLP.cpp:152-156 | any bytes are put out and counted as the announced number of items, also none; failure exactly when the innermost list expects fewer |
| RlpStream.RLPStream.Append | libraries/platonlib/src/RLP.cpp:201-210 | a byte string counts as one item and is encoded as one |
| RlpStream.RLPStream.AppendU128 | libraries/platonlib/src/RLP.cpp:212-221 | an integer is appended in its shortest big-endian form |
| RlpStream.RLPStream.AppendList | libraries/platonlib/src/RLP.cpp:181-188 | a list of n items is open until n items are complete; an empty one is complete at once |
| RlpStream.RLPStream.AppendListPayload | libraries/platonlib/src/RLP.cpp:190-199 | any payload is put out as a list and counts as one item |
| RlpStream.RLPStream.Feed | libraries/platonlib/src/RLP.cpp:152-210 | feeding any item, list by list, amounts to adding that one item |
| RlpStream.FillList | libraries/platonlib/src/RLP.cpp:163-178 | an open list that receives as many items as it expects becomes one item of what is around it |
| RlpStream.OffsetsOrdered | libraries/platonlib/src/RLP.cpp:183-186 | in every state the offsets on the stack are non-decreasing and within the output |
| RlpStream.Segments | libraries/platonlib/src/RLP.cpp:163-178 | in every state the offsets cut the output into what is complete and what was appended to each open list |
| RlpStream.WholeKept | libraries/platonlib/src/RLP.cpp:152-178 | appending complete items keeps every open list made of complete items, whatever lists it completes |
| RlpStream.OpenWhole | libraries/platonlib/src/RLP.cpp:181-188 | opening a list keeps every open list made of complete items |
| RlpStream.CompleteItems | libraries/platonlib/src/RLP.cpp:160-178 | when only complete items were appended, behind every offset stands a concatenation of encodings, and with an empty stack the whole output is one |
| RlpStream.PartOfList | libraries/platonlib/src/RLP.cpp:161-165 | a list that still expects items goes on, with the new bytes behind its offset |
| RlpStream.RestOfList | libraries/platonlib/src/RLP.cpp:166-174 | a list whose last item arrives is wrapped into its encoding, which becomes one item of the next |
| RlpReader.ReadEncoded | libraries/platonlib/src/RLP.cpp:66-71 | the encoding of any payload, whatever follows, is read back with its size and payload, if its length is below 2^32 - 0x101, and throws otherwise |
| RlpReader.AcceptedIsCanonical | libraries/platonlib/src/RLP.cpp:95-139 | every item that the reader accepts is the one encoding of its payload; a long header is the only one for its length |
| RlpReader.PrefixSize | libraries/platonlib/src/RLP.cpp:57 | data cut to its announced size announces the same size |
| RlpReader.ReadTruncated | libraries/platonlib/src/RLP.cpp:57-62 | an encoding that is cut off is never taken for a whole one; it still announces its size exactly as soon as its header is there, and its payload is empty, or refused when it is longer than all that is there |
| RlpReader.AnnouncedIsCanonical | libraries/platonlib/src/RLP.cpp:57-62 | data that announces a size is the beginning of the one encoding of some payload of an admitted length |
| Rlp.StringVectors | libraries/platonlib/src/RLP.cpp:95-107 | the examples of the standard for strings and single bytes |
| Rlp.ListVectors | libraries/platonlib/src/RLP.cpp:130-138 | the examples of the standard for lists, empty ones inside one another among them |
| Rlp.LongVectors | libraries/platonlib/src/RLP.cpp:104-129 | strings at the ends of the short form and beyond it: the length in as few bytes as it takes |
| RlpDecode.DecodeEncodedAll | libraries/platonlib/src/RLP.cpp:60-149 | any items are recovered from their encoding by reading it down with the reader's checks |
| RlpDecode.EncodeDecodedAll | libraries/platonlib/src/RLP.cpp:95-149 | data that can be read down consists of the encodings of the items that are read, and of nothing else |
| RlpDecode.DecodeIsInverse | libraries/platonlib/src/RLP.cpp:60-149 | of all strings of bytes below the refused length, exactly the encoding of the items reads as these items |
| RlpDecode.EncodeInjective | libraries/platonlib/src/RLP.cpp:95-149 | no two items have one encoding |
| RlpReader.ReadLongHeader | libraries/platonlib/src/RLP.cpp:104-138 | the long header of the encoder is read back, or refused for a length from 2^32 - 0x101 on |
| RlpReader.AcceptedLongHeader | libraries/platonlib/src/RLP.cpp:118-138 | an accepted long header is what the encoder writes for that length |
| RlpReader.AccumulateLength | libraries/platonlib/src/RLP.cpp:115-129 | the byte loop yields the big-endian number, losing no bits |
| RlpReader.BigEndianInverse | libraries/platonlib/src/RLP.cpp:115 | reading the shortest big-endian form gives the number back |
| RlpReader.FromBigEndianInverse | libraries/platonlib/src/RLP.cpp:113-115 | bytes without a leading zero are the shortest form of their number |
| RlpReader.StartsWithHeader | libraries/platonlib/include/platon/RLP.h:404-408 | the payload is what stands behind the header |
| RlpReader.ReadSingle | libraries/platonlib/include/platon/RLP.h:423-425 | a single byte below 0x80 is its own encoding |
| RlpReader.ReadShort | libraries/platonlib/src/RLP.cpp:102-103 | short headers announce their payload |
| RlpList.Items | libraries/platonlib/src/RLP.cpp:141-149 | the count follows the sizes of the items, and fails exactly when one of them fails |
| RlpList.CountAll | libraries/platonlib/src/RLP.cpp:141-149 | the count of encoded items is their number |
| RlpList.ItemsOfList | libraries/platonlib/src/RLP.cpp:141-149 | a canonical list has as many items as were written |
| RlpList.ItemStarts | libraries/platonlib/include/platon/RLP.h:451-453 | the size of an encoded item, followed by anything, is the length of its encoding |
| RlpList.ItemAt | libraries/platonlib/src/RLP.cpp:51-54 | at the start of item k the reader sees exactly the encoding of item k |
| RlpList.Iterator.Start | libraries/platonlib/src/RLP.cpp:36-44 | an iterator starts at the first item, or behind the data |
| RlpList.Iterator.Advance | libraries/platonlib/src/RLP.cpp:25-34 | on any data the iterator reads one item at the start of what remains and fails exactly when that reading fails; with nothing left it stands behind its item |
| RlpList.AdvancesToNext | libraries/platonlib/src/RLP.cpp:25-34 | on a canonical list the iterator moves from item k to item k + 1, stays behind the last one, and does not throw |
| RlpList.Visit | libraries/platonlib/src/RLP.cpp:25-44 | a range-for visits every item once, in order |
| RlpList.MeetsEnd | libraries/platonlib/src/RLP.cpp:40-43 | the iterator equals end() exactly behind the last item of a list with nothing behind it |
| RlpList.RLP.Index | libraries/platonlib/src/RLP.cpp:46-58 | on any data and after any former calls the cached cursor answers what a fresh scan from the start answers, a throw included, and describes such a scan again; the final check of the item is modelled, and never fails |
| RlpList.IndexOfList | libraries/platonlib/src/RLP.cpp:46-58 | on a canonical list that answer is item i, or nothing past the end |
| RlpList.ScanOfList | libraries/platonlib/src/RLP.cpp:51-55 | a fresh scan of a canonical list arrives at item k, and at the end behind the last one |
| RlpList.ScanSettled | libraries/platonlib/src/RLP.cpp:51-55 | a scan that has thrown or stopped at an empty item comes to the same for every larger index |
| RlpList.ScanChecked | libraries/platonlib/src/RLP.cpp:57 | the scanned item passes the check for too little data |
| DivSf3.Divide | libraries/builtins/divsf3.c:21-186 | for every pair of bit patterns: a NaN operand comes back quiet with its payload, invalid divisions give the default NaN, infinities and zeros divide as IEEE 754 has it, and otherwise the sign and the quotient rounded to nearest even, or flushed when it is subnormal |
| DivSf3.DivideFinite | libraries/builtins/divsf3.c:79-186 | finite nonzero operands, subnormal ones included: the rounded or flushed quotient of their values |
| DivSf3.RoundAndPack | libraries/builtins/divsf3.c:150-185 | exponent overflow, rounding, carry into the exponent and flushing give the rounded or flushed quotient |
| DivSf3.Reciprocal | libraries/builtins/divsf3.c:91-112 | after three truncating Newton steps the reciprocal lies strictly below the true one, with r*b short of 1 by at most 4 * 10^10 units of 2^-63, also for the wrapped case b = 1.0 |
| DivSf3.DivideSignificands | libraries/builtins/divsf3.c:126-148 | quotient and residual satisfy the division equation, with the residual below the divisor |
| DivSf3.TruncatedQuotient | libraries/builtins/divsf3.c:114-126 | the truncated product with the reciprocal is below the quotient, by one unit and less than a fifth of another at most |
| DivSf3.StepError | libraries/builtins/divsf3.c:100-106 | the error of a Newton step is the square of the former error and a truncation |
| DivSf3.StepBound | libraries/builtins/divsf3.c:101-106 | how far one step reduces the error |
| DivSf3.UnitReciprocal | libraries/builtins/divsf3.c:91-106 | the divisor 1.0, where the first estimate wraps around |
| DivSf3.ResidualTest | libraries/builtins/divsf3.c:158-176 | the residual test picks the nearer of two neighbours |
| DivSf3.NoTie | libraries/builtins/divsf3.c:137-138 | the quotient of two significands is never halfway between two neighbours |
| DivSf3.FlushIsRounding | libraries/builtins/divsf3.c:170-172 | flushing is rounding if and only if the quotient is at most 2^-150 |
| DivSf3.DeliveredIsRounded | libraries/builtins/divsf3.c:157-185 | what is delivered for finite nonzero operands is the rounded quotient if and only if the quotient is at least 2^-126 or at most 2^-150 |
| DivSf3.FlushExample | libraries/builtins/divsf3.c:170-172 | the least normal number divided by 2: zero is delivered, and is not the rounded quotient |
| DivSf3.Normalize | libraries/builtins/fp_lib.h:234-238 | a subnormal significand is shifted to its implicit bit and the exponent corrected |
| DivSf3.Unpack | libraries/builtins/divsf3.c:23-84 | significand and exponent give the value of the operand |
| DivSf3.OverflowResult | libraries/builtins/divsf3.c:152-155 | quotients beyond the largest exponent round to infinity |
| DivSf3.TinyResult | libraries/builtins/divsf3.c:157-173 | which quotients below the normal range come out as the least normal number |
| Binary32.RoundsUnique | libraries/builtins/divsf3.c:175-185 | no number has two roundings to nearest even |
| Binary32.RoundInBinade | libraries/builtins/divsf3.c:175-185 | a significand rounded to nearest even within its binade is the rounded number, including the carry into the exponent |
| Binary32.MidpointsRound | libraries/builtins/divsf3.c:137-138 | a number between the midpoints around m rounds to m |
| FloatConv.FloatUnDiSf | libraries/builtins/floatundisf.c:22-64 | every 64-bit integer is rounded to nearest even |
| FloatConv.FloatUnSiSf | libraries/builtins/floatunsisf.c:20-49 | every 32-bit integer is rounded to nearest even |
| FloatConv.Agree | libraries/builtins/floatunsisf.c:20-49 | two patterns that both round an integer are the same pattern |
| FloatConv.Both | libraries/builtins/floatundisf.c:22-64 | on every 32-bit input the two routines return the same bits |
| FloatConv.StickyRounds | libraries/builtins/floatundisf.c:47-55 | rounding with a sticky bit by adding one is rounding to nearest even |
| FloatConv.StickyLong | libraries/builtins/floatundisf.c:42-45 | long values keep their two rounding bits and the or of all below |
| FloatConv.QuotientRounds | libraries/builtins/floatunsisf.c:36-44 | the rounded shifted integer is the integer rounded |
| Division.UDivMod | libraries/builtins/udivmodti4.c:22-193 | for w = 64: a = q*b + r with r < b for every a and every b > 0, in all special cases; a trap exactly for b = 0 |
| Division.ShiftSubtract | libraries/builtins/udivmoddi4.c:168-188 | for w = 32: the shift-subtract loop divides |
| Division.DivideByHigh | libraries/builtins/udivmoddi4.c:70-99 | divisors whose low half is zero |
| Division.DivideByLow | libraries/builtins/udivmoddi4.c:101-139 | divisors of one word |
| Division.DivideFull | libraries/builtins/udivmoddi4.c:140-165 | divisors of two words |
| Division.Step | libraries/builtins/udivmodti4.c:173-188 | one trip of the loop keeps the division equation between the registers, the carry and the bits still to come |
| Division.SignCompare | libraries/builtins/udivmodti4.c:185 | the sign of d - r - 1 tells r >= d, also when d has its top bit set |
| Division.Aligned | libraries/builtins/udivmodti4.c:85-99 | the alignment leaves a start value below the divisor, and the comparison stays within reach of the sign |
| Division.QuotientFits | libraries/builtins/udivmodti4.c:168-171 | the quotient so far fits the places that have been shifted out |
| Division.ShiftDivision | libraries/builtins/udivmodti4.c:105-114 | dividing by a power of two is shifting |
| WideMul.WideMultiply64 | libraries/builtins/fp_lib.h:84-96 | hi * 2^64 + lo is the product |
| WideMul.MulDDi3 | libraries/builtins/multi3.c:19-36 | the 128-bit product, with no intermediate sum losing a carry |
| WideMul.Multi3 | libraries/builtins/multi3.c:40-49 | the product modulo 2^128 |
| WideMul.WideMultiply128 | libraries/builtins/fp_lib.h:151-188 | the low half is right; the high half is one too small exactly in the stated cases, and right in all others |
| WideMul.ColumnSums | libraries/builtins/fp_lib.h:153-179 | the sixteen products in their columns add up to the product |
| WideMul.HighHalf | libraries/builtins/fp_lib.h:181-187 | the two partial sums give the low half, and the high half but for the carry that is lost |
| WideMul.LostCarryExample | libraries/builtins/fp_lib.h:185-187 | 3 times the inverse of 3 modulo 2^128 comes out wrong |
| PrimeWheel.NextPrime | libraries/libc++/libcxx/src/hash.cpp:169-559 | the least prime that is at least n, for every 32-bit n > 0; 0 for 0; overflow exactly when no 32-bit prime is that large |
| PrimeWheel.TryTable | libraries/libc++/libcxx/src/hash.cpp:197-205 | trial division by 11 to 199 finds n composite, or prime, or shows that nothing below 211 divides it; each verdict is right |
| PrimeWheel.TryWheel | libraries/libc++/libcxx/src/hash.cpp:207-549 | trial division by wheel numbers from 211 is a complete test up to the square root |
| PrimeWheel.Trial | libraries/libc++/libcxx/src/hash.cpp:199-204 | one trial: a divisor, a proof of primality, or one number more that does not divide |
| PrimeWheel.LowerBound | libraries/libc++/libcxx/src/hash.cpp:176-186 | the position of the first entry that is not smaller, in either table |
| PrimeWheel.WheelStep | libraries/libc++/libcxx/src/hash.cpp:551-557 | the next index is the next number on the wheel |
| PrimeWheel.NoPrimeInWheelGap | libraries/libc++/libcxx/src/hash.cpp:142-149 | no prime lies between two neighbours on the wheel |
| PrimeWheel.NoPrimeInTableGap | libraries/libc++/libcxx/src/hash.cpp:174-176 | no prime lies between two neighbours of the table |
| PrimeWheel.TablePrime | libraries/libc++/libcxx/src/hash.cpp:174-176 | every number of the table but the leading 0 is prime |
| PrimeWheel.WheelNotDivided | libraries/libc++/libcxx/src/hash.cpp:193-196 | wheel numbers are not divisible by 2, 3, 5 or 7 |
| PrimeWheel.Extend | libraries/libc++/libcxx/src/hash.cpp:192-196 | the numbers between two trial divisors need no trial |
| Primality.TrialDivision | libraries/libc++/libcxx/src/hash.cpp:189-192 | a number without a divisor up to its square root is prime |
| Primality.CertifiedIsPrime | libraries/libc++/libcxx/src/hash.cpp:156 | Pocklington's criterion, by which the bound of the overflow check is prime |
| Primality.Largest32IsPrime | libraries/libc++/libcxx/src/hash.cpp:156-157 | 0xfffffffb, the bound of the overflow check, is prime, so that the search below it ends |
| Primality.EuclidsLemma | libraries/libc++/libcxx/src/hash.cpp:156 | a prime that divides a product divides a factor; it is used to certify that the bound of the overflow check is prime |
| CharConv.U32ToA | libraries/libc++/libcxx/src/charconv.cpp:63-122 | every 32-bit value is written as its canonical numeral, the end returned, and nothing else written |
| CharConv.U64ToA | libraries/libc++/libcxx/src/charconv.cpp:124-228 | every 64-bit value is written as stated by the lemmas below, in at most 20 characters, the end returned, and nothing else written |
| CharConv.Text64Canonical | libraries/libc++/libcxx/src/charconv.cpp:171-197 | the text is canonical if and only if the value is not in 10^8 to 10^12 - 1 |
| CharConv.Text64Example | libraries/libc++/libcxx/src/charconv.cpp:179-182 | a value printed with leading zeros |
| CharConv.Text64Parse | libraries/libc++/libcxx/src/charconv.cpp:124-228 | parsing the digits gives the value back, in every case |
| CharConv.ParseDecimal | libraries/libc++/libcxx/src/charconv.cpp:63-122 | parsing a canonical numeral gives its number |
| CharConv.DecimalParse | libraries/libc++/libcxx/src/charconv.cpp:63-122 | a numeral without leading zeros is the canonical numeral of its number |
| CharConv.DecimalLength | libraries/libc++/libcxx/src/charconv.cpp:66-105 | a number below 10^k has at most k digits |
| CharConv.Append2 | libraries/libc++/libcxx/src/charconv.cpp:41-47 | two digits, from the table |
| CharConv.Append3 | libraries/libc++/libcxx/src/charconv.cpp:49-54 | three digits |
| CharConv.Append4 | libraries/libc++/libcxx/src/charconv.cpp:56-61 | four digits, with leading zeros |
| CharConv.LutPair | libraries/libc++/libcxx/src/charconv.cpp:17-31 | the table holds the two digits of every number below 100 |
| SharedCount.InvStep | libraries/libc++/libcxx/src/memory.cpp:37-122 | every step of every thread keeps the counts equal to the references, each callback owed or done once, and lock's reading valid |
| SharedCount.AtMostOnce | libraries/libc++/libcxx/src/memory.cpp:39-62 | in every run each callback fires at most once, the second only after the first |
| SharedCount.ZeroSharedIsLast | libraries/libc++/libcxx/src/memory.cpp:39-45 | on_zero_shared is called with no strong reference left |
| SharedCount.DestroyedAlone | libraries/libc++/libcxx/src/memory.cpp:67-105 | once on_zero_shared_weak is due or done, the strong side is dead, no reference is left, no other thread is inside an operation, and nothing touches the counts again |
| SharedCount.NothingLeaks | libraries/libc++/libcxx/src/memory.cpp:57-62 | when all references are gone and all threads at rest, both callbacks have run exactly once |
| SharedCount.NeverRevived | libraries/libc++/libcxx/src/memory.cpp:107-122 | a count that reached -1 stays there in every continuation: no lock succeeds and no strong reference appears |
| SharedCount.LockAnswers | libraries/libc++/libcxx/src/memory.cpp:110-120 | lock gives up only on a dead count, and takes a reference only from a live one; otherwise it looks again |
| SharedCount.LockAlone | libraries/libc++/libcxx/src/memory.cpp:107-122 | undisturbed, lock succeeds if and only if the object lives |
| SharedCount.FastPathIsDecrement | libraries/libc++/libcxx/src/memory.cpp:96-104 | the plain load sees 0 exactly for the last reference, and then skipping the decrement changes no outcome, as no other thread can take a step |
| SharedCount.AloneWithLast | libraries/libc++/libcxx/src/memory.cpp:75-82 | the thread that gives back the last reference is the only one that can act |
| SharedCount.InitialInv | libraries/libc++/libcxx/include/memory:3562-3564 | a new count has one strong owner, who also stands for the one weak reference |
| SharedCount.Effects | libraries/libc++/libcxx/src/memory.cpp:37-122 | in every run every step changes the references that it is meant to change, of the thread that it is meant to change, and no others; it goes on to a callback, and lock succeeds, exactly when counting all references of all threads says so, so the counts decide as the references would |
| SharedCount.CanFinish | libraries/libc++/libcxx/src/memory.cpp:57-105 | every run can be continued until no reference is left and every thread is at rest, and both callbacks have then run exactly once |
| SharedCount.Winds | libraries/libc++/libcxx/src/memory.cpp:57-122 | a thread that is not at rest can always take a step that brings it closer to rest, or lets lock answer at the next one |
| SharedCount.Lifecycle | libraries/libc++/libcxx/src/memory.cpp:37-122 | a run that takes every kind of step: references pass between threads, lock succeeds, all strong references go, lock fails, all weak ones go |
| Atomic.Linearizable | libraries/builtins/atomic.c:165-230 | in every run, sequentially in the order of lock acquisition the operations return what they returned; real-time order is respected; and memory is what that sequence leaves |
| Atomic.MutualExclusion | libraries/builtins/atomic.c:88-118 | when operations that share a byte use one lock, threads that are inside work on separate bytes, in every run |
| Atomic.OneHolder | libraries/builtins/atomic.c:88-99 | in every run of any operations at most one thread is inside a lock's critical sections |
| Atomic.ExclusiveStep | libraries/builtins/atomic.c:88-99 | every step of any operation keeps each lock with at most one holder, and each lock word set only while it is held |
| Atomic.CriticalSectionEnds | libraries/builtins/atomic.c:91-99 | for any operations, a thread inside is never blocked, leaves after finitely many steps of its own, and frees its lock |
| AtomicProgress.Effects | libraries/builtins/atomic.c:88-99 | what each step does: a call is recorded, a thread gets in exactly when nobody is inside under its lock, a thread at work changes its own bytes alone, and one that leaves returns its result and frees the lock |
| AtomicProgress.CanFinish | libraries/builtins/atomic.c:88-99 | no deadlock: every run of any operations can be continued until every operation that was called has returned |
| Atomic.InvStep | libraries/builtins/atomic.c:165-230 | every step of every thread keeps the locks exclusive, memory equal to the replay but for objects being worked on, and the history sequential |
| Atomic.ProgressPhase | libraries/builtins/atomic.c:195-230 | one byte of copying or comparing keeps the relation between the former value and the present bytes |
| Atomic.AcquireContents | libraries/builtins/atomic.c:94-99 | taking a free lock finds the object up to date |
| Atomic.UnlockContents | libraries/builtins/atomic.c:88-90 | giving the lock back leaves the object as the operation done at once would |
| Atomic.LockInRange | libraries/builtins/atomic.c:104-118 | the hash selects one of the 1024 locks |
| Atomic.GranulesDisciplined | libraries/builtins/atomic.c:106-108 | a sufficient condition: objects named by one address, or within 16-byte granules, share a lock whenever they share a byte; the exact one is AtomicObjects.AtomicExactly |
| Atomic.LargeObjectLocks | libraries/builtins/atomic.c:104-118 | addresses 0 and 16 have different locks |
| AtomicObjects.AtomicExactly | libraries/builtins/atomic.c:104-230 | on a set of objects every run is explained by some order of its operations (results, real-time order and final memory) if and only if objects that share a byte have the same lock |
| AtomicObjects.DisciplineIsSeparation | libraries/builtins/atomic.c:88-118 | operations that share a byte use one lock if and only if no run has two threads inside on a common byte |
| AtomicObjects.TornObjects | libraries/builtins/atomic.c:104-230 | any two objects that share a byte under different locks have a run of two exchanges that no order explains |
| AtomicObjects.MissingExchanges | libraries/builtins/atomic.c:220-230 | the run: both exchanges read before either writes, and both return the bytes of the beginning |
| AtomicObjects.NothingExplains | libraries/builtins/atomic.c:220-230 | in no order of two such exchanges do both return the bytes of the beginning |
| AtomicObjects.DisciplinedExplained | libraries/builtins/atomic.c:165-230 | on operations that use one lock whenever they share a byte, the order of acquisition explains every run |
| AtomicObjects.LargeObjectsCounterexample | libraries/builtins/atomic.c:104-118 | a 32-byte object and its second half: a run of two exchanges that no order explains |
| Atomic.SumsWrap | libraries/builtins/atomic.c:316-326 | fetch-and-add and fetch-and-sub work modulo 2 to the bits of the object, and undo each other |
| FetchBits.CombineBits | libraries/builtins/atomic.c:316-341 | fetch-and, fetch-or and fetch-xor, bit by bit: each bit of each byte of the new value is the conjunction, the disjunction or the difference of the two bits at its place |
| FetchBits.FetchedBits | libraries/builtins/atomic.c:316-341 | in memory: such a fetch returns the bytes that were there, leaves at each bit what its two bits make, and changes no other byte |
| FetchBits.FetchInRun | libraries/builtins/atomic.c:316-341 | in every run of operations that use one lock for shared bytes: what such a fetch returned is what the operations before it left, and what it left has the bits it should |
| FetchBits.ReplayBytes | libraries/builtins/atomic.c:316-341 | operations on bytes leave bytes |
| FetchBits.LockBits | libraries/builtins/atomic.c:104-118 | bit j of the index of the lock is bit j + 4 of the address xor bit j + 20, for its ten bits |
| DebugDb.Db.InsertC | libraries/libc++/libcxx/src/debug.cpp:166-202 | a container is entered, with no iterators, if and only if the table has a bucket for it or can grow, and there is memory for its node; otherwise nothing is recorded; the relation holds |
| DebugDb.Db.InsertIterator | libraries/libc++/libcxx/src/debug.cpp:506-541 | exactly which of the three outcomes there is: the array of buckets is too small and cannot grow, the node cannot be allocated, or the iterator is entered, with no container; in the first case nothing changes; in the second exactly the iterators that share its bucket are no longer found, and the database stays consistent if and only if there are none |
| DebugDb.Db.InsertIC | libraries/libc++/libcxx/src/debug.cpp:143-163 | for an unknown container nothing happens; for a known one exactly which allocation fails, by the memory that there is, and what is recorded after each outcome; consistent unless the node fails while its bucket is in use, and only then not |
| DebugDb.Db.EraseI | libraries/libc++/libcxx/src/debug.cpp:205-235 | exactly this iterator is forgotten, and leaves its container |
| DebugDb.Db.EraseC | libraries/libc++/libcxx/src/debug.cpp:322-356 | exactly this container is forgotten, and exactly its iterators lose it |
| DebugDb.Db.InvalidateAll | libraries/libc++/libcxx/src/debug.cpp:238-261 | exactly the iterators of this container lose it |
| DebugDb.Db.IteratorCopy | libraries/libc++/libcxx/src/debug.cpp:359-384 | the first iterator takes over the container of the second, in all cases of known and unknown ones; two things break the database and nothing else: the joined container's array was full and there is no memory for a larger one, or there is none for the node while its bucket is in use; exactly which outcome there is, by the memory that there is, and what is recorded after each |
| DebugDb.Losing | libraries/libc++/libcxx/src/debug.cpp:532-536 | losing iterators from the table forgets exactly these, and breaks the relation if and only if there are any |
| DebugDb.LostIteratorExample | libraries/libc++/libcxx/src/debug.cpp:532-536 | two iterators of one container; the failed entry of a third loses the first, which the container still lists |
| DebugDb.LostIteratorRun | libraries/libc++/libcxx/src/debug.cpp:506-541 | a program of four calls: a container, two iterators of it, and a third whose node cannot be allocated; what is recorded then is the container and the second iterator alone, and the database is inconsistent |
| DebugDb.Db.Swap | libraries/libc++/libcxx/src/debug.cpp:440-468 | the iterators of two containers change places, and all others stay |
| DebugDb.Db.FindCFromI | libraries/libc++/libcxx/src/debug.cpp:132-140 | the recorded container of an iterator |
| DebugDb.Db.LessThanComparable | libraries/libc++/libcxx/src/debug.cpp:427-437 | true exactly for two iterators of one container |
| DebugDb.Db.FindC | libraries/libc++/libcxx/src/debug.cpp:264-297 | a container is found exactly when it is recorded |
| DebugDb.Db.FindIterator | libraries/libc++/libcxx/src/debug.cpp:545-561 | an iterator is found exactly when it is recorded |
| DebugDb.Db.Add | libraries/libc++/libcxx/src/debug.cpp:480-501 | the array gains one iterator if and only if it has room or there is memory; a full one is doubled, an empty one gets room for one; otherwise nothing changes |
| DebugDb.Db.Remove | libraries/libc++/libcxx/src/debug.cpp:565-571 | exactly this iterator leaves the array, and nothing occurs twice |
| DebugDb.Db.Join | libraries/libc++/libcxx/src/debug.cpp:376-381 | pointer first, array second: the pointer is recorded in any case, and the database is consistent afterwards if and only if the array had room or there was memory for a larger one |
| DebugDb.Db.ReleaseAll | libraries/libc++/libcxx/src/debug.cpp:348-352 | every iterator of the array loses its container, and no other |
| DebugDb.Binding | libraries/libc++/libcxx/src/debug.cpp:160-162 | joining an array and a pointer keeps the mirror relation |
| DebugDb.Unbinding | libraries/libc++/libcxx/src/debug.cpp:373-375 | leaving an array keeps the mirror relation |
| DebugDb.Swapping | libraries/libc++/libcxx/src/debug.cpp:461-467 | exchanging the arrays and repointing both keeps the mirror relation and exchanges the owners |
| DebugDb.PointerOnly | libraries/libc++/libcxx/src/debug.cpp:378-380 | a pointer without its entry in the array is recorded, and breaks the relation |
| DebugDb.OwnersOf | libraries/libc++/libcxx/src/debug.cpp:427-437 | an iterator that belongs to a container occurs in its array |
| HashTable.Table.Rehash | libraries/libc++/libcxx/src/debug.cpp:176-192 | every node moves to the bucket of its hash in the larger array, none is lost and none is doubled |
| HashTable.Table.Find | libraries/libc++/libcxx/src/debug.cpp:545-561 | the chain walk finds what the chains hold |
| HashTable.Table.Insert | libraries/libc++/libcxx/src/debug.cpp:172-202 | the insertion of containers: it succeeds if and only if the array has room or can grow, and there is memory for the node; then the map gains one node, and otherwise nothing changes, as the node is allocated before it is linked |
| HashTable.Table.Grow | libraries/libc++/libcxx/src/debug.cpp:172-193 | a table with a bucket for each node and one more stays as it is; a full one takes the least prime from 2n + 1 on as its number of buckets, if that is below 2^30 and there is memory for them, and otherwise nothing changes and it fails |
| HashTable.CannotGrow | libraries/libc++/libcxx/src/debug.cpp:174-176 | a full table can grow if and only if there is memory for the array and the search for the prime finds one below 2^30 |
| HashTable.PlacedByHash | libraries/libc++/libcxx/src/debug.cpp:184 | the bucket of a node is the hash of its address modulo the number of buckets |
| HashTable.SharingByHash | libraries/libc++/libcxx/src/debug.cpp:532-536 | addresses share a bucket exactly when their hashes leave the same remainder |
| HashTable.Table.InsertUnchecked | libraries/libc++/libcxx/src/debug.cpp:509-540 | the insertion of iterators: exactly which of the three outcomes there is; when the node cannot be allocated the table loses exactly the keys of the bucket, so it holds what it held if and only if the bucket was empty; the number of buckets is known from the state before |
| HashTable.HoldsEmptied | libraries/libc++/libcxx/src/debug.cpp:532-536 | a table whose bucket is set to null holds exactly what does not share it |
| HashTable.Table.Remove | libraries/libc++/libcxx/src/debug.cpp:211-228 | the map loses exactly this node |
| HashTable.MoveStep | libraries/libc++/libcxx/src/debug.cpp:182-190 | moving one node of the walk moves one entry of the map |

## Left out

- Requests of more than 2^31 - 4 bytes and memories of 2^31 bytes or more: the branch of
  `next_active_heap` for a negative break (malloc.cpp:80-81) cannot be taken below that size.
- `calloc`, `simple_malloc.cpp`: they add nothing to the allocator above.
- Linear memory is a sequence of words indexed by byte address; a word at an address that is not
  a multiple of four is not part of the model, and `memcpy` copies word entries.
- Heap.Memory.ReallocInPlace: when the chain breaks, what the broken memory then does to later
  calls is not followed further than `Heap.LeavingBreaks`.
- Malloc.MemoryManager.Free: the pointer is null or a live block, as the C standard asks of the
  caller; for other pointers the code rewrites whatever stands before them. So for `Realloc`.
- Whether memory can be had is a parameter: the host says how many pages linear memory may have
  (`Host`), and each call on the database says which of its allocations succeed (`Memory`). A page
  that was refused is not asked for again.
- The functions of the host (`platon_rlp_list`, `platon_rlp_bytes`, `platon_rlp_u128` and the size
  functions beside them) are not part of this repository; they do what Appendix B of the Yellow
  Paper says. `platon_throw` ends a call.
- `RLP::isInt`, the conversions of `RLP.h`, and sizes of 2^32 bytes or more in `RLPStream`.
- RlpList.RLP.Index: for the index 2^32 - 1, the mark of an unused cursor, the answer of a cursor
  that was never used is not compared with a scan.
- The 64-bit overload of `__next_prime`: contracts have a 32-bit size_t.
- The null `rem` pointer of the division routines, and their behaviour after a trap.
- divdf3.c and divtf3.c (the argument of divsf3.c at larger widths), soft-float addition,
  multiplication and conversion, whose bodies are not part of this model, and the single-expression
  builtins.
- Memory orders weaker than sequential consistency; the platform locks of FreeBSD and macOS, and
  the lock-free cases, in `atomic.c`; spurious failures of the weak exchange are steps not taken.
- Overflow of the `long` reference counts; a count that starts with other than one owner;
  deleters and allocators.
- Atomic.Linearizable: the caller's own buffers are private to the calling thread.
- HashTable.Table: a chain is a sequence of nodes in order, not a chain of `__next_` pointers; the
  two tables of the database are one class with two insertions.
- DebugDb.Db.IteratorCopy: once the database is inconsistent, nothing is said of later calls.
- DebugDb.Db: nodes live in a map from addresses, which are not reused; each container and each
  iterator is entered at most once at a time, as their constructors and destructors do; the
  database's lock makes each call one step. The queries on the element range of a container
  (`__dereferenceable` and the like) call code of the container that is not part of this model.
- I/O, locale, thread library, compilers and test tools of the repository.
