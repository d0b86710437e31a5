# Models of the benchmark and crypto kernels

This project models seven groups of C code under `benchmarks/performance` and proves what each is for. Code that
updates arrays, links or fields in place is modelled by methods and classes that do the same, each proved against a
specification on values; the laws are then lemmas about the specifications.

1. **Huffman compressor and decompressor** (`libhuffbench.c`): counting, indirect heap, merge loop with signed parent
   links, code walk, bit-packed output, decode table, insertion sort and decoder. A ghost trie `HTree` connects the
   phases. Files `HuffTree`, `HuffHeap`, `HuffForest`, `HuffBuild`, `HuffCodes`, `HuffEncode`, `HuffDecode` and
   `HuffBench`; the theory of optimal codes is in `HuffOptimal` and `HuffPrefix`. The decoder's method computes a
   run on values, `Decoded`; `HuffRestore` proves that this run restores the data when no code has 32 bits,
   `HuffNumber`, `HuffNodes`, `HuffWrap`, `HuffPeriod` and `HuffLoss` that it never does when one has, and `HuffFib`
   that such data exist.
2. **Red-black tree, tree iterator and quicksort** (`sglib.h`): `RbTree` and `RbDeletion` on tree values,
   `RbHeap` and `RbHeapDeletion` on linked nodes, `RbIterator`, `QuickSort`.
3. **Montgomery multiplication** (`mont64.c`): `Mont64`, with every 64-bit wrap-around written out.
4. **Reed-Solomon encoder** (`qrencode.c`): `Gf256` (tables), `GfField` (the field they form), `ReedSolomon`, `RsEncoder`.
5. **SHA-256 in two designs, HMAC, HKDF and ChaCha20**: `Sha256` is the standard's function; `NettleSha256` and
   `NettleContext` the streaming design, `HaclSha256` the one-shot design, `Sha256Agreement` their equality.
   `StaticSha256`, `Hmac`, `Hkdf` and `StaticChacha20` are the annotated variants, whose working storage is static and
   keeps whatever earlier calls left; `Chacha20` is the cipher. What pins these specifications to their standards:
   `Sha256Constants` derives the constants from roots of primes, `Sha256Trace`, `Sha256Example`, `HmacExample` and
   `Chacha20Example` work out published examples.
6. **AES and the JPEG Huffman reader** (`nettle-aes.c`, `libpicojpeg.c`): `AesTables`, `AesField`,
   `AesRotated`, `Aes`, `AesCipher`, `AesContext`, `AesStandard`, `AesExample`; `JpegBits`, `JpegHuffman`.
7. **CoreMark's list mergesort** (`core_list_join.c`): `MergeSpec` on sequences, `CoreMarkList` on linked nodes.

`Arith` and `Bits` hold shared arithmetic: congruences, powers of two, bitwise operations on numbers, and numbers
written as bit sequences; `Swaps` is the exchange of two elements.

## How the code is represented

- Unsigned words are numbers reduced explicitly (`Mont64`, `HuffCodes`, `JpegBits`) or bit vectors (hashes and ciphers).
  `unsigned long` and `size_t` have 32 bits, as on the target.
- A `type **tree` parameter, a reference to the caller's link, becomes a root passed in and a root handed back.
- Addresses compared by sglib on equal keys are the field `addr` of a node, different for different nodes.
- The tree's comparator is the difference of two keys in a 32-bit `int`, which wraps around. Other comparators are
  given by an integer key, of which the C function returns the difference or its sign; those of CoreMark also do to
  the data what the C functions do.
- `confidential static` variables are fields of an object; a method is proved from arbitrary contents of these fields,
  which stands for any earlier calls. The plain HMAC, HKDF and ChaCha20 bodies differ from the annotated ones only in
  where the storage lives, so they are the same methods on a fresh object; plain SHA-256 has its own methods.
- `assert_beebs` loops forever when its condition fails; every such assertion in the modelled code is proved to hold
  where it depends on the algorithm, and is a `requires` where it depends on the caller.
- The AES tables, the two S-boxes and the Reed-Solomon tables are listed as in the C. Every entry of the eight AES
  round tables, of the subkey table and of the Reed-Solomon tables is tied to what it means; the S-box is tied
  to its inverse and derived from inversion in GF(256).
- Where the C would read outside an array, the method that models it says so in its result and stops.

## Where the code differs from its comments or from what one would expect

- `mont64.c:91-95` promises an overflow check for x >= z in `modul64`; there is none, so `ModUl64` requires x < z.
- `mont64.c:169-171` says that `xbinGCD` treats a = 0 as 2^64 and takes any b. For a = 0 the loop is not entered and
  the result is u = 1, v = 0: `XbinGcd` states that the promised relation holds exactly for a nonzero `a` and an odd
  `b`.
- `core_list_join.c:586` speaks of the empty list, but line 583 writes through a null reference for it, so `MergeSort`
  requires a non-empty list.
- `libhuffbench.c:311` guards against an output longer than the input: `EncodedFits` shows that it never applies.
- `libhuffbench.c:279-283` takes codes of 32 bits as fitting, but their path numbers wrap in the 32-bit words of the
  decode table. The data are then never restored: `CompDecomp` states that they are if and only if the longest code
  does not have exactly 32 bits. `SomeBufferIsLost` gives a buffer of 9227464 bytes with such a code, which
  `LoseFibonacci` runs into; below 5702887 bytes there is none.
- `combined.c:115` subtracts keys in an `int`: `AddValidIff` and `DeleteRemovesIff` state that insertion and deletion
  do what they should exactly when no subtraction on the way down overflows, `CmpFindsIff` when the iteration over
  equal nodes is complete; `OverflowMisplaces` and `OverflowOverlooks` give two keys for which one overflows. A search
  for deletion that runs off the tree meets `assert_beebs(0 && ...)` (`sglib.h:1679`), an endless loop; the model
  returns the empty tree there.
- `huffCreate` uses the code 0xFFFF as mark for "no code of this length"; a table that uses all ones as a 16-bit code
  is therefore not decoded at that length. `DecodesCode` states exactly this condition.
- `init` in `libpicojpeg.c:1106-1109` reads eight bits twice, but the first read only drops eight bits of the cleared
  buffer: afterwards one octet is loaded, not two. `Prime` states this.
- `initrspoly` counts with an `unsigned char` up to and including `eclen`: 255 would never be reached as an end, so
  lengths go up to 254.

## Model

| member | source | states |
|---|---|---|
| `HuffHeap.HeapAdjust` | benchmarks/performance/embench/src/huffbench/libhuffbench.c:124-153 | sifting down inside the indirect heap: when every entry below position k keeps the heap order by frequency, so does position k afterwards; the entries are only permuted and nothing outside the first n is touched |
| `HuffHeap.RootIsMin` | benchmarks/performance/embench/src/huffbench/libhuffbench.c:124-153 | the front of the heap is an entry of least frequency |
| `HuffBuild.CountFrequencies` | benchmarks/performance/embench/src/huffbench/libhuffbench.c:185-190 | entry c of the table is the number of occurrences of byte c in the whole buffer |
| `HuffBuild.CollectSymbols` | benchmarks/performance/embench/src/huffbench/libhuffbench.c:192-201 | the heap starts with exactly the occurring byte values, each once |
| `HuffBuild.Heapify` | benchmarks/performance/embench/src/huffbench/libhuffbench.c:203-205 | afterwards the whole heap is ordered by frequency, with the same entries |
| `HuffBuild.TwoRarest` | benchmarks/performance/embench/src/huffbench/libhuffbench.c:212-233 | the two roots joined by a turn of the merge loop are the two least frequent of all, in that order |
| `HuffBuild.BuildTrie` | benchmarks/performance/embench/src/huffbench/libhuffbench.c:207-233 | for every set of counts the loop ends with one root; the signed parent links hold one full binary trie whose leaves are exactly the occurring bytes, whose cost is the greedy Huffman cost of the counts, and which is a single leaf exactly when one byte value occurs, and whose root is node 257 otherwise |
| `HuffTree.LinkStep` | benchmarks/performance/embench/src/huffbench/libhuffbench.c:253-264 | a link leads to the parent, its sign is the branch taken, and the parent of a node below the root has a path one bit shorter |
| `HuffTree.PathsPrefixFree` | benchmarks/performance/embench/src/huffbench/libhuffbench.c:235-277 | no path to a leaf begins the path to another leaf |
| `HuffCodes.CodeWord` | benchmarks/performance/embench/src/huffbench/libhuffbench.c:246-267 | the climb along the links ends at the root with the leaf's path as a number modulo 2^32 and with its length |
| `HuffCodes.GenerateCodes` | benchmarks/performance/embench/src/huffbench/libhuffbench.c:235-277 | every occurring byte gets its path and its path length, every other byte zeros; the maxima are the largest code and the depth of the trie |
| `HuffOptimal.GreedyIsOptimal` | benchmarks/performance/embench/src/huffbench/libhuffbench.c:207-233 | joining the two smallest weights again and again costs no more than any assignment of lengths that satisfies Kraft's inequality |
| `HuffPrefix.PrefixKraft` | benchmarks/performance/embench/src/huffbench/libhuffbench.c:235-277 | every prefix-free list of code words, of any lengths, satisfies Kraft's inequality |
| `HuffPrefix.NoPrefixCodeIsShorter` | benchmarks/performance/embench/src/huffbench/libhuffbench.c:207-277 | no prefix-free code for any weights has a smaller weighted length than the greedy cost |
| `HuffCodes.CodesAreOptimal` | benchmarks/performance/embench/src/huffbench/libhuffbench.c:207-277 | the generated codes are prefix-free and no other prefix-free code for the same counts is shorter in total |
| `HuffCodes.LongCodesNeedLongData` | benchmarks/performance/embench/src/huffbench/libhuffbench.c:279-283 | a trie of depth d needs at least as many bytes of data as the Fibonacci number d+2 |
| `HuffCodes.ShortDataShortCodes` | benchmarks/performance/embench/src/huffbench/libhuffbench.c:279-283 | a buffer of fewer than 5702887 bytes has no code of more than 31 bits |
| `HuffEncode.EncodeSymbol` | benchmarks/performance/embench/src/huffbench/libhuffbench.c:296-334 | copying one code appends exactly its bits to the packed stream, byte by byte, most significant bit first |
| `HuffEncode.Encode` | benchmarks/performance/embench/src/huffbench/libhuffbench.c:285-342 | the output carries the code words of all data bytes one after the other; it gives up only when the bits need more bytes than the input has |
| `HuffBench.EncodedIsShortest` | benchmarks/performance/embench/src/huffbench/libhuffbench.c:207-342 | the encoded stream is at most as long as the data written in any other prefix-free code |
| `HuffBench.EncodedFits` | benchmarks/performance/embench/src/huffbench/libhuffbench.c:311-319 | hence at most 8 bits a byte: the branch for an output longer than the input is never taken |
| `HuffDecode.PathNumber` | benchmarks/performance/embench/src/huffbench/libhuffbench.c:368-384 | following the code bits from the top gives the number of the path in the heap numbering, in a 32-bit word, for codes of 1 to 32 bits |
| `HuffNumber.StripNumber` | benchmarks/performance/embench/src/huffbench/libhuffbench.c:371-384 | at 32 bits the number wraps: the path gets the number of what stands behind its first one bit, and the path of 32 zeros gets 2^32-1 |
| `HuffTree.HeapNumberInjective` | benchmarks/performance/embench/src/huffbench/libhuffbench.c:371-384 | two different paths have different heap numbers |
| `HuffTree.HeapNumberGrows` | benchmarks/performance/embench/src/huffbench/libhuffbench.c:409-434 | a path is numbered below all longer paths it begins |
| `HuffDecode.SortTable` | benchmarks/performance/embench/src/huffbench/libhuffbench.c:388-404 | insertion sort of the table by heap number, carrying the byte values along, so that every entry still belongs to its byte |
| `HuffRestore.MatchDecides` | benchmarks/performance/embench/src/huffbench/libhuffbench.c:424-436 | with codes of at most 31 bits, inside a code word the entry where the scan stops equals the path exactly when the word is complete, and it is then the entry of that byte |
| `HuffDecode.ReadBit` | benchmarks/performance/embench/src/huffbench/libhuffbench.c:419-426 | the number moves to a child, modulo 2^32, and the scan to the first entry from where it stood that is not below that number |
| `HuffDecode.Decode` | benchmarks/performance/embench/src/huffbench/libhuffbench.c:406-446 | for every table and every stream, the loop on bytes and masks writes what the run `Decoded` over the bits of the stream reads, and reports when that run leaves the table or the stream, where the C reads outside its arrays |
| `HuffRestore.Restores` | benchmarks/performance/embench/src/huffbench/libhuffbench.c:406-446 | with codes of at most 31 bits the run over any stream that begins with the code words of d reads exactly d |
| `HuffLoss.FirstWord` | benchmarks/performance/embench/src/huffbench/libhuffbench.c:417-446 | whatever a run reads, it reads it word by word: a word is found exactly at a table number that is larger than every number met since the last word, and every table number met before it was below one met still earlier |
| `HuffWrap.DeepUnique` | benchmarks/performance/embench/src/huffbench/libhuffbench.c:371-434 | with a code of 32 bits and every table number found by some run, two runs of more than 30 bits that lead to the same path of the trie are the same run |
| `HuffWrap.DeepUpTo` | benchmarks/performance/embench/src/huffbench/libhuffbench.c:371-434 | and every run that finds a word after more than 31 bits stays on inner nodes of the trie, where a 32-bit code word it passes sends it back to the path behind that word's first one bit |
| `HuffWrap.StripInner` | benchmarks/performance/embench/src/huffbench/libhuffbench.c:371-434 | so the number of a 32-bit code word is that of an inner node of the trie |
| `HuffPeriod.Spread` | benchmarks/performance/embench/src/huffbench/libhuffbench.c:371-434 | if no run comes to the end of a 32-bit code word, none comes to any 31-bit path below the path whose number the word has |
| `HuffPeriod.NoWordRepeats` | benchmarks/performance/embench/src/huffbench/libhuffbench.c:371-434 | and no 32-bit code word begins with the path whose number it has: such a word repeats itself, which would force the path of 31 zeros to be inner and a code word to have the number 0 |
| `HuffLoss.NeverRestores` | benchmarks/performance/embench/src/huffbench/libhuffbench.c:406-446 | with a code of 32 bits the run over the code words of d never reads d, for every trie, every data in which all its symbols occur and every stream that begins with their code words |
| `HuffFib.FibDepth` | benchmarks/performance/embench/src/huffbench/libhuffbench.c:207-233 | a buffer in which byte value i occurs Fibonacci(i+1) times, for n values, gets a trie of depth n-1, however ties are broken |
| `HuffFib.SomeBufferIsLost` | benchmarks/performance/embench/src/huffbench/libhuffbench.c:279-283 | so there is a buffer of 9227464 bytes with 33 values whose longest code has exactly 32 bits |
| `HuffFib.LoseFibonacci` | benchmarks/performance/embench/src/huffbench/libhuffbench.c:156-450 | the benchmark body on that buffer reads outside its arrays or ends with other data than it was given |
| `HuffBench.CompDecomp` | benchmarks/performance/embench/src/huffbench/libhuffbench.c:156-450 | for every buffer, the routine ends with the data unchanged, having read nothing outside its arrays, if and only if the longest code of the trie it built does not have exactly 32 bits; in particular for every buffer of fewer than 5702887 bytes. It returns early for one value exactly when all bytes are equal, for long codes exactly when one has more than 32 bits, and never because the output is not smaller |
| `RbTree.FixInsertionRepairs` | benchmarks/performance/embench/src/sglib-combined/sglib.h:1450-1487 | below a black node one red node with one red child is turned into a valid subtree of the same black height |
| `RbTree.FixInsertionKeepsElems` | benchmarks/performance/embench/src/sglib-combined/sglib.h:1450-1487 | in all cases of the fix-up the nodes stay the same and in the same order |
| `RbTree.AddRecursiveInvariant` | benchmarks/performance/embench/src/sglib-combined/sglib.h:1631-1648 | the descent keeps black heights; at most one red-red conflict is left, at a red root of the subtree, and none under a black one |
| `RbTree.ComparatorRight` | benchmarks/performance/embench/src/sglib-combined/combined.c:115-118 | the 32-bit difference of two keys puts two nodes in their order exactly when the true difference fits an `int` |
| `RbTree.AddRecursiveElems` | benchmarks/performance/embench/src/sglib-combined/sglib.h:1631-1648 | the in-order sequence is the old one with the element inserted at its place, when no comparison on the way down overflows |
| `RbTree.AddCorrect` | benchmarks/performance/embench/src/sglib-combined/sglib.h:1718-1722 | adding a fresh node to any valid tree, no comparison on the way down overflowing, gives a valid tree (order, no two reds in a row, equal black heights, black root) with exactly that node more |
| `RbTree.AddValidIff` | benchmarks/performance/embench/src/sglib-combined/sglib.h:1718-1722 | and the result is valid only then |
| `RbTree.OverflowMisplaces` | benchmarks/performance/embench/src/sglib-combined/combined.c:115-118 | the keys -1 and 2^31-1 end up in the wrong order |
| `RbHeap.FixInsertionDiscrepancy` | benchmarks/performance/embench/src/sglib-combined/sglib.h:1450-1487 | the reassignments of links and colours on the nodes produce exactly the tree of the value function, within the nodes of the subtree |
| `RbHeap.AddRecursive` | benchmarks/performance/embench/src/sglib-combined/sglib.h:1631-1648 | the recursion on linked nodes refines the insertion on tree values, for any tree of different nodes and any new one, whatever the comparisons say |
| `RbHeap.Add` | benchmarks/performance/embench/src/sglib-combined/sglib.h:1718-1722 | insertion on linked nodes: the result is a tree of exactly the old nodes and the new one; from a valid tree it is valid again if and only if no comparison on the way down overflows, and then holds the nodes in order |
| `RbDeletion.FixDeletionMends` | benchmarks/performance/embench/src/sglib-combined/sglib.h:1489-1607 | a node one of whose sides is a black level short becomes valid again; the flag is set exactly when the node, its sibling child and that child's two children are black, the only case that propagates; the cases the source asserts away cannot occur |
| `RbDeletion.FixDeletionKeepsElems` | benchmarks/performance/embench/src/sglib-combined/sglib.h:1489-1607 | in all cases, the nested red-sibling ones included, nodes and order stay the same |
| `RbDeletion.DeleteRightmostLeafElems` | benchmarks/performance/embench/src/sglib-combined/sglib.h:1650-1671 | cutting the rightmost node takes the last of the in-order sequence |
| `RbDeletion.DeleteRightmostLeafMends` | benchmarks/performance/embench/src/sglib-combined/sglib.h:1650-1671 | what is left is valid and the flag says exactly whether its black height dropped by one |
| `RbDeletion.DeleteRecursiveElems` | benchmarks/performance/embench/src/sglib-combined/sglib.h:1673-1716 | the in-order sequence loses exactly the element |
| `RbDeletion.DeleteRecursiveMends` | benchmarks/performance/embench/src/sglib-combined/sglib.h:1673-1716 | whatever the comparisons say, the result has no two reds in a row and equal black heights, `res` is 1 exactly when the black height dropped by one, and a black root is not replaced by a red one |
| `RbDeletion.DeleteCorrect` | benchmarks/performance/embench/src/sglib-combined/sglib.h:1673-1727 | deleting a member of any valid tree, no comparison on the way down overflowing, gives a valid tree without exactly that node |
| `RbDeletion.DeleteRemovesIff` | benchmarks/performance/embench/src/sglib-combined/sglib.h:1673-1727 | deletion finds a member, so that the call returns, exactly when no comparison on the way down overflows, and takes the node out exactly then; after an overflow the search runs off the tree into an assertion that fails, an endless loop in the C |
| `RbDeletion.OverflowOverlooks` | benchmarks/performance/embench/src/sglib-combined/combined.c:115-118 | in the valid tree of the keys -1 and 2^31-1 the second one is not found |
| `RbHeapDeletion.FixDeletionDiscrepancy` | benchmarks/performance/embench/src/sglib-combined/sglib.h:1489-1607 | the fix-up on linked nodes produces the tree and the flag of the value function |
| `RbHeapDeletion.CutRightmostLeaf` | benchmarks/performance/embench/src/sglib-combined/sglib.h:1650-1671 | the same for cutting the rightmost node |
| `RbHeapDeletion.DeleteNode` | benchmarks/performance/embench/src/sglib-combined/sglib.h:1673-1716 | the same for the recursive deletion, with the replacement node taking links and colour of the deleted one |
| `RbHeapDeletion.Delete` | benchmarks/performance/embench/src/sglib-combined/sglib.h:1724-1727 | deletion on linked nodes, no comparison on the way down overflowing: the root afterwards is that of a valid tree holding the other nodes in order |
| `RbIterator.StepYields` | benchmarks/performance/embench/src/sglib-combined/sglib.h:1782-1814 | a turn of the iterator loop picks exactly the next node of the traversal, or none and loses none |
| `RbIterator.TreeIterator.ComputeCurrentElem` | benchmarks/performance/embench/src/sglib-combined/sglib.h:1775-1816 | the current node is the next of those still to come, and there is none only when nothing is left |
| `RbIterator.TreeIterator.Init` | benchmarks/performance/embench/src/sglib-combined/sglib.h:1817-1846 | afterwards the current node and those to come are the whole traversal in the chosen order, of the tree or of what `equalto` leaves of it |
| `RbIterator.FindMember` | benchmarks/performance/embench/src/sglib-combined/sglib.h:788-799 | the search returns the topmost equal node of the subtree, or none |
| `RbIterator.PrunedIsEquals` | benchmarks/performance/embench/src/sglib-combined/sglib.h:1796-1802 | wherever the comparator agrees with the order of the nodes, taking up only what the search finds on each side keeps exactly the nodes equal to the given one, in order: it misses none of them |
| `RbIterator.CmpAgrees` | benchmarks/performance/embench/src/sglib-combined/combined.c:115-118 | the tree's own comparator agrees with the order when no difference overflows |
| `RbIterator.CmpFindsIff` | benchmarks/performance/embench/src/sglib-combined/sglib.h:1796-1802 | with the tree's own comparator the iterator keeps exactly the nodes of the given key if and only if no comparison with one of them or a node above one of them overflows |
| `RbIterator.PathFits` | benchmarks/performance/embench/src/sglib-combined/sglib.h:1948-1949 | a valid tree of fewer than 2^63 nodes is at most 128 high, the size of the path array |
| `RbIterator.VisitAll` | benchmarks/performance/embench/src/sglib-combined/sglib.h:1775-1868 | the loop over init and next visits exactly the pre-, in- or post-order traversal, and with `equalto` exactly the equal nodes in order; the path array never overflows |
| `RbIterator.WalkVisitsAll` | benchmarks/performance/embench/src/sglib-combined/sglib.h:1775-1868 | each traversal has every node exactly once, and the in-order one is the sorted sequence |
| `RbIterator.WalkShape` | benchmarks/performance/embench/src/sglib-combined/sglib.h:1782-1814 | in pre-order a node comes before its left and then its right subtree, in in-order between them, in post-order behind them |
| `QuickSort.Partition` | benchmarks/performance/embench/src/sglib-combined/sglib.h:108-133 | after the scans the pivot stands between elements not greater and elements not smaller, for every comparison key |
| `QuickSort.SwapOrdered` | benchmarks/performance/embench/src/sglib-combined/sglib.h:108-133 | exchanging two elements inside one pending segment breaks no order that is already established outside it |
| `QuickSort.HalfDeeper` | benchmarks/performance/embench/src/sglib-combined/sglib.h:135-148 | with the larger part pushed, the segment one level deeper has at most half the size |
| `QuickSort.DepthBound` | benchmarks/performance/embench/src/sglib-combined/sglib.h:96-98 | a segment worth splitting of an array of fewer than 2^64 elements never lies 63 deep, so the 64 slots suffice |
| `QuickSort.QuickSort` | benchmarks/performance/embench/src/sglib-combined/sglib.h:94-159 | for every array and every key the first `max` elements end up in order, are only permuted, the rest is untouched and the loop ends |
| `Mont64.MulUl64` | benchmarks/performance/embench/src/aha-mont64/mont64.c:56-83 | the two result words are the exact 128-bit product, for all operands |
| `Mont64.CarryTest` | benchmarks/performance/embench/src/aha-mont64/mont64.c:98-108 | the comparison with the carried-out top bit decides the 65-bit value against z, and the wrapped subtraction is then exact |
| `Mont64.ModUl64` | benchmarks/performance/embench/src/aha-mont64/mont64.c:87-110 | for x < z the result is (x*2^64+y) mod z |
| `Mont64.DietzAverage` | benchmarks/performance/embench/src/aha-mont64/mont64.c:199-204 | the average by xor, shift and and is (u+beta)/2 without overflow |
| `Mont64.HalveEven` | benchmarks/performance/embench/src/aha-mont64/mont64.c:186-198 | an even u makes v even, so nothing is lost by halving both |
| `Mont64.HalveOdd` | benchmarks/performance/embench/src/aha-mont64/mont64.c:199-205 | an odd u keeps the relation after beta and alpha are added, with u <= beta and v < 2*alpha |
| `Mont64.XbinGcd` | benchmarks/performance/embench/src/aha-mont64/mont64.c:175-212 | for a power of two a and any b the results satisfy 2*a*u - b*v = 1 over the integers exactly when a is not zero and b is odd, with u <= b |
| `Mont64.CarryExact` | benchmarks/performance/embench/src/aha-mont64/mont64.c:133-141 | the overflow flag is the 129th bit of the sum of the two double words |
| `Mont64.MontMul` | benchmarks/performance/embench/src/aha-mont64/mont64.c:114-151 | for an odd modulus and reduced operands the result is below m and congruent to the product divided by 2^64 |
| `Mont64.BenchmarkBody` | benchmarks/performance/embench/src/aha-mont64/mont64.c:244-315 | for every odd m and a, b below m both ways of computing give (a*b)^4 mod m and the error count is 0 |
| `Gf256.ExpIsAlpha` | benchmarks/performance/embench/src/qrduino/qrencode.c:82-121 | entry i of the exp table is the i-th power of x modulo x^8+x^4+x^3+x^2+1 |
| `Gf256.LogIsLog` | benchmarks/performance/embench/src/qrduino/qrencode.c:47-81 | the log table inverts the exp table, and gives 255 for zero |
| `RsEncoder.Modnn` | benchmarks/performance/embench/src/qrduino/qrencode.c:40-49 | the folding loop is reduction modulo 255, for every argument |
| `ReedSolomon.GenRoot` | benchmarks/performance/embench/src/qrduino/qrencode.c:150-172 | the generator built factor by factor vanishes at alpha^0 to alpha^(n-1) |
| `ReedSolomon.GenNonzero` | benchmarks/performance/embench/src/qrduino/qrencode.c:150-172 | no coefficient of a generator of degree up to 254 is zero, so the logarithms stored for it are all valid |
| `RsEncoder.MultiplyFactor` | benchmarks/performance/embench/src/qrduino/qrencode.c:158-168 | one turn multiplies the polynomial in the array by x + alpha^i, in place |
| `RsEncoder.InitRsPoly` | benchmarks/performance/embench/src/qrduino/qrencode.c:150-172 | the array ends with the logarithms of the coefficients of the product of all x + alpha^i |
| `ReedSolomon.ShiftValue` | benchmarks/performance/embench/src/qrduino/qrencode.c:180-190 | at a root of the generator, a turn of the shift register multiplies the register's value by that root and adds the data byte's |
| `RsEncoder.ShiftRegister` | benchmarks/performance/embench/src/qrduino/qrencode.c:180-190 | one turn of the encoder on the array, in both branches, is one step of division by the generator |
| `ReedSolomon.EncodedIsCodeword` | benchmarks/performance/embench/src/qrduino/qrencode.c:174-191 | data followed by the check bytes is a polynomial that vanishes at alpha^0 to alpha^(n-1), for all data |
| `ReedSolomon.TooManyRoots` | benchmarks/performance/embench/src/qrduino/qrencode.c:174-191 | a polynomial with as many different roots as coefficients is zero |
| `ReedSolomon.CheckBytesUnique` | benchmarks/performance/embench/src/qrduino/qrencode.c:174-191 | the check bytes are the only ones with that property |
| `RsEncoder.AppendRs` | benchmarks/performance/embench/src/qrduino/qrencode.c:174-191 | the buffer receives exactly those check bytes, for every block and every length 1 to 254 |
| `NettleSha256.SameChoice` | benchmarks/performance/embench/src/nettle-sha256/nettle-sha256.c:189-190 | the rewritten choice function is that of the standard |
| `NettleSha256.SameMajority` | benchmarks/performance/embench/src/nettle-sha256/nettle-sha256.c:189-190 | the rewritten majority function is that of the standard |
| `NettleSha256.SameSigmas` | benchmarks/performance/embench/src/nettle-sha256/nettle-sha256.c:192-196 | the rotations to the left are those of the standard to the right |
| `NettleSha256.Expand` | benchmarks/performance/embench/src/nettle-sha256/nettle-sha256.c:198-199 | the rolling array of 16 words yields the next word of the 64-word schedule and keeps the last 16 |
| `NettleSha256.CompressBlock` | benchmarks/performance/embench/src/nettle-sha256/nettle-sha256.c:209-298 | sixteen words in place, rotated register names and rewritten functions compute the compression function of section 6.2.2 of FIPS 180-4 |
| `NettleContext.Context.Update` | benchmarks/performance/embench/src/nettle-sha256/nettle-sha256.c:37-72 | a chunk of any length is appended to what was absorbed: whole blocks are in the state, the rest in the buffer, and the block count is that of the absorbed bytes |
| `NettleContext.Context.Pad` | benchmarks/performance/embench/src/nettle-sha256/nettle-sha256.c:74-96 | the byte 0x80 and the zeros, with a compression in between when the length does not fit |
| `NettleContext.BitCount` | benchmarks/performance/embench/src/nettle-sha256/nettle-sha256.c:351-365 | count*512 combined with index*8 is the message length in bits, modulo 2^64 |
| `NettleContext.Context.Finish` | benchmarks/performance/embench/src/nettle-sha256/nettle-sha256.c:351-368 | afterwards the state words are the hash of everything absorbed |
| `NettleContext.WriteBe32` | benchmarks/performance/embench/src/nettle-sha256/nettle-sha256.c:130-165 | the first `length` bytes of the big-endian state words, for lengths that end inside a word too |
| `NettleContext.Context.GetDigest` | benchmarks/performance/embench/src/nettle-sha256/nettle-sha256.c:372-377 | the output is the prefix of the hash of all absorbed bytes and the context starts afresh |
| `HaclSha256.Update256` | benchmarks/performance/hacl_crypto/hacl_primitives/Hacl_Hash_SHA2.c:62-134 | the 64-word schedule with shifted registers computes the same compression function |
| `HaclSha256.Pad256` | benchmarks/performance/hacl_crypto/hacl_primitives/Hacl_Hash_SHA2.c:136-159 | writes the padding of section 5.1.1 of FIPS 180-4 and nothing else |
| `HaclSha256.UpdateLast256` | benchmarks/performance/hacl_crypto/hacl_primitives/Hacl_Hash_SHA2.c:180-210 | absorbs the last bytes and the padding of the total length |
| `HaclSha256.Hash256` | benchmarks/performance/hacl_crypto/hacl_primitives/Hacl_Hash_SHA2.c:212-243 | the hash of the whole message, although the last full block is kept back |
| `Sha256Constants.RoundConstant` | benchmarks/performance/hacl_crypto/hacl_primitives/Hacl_Hash_SHA2.c:36-57 | each of the sixty-four round constants, which Nettle lists as well, is the first 32 bits of the fraction of the cube root of a prime (section 4.2.2 of FIPS 180-4) |
| `Sha256Constants.InitialState` | benchmarks/performance/hacl_crypto/hacl_primitives/Hacl_Hash_SHA2.c:29-34 | each word of the initial state is the first 32 bits of the fraction of the square root of a prime (section 5.3.3) |
| `Sha256Constants.PrimesListed` | benchmarks/performance/hacl_crypto/hacl_primitives/Hacl_Hash_SHA2.c:36-57 | the primes of these roots are exactly the primes below 312 |
| `Sha256Constants.PrimesAscend` | benchmarks/performance/hacl_crypto/hacl_primitives/Hacl_Hash_SHA2.c:36-57 | and they come in ascending order, so that the constant at i belongs to prime number i |
| `Sha256Trace.TraceCompresses` | benchmarks/performance/hacl_crypto/hacl_primitives/Hacl_Hash_SHA2.c:62-134 | a list of schedule words and of the registers after each round, each following from those before, ends in the compressed block |
| `Sha256Example.HashOfAbc` | benchmarks/performance/hacl_crypto/hacl_primitives/Hacl_Hash_SHA2.c:212-243 | the hash of "abc" is ba7816bf 8f01cfea 414140de 5dae2223 b00361a3 96177a9c b410ff61 f20015ad (section B.1 of FIPS 180-2) |
| `Sha256.LengthFieldNumber` | benchmarks/performance/hacl_crypto/hacl_primitives/Hacl_Hash_SHA2.c:136-159 | the last eight bytes of the padding spell the number of bits modulo 2^64, most significant byte first |
| `Sha256Trace.DigestWord` | benchmarks/performance/hacl_crypto/hacl_primitives/Hacl_Hash_SHA2.c:161-168 | the digest is the words of the state, most significant byte first |
| `Sha256.BlocksConcat` | benchmarks/performance/hacl_crypto/hacl_primitives/Hacl_Hash_SHA2.c:170-178 | compressing block by block does not depend on where the blocks are divided into calls |
| `Sha256Agreement.DigestOfChunks` | benchmarks/performance/embench/src/nettle-sha256/nettle-sha256.c:327-377 | init, update for every chunk and digest give the hash of the joined chunks, for every division into chunks |
| `Sha256Agreement.StreamedIsOneShot` | benchmarks/performance/hacl_crypto/hacl_primitives/Hacl_Hash_SHA2.c:212-243 | Nettle's streamed digest and HACL's one-shot hash are equal for every message below 2^32 bytes and every division |
| `StaticSha256.ShaStatics.Update256` | benchmarks/performance/hacl_crypto/annotated_hacl_primitives/Hacl_Hash_SHA2.c:63-152 | from arbitrary contents of the static scratch words the same compression as with fresh locals |
| `StaticSha256.ShaStatics.UpdateLast256` | benchmarks/performance/hacl_crypto/annotated_hacl_primitives/Hacl_Hash_SHA2.c:198-228 | from arbitrary contents of the static two-block buffer the same last blocks |
| `StaticSha256.ShaStatics.Hash256` | benchmarks/performance/hacl_crypto/annotated_hacl_primitives/Hacl_Hash_SHA2.c:230-264 | after any earlier calls the annotated hash is the same hash |
| `Hmac.HmacStatics.SetKey` | benchmarks/performance/hacl_crypto/annotated_hacl_primitives/Hacl_HMAC.c:45-68 | the static key block holds the padded key, or the padded hash of a key longer than a block, whatever it held before |
| `Hmac.HmacStatics.InnerHash` | benchmarks/performance/hacl_crypto/annotated_hacl_primitives/Hacl_HMAC.c:95-129 | the three branches on the message length give the hash of the inner pad followed by the message |
| `Hmac.HmacStatics.Compute` | benchmarks/performance/hacl_crypto/annotated_hacl_primitives/Hacl_HMAC.c:36-158 | H((K^opad) || H((K^ipad) || m)) of RFC 2104, section 2, on all branches and from any static contents |
| `HmacExample.MacOfMessage` | benchmarks/performance/hacl_crypto/annotated_hacl_primitives/Hacl_HMAC.c:36-158 | for the key "Jefe" and the message "what do ya want for nothing?" the value is 5bdcc146 bf60754e 6a042426 089575c7 5a003f08 9d273983 9dec58b9 64ec3843 (section 4.3 of RFC 4231); four compressions of blocks that follow each other |
| `Hmac.ComputeFresh` | benchmarks/performance/hacl_crypto/hacl_primitives/Hacl_HMAC.c:35-153 | the same value with fresh storage |
| `Hkdf.StreamPrefix` | benchmarks/performance/hacl_crypto/hacl_primitives/Hacl_HKDF.c:29-76 | fewer blocks of T(1) || T(2) || ... begin more of them |
| `Hkdf.StreamBlock` | benchmarks/performance/hacl_crypto/hacl_primitives/Hacl_HKDF.c:29-76 | block m of the stream is the MAC of the block before it, which is empty for m = 1, the info and the counter byte (section 2.3 of RFC 5869) |
| `Hkdf.HkdfStatics.NextTag` | benchmarks/performance/hacl_crypto/annotated_hacl_primitives/Hacl_HKDF.c:51-62 | the one buffer, used as input and as output of the MAC, holds T(n) before and T(n+1) after |
| `Hkdf.HkdfStatics.Expand` | benchmarks/performance/hacl_crypto/annotated_hacl_primitives/Hacl_HKDF.c:33-79 | the first `len` bytes of T(1) || T(2) || ... of RFC 5869, section 2.3, from any static contents |
| `Hkdf.ExpandFresh` | benchmarks/performance/hacl_crypto/hacl_primitives/Hacl_HKDF.c:29-76 | the same value with fresh storage |
| `Hkdf.Extract` | benchmarks/performance/hacl_crypto/hacl_primitives/Hacl_HKDF.c:78-88 | the MAC of the input keying material under the salt |
| `Chacha20.QuarterRoundAt` | benchmarks/performance/hacl_crypto/hacl_primitives/Hacl_Chacha20.c:34-68 | the updates in place are the quarter round on four different words of the state |
| `Chacha20.Core` | benchmarks/performance/hacl_crypto/hacl_primitives/Hacl_Chacha20.c:96-110 | the block function of section 2.3 of RFC 8439 with the counter advanced |
| `Chacha20Example.QuarterExample` | benchmarks/performance/hacl_crypto/hacl_primitives/Hacl_Chacha20.c:34-68 | the quarter round of 11111111, 01020304, 9b8d6f43, 01234567 is ea2a92f4, cb1cf8ce, 4581472e, 5881c4bb (section 2.1.1 of RFC 8439) |
| `Chacha20Example.BlockExample` | benchmarks/performance/hacl_crypto/hacl_primitives/Hacl_Chacha20.c:96-135 | the block of section 2.3.2 for the key 00 01 .. 1f, its nonce and counter 1 |
| `Chacha20Example.CoreExample` | benchmarks/performance/hacl_crypto/hacl_primitives/Hacl_Chacha20.c:96-135 | the same block from the code that sets up the state and runs the rounds |
| `Chacha20Example.Letters` | benchmarks/performance/hacl_crypto/hacl_primitives/Hacl_Chacha20.c:112-135 | the first four words of the state are the letters "expand 32-byte k" |
| `Chacha20Example.CipherIs` | benchmarks/performance/hacl_crypto/hacl_primitives/Hacl_Chacha20.c:149-231 | byte k of word i of block n of any text is xored with byte k, least significant first, of word i of the block function of the initial state with the counter n more (section 2.4) |
| `Chacha20Example.BytesLoaded` | benchmarks/performance/hacl_crypto/hacl_primitives/Hacl_Chacha20.c:149-176 | the bytes of a word, least significant first, load back to it |
| `Chacha20.CipherTwice` | benchmarks/performance/hacl_crypto/hacl_primitives/Hacl_Chacha20.c:203-231 | enciphering twice gives the text back, for every state and length |
| `Chacha20.CipherBlock` | benchmarks/performance/hacl_crypto/hacl_primitives/Hacl_Chacha20.c:149-185 | a block of text XORed with key block i is that part of the cipher of the whole text, also for a block cut off |
| `StaticChacha20.ChachaStatics.EncryptBlock` | benchmarks/performance/hacl_crypto/annotated_hacl_primitives/Hacl_Chacha20.c:178-209 | from any contents of the static arrays, one block of text XORed with the key block |
| `StaticChacha20.ChachaStatics.EncryptLast` | benchmarks/performance/hacl_crypto/annotated_hacl_primitives/Hacl_Chacha20.c:211-218 | only `len` bytes of the stale buffer are refreshed, and only those reach the output |
| `StaticChacha20.ChachaStatics.Update` | benchmarks/performance/hacl_crypto/annotated_hacl_primitives/Hacl_Chacha20.c:220-234 | the cipher of the whole text, whatever the static arrays held; no other byte is written |
| `StaticChacha20.EncryptFresh` | benchmarks/performance/hacl_crypto/hacl_primitives/Hacl_Chacha20.c:203-216 | the same cipher with fresh storage |
| `StaticChacha20.Benchmark` | benchmarks/performance/hacl_crypto/annotated_hacl_primitives/Hacl_Chacha20.c:236-264 | encrypting and then decrypting over the same static storage restores every text |
| `MergeSpec.MergeStable` | benchmarks/performance/coremark/core_list_join.c:527-576 | merging takes from the first run on equal keys, so equal keys keep their order |
| `MergeSpec.PassesSort` | benchmarks/performance/coremark/core_list_join.c:504-592 | passes with doubling run length give a sorted permutation in which equal keys keep their order |
| `MergeSpec.StableSortUnique` | benchmarks/performance/coremark/core_list_join.c:477-500 | there is only one stable sorted arrangement, so this one is it |
| `MergeSpec.SortingRestores` | benchmarks/performance/coremark/core_list_join.c:484-488 | a sequence in the order of distinct keys is what sorting makes of every rearrangement of it |
| `CoreMarkList.MergeRuns` | benchmarks/performance/coremark/core_list_join.c:530-576 | the loop relinks two runs into their merge behind what is already merged |
| `CoreMarkList.PassOver` | benchmarks/performance/coremark/core_list_join.c:508-583 | one pass over the linked list is one pass on the sequence, for every length, and compares every node once a pass does two merges or more |
| `CoreMarkList.MergeSort` | benchmarks/performance/coremark/core_list_join.c:499-595 | for every non-empty list and every comparator, those that write to the data included: the same nodes, sorted, equal keys in order, properly linked; from two nodes on every node's data have been compared, with what that does to them |
| `CoreMarkList.CalcFunc` | benchmarks/performance/coremark/core_list_join.c:76-113 | with bit 7 of the data set they stay and their low seven bits are the result; with bit 7 clear the result is the low seven bits of what the kernel computes, which replace those of the data, bit 7 is set and the high byte stays |
| `CoreMarkList.SortByValue` | benchmarks/performance/coremark/core_list_join.c:119-126 | sorting by calculated value: every node ends with bit 7 set and the low seven bits it had if bit 7 was set before, else those of what its kernel computes, and with its high byte; the nodes are in the order of these seven bits, equal ones in the order before |
| `CoreMarkList.RegenBytes` | benchmarks/performance/coremark/core_list_join.c:133-142 | regeneration copies the high byte into the low one and keeps the high byte |
| `CoreMarkList.SortByIndex` | benchmarks/performance/coremark/core_list_join.c:128-142 | sorting by index restores the list: from any rearrangement of nodes with distinct indices exactly the sequence in index order, with every low data byte equal to its high byte |
| `JpegBits.Reader.GetOctet` | benchmarks/performance/embench/src/picojpeg/libpicojpeg.c:306-323 | the next octet: on stuffed data, whatever follows, the next octet before stuffing, and the input moves on to the rest of the stuffed data |
| `JpegBits.Unstuffed` | benchmarks/performance/embench/src/picojpeg/libpicojpeg.c:306-323 | reading with the check undoes stuffing: from the bytes s with a zero after every 0xFF, followed by anything, the bits of s are read and reading goes on behind |
| `JpegBits.Unchecked` | benchmarks/performance/embench/src/picojpeg/libpicojpeg.c:306-323 | reading without the check delivers the bytes as they are |
| `JpegBits.MarkerStays` | benchmarks/performance/embench/src/picojpeg/libpicojpeg.c:311-320 | 0xFF before anything but zero is delivered again and again and never passed |
| `JpegBits.EndMarker` | benchmarks/performance/embench/src/picojpeg/libpicojpeg.c:279-294 | behind the end of the file the characters are 0xFF and 0xD9 in turn, so that with the check only 0xFF is delivered |
| `JpegBits.Reader.GetBits` | benchmarks/performance/embench/src/picojpeg/libpicojpeg.c:326-362 | the result is the next n bits of the stream, on stuffed data those of the octets before stuffing, and exactly those are consumed |
| `JpegBits.Reader.GetBit` | benchmarks/performance/embench/src/picojpeg/libpicojpeg.c:379-397 | the same for a single bit |
| `JpegBits.Reader.constructor` | benchmarks/performance/embench/src/picojpeg/libpicojpeg.c:1102-1106 | the state before anything is read is valid: sixteen zeros ahead of the whole file |
| `JpegBits.Reader.Prime` | benchmarks/performance/embench/src/picojpeg/libpicojpeg.c:1106-1109 | two reads of eight bits from any state of the bit buffer put the next octet into it and make what is ahead exactly the stream from the present position on |
| `JpegBits.Reader.FixInBuffer` | benchmarks/performance/embench/src/picojpeg/libpicojpeg.c:1117-1130 | the bytes taken into the bit buffer without the check for stuffed zeros go back into the input, and what is ahead is the stream read from them on with the check |
| `JpegBits.ThrownBackBits` | benchmarks/performance/embench/src/picojpeg/libpicojpeg.c:1117-1130 | the bytes that go back carry the bits held, filled up with zeros to one or two bytes |
| `JpegBits.MovedTwice` | benchmarks/performance/embench/src/picojpeg/libpicojpeg.c:326-397 | reads one after the other consume the stream consecutively, for any mix of sizes |
| `JpegHuffman.HuffTable.Create` | benchmarks/performance/embench/src/picojpeg/libpicojpeg.c:530-566 | for any sixteen counts the table holds the first code, the last code and the first symbol index of each length, cut to the fields' widths |
| `JpegHuffman.CodeWordsK3` | benchmarks/performance/embench/src/picojpeg/libpicojpeg.c:530-566 | the canonical codes for the counts of table K.3 of ITU-T T.81 are 00, 010, 011, 100, 101, 110, 1110, 11110 and so on |
| `JpegHuffman.DecodesCode` | benchmarks/performance/embench/src/picojpeg/libpicojpeg.c:499-527 | on a symbol's canonical code (section C.2 of ITU-T T.81) the loop ends at exactly its length, unless it is a 16-bit code while the code of sixteen ones is in use, when it finds none |
| `JpegHuffman.AllOnesFails` | benchmarks/performance/embench/src/picojpeg/libpicojpeg.c:514-518 | a valid list of counts with the code of sixteen ones, and a symbol of it that is not found |
| `JpegHuffman.EndsAtCode` | benchmarks/performance/embench/src/picojpeg/libpicojpeg.c:499-527 | conversely, wherever the loop ends it has read the code of an existing symbol |
| `JpegHuffman.SymbolDecoded` | benchmarks/performance/embench/src/picojpeg/libpicojpeg.c:499-527 | if the next bits are the code word of rank k of length l, the loop ends there, at place k behind the symbols of shorter codes |
| `JpegHuffman.HuffDecode` | benchmarks/performance/embench/src/picojpeg/libpicojpeg.c:495-527 | for the table of any counts the symbol at the first length that matches is returned, or 0 after 17 bits when none does, and it is reported when the C would read it outside the list of values; for valid counts, if the next bits are a code word, its own symbol is returned and exactly the code word is consumed, except for 16-bit words when the code of sixteen ones is in use |
| `AesTables.InvSubSub` | benchmarks/performance/embench/src/nettle-aes/nettle-aes.c:391-428 | the inverse S-box undoes the S-box, entry by entry |
| `AesField.SubByteIsInversion` | benchmarks/performance/embench/src/nettle-aes/nettle-aes.c:88-122 | the S-box value is the affine map of the inverse in GF(256) modulo x^8+x^4+x^3+x+1 and of no other byte, zero counting as its own inverse |
| `AesField.ProductLaws` | benchmarks/performance/embench/src/nettle-aes/nettle-aes.c:855-869 | the product used for this is commutative and associative and distributes over addition |
| `AesField.MixByProducts` | benchmarks/performance/embench/src/nettle-aes/nettle-aes.c:855-869 | the columns of MixColumns are products with 2, 1, 1 and 3, those of InvMixColumns with 14, 9, 13 and 11 |
| `AesTables.EncryptEntry` | benchmarks/performance/embench/src/nettle-aes/nettle-aes.c:123-189 | an entry of the encryption table is the mixed column of the S-box value |
| `AesTables.DecryptEntry` | benchmarks/performance/embench/src/nettle-aes/nettle-aes.c:429-495 | an entry of the decryption table is the inversely mixed column of the inverse S-box value |
| `AesTables.KeyEntry` | benchmarks/performance/embench/src/nettle-aes/nettle-aes.c:787-853 | an entry of the subkey table is the inversely mixed column of the byte |
| `AesRotated.EncryptTables` | benchmarks/performance/embench/src/nettle-aes/nettle-aes.c:190-387 | the entries of encryption tables 1 to 3 are those of table 0 turned by 8, 16 and 24 bits |
| `AesRotated.DecryptTables` | benchmarks/performance/embench/src/nettle-aes/nettle-aes.c:496-693 | the same for the decryption tables |
| `Aes.InvMixMix` | benchmarks/performance/embench/src/nettle-aes/nettle-aes.c:855-869 | InvMixColumns undoes MixColumns on every column, in GF(256) modulo x^8+x^4+x^3+x+1 |
| `Aes.InvMixColAdd` | benchmarks/performance/embench/src/nettle-aes/nettle-aes.c:855-869 | InvMixColumns is linear, so it may be applied to state and subkey separately |
| `AesCipher.EncryptRoundIs` | benchmarks/performance/embench/src/nettle-aes/nettle-aes.c:74-78 | a table round is SubBytes, ShiftRows, MixColumns and AddRoundKey on one column |
| `AesCipher.DecryptRoundIs` | benchmarks/performance/embench/src/nettle-aes/nettle-aes.c:74-78 | the same for the inverse steps |
| `AesContext.SetKeyWords` | benchmarks/performance/embench/src/nettle-aes/nettle-aes.c:722-750 | the key expansion of section 5.2 of FIPS 197, for every number of key words and rounds the round constants suffice for |
| `AesStandard.GroupExpands` | benchmarks/performance/embench/src/nettle-aes/nettle-aes.c:734-750 | the expanded key consists of groups of nk words, each following from the group before by the rule of section 5.2 |
| `AesStandard.RoundConstants` | benchmarks/performance/embench/src/nettle-aes/nettle-aes.c:726-730 | the round constants are the powers of x in the field |
| `AesContext.MixColumn` | benchmarks/performance/embench/src/nettle-aes/nettle-aes.c:855-869 | the four table look-ups and rotations are InvMixColumns |
| `AesContext.ReverseInPlace` | benchmarks/performance/embench/src/nettle-aes/nettle-aes.c:882-889 | swapping groups of four from both ends reverses their order, for every round count |
| `AesContext.ReverseCopy` | benchmarks/performance/embench/src/nettle-aes/nettle-aes.c:890-897 | the copying branch gives the same order |
| `AesContext.Invert` | benchmarks/performance/embench/src/nettle-aes/nettle-aes.c:875-903 | both branches end with the same subkeys: reversed, all but the first and last inversely mixed |
| `AesCipher.DecryptEncrypt` | benchmarks/performance/embench/src/nettle-aes/nettle-aes.c:926-1026 | for any subkeys and any number of rounds, decryption with the inverted subkeys undoes encryption (section 5.3.5 of FIPS 197) |
| `AesCipher.DecryptEncryptData` | benchmarks/performance/embench/src/nettle-aes/nettle-aes.c:926-1026 | the same for messages of any number of whole blocks |
| `AesContext.EncryptBlocks` | benchmarks/performance/embench/src/nettle-aes/nettle-aes.c:926-975 | every block of the message is encrypted, in place too, and nothing behind it is written |
| `AesContext.DecryptBlocks` | benchmarks/performance/embench/src/nettle-aes/nettle-aes.c:978-1026 | the same for decryption |
| `AesStandard.ShiftRows` | benchmarks/performance/embench/src/nettle-aes/nettle-aes.c:948-951 | byte r of column c after SubBytes and ShiftRows is the S-box value of byte r of the column r places further on (sections 5.1.1 and 5.1.2) |
| `AesStandard.InvShiftRows` | benchmarks/performance/embench/src/nettle-aes/nettle-aes.c:1000-1003 | the inverse takes it back there |
| `AesStandard.MixColumn` | benchmarks/performance/embench/src/nettle-aes/nettle-aes.c:123-189 | MixColumns multiplies a column with 2, 3, 1 and 1 in turn (section 5.1.3) |
| `AesStandard.BlockByBlock` | benchmarks/performance/embench/src/nettle-aes/nettle-aes.c:926-1026 | every block of a message is enciphered and deciphered by itself, in its place |
| `AesExample.EncryptionExample` | benchmarks/performance/embench/src/nettle-aes/nettle-aes.c:926-975 | for the key 00 01 .. 1f the key expansion and the fourteen rounds turn 00112233445566778899aabbccddeeff into 8ea2b7ca516745bfeafc49904b496089 (appendix C.3 of FIPS 197) |
| `AesExample.ContextExample` | benchmarks/performance/embench/src/nettle-aes/nettle-aes.c:755-781 | the same from the code that sets the key and encrypts |
| `AesContext.AesCtx.SetEncryptKey` | benchmarks/performance/embench/src/nettle-aes/nettle-aes.c:755-781 | key sizes from 16 to 32 are cut to 16, 24 or 32 bytes, with the matching rounds and expanded key |
| `AesContext.AesCtx.SetDecryptKey` | benchmarks/performance/embench/src/nettle-aes/nettle-aes.c:915-922 | the context holds the inverted encryption subkeys of the same key |
| `AesContext.RoundTrip` | benchmarks/performance/embench/src/nettle-aes/nettle-aes.c:1158-1175 | for every key of 16 to 32 bytes and every message of whole blocks, what is encrypted is restored by decryption |

## Left out

- HuffBench.CompDecomp: where the C reads on outside the decode table or the compressed data its behaviour is undefined; the model ends there with the outcome `RanOutside`. The four allocations are taken to succeed.
- HuffBuild.CountFrequencies: the counts are unbounded numbers, as `size_t` cannot wrap for a buffer that fits memory.
- RbTree.Cmp: overflow of a signed subtraction is undefined in C; it is modelled as wrap-around, as the target does it.
- QuickSort.QuickSort: indices are numbers below 2^64, as the comment promises, instead of `int`; all of them stay between 0 and `max`, so for `max` below 2^31 an `int` holds them.
- CoreMarkList.MergeSort: the kernels that `calc_func` calls are any function from list items to results, and the checksums they leave in `res` are not modelled; `insize` is a number, which the proof keeps below the length of the list.
- StaticChacha20.ChachaStatics.Update: the single words declared static (`x`, `u`, `sta` and the like) are locals, since each is written before it is read in the same call; the arrays are fields.
- Hmac.HmacStatics.Compute: the static single bytes `xi` and `yi` are locals, for the same reason.
- Hkdf.HkdfStatics.Expand: the counter is one byte, as in the code, so T(n) beyond n = 255 goes on with the counter modulo 256; the standard allows only 255 blocks.
- JpegBits.Reader.FillInBuf: the callback delivers some bytes of the file, at most the buffer's size, and none only at its end; its error status is not modelled.
- JpegBits.Reader.FixInBuffer: it needs room for two bytes in the input buffer, which its one caller leaves.
- JpegHuffman.HuffDecode: where the index is outside the list of values, the result is not the byte the C would find there but `inside` is false.
- AesContext.EncryptBlocks: source and destination are the same array or different ones; overlaps at other offsets are not modelled.
- Salsa20: the same shape as ChaCha20 with no new difficulty.
- The rest of picojpeg (markers, inverse transform, colour conversion) and of qrencode (masks, frame layout).
- sglib's hash tables, heap macros, lists and the search and map macros on trees.
- The other embench kernels, the driver loops with their expected values, the newlib port, the simulation and the Python scripts.
