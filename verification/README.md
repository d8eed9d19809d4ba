# string_bimap: a dictionary between ids and strings, with its xcdat trie, hat-trie, array hash and snapshots

A `StringBimap` maps ids to strings and strings to ids. It has three parts: a compacted base, a mutable delta, and
a set of deleted ids. This project models it from the bit operations up, and proves that its parts act as one map.

- **The base** is searched, for the compact profile, through an xcdat trie. The model builds the XOR-addressed
  double array with its free list threaded through the unused slots, every node by first fit (`FreeList`,
  `DoubleArray`, `FirstFit`, `TrieBuilder`, `Layout`), shares the suffixes of the leaves (`TailVector`), renumbers the
  bytes by frequency (`CodeTable`), packs
  BASE and CHECK into levels of small entries (`BcVector8`, `BcVector7`, `CompactVector`) and finds its way through
  them by rank and select on bit vectors (`BitVector`, `Packed`). `Trie` and `Predictive` are the searches.
- **The delta** has an index of its own (`DeltaIndex`): a plain map, an array hash (`GrowthPolicy`, `ArrayBucket`,
  `ArrayHash`), or a hat-trie whose leaves are array hashes (`HatTree`, `HatTrie`) and whose keys with a prefix are met
  by a walk (`HatOrder`, `HatIterator`).
- **The dictionary** puts them together (`Tombstones`, `Segments`, `DeltaSegment`, `BaseSegment`, `Strays`, `StringBimap`), is
  described over whole runs by maps (`Dictionary`), and is saved and loaded through `Serialization` and `Snapshot`.

Machine words are natural numbers below 2^64 with bit operations defined digit by digit (`Bits`); where the source
wraps around or cuts off, the model says so. Bytes are numbers below 256. What the source updates in place is a class
whose methods state the whole new state; each class carries the abstract value it stands for in ghost fields. Other
entities are values. Hash functions are arbitrary functions from strings to numbers, and the answers of the source's
tests on load factors and leftover values are arbitrary booleans, so that what is proved holds for all of them.

`Key` is a byte string. "Text mode" is the trie without null bytes in its keys, "binary mode" the other one.

## Model

| member | source | states |
|---|---|---|
| `BitVector.Builder.PushBack` | vcpkg_ports/xcdat/include/xcdat/bit_vector.hpp:33-41 | the contents grow by the bit at the end; unused bits of the last word stay clear |
| `BitVector.Builder.SetBit` | vcpkg_ports/xcdat/include/xcdat/bit_vector.hpp:47-53 | exactly one bit of the contents changes |
| `BitVector.BuildRankHints` | vcpkg_ports/xcdat/include/xcdat/bit_vector.hpp:212-256 | every full block gets the ones before it and its seven packed sub-ranks, and a partial last block a sentinel that repeats its packed sub-ranks |
| `BitVector.Rank` | vcpkg_ports/xcdat/include/xcdat/bit_vector.hpp:117-126 | for every vector and every i up to its size, the number of ones before i |
| `BitVector.BuildSelectHints` | vcpkg_ports/xcdat/include/xcdat/bit_vector.hpp:258-269 | hint i marks the block where the rank as read from the table passes 1024 (i + 1), the last hint is the number of blocks |
| `BitVector.SelectForBlock` | vcpkg_ports/xcdat/include/xcdat/bit_vector.hpp:194-210 | the hints and the binary search find the block that holds bit n if and only if `SelectExact` holds, that is, n lies before a partial last block or below its sentinel |
| `BitVector.SelectInBlock` | vcpkg_ports/xcdat/include/xcdat/bit_vector.hpp:129-148 | the packed 9-bit comparison picks the word of the block that holds bit n |
| `BitVector.Select` | vcpkg_ports/xcdat/include/xcdat/bit_vector.hpp:129-148 | under `SelectExact` the result is the position of the n-th one: it is set and n ones come before it |
| `BitVector.MultipleOf256` | vcpkg_ports/xcdat/include/xcdat/trie_builder.hpp:138-147 | vectors of a multiple of four words, as the trie has them, are exact for every n up to 2^27 ones |
| `BitVector.SentinelExample` | vcpkg_ports/xcdat/include/xcdat/bit_vector.hpp:249-252 | fifteen words with a one in the first and in the last: select is exact for 0 and not for 1 |
| `Packed.UleqFields` | vcpkg_ports/xcdat/include/xcdat/bit_tools.hpp:69-71 | the subtraction trick compares all 9-bit fields at once: the mask bit of a field is set exactly when the field is at most the value |
| `Packed.OffsetCounts` | vcpkg_ports/xcdat/include/xcdat/bit_vector.hpp:129-148 | multiplying the comparison by the repeated one and shifting gives the number of sub-ranks not above the value |
| `CompactVector.WriteBits` | vcpkg_ports/xcdat/include/xcdat/compact_vector.hpp:27-47 | a write holds the value afterwards, across a word boundary if need be, and changes no other bit |
| `CompactVector.Build` | vcpkg_ports/xcdat/include/xcdat/compact_vector.hpp:27-47 | refused exactly for the empty list; else every element is stored in its bits, and the width is no more than the greatest element needs |
| `CompactVector.GetStored` | vcpkg_ports/xcdat/include/xcdat/compact_vector.hpp:49-57 | reading element i gives element i of the list that was packed |
| `CodeTable.SortByFrequency` | vcpkg_ports/xcdat/include/xcdat/code_table.hpp:32-64 | a permutation of the counters with falling frequencies |
| `CodeTable.Build` | vcpkg_ports/xcdat/include/xcdat/code_table.hpp:32-64 | the codes are a permutation of the bytes by falling frequency with its inverse behind it, and the alphabet lists exactly the bytes that occur, ascending |
| `CodeTable.HasNullReads` | vcpkg_ports/xcdat/include/xcdat/code_table.hpp:83-85 | the probe reads through a null pointer exactly when no key has a byte, and else tells whether a null byte occurs |
| `FreeList.UnlinkKeepsFreeList` | vcpkg_ports/xcdat/include/xcdat/trie_builder.hpp:106-118 | taking a slot out keeps the list ascending, doubly linked and complete, the heads right and every slot outside the list as it was |
| `FreeList.SpliceKeepsFreeList` | vcpkg_ports/xcdat/include/xcdat/trie_builder.hpp:138-165 | a fresh block joins the list at its end with the heads of its own; the free slots are the old ones and those of the block |
| `TrieBuilder.TrieBuilder.UseUnit` | vcpkg_ports/xcdat/include/xcdat/trie_builder.hpp:106-118 | the slot is used, its neighbours are linked to each other, and the head of its block moves on if it was the head |
| `TrieBuilder.TrieBuilder.CloseBlock` | vcpkg_ports/xcdat/include/xcdat/trie_builder.hpp:120-136 | the free-list invariant holds with the block closed, its unused slots carry their own numbers, and no used slot changes |
| `TrieBuilder.TrieBuilder.Expand` | vcpkg_ports/xcdat/include/xcdat/trie_builder.hpp:138-165 | one more block, all of it free, at most sixteen open blocks, and nothing else changed |
| `TrieBuilder.TrieBuilder.IsTarget` | vcpkg_ports/xcdat/include/xcdat/trie_builder.hpp:255-262 | true exactly when the slots of all edges are unused |
| `TrieBuilder.TrieBuilder.XCheck` | vcpkg_ports/xcdat/include/xcdat/trie_builder.hpp:232-253 | first fit: the least base of the block given that fits, else the least that fits at all, else one in a fresh block; the search ends |
| `FirstFit.SlotChosen` | vcpkg_ports/xcdat/include/xcdat/trie_builder.hpp:232-253 | first fit allows exactly one slot, and a plain scan over the taken slots of the last sixteen blocks finds it |
| `TrieBuilder.TrieBuilder.PickBase` | vcpkg_ports/xcdat/include/xcdat/trie_builder.hpp:205-208 | over the slots taken before the call, the first child falls on the slot of first fit for the block given; a block is added only if none fits, and all targets are free |
| `TrieBuilder.TrieBuilder.Finish` | vcpkg_ports/xcdat/include/xcdat/trie_builder.hpp:167-172 | every unused slot carries its own number, and no used slot changes |
| `TrieBuilder.TrieBuilder.FetchEdges` | vcpkg_ports/xcdat/include/xcdat/trie_builder.hpp:174-230 | the edges are the distinct bytes of the keys at the depth, ascending, with the range of keys of each; an error is justified by the keys |
| `TrieBuilder.TrieBuilder.Arrange` | vcpkg_ports/xcdat/include/xcdat/trie_builder.hpp:174-230 | the recursion ends, completes the subtree of its node without touching any other, finds the keys ascending or fails with an error they justify, and bounds the slots and the suffix bytes it takes; the nodes it adds and the slots it takes are those of the plan `FirstFit.Subtree` |
| `TrieBuilder.Construct` | vcpkg_ports/xcdat/include/xcdat/trie_builder.hpp:45-95 | for every list it can read, it completes if and only if the list is strictly sorted and has a non-empty key; then the layout invariant holds, and every node stands where the plan `FirstFit.Laid` puts it, which depends on the keys and the codes alone; else the error is justified, or the null-byte probe reads through a null pointer exactly when there are keys and all are empty |
| `Layout.EdgeExact` | vcpkg_ports/xcdat/include/xcdat/trie_builder.hpp:174-230 | for every inner node and every byte the check holds exactly when some key goes on from the node's path with the byte |
| `Layout.TermsCountKeys` | vcpkg_ports/xcdat/include/xcdat/trie_builder.hpp:174-230 | as many terminal flags are raised as there are keys |
| `Layout.IdsNumber` | vcpkg_ports/xcdat/include/xcdat/trie.hpp:325-327 | the ranks of the terminal nodes are a bijection from the keys onto the numbers below their count |
| `Layout.OneNumbering` | vcpkg_ports/xcdat/include/xcdat/trie.hpp:325-327 | the places of the nodes decide the numbers: how many keys end in an earlier slot |
| `TailVector.BackLessIs` | vcpkg_ports/xcdat/include/xcdat/tail_vector.hpp:69-73 | the order of the suffixes: by the last byte in which they differ, bytes from 128 on below all others, and a suffix that ends another one below it |
| `TailVector.SortedShares` | vcpkg_ports/xcdat/include/xcdat/tail_vector.hpp:69-80 | in the order from the ends, a suffix that ends another one ends the one right behind it, or is equal to one before it: comparing neighbours misses no sharing |
| `TailVector.Complete` | vcpkg_ports/xcdat/include/xcdat/tail_vector.hpp:69-114 | at the position given to each leaf its own suffix is stored, in text mode and in binary mode, whatever is shared, in no more bytes than the suffixes have and one |
| `TailVector.Match` | vcpkg_ports/xcdat/include/xcdat/tail_vector.hpp:139-168 | at a position with a suffix, true exactly for that suffix, and never out of bounds; without a position, true for the empty rest only, or a read past the end of a tail of one byte |
| `TailVector.MatchBin` | vcpkg_ports/xcdat/include/xcdat/tail_vector.hpp:139-157 | the answer of the binary branch where a run of characters begins: equality up to the next terminal flag, or past the end |
| `TailVector.PrefixMatch` | vcpkg_ports/xcdat/include/xcdat/tail_vector.hpp:171-207 | the length of whichever of suffix and query begins the other, and nothing when neither does |
| `TailVector.Decode` | vcpkg_ports/xcdat/include/xcdat/tail_vector.hpp:209-221 | the suffix stored at the position, and nothing at position 0 |
| `BcVector8.Build` | vcpkg_ports/xcdat/include/xcdat/bc_vector_8.hpp:34-86 | for every array with a leaf, the levels spell every base and check as differences from the slot number; the free units are counted |
| `BcVector8.Access` | vcpkg_ports/xcdat/include/xcdat/bc_vector_8.hpp:139-147 | following the flags up the levels by rank collects exactly the number that was put in |
| `BcVector8.Base` | vcpkg_ports/xcdat/include/xcdat/bc_vector_8.hpp:88-90 | the base of every slot that is no leaf |
| `BcVector8.Check` | vcpkg_ports/xcdat/include/xcdat/bc_vector_8.hpp:92-94 | the check of every slot |
| `BcVector8.Link` | vcpkg_ports/xcdat/include/xcdat/bc_vector_8.hpp:96-98 | the base of every leaf, from its low byte and the compact vector of the rest |
| `BcVector7.Build` | vcpkg_ports/xcdat/include/xcdat/bc_vector_7.hpp:40-119 | as for the byte levels, with entries of 7, 15 and 31 bits beside a tag that cuts nothing off, and whole words behind them |
| `BcVector7.PointerHolds` | vcpkg_ports/xcdat/include/xcdat/bc_vector_7.hpp:52-87 | an entry that holds an offset from the start of its block leads to the entry of the next level: the offset fits the narrow word |
| `BcVector7.Base` | vcpkg_ports/xcdat/include/xcdat/bc_vector_7.hpp:121-123 | the base of every slot that is no leaf |
| `BcVector7.Check` | vcpkg_ports/xcdat/include/xcdat/bc_vector_7.hpp:125-127 | the check of every slot |
| `BcVector7.Link` | vcpkg_ports/xcdat/include/xcdat/bc_vector_7.hpp:129-131 | the base of every leaf |
| `Trie.Build` | vcpkg_ports/xcdat/include/xcdat/trie.hpp:63-66 | there is a trie exactly for strictly sorted lists with a non-empty key; it represents the keys under a numbering of them, in binary mode when asked to or when a null byte occurs, with the nodes where the plan puts them and in the encoding asked for |
| `Trie.FirstFitNumbers` | vcpkg_ports/xcdat/include/xcdat/trie.hpp:325-327 | the numbers are those that the plan gives, and no others: they depend on the keys and the codes alone |
| `Trie.Lookup` | vcpkg_ports/xcdat/include/xcdat/trie.hpp:108-129 | stored keys get their own number; in text mode there is a number exactly for stored keys; in binary mode an answer that is not exact is one of the two strays described under Findings |
| `Trie.LookupIs` | vcpkg_ports/xcdat/include/xcdat/trie.hpp:108-129 | the answer on every query, as a function of keys, mode and query alone |
| `Trie.LookupExact` | vcpkg_ports/xcdat/include/xcdat/tail_vector.hpp:139-157 | lookup is right on a query if and only if it is not in binary mode or no bare key is taken for the query |
| `Trie.PhantomExample` | vcpkg_ports/xcdat/include/xcdat/tail_vector.hpp:139-157 | keys "a" and "b", NUL, "c": the query "a", NUL, NUL, "c" is no key and is taken for "a" |
| `Trie.GreatestRestExample` | vcpkg_ports/xcdat/include/xcdat/tail_vector.hpp:69-73 | with the keys "a", "b" NUL x and "d" NUL y, where y is above x as a signed byte, the query "a" NUL NUL y is taken for "a" and "a" NUL NUL x is not |
| `Trie.OverreadExample` | vcpkg_ports/xcdat/include/xcdat/tail_vector.hpp:139-157 | keys NUL and "a": the query "a", NUL, 1 runs past the end of the tail |
| `Trie.Climb` | vcpkg_ports/xcdat/include/xcdat/trie.hpp:141-161 | the climb through the checks reaches the root and collects the bytes of the path backwards |
| `Trie.Decode` | vcpkg_ports/xcdat/include/xcdat/trie.hpp:141-161 | the key with the number, and nothing for a number that is none |
| `Trie.DecodeOfLookup` | vcpkg_ports/xcdat/include/xcdat/trie.hpp:108-161 | decode after lookup gives every stored key back, and in text mode nothing for any other |
| `Trie.LookupOfDecode` | vcpkg_ports/xcdat/include/xcdat/trie.hpp:108-161 | lookup after decode gives every number below the count back, in both modes |
| `Predictive.PredictiveIterator.Next` | vcpkg_ports/xcdat/include/xcdat/trie.hpp:388-466 | each call reports the next key to be reported with its number and text, and false once there is none |
| `Predictive.PredictiveSearch` | vcpkg_ports/xcdat/include/xcdat/trie.hpp:279-290 | the reported keys are exactly the hits of the query, each once, ascending, with number and text |
| `Predictive.ExactUnlessOverrun` | vcpkg_ports/xcdat/include/xcdat/tail_vector.hpp:194-205 | the hits are the keys that begin with the query if and only if the query runs past no key that ends in a tail |
| `Predictive.OverrunExample` | vcpkg_ports/xcdat/include/xcdat/tail_vector.hpp:194-205 | a query of two bytes finds the only key, its first byte |
| `Predictive.Enumerate` | vcpkg_ports/xcdat/include/xcdat/trie.hpp:297-302 | every key once, in ascending order, with its number and text |
| `GrowthPolicy.PowerOfTwo` | vcpkg_ports/hat-trie/include/tsl/array-hash/array_growth_policy.h:125-127 | the trick with the predecessor holds exactly for the powers of two |
| `GrowthPolicy.RoundUpToPowerOfTwo` | vcpkg_ports/hat-trie/include/tsl/array-hash/array_growth_policy.h:108-123 | the least power of two that is not below the value |
| `GrowthPolicy.Policy` | vcpkg_ports/hat-trie/include/tsl/array-hash/array_growth_policy.h:59-71 | refused exactly above 2^63; else the least power that is enough, with its mask, and 0 for 0 |
| `GrowthPolicy.BucketInside` | vcpkg_ports/hat-trie/include/tsl/array-hash/array_growth_policy.h:77-79 | every hash has its bucket inside the table, and bucket 0 when there is none |
| `GrowthPolicy.BucketIsRemainder` | vcpkg_ports/hat-trie/include/tsl/array-hash/array_growth_policy.h:77-79 | the bucket of a hash is its remainder by the number of buckets |
| `GrowthPolicy.NextIsPower` | vcpkg_ports/hat-trie/include/tsl/array-hash/array_growth_policy.h:84-90 | growth by a power of two leads from a power to a greater power |
| `ArrayBucket.FindOrEnd` | vcpkg_ports/hat-trie/include/tsl/array-hash/array_hash.h:634-650 | on the bytes of a bucket: the place of the entry with the key, or the place of the end marker when no entry has it |
| `ArrayBucket.Append` | vcpkg_ports/hat-trie/include/tsl/array-hash/array_hash.h:459-500 | the bytes of the bucket with one more entry at the end; refused exactly for a key that is too long |
| `ArrayBucket.AppendReserved` | vcpkg_ports/hat-trie/include/tsl/array-hash/array_hash.h:556-565 | the same in a buffer that has the room, without moving it |
| `ArrayBucket.EraseAt` | vcpkg_ports/hat-trie/include/tsl/array-hash/array_hash.h:502-529 | the bytes of the bucket without the entry; the entry behind it is now in its place, if there is one |
| `ArrayHash.ArrayHash.Find` | vcpkg_ports/hat-trie/include/tsl/array-hash/array_hash.h:1258-1288 | the value that the table denotes for the key, or none |
| `ArrayHash.ArrayHash.Emplace` | vcpkg_ports/hat-trie/include/tsl/array-hash/array_hash.h:1081-1100 | a new key enters the map and no other key changes; a key that is there stays as it is; refused exactly for a full table, a key that is too long, or a bucket count that cannot grow; under high load, and only then, the table grows by its factor |
| `ArrayHash.ArrayHash.Assign` | vcpkg_ports/hat-trie/include/tsl/array-hash/array_hash.h:1102-1111 | the value of a key that is there changes, and nothing else |
| `ArrayHash.ArrayHash.EraseKey` | vcpkg_ports/hat-trie/include/tsl/array-hash/array_hash.h:1155-1175 | the map without the key; true exactly when it was there; the value stays behind as a hole, and older holes go if it is told to clear |
| `ArrayHash.ArrayHash.EraseAt` | vcpkg_ports/hat-trie/include/tsl/array-hash/array_hash.h:1113-1119 | the map without the key under the iterator; the iterator returned stands at the entry that followed |
| `ArrayHash.ArrayHash.EraseFromBucket` | vcpkg_ports/hat-trie/include/tsl/array-hash/array_hash.h:1395-1415 | the same, with the value left behind as a hole |
| `ArrayHash.ArrayHash.ClearOldErasedValues` | vcpkg_ports/hat-trie/include/tsl/array-hash/array_hash.h:1441-1468 | the values lie without holes, as many as there are keys, and no key has another value |
| `ArrayHash.Refill` | vcpkg_ports/hat-trie/include/tsl/array-hash/array_hash.h:1564-1573 | every entry is in the bucket its hash picks, the entries are permuted and none is lost, and the bytes of each new bucket are exactly those counted for it and the end marker |
| `ArrayHash.ArrayHash.RehashImpl` | vcpkg_ports/hat-trie/include/tsl/array-hash/array_hash.h:1536-1584 | the same map over the least power of two of buckets that is enough, each entry at home; refused exactly above the maximum |
| `ArrayHash.ArrayHash.EntriesCover` | vcpkg_ports/hat-trie/include/tsl/array-hash/array_hash.h:885-902 | iteration meets every key exactly once, and the count is the size of the map |
| `ArrayHash.ArrayHash.KeyAtHome` | vcpkg_ports/hat-trie/include/tsl/array-hash/array_hash.h:1536-1584 | a bucket holds a key of the map if and only if the hash of the key leaves its number as remainder |
| `HatTree.StopDecides` | vcpkg_ports/hat-trie/include/tsl/htrie_hash.h:1526-1561 | the node at which the search for a key ends alone decides whether the key is there and with what value |
| `HatTree.BurstOk` | vcpkg_ports/hat-trie/include/tsl/htrie_hash.h:1766-1786 | a leaf replaced by a branch over its rests denotes the same map, with no empty node |
| `HatTrie.Burst` | vcpkg_ports/hat-trie/include/tsl/htrie_hash.h:1766-1786 | the entries of a leaf are shared out by their first bytes over new hashes, the empty rest apart, and none is lost |
| `HatTrie.HatTrie.BurstNode` | vcpkg_ports/hat-trie/include/tsl/htrie_hash.h:1412-1434 | the tree with the burst leaf denotes the same map |
| `HatTrie.HatTrie.Find` | vcpkg_ports/hat-trie/include/tsl/htrie_hash.h:1526-1561 | the value of the key in the map, or none |
| `HatTrie.HatTrie.InsertInHashNode` | vcpkg_ports/hat-trie/include/tsl/htrie_hash.h:1412-1442 | a leaf that is full bursts, again and again down a chain if need be: the insertion ends, since the key has fewer bytes left each time, and enters exactly the key; a leaf that is not full leaves the nodes as they are |
| `HatTrie.HatTrie.Insert` | vcpkg_ports/hat-trie/include/tsl/htrie_hash.h:1007-1021 | the map with the key if it was not there; refused exactly for keys that are too long; the count is the size of the map, and no node is empty |
| `HatTrie.HatTrie.ShapeTells` | vcpkg_ports/hat-trie/include/tsl/htrie_hash.h:1363-1518 | after every operation the count is the size of the map, every leaf holds an entry, and every branch has a value or a child |
| `HatTrie.HatTrie.Assign` | vcpkg_ports/hat-trie/include/tsl/htrie_hash.h:620-675 | the value of a key that is there changes, and nothing else |
| `HatTrie.HatTrie.ClearEmptyNodes` | vcpkg_ports/hat-trie/include/tsl/htrie_hash.h:1484-1518 | the empty node goes, and with it every branch above that had nothing else; the map stays |
| `HatTrie.HatTrie.Erase` | vcpkg_ports/hat-trie/include/tsl/htrie_hash.h:1444-1473 | the map without the key; true exactly when it was there; no empty node stays behind |
| `HatOrder.SubNoRepeats` | vcpkg_ports/hat-trie/include/tsl/htrie_hash.h:677-709 | the walk through a subtree meets no key twice |
| `HatOrder.BelowSub` | vcpkg_ports/hat-trie/include/tsl/htrie_hash.h:677-709 | it meets every key of the map that goes on from the path of the node |
| `HatOrder.ToComeTells` | vcpkg_ports/hat-trie/include/tsl/htrie_hash.h:718-735 | places with the same keys to come are the same, so comparing iterators ends the loop at the right one |
| `HatIterator.HatIterator.Next` | vcpkg_ports/hat-trie/include/tsl/htrie_hash.h:677-709 | one step along the range: the key passed is its first, and the rest leads to the same end |
| `HatIterator.HatIterator.FilterPrefix` | vcpkg_ports/hat-trie/include/tsl/htrie_hash.h:767-791 | on to the first entry of the leaf that matches, or out of the leaf when none does |
| `HatIterator.HatIterator.Key` | vcpkg_ports/hat-trie/include/tsl/htrie_hash.h:623-643 | the key at the place, from the bytes up the parents and the rest in the leaf |
| `HatIterator.EqualPrefixRange` | vcpkg_ports/hat-trie/include/tsl/htrie_hash.h:1690-1721 | the two iterators enclose exactly the keys of the map that begin with the prefix, each once, wherever the prefix ends |
| `HatIterator.WithPrefix` | vcpkg_ports/hat-trie/include/tsl/htrie_hash.h:1690-1721 | the loop over the range ends and meets every key with the prefix once, with its value |
| `DeltaIndex.DeltaIndex.InsertOrAssign` | include/string_bimap/delta_segment.hpp:76-104 | the string has the new id and no other changes; a new string is refused, and the index left as it was, exactly above 65534 bytes by the hat-trie, above 65533 bytes or with 2^32 - 1 strings by the array hash, and never by the plain map |
| `DeltaIndex.DeltaIndex.IdsWithPrefix` | include/string_bimap/delta_segment.hpp:266-276 | the strings with the prefix, each once, with their ids |
| `Tombstones.Tombstones.Contains` | include/string_bimap/tombstones.hpp:14-21 | whether the id is in the set that the words denote |
| `Tombstones.Tombstones.Add` | include/string_bimap/tombstones.hpp:23-33 | the set with the id, and no other id; true exactly when it is new |
| `Tombstones.Tombstones.Remove` | include/string_bimap/tombstones.hpp:35-45 | the set without the id, and no other change; true exactly when it was there |
| `Tombstones.Tombstones.Empty` | include/string_bimap/tombstones.hpp:51-53 | no word has a bit exactly when the set is empty |
| `Tombstones.Tombstones.Count` | include/string_bimap/tombstones.hpp:59-65 | the ones in all words are as many as the ids of the set |
| `Segments.PackedStringArena.Append` | include/string_bimap/packed_string_arena.hpp:21-33 | the string and a terminator are put at the end, and the location leads to them |
| `Segments.AppendKeeps` | include/string_bimap/packed_string_arena.hpp:21-40 | no location reads another string than before |
| `DeltaSegment.DeltaSegment.FindId` | include/string_bimap/delta_segment.hpp:38-63 | an id that holds the string, or none exactly when no id does, whatever the index |
| `DeltaSegment.DeltaSegment.Insert` | include/string_bimap/delta_segment.hpp:76-104 | the strings with the new one; when the index refuses it, the exact half-inserted state that is left |
| `DeltaSegment.DeltaSegment.Erase` | include/string_bimap/delta_segment.hpp:106-134 | the strings without the id; true exactly when it was there; the arena keeps its bytes |
| `DeltaSegment.DeltaSegment.WithPrefix` | include/string_bimap/delta_segment.hpp:266-293 | exactly the ids of the strings with the prefix, ascending |
| `BaseSegment.BaseSegment.Rebuild` | include/string_bimap/base_segment.hpp:408-412 | the segment holds exactly the items, in its table and in its index, which is a trie exactly for the compact profile with at least one item |
| `BaseSegment.BaseSegment.TrieTells` | include/string_bimap/base_segment.hpp:525-555 | at any time there is a trie exactly for the compact profile once anything is held, and it lists the strings in ascending order |
| `BaseSegment.BuildTrie` | include/string_bimap/base_segment.hpp:525-581 | the trie holds exactly the strings, first-fitted and in the 8-bit encoding, and the local numbers lead to their ids |
| `BaseSegment.BaseSegment.FindId` | include/string_bimap/base_segment.hpp:51-76 | the id of the string or none, exactly; or the stray answer, where profile and strings have one |
| `BaseSegment.ExactUnlessStray` | include/string_bimap/base_segment.hpp:51-76 | the answer is right if and only if there is no stray answer |
| `Strays.StrayedWhen` | include/string_bimap/base_segment.hpp:51-76 | there is a stray answer exactly in the compact profile when one of the strings holds a null byte and a bare one is taken for the query |
| `BaseSegment.StrayExample` | include/string_bimap/base_segment.hpp:51-76 | with "a" and "b", NUL, "c" held in the compact profile, the stray answer for "a", NUL, NUL, "c" is the id of "a" |
| `BaseSegment.BaseSegment.WithPrefix` | include/string_bimap/base_segment.hpp:333-377 | exactly the ids of the strings with the prefix, and those of the overruns, ascending |
| `Strays.OverrunsWhen` | include/string_bimap/base_segment.hpp:333-377 | the overruns told from the strings: a string that the prefix runs past, and that shares all but its last byte with no other, is what predictive search over the listed strings reports too much |
| `Strays.OverrunsExample` | include/string_bimap/base_segment.hpp:333-377 | with only "a" held, the prefix "ab" finds it in the compact profile and in no other |
| `Dictionary.RunWellFormed` | include/string_bimap/string_bimap.hpp:111-148 | over every run, ids and strings are one to one and every live id is below the next one |
| `Dictionary.IdsAscend` | include/string_bimap/string_bimap.hpp:111-125 | over every run the next id never falls, and what is live later has a later id or was live before with the same string |
| `Dictionary.NeverReused` | include/string_bimap/string_bimap.hpp:111-148 | over every run an id that was live and is erased is never live again |
| `StringBimap.StringBimap.constructor` | include/string_bimap/string_bimap.hpp:32-41 | the empty dictionary |
| `StringBimap.StringBimap.FindId` | include/string_bimap/string_bimap.hpp:53-68 | the id whose live string is the value, or none exactly when there is none; or the stray answer where there is one |
| `StringBimap.StringBimap.StrayTells` | include/string_bimap/string_bimap.hpp:53-68 | a value with a stray answer is not held, has a null byte, and extends the string it is taken for, which is live; there is none for values in the delta or when the id strayed to is erased |
| `StringBimap.StringBimap.TryGetString` | include/string_bimap/string_bimap.hpp:85-98 | the live string of the id, or none |
| `StringBimap.StringBimap.ContainsId` | include/string_bimap/string_bimap.hpp:100-105 | whether the id is live |
| `StringBimap.StringBimap.Insert` | include/string_bimap/string_bimap.hpp:111-125 | the exact new dictionary for each outcome: assigned the next id, existing, empty, out of ids at 2^32 - 1, stray, or refused with the half-inserted state that is left; refused never in the default profile, exactly above 65534 bytes in the two with a hat-trie, and exactly above 65533 bytes or with 2^32 - 1 strings in the delta in the two with an array hash |
| `StringBimap.InsertExact` | include/string_bimap/string_bimap.hpp:111-125 | the id returned holds the string afterwards, or the ids or the index are at their limit, if and only if there is no stray answer |
| `StringBimap.InsertChanges` | include/string_bimap/string_bimap.hpp:111-125 | every insert that is not refused is a step of a run |
| `StringBimap.StringBimap.Erase` | include/string_bimap/string_bimap.hpp:128-140 | the dictionary without the id; true exactly when it was live; the erases are counted |
| `StringBimap.EraseChanges` | include/string_bimap/string_bimap.hpp:128-140 | every erase by id is a step of a run |
| `StringBimap.StringBimap.EraseValue` | include/string_bimap/string_bimap.hpp:142-148 | what erase by string does, by its result |
| `StringBimap.EraseValueExact` | include/string_bimap/string_bimap.hpp:142-148 | exactly that string is gone and the result tells whether it was held, if and only if there is no stray answer |
| `StringBimap.EraseValueChanges` | include/string_bimap/string_bimap.hpp:142-148 | every erase by string is a step of a run |
| `StringBimap.StringBimap.CountersTell` | include/string_bimap/string_bimap.hpp:150-156 | the live size is the size of the map, and there are as many tombstones as successful erases since the last compaction |
| `StringBimap.StringBimap.LiveEntries` | include/string_bimap/string_bimap.hpp:210-219 | the live entries in ascending order of ids, none missing |
| `StringBimap.StringBimap.WithPrefix` | include/string_bimap/string_bimap.hpp:222-242 | exactly the live ids whose strings begin with the prefix, ascending, and the overruns of the base |
| `StringBimap.StringBimap.Compact` | include/string_bimap/string_bimap.hpp:360-377 | the same dictionary, all of it in the base, with an empty delta and no tombstones |
| `Serialization.SerializedBytes` | include/string_bimap/serialization.hpp:47-56 | the little-endian bytes of the number |
| `Serialization.PodBytesRead` | include/string_bimap/serialization.hpp:58-83 | the number that the bytes of a number stand for is the number |
| `Serialization.PodValueWritten` | include/string_bimap/serialization.hpp:58-83 | and the other way round, for every byte string |
| `Serialization.InStream.ReadPod` | include/string_bimap/serialization.hpp:70-83 | the number of the next bytes, or none exactly when they are too few |
| `Serialization.InStream.ReadStringIncremental` | include/string_bimap/serialization.hpp:106-121 | in chunks, the same bytes as in one piece, or none exactly when they are too few |
| `Snapshot.PrimeInjective` | include/string_bimap/string_bimap.hpp:485-491 | multiplying by the prime loses nothing modulo 2^64 |
| `Snapshot.KnownHashes` | include/string_bimap/string_bimap.hpp:485-504 | the hash of no byte and of "a" are the published ones of 64-bit FNV-1a |
| `Snapshot.KnownProfiles` | include/string_bimap/string_bimap.hpp:465-483 | a profile is known exactly if its number is 0, 1, 2, 6 or 7 |
| `Snapshot.EmptyWire` | include/string_bimap/string_bimap.hpp:260-273 | the stream of an empty dictionary of the default profile has 33 bytes, and these are the first 25 |
| `Snapshot.WireExample` | include/string_bimap/string_bimap.hpp:260-273 | a stream with one entry byte by byte, but for the fingerprint |
| `Snapshot.HashKeepsApart` | include/string_bimap/string_bimap.hpp:485-491 | different states of the hash stay different over the same bytes |
| `Snapshot.OneByteTells` | include/string_bimap/string_bimap.hpp:485-491 | byte strings that differ in one place have different hashes |
| `Snapshot.Fingerprint` | include/string_bimap/string_bimap.hpp:500-515 | the hash of exactly the wire bytes of next id, profile, count and entries, in order |
| `Snapshot.LoadLogicalSnapshot` | include/string_bimap/string_bimap.hpp:387-463 | it accepts the images of sane snapshots in any of the format versions and nothing else, gives the snapshot back and leaves what follows, whether or not the stream tells its length |
| `Snapshot.ReadEntry` | include/string_bimap/string_bimap.hpp:424-455 | one entry is read or refused; the counter of the remaining bytes stays that of the stream and never underflows |
| `Snapshot.ChangedByteFails` | include/string_bimap/string_bimap.hpp:500-515 | no stream that differs from a saved one in one byte of the next id, the profile, an id or a string is the image of any snapshot in any version |
| `Snapshot.LoadChanged` | include/string_bimap/string_bimap.hpp:387-463 | such a stream is rejected |
| `StringBimap.StringBimap.LogicalFingerprint` | include/string_bimap/string_bimap.hpp:517-530 | the fingerprint over the live entries is that of the items a parser reads |
| `StringBimap.StringBimap.Save` | include/string_bimap/string_bimap.hpp:260-273 | the wire image of the dictionary in the current version |
| `StringBimap.Load` | include/string_bimap/string_bimap.hpp:306-315 | a dictionary with exactly the next id, the profile and the entries of the image the stream begins with |
| `StringBimap.SaveAndLoad` | include/string_bimap/string_bimap.hpp:260-315 | what is saved comes back: the same live ids and strings, next id and profile, from streams that tell their length and from those that do not |

## Findings

Where the code does not do what it is for, the model follows the code, and says when.

- **A bare key passes for a longer query in binary mode** (`Trie.Phantom`; trie.hpp:108-129 with
  tail_vector.hpp:139-157, both under vcpkg_ports/xcdat/include/xcdat/). A key is bare when it ends exactly where no
  other key goes on with it; its leaf has no position in the tail. `match` then compares the rest of the query with
  the character at position 0, a null byte, and runs on into the first suffix stored. With the keys "a" and "b", NUL,
  "c" the query "a", NUL, NUL, "c" is answered with the number of "a" (`Trie.PhantomExample`). When no suffix is
  stored at all, the same loop leaves the array: keys NUL and "a", query "a", NUL, 1 (`Trie.Overread`,
  `Trie.OverreadExample`). `Trie.LookupExact` is the exact condition, and a caller can decide it from the keys:
  lookup is right on a query if and only if the trie is not in binary mode, or the query is neither a bare key
  followed by a null byte and the greatest suffix in the order from the end, nor, when there are no suffixes, a bare
  key followed by a null byte and at least one byte more. Text mode has no such queries.
- **The same for `find_id`, `insert` and erase by string** of a dictionary with the compact profile after `compact`
  (include/string_bimap/base_segment.hpp:53-58). `Strays.StrayedWhen` tells from profile and strings when;
  `StringBimap.StringBimap.FindId`, `StringBimap.InsertExact` and `StringBimap.EraseValueExact` say that the three are
  right if and only if there is no stray answer: it is none where the base has none, where the delta holds the value,
  or where the id strayed to is erased. `BaseSegment.StrayExample` is the example above at this level:
  `insert` of that string returns the id of "a" and stores nothing, and erase of it erases "a".
- **Predictive search reports keys that are shorter than the query** (vcpkg_ports/xcdat/include/xcdat/trie.hpp:388-466
  with tail_vector.hpp:194-205). `prefix_match` also succeeds when the suffix ends first. With the only key 7, the
  query 7, 8 reports it (`Predictive.OverrunExample`). `Predictive.ExactUnlessOverrun`: the answer is exact if and only
  if no key with a suffix in the tail is a proper prefix of the query. `for_each_with_prefix` of the dictionary
  inherits this (`StringBimap.StringBimap.WithPrefix`): in the compact profile, with only "a" held in the base, the
  prefix "ab" finds it (`Strays.OverrunsExample`), and `Strays.OverrunsWhen` tells from the strings which ones.
- **`select` reads a sentinel that is not a total** (vcpkg_ports/xcdat/include/xcdat/bit_vector.hpp:249-252). For a
  partial last block the packed sub-ranks stand where the number of all ones is expected. `BitVector.SelectForBlock`
  finds the right block if and only if n lies before that block or below the sentinel; `BitVector.SentinelExample` is
  a vector of fifteen words with two ones on which select(1) is wrong. The trie's vectors are never affected
  (`BitVector.MultipleOf256`, up to 2^27 ones).
- **Building a trie from nothing but empty keys reads through a null pointer**
  (vcpkg_ports/xcdat/include/xcdat/code_table.hpp:83-85, called in trie_builder.hpp:85): `TrieBuilder.Construct` ends
  with `NullRead` exactly for the non-empty lists all of whose keys are empty. The dictionary never holds the empty string.
- **A string that the index of the delta refuses stays behind half inserted**
  (include/string_bimap/delta_segment.hpp:76-104, include/string_bimap/string_bimap.hpp:111-125): the arena and the
  table have it, the index and the counters do not, and its id is used up. `StringBimap.StringBimap.Insert` returns
  `Refused` exactly when `StringBimap.Refuses` holds: a string of more than 65534 bytes in the profiles 1 and 2, of more
  than 65533 bytes or with 2^32 - 1 strings in the delta in the profiles 6 and 7, never in profile 0. It states the
  state that is left.

## Left out

- common-prefix search (`next_prefix`) and its iterator; `bc_vector_15` and `bc_vector_16`, which have the shape of 7 and 8
- the marisa and pthash variants: profiles with a marisa index are modelled as searched through the map, as the code does
  when it is built without marisa; those libraries are not part of this model
- native sidecar files, load and save on paths, transactional renames, mmap visitors, memory accounting, statistics and
  the policy that decides when to compact
- of the hat-trie and the array hash: serialization, shrink-to-fit, erase over iterator ranges, the iterator that erase
  in the hat-trie returns, `erase_prefix`,
  `longest_prefix`, copying, and the overload of `burst` that rolls back on exceptions
- prefix visits without order; ordered ones are modelled
- the codes of bytes of equal frequency are in an arbitrary order, as `std::sort` leaves it; the layout is told for any
- load factors and reclaim thresholds are arbitrary booleans; string hashing is an arbitrary function; the
  source's `std::sort` is modelled by insertion, and only the order it ends in is relied on
- the nodes of the hat-trie are entries of a map from addresses to nodes, whose hashes are objects; the tree of pointers is
  the children and parents named there. The buckets of the array hash and the arrays of the trie builder are sequences
  assigned as a whole, so aliasing between them is not modelled
- TrieBuilder.Construct: for lists that are not strictly sorted, only those without null bytes and without a key three
  times in a row (`Readable`); on others the builder reads past the end of a key before it notices
- Trie.Build: only key lists whose slots are sure to fit 64-bit words, 256 (bytes of the keys, terminators included, + 1) < 2^64
- Trie.Decode: at most 2^27 keys, as far as `select` is exact for vectors of whole 256-bit blocks
- CompactVector.Build: values below 2^63; for greater ones the source computes its mask by a shift of 64
- StringBimap.StringBimap.Insert: needs room in the arena (`Room`), whose offsets have 32 bits; the exception for a full
  arena is not modelled
- StringBimap.StringBimap.Compact: needs the live strings to fit one arena, and at most 2^27 of them for the compact profile
- StringBimap.Load: streams of up to 13 * 2^27 bytes, or images that are known to fit; allocation failure is not modelled
- StringBimap.InsertChanges: not for a refused string, after which the dictionary is in the half-inserted state and no
  longer valid
- Snapshot.LoadChanged: a change of a byte of the magic, the version, the count, a string's size or the fingerprint is
  not claimed to be noticed by the fingerprint alone; `Snapshot.LoadLogicalSnapshot` says what is accepted
