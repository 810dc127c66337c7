# platy-zip core in Dafny

A model of the core of platy-zip, a Huffman coder written in C, with proofs
about it.  Four parts of the program are modelled.

- **The bit stream** (`bitstream.dfy`, on top of the bit arithmetic in
  `bitseq.dfy`).  This is a zero-initialised byte buffer with a cursor
  (`byte_offset`, `bit_offset`) and a bit count (`size`).  Writes of 8, 16, 32
  and 64 bits OR the data in, most significant bit first.  The class
  `BitStream` keeps the buffer as an `array`.  A ghost sequence `content`
  holds the bits written so far.  Every write is proved to change `content`
  exactly as the function `Written` says.  `Written` is a plain append of
  the low `num_bits` bits whenever the data fits in them.
- **The indexed binary min-heap** (`prio_queue.dfy`).  It is the
  array-backed priority queue of `prio_queue.c`, with slot 0 unused.  Each
  queued node records its own slot, which is what `position_huffman` gives
  the queue.  The ordering is the one the Huffman builder installs
  (`compare_huffman`, in `node.dfy`).  `up`, `down`, `swap`, `pq_insert`,
  `pq_min` and `init_prio_queue` are methods on the array.  They are proved
  to keep the heap order and the position slots, and to keep the multiset
  of queued nodes.  `pq_min` is proved to return a lightest node.
- **The Huffman tree and codes** (`huffman.dfy`).
  - `huffman_generate` is modelled step by step: counting, queuing the
    leaves, and merging the two lightest trees.  It is proved to yield a
    well-formed tree with one leaf per distinct input byte, weighted by that
    byte's count.  It is also proved that the tree has the sibling property
    of R. G. Gallager ("Variations on a theme by Huffman", 1978): its nodes
    other than the root can be listed by non-decreasing weight with siblings
    side by side.  This is what makes it a Huffman tree rather than any tree
    over the same leaves; `NotGreedy` shows a tree over the counts of
    "AAABCC" that lacks it.
  - `huffman_encode_table` builds the code map.  It is proved to give each
    symbol the code of its root-to-leaf path, and the codes are prefix-free.
  - The header declares `huffman_decode` but the source does not define it.
    The model gives a decoding walk as a specification and proves the round
    trip: decoding the encoded input gives the input back.
- **The circular doubly-linked list** (`list.dfy`).  It is the list of
  `list.c`, with cells linked by `succ` and `pred` pointers.  A list is the
  variable holding a pointer to the first cell.  The class `List` stands for
  that variable.  Its ghost sequence `Cells` is the cycle read from the head
  in successor order.  Every operation is proved against the data sequence
  `Items()`.

`wrappers.dfy` holds the `Option` type used for null pointers.

## Model

| member | source | states |
|---|---|---|
| Bitstream.BitStream.constructor | src/bitstream.c:7-16 | A new stream has a buffer of `init_size` zero bytes and no bits written, and satisfies the stream invariant. |
| Bitstream.BitStream.Write8 | src/bitstream.c:24-60 | `bitstream_write_8` keeps the invariant and adds `num_bits` to `size`. The written bits become `Written(old, data, num_bits)`: the low `num_bits` bits of data are appended, and data's bits above them are OR-ed into the bits already written in the current byte. |
| Bitstream.BitStream.WriteSpanning | src/bitstream.c:31-46 | A write that overlaps into the next byte has the same effect on the written bits and the invariant. |
| Bitstream.BitStream.WriteInByte | src/bitstream.c:47-58 | A write that fits in the current byte, possibly filling it and moving to the next, has the same effect. |
| Bitstream.SpanningWrite | src/bitstream.c:37-45 | On the buffer's value: OR-ing the high part into the cursor byte and the shifted overlap into the next byte turns the bits before the cursor into `Written(...)`. Nothing after the new cursor is set. |
| Bitstream.InByteWrite | src/bitstream.c:50-57 | On the buffer's value: OR-ing the shifted data into the cursor byte turns the bits before the advanced cursor into `Written(...)`, and nothing after the cursor is set. |
| Bitstream.WriteWithinByte | src/bitstream.c:50-52 | A write that leaves room in the byte appends its bits and keeps the rest of the byte zero. |
| Bitstream.WriteFillsByte | src/bitstream.c:50-57 | A write that exactly fills the byte appends its bits, and the cursor moves to the start of the next byte. |
| Bitstream.WriteAcrossBytes | src/bitstream.c:31-46 | A write split over two bytes appends its bits, and nothing after the new cursor in the next byte is set. |
| Bitstream.WrittenFits | src/bitstream.c:24-60 | When the value is below 2^n, a write of n bits is a plain append of its low n bits. |
| Bitstream.NarrowWrite | src/bitstream.c:69 | Casting the value to a width at least n (8, 16 or 32 bits) before an n-bit write does not change the result. |
| Bitstream.BitStream.Write16 | src/bitstream.c:62-76 | `bitstream_write_16` writes a 16-bit value, high byte first, and changes the written bits as `Written` says: a plain append of the low `num_bits` bits when `num_bits` > 8, and the 8-bit write of the low byte otherwise (a plain append when the value fits in `num_bits` bits). It keeps the invariant and the count. |
| Bitstream.Write16Steps | src/bitstream.c:73-75 | The high 8 bits, then the low byte written unmasked in `num_bits - 8` bits, give exactly the `num_bits`-bit write. The stray high bits coincide with bits just written. |
| Bitstream.BitStream.Write32 | src/bitstream.c:78-92 | `bitstream_write_32` writes a 32-bit value, high 16 bits first, and changes the written bits as `Written` says: a plain append of the low `num_bits` bits when `num_bits` > 8, and the 8-bit write of the low byte otherwise (a plain append when the value fits). It keeps the invariant and the count. |
| Bitstream.Write32Steps | src/bitstream.c:89-91 | The high 16 bits, then the low 16 bits in `num_bits - 16` bits, give exactly the `num_bits`-bit write. |
| Bitstream.BitStream.Write64 | src/bitstream.c:94-108 | `bitstream_write_64` with the low half cast to `uint32_t` changes the written bits as `Written` says: a plain append of the low `num_bits` bits when `num_bits` > 8, and the 8-bit write of the low byte otherwise (a plain append when the value fits). It keeps the invariant and the count. |
| Bitstream.Write64Steps | src/bitstream.c:105-107 | The high 32 bits, then the low 32 bits in `num_bits - 32` bits, give exactly the `num_bits`-bit write. |
| Bitstream.Written64AsWritten | src/bitstream.c:94-108 | The effect of `bitstream_write_64` as written, with the `uint16_t` cast on line 107; it appends `num_bits` bits. |
| Bitstream.WrittenHalvesAsWritten | src/bitstream.c:104-107 | The two 32-bit writes beyond 32 bits, as written; they append `num_bits` bits. |
| Bitstream.BitStream.Write64AsWritten | src/bitstream.c:94-108 | The method as written changes the written bits as `Written64AsWritten` says and keeps the invariant. |
| Bitstream.BitStream.WriteHalvesAsWritten | src/bitstream.c:104-107 | The two writes as written change the written bits as `WrittenHalvesAsWritten` says. |
| Bitstream.Written64AsWrittenUpTo48 | src/bitstream.c:94-108 | Up to 48 bits, the function as written is correct: it appends the low `num_bits` bits. |
| Bitstream.Written64AsWrittenLosesBits | src/bitstream.c:107 | Writing 0x10000 in 49 bits as written differs from the intended 49-bit write. |
| Bitstream.BitStream.Size | src/bitstream.c:183-186 | `bitstream_size` is the number of bits written. |
| Bitstream.BitStream.ByteOffset | src/bitstream.c:188-191 | `bitstream_byte_offset` is the number of whole bytes written. |
| Bitstream.BitStream.BitOffset | src/bitstream.c:193-196 | `bitstream_bit_offset` is the number of bits written into the current byte. |
| Bitstream.BitStream.ReadBit | src/bitstream.c:198-204 | `bitstream_read_bit` is 0 or 1, and it is 1 exactly when the buffer bit at the cursor is set. |
| Bitstream.BitStream.ReadBitAfterWrites | src/bitstream.c:198-204 | On any stream it reads 0: the cursor always sits after the written bits. |
| Bitstream.DecToHex | src/bitstream.c:135-156 | `dec_to_hex` maps a digit up to 15 to its upper-case hexadecimal character. |
| Bitstream.DecToHexInjective | src/bitstream.c:135-156 | Distinct digits give distinct characters. |
| HuffmanNode.Node.constructor | src/huffman.c:13-21 | A node holds its tree and starts with position slot 0. |
| HuffmanNode.CompareHuffman | src/huffman.c:24-37 | `compare_huffman` is 0, positive or negative exactly when the left weight is equal to, above or below the right one, and lies in -1..1. |
| PrioQueue.PrioQueue.constructor | src/prio_queue.c:57-71 | `new_prio_queue` gives an empty, valid queue of capacity n with n + 1 null slots. |
| PrioQueue.PrioQueue.Size | src/prio_queue.c:100-103 | `pq_size` is the number of queued nodes. |
| PrioQueue.PrioQueue.Init | src/prio_queue.c:73-87 | `init_prio_queue` queues exactly the n given nodes, as a multiset, and leaves a valid heap. |
| PrioQueue.PrioQueue.FillSlots | src/prio_queue.c:78-84 | Slot k holds the k-th given node, and that node records k. |
| PrioQueue.PrioQueue.Heapify | src/prio_queue.c:85-86 | Sifting down from `n / 2` to 1 establishes heap order and keeps the nodes. |
| PrioQueue.PrioQueue.Insert | src/prio_queue.c:92-98 | `pq_insert` adds x to the multiset of queued nodes and keeps the heap valid. |
| PrioQueue.PrioQueue.PlaceLast | src/prio_queue.c:94-96 | x takes the first free slot and records it. Only that slot may be out of order. |
| PrioQueue.AppendLeaf | src/prio_queue.c:94-96 | Appending a node to an ordered heap leaves only the new slot possibly lighter than its parent. |
| PrioQueue.PrioQueue.PqMin | src/prio_queue.c:105-117 | `pq_min` returns the node that was at the root, which weighs no more than any queued node. It removes exactly that node and keeps the heap valid. |
| PrioQueue.RootMin | src/prio_queue.c:109 | In heap order, the root weighs no more than any queued node. |
| PrioQueue.RootMinAt | src/prio_queue.c:109 | The root weighs no more than the node at any slot. |
| PrioQueue.PrioQueue.TakeRoot | src/prio_queue.c:109-113 | The last node moves to the root and records it. The queue shrinks by one, losing only the old root, and is ordered below the root. When a node remains, the root holds the node that was last. |
| PrioQueue.LastToRoot | src/prio_queue.c:109-113 | Moving the last node to the root keeps the order below the root and removes only the old root. |
| PrioQueue.PrioQueue.Swap | src/prio_queue.c:14-23 | `swap` exchanges two slots, and both moved nodes record their new slots. |
| PrioQueue.PrioQueue.MinChild | src/prio_queue.c:42-49 | The child `down` follows is the lighter child of k, and the right one on a tie. |
| PrioQueue.PrioQueue.Up | src/prio_queue.c:26-37 | `up` restores heap order when only slot k may be lighter than its parent, and keeps the nodes. |
| PrioQueue.UpStep | src/prio_queue.c:30-35 | After swapping k with a heavier parent, only the parent's slot may be out of order. |
| PrioQueue.PrioQueue.Down | src/prio_queue.c:39-55 | `down` orders the heap from k on when it was ordered below k. It keeps the nodes, changes no slot below 2k other than k, and leaves at k what k or one of its children held. |
| PrioQueue.PrioQueue.SwapDown | src/prio_queue.c:51-54 | When k is heavier than its lighter child, exchanging them and sifting down from the child orders the heap from k on, keeps the nodes, and leaves the child's old node at k. |
| PrioQueue.DownStop | src/prio_queue.c:42-51 | When k has no child, or weighs no more than its lighter child, the heap is ordered from k on. |
| PrioQueue.SwapKeepsBelow | src/prio_queue.c:51-52 | Swapping k with its child j keeps the order below j. |
| PrioQueue.DownStep | src/prio_queue.c:51-54 | Swapping k with its lighter child and sifting that child down orders the heap from k on. |
| Huffman.PathTo | src/huffman.c:17-18 | The path of a leaf symbol leads to a leaf with that symbol and is no longer than the tree is high. |
| Huffman.WeightConserved | src/huffman.c:100-114 | A built tree weighs as many occurrences as it accounts for, and at least one. |
| Huffman.BranchCount | src/huffman.c:111-116 | There is one branch fewer than leaves. |
| Huffman.NoLeafNoOccurrence | src/huffman.c:96-101 | A symbol without a leaf has no occurrences in the tree. |
| Huffman.LeafWeight | src/huffman.c:99-100 | With distinct leaves, the leaf of s weighs exactly the occurrences of s. |
| Huffman.DistinctChildren | src/huffman.c:112-113 | The two subtrees of a branch with distinct leaves have distinct leaves and share no symbol. |
| Huffman.LeafWeightUp | src/huffman.c:111-114 | In a branch, the path of a symbol found in one child only reaches a leaf weighing the symbol's occurrences in the whole branch, when it does so in that child. |
| Huffman.PrefixFree | src/huffman.c:149-163 | No path to a leaf is a proper prefix of another path into the tree. |
| Huffman.SymbolsPrefixFree | src/huffman.c:143-165 | The code of one symbol never begins the code of another. |
| Huffman.PathUnique | src/huffman.c:143-165 | With distinct leaves, a leaf's symbol is reached by its path only. |
| Huffman.Extend | src/huffman.c:152-155 | A step down doubles the 64-bit code modulo 2^64 and adds 1 for a right step. |
| Huffman.ChildKey | src/huffman.c:151-155 | The key passed to a child is the code of the path one step longer. |
| Huffman.CodeBitsOf | src/huffman.c:138-141 | A code up to 64 bits long stands for exactly its path. |
| Huffman.EncodeTable | src/huffman.c:143-165 | `huffman_encode_table` holds a key exactly for the symbols already in the map or on a leaf of the tree. |
| Huffman.EncodeTablePaths | src/huffman.c:143-165 | Each leaf symbol gets the code of its path, appended to the path already taken. Other entries are kept. |
| Huffman.EncodeTablePath | src/huffman.c:149-163 | The same, for one symbol. |
| Huffman.EncodeCodes | src/huffman.c:167-177 | From an empty map and the empty code, `huffman_encode` gives each tree symbol the code of its root-to-leaf path. |
| Huffman.Decode | include/huffman.h:62-67 | A successful decode yields exactly `size` symbols. |
| Huffman.DecodePath | include/huffman.h:62-67 | The decoding walk consumes exactly the path of s and stops at s's leaf. |
| Huffman.RoundTrip | include/huffman.h:62-67 | For a tree with distinct leaves, at most 64 deep, decoding the concatenated codes of data (and any further bits) returns data. |
| Huffman.SingleSymbol | src/huffman.c:172-174 | A tree of a single leaf gives its symbol the empty code, and decoding repeats that symbol. |
| Huffman.SymCompare | src/huffman.c:123-136 | `sym_compare` is 0, positive or negative exactly when the left byte is equal to, above or below the right one. |
| Huffman.CountSymbols | src/huffman.c:84-86 | `freq[b]` is the number of occurrences of b in the buffer. |
| Huffman.FreqBagInput | src/huffman.c:84-103 | Counts taken from the buffer stand for the buffer's bytes, and for its distinct bytes. |
| Huffman.QueueLeaf | src/huffman.c:96-101 | A fresh leaf for s with weight w is added to the queue. |
| Huffman.AddLeaf | src/huffman.c:95-102 | Byte k gets a leaf exactly when it occurs. The queue then accounts for the counts of bytes 0..k. |
| Huffman.LeafBags | src/huffman.c:99-101 | Queuing the leaf of byte k extends the accounted counts from bytes below k to bytes up to k. |
| Huffman.FreqBagSkip | src/huffman.c:96 | A byte that does not occur adds nothing. |
| Huffman.QueueLeaves | src/huffman.c:89-103 | After the loop the queued leaves account for every count, and nothing has been merged yet. |
| Huffman.Leaves | src/huffman.c:75-103 | A new queue of capacity 256 holds well-formed leaves that account for the buffer's bytes and its distinct bytes. |
| Huffman.NotGreedy | src/huffman.c:106-117 | A tree with the right leaves and weights need not be one the merge loop can build: the tree `Skewed` joins the leaves of weights 1 and 3 first, and has no sibling order. |
| Huffman.SkewedAccounts | src/huffman.c:75-121 | `Skewed` is well formed and accounts for exactly the bytes and distinct bytes of "AAABCC", so leaf accounting alone does not pin down the generated tree. |
| Huffman.NotGreedyOrder | src/huffman.c:106-117 | Any order of `Skewed`'s subtrees that has the right parents takes the weight-3 leaf before the weight-2 leaf, so it is not ascending. |
| Huffman.MergedGreedy | src/huffman.c:108-116 | Taking the two lightest trees and queuing their branch keeps the greedy invariant: the trees taken out are ascending, none is heavier than a queued tree, and they are the subtrees of the queued trees, paired by their parents. |
| Huffman.ParentsPair | src/huffman.c:111-115 | Appending a taken pair adds their branch to the parents of the taken sequence. |
| Huffman.AscendingPair | src/huffman.c:108-109 | Two trees taken after the earlier ones, the lighter first, keep the taken sequence ascending. |
| Huffman.TwoLightest | src/huffman.c:108-109 | Two successive `pq_min` calls give the lightest node, then the lightest of the rest. |
| Huffman.Merged | src/huffman.c:108-116 | One merge's effect on the queue: the two lightest leave, their branch arrives, and occurrences, leaves and the greedy invariant carry over. |
| Huffman.ForestNotEmpty | src/huffman.c:106 | A non-empty queue of trees accounts for at least one occurrence. |
| Huffman.TakeTwo | src/huffman.c:108-109 | Takes the two lightest nodes and removes exactly them: l weighs no more than any node that was queued, r no more than any node left, and l no more than r. |
| Huffman.QueueBranch | src/huffman.c:111-116 | A fresh branch over l and r, weighing both, is added to the queue. |
| Huffman.MergeTwo | src/huffman.c:108-116 | One merge joins the two lightest queued trees (l no heavier than any, r no heavier than any other) into a branch that replaces them. The queue keeps accounting for the same occurrences and leaves, and the trees taken out so far stay in greedy order. |
| Huffman.MergedForest | src/huffman.c:111-116 | A merge keeps every queued tree well formed and keeps the same occurrences and leaves. |
| Huffman.MergeAll | src/huffman.c:106-117 | The loop ends with one tree that accounts for the same occurrences and leaves, and returns the order in which the trees were taken out, which stays greedy. |
| Huffman.TakeRootTree | src/huffman.c:119 | The last tree taken out is well formed, accounts for everything, and the order of the merges is a sibling order of it. |
| Huffman.Combine | src/huffman.c:106-119 | The merging and the final `pq_min` give a well-formed tree that accounts for everything queued, with a sibling order. |
| Huffman.Generate | src/huffman.c:75-121 | `huffman_generate` gives no tree exactly for an empty buffer. Otherwise the tree is well formed, its occurrences are the buffer's bytes, and its leaves are the distinct bytes. The tree has the sibling property, so it is a Huffman tree and not just any tree with those leaves. |
| Huffman.GeneratedTree | src/huffman.c:75-121 | The generated tree has distinct leaves, exactly the buffer's bytes as symbols, and a root weighing the buffer's length. It has one branch fewer than distinct bytes, and each byte's leaf weighs its count. |
| Huffman.CompressRoundTrip | src/huffman.c:167-177 | Encoding the buffer with its own tree's table (at most 64 deep) and decoding gives the buffer back. |
| CircularList.Cell.constructor | src/list.c:9-18 | `new_list` makes a one-cell cycle, linked to itself both ways. |
| CircularList.Append | src/list.c:47-60 | `append` splices the second cycle after the last cell of the first. The result reads the first list's cells, then the second's, from the first head, or is the second list when the first is empty. |
| CircularList.Joined | src/list.c:54-58 | Linking the last cell of each cycle to the first of the other makes one cycle. |
| CircularList.Delete | src/list.c:62-67 | `delete_list` unlinks a cell; the other cells remain one cycle in the same order. |
| CircularList.Unlink | src/list.c:64-65 | The same, on the cycle read from the unlinked cell. |
| CircularList.Dropped | src/list.c:64-65 | Bypassing the first cell of a cycle leaves a cycle of the others. |
| CircularList.Reread | src/list.c:62-67 | The remaining cycle read from the old start is a cycle with the cell removed. |
| CircularList.List.InsertLast | src/list.c:20-36 | `insert_last` appends d to the data and keeps a non-null head; the new cell is last. |
| CircularList.List.InsertFirst | src/list.c:38-45 | `insert_first` prepends d; the new cell becomes the head. |
| CircularList.List.InsertBefore | src/list.c:69-79 | `insert_before` puts d in a new cell just before the head, that is, last in the data. A non-null head is kept. |
| CircularList.List.InsertAfter | src/list.c:81-94 | `insert_after` puts d in a new cell just after the head, or makes it the only cell; a non-null head is kept. |
| CircularList.Spliced | src/list.c:91-92 | Splicing a cell in after the head leaves a cycle holding the head's data, then d, then the rest. |
| CircularList.List.Length | src/list.c:96-112 | `length` is the number of cells: 0 for a null list. |
| CircularList.List.RemoveFirst | src/list.c:114-132 | `remove_first` returns nothing for an empty list. Otherwise it returns the head's data and drops the head; the successor becomes the head, or the list becomes null. |
| CircularList.List.Unhook | src/list.c:124-129 | Unlinking the k-th cell removes exactly it from the cells and the data. Moving the head is needed only for k = 0. |
| CircularList.List.FreeList | src/list.c:134-144 | `free_list` leaves the list empty, with a null head. |
| CircularList.List.Apply | src/list.c:146-158 | `apply` visits each cell's data once, in successor order from the head. |
| CircularList.List.Remove | src/list.c:160-180 | `remove_from_list` unlinks the first cell holding d and moves the head if it was that cell. Without a match nothing changes. |
| CircularList.IndexOf | src/list.c:167-178 | The index of the first cell holding d: it holds d and no earlier cell does. |
| CircularList.RemovedOnce | src/list.c:160-180 | Removing the first occurrence of d takes exactly one d away when there is one, and nothing else. |

## Left out

- Memory management is not modelled: `malloc`, `calloc` and `free`, their failure paths (the null returns at `src/bitstream.c:10-14`), and `free_bitstream`. Freed list cells are simply no longer part of the cycle.
- The print functions (`print_bitstream`, `print_bitstream_hex`, `__print_huffman`, and the table dump in `huffman_encode`) produce only console output, so they are left out. `dec_to_hex`, which the hex dump uses, is modelled.
- `src/file.c` and `src/main.c` are not part of this model. They only read the input file and drive the other parts.
- Floating point is left out.
  - A node's `weight` is the integer count the source stores into it (`src/huffman.c:100`). The `prob` array, which is computed but never used, is dropped.
  - So `compare_huffman` compares counts. The source compares `double` copies of counts, which agrees for counts below 2^53.
- The hash map of `hashmap.h` is a Dafny `map`; its hashing is not modelled. The generated tree has distinct leaves, so no key is ever put twice, and what `hashmap_put` does with an existing key does not matter.
- The priority queue's function pointers are fixed to `compare_huffman` and `position_huffman`, the only instantiation in the core. `position_huffman` becomes the node's `pqI` field, and the queue holds `Node` objects rather than `void*`.
- `init_prio_queue` receives the nodes as a sequence of distinct objects rather than a raw buffer with a stride.
- `apply`'s callback is not called. `Apply` returns the sequence of data it would be called on, in order.
- `remove_first` returns `None` where the source returns a null pointer. The source cannot tell that apart from a stored null datum.
- `remove_from_list` compares data by value equality; the source compares the `void*` pointers.
- include/list.h is not part of this model; the empty list is a null head, as `list.c` treats it.
- Widths of `size_t` counters are not modelled: `size`, offsets, frequencies and queue indices are unbounded naturals.
- `huffman_generate` calls `pq_new` (`src/huffman.c:82`), while `prio_queue.c` defines `new_prio_queue`. The model uses the constructor `new_prio_queue` defines.
- Preconditions stand for memory safety the source leaves to its callers.
  - `BitStream.HasRoom`: the buffer has room for the bits, and the cursor byte exists.
  - `PrioQueue.Insert`: the capacity is not exceeded, and x is not already queued.
  - `PrioQueue.PqMin`: the queue is not empty.
  - `List.Remove`: the list is not null.
  
  The source checks none of these; a violation there is undefined behaviour.
- Huffman.Generate: for an empty buffer the source calls `pq_min` on an empty queue and reads slot 1's null pointer. The model returns no tree instead.
- Huffman.RoundTrip and Huffman.CompressRoundTrip assume a tree at most 64 deep. The source keeps codes in a `uint64_t` and silently loses the high bits of longer codes, which the model's `Extend` does keep modulo 2^64.
- Huffman.Decode: `huffman_decode` is only declared (`include/huffman.h:62-67`). The decoding walk is a specification function on bit sequences, not a reader of a `bitstream_t`.
- Writing the codes of `huffman_encode` into a bit stream is not modelled. The function only builds the table and prints it; it has no `return` statement, so its `uint8_t*` result is undefined (`src/huffman.c:167-187`). `Encode` models the table it builds.
- `bitstream_write_8` is modelled with its as-written effect on stray data bits above `num_bits` (see `Written`). Callers that pass data below 2^`num_bits` get a plain append (`WrittenFits`).

## Findings

| source | as written | input that shows it | evidently intended | confidence | as-written member | corrected member |
|---|---|---|---|---|---|---|
| src/bitstream.c:107 | `bitstream_write_64` writes the low `num_bits - 32` bits through a `(const uint16_t)` cast. For `num_bits > 48` the bits of the low half above bit 15 are replaced by zeros. | `bits = 0x10000`, `num_bits = 49`: the bit for 2^16 is written as 0 | `(const uint32_t)bits`, as the 16- and 32-bit writes do at their own width | not executed | Bitstream.Written64AsWrittenLosesBits | Bitstream.BitStream.Write64 |
