# Managed memory space: linked block lists and a best-fit allocator

This project models a small memory manager written in Java. It has two classes.

`LinkedList` is a singly linked list of memory blocks. It keeps `first`, `last` and `size` fields and offers:
- positional insert (`add`) and insert at either end (`addFirst`, `addLast`);
- indexed access (`getNode`, `getBlock`) and lookup by value (`indexOf`);
- removal by node, by index or by value.

`MemorySpace` manages a simulated address space `[0, maxSize)` with two such lists, one of allocated blocks and one of free blocks:
- `malloc` carves the requested length out of the best-fitting free block.
- `free` moves an allocated block to the end of the free list.
- `defrag` merges free blocks that sit next to each other.

The model is functional:
- A memory block is the value `Block(baseAddress, length)`, and two blocks are equal exactly when both fields agree. `MemoryBlock.equals` is not part of this model. Structural equality is the assumption that the by-value lookups rely on: `indexOf(oldMB)` in malloc (MemorySpace.java:95), `remove(mb)` in free (MemorySpace.java:133) and `remove(mb2)` in defrag (MemorySpace.java:164).
- A list is the chain of its nodes, `Chain = Null | Node(block, next)`, together with its `first`, `last` and `size` fields.
- `Valid` is the class invariant: `size` counts the nodes, `last` is the final node, and `first` is null exactly when the list is empty. `Contents` reads a list as a `seq<Block>`, and every operation is specified against that sequence.
- Exceptions become `Result` values: `Throw(IllegalArgument)` or `Throw(NullPointer)`.
- A null `MemoryBlock` argument to `add`, `addFirst` or `addLast` becomes `Option.None`, and a null `Node` argument to `remove(Node)` becomes `Chain.Null`.
- Each mutating method becomes a function returning the new list or space.

Modules:
- `MemoryBlock` (memory_block.dfy): blocks, overlap, total length, pairwise disjointness.
- `LinkedList` (linked_list.dfy): the list and its operations.
- `MemorySpace` (memory_space.dfy): the allocator, its invariant and its laws.
- `Scenarios` (scenarios.dfy): worked examples derived from the general lemmas.

`Consistent(m, maxSize)` is the invariant of a space built for `maxSize`:
- both lists are valid;
- the lengths of all blocks add up to `maxSize`;
- every block lies in `[0, maxSize)`;
- no two blocks share a word.

An empty block shares no word with anything. Empty blocks do arise: `malloc(0)` creates one, and so does an exact fit when other free blocks remain.

The model follows the code wherever the code and its comments disagree:
- **malloc is best fit.** The comment describes first fit, but the code picks the block that leaves the least left over. Ties go to the earliest such block, because a later one replaces the candidate only when its leftover is strictly smaller.
- **malloc keeps empty leftovers.** The comment says an exactly fitting block is removed from the free list. The code reinserts a zero-length leftover in its place unless the free list would otherwise be empty. So allocating 5 from `{0,10}, {20,5}, {40,7}` leaves `{0,10}, {25,0}, {40,7}` free.
- **defrag only grows the head.** The inner iterator is created once, outside the outer loop, so only the first outer step compares anything. The only merge is "the head absorbs the block starting where the head ends", and the recursion repeats it. Adjacent blocks behind the head stay apart.
- **`getNode(size)` and `getBlock(size)` return null** on a non-empty list instead of throwing, as the `getBlock` comment says they should.
- **`remove(size)` throws NullPointerException** on a non-empty list, because it passes a null node to `remove(Node)`.
- **`remove(index)` can remove an earlier copy.** It removes the first block *equal* to the one at `index`, which may sit before `index`.

## Model

| member | source | states |
|---|---|---|
| LinkedList.Empty | LinkedList.java:13-17 | a new list is valid, has size 0 and holds no blocks |
| LinkedList.ValidShape | LinkedList.java:6-8 | in a valid list `first` and `last` are null exactly when the size is 0; otherwise `last` is a node holding the final block with nothing after it; and a valid list is determined by its contents |
| LinkedList.GetNode | LinkedList.java:52-64 | throws IllegalArgumentException exactly when index < 0, index > size or the list is empty; otherwise returns the node from which the blocks `s[index..]` hang, which is null for index == size |
| LinkedList.GetBlock | LinkedList.java:167-174 | same error condition as getNode; returns the block at index, or null (None) at index == size |
| LinkedList.Add | LinkedList.java:85-111 | a null block is ignored even when the index is bad; otherwise throws IllegalArgumentException exactly when index is outside [0, size], and else the contents become `s[..index] + [b] + s[index..]` with size + 1 and the invariant kept |
| LinkedList.AddLast | LinkedList.java:121-135 | a null block changes nothing; otherwise the contents become `s + [b]`, size + 1, invariant kept |
| LinkedList.AddFirst | LinkedList.java:144-156 | a null block changes nothing; otherwise the contents become `[b] + s`, size + 1, invariant kept |
| LinkedList.IndexOf | LinkedList.java:183-194 | returns -1 exactly when the block is absent, and otherwise the position of its first equal copy |
| LinkedList.RemoveNode | LinkedList.java:202-235 | a null node throws NullPointerException; a node whose block is absent changes nothing; otherwise the first equal block is removed, the rest keep their order, size - 1, invariant kept |
| LinkedList.RemoveAt | LinkedList.java:244-251 | throws IllegalArgumentException exactly when index < 0, index > size or the list is empty, and NullPointerException exactly when index == size > 0; otherwise removes the first block equal to the one at index |
| LinkedList.RemoveBlock | LinkedList.java:260-263 | throws IllegalArgumentException exactly when the block is absent; otherwise removes its first copy |
| LinkedList.RemoveUndoesAddFirst | LinkedList.java:144-156 | removing by value a block just added at the front gives back the original list, copies or not |
| LinkedList.RemoveUndoesAddLast | LinkedList.java:121-135 | removing by value a block just added at the end gives back the original list when it held no copy of it |
| LinkedList.RemoveAtUndoesAdd | LinkedList.java:244-251 | `remove(index)` after `add(index, b)` gives back the original list when no copy of b comes before index |
| LinkedList.RemoveAtTakesEarlierCopy | LinkedList.java:208-209 | on `[b, c]`, `add(2, b)` then `remove(2)` leaves `[c, b]`: the by-value lookup takes the earlier copy |
| MemorySpace.New | MemorySpace.java:23-31 | a new space has no allocated blocks and the single free block `{0, maxSize}` |
| MemorySpace.NewConsistent | MemorySpace.java:23-31 | a new space holds maxSize words in all, and meets the space invariant when maxSize >= 0 |
| MemorySpace.Scan | MemorySpace.java:70-88 | the scan either keeps its starting candidate or ends on a block of the list that is long enough, with that block's address, length and leftover |
| MemorySpace.ScanFindsBestFit | MemorySpace.java:64-88 | the scan ends with no candidate exactly when no free block is long enough, and otherwise with the unique best fit: least leftover, earliest among ties |
| MemorySpace.BestFitIsFirstCopy | MemorySpace.java:92-96 | the best-fit block has no equal copy before it, so the by-value lookup of `{address, savedLength}` finds the chosen position |
| MemorySpace.TakeFromFreeCarves | MemorySpace.java:95-102 | the free-list update replaces the chosen block by `{A + length, L - length}` at its position, and drops it only when it was the only block and fitted exactly |
| MemorySpace.Malloc | MemorySpace.java:64-111 | malloc keeps both lists valid, and a result of -1 leaves the space unchanged |
| MemorySpace.MallocNoFit | MemorySpace.java:67-90 | when every free block is shorter than the request, malloc returns -1 and changes nothing |
| MemorySpace.MallocFails | MemorySpace.java:67-110 | malloc returns -1 exactly when no block fits or the best fit is based at -1, the address malloc also uses to mean "no candidate" |
| MemorySpace.MallocBestFit | MemorySpace.java:90-110 | on a best fit `{A, L}` at position i, malloc returns A, appends `{A, length}` to the allocated list and replaces position i of the free list by `{A + length, L - length}` |
| MemorySpace.MallocKeepsEmptyLeftover | MemorySpace.java:98-102 | an exact fit with other free blocks present leaves a zero-length block at the chosen position, and the free list keeps its size |
| MemorySpace.MallocConserves | MemorySpace.java:91-102 | malloc of any length keeps the total length of both lists |
| MemorySpace.CarveKeepsFit | MemorySpace.java:91-98 | splitting a free block into an allocated front part and a free rest keeps total length, bounds and disjointness |
| MemorySpace.MallocKeepsConsistent | MemorySpace.java:64-111 | malloc of a non-negative length keeps the space invariant |
| MemorySpace.Free | MemorySpace.java:122-126 | free throws IllegalArgumentException exactly when nothing is allocated, and otherwise keeps both lists valid |
| MemorySpace.FreeUnknownAddress | MemorySpace.java:127-131 | free of an address at which no allocated block starts changes nothing |
| MemorySpace.FreeMoves | MemorySpace.java:130-135 | free of the base address of the first allocated block starting there removes that block from the allocated list and appends it, unchanged, to the free list |
| MemorySpace.FreeConserves | MemorySpace.java:132-134 | free keeps the total length of both lists |
| MemorySpace.MoveKeepsFit | MemorySpace.java:132-134 | moving an allocated block to the end of the free list keeps total length, bounds and disjointness |
| MemorySpace.FreeKeepsConsistent | MemorySpace.java:122-138 | free keeps the space invariant |
| MemorySpace.HeadAbsorbs | MemorySpace.java:158-161 | in a list of non-empty blocks with distinct bases, at most one block starts where the head ends, and the list stays so after the head absorbs it |
| MemorySpace.AbsorbNext | MemorySpace.java:160-164 | one merge step: the head keeps its base and gains the length of the block starting where it ended; that block leaves the list; size - 1 |
| MemorySpace.AbsorbMerges | MemorySpace.java:160-164 | the absorbed block is the only one starting where the head ends, and the step's result is the head merged with it |
| MemorySpace.DefragFree | MemorySpace.java:153-169 | defrag keeps the free list valid, its blocks non-empty and its bases distinct |
| MemorySpace.DefragStep | MemorySpace.java:157-166 | when a block starts where the head ends, defrag is defrag of the list after that one merge |
| MemorySpace.DefragShape | MemorySpace.java:154-168 | after defrag the head has kept its base and absorbed a run of blocks, each starting where the grown head ended; the other blocks stay unchanged and in order; the size drops by one per merge; no block starts where the head now ends |
| MemorySpace.MergedConserves | MemorySpace.java:163-164 | one merge keeps the total free length |
| MemorySpace.DefragConserves | MemorySpace.java:153-169 | defrag keeps the total free length |
| MemorySpace.DefragFixedPoint | MemorySpace.java:156-168 | a free list with no block starting where its head ends is left as it is |
| MemorySpace.DefragIdempotent | MemorySpace.java:153-169 | a second defrag changes nothing |
| MemorySpace.MergedKeepsFit | MemorySpace.java:163-164 | one merge keeps total length, bounds and disjointness of the space |
| MemorySpace.Defrag | MemorySpace.java:153-169 | defrag leaves the allocated list alone and keeps both lists valid |
| MemorySpace.DefragKeepsConsistent | MemorySpace.java:153-169 | in a consistent space whose free blocks are non-empty, the free bases are distinct and defrag keeps the space invariant |
| MemorySpace.DistinctFreeBases | MemorySpace.java:161 | non-empty free blocks in a disjoint space have distinct bases, so the base test picks one block |
| Scenarios.FromBlocks | LinkedList.java:121-135 | adding blocks one by one at the end builds a valid list of exactly those blocks |
| Scenarios.BestFitExample | MemorySpace.java:70-102 | malloc(5) on free `{0,10},{20,5},{40,7}` returns 20, allocates `{20,5}` and leaves `{0,10},{25,0},{40,7}` free |
| Scenarios.BestFitOnFreeOnly | MemorySpace.java:70-102 | the best-fit example holds on a space built with nothing allocated and exactly those free blocks |
| Scenarios.TieBreakExample | MemorySpace.java:80-84 | malloc(5) on free `{0,10},{30,10}` picks the first block: returns 0, leaves `{5,5},{30,10}` free |
| Scenarios.NoFitExample | MemorySpace.java:67-90 | malloc(5) on free `{0,3},{10,4}` returns -1 and changes nothing |
| Scenarios.FreeAfterMallocExample | MemorySpace.java:127-135 | freeing address 0 after the tie-break allocation empties the allocated list and appends `{0,5}` to the free list |
| Scenarios.DefragExample | MemorySpace.java:157-166 | defrag of `{0,5},{5,5},{20,3}` gives `{0,10},{20,3}` |
| Scenarios.DefragHeadOnlyExample | MemorySpace.java:154-159 | defrag of `{0,1},{5,5},{10,5}` changes nothing, although `{5,5}` and `{10,5}` are adjacent |

## Left out

- `toString` in both classes and the commented-out debug prints: text rendering only.
- `Node`, `ListIterator` and `MemoryBlock` are not part of this model. A block is a value with structural equality. A node is the `Chain` constructor. The iterators become recursion over the chain (`Scan`, `FirstWithBase`).
- Object identity and aliasing are not modelled. `last` is a copy of the final node rather than the same object. `defrag`'s in-place `mb.length` update becomes "replace the head block".
- Java `int` overflow is not modelled in any `int` arithmetic, for example `address + length`, `nextLength - length`, `savedLength - length` or `baseAddress + length`: integers are unbounded.
- The list operations assume the class invariant `Valid` of their list. Every operation establishes and keeps it.
- The constructor does not validate `maxSize`, and neither does `New`. The invariant is proved for `maxSize >= 0` only, since a negative size cannot hold a block.
- LinkedList.IndexOf: takes a non-null block. `indexOf(null)` calls `MemoryBlock.equals(null)`, which is not part of this model, so null lookups are not modelled.
- LinkedList.RemoveBlock: takes a non-null block. `remove((MemoryBlock) null)` depends on `MemoryBlock.equals(null)` in the same way. If that is false, it reaches `remove(-1)` and throws IllegalArgumentException.
- LinkedList.RemoveNode: a non-null node always holds a non-null block. A node holding null would depend on `MemoryBlock.equals` in the `indexOf` lookup. Lists never hold such nodes, because the add methods ignore a null block.
- MemorySpace.MallocKeepsConsistent: proved for non-negative lengths only. `malloc` does not check its argument, and a negative request yields a block of negative length, so the invariant cannot hold. Total length is still conserved for every request (`MallocConserves`).
- MemorySpace.DefragFree: requires non-empty free blocks with distinct bases (`Mergeable`). A zero-length head starts where it ends, so the inner scan matches the head itself. The stale iterators left behind by the recursive call can then match further blocks. Modelling that would need the heap of nodes, including unlinked ones, so those lists are not modelled. `malloc` can leave such blocks in the free list. In a consistent space, non-empty free blocks already have distinct bases (`DistinctFreeBases`).
- MemorySpace.Defrag: same precondition as `DefragFree`.
- MemorySpace.Malloc: its own contract states only that both lists stay valid and that -1 changes nothing. What malloc returns and how it changes both lists is stated by `MallocBestFit`, `MallocFails`, `MallocNoFit` and `MallocKeepsEmptyLeftover`.
- MemorySpace.Free: its own contract states only the exception and validity. The effect is stated by `FreeMoves` and `FreeUnknownAddress`.
- MemorySpace.DefragFree: its own contract states only validity and mergeability. The result is stated by `DefragShape`, `DefragStep`, `DefragConserves` and `DefragIdempotent`.
- Defrag is called by nothing in the code. The comment says malloc normally calls it, but malloc does not, and neither does the model.
