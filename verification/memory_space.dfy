/** The managed memory space: a list of allocated blocks and a list of free blocks, both linked lists,
    with `malloc` carving allocations out of free blocks, `free` recycling them and `defrag` merging
    free blocks. */
module MemorySpace {
  import opened MemoryBlock
  import opened LinkedList

  /** The two lists of a memory space. */
  datatype Space = Space(allocatedList: List, freeList: List)

  /** What malloc returns (a base address, or -1), together with the space after the call. */
  datatype Allocation = Allocation(address: int, after: Space)

  /** Both lists keep their representation invariant. */
  ghost predicate Wellformed(m: Space) {
    Valid(m.allocatedList) && Valid(m.freeList)
  }

  function AllocatedBlocks(m: Space): seq<Block> { Contents(m.allocatedList) }

  function FreeBlocks(m: Space): seq<Block> { Contents(m.freeList) }

  /** The invariant of a space created with maxSize: the lengths of all blocks add up to maxSize,
      every block lies in [0, maxSize), and no two blocks of either list share a word. */
  ghost predicate BlocksFit(inUse: seq<Block>, free: seq<Block>, maxSize: int) {
    && Sum(inUse) + Sum(free) == maxSize
    && (forall k :: 0 <= k < |inUse| ==> InSpace(inUse[k], maxSize))
    && (forall k :: 0 <= k < |free| ==> InSpace(free[k], maxSize))
    && PairwiseDisjoint(multiset(inUse) + multiset(free))
  }

  ghost predicate Consistent(m: Space, maxSize: int) {
    Wellformed(m) && BlocksFit(AllocatedBlocks(m), FreeBlocks(m), maxSize)
  }

  // ---------------------------------------------------------------------------
  // Construction
  // ---------------------------------------------------------------------------

  /** The constructor: nothing allocated, and one free block covering the whole space. */
  function New(maxSize: int): (m: Space)
    ensures Wellformed(m)
    ensures AllocatedBlocks(m) == [] && FreeBlocks(m) == [Block(0, maxSize)]
  {
    Space(Empty(), AddLast(Empty(), Some(Block(0, maxSize))))
  }

  /** A new space holds maxSize words in all; when maxSize is not negative it meets the invariant. */
  lemma NewConsistent(maxSize: int)
    ensures Sum(AllocatedBlocks(New(maxSize))) + Sum(FreeBlocks(New(maxSize))) == maxSize
    ensures maxSize >= 0 ==> Consistent(New(maxSize), maxSize)
  {
    var m := New(maxSize);
    assert Sum(FreeBlocks(m)) == maxSize + Sum([]);
    assert multiset(AllocatedBlocks(m)) + multiset(FreeBlocks(m)) == multiset{Block(0, maxSize)};
    AddDisjoint(multiset{}, Block(0, maxSize));
    assert multiset{} + multiset{Block(0, maxSize)} == multiset{Block(0, maxSize)};
  }

  // ---------------------------------------------------------------------------
  // malloc
  // ---------------------------------------------------------------------------

  /** No free block is long enough for the request. */
  ghost predicate NoFit(s: seq<Block>, length: int) {
    forall k :: 0 <= k < |s| ==> s[k].length < length
  }

  /** Position i holds the best fit for the request: it is long enough, no block long enough leaves a
      smaller leftover, and every block long enough before it leaves a strictly larger one. */
  ghost predicate IsBestFit(s: seq<Block>, length: int, i: int) {
    && 0 <= i < |s|
    && s[i].length >= length
    && (forall k :: 0 <= k < |s| && s[k].length >= length ==> s[i].length - length <= s[k].length - length)
    && (forall k :: 0 <= k < i && s[k].length >= length ==> s[i].length - length < s[k].length - length)
  }

  /** The variables of malloc's scan: base address and length of the best block so far, and its leftover
      `min`; all three are -1 until some block fits. */
  datatype Candidate = Candidate(address: int, savedLength: int, min: int)

  const NoCandidate := Candidate(-1, -1, -1)

  function CandidateFor(b: Block, length: int): Candidate {
    Candidate(b.baseAddress, b.length, b.length - length)
  }

  /** malloc's loop over the free list from node c on: a block long enough replaces the candidate when
      there is none yet or when it leaves a strictly smaller leftover. */
  function Scan(c: Chain, length: int, cand: Candidate): (r: Candidate)
    ensures r == cand || (r.savedLength >= length && r == CandidateFor(Block(r.address, r.savedLength), length)
                          && Block(r.address, r.savedLength) in Elements(c))
    decreases c
  {
    match c
    case Null => cand
    case Node(b, next) =>
      if b.length >= length && (cand.min == -1 || cand.min > b.length - length) then
        Scan(next, length, CandidateFor(b, length))
      else
        Scan(next, length, cand)
  }

  /** The free list s after the first length words of its i-th block went to the allocated list: the rest
      of the block takes its place, and is dropped only when it is empty and was the only block. */
  ghost function Carved(s: seq<Block>, i: int, length: int): seq<Block>
    requires 0 <= i < |s|
  {
    if |s| == 1 && s[i].length == length then []
    else s[..i] + [Block(s[i].baseAddress + length, s[i].length - length)] + s[i + 1..]
  }

  /** malloc's surgery on the free list once it chose the block {address, savedLength}: the block is
      looked up by value and removed, and {address + length, savedLength - length} is inserted at its
      position unless the list became empty and nothing is left over. */
  function TakeFromFree(free: List, address: int, savedLength: int, length: int): (r: List)
    requires Valid(free) && Block(address, savedLength) in Contents(free)
    ensures Valid(r)
  {
    var helpIndex := IndexOf(free, Block(address, savedLength));
    var removed := RemoveAt(free, helpIndex).value;
    var updated := Block(address + length, savedLength - length);
    if removed.size != 0 || savedLength - length != 0 then Add(removed, helpIndex, Some(updated)).value
    else removed
  }

  /** The surgery carves the first copy of the chosen block. */
  lemma TakeFromFreeCarves(free: List, address: int, savedLength: int, length: int)
    requires Valid(free) && Block(address, savedLength) in Contents(free)
    ensures Contents(TakeFromFree(free, address, savedLength, length))
            == Carved(Contents(free), IndexOf(free, Block(address, savedLength)), length)
  {
    var s := Contents(free);
    var helpIndex := IndexOf(free, Block(address, savedLength));
    var removed := RemoveAt(free, helpIndex).value;
    assert Contents(removed) == s[..helpIndex] + s[helpIndex + 1..];
    assert Contents(removed)[..helpIndex] == s[..helpIndex];
    assert Contents(removed)[helpIndex..] == s[helpIndex + 1..];
    var updated := Block(address + length, savedLength - length);
    if removed.size != 0 || savedLength - length != 0 {
      var added := Add(removed, helpIndex, Some(updated)).value;
      assert Contents(added) == s[..helpIndex] + [updated] + s[helpIndex + 1..];
      assert s[helpIndex] == Block(address, savedLength);
      assert removed.size == |s| - 1;
      assert TakeFromFree(free, address, savedLength, length) == added;
      assert !(|s| == 1 && s[helpIndex].length == length);
      assert Carved(s, helpIndex, length) == s[..helpIndex] + [updated] + s[helpIndex + 1..];
    } else {
      assert TakeFromFree(free, address, savedLength, length) == removed;
      assert |s| == 1 && s[helpIndex].length == length;
      assert Carved(s, helpIndex, length) == [];
    }
  }

  /** malloc: the best-fit free block (the first of those leaving the least leftover) is split; its front
      part is appended to the allocated list and its rest replaces it in the free list, even when that rest
      is empty, unless the free list would otherwise be left empty. The base address is returned, or -1
      when no block fits. */
  function Malloc(m: Space, length: int): (r: Allocation)
    requires Wellformed(m)
    ensures Wellformed(r.after)
    ensures r.address == -1 ==> r.after == m
  {
    var cand := Scan(m.freeList.first, length, NoCandidate);
    if cand.address != -1 then
      var newMB := Block(cand.address, length);
      var inUse := AddLast(m.allocatedList, Some(newMB));
      Allocation(cand.address, Space(inUse, TakeFromFree(m.freeList, cand.address, cand.savedLength, length)))
    else
      Allocation(-1, m)
  }

  /** The scan, started after the blocks p with the candidate they leave, ends with the best fit of p
      followed by the rest of the list, or with no candidate when nothing fits; i is that position or -1. */
  lemma {:induction false} ScanFrom(p: seq<Block>, c: Chain, length: int, cand: Candidate, best: int)
    returns (i: int)
    requires best == -1 ==> NoFit(p, length) && cand == NoCandidate
    requires best != -1 ==> IsBestFit(p, length, best) && cand == CandidateFor(p[best], length)
    ensures i == -1 ==> NoFit(p + Elements(c), length) && Scan(c, length, cand) == NoCandidate
    ensures i != -1 ==> IsBestFit(p + Elements(c), length, i)
                        && Scan(c, length, cand) == CandidateFor((p + Elements(c))[i], length)
    decreases c
  {
    match c
    case Null =>
      assert p + Elements(c) == p;
      i := best;
    case Node(b, next) =>
      var p' := p + [b];
      assert p + Elements(c) == p' + Elements(next);
      if b.length >= length && (cand.min == -1 || cand.min > b.length - length) {
        assert IsBestFit(p', length, |p|);
        i := ScanFrom(p', next, length, CandidateFor(b, length), |p|);
      } else {
        if best == -1 {
          assert NoFit(p', length);
        } else {
          assert IsBestFit(p', length, best);
        }
        i := ScanFrom(p', next, length, cand, best);
      }
  }

  /** At most one position is the best fit. */
  lemma BestFitUnique(s: seq<Block>, length: int, i: int, j: int)
    requires IsBestFit(s, length, i) && IsBestFit(s, length, j)
    ensures i == j
  {
  }

  /** malloc's scan finds the best fit: it ends with no candidate exactly when no block is long enough,
      and otherwise with the base address, length and leftover of the best-fit block. The best fit exists
      whenever some block is long enough; i is its position, or -1. */
  lemma ScanFindsBestFit(c: Chain, length: int) returns (i: int)
    ensures NoFit(Elements(c), length) <==> Scan(c, length, NoCandidate) == NoCandidate
    ensures NoFit(Elements(c), length) <==> i == -1
    ensures i != -1 ==> IsBestFit(Elements(c), length, i)
    ensures forall j :: IsBestFit(Elements(c), length, j) ==>
              Scan(c, length, NoCandidate) == CandidateFor(Elements(c)[j], length)
  {
    assert [] + Elements(c) == Elements(c);
    i := ScanFrom([], c, length, NoCandidate, -1);
    forall j | IsBestFit(Elements(c), length, j)
      ensures Scan(c, length, NoCandidate) == CandidateFor(Elements(c)[j], length)
    {
      BestFitUnique(Elements(c), length, i, j);
    }
  }

  /** The best-fit block is the first block equal to it: an earlier copy would have been chosen instead. */
  lemma BestFitIsFirstCopy(s: seq<Block>, length: int, i: int)
    requires IsBestFit(s, length, i)
    ensures s[i] !in s[..i]
  {
    assert forall k :: 0 <= k < i ==> s[k] != s[i];
  }

  /** No fit: malloc returns -1 and changes nothing. */
  lemma MallocNoFit(m: Space, length: int)
    requires Wellformed(m)
    requires NoFit(FreeBlocks(m), length)
    ensures Malloc(m, length) == Allocation(-1, m)
  {
    var _ := ScanFindsBestFit(m.freeList.first, length);
  }

  /** malloc fails exactly when no block is long enough or the best-fit block is based at -1, the value
      malloc also uses to say "no candidate". */
  lemma MallocFails(m: Space, length: int)
    requires Wellformed(m)
    ensures Malloc(m, length).address == -1 <==>
              forall i :: IsBestFit(FreeBlocks(m), length, i) ==> FreeBlocks(m)[i].baseAddress == -1
  {
    var free := FreeBlocks(m);
    var i := ScanFindsBestFit(m.freeList.first, length);
    var address := Malloc(m, length).address;
    assert address == Scan(m.freeList.first, length, NoCandidate).address;
    if i != -1 {
      assert address == free[i].baseAddress;
      forall j | IsBestFit(free, length, j)
        ensures free[j].baseAddress == address
      {
        BestFitUnique(free, length, i, j);
      }
    }
  }

  /** Best fit: malloc returns the base address A of the best-fit block {A, L}, appends {A, length} to the
      allocated list, and puts {A + length, L - length} in its place in the free list. The free list loses
      the block only when it was the only one and fitted exactly; a zero-length rest is kept otherwise. */
  lemma MallocBestFit(m: Space, length: int, i: int)
    requires Wellformed(m)
    requires IsBestFit(FreeBlocks(m), length, i)
    requires FreeBlocks(m)[i].baseAddress != -1
    ensures Malloc(m, length).address == FreeBlocks(m)[i].baseAddress
    ensures AllocatedBlocks(Malloc(m, length).after) == AllocatedBlocks(m) + [Block(FreeBlocks(m)[i].baseAddress, length)]
    ensures FreeBlocks(Malloc(m, length).after) == Carved(FreeBlocks(m), i, length)
  {
    var free := FreeBlocks(m);
    var chosen := free[i];
    var _ := ScanFindsBestFit(m.freeList.first, length);
    assert Scan(m.freeList.first, length, NoCandidate) == CandidateFor(chosen, length);
    BestFitIsFirstCopy(free, length, i);
    FirstCopyIsIndexOf(m.freeList, chosen, i);
    TakeFromFreeCarves(m.freeList, chosen.baseAddress, chosen.length, length);
  }

  /** A zero-length leftover survives: an exact fit in a free list of two or more blocks leaves a
      zero-length block where the chosen block was, so the free list keeps its size. */
  lemma MallocKeepsEmptyLeftover(m: Space, length: int, i: int)
    requires Wellformed(m)
    requires IsBestFit(FreeBlocks(m), length, i) && FreeBlocks(m)[i].baseAddress != -1
    requires FreeBlocks(m)[i].length == length && |FreeBlocks(m)| > 1
    ensures var after := Malloc(m, length).after;
            |FreeBlocks(after)| == |FreeBlocks(m)|
            && FreeBlocks(after)[i] == Block(FreeBlocks(m)[i].baseAddress + length, 0)
  {
    MallocBestFit(m, length, i);
    CarvedInPlace(FreeBlocks(m), i, length);
  }

  /** Unless the block is dropped, carving keeps the list's length and puts the rest at position i. */
  lemma CarvedInPlace(s: seq<Block>, i: int, length: int)
    requires 0 <= i < |s| && !(|s| == 1 && s[i].length == length)
    ensures |Carved(s, i, length)| == |s|
    ensures Carved(s, i, length)[i] == Block(s[i].baseAddress + length, s[i].length - length)
  {
  }

  /** Carving length words out of a free block takes exactly length words out of the free list. */
  lemma SumCarved(s: seq<Block>, i: int, length: int)
    requires 0 <= i < |s|
    ensures Sum(Carved(s, i, length)) == Sum(s) - length
  {
    if |s| == 1 && s[i].length == length {
      assert s == [s[i]];
      assert Sum(s) == s[i].length + Sum([]);
    } else {
      SumReplace(s, i, Block(s[i].baseAddress + length, s[i].length - length));
    }
  }

  /** malloc keeps the total length of both lists, whatever the requested length. */
  lemma MallocConserves(m: Space, length: int)
    requires Wellformed(m)
    ensures var after := Malloc(m, length).after;
            Sum(AllocatedBlocks(after)) + Sum(FreeBlocks(after)) == Sum(AllocatedBlocks(m)) + Sum(FreeBlocks(m))
  {
    var free := FreeBlocks(m);
    var i := ScanFindsBestFit(m.freeList.first, length);
    var after := Malloc(m, length).after;
    if i != -1 && free[i].baseAddress != -1 {
      MallocBestFit(m, length, i);
      var n := Block(free[i].baseAddress, length);
      SumConcat(AllocatedBlocks(m), [n]);
      assert Sum([n]) == length + Sum([]);
      SumCarved(free, i, length);
      assert Sum(AllocatedBlocks(after)) == Sum(AllocatedBlocks(m)) + length;
      assert Sum(FreeBlocks(after)) == Sum(free) - length;
    } else {
      MallocFails(m, length);
      assert after == m;
    }
  }

  /** Splitting the i-th free block into an allocated front part of the given length and a free rest keeps
      the invariant; the rest is dropped only when it is empty and was the only free block. */
  lemma CarveKeepsFit(a: seq<Block>, f: seq<Block>, i: int, length: int, maxSize: int)
    requires BlocksFit(a, f, maxSize)
    requires 0 <= i < |f| && 0 <= length <= f[i].length
    ensures BlocksFit(a + [Block(f[i].baseAddress, length)], Carved(f, i, length), maxSize)
  {
    var n := Block(f[i].baseAddress, length);
    SumConcat(a, [n]);
    assert Sum([n]) == length + Sum([]);
    SumCarved(f, i, length);
    CarveKeepsDisjoint(a, f, i, length);
    CarveKeepsInSpace(a, f, i, length, maxSize);
  }

  /** The blocks of s, as a multiset, are those before and after position i plus s[i]. */
  lemma SplitAt(s: seq<Block>, i: int)
    requires 0 <= i < |s|
    ensures multiset(s) == multiset(s[..i]) + multiset(s[i + 1..]) + multiset{s[i]}
  {
    assert s == s[..i] + [s[i]] + s[i + 1..];
  }

  /** The free list after carving, as a multiset: the blocks around position i, plus the rest of the
      carved block unless it was dropped. */
  lemma CarvedMultiset(f: seq<Block>, i: int, length: int)
    requires 0 <= i < |f|
    ensures var left := Block(f[i].baseAddress + length, f[i].length - length);
            multiset(Carved(f, i, length))
            == multiset(f[..i]) + multiset(f[i + 1..]) + (if Carved(f, i, length) == [] then multiset{} else multiset{left})
  {
    var left := Block(f[i].baseAddress + length, f[i].length - length);
    if |f| == 1 && f[i].length == length {
      assert f[..i] == [] && f[i + 1..] == [];
    } else {
      var f' := f[..i] + [left] + f[i + 1..];
      assert f'[..i] == f[..i] && f'[i + 1..] == f[i + 1..] && f'[i] == left;
      SplitAt(f', i);
    }
  }

  /** Splitting a block into a front part and a rest, both inside it and not overlapping each other, keeps
      a collection pairwise disjoint, with or without the rest. */
  lemma SplitKeepsDisjoint(rest: multiset<Block>, whole: Block, front: Block, back: Block)
    requires PairwiseDisjoint(rest + multiset{whole})
    requires Inside(front, whole) && Inside(back, whole) && !Overlap(front, back)
    ensures PairwiseDisjoint(rest + multiset{front})
    ensures PairwiseDisjoint(rest + multiset{back} + multiset{front})
  {
    AddDisjoint(rest, whole);
    InsideKeepsDisjoint(rest, whole, front);
    InsideKeepsDisjoint(rest, whole, back);
    AddDisjoint(rest, front);
    AddDisjoint(rest, back);
    AddDisjoint(rest + multiset{back}, front);
  }

  /** Both lists after carving, as one multiset: the blocks the whole block did not touch, the allocated
      front part, and the free rest unless it was dropped. */
  lemma CarveMultisets(a: seq<Block>, f: seq<Block>, i: int, length: int)
    requires 0 <= i < |f|
    ensures var rest := multiset(a) + multiset(f[..i]) + multiset(f[i + 1..]);
            var n := Block(f[i].baseAddress, length);
            var left := Block(f[i].baseAddress + length, f[i].length - length);
            && multiset(a) + multiset(f) == rest + multiset{f[i]}
            && multiset(a + [n]) + multiset(Carved(f, i, length))
               == if Carved(f, i, length) == [] then rest + multiset{n} else rest + multiset{left} + multiset{n}
  {
    var n := Block(f[i].baseAddress, length);
    SplitAt(f, i);
    CarvedMultiset(f, i, length);
    assert multiset(a + [n]) == multiset(a) + multiset{n};
  }

  /** The two parts of a carved block overlap nothing the whole block did not overlap. */
  lemma CarveKeepsDisjoint(a: seq<Block>, f: seq<Block>, i: int, length: int)
    requires PairwiseDisjoint(multiset(a) + multiset(f))
    requires 0 <= i < |f| && 0 <= length <= f[i].length
    ensures PairwiseDisjoint(multiset(a + [Block(f[i].baseAddress, length)]) + multiset(Carved(f, i, length)))
  {
    var n := Block(f[i].baseAddress, length);
    var left := Block(f[i].baseAddress + length, f[i].length - length);
    var rest := multiset(a) + multiset(f[..i]) + multiset(f[i + 1..]);
    CarveMultisets(a, f, i, length);
    SplitKeepsDisjoint(rest, f[i], n, left);
  }

  /** Both parts of a carved block lie where the whole block did. */
  lemma CarveKeepsInSpace(a: seq<Block>, f: seq<Block>, i: int, length: int, maxSize: int)
    requires forall k :: 0 <= k < |a| ==> InSpace(a[k], maxSize)
    requires forall k :: 0 <= k < |f| ==> InSpace(f[k], maxSize)
    requires 0 <= i < |f| && 0 <= length <= f[i].length
    ensures var a' := a + [Block(f[i].baseAddress, length)];
            forall k :: 0 <= k < |a'| ==> InSpace(a'[k], maxSize)
    ensures var f' := Carved(f, i, length);
            forall k :: 0 <= k < |f'| ==> InSpace(f'[k], maxSize)
  {
    var a', f' := a + [Block(f[i].baseAddress, length)], Carved(f, i, length);
    forall k | 0 <= k < |a'|
      ensures InSpace(a'[k], maxSize)
    {
      if k < |a| {
        assert a'[k] == a[k];
      }
    }
    if f' != [] {
      assert f' == f[..i] + [Block(f[i].baseAddress + length, f[i].length - length)] + f[i + 1..];
      forall k | 0 <= k < |f'|
        ensures InSpace(f'[k], maxSize)
      {
        if k != i {
          assert f'[k] == f[k];
        }
      }
    }
  }

  /** malloc of a non-negative length keeps the invariant of the space. */
  lemma MallocKeepsConsistent(m: Space, length: int, maxSize: int)
    requires Consistent(m, maxSize) && length >= 0
    ensures Consistent(Malloc(m, length).after, maxSize)
  {
    var free := FreeBlocks(m);
    var i := ScanFindsBestFit(m.freeList.first, length);
    if i == -1 {
      MallocNoFit(m, length);
    } else {
      assert InSpace(free[i], maxSize);
      MallocBestFit(m, length, i);
      CarveKeepsFit(AllocatedBlocks(m), free, i, length, maxSize);
    }
  }

  // ---------------------------------------------------------------------------
  // free
  // ---------------------------------------------------------------------------

  /** Position k holds the first block of s based at address. */
  ghost predicate IsFirstWithBase(s: seq<Block>, address: int, k: int) {
    0 <= k < |s| && s[k].baseAddress == address && forall j :: 0 <= j < k ==> s[j].baseAddress != address
  }

  /** A walk from c stopping at the first block based at address; None when the walk falls off the end. */
  function FirstWithBase(c: Chain, address: int): (r: Option<Block>)
    ensures r.None? <==> forall k :: 0 <= k < |Elements(c)| ==> Elements(c)[k].baseAddress != address
    ensures r.Some? ==> r.value in Elements(c) && r.value.baseAddress == address
    ensures forall k :: IsFirstWithBase(Elements(c), address, k) ==> r == Some(Elements(c)[k])
    decreases c
  {
    match c
    case Null => None
    case Node(b, next) =>
      assert Elements(c) == [b] + Elements(next);
      assert Elements(c)[0] == b;
      if b.baseAddress == address then Some(b)
      else
        assert forall k :: 1 <= k < |Elements(c)| ==> Elements(c)[k] == Elements(next)[k - 1];
        assert forall k :: 0 <= k < |Elements(next)| ==> Elements(next)[k] == Elements(c)[k + 1];
        assert forall k :: IsFirstWithBase(Elements(c), address, k) ==> IsFirstWithBase(Elements(next), address, k - 1);
        FirstWithBase(next, address)
  }

  /** When some block of s is based at address, a first such block exists. */
  lemma {:induction false} FirstWithBaseExists(s: seq<Block>, address: int, j: int) returns (k: int)
    requires 0 <= j < |s| && s[j].baseAddress == address
    ensures IsFirstWithBase(s, address, k)
    decreases j
  {
    if exists i :: 0 <= i < j && s[i].baseAddress == address {
      var i :| 0 <= i < j && s[i].baseAddress == address;
      k := FirstWithBaseExists(s, address, i);
    } else {
      k := j;
    }
  }

  /** free: an empty allocated list throws; otherwise the first allocated block based at address moves,
      length unchanged, to the end of the free list, and an address with no allocated block changes
      nothing. */
  function Free(m: Space, address: int): (r: Result<Space>)
    requires Wellformed(m)
    ensures r.Throw? <==> m.allocatedList.size == 0
    ensures r.Throw? ==> r.exception == IllegalArgument
    ensures r.Ok? ==> Wellformed(r.value)
  {
    if m.allocatedList.size == 0 then Throw(IllegalArgument)
    else
      match FirstWithBase(m.allocatedList.first, address)
      case None => Ok(m)
      case Some(found) =>
        var mb := Block(address, found.length);
        var inUse := RemoveBlock(m.allocatedList, mb).value;
        Ok(Space(inUse, AddLast(m.freeList, Some(mb))))
  }

  /** free of an address no allocated block starts at changes nothing (when something is allocated). */
  lemma FreeUnknownAddress(m: Space, address: int)
    requires Wellformed(m) && m.allocatedList.size != 0
    requires forall k :: 0 <= k < |AllocatedBlocks(m)| ==> AllocatedBlocks(m)[k].baseAddress != address
    ensures Free(m, address) == Ok(m)
  {
    var s := Elements(m.allocatedList.first);
    assert s == AllocatedBlocks(m);
    assert forall k :: 0 <= k < |s| ==> s[k].baseAddress != address;
  }

  /** free of the base address of the k-th allocated block, the first one based there, takes that block
      out of the allocated list and appends it, unchanged, to the free list. */
  lemma FreeMoves(m: Space, address: int, k: int)
    requires Wellformed(m)
    requires IsFirstWithBase(AllocatedBlocks(m), address, k)
    ensures Free(m, address).Ok?
    ensures AllocatedBlocks(Free(m, address).value) == AllocatedBlocks(m)[..k] + AllocatedBlocks(m)[k + 1..]
    ensures FreeBlocks(Free(m, address).value) == FreeBlocks(m) + [AllocatedBlocks(m)[k]]
  {
    var a := AllocatedBlocks(m);
    assert FirstWithBase(m.allocatedList.first, address) == Some(a[k]);
    assert a[k] == Block(address, a[k].length);
    assert a[k] !in a[..k] by {
      forall j | 0 <= j < k
        ensures a[..k][j] != a[k]
      {
        assert a[j].baseAddress != address;
      }
    }
    FirstCopyIsIndexOf(m.allocatedList, a[k], k);
  }

  /** Moving the k-th block of a to the end of f keeps the total length of both. */
  lemma SumMove(a: seq<Block>, f: seq<Block>, k: int)
    requires 0 <= k < |a|
    ensures Sum(a[..k] + a[k + 1..]) + Sum(f + [a[k]]) == Sum(a) + Sum(f)
  {
    SumRemove(a, k);
    SumConcat(f, [a[k]]);
    assert Sum([a[k]]) == a[k].length + Sum([]);
  }

  /** free keeps the total length of both lists. */
  lemma FreeConserves(m: Space, address: int)
    requires Wellformed(m)
    ensures Free(m, address).Ok? ==>
              var after := Free(m, address).value;
              Sum(AllocatedBlocks(after)) + Sum(FreeBlocks(after)) == Sum(AllocatedBlocks(m)) + Sum(FreeBlocks(m))
  {
    var a := AllocatedBlocks(m);
    if Free(m, address).Ok? {
      if exists j :: 0 <= j < |a| && a[j].baseAddress == address {
        var j :| 0 <= j < |a| && a[j].baseAddress == address;
        var k := FirstWithBaseExists(a, address, j);
        FreeMoves(m, address, k);
        SumMove(a, FreeBlocks(m), k);
      } else {
        FreeUnknownAddress(m, address);
      }
    }
  }

  /** Moving the k-th allocated block to the end of the free list keeps the invariant. */
  lemma MoveKeepsFit(a: seq<Block>, f: seq<Block>, k: int, maxSize: int)
    requires BlocksFit(a, f, maxSize) && 0 <= k < |a|
    ensures BlocksFit(a[..k] + a[k + 1..], f + [a[k]], maxSize)
  {
    var a' := a[..k] + a[k + 1..];
    var f' := f + [a[k]];
    SplitAt(a, k);
    assert multiset(a') + multiset(f') == multiset(a) + multiset(f);
    SumMove(a, f, k);
    forall i | 0 <= i < |a'|
      ensures InSpace(a'[i], maxSize)
    {
      if i < k {
        assert a'[i] == a[i];
      } else {
        assert a'[i] == a[i + 1];
      }
    }
    forall i | 0 <= i < |f'|
      ensures InSpace(f'[i], maxSize)
    {
      if i < |f| {
        assert f'[i] == f[i];
      }
    }
  }

  /** free keeps the invariant of the space. */
  lemma FreeKeepsConsistent(m: Space, address: int, maxSize: int)
    requires Consistent(m, maxSize)
    ensures Free(m, address).Ok? ==> Consistent(Free(m, address).value, maxSize)
  {
    var a := AllocatedBlocks(m);
    if Free(m, address).Ok? && exists j :: 0 <= j < |a| && a[j].baseAddress == address {
      var j :| 0 <= j < |a| && a[j].baseAddress == address;
      var k := FirstWithBaseExists(a, address, j);
      FreeMoves(m, address, k);
      MoveKeepsFit(a, FreeBlocks(m), k, maxSize);
    }
  }

  // ---------------------------------------------------------------------------
  // defrag
  // ---------------------------------------------------------------------------

  /** The free lists defrag is modelled on: every block is non-empty and no two share a base address. */
  ghost predicate Mergeable(s: seq<Block>) {
    && (forall k :: 0 <= k < |s| ==> s[k].length > 0)
    && (forall i, j :: 0 <= i < j < |s| ==> s[i].baseAddress != s[j].baseAddress)
  }

  /** s after its head has absorbed its j-th block: the head keeps its base and gains the length. */
  ghost function Merged(s: seq<Block>, j: int): seq<Block>
    requires 1 <= j < |s|
  {
    [Block(s[0].baseAddress, s[0].length + s[j].length)] + s[1..j] + s[j + 1..]
  }

  /** The k-th block after the head absorbed the j-th one. */
  lemma MergedAt(s: seq<Block>, j: int, k: int)
    requires 1 <= j < |s| && 0 <= k < |s| - 1
    ensures |Merged(s, j)| == |s| - 1
    ensures Merged(s, j)[k] == if k == 0 then Block(s[0].baseAddress, s[0].length + s[j].length)
                               else if k < j then s[k] else s[k + 1]
  {
  }

  /** The first node's block replaced in place; `last` is that same node in a one-node list. */
  function SetHead(l: List, b: Block): (r: List)
    requires Valid(l) && l.size > 0
    ensures Valid(r) && r.size == l.size && Contents(r) == [b] + Contents(l)[1..]
  {
    var first := Node(b, l.first.next);
    FinalNodeIsLast(l.first);
    FinalNodeIsLast(first);
    List(first, if l.size == 1 then Node(b, Null) else l.last, l.size)
  }

  /** In a mergeable list the block at position j starting where the head ends is the only such block,
      and after the head absorbs it the list is still mergeable. */
  lemma HeadAbsorbs(s: seq<Block>, j: int)
    requires Mergeable(s) && 1 <= j < |s| && s[j].baseAddress == s[0].End()
    ensures forall k :: 0 <= k < |s| && s[k].baseAddress == s[0].End() ==> k == j
    ensures Mergeable(Merged(s, j))
  {
    var t := Merged(s, j);
    forall a, b | 0 <= a < b < |t|
      ensures t[a].baseAddress != t[b].baseAddress
    {
      MergedAt(s, j, a);
      MergedAt(s, j, b);
    }
    forall k | 0 <= k < |t|
      ensures t[k].length > 0
    {
      MergedAt(s, j, k);
    }
  }

  /** One step of defrag: the head, grown by the block mb2 that starts where it ends, replaces the old head,
      and mb2, looked up by value, is removed. */
  function AbsorbNext(l: List, mb2: Block): (r: List)
    requires Valid(l) && Mergeable(Contents(l)) && l.size > 0
    requires FirstWithBase(l.first, Contents(l)[0].End()) == Some(mb2)
    ensures Valid(r) && r.size == l.size - 1 && Mergeable(Contents(r))
    ensures 1 <= IndexOf(l, mb2) && Contents(r) == Merged(Contents(l), IndexOf(l, mb2))
  {
    var s := Contents(l);
    var grown := SetHead(l, Block(s[0].baseAddress, s[0].length + mb2.length));
    GrownLookup(s, Contents(grown), mb2, IndexOf(l, mb2), IndexOf(grown, mb2));
    RemoveBlock(grown, mb2).value
  }

  /** Looking the absorbed block up by value in the list with the grown head finds the position it had:
      the grown head starts at the old head's base, not where mb2 does. */
  lemma GrownLookup(s: seq<Block>, g: seq<Block>, mb2: Block, k: int, j: int)
    requires Mergeable(s) && |s| > 0 && mb2.baseAddress == s[0].End()
    requires g == [Block(s[0].baseAddress, s[0].length + mb2.length)] + s[1..]
    requires 0 <= k < |s| && s[k] == mb2 && mb2 !in s[..k]
    requires -1 <= j < |g| && (j == -1 <==> mb2 !in g) && (j != -1 ==> g[j] == mb2 && mb2 !in g[..j])
    ensures 1 <= j == k
    ensures g[..j] + g[j + 1..] == Merged(s, k) && Mergeable(Merged(s, k))
  {
    assert k != 0;
    assert g[k] == mb2;
    assert j != 0;
    assert s[j] == g[j];
    HeadAbsorbs(s, k);
    assert g[..j] == [g[0]] + s[1..j];
    assert g[j + 1..] == s[j + 1..];
  }

  /** The step merges the head with the position j of mb2, the only block starting where the head ends. */
  lemma AbsorbMerges(l: List, mb2: Block) returns (j: int)
    requires Valid(l) && Mergeable(Contents(l)) && l.size > 0
    requires FirstWithBase(l.first, Contents(l)[0].End()) == Some(mb2)
    ensures 1 <= j < |Contents(l)| && Contents(l)[j] == mb2
    ensures forall k :: 0 <= k < |Contents(l)| && Contents(l)[k].baseAddress == Contents(l)[0].End() ==> k == j
    ensures Contents(AbsorbNext(l, mb2)) == Merged(Contents(l), j)
  {
    j := IndexOf(l, mb2);
    HeadAbsorbs(Contents(l), j);
  }

  /** defrag on the free list. The outer loop's first step takes the head and scans the whole list with
      the inner iterator for a block starting where the head ends. Finding one, the head grows by its
      length, the block is removed, and defrag starts over. Finding none, the inner iterator is exhausted,
      and since it is created once for the whole call, the later outer steps compare nothing. After a
      recursive call the stale iterators meet only blocks based elsewhere, as bases are distinct. */
  function DefragFree(l: List): (r: List)
    requires Valid(l) && Mergeable(Contents(l))
    ensures Valid(r) && Mergeable(Contents(r))
    decreases l.size
  {
    if l.size == 0 then l
    else
      match FirstWithBase(l.first, Contents(l)[0].End())
      case None => l
      case Some(mb2) => DefragFree(AbsorbNext(l, mb2))
  }

  /** defrag: the free list as DefragFree leaves it; the allocated list is untouched. */
  function Defrag(m: Space): (r: Space)
    requires Wellformed(m) && Mergeable(FreeBlocks(m))
    ensures Wellformed(r) && AllocatedBlocks(r) == AllocatedBlocks(m)
  {
    Space(m.allocatedList, DefragFree(m.freeList))
  }

  /** The blocks of s not among gone, in their order. */
  function Without(s: seq<Block>, gone: seq<Block>): seq<Block> {
    if s == [] then [] else (if s[0] in gone then [] else [s[0]]) + Without(s[1..], gone)
  }

  lemma {:induction false} WithoutNothing(s: seq<Block>)
    ensures Without(s, []) == s
    decreases |s|
  {
    if s != [] {
      WithoutNothing(s[1..]);
    }
  }

  lemma {:induction false} WithoutConcat(x: seq<Block>, y: seq<Block>, gone: seq<Block>)
    ensures Without(x + y, gone) == Without(x, gone) + Without(y, gone)
    decreases |x|
  {
    if x == [] {
      assert x + y == y;
    } else {
      assert (x + y)[1..] == x[1..] + y;
      WithoutConcat(x[1..], y, gone);
    }
  }

  /** Adding a block that s does not hold to the removed ones changes nothing. */
  lemma {:induction false} WithoutIgnores(s: seq<Block>, e: Block, gone: seq<Block>)
    requires e !in s
    ensures Without(s, [e] + gone) == Without(s, gone)
    decreases |s|
  {
    if s != [] {
      WithoutIgnores(s[1..], e, gone);
    }
  }

  /** Facts about one absorption, for the lemmas below. */
  lemma DefragStep(l: List) returns (j: int, rest: List)
    requires Valid(l) && Mergeable(Contents(l)) && l.size > 0
    requires FirstWithBase(l.first, Contents(l)[0].End()).Some?
    ensures 1 <= j < |Contents(l)| && Contents(l)[j].baseAddress == Contents(l)[0].End()
    ensures forall k :: 0 <= k < |Contents(l)| && Contents(l)[k].baseAddress == Contents(l)[0].End() ==> k == j
    ensures Valid(rest) && Contents(rest) == Merged(Contents(l), j) && Mergeable(Contents(rest))
    ensures DefragFree(l) == DefragFree(rest)
  {
    var mb2 := FirstWithBase(l.first, Contents(l)[0].End()).value;
    j := AbsorbMerges(l, mb2);
    rest := AbsorbNext(l, mb2);
  }

  /** The blocks absorbed, in order, each come from s[1..] and start where the head, grown by the blocks
      absorbed before it, ends. */
  ghost predicate AbsorbedRun(s: seq<Block>, absorbed: seq<Block>)
    requires |s| > 0
  {
    forall k :: 0 <= k < |absorbed| ==>
      absorbed[k] in s[1..] && absorbed[k].baseAddress == s[0].End() + Sum(absorbed[..k])
  }

  /** Absorbing the block at j first and then the run a' of the merged list is a run of s. */
  lemma RunExtends(s: seq<Block>, j: int, a': seq<Block>)
    requires 1 <= j < |s| && s[j].baseAddress == s[0].End()
    requires AbsorbedRun(Merged(s, j), a')
    ensures AbsorbedRun(s, [s[j]] + a')
  {
    var t := Merged(s, j);
    var absorbed := [s[j]] + a';
    assert t[1..] == s[1..j] + s[j + 1..];
    forall k | 0 <= k < |absorbed|
      ensures absorbed[k] in s[1..] && absorbed[k].baseAddress == s[0].End() + Sum(absorbed[..k])
    {
      if k == 0 {
        assert absorbed[..k] == [];
      } else {
        assert absorbed[k] == a'[k - 1];
        assert absorbed[..k] == [s[j]] + a'[..k - 1];
        assert Sum(absorbed[..k]) == s[j].length + Sum(a'[..k - 1]);
        assert a'[k - 1] in t[1..];
      }
    }
  }

  /** The blocks of the merged list other than the run a' are the blocks of s other than s[j] and a'. */
  lemma WithoutMerged(s: seq<Block>, j: int, a': seq<Block>)
    requires 1 <= j < |s| && s[j] !in s[1..j] && s[j] !in s[j + 1..]
    ensures Without(Merged(s, j)[1..], a') == Without(s[1..], [s[j]] + a')
  {
    var absorbed := [s[j]] + a';
    assert s[1..] == s[1..j] + [s[j]] + s[j + 1..];
    assert Merged(s, j)[1..] == s[1..j] + s[j + 1..];
    WithoutConcat(s[1..j] + [s[j]], s[j + 1..], absorbed);
    WithoutConcat(s[1..j], [s[j]], absorbed);
    WithoutConcat(s[1..j], s[j + 1..], a');
    WithoutIgnores(s[1..j], s[j], a');
    WithoutIgnores(s[j + 1..], s[j], a');
    assert Without([s[j]], absorbed) == [] + Without([], absorbed);
  }

  /** The shape of the free list after defrag: the head keeps its base and has absorbed a run of blocks,
      each starting where the grown head ended; the other blocks are kept, unchanged and in order; the list
      is shorter by one block per absorbed block; and no block starts where the head now ends. */
  ghost predicate DefragShaped(s: seq<Block>, r: seq<Block>, absorbed: seq<Block>)
    requires |s| > 0
  {
    && r == [Block(s[0].baseAddress, s[0].length + Sum(absorbed))] + Without(s[1..], absorbed)
    && |r| == |s| - |absorbed|
    && AbsorbedRun(s, absorbed)
    && (forall k :: 0 <= k < |r| ==> r[k].baseAddress != r[0].End())
  }

  /** One absorption in front of a shaped defrag of the merged list gives a shaped defrag of s. */
  lemma ShapeStep(s: seq<Block>, j: int, r: seq<Block>, a': seq<Block>)
    requires 1 <= j < |s| && s[j].baseAddress == s[0].End() && s[j] !in s[1..j] && s[j] !in s[j + 1..]
    requires DefragShaped(Merged(s, j), r, a')
    ensures DefragShaped(s, r, [s[j]] + a')
  {
    var absorbed := [s[j]] + a';
    WithoutMerged(s, j, a');
    RunExtends(s, j, a');
    assert absorbed[1..] == a';
    assert Sum(absorbed) == s[j].length + Sum(a');
  }

  /** A list with no block starting where its head ends is its own shaped defrag, with nothing absorbed. */
  lemma ShapeUnmerged(s: seq<Block>)
    requires |s| > 0 && forall k :: 0 <= k < |s| ==> s[k].baseAddress != s[0].End()
    ensures DefragShaped(s, s, [])
  {
    WithoutNothing(s[1..]);
    assert s == [s[0]] + s[1..];
  }

  lemma {:induction false} DefragShape(l: List) returns (absorbed: seq<Block>)
    requires Valid(l) && Mergeable(Contents(l)) && l.size > 0
    ensures DefragShaped(Contents(l), Contents(DefragFree(l)), absorbed)
    decreases l.size
  {
    var s := Contents(l);
    if FirstWithBase(l.first, s[0].End()).None? {
      absorbed := [];
      ShapeUnmerged(s);
    } else {
      var j, rest := DefragStep(l);
      var t := Contents(rest);
      var a' := DefragShape(rest);
      absorbed := [s[j]] + a';
      assert s[j] !in s[1..j] && s[j] !in s[j + 1..] by {
        forall k | 1 <= k < |s| && k != j
          ensures s[k] != s[j]
        {}
      }
      ShapeStep(s, j, Contents(DefragFree(rest)), a');
    }
  }

  /** Each absorption keeps the total length of the free list. */
  lemma MergedConserves(s: seq<Block>, j: int)
    requires 1 <= j < |s|
    ensures Sum(Merged(s, j)) == Sum(s)
  {
    var t, x, y := s[1..], s[1..j], s[j + 1..];
    var h := Block(s[0].baseAddress, s[0].length + s[j].length);
    assert t[..j - 1] == x && t[j..] == y && t[j - 1] == s[j];
    SumRemove(t, j - 1);
    assert Merged(s, j) == [h] + (x + y);
    assert ([h] + (x + y))[1..] == x + y;
    assert Sum([h] + (x + y)) == h.length + Sum(x + y);
    assert Sum(s) == s[0].length + Sum(t);
  }

  /** defrag keeps the total length of the free list. */
  lemma {:induction false} DefragConserves(l: List)
    requires Valid(l) && Mergeable(Contents(l))
    ensures Sum(Contents(DefragFree(l))) == Sum(Contents(l))
    decreases l.size
  {
    if l.size > 0 && FirstWithBase(l.first, Contents(l)[0].End()).Some? {
      var j, rest := DefragStep(l);
      MergedConserves(Contents(l), j);
      DefragConserves(rest);
    }
  }

  /** A free list with no block starting where its head ends is left alone by defrag. */
  lemma DefragFixedPoint(l: List)
    requires Valid(l) && Mergeable(Contents(l))
    requires l.size > 0 ==> forall k :: 0 <= k < l.size ==> Contents(l)[k].baseAddress != Contents(l)[0].End()
    ensures DefragFree(l) == l
  {
  }

  /** A second defrag changes nothing. */
  lemma DefragIdempotent(l: List)
    requires Valid(l) && Mergeable(Contents(l))
    ensures DefragFree(DefragFree(l)) == DefragFree(l)
  {
    if l.size > 0 {
      var _ := DefragShape(l);
    }
    DefragFixedPoint(DefragFree(l));
  }

  /** Replacing the head and an adjacent block by their union keeps the invariant. */
  lemma MergedKeepsFit(a: seq<Block>, s: seq<Block>, j: int, maxSize: int)
    requires BlocksFit(a, s, maxSize) && Mergeable(s)
    requires 1 <= j < |s| && s[j].baseAddress == s[0].End()
    ensures BlocksFit(a, Merged(s, j), maxSize)
  {
    MergedConserves(s, j);
    MergedKeepsDisjoint(a, s, j);
    MergedKeepsInSpace(s, j, maxSize);
  }

  /** The union of the head and the block starting where it ends overlaps nothing either of them did not. */
  lemma MergedKeepsDisjoint(a: seq<Block>, s: seq<Block>, j: int)
    requires PairwiseDisjoint(multiset(a) + multiset(s))
    requires 1 <= j < |s| && s[j].baseAddress == s[0].End() && s[0].length > 0 && s[j].length > 0
    ensures PairwiseDisjoint(multiset(a) + multiset(Merged(s, j)))
  {
    var rest := multiset(a) + multiset(s[1..j]) + multiset(s[j + 1..]);
    MergedMultisets(a, s, j);
    JoinKeepsDisjoint(rest, s[0], s[j]);
  }

  /** Both lists before and after the head absorbs the j-th block, as multisets. */
  lemma MergedMultisets(a: seq<Block>, s: seq<Block>, j: int)
    requires 1 <= j < |s|
    ensures var rest := multiset(a) + multiset(s[1..j]) + multiset(s[j + 1..]);
            && multiset(a) + multiset(s) == rest + multiset{s[0]} + multiset{s[j]}
            && multiset(a) + multiset(Merged(s, j)) == rest + multiset{Block(s[0].baseAddress, s[0].length + s[j].length)}
  {
    var x, y := s[1..j], s[j + 1..];
    assert s == [s[0]] + x + [s[j]] + y;
    assert multiset(s) == multiset{s[0]} + multiset(x) + multiset{s[j]} + multiset(y);
    assert Merged(s, j) == [Block(s[0].baseAddress, s[0].length + s[j].length)] + x + y;
  }

  /** Two non-empty adjacent blocks can be replaced by their union in a pairwise-disjoint collection. */
  lemma JoinKeepsDisjoint(rest: multiset<Block>, x: Block, y: Block)
    requires PairwiseDisjoint(rest + multiset{x} + multiset{y})
    requires y.baseAddress == x.End() && x.length > 0 && y.length > 0
    ensures PairwiseDisjoint(rest + multiset{Block(x.baseAddress, x.length + y.length)})
  {
    AddDisjoint(rest + multiset{x}, y);
    AddDisjoint(rest, x);
    AddDisjoint(rest, Block(x.baseAddress, x.length + y.length));
  }

  /** The union of the head and the block starting where it ends lies where the two did. */
  lemma MergedKeepsInSpace(s: seq<Block>, j: int, maxSize: int)
    requires forall k :: 0 <= k < |s| ==> InSpace(s[k], maxSize)
    requires 1 <= j < |s| && s[j].baseAddress == s[0].End()
    ensures forall k :: 0 <= k < |Merged(s, j)| ==> InSpace(Merged(s, j)[k], maxSize)
  {
    var t := Merged(s, j);
    forall k | 0 <= k < |t|
      ensures InSpace(t[k], maxSize)
    {
      MergedAt(s, j, k);
      if k == 0 {
        assert InSpace(s[0], maxSize) && InSpace(s[j], maxSize);
      }
    }
  }

  lemma {:induction false} DefragFreeKeepsFit(a: seq<Block>, l: List, maxSize: int)
    requires Valid(l) && Mergeable(Contents(l)) && BlocksFit(a, Contents(l), maxSize)
    ensures BlocksFit(a, Contents(DefragFree(l)), maxSize)
    decreases l.size
  {
    if l.size > 0 && FirstWithBase(l.first, Contents(l)[0].End()).Some? {
      var j, rest := DefragStep(l);
      MergedKeepsFit(a, Contents(l), j, maxSize);
      DefragFreeKeepsFit(a, rest, maxSize);
    }
  }

  /** defrag keeps the invariant of the space. In a space that meets it, non-empty free blocks already have
      distinct base addresses, so defrag only needs every free block to be non-empty. */
  lemma DefragKeepsConsistent(m: Space, maxSize: int)
    requires Consistent(m, maxSize)
    requires forall k :: 0 <= k < |FreeBlocks(m)| ==> FreeBlocks(m)[k].length > 0
    ensures Mergeable(FreeBlocks(m))
    ensures Consistent(Defrag(m), maxSize)
  {
    var a := AllocatedBlocks(m);
    DistinctFreeBases(a, FreeBlocks(m));
    DefragFreeKeepsFit(a, m.freeList, maxSize);
  }

  /** Non-empty free blocks in a pairwise-disjoint space have distinct base addresses. */
  lemma DistinctFreeBases(a: seq<Block>, f: seq<Block>)
    requires PairwiseDisjoint(multiset(a) + multiset(f))
    requires forall k :: 0 <= k < |f| ==> f[k].length > 0
    ensures forall i, j :: 0 <= i < j < |f| ==> f[i].baseAddress != f[j].baseAddress
  {
    assert multiset(a + f) == multiset(a) + multiset(f);
    forall i, j | 0 <= i < j < |f|
      ensures f[i].baseAddress != f[j].baseAddress
    {
      assert (a + f)[|a| + i] == f[i] && (a + f)[|a| + j] == f[j];
      DisjointHasDistinctBases(a + f, |a| + i, |a| + j);
    }
  }
}
