/** Worked examples of the allocator on small spaces, each derived from the general lemmas. */
module Scenarios {
  import opened MemoryBlock
  import opened LinkedList
  import opened MemorySpace

  /** A list holding the blocks of s, in order, built by adding them at the end one by one. */
  function FromBlocks(s: seq<Block>): (l: List)
    ensures Valid(l) && Contents(l) == s
    decreases |s|
  {
    if s == [] then Empty()
    else
      var init := FromBlocks(s[..|s| - 1]);
      assert s == s[..|s| - 1] + [s[|s| - 1]];
      AddLast(init, Some(s[|s| - 1]))
  }

  /** A space with nothing allocated and the given free blocks. */
  function FreeOnly(free: seq<Block>): (m: Space)
    ensures Wellformed(m) && AllocatedBlocks(m) == [] && FreeBlocks(m) == free
  {
    Space(Empty(), FromBlocks(free))
  }

  /** Best fit over {0,10}, {20,5}, {40,7} for 5 words: {20,5} leaves nothing over and is chosen; its
      zero-length rest {25,0} stays in the free list, where it was, because other free blocks remain. */
  lemma BestFitExample(m: Space)
    requires Wellformed(m) && AllocatedBlocks(m) == []
    requires FreeBlocks(m) == [Block(0, 10), Block(20, 5), Block(40, 7)]
    ensures Malloc(m, 5).address == 20
    ensures AllocatedBlocks(Malloc(m, 5).after) == [Block(20, 5)]
    ensures FreeBlocks(Malloc(m, 5).after) == [Block(0, 10), Block(25, 0), Block(40, 7)]
  {
    var free := FreeBlocks(m);
    assert IsBestFit(free, 5, 1);
    MallocBestFit(m, 5, 1);
    assert Carved(free, 1, 5) == [Block(0, 10)] + [Block(25, 0)] + [Block(40, 7)];
  }

  /** The best-fit example on a space built from its free blocks, so its precondition is met. */
  lemma BestFitOnFreeOnly()
    ensures var m := FreeOnly([Block(0, 10), Block(20, 5), Block(40, 7)]);
            && Malloc(m, 5).address == 20
            && FreeBlocks(Malloc(m, 5).after) == [Block(0, 10), Block(25, 0), Block(40, 7)]
  {
    BestFitExample(FreeOnly([Block(0, 10), Block(20, 5), Block(40, 7)]));
  }

  /** Two blocks leaving the same leftover: the first one listed is chosen. */
  lemma TieBreakExample(m: Space)
    requires Wellformed(m) && AllocatedBlocks(m) == []
    requires FreeBlocks(m) == [Block(0, 10), Block(30, 10)]
    ensures Malloc(m, 5).address == 0
    ensures AllocatedBlocks(Malloc(m, 5).after) == [Block(0, 5)]
    ensures FreeBlocks(Malloc(m, 5).after) == [Block(5, 5), Block(30, 10)]
  {
    var free := FreeBlocks(m);
    assert IsBestFit(free, 5, 0);
    MallocBestFit(m, 5, 0);
    assert Carved(free, 0, 5) == [Block(5, 5)] + free[1..];
  }

  /** Nothing long enough: malloc fails and changes nothing. */
  lemma NoFitExample(m: Space)
    requires Wellformed(m) && FreeBlocks(m) == [Block(0, 3), Block(10, 4)]
    ensures Malloc(m, 5) == Allocation(-1, m)
  {
    MallocNoFit(m, 5);
  }

  /** Freeing what the tie-break example allocated moves {0,5} to the end of the free list. */
  lemma FreeAfterMallocExample(m: Space)
    requires Wellformed(m) && AllocatedBlocks(m) == []
    requires FreeBlocks(m) == [Block(0, 10), Block(30, 10)]
    ensures Free(Malloc(m, 5).after, 0).Ok?
    ensures AllocatedBlocks(Free(Malloc(m, 5).after, 0).value) == []
    ensures FreeBlocks(Free(Malloc(m, 5).after, 0).value) == [Block(5, 5), Block(30, 10), Block(0, 5)]
  {
    TieBreakExample(m);
    var after := Malloc(m, 5).after;
    assert IsFirstWithBase(AllocatedBlocks(after), 0, 0);
    FreeMoves(after, 0, 0);
  }

  /** defrag of {0,5}, {5,5}, {20,3}: the head absorbs {5,5}; {20,3} stays. */
  lemma DefragExample(l: List)
    requires Valid(l) && Contents(l) == [Block(0, 5), Block(5, 5), Block(20, 3)]
    ensures Contents(DefragFree(l)) == [Block(0, 10), Block(20, 3)]
  {
    var s := Contents(l);
    assert s[1].baseAddress == s[0].End();
    var j, rest := DefragStep(l);
    assert j == 1;
    MergedExample(s);
    DefragDoneExample(rest);
  }

  /** The head {0,5} absorbing its successor {5,5}. */
  lemma MergedExample(s: seq<Block>)
    requires s == [Block(0, 5), Block(5, 5), Block(20, 3)]
    ensures Merged(s, 1) == [Block(0, 10), Block(20, 3)]
  {
    MergedAt(s, 1, 0);
    MergedAt(s, 1, 1);
  }

  /** After that step no block starts where {0,10} ends, so defrag stops. */
  lemma DefragDoneExample(l: List)
    requires Valid(l) && Contents(l) == [Block(0, 10), Block(20, 3)]
    ensures DefragFree(l) == l
  {
    DefragFixedPoint(l);
  }

  /** defrag of {0,1}, {5,5}, {10,5}: {5,5} and {10,5} are adjacent, but only blocks starting where the
      head ends are merged, so nothing changes. */
  lemma DefragHeadOnlyExample(l: List)
    requires Valid(l) && Contents(l) == [Block(0, 1), Block(5, 5), Block(10, 5)]
    ensures DefragFree(l) == l
  {
    DefragFixedPoint(l);
  }
}
