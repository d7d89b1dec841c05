/** Memory blocks: the unit the allocator reasons about, and facts about their address ranges. */
module MemoryBlock {

  /** The words [baseAddress, baseAddress + length) of the simulated address space.
      Two blocks are equal exactly when both fields are equal, as MemoryBlock.equals compares them. */
  datatype Block = Block(baseAddress: int, length: int) {
    /** One past the last word of the block. */
    function End(): int { baseAddress + length }
  }

  /** The ranges of a and b share a word. An empty range shares none. */
  predicate Overlap(a: Block, b: Block) {
    a.length > 0 && b.length > 0 && a.baseAddress < b.End() && b.baseAddress < a.End()
  }

  /** The range of inner lies inside the range of outer. */
  predicate Inside(inner: Block, outer: Block) {
    outer.baseAddress <= inner.baseAddress && inner.End() <= outer.End()
  }

  /** b has a non-negative length and lies in the address space [0, maxSize). */
  predicate InSpace(b: Block, maxSize: int) {
    0 <= b.baseAddress && 0 <= b.length && b.End() <= maxSize
  }

  /** Total length of the blocks of s. */
  function Sum(s: seq<Block>): int {
    if s == [] then 0 else s[0].length + Sum(s[1..])
  }

  /** No two blocks of ms share a word; two copies of one block count as two blocks. */
  ghost predicate PairwiseDisjoint(ms: multiset<Block>) {
    forall a, b :: a in ms && b in ms && (a != b || ms[a] > 1) ==> !Overlap(a, b)
  }

  lemma {:induction false} SumConcat(a: seq<Block>, b: seq<Block>)
    ensures Sum(a + b) == Sum(a) + Sum(b)
    decreases |a|
  {
    if a == [] {
      assert a + b == b;
    } else {
      assert (a + b)[1..] == a[1..] + b;
      SumConcat(a[1..], b);
    }
  }

  /** Taking the k-th block out of s takes its length out of the total. */
  lemma SumRemove(s: seq<Block>, k: int)
    requires 0 <= k < |s|
    ensures Sum(s[..k] + s[k + 1..]) == Sum(s) - s[k].length
  {
    assert s == s[..k] + ([s[k]] + s[k + 1..]);
    assert ([s[k]] + s[k + 1..])[1..] == s[k + 1..];
    SumConcat(s[..k], [s[k]] + s[k + 1..]);
    SumConcat(s[..k], s[k + 1..]);
  }

  /** Putting x in the k-th place of s instead of s[k] changes the total by the difference. */
  lemma SumReplace(s: seq<Block>, k: int, x: Block)
    requires 0 <= k < |s|
    ensures Sum(s[..k] + [x] + s[k + 1..]) == Sum(s) - s[k].length + x.length
  {
    SumRemove(s, k);
    assert ([x] + s[k + 1..])[1..] == s[k + 1..];
    assert s[..k] + [x] + s[k + 1..] == s[..k] + ([x] + s[k + 1..]);
    SumConcat(s[..k], [x] + s[k + 1..]);
    SumConcat(s[..k], s[k + 1..]);
  }

  /** Adding a block to a pairwise-disjoint collection keeps it pairwise disjoint exactly when
      the block overlaps none of the blocks already there (a copy of itself included). */
  lemma {:induction false} AddDisjoint(ms: multiset<Block>, x: Block)
    ensures PairwiseDisjoint(ms + multiset{x}) <==> PairwiseDisjoint(ms) && forall y :: y in ms ==> !Overlap(x, y)
  {
    var ms' := ms + multiset{x};
    if PairwiseDisjoint(ms') {
      forall a, b | a in ms && b in ms && (a != b || ms[a] > 1)
        ensures !Overlap(a, b)
      {
        assert a in ms' && b in ms' && (a != b || ms'[a] > 1);
      }
      forall y | y in ms
        ensures !Overlap(x, y)
      {
        assert x in ms' && y in ms' && (x != y || ms'[x] > 1);
      }
    }
    if PairwiseDisjoint(ms) && forall y :: y in ms ==> !Overlap(x, y) {
      forall a, b | a in ms' && b in ms' && (a != b || ms'[a] > 1)
        ensures !Overlap(a, b)
      {
        if a == x && b == x {
          assert x in ms;
        } else if a == x {
          assert b in ms;
        } else if b == x {
          assert a in ms && !Overlap(x, a);
        } else {
          assert a in ms && b in ms && ms[a] == ms'[a];
        }
      }
    }
  }

  /** A block inside one that overlaps nothing in a collection overlaps nothing there either. */
  lemma InsideKeepsDisjoint(ms: multiset<Block>, outer: Block, inner: Block)
    requires Inside(inner, outer)
    requires forall y :: y in ms ==> !Overlap(outer, y)
    ensures forall y :: y in ms ==> !Overlap(inner, y)
  {
  }

  /** Two positive-length blocks that share a base address overlap; so in a pairwise-disjoint
      sequence of positive-length blocks no two positions share a base address. */
  lemma {:induction false} DisjointHasDistinctBases(s: seq<Block>, i: int, j: int)
    requires PairwiseDisjoint(multiset(s))
    requires 0 <= i < j < |s|
    requires s[i].length > 0 && s[j].length > 0
    ensures s[i].baseAddress != s[j].baseAddress
  {
    var ms := multiset(s);
    assert s == s[..i] + [s[i]] + s[i + 1..j] + [s[j]] + s[j + 1..];
    assert ms == multiset(s[..i]) + multiset{s[i]} + multiset(s[i + 1..j]) + multiset{s[j]} + multiset(s[j + 1..]);
    if s[i] == s[j] {
      assert ms[s[i]] > 1;
    }
    assert !Overlap(s[i], s[j]);
  }
}
