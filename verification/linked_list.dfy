/** The singly linked list of memory blocks that the allocator keeps its free and allocated blocks in.
    A list is its three fields: the first node, the last node and the size. Nodes are values here:
    a node together with everything reachable from it is a `Chain`, and `Null` is the null reference. */
module LinkedList {
  import opened MemoryBlock

  /** The exceptions the list throws. */
  datatype Exception = IllegalArgument | NullPointer

  /** The outcome of a call that may throw. */
  datatype Result<T> = Ok(value: T) | Throw(exception: Exception) {
    predicate IsFailure() { Throw? }

    function PropagateFailure<U>(): Result<U>
      requires Throw?
    {
      Throw(exception)
    }

    function Extract(): T
      requires Ok?
    {
      value
    }
  }

  /** A reference to a block that may be null. */
  datatype Option<T> = None | Some(value: T)

  /** A node and all nodes reachable from it through `next`. */
  datatype Chain = Null | Node(block: Block, next: Chain)

  /** The blocks met walking from c to the end. */
  function Elements(c: Chain): seq<Block> {
    match c
    case Null => []
    case Node(b, next) => [b] + Elements(next)
  }

  /** The node reached by following `next` from c until it is null; Null when c is. */
  function FinalNode(c: Chain): Chain {
    match c
    case Null => Null
    case Node(_, Null) => c
    case Node(_, next) => FinalNode(next)
  }

  /** The fields of a list: pointers to its first and last node, and its size. */
  datatype List = List(first: Chain, last: Chain, size: int)

  /** The representation invariant: `size` counts the nodes reachable from `first`,
      and `last` is the final one of them. */
  ghost predicate Valid(l: List) {
    l.size == |Elements(l.first)| && l.last == FinalNode(l.first)
  }

  /** The blocks of the list, first to last. */
  function Contents(l: List): seq<Block> {
    Elements(l.first)
  }

  // ---------------------------------------------------------------------------
  // Facts about chains
  // ---------------------------------------------------------------------------

  /** The final node holds the last block and nothing after it. */
  lemma {:induction false} FinalNodeIsLast(c: Chain)
    ensures FinalNode(c) == if Elements(c) == [] then Null else Node(Elements(c)[|Elements(c)| - 1], Null)
  {
    match c
    case Null =>
    case Node(b, next) =>
      FinalNodeIsLast(next);
  }

  /** A chain is determined by the blocks met walking it. */
  lemma {:induction false} ChainOfElements(a: Chain, b: Chain)
    requires Elements(a) == Elements(b)
    ensures a == b
  {
    match a
    case Null =>
    case Node(x, next) =>
      assert Elements(next) == Elements(a)[1..] == Elements(b)[1..];
      ChainOfElements(next, b.next);
  }

  /** The invariant as the class states it: the list is empty exactly when `first` is null, exactly when
      `last` is null; otherwise `last` is a node holding the final block with nothing after it.
      Two valid lists with the same blocks have the same fields. */
  lemma ValidShape(l: List)
    requires Valid(l)
    ensures l.first == Null <==> l.size == 0
    ensures l.last == Null <==> l.size == 0
    ensures l.size > 0 ==> l.last == Node(Contents(l)[l.size - 1], Null)
    ensures forall l' :: Valid(l') && Contents(l') == Contents(l) ==> l' == l
  {
    FinalNodeIsLast(l.first);
    forall l' | Valid(l') && Contents(l') == Contents(l)
      ensures l' == l
    {
      ChainOfElements(l'.first, l.first);
    }
  }

  /** The node reached from c after following `next` k times. */
  function Walk(c: Chain, k: nat): (r: Chain)
    requires k <= |Elements(c)|
    ensures Elements(r) == Elements(c)[k..]
  {
    if k == 0 then c else Walk(c.next, k - 1)
  }

  /** The chain c with a new final node holding b linked behind its final node. */
  function Append(c: Chain, b: Block): (r: Chain)
    ensures Elements(r) == Elements(c) + [b]
    ensures FinalNode(r) == Node(b, Null)
  {
    match c
    case Null => Node(b, Null)
    case Node(x, next) => Node(x, Append(next, b))
  }

  /** The chain c with a new node holding b linked behind its k-th node. */
  function InsertAfter(c: Chain, k: nat, b: Block): (r: Chain)
    requires k < |Elements(c)|
    ensures Elements(r) == Elements(c)[..k + 1] + [b] + Elements(c)[k + 1..]
  {
    if k == 0 then Node(c.block, Node(b, c.next)) else Node(c.block, InsertAfter(c.next, k - 1, b))
  }

  /** The chain c with its k-th node unlinked (its predecessor now points to its successor). */
  function Unlink(c: Chain, k: nat): (r: Chain)
    requires 1 <= k < |Elements(c)|
    ensures Elements(r) == Elements(c)[..k] + Elements(c)[k + 1..]
  {
    match c
    case Node(x, next) => if k == 1 then Node(x, next.next) else Node(x, Unlink(next, k - 1))
  }

  /** The chain c cut after its first n nodes (the n-th node's `next` set to null). */
  function Truncate(c: Chain, n: nat): (r: Chain)
    requires n <= |Elements(c)|
    ensures Elements(r) == Elements(c)[..n]
  {
    if n == 0 then Null else Node(c.block, Truncate(c.next, n - 1))
  }

  /** Index of the first node at or after c whose block equals b, counting c as position i; -1 if none. */
  function Find(c: Chain, b: Block, i: nat): (r: int)
    ensures r == -1 <==> b !in Elements(c)
    ensures r != -1 ==> i <= r < i + |Elements(c)| && Elements(c)[r - i] == b && b !in Elements(c)[..r - i]
    decreases c
  {
    match c
    case Null => -1
    case Node(x, next) => if x == b then i else Find(next, b, i + 1)
  }

  // ---------------------------------------------------------------------------
  // The operations of the list
  // ---------------------------------------------------------------------------

  /** A new list holds nothing. */
  function Empty(): (l: List)
    ensures Valid(l) && Contents(l) == [] && l.size == 0
  {
    List(Null, Null, 0)
  }

  /** getNode: the node at position index, walking from the first node. An index of `size` in a non-empty
      list walks off the final node and gives null instead of throwing. */
  function GetNode(l: List, index: int): (r: Result<Chain>)
    requires Valid(l)
    ensures r.Throw? <==> index < 0 || index > l.size || l.size == 0
    ensures r.Throw? ==> r.exception == IllegalArgument
    ensures r.Ok? ==> Elements(r.value) == Contents(l)[index..]
    ensures r.Ok? && index < l.size ==> r.value.Node? && r.value.block == Contents(l)[index]
    ensures r.Ok? && index == l.size ==> r.value == Null
  {
    if index < 0 || index > l.size || l.size == 0 then Throw(IllegalArgument)
    else Ok(Walk(l.first, index))
  }

  /** getBlock: the block at position index, or null for the position just past the end. */
  function GetBlock(l: List, index: int): (r: Result<Option<Block>>)
    requires Valid(l)
    ensures r.Throw? <==> index < 0 || index > l.size || l.size == 0
    ensures r.Throw? ==> r.exception == IllegalArgument
    ensures r.Ok? && index < l.size ==> r.value == Some(Contents(l)[index])
    ensures r.Ok? && index == l.size ==> r.value == None
  {
    var node :- GetNode(l, index);
    Ok(if node.Node? then Some(node.block) else None)
  }

  /** addFirst: the block becomes the first one; a null block is ignored. */
  function AddFirst(l: List, block: Option<Block>): (r: List)
    requires Valid(l)
    ensures Valid(r)
    ensures block.None? ==> r == l
    ensures block.Some? ==> Contents(r) == [block.value] + Contents(l) && r.size == l.size + 1
  {
    if block.None? then l
    else
      var newNode := Node(block.value, l.first);
      List(newNode, if l.size == 0 then newNode else l.last, l.size + 1)
  }

  /** addLast: the block becomes the last one; a null block is ignored. */
  function AddLast(l: List, block: Option<Block>): (r: List)
    requires Valid(l)
    ensures Valid(r)
    ensures block.None? ==> r == l
    ensures block.Some? ==> Contents(r) == Contents(l) + [block.value] && r.size == l.size + 1
  {
    if block.None? then l
    else if l.size == 0 then AddFirst(l, block)
    else List(Append(l.first, block.value), Node(block.value, Null), l.size + 1)
  }

  /** add: the block is inserted before position index. A null block is ignored before the index is
      checked; otherwise an index outside [0, size] throws. */
  function Add(l: List, index: int, block: Option<Block>): (r: Result<List>)
    requires Valid(l)
    ensures block.None? ==> r == Ok(l)
    ensures block.Some? ==> (r.Throw? <==> index < 0 || index > l.size)
    ensures r.Throw? ==> r.exception == IllegalArgument
    ensures block.Some? && r.Ok? ==>
              && Valid(r.value) && r.value.size == l.size + 1
              && Contents(r.value) == Contents(l)[..index] + [block.value] + Contents(l)[index..]
  {
    if block.None? then Ok(l)
    else if index < 0 || index > l.size then Throw(IllegalArgument)
    else if index == 0 || l.size == 0 then Ok(AddFirst(l, block))
    else if index == l.size then Ok(AddLast(l, block))
    else
      var first := InsertAfter(l.first, index - 1, block.value);
      FinalNodeIsLast(l.first);
      FinalNodeIsLast(first);
      Ok(List(first, l.last, l.size + 1))
  }

  /** indexOf: the first position whose block equals the given one, or -1. */
  function IndexOf(l: List, block: Block): (i: int)
    ensures -1 <= i < |Contents(l)|
    ensures i == -1 <==> block !in Contents(l)
    ensures i != -1 ==> Contents(l)[i] == block && block !in Contents(l)[..i]
  {
    Find(l.first, block, 0)
  }

  /** The position of the first copy of a block is the one indexOf reports. */
  lemma FirstCopyIsIndexOf(l: List, block: Block, k: int)
    requires 0 <= k < |Contents(l)| && Contents(l)[k] == block && block !in Contents(l)[..k]
    ensures IndexOf(l, block) == k
  {
  }

  /** remove(Node): a null node throws; otherwise the first node whose block equals the node's block
      is unlinked, and nothing happens when there is none. */
  function RemoveNode(l: List, node: Chain): (r: Result<List>)
    requires Valid(l)
    ensures r.Throw? <==> node.Null?
    ensures r.Throw? ==> r.exception == NullPointer
    ensures node.Node? && node.block !in Contents(l) ==> r == Ok(l)
    ensures node.Node? && node.block in Contents(l) ==>
              && Valid(r.value) && r.value.size == l.size - 1
              && var k := IndexOf(l, node.block);
                 Contents(r.value) == Contents(l)[..k] + Contents(l)[k + 1..]
  {
    if node.Null? then Throw(NullPointer)
    else
      var index := IndexOf(l, node.block);
      if index < 0 then Ok(l)
      else if index == 0 then
        var first := l.first.next;
        Ok(List(first, if first.Null? then Null else l.last, l.size - 1))
      else if index == l.size - 1 then
        var first := Truncate(l.first, l.size - 1);
        var last := Walk(first, l.size - 2);
        FinalNodeIsLast(first);
        ChainOfElements(last, FinalNode(first));
        Ok(List(first, last, l.size - 1))
      else
        var first := Unlink(l.first, index);
        FinalNodeIsLast(l.first);
        FinalNodeIsLast(first);
        Ok(List(first, l.last, l.size - 1))
  }

  /** remove(int): an index outside [0, size] throws, and so does any index of an empty list; otherwise
      the node at index is handed to remove(Node), so the first block equal to the one at index goes, and
      index == size hands it null. */
  function RemoveAt(l: List, index: int): (r: Result<List>)
    requires Valid(l)
    ensures r.Throw? && r.exception == IllegalArgument <==> index < 0 || index > l.size || l.size == 0
    ensures r.Throw? && r.exception == NullPointer <==> 0 < l.size == index
    ensures 0 <= index < l.size ==>
              && r.Ok? && Valid(r.value) && r.value.size == l.size - 1
              && var k := IndexOf(l, Contents(l)[index]);
                 Contents(r.value) == Contents(l)[..k] + Contents(l)[k + 1..]
  {
    if index < 0 || index > l.size then Throw(IllegalArgument)
    else
      var node :- GetNode(l, index);
      RemoveNode(l, node)
  }

  /** remove(MemoryBlock): the first block equal to the given one goes; a block not in the list throws,
      because its index -1 is handed to remove(int). */
  function RemoveBlock(l: List, block: Block): (r: Result<List>)
    requires Valid(l)
    ensures r.Throw? <==> block !in Contents(l)
    ensures r.Throw? ==> r.exception == IllegalArgument
    ensures r.Ok? ==>
              && Valid(r.value) && r.value.size == l.size - 1
              && var k := IndexOf(l, block);
                 Contents(r.value) == Contents(l)[..k] + Contents(l)[k + 1..]
  {
    RemoveAt(l, IndexOf(l, block))
  }

  /** Removing a block just put at the front gives the list back, even when it held copies of it. */
  lemma RemoveUndoesAddFirst(l: List, b: Block)
    requires Valid(l)
    ensures RemoveBlock(AddFirst(l, Some(b)), b) == Ok(l)
  {
    var added := AddFirst(l, Some(b));
    FirstCopyIsIndexOf(added, b, 0);
    var r := RemoveBlock(added, b).value;
    assert Contents(r) == Contents(added)[1..] == Contents(l);
    ValidShape(l);
  }

  /** Removing a block just put at the end gives the list back when it held no copy of it before. */
  lemma RemoveUndoesAddLast(l: List, b: Block)
    requires Valid(l) && b !in Contents(l)
    ensures RemoveBlock(AddLast(l, Some(b)), b) == Ok(l)
  {
    var added := AddLast(l, Some(b));
    var k := |Contents(l)|;
    assert Contents(added)[..k] == Contents(l);
    FirstCopyIsIndexOf(added, b, k);
    var r := RemoveBlock(added, b).value;
    assert Contents(r) == Contents(l);
    ValidShape(l);
  }

  /** remove(index) undoes add(index, b) when no copy of b comes before index. (With one, the earlier
      copy is what goes, which still gives the list back only when every block from it up to index is b.) */
  lemma RemoveAtUndoesAdd(l: List, index: int, b: Block)
    requires Valid(l) && 0 <= index <= l.size && b !in Contents(l)[..index]
    ensures RemoveAt(Add(l, index, Some(b)).value, index) == Ok(l)
  {
    var added := Add(l, index, Some(b)).value;
    DropInserted(Contents(l), index, b);
    FirstCopyIsIndexOf(added, b, index);
    ValidShape(l);
  }

  /** Taking out the block just inserted at position i gives the sequence back. */
  lemma DropInserted(s: seq<Block>, i: int, b: Block)
    requires 0 <= i <= |s|
    ensures var t := s[..i] + [b] + s[i..];
            t[i] == b && t[..i] == s[..i] && t[..i] + t[i + 1..] == s
  {
    var t := s[..i] + [b] + s[i..];
    assert t[..i] == s[..i];
    assert t[i + 1..] == s[i..];
  }

  /** An earlier copy of b is what remove(index) takes: add(2, b) on [b, c] gives [b, c, b], and
      remove(2) then takes the first b, leaving [c, b] rather than [b, c]. */
  lemma RemoveAtTakesEarlierCopy(l: List, b: Block, c: Block)
    requires Valid(l) && Contents(l) == [b, c] && b != c
    ensures Contents(RemoveAt(Add(l, 2, Some(b)).value, 2).value) == [c, b]
  {
    var added := Add(l, 2, Some(b)).value;
    assert Contents(added) == [b, c, b];
    FirstCopyIsIndexOf(added, b, 0);
  }
}
