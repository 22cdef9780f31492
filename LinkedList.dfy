/** The singly linked list of memory blocks in which the allocator keeps its
    allocated and free blocks. */
module LinkedLists {
  import opened Blocks

  /** A list node: the memory block it points to and the link to the next node. */
  class Node {
    var block: MemoryBlock
    var next: Node?

    constructor (block: MemoryBlock)
      ensures this.block == block && next == null
    {
      this.block := block;
      next := null;
    }
  }

  /** Each node links to the one after it, and the last one links to nothing. */
  ghost predicate Chain(ns: seq<Node>)
    reads ns
  {
    && (forall i {:trigger ns[i].next} :: 0 <= i < |ns| - 1 ==> ns[i].next == ns[i + 1])
    && (|ns| > 0 ==> ns[|ns| - 1].next == null)
  }

  /** Node `i` points to block `i`. */
  ghost predicate Holds(ns: seq<Node>, cs: seq<MemoryBlock>)
    reads ns
  {
    |ns| == |cs| && forall i {:trigger ns[i].block} :: 0 <= i < |ns| ==> ns[i].block == cs[i]
  }

  /** The nodes of `ns`, as a set. */
  ghost function Elements(ns: seq<Node>): set<Node> {
    set n | n in ns
  }

  ghost predicate Distinct(ns: seq<Node>) {
    forall i, j :: 0 <= i < j < |ns| ==> ns[i] != ns[j]
  }

  /** In a sequence without repetitions each node is found at its own position. */
  lemma DistinctIndex(ns: seq<Node>, k: int)
    requires Distinct(ns) && 0 <= k < |ns|
    ensures FirstIndex(ns, ns[k]) == k
  {
  }

  /** The links after `newNode` has been put at position `index` of `ns`. */
  lemma LinkedAfterInsert(ns: seq<Node>, index: int, newNode: Node)
    requires 0 <= index <= |ns|
    requires forall j :: 0 <= j < |ns| - 1 && j != index - 1 ==> ns[j].next == ns[j + 1]
    requires 0 < index < |ns| || index == 0 < |ns| ==> ns[|ns| - 1].next == null
    requires 0 < index ==> ns[index - 1].next == newNode
    requires newNode.next == if index < |ns| then ns[index] else null
    ensures Chain(ns[..index] + [newNode] + ns[index..])
  {
    var r := ns[..index] + [newNode] + ns[index..];
    forall j | 0 <= j < |r| - 1 ensures r[j].next == r[j + 1] {
      if j < index - 1 {
        assert r[j] == ns[j] && r[j + 1] == ns[j + 1];
      } else if j == index - 1 {
        assert r[j] == ns[j];
      } else if j > index {
        assert r[j] == ns[j - 1] && r[j + 1] == ns[j];
      }
    }
  }

  /** The links after the node at position `i` has been bypassed. */
  lemma LinkedAfterRemove(ns: seq<Node>, i: int)
    requires 0 < i < |ns|
    requires forall j :: 0 <= j < |ns| - 1 && j != i - 1 && j != i ==> ns[j].next == ns[j + 1]
    requires i < |ns| - 1 ==> ns[|ns| - 1].next == null
    requires ns[i - 1].next == if i < |ns| - 1 then ns[i + 1] else null
    ensures Chain(ns[..i] + ns[i + 1..])
  {
    var r := ns[..i] + ns[i + 1..];
    forall j | 0 <= j < |r| - 1 ensures r[j].next == r[j + 1] {
      if j < i - 1 {
        assert r[j] == ns[j] && r[j + 1] == ns[j + 1];
      } else if j >= i {
        assert r[j] == ns[j + 1] && r[j + 1] == ns[j + 2];
      }
    }
  }

  /** Putting a fresh node at position `index` keeps the nodes distinct, the blocks
      in step and adds exactly that node to the footprint. */
  lemma InsertShape(ns: seq<Node>, cs: seq<MemoryBlock>, index: int, newNode: Node)
    requires 0 <= index <= |ns| && Distinct(ns) && newNode !in ns && Holds(ns, cs)
    ensures Distinct(ns[..index] + [newNode] + ns[index..])
    ensures Holds(ns[..index] + [newNode] + ns[index..], cs[..index] + [newNode.block] + cs[index..])
    ensures Elements(ns[..index] + [newNode] + ns[index..]) == Elements(ns) + {newNode}
  {
    var r := ns[..index] + [newNode] + ns[index..];
    var d := cs[..index] + [newNode.block] + cs[index..];
    forall i | 0 <= i < |r| ensures r[i].block == d[i] {
      if i < index {
        assert r[i] == ns[i] && d[i] == cs[i];
      } else if i > index {
        assert r[i] == ns[i - 1] && d[i] == cs[i - 1];
      }
    }
    forall i, j | 0 <= i < j < |r| ensures r[i] != r[j] {
      var i' := if i < index then i else i - 1;
      var j' := if j < index then j else j - 1;
      if i != index && j != index {
        assert r[i] == ns[i'] && r[j] == ns[j'];
      } else if i == index {
        assert r[j] == ns[j'];
      } else {
        assert r[i] == ns[i'];
      }
    }
    assert forall n :: n in r <==> n in ns || n == newNode by {
      assert ns == ns[..index] + ns[index..];
    }
  }

  /** Taking out the node at position `i` keeps the rest distinct, the blocks in step
      and removes exactly that node from the footprint. */
  lemma RemoveShape(ns: seq<Node>, cs: seq<MemoryBlock>, i: int)
    requires 0 <= i < |ns| && Distinct(ns) && Holds(ns, cs)
    ensures Distinct(ns[..i] + ns[i + 1..])
    ensures Holds(ns[..i] + ns[i + 1..], cs[..i] + cs[i + 1..])
    ensures Elements(ns[..i] + ns[i + 1..]) == Elements(ns) - {ns[i]}
  {
    var r := ns[..i] + ns[i + 1..];
    var d := cs[..i] + cs[i + 1..];
    forall k | 0 <= k < |r| ensures r[k].block == d[k] {
      if k < i {
        assert r[k] == ns[k] && d[k] == cs[k];
      } else {
        assert r[k] == ns[k + 1] && d[k] == cs[k + 1];
      }
    }
    forall a, b | 0 <= a < b < |r| ensures r[a] != r[b] {
      var a' := if a < i then a else a + 1;
      var b' := if b < i then b else b + 1;
      assert r[a] == ns[a'] && r[b] == ns[b'];
    }
    forall n ensures n in r <==> n in ns && n != ns[i] {
      if n in r {
        var k :| 0 <= k < |r| && r[k] == n;
        assert n == ns[if k < i then k else k + 1];
      }
      if n in ns && n != ns[i] {
        var k :| 0 <= k < |ns| && ns[k] == n;
        assert n == r[if k < i then k else k - 1];
      }
    }
  }

  /** One comparison of bubble sort: blocks `j` and `j + 1` change places when the
      first has the larger base address. */
  function BubbleStep(s: seq<MemoryBlock>, j: int): (r: seq<MemoryBlock>)
    requires 0 <= j < |s| - 1
    ensures |r| == |s| && r[j].baseAddress <= r[j + 1].baseAddress
  {
    if s[j].baseAddress > s[j + 1].baseAddress then Swap(s, j) else s
  }

  /** `s` with blocks `j` and `j + 1` exchanged. */
  function Swap(s: seq<MemoryBlock>, j: int): (r: seq<MemoryBlock>)
    requires 0 <= j < |s| - 1
    ensures |r| == |s| && r[j] == s[j + 1] && r[j + 1] == s[j]
    ensures forall k {:trigger r[k]} :: 0 <= k < |s| && k != j && k != j + 1 ==> r[k] == s[k]
  {
    seq(|s|, k requires 0 <= k < |s| => if k == j then s[j + 1] else if k == j + 1 then s[j] else s[k])
  }

  /** A comparison only exchanges two blocks, and none at all when they are in order. */
  lemma StepPermutes(s: seq<MemoryBlock>, j: int)
    requires 0 <= j < |s| - 1
    ensures multiset(BubbleStep(s, j)) == multiset(s)
    ensures s[j].baseAddress <= s[j + 1].baseAddress ==> BubbleStep(s, j) == s
    ensures s[j].baseAddress > s[j + 1].baseAddress ==> BubbleStep(s, j) == s[j := s[j + 1]][j + 1 := s[j]]
  {
    if s[j].baseAddress > s[j + 1].baseAddress {
      assert Swap(s, j) == s[j := s[j + 1]][j + 1 := s[j]];
    }
  }

  /** What the passes of bubble sort so far guarantee: the blocks moved into `s[m..]`
      are sorted, and nothing before them has a larger base address. */
  ghost predicate Bubbled(s: seq<MemoryBlock>, m: int) {
    && 0 <= m <= |s|
    && (forall a, b :: m <= a < b < |s| ==> s[a].baseAddress <= s[b].baseAddress)
    && (forall a, b :: 0 <= a < m <= b < |s| ==> s[a].baseAddress <= s[b].baseAddress)
  }

  /** Within a pass: position `j` holds the largest of the first `j + 1`. */
  ghost predicate MaxAt(s: seq<MemoryBlock>, j: int) {
    0 <= j < |s| && forall a :: 0 <= a <= j ==> s[a].baseAddress <= s[j].baseAddress
  }

  lemma BubbleStepKeeps(s: seq<MemoryBlock>, m: int, j: int)
    requires Bubbled(s, m) && MaxAt(s, j) && j < m - 1
    ensures Bubbled(BubbleStep(s, j), m) && MaxAt(BubbleStep(s, j), j + 1)
  {
    var r := BubbleStep(s, j);
    assert forall k {:trigger r[k]} :: 0 <= k < |s| && k != j && k != j + 1 ==> r[k] == s[k];
    forall a, b | 0 <= a < m <= b < |r| ensures r[a].baseAddress <= r[b].baseAddress {
      assert r[a] == s[a] || r[a] == s[j] || r[a] == s[j + 1];
    }
    forall a | 0 <= a <= j + 1 ensures r[a].baseAddress <= r[j + 1].baseAddress {
      assert r[a] == s[a] || r[a] == s[j] || r[a] == s[j + 1];
    }
  }

  /** The first `j` comparisons of a pass of bubble sort over `s`. */
  function Pass(s: seq<MemoryBlock>, j: int): (r: seq<MemoryBlock>)
    requires 0 <= j && (j == 0 || j < |s|)
    ensures |r| == |s|
  {
    if j == 0 then s else BubbleStep(Pass(s, j - 1), j - 1)
  }

  /** `s` after `i` complete passes of bubble sort, pass `k` making `|s| - k - 1`
      comparisons. */
  function Passes(s: seq<MemoryBlock>, i: int): (r: seq<MemoryBlock>)
    requires 0 <= i && (i == 0 || i < |s|)
    ensures |r| == |s|
  {
    if i == 0 then s else Pass(Passes(s, i - 1), |s| - i)
  }

  /** Bubble sort of `s`: `|s| - 1` passes (none for an empty sequence). */
  function BubbleSort(s: seq<MemoryBlock>): (r: seq<MemoryBlock>)
    ensures |r| == |s|
  {
    Passes(s, if s == [] then 0 else |s| - 1)
  }

  lemma {:induction false} PassProgress(s: seq<MemoryBlock>, m: int, j: int)
    requires Bubbled(s, m) && 0 <= j < m
    ensures Bubbled(Pass(s, j), m) && MaxAt(Pass(s, j), j)
  {
    if j > 0 {
      var p := Pass(s, j - 1);
      PassProgress(s, m, j - 1);
      BubbleStepKeeps(p, m, j - 1);
      assert Pass(s, j) == BubbleStep(p, j - 1);
    } else {
      assert Pass(s, j) == s;
    }
  }

  /** A pass that has carried the largest of the first `m` blocks to position `m - 1`
      extends the sorted suffix by one. */
  lemma BubbledGrows(p: seq<MemoryBlock>, n: int)
    requires 0 <= n && Bubbled(p, n + 1) && MaxAt(p, n)
    ensures Bubbled(p, n)
  {
    forall a, b | 0 <= a < n <= b < |p| ensures p[a].baseAddress <= p[b].baseAddress {
      if b == n {
        assert a <= n;
      }
    }
  }

  lemma {:induction false} PassesProgress(s: seq<MemoryBlock>, i: int)
    requires 0 <= i && (i == 0 || i < |s|)
    ensures Bubbled(Passes(s, i), |s| - i)
  {
    if i > 0 {
      var q := Passes(s, i - 1);
      var n := |s| - i;
      PassesProgress(s, i - 1);
      assert |s| - (i - 1) == n + 1;
      PassProgress(q, n + 1, n);
      BubbledGrows(Pass(q, n), n);
    } else {
      assert Passes(s, i) == s;
    }
  }

  lemma {:induction false} PassPermutes(s: seq<MemoryBlock>, j: int)
    requires 0 <= j && (j == 0 || j < |s|)
    ensures multiset(Pass(s, j)) == multiset(s)
  {
    if j > 0 {
      var p := Pass(s, j - 1);
      PassPermutes(s, j - 1);
      StepPermutes(p, j - 1);
      assert Pass(s, j) == BubbleStep(p, j - 1);
    }
  }

  lemma {:induction false} PassesPermute(s: seq<MemoryBlock>, i: int)
    requires 0 <= i && (i == 0 || i < |s|)
    ensures multiset(Passes(s, i)) == multiset(s)
  {
    if i > 0 {
      var p := Passes(s, i - 1);
      PassesPermute(s, i - 1);
      PassPermutes(p, |s| - i);
      assert Passes(s, i) == Pass(p, |s| - i);
    }
  }

  /** On a sorted sequence no comparison swaps anything. */
  lemma {:induction false} PassFixesSorted(s: seq<MemoryBlock>, j: int)
    requires 0 <= j && (j == 0 || j < |s|) && SortedByBase(s)
    ensures Pass(s, j) == s
  {
    if j > 0 {
      PassFixesSorted(s, j - 1);
      assert s[j - 1].baseAddress <= s[j].baseAddress;
      StepPermutes(s, j - 1);
    }
  }

  lemma {:induction false} PassesFixSorted(s: seq<MemoryBlock>, i: int)
    requires 0 <= i && (i == 0 || i < |s|) && SortedByBase(s)
    ensures Passes(s, i) == s
  {
    if i > 0 {
      PassesFixSorted(s, i - 1);
      PassFixesSorted(s, |s| - i);
    }
  }

  /** Bubble sort yields a permutation ordered by base address, and leaves an already
      ordered sequence exactly as it was. */
  lemma BubbleSortCorrect(s: seq<MemoryBlock>)
    ensures SortedByBase(BubbleSort(s)) && multiset(BubbleSort(s)) == multiset(s)
    ensures SortedByBase(s) ==> BubbleSort(s) == s
  {
    var n := if s == [] then 0 else |s| - 1;
    PassesProgress(s, n);
    PassesPermute(s, n);
    if SortedByBase(s) {
      PassesFixSorted(s, n);
    }
  }

  class LinkedList {
    var first: Node?
    var last: Node?
    var size: int

    /** The nodes from `first` to `last`, following `next`. */
    ghost var Nodes: seq<Node>
    /** The blocks those nodes point to, in list order: the list's abstract value. */
    ghost var Contents: seq<MemoryBlock>
    ghost var Repr: set<Node>

    /** `first`, `last`, `size` and the `next` links describe the chain `Nodes`, whose
        blocks are `Contents`. In particular `first == null`, `last == null` and
        `size == 0` hold together or not at all. */
    ghost predicate Valid()
      reads this, Repr
    {
      && Repr == Elements(Nodes)
      && size == |Nodes|
      && (size == 0 <==> first == null)
      && (size == 0 <==> last == null)
      && (size > 0 ==> first == Nodes[0] && last == Nodes[size - 1])
      && Chain(Nodes) && Holds(Nodes, Contents) && Distinct(Nodes)
    }

    /** A new list is empty. */
    constructor ()
      ensures Valid() && Contents == [] && Repr == {}
      ensures first == null && last == null && size == 0
    {
      first := null;
      last := first;
      size := 0;
      Nodes, Contents, Repr := [], [], {};
    }

    method GetFirst() returns (n: Node?)
      requires Valid()
      ensures n == null <==> Contents == []
      ensures n != null ==> n == Nodes[0] && n in Repr && n.block == Contents[0]
    {
      return first;
    }

    method GetLast() returns (n: Node?)
      requires Valid()
      ensures n == null <==> Contents == []
      ensures n != null ==> n == Nodes[|Nodes| - 1] && n in Repr && n.block == Contents[|Contents| - 1] && n.next == null
    {
      return last;
    }

    method GetSize() returns (r: int)
      requires Valid()
      ensures r == |Contents|
    {
      return size;
    }

    /** The node at `index`, walking from `first`: None when `index` is outside
        [0, size] (the original throws), Some(null) at `index == size`. */
    method GetNode(index: int) returns (r: Option<Node?>)
      requires Valid()
      ensures r.Some? <==> 0 <= index <= size
      ensures r.Some? && index < size ==> r.value == Nodes[index]
      ensures r.Some? && index == size ==> r.value == null
    {
      if index < 0 || index > size {
        return None;
      }
      var currentNode := first;
      var k := index;
      while k > 0 && currentNode != null
        invariant 0 <= k <= index
        invariant currentNode == if index - k < size then Nodes[index - k] else null
      {
        currentNode := currentNode.next;
        k := k - 1;
      }
      return Some(currentNode);
    }

    /** Inserts `block` before position `index`; false (the original throws) when
        `index` is outside [0, size]. */
    method Add(index: int, block: MemoryBlock) returns (ok: bool)
      requires Valid()
      modifies this, Repr
      ensures Valid() && fresh(Repr - old(Repr)) && old(Repr) <= Repr
      ensures ok <==> 0 <= index <= old(size)
      ensures ok ==> Contents == old(Contents)[..index] + [block] + old(Contents)[index..]
      ensures !ok ==> Contents == old(Contents) && Nodes == old(Nodes)
    {
      if index < 0 || index > size {
        return false;
      }
      ok := true;
      var newNode := new Node(block);
      ghost var ns, cs := Nodes, Contents;
      Link(index, newNode);
      Nodes, Contents, Repr := ns[..index] + [newNode] + ns[index..], cs[..index] + [block] + cs[index..], Repr + {newNode};
      Inserted(ns, cs, index, newNode);
    }

    /** The pointer updates of `add`: `newNode` goes in front of position `index`, by
        updating `first` when `index` is 0, `last` when `index` is `size`, and the
        link out of the node before it otherwise. The ghost fields are left to the caller. */
    method Link(index: int, newNode: Node)
      requires Valid() && 0 <= index <= size && newNode !in Repr && newNode.next == null
      modifies this`first, this`last, this`size, Repr, newNode
      ensures size == old(size) + 1 && Holds(Nodes, Contents) && newNode.block == old(newNode.block)
      ensures first == if index == 0 then newNode else old(first)
      ensures last == if index == old(size) then newNode else old(last)
      ensures Chain(Nodes[..index] + [newNode] + Nodes[index..])
    {
      ghost var ns := Nodes;
      if index == 0 {
        newNode.next := first;
        first := newNode;
      }
      if index == size {
        if last != null {
          last.next := newNode;
        }
        last := newNode;
      }
      if index != 0 && index != size {
        var prev := GetNode(index - 1);
        var prevNode := prev.value;
        newNode.next := prevNode.next;
        prevNode.next := newNode;
      }
      size := size + 1;
      forall j | 0 <= j < |ns| - 1 && j != index - 1 ensures ns[j].next == ns[j + 1] {
        assert old(ns[j].next) == ns[j + 1];
        assert index > 0 ==> ns[j] != ns[index - 1];
      }
      if index < |ns| {
        assert old(ns[|ns| - 1].next) == null;
        assert index > 0 ==> ns[|ns| - 1] != ns[index - 1];
      }
      LinkedAfterInsert(ns, index, newNode);
    }

    /** After `Link` and the matching ghost update the list is valid again. */
    lemma Inserted(ns: seq<Node>, cs: seq<MemoryBlock>, index: int, newNode: Node)
      requires 0 <= index <= |ns| && Distinct(ns) && newNode !in ns && Holds(ns, cs)
      requires Chain(ns[..index] + [newNode] + ns[index..])
      requires Nodes == ns[..index] + [newNode] + ns[index..]
      requires Contents == cs[..index] + [newNode.block] + cs[index..]
      requires Repr == Elements(ns) + {newNode} && size == |ns| + 1
      requires first == if index == 0 then newNode else ns[0]
      requires last == if index == |ns| then newNode else ns[|ns| - 1]
      ensures Valid()
    {
      InsertShape(ns, cs, index, newNode);
    }

    /** Appends `block`; it becomes the last element. */
    method AddLast(block: MemoryBlock)
      requires Valid()
      modifies this, Repr
      ensures Valid() && fresh(Repr - old(Repr)) && old(Repr) <= Repr
      ensures Contents == old(Contents) + [block]
    {
      var ok := Add(size, block);
      assert old(Contents)[..old(size)] == old(Contents);
    }

    /** Prepends `block`; it becomes the first element. */
    method AddFirst(block: MemoryBlock)
      requires Valid()
      modifies this, Repr
      ensures Valid() && fresh(Repr - old(Repr)) && old(Repr) <= Repr
      ensures Contents == [block] + old(Contents)
    {
      var ok := Add(0, block);
      assert old(Contents)[0..] == old(Contents);
    }

    /** The block at `index`: None (the original throws) when `index` is outside [0, size)
        or the list is empty. On a non-empty list `index == size` passes the original's
        bounds check and then dereferences null, so callers must not ask for it. */
    method GetBlock(index: int) returns (r: Option<MemoryBlock>)
      requires Valid()
      requires size == 0 || index != size
      ensures r.Some? <==> 0 <= index < |Contents|
      ensures r.Some? ==> r.value == Contents[index]
    {
      if index < 0 || index > size {
        return None;
      }
      if first == null {
        return None;
      }
      var node := GetNode(index);
      return Some(node.value.block);
    }

    /** The position of the first node holding `block`, or -1. */
    method IndexOf(block: MemoryBlock) returns (r: int)
      requires Valid()
      ensures r == FirstIndex(Contents, block)
    {
      var i := 0;
      while i < size
        invariant 0 <= i <= size
        invariant forall k :: 0 <= k < i ==> Contents[k] != block
      {
        var node := GetNode(i);
        if node.value.block == block {
          assert Contents[i] == block;
          return i;
        }
        i := i + 1;
      }
      return -1;
    }

    /** Unlinks `node`: exactly its one occurrence disappears, and nothing changes when
        `node` is not in the list. */
    method Remove(node: Node)
      requires Valid()
      modifies this, Repr
      ensures Valid() && Repr == old(Repr) - {node}
      ensures var k := FirstIndex(old(Nodes), node);
        if k == -1 then Contents == old(Contents) && Nodes == old(Nodes)
        else Contents == old(Contents)[..k] + old(Contents)[k + 1..] && Nodes == old(Nodes)[..k] + old(Nodes)[k + 1..]
    {
      if first == node {
        UnlinkFirst();
        assert size > 0 ==> Nodes[0] == old(Nodes)[1];
      }
      UnlinkLater(node);
    }

    /** The loop of `remove(Node)`: looks for `node` from position 1 on and bypasses it. */
    method UnlinkLater(node: Node)
      requires Valid() && (size == 0 || Nodes[0] != node)
      modifies this, Repr
      ensures Valid() && Repr == old(Repr) - {node}
      ensures var k := FirstIndex(old(Nodes), node);
        if k == -1 then Contents == old(Contents) && Nodes == old(Nodes)
        else Contents == old(Contents)[..k] + old(Contents)[k + 1..] && Nodes == old(Nodes)[..k] + old(Nodes)[k + 1..]
    {
      var i := 1;
      while i < size
        invariant Valid() && 1 <= i
        invariant Nodes == old(Nodes) && Contents == old(Contents) && Repr == old(Repr)
        invariant forall j :: 0 <= j < i && j < size ==> Nodes[j] != node
        decreases size - i
      {
        var current := GetNode(i);
        var currentNode := current.value;
        if currentNode == node {
          var prev := GetNode(i - 1);
          UnlinkAfter(prev.value, i);
          assert FirstIndex(old(Nodes), node) == i;
          return;
        }
        i := i + 1;
      }
    }

    /** The first case of `remove(Node)`: `first` moves on to its successor, and `last`
        becomes null with it when the list empties. */
    method UnlinkFirst()
      requires Valid() && size > 0
      modifies this
      ensures Valid() && Repr == old(Repr) - {old(Nodes)[0]}
      ensures Nodes == old(Nodes)[1..] && Contents == old(Contents)[1..]
    {
      ghost var removed := first;
      assert size > 1 ==> first.next == Nodes[1];
      first := first.next;
      if first == null {
        last := first;
      }
      size := size - 1;
      Nodes, Contents, Repr := Nodes[1..], Contents[1..], Repr - {removed};
    }

    /** The second case of `remove(Node)`: the node after `prevNode`, at position `i`, is
        bypassed, its own link cleared, and `last` moved back when it was the last. */
    method UnlinkAfter(prevNode: Node, ghost i: int)
      requires Valid() && 1 <= i < size && Nodes[i - 1] == prevNode
      modifies this, prevNode, Nodes[i]
      ensures Valid() && Repr == old(Repr) - {old(Nodes)[i]}
      ensures Nodes == old(Nodes)[..i] + old(Nodes)[i + 1..]
      ensures Contents == old(Contents)[..i] + old(Contents)[i + 1..]
    {
      ghost var ns, cs := Nodes, Contents;
      var currentNode := prevNode.next;
      assert currentNode == ns[i];
      assert currentNode == last <==> i == size - 1;
      if currentNode == last {
        last := prevNode;
      }
      prevNode.next := currentNode.next;
      currentNode.next := null;
      size := size - 1;
      forall j | 0 <= j < |ns| - 1 && j != i - 1 && j != i ensures ns[j].next == ns[j + 1] {
        assert old(ns[j].next) == ns[j + 1];
        assert ns[j] != ns[i - 1] && ns[j] != ns[i];
      }
      if i < |ns| - 1 {
        assert old(ns[|ns| - 1].next) == null;
        assert ns[|ns| - 1] != ns[i - 1] && ns[|ns| - 1] != ns[i];
      }
      assert old(ns[i].next) == if i < |ns| - 1 then ns[i + 1] else null;
      LinkedAfterRemove(ns, i);
      forall j | 0 <= j < |ns| ensures ns[j].block == cs[j] {
        assert old(ns[j].block) == cs[j];
      }
      Nodes, Contents, Repr := ns[..i] + ns[i + 1..], cs[..i] + cs[i + 1..], Repr - {currentNode};
      Removed(ns, cs, i);
    }

    /** After a node other than the first has been bypassed and the ghost fields updated,
        the list is valid again. */
    lemma Removed(ns: seq<Node>, cs: seq<MemoryBlock>, i: int)
      requires 0 < i < |ns| && Distinct(ns) && Holds(ns, cs)
      requires Chain(ns[..i] + ns[i + 1..])
      requires Nodes == ns[..i] + ns[i + 1..] && Contents == cs[..i] + cs[i + 1..]
      requires Repr == Elements(ns) - {ns[i]} && size == |ns| - 1
      requires first == ns[0] && last == if i == |ns| - 1 then ns[i - 1] else ns[|ns| - 1]
      ensures Valid()
    {
      RemoveShape(ns, cs, i);
    }

    /** Removes the node at `index`; false (the original throws) when `index` is outside
        [0, size]. The original's bound admits `index == size`: the node found there is
        null, and removing null from a non-empty list changes nothing. On an empty
        list that same call dereferences null, so callers must not make it. */
    method RemoveAt(index: int) returns (ok: bool)
      requires Valid()
      requires size > 0 || index != 0
      modifies this, Repr
      ensures Valid() && Repr <= old(Repr)
      ensures ok <==> 0 <= index <= old(size)
      ensures Contents == if ok && index < old(size) then old(Contents)[..index] + old(Contents)[index + 1..]
                          else old(Contents)
    {
      if index < 0 || index > size - 0 {
        return false;
      }
      ok := true;
      var node := GetNode(index);
      if node.value != null {
        DistinctIndex(Nodes, index);
        Remove(node.value);
      }
    }

    /** Removes the first node holding `block`; false (the original throws) when there is none. */
    method RemoveBlock(block: MemoryBlock) returns (ok: bool)
      requires Valid()
      modifies this, Repr
      ensures Valid() && Repr <= old(Repr)
      ensures ok <==> block in old(Contents)
      ensures var k := FirstIndex(old(Contents), block);
        Contents == if ok then old(Contents)[..k] + old(Contents)[k + 1..] else old(Contents)
    {
      var indexOfBlock := IndexOf(block);
      if indexOfBlock < 0 {
        return false;
      }
      ok := true;
      assert FirstIndex(Contents, block) == indexOfBlock;
      var node := GetNode(indexOfBlock);
      DistinctIndex(Nodes, indexOfBlock);
      Remove(node.value);
      assert Contents == old(Contents)[..indexOfBlock] + old(Contents)[indexOfBlock + 1..];
    }

    /** Overwrites the block of `node`, the node at position `i`. The original mutates the
        fields of that block in place; with blocks as values, this is replacing the
        element at `i`. */
    method SetBlock(node: Node, ghost i: int, block: MemoryBlock)
      requires Valid() && 0 <= i < size && Nodes[i] == node
      modifies this`Contents, node`block
      ensures Valid() && Contents == old(Contents)[i := block]
    {
      node.block := block;
      Contents := Contents[i := block];
    }

    /** Bubble sort by base address, swapping the blocks between neighbouring nodes:
        the nodes stay, and the blocks end up as a sorted permutation of the old ones.
        An already sorted list is left exactly as it was. */
    method Sort()
      requires Valid()
      modifies this`Contents, Repr
      ensures Valid() && Nodes == old(Nodes)
      ensures Contents == BubbleSort(old(Contents))
      ensures SortedByBase(Contents) && multiset(Contents) == multiset(old(Contents))
      ensures SortedByBase(old(Contents)) ==> Contents == old(Contents)
    {
      ghost var s := Contents;
      var i := 0;
      while i < size - 1
        invariant Valid() && Nodes == old(Nodes) && |s| == size
        invariant 0 <= i && (i == 0 || i < size)
        invariant Contents == Passes(s, i)
      {
        PassOver(size - i - 1);
        i := i + 1;
      }
      assert Contents == BubbleSort(s);
      BubbleSortCorrect(s);
    }

    /** The inner loop of `Sort`: the first `n` comparisons of one pass. */
    method PassOver(n: int)
      requires Valid() && 0 <= n < size
      modifies this`Contents, Repr
      ensures Valid() && Nodes == old(Nodes)
      ensures Contents == Pass(old(Contents), n)
    {
      var j := 0;
      while j < n
        invariant Valid() && Nodes == old(Nodes)
        invariant 0 <= j <= n
        invariant Contents == Pass(old(Contents), j)
      {
        var node := GetNode(j);
        CompareAndSwap(node.value, j);
        j := j + 1;
      }
    }

    /** The body of the inner loop of `Sort`: node `j` and its successor exchange
        blocks when the first has the larger base address. */
    method CompareAndSwap(current: Node?, ghost j: int)
      requires Valid() && 0 <= j < size - 1 && current == Nodes[j]
      modifies this`Contents, Repr
      ensures Valid() && Nodes == old(Nodes)
      ensures Contents == BubbleStep(old(Contents), j)
    {
      ghost var c := Contents;
      StepPermutes(c, j);
      var next := current.next;
      assert current.block == c[j] && next.block == c[j + 1];
      if current.block.baseAddress > next.block.baseAddress {
        var temp := current.block;
        SetBlock(current, j, next.block);
        SetBlock(next, j + 1, temp);
      }
    }
  }
}
