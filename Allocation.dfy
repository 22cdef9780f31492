/** What malloc, free and defrag do to the allocated and free lists, stated on
    values, and the invariant they keep: the two lists tile [0, maxSize). */
module Allocation {
  import opened Blocks
  import LinkedLists

  /** The allocated list and the free list of a memory space. */
  datatype Space = Space(allocatedList: seq<MemoryBlock>, freeList: seq<MemoryBlock>)

  /** The allocator's invariant: every address of [0, maxSize) lies in exactly one block
      of the two lists and no other address lies in any block; the lengths add up to
      maxSize; bases are never negative; allocated blocks are never empty. */
  ghost predicate Tiles(s: Space, maxSize: int) {
    (forall b :: b in s.allocatedList ==> b.baseAddress >= 0 && b.length > 0)
    && (forall b :: b in s.freeList ==> b.baseAddress >= 0 && b.length >= 0)
    && (forall x :: Count(s.allocatedList, x) + Count(s.freeList, x) == if 0 <= x < maxSize then 1 else 0)
    && TotalLength(s.allocatedList) + TotalLength(s.freeList) == maxSize
  }

  /** A new memory space: nothing allocated, one free block spanning everything. */
  function Initial(maxSize: int): (r: Space)
    ensures r.allocatedList == [] && |r.freeList| == 1
    ensures TotalLength(r.allocatedList) + TotalLength(r.freeList) == maxSize
  {
    var r := Space([], [MemoryBlock(0, maxSize)]);
    assert r.freeList[1..] == [];
    r
  }

  lemma InitialTiles(maxSize: int)
    requires maxSize >= 0
    ensures Tiles(Initial(maxSize), maxSize)
  {
    var s := Initial(maxSize);
    forall x ensures Count(s.allocatedList, x) + Count(s.freeList, x) == if 0 <= x < maxSize then 1 else 0 {
      assert s.freeList[1..] == [];
    }
    assert s.freeList[1..] == [];
  }

  // ---------------------------------------------------------------- malloc

  /** The position of the first free block, in list order, that is at least `length` long;
      -1 when there is none. */
  function FirstFit(blocks: seq<MemoryBlock>, length: int): (r: int)
    ensures -1 <= r < |blocks|
    ensures r == -1 <==> forall k :: 0 <= k < |blocks| ==> blocks[k].length < length
    ensures 0 <= r ==> blocks[r].length >= length && forall k :: 0 <= k < r ==> blocks[k].length < length
  {
    FirstFitFrom(blocks, length, 0)
  }

  /** The scan behind FirstFit, from position `i` on. */
  function FirstFitFrom(blocks: seq<MemoryBlock>, length: int, i: nat): (r: int)
    requires i <= |blocks|
    ensures -1 <= r < |blocks|
    ensures r == -1 <==> forall k :: i <= k < |blocks| ==> blocks[k].length < length
    ensures 0 <= r ==> i <= r && blocks[r].length >= length && forall k :: i <= k < r ==> blocks[k].length < length
    decreases |blocks| - i
  {
    if i == |blocks| then -1
    else if blocks[i].length >= length then i
    else FirstFitFrom(blocks, length, i + 1)
  }

  /** malloc(length): the address it returns and the lists it leaves. The chosen free block
      is split from the front, or removed when it fits exactly; the new block goes to the
      end of the allocated list. */
  function Malloc(s: Space, length: int): (r: (int, Space))
    ensures var k := FirstFit(s.freeList, length);
      if k == -1 then r == (-1, s)
      else r.0 == s.freeList[k].baseAddress && r.1.allocatedList == s.allocatedList + [MemoryBlock(r.0, length)]
    ensures TotalLength(r.1.allocatedList) + TotalLength(r.1.freeList)
         == TotalLength(s.allocatedList) + TotalLength(s.freeList)
  {
    var k := FirstFit(s.freeList, length);
    if k == -1 then (-1, s)
    else
      var b := s.freeList[k];
      var grown := s.allocatedList + [MemoryBlock(b.baseAddress, length)];
      TotalLengthAppend(s.allocatedList, [MemoryBlock(b.baseAddress, length)]);
      assert [MemoryBlock(b.baseAddress, length)][1..] == [];
      if b.length == length then
        RemoveAtEffect(s.freeList, k, 0);
        (b.baseAddress, Space(grown, s.freeList[..k] + s.freeList[k + 1..]))
      else
        ReplaceEffect(s.freeList, k, MemoryBlock(b.baseAddress + length, b.length - length), 0);
        (b.baseAddress, Space(grown, s.freeList[k := MemoryBlock(b.baseAddress + length, b.length - length)]))
  }

  /** malloc fails exactly when no free block is long enough, and then changes nothing. */
  lemma MallocFailure(s: Space, maxSize: int, length: int)
    requires Tiles(s, maxSize)
    ensures Malloc(s, length).0 == -1 <==> forall k :: 0 <= k < |s.freeList| ==> s.freeList[k].length < length
    ensures Malloc(s, length).0 == -1 ==> Malloc(s, length).1 == s
  {
    var k := FirstFit(s.freeList, length);
    if k != -1 {
      assert s.freeList[k] in s.freeList;
    }
  }

  /** How a successful malloc moves coverage: the handed-out block leaves the free list's
      count and joins the allocated list's, for every address; likewise for lengths. */
  lemma MallocMoves(s: Space, length: int, x: int)
    requires 0 < length && FirstFit(s.freeList, length) != -1
    ensures var (address, t) := Malloc(s, length);
      var handed := MemoryBlock(address, length);
      t.allocatedList == s.allocatedList + [handed] &&
      Count(t.allocatedList, x) == Count(s.allocatedList, x) + Hit(handed, x) &&
      Count(t.freeList, x) + Hit(handed, x) == Count(s.freeList, x) &&
      TotalLength(t.allocatedList) == TotalLength(s.allocatedList) + length &&
      TotalLength(t.freeList) + length == TotalLength(s.freeList)
  {
    var k := FirstFit(s.freeList, length);
    var b := s.freeList[k];
    var handed := MemoryBlock(b.baseAddress, length);
    assert [handed][1..] == [];
    CountAppend(s.allocatedList, [handed], x);
    TotalLengthAppend(s.allocatedList, [handed]);
    if b.length == length {
      RemoveAtEffect(s.freeList, k, x);
    } else {
      ReplaceEffect(s.freeList, k, MemoryBlock(b.baseAddress + length, b.length - length), x);
    }
  }

  /** After malloc every free block still has a non-negative base and length. */
  lemma MallocFreeBounds(s: Space, length: int)
    requires 0 < length
    requires forall b :: b in s.freeList ==> b.baseAddress >= 0 && b.length >= 0
    ensures forall b :: b in Malloc(s, length).1.freeList ==> b.baseAddress >= 0 && b.length >= 0
  {
    var k := FirstFit(s.freeList, length);
    if k != -1 {
      var t := Malloc(s, length).1;
      assert s.freeList[k] in s.freeList;
      forall c | c in t.freeList ensures c.baseAddress >= 0 && c.length >= 0 {
        var i :| 0 <= i < |t.freeList| && t.freeList[i] == c;
        if s.freeList[k].length == length {
          assert c == s.freeList[if i < k then i else i + 1];
        } else if i != k {
          assert c == s.freeList[i];
        }
      }
    }
  }

  /** A successful malloc hands out [address, address + length): a range that was free
      before, is allocated afterwards and is no longer free; the tiling is kept. */
  lemma MallocKeepsTiles(s: Space, maxSize: int, length: int)
    requires Tiles(s, maxSize) && length > 0
    ensures Tiles(Malloc(s, length).1, maxSize)
    ensures var (address, t) := Malloc(s, length);
      address != -1 ==>
        t.allocatedList == s.allocatedList + [MemoryBlock(address, length)] &&
        forall x :: address <= x < address + length ==>
          Count(s.freeList, x) == 1 && Count(t.freeList, x) == 0 && Count(t.allocatedList, x) == 1
  {
    var k := FirstFit(s.freeList, length);
    if k != -1 {
      var (address, t) := Malloc(s, length);
      assert s.freeList[k] in s.freeList;
      MallocFreeBounds(s, length);
      forall x ensures Count(t.allocatedList, x) + Count(t.freeList, x) == Count(s.allocatedList, x) + Count(s.freeList, x)
        && (address <= x < address + length ==> Count(s.freeList, x) == 1 && Count(t.freeList, x) == 0 && Count(t.allocatedList, x) == 1)
      {
        MallocMoves(s, length, x);
      }
      MallocMoves(s, length, 0);
    }
  }

  // ---------------------------------------------------------------- free

  /** The position of the first block whose base is `address`; -1 when there is none. */
  function FindBase(s: seq<MemoryBlock>, address: int): (r: int)
    ensures -1 <= r < |s|
    ensures r == -1 <==> forall k :: 0 <= k < |s| ==> s[k].baseAddress != address
    ensures 0 <= r ==> s[r].baseAddress == address && forall k :: 0 <= k < r ==> s[k].baseAddress != address
  {
    FindBaseFrom(s, address, 0)
  }

  /** The scan behind FindBase, from position `i` on. */
  function FindBaseFrom(s: seq<MemoryBlock>, address: int, i: nat): (r: int)
    requires i <= |s|
    ensures -1 <= r < |s|
    ensures r == -1 <==> forall k :: i <= k < |s| ==> s[k].baseAddress != address
    ensures 0 <= r ==> i <= r && s[r].baseAddress == address && forall k :: i <= k < r ==> s[k].baseAddress != address
    decreases |s| - i
  {
    if i == |s| then -1
    else if s[i].baseAddress == address then i
    else FindBaseFrom(s, address, i + 1)
  }

  /** free(address): None when nothing is allocated (an error); otherwise the first
      allocated block based at `address` moves, unchanged, to the end of the free list,
      and nothing happens when there is no such block. */
  function Free(s: Space, address: int): (r: Option<Space>)
    ensures r.None? <==> s.allocatedList == []
    ensures r.Some? ==>
      multiset(r.value.allocatedList) + multiset(r.value.freeList) == multiset(s.allocatedList) + multiset(s.freeList)
    ensures r.Some? && FindBase(s.allocatedList, address) != -1 ==>
      r.value.freeList == s.freeList + [MemoryBlock(address, s.allocatedList[FindBase(s.allocatedList, address)].length)]
  {
    if s.allocatedList == [] then None
    else
      var k := FindBase(s.allocatedList, address);
      if k == -1 then Some(s)
      else
        MultisetRemoveAt(s.allocatedList, k);
        Some(Space(s.allocatedList[..k] + s.allocatedList[k + 1..], s.freeList + [s.allocatedList[k]]))
  }

  /** free keeps the tiling. */
  lemma FreeKeepsTiles(s: Space, maxSize: int, address: int)
    requires Tiles(s, maxSize)
    ensures Free(s, address).Some? <==> s.allocatedList != []
    ensures Free(s, address).Some? ==> Tiles(Free(s, address).value, maxSize)
  {
    if s.allocatedList != [] {
      var k := FindBase(s.allocatedList, address);
      if k != -1 {
        var b := s.allocatedList[k];
        var t := Free(s, address).value;
        assert b in s.allocatedList;
        assert [b][1..] == [];
        forall x ensures Count(t.allocatedList, x) + Count(t.freeList, x) == Count(s.allocatedList, x) + Count(s.freeList, x) {
          RemoveAtEffect(s.allocatedList, k, x);
          CountAppend(s.freeList, [b], x);
        }
        RemoveAtEffect(s.allocatedList, k, 0);
        TotalLengthAppend(s.freeList, [b]);
      }
    }
  }

  /** Freeing the address a successful malloc returned puts exactly the allocated range
      back at the end of the free list and restores the allocated list. */
  lemma FreeAfterMalloc(s: Space, maxSize: int, length: int)
    requires Tiles(s, maxSize) && length > 0
    requires Malloc(s, length).0 != -1
    ensures var (address, t) := Malloc(s, length);
      Free(t, address) == Some(Space(s.allocatedList, t.freeList + [MemoryBlock(address, length)]))
  {
    var (address, t) := Malloc(s, length);
    HandedFoundLast(s, maxSize, length);
    var n := |s.allocatedList|;
    assert t.allocatedList[..n] + t.allocatedList[n + 1..] == s.allocatedList;
  }

  /** The block a successful malloc appends is the first allocated block based at its address. */
  lemma HandedFoundLast(s: Space, maxSize: int, length: int)
    requires Tiles(s, maxSize) && length > 0
    requires Malloc(s, length).0 != -1
    ensures FindBase(Malloc(s, length).1.allocatedList, Malloc(s, length).0) == |s.allocatedList|
  {
    var (address, t) := Malloc(s, length);
    var handed := MemoryBlock(address, length);
    MallocKeepsTiles(s, maxSize, length);
    assert Count(t.allocatedList, address) <= 1;
    CountAppend(s.allocatedList, [handed], address);
    assert [handed][1..] == [];
    OnlyLastBasedAt(s.allocatedList, handed);
  }

  /** When no two non-empty blocks of `a + [b]` share an address, `b` is the first
      block based where it starts. */
  lemma OnlyLastBasedAt(a: seq<MemoryBlock>, b: MemoryBlock)
    requires forall c :: c in a ==> c.length > 0
    requires b.length > 0 && Count(a, b.baseAddress) + Hit(b, b.baseAddress) <= 1
    ensures FindBase(a + [b], b.baseAddress) == |a|
  {
    var t := a + [b];
    var k := FindBase(t, b.baseAddress);
    assert t[|a|] == b;
    if k < |a| {
      assert t[k] == a[k] && a[k] in a;
      SplitAt(a, k, b.baseAddress);
      assert false;
    }
  }

  // ---------------------------------------------------------------- defrag

  /** `a` ends exactly where `b` starts, so the two can be merged. */
  predicate Adjacent(a: MemoryBlock, b: MemoryBlock) {
    a.baseAddress + a.length == b.baseAddress
  }

  /** `a` extended by the length of `b`. */
  function Merge(a: MemoryBlock, b: MemoryBlock): MemoryBlock {
    MemoryBlock(a.baseAddress, a.length + b.length)
  }

  /** No two consecutive blocks can be merged. */
  ghost predicate NoMergeable(s: seq<MemoryBlock>) {
    forall i :: 0 <= i < |s| - 1 ==> !Adjacent(s[i], s[i + 1])
  }

  /** defrag's merging pass over the (sorted) free list: an adjacent successor is merged
      into the current block and the comparison is repeated; otherwise the cursor moves on. */
  function Coalesce(s: seq<MemoryBlock>): (r: seq<MemoryBlock>)
    ensures |r| <= |s|
    ensures |s| > 0 ==> |r| > 0 && r[0].baseAddress == s[0].baseAddress
    decreases |s|
  {
    if |s| <= 1 then s
    else if Adjacent(s[0], s[1]) then Coalesce([Merge(s[0], s[1])] + s[2..])
    else [s[0]] + Coalesce(s[1..])
  }

  /** Merging never lowers a base, and never makes a length negative. */
  lemma {:induction false} CoalesceBounds(s: seq<MemoryBlock>, low: int)
    requires forall b :: b in s ==> b.baseAddress >= low
    ensures forall b :: b in Coalesce(s) ==> b.baseAddress >= low
    ensures (forall b :: b in s ==> b.length >= 0) ==> forall b :: b in Coalesce(s) ==> b.length >= 0
    decreases |s|
  {
    if |s| > 1 {
      if Adjacent(s[0], s[1]) {
        var t := [Merge(s[0], s[1])] + s[2..];
        assert s[0] in s && s[1] in s;
        assert forall b :: b in t ==> b == t[0] || b in s;
        CoalesceBounds(t, low);
      } else {
        assert forall b :: b in s[1..] ==> b in s;
        CoalesceBounds(s[1..], low);
      }
    }
  }

  /** A block no higher than any block of a sorted list can go in front of it. */
  lemma SortedCons(b: MemoryBlock, r: seq<MemoryBlock>)
    requires SortedByBase(r) && forall c :: c in r ==> b.baseAddress <= c.baseAddress
    ensures SortedByBase([b] + r)
  {
    var t := [b] + r;
    forall i, j | 0 <= i < j < |t| ensures t[i].baseAddress <= t[j].baseAddress {
      assert t[j] == r[j - 1];
      if i > 0 {
        assert t[i] == r[i - 1];
      }
    }
  }

  lemma {:induction false} CoalesceSorted(s: seq<MemoryBlock>)
    requires SortedByBase(s)
    ensures SortedByBase(Coalesce(s))
    decreases |s|
  {
    if |s| > 1 {
      if Adjacent(s[0], s[1]) {
        var t := [Merge(s[0], s[1])] + s[2..];
        assert forall j :: 1 <= j < |t| ==> t[j] == s[j + 1];
        CoalesceSorted(t);
        assert Coalesce(s) == Coalesce(t);
      } else {
        var rest := s[1..];
        CoalesceSorted(rest);
        assert forall b :: b in rest ==> b.baseAddress >= s[0].baseAddress;
        CoalesceBounds(rest, s[0].baseAddress);
        assert Coalesce(s) == [s[0]] + Coalesce(rest);
        SortedCons(s[0], Coalesce(rest));
      }
    }
  }

  lemma {:induction false} CoalesceNoMergeable(s: seq<MemoryBlock>)
    ensures NoMergeable(Coalesce(s))
    decreases |s|
  {
    if |s| > 1 {
      if Adjacent(s[0], s[1]) {
        CoalesceNoMergeable([Merge(s[0], s[1])] + s[2..]);
      } else {
        CoalesceNoMergeable(s[1..]);
      }
    }
  }

  /** Merging keeps every covered address and the total length, provided no length is negative. */
  lemma {:induction false} CoalesceEffect(s: seq<MemoryBlock>, x: int)
    requires forall b :: b in s ==> b.length >= 0
    ensures Count(Coalesce(s), x) == Count(s, x)
    ensures TotalLength(Coalesce(s)) == TotalLength(s)
    decreases |s|
  {
    if |s| > 1 {
      assert s[1..][1..] == s[2..];
      if Adjacent(s[0], s[1]) {
        var t := [Merge(s[0], s[1])] + s[2..];
        assert s[0] in s && s[1] in s;
        assert forall b :: b in t ==> b == t[0] || b in s;
        assert t[1..] == s[2..];
        CoalesceEffect(t, x);
      } else {
        var r := [s[0]] + Coalesce(s[1..]);
        assert r[1..] == Coalesce(s[1..]);
        assert forall b :: b in s[1..] ==> b in s;
        CoalesceEffect(s[1..], x);
      }
    }
  }

  /** A list with nothing left to merge is its own coalescing; so merging twice is merging once. */
  lemma {:induction false} CoalesceFixpoint(s: seq<MemoryBlock>)
    requires NoMergeable(s)
    ensures Coalesce(s) == s
    decreases |s|
  {
    if |s| > 1 {
      CoalesceFixpoint(s[1..]);
      assert s == [s[0]] + s[1..];
    }
  }

  lemma CoalesceIdempotent(s: seq<MemoryBlock>)
    ensures Coalesce(Coalesce(s)) == Coalesce(s)
  {
    CoalesceNoMergeable(s);
    CoalesceFixpoint(Coalesce(s));
  }

  /** defrag(): a free list of at most one block is left alone; a longer one is bubble
      sorted by base address and then merged. The allocated list is untouched. */
  function Defrag(s: Space): (r: Space)
    ensures r.allocatedList == s.allocatedList
    ensures |r.freeList| <= |s.freeList| && (r.freeList == [] <==> s.freeList == [])
  {
    if |s.freeList| <= 1 then s
    else Space(s.allocatedList, Coalesce(LinkedLists.BubbleSort(s.freeList)))
  }

  /** After defrag the free list is ordered by base address and no two neighbours are
      adjacent in memory, so none could be merged further. */
  lemma DefragShape(s: Space)
    ensures Defrag(s).allocatedList == s.allocatedList
    ensures |s.freeList| > 1 ==> SortedByBase(Defrag(s).freeList) && NoMergeable(Defrag(s).freeList)
  {
    if |s.freeList| > 1 {
      var sorted := LinkedLists.BubbleSort(s.freeList);
      LinkedLists.BubbleSortCorrect(s.freeList);
      CoalesceSorted(sorted);
      CoalesceNoMergeable(sorted);
    }
  }

  /** defrag keeps the tiling. */
  lemma DefragKeepsTiles(s: Space, maxSize: int)
    requires Tiles(s, maxSize)
    ensures Tiles(Defrag(s), maxSize)
  {
    if |s.freeList| > 1 {
      var sorted := LinkedLists.BubbleSort(s.freeList);
      LinkedLists.BubbleSortCorrect(s.freeList);
      MergeKeepsTiles(s, maxSize, sorted);
    }
  }

  /** Merging any permutation of the free list keeps the tiling. */
  lemma MergeKeepsTiles(s: Space, maxSize: int, sorted: seq<MemoryBlock>)
    requires Tiles(s, maxSize)
    requires multiset(sorted) == multiset(s.freeList)
    ensures Tiles(Space(s.allocatedList, Coalesce(sorted)), maxSize)
  {
    assert forall b :: b in sorted ==> b in multiset(s.freeList);
    CoalesceBounds(sorted, 0);
    forall x ensures Count(Coalesce(sorted), x) == Count(s.freeList, x) {
      PermutationEffect(sorted, s.freeList, x);
      CoalesceEffect(sorted, x);
    }
    PermutationEffect(sorted, s.freeList, 0);
    CoalesceEffect(sorted, 0);
  }

  /** Defragmenting a defragmented space changes nothing. */
  lemma DefragIdempotent(s: Space)
    ensures Defrag(Defrag(s)) == Defrag(s)
  {
    var t := Defrag(s);
    if |t.freeList| > 1 {
      DefragShape(s);
      LinkedLists.BubbleSortCorrect(t.freeList);
      CoalesceFixpoint(t.freeList);
    }
  }
}
