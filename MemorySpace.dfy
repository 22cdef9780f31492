/** The managed memory space: an allocated list and a free list of memory blocks,
    changed in place by malloc, free and defrag. Each method is tied to the function
    of the same name in `Allocation`, which states what it does on values. */
module MemorySpaces {
  import opened Blocks
  import opened LinkedLists
  import Allocation

  class MemorySpace {
    const allocatedList: LinkedList
    const freeList: LinkedList
    /** The size the space was created with; the original does not keep it. */
    ghost const maxSize: int

    /** Two distinct, well-formed lists that share no node. */
    ghost predicate Valid()
      reads this, allocatedList, freeList, allocatedList.Repr, freeList.Repr
    {
      && allocatedList != freeList
      && allocatedList.Repr !! freeList.Repr
      && allocatedList.Valid() && freeList.Valid()
    }

    /** The contents of the two lists. */
    ghost function Abstract(): Allocation.Space
      reads this, allocatedList, freeList
    {
      Allocation.Space(allocatedList.Contents, freeList.Contents)
    }

    /** The lists tile [0, maxSize). */
    ghost predicate Tiled()
      reads this, allocatedList, freeList, allocatedList.Repr, freeList.Repr
    {
      Valid() && Allocation.Tiles(Abstract(), maxSize)
    }

    /** Nothing allocated; one free block [0, maxSize). For a non-negative size the
        lists tile the space. */
    constructor (maxSize: int)
      ensures Valid() && fresh(allocatedList) && fresh(freeList)
      ensures fresh(allocatedList.Repr) && fresh(freeList.Repr)
      ensures Abstract() == Allocation.Initial(maxSize) && this.maxSize == maxSize
      ensures maxSize >= 0 ==> Tiled()
    {
      var used := new LinkedList();
      var free := new LinkedList();
      free.AddLast(MemoryBlock(0, maxSize));
      allocatedList := used;
      freeList := free;
      this.maxSize := maxSize;
      new;
      if maxSize >= 0 {
        Allocation.InitialTiles(maxSize);
      }
    }

    /** First fit: walks the free list for the first block at least `length` long. */
    method Malloc(length: int) returns (address: int)
      requires Valid()
      modifies allocatedList, allocatedList.Repr, freeList, freeList.Repr
      ensures Valid() && fresh(allocatedList.Repr - old(allocatedList.Repr)) && freeList.Repr <= old(freeList.Repr)
      ensures (address, Abstract()) == Allocation.Malloc(old(Abstract()), length)
      ensures old(Tiled()) && length > 0 ==> Tiled()
    {
      ghost var s := Abstract();
      var current := freeList.GetFirst();
      ghost var k := 0;
      while current != null
        invariant Valid() && Abstract() == s
        invariant 0 <= k <= |s.freeList|
        invariant current == if k < |s.freeList| then freeList.Nodes[k] else null
        invariant forall i :: 0 <= i < k ==> s.freeList[i].length < length
        decreases |s.freeList| - k
      {
        if current.block.length >= length {
          assert Allocation.FirstFit(s.freeList, length) == k;
          address := Allocate(current, k, length);
          Settle(s, length);
          return;
        }
        current := current.next;
        k := k + 1;
      }
      address := -1;
      Settle(s, length);
    }

    /** The body of `Malloc` once the first fit, `current` at position `k`, is found:
        the new block is appended to the allocated list, and the free block is removed
        when it fits exactly and shortened from the front otherwise. */
    method Allocate(current: Node, ghost k: int, length: int) returns (address: int)
      requires Valid() && 0 <= k < |freeList.Contents| && current == freeList.Nodes[k]
      requires Allocation.FirstFit(freeList.Contents, length) == k
      modifies allocatedList, allocatedList.Repr, freeList, freeList.Repr
      ensures Valid() && fresh(allocatedList.Repr - old(allocatedList.Repr)) && freeList.Repr <= old(freeList.Repr)
      ensures (address, Abstract()) == Allocation.Malloc(old(Abstract()), length)
    {
      var baseAddress := current.block.baseAddress;
      var newBlock := MemoryBlock(baseAddress, length);
      AppendAllocated(newBlock);
      if current.block.length == length {
        DropFree(current, k);
      } else {
        var b := current.block;
        ReplaceFree(current, k, MemoryBlock(b.baseAddress + length, b.length - length));
      }
      address := baseAddress;
    }

    /** `allocatedList.add(allocatedList.getSize(), block)`: appends to the allocated list. */
    method AppendAllocated(block: MemoryBlock)
      requires Valid()
      modifies allocatedList, allocatedList.Repr
      ensures Valid() && fresh(allocatedList.Repr - old(allocatedList.Repr)) && freeList.Repr == old(freeList.Repr)
      ensures allocatedList.Contents == old(allocatedList.Contents) + [block]
      ensures freeList.Nodes == old(freeList.Nodes) && freeList.Contents == old(freeList.Contents)
    {
      var size := allocatedList.GetSize();
      var ok := allocatedList.Add(size, block);
      assert old(allocatedList.Contents)[..size] == old(allocatedList.Contents);
    }

    /** `freeList.remove(node)` for the node at position `k`. */
    method DropFree(node: Node, ghost k: int)
      requires Valid() && 0 <= k < |freeList.Nodes| && freeList.Nodes[k] == node
      modifies freeList, freeList.Repr
      ensures Valid() && freeList.Repr <= old(freeList.Repr) && allocatedList.Repr == old(allocatedList.Repr)
      ensures freeList.Nodes == old(freeList.Nodes)[..k] + old(freeList.Nodes)[k + 1..]
      ensures freeList.Contents == old(freeList.Contents)[..k] + old(freeList.Contents)[k + 1..]
      ensures allocatedList.Contents == old(allocatedList.Contents)
    {
      DistinctIndex(freeList.Nodes, k);
      freeList.Remove(node);
    }

    /** Gives the free node at position `k` the block `block`. */
    method ReplaceFree(node: Node, ghost k: int, block: MemoryBlock)
      requires Valid() && 0 <= k < |freeList.Nodes| && freeList.Nodes[k] == node
      modifies freeList, freeList.Repr
      ensures Valid() && freeList.Repr == old(freeList.Repr) && freeList.Nodes == old(freeList.Nodes)
      ensures freeList.Contents == old(freeList.Contents)[k := block]
      ensures allocatedList.Contents == old(allocatedList.Contents) && allocatedList.Repr == old(allocatedList.Repr)
    {
      freeList.SetBlock(node, k, block);
    }

    /** The tiling half of `Malloc`'s contract. */
    lemma Settle(s: Allocation.Space, length: int)
      requires Valid() && Abstract() == Allocation.Malloc(s, length).1
      ensures Allocation.Tiles(s, maxSize) && length > 0 ==> Tiled()
    {
      if Allocation.Tiles(s, maxSize) && length > 0 {
        Allocation.MallocKeepsTiles(s, maxSize, length);
      }
    }

    /** Moves the first allocated block based at `address` to the end of the free list;
        false (the original throws) when nothing is allocated. */
    method Free(address: int) returns (ok: bool)
      requires Valid()
      modifies allocatedList, allocatedList.Repr, freeList, freeList.Repr
      ensures Valid() && allocatedList.Repr <= old(allocatedList.Repr) && fresh(freeList.Repr - old(freeList.Repr))
      ensures ok <==> old(allocatedList.Contents) != []
      ensures Allocation.Free(old(Abstract()), address) == if ok then Some(Abstract()) else None
      ensures !ok ==> Abstract() == old(Abstract())
      ensures old(Tiled()) ==> Tiled()
    {
      ghost var s := Abstract();
      var size := allocatedList.GetSize();
      if size == 0 {
        return false;
      }
      ok := true;
      var firstNode := allocatedList.GetFirst();
      ghost var k := 0;
      while firstNode != null
        invariant Valid() && Abstract() == s
        invariant 0 <= k <= |s.allocatedList|
        invariant firstNode == if k < |s.allocatedList| then allocatedList.Nodes[k] else null
        invariant forall i :: 0 <= i < k ==> s.allocatedList[i].baseAddress != address
        decreases |s.allocatedList| - k
      {
        var allocatedNode := firstNode.block;
        if allocatedNode.baseAddress == address {
          assert Allocation.FindBase(s.allocatedList, address) == k;
          Release(allocatedNode, k, address);
          Released(s, address);
          return;
        }
        firstNode := firstNode.next;
        k := k + 1;
      }
      Released(s, address);
    }

    /** The body of `Free` once the block, at position `k`, is found: it is removed
        from the allocated list by value and appended to the free list. */
    method Release(allocatedNode: MemoryBlock, ghost k: int, address: int)
      requires Valid() && 0 <= k < |allocatedList.Contents|
      requires allocatedList.Contents[k] == allocatedNode
      requires Allocation.FindBase(allocatedList.Contents, address) == k
      modifies allocatedList, allocatedList.Repr, freeList, freeList.Repr
      ensures Valid() && allocatedList.Repr <= old(allocatedList.Repr) && fresh(freeList.Repr - old(freeList.Repr))
      ensures Allocation.Free(old(Abstract()), address) == Some(Abstract())
    {
      assert FirstIndex(allocatedList.Contents, allocatedNode) == k;
      TakeAllocated(allocatedNode);
      AppendFree(allocatedNode);
    }

    /** `allocatedList.remove(block)`: the first occurrence of `block` goes. */
    method TakeAllocated(block: MemoryBlock)
      requires Valid()
      modifies allocatedList, allocatedList.Repr
      ensures Valid() && allocatedList.Repr <= old(allocatedList.Repr) && freeList.Repr == old(freeList.Repr)
      ensures var k := FirstIndex(old(allocatedList.Contents), block);
        allocatedList.Contents == if k == -1 then old(allocatedList.Contents)
          else old(allocatedList.Contents)[..k] + old(allocatedList.Contents)[k + 1..]
      ensures freeList.Nodes == old(freeList.Nodes) && freeList.Contents == old(freeList.Contents)
    {
      var ok := allocatedList.RemoveBlock(block);
    }

    /** `freeList.addLast(block)`. */
    method AppendFree(block: MemoryBlock)
      requires Valid()
      modifies freeList, freeList.Repr
      ensures Valid() && fresh(freeList.Repr - old(freeList.Repr))
      ensures freeList.Contents == old(freeList.Contents) + [block]
      ensures allocatedList.Contents == old(allocatedList.Contents) && allocatedList.Repr == old(allocatedList.Repr)
    {
      freeList.AddLast(block);
    }

    /** The tiling half of `Free`'s contract. */
    lemma Released(s: Allocation.Space, address: int)
      requires Valid() && s.allocatedList != []
      requires Allocation.Free(s, address) == Some(Abstract())
      ensures Allocation.Tiles(s, maxSize) ==> Tiled()
    {
      if Allocation.Tiles(s, maxSize) {
        Allocation.FreeKeepsTiles(s, maxSize, address);
      }
    }

    /** Sorts the free list by base address, then merges each block with the blocks
        that follow it directly in memory. */
    method Defrag()
      requires Valid()
      modifies freeList, freeList.Repr
      ensures Valid() && freeList.Repr <= old(freeList.Repr)
      ensures Abstract() == Allocation.Defrag(old(Abstract()))
      ensures old(Tiled()) ==> Tiled()
    {
      ghost var s := Abstract();
      var size := freeList.GetSize();
      if size <= 1 {
        return;
      }
      SortFree();
      MergeAdjacent();
      assert Abstract() == Allocation.Defrag(s);
      if Allocation.Tiles(s, maxSize) {
        Allocation.DefragKeepsTiles(s, maxSize);
      }
    }

    /** The merging loop of `Defrag`: the cursor stays on a block while its successor
        starts where it ends, absorbing that successor, and moves on otherwise. */
    method MergeAdjacent()
      requires Valid() && |freeList.Contents| > 1
      modifies freeList, freeList.Repr
      ensures Valid() && freeList.Repr <= old(freeList.Repr)
      ensures freeList.Contents == Allocation.Coalesce(old(freeList.Contents))
      ensures allocatedList.Contents == old(allocatedList.Contents)
    {
      ghost var sorted := freeList.Contents;
      var current := freeList.GetFirst();
      ghost var c := 0;
      while current != null && current.next != null
        invariant Valid() && allocatedList.Contents == old(allocatedList.Contents)
        invariant freeList.Repr <= old(freeList.Repr)
        invariant 0 <= c < |freeList.Contents| && current == freeList.Nodes[c]
        invariant freeList.Contents[..c] + Allocation.Coalesce(freeList.Contents[c..]) == Allocation.Coalesce(sorted)
        decreases |freeList.Contents| - c
      {
        var currentBlock := current.block;
        var nextBlock := current.next.block;
        if currentBlock.baseAddress + currentBlock.length == nextBlock.baseAddress {
          MergeNext(current, c);
        } else {
          Skip(c);
          current := current.next;
          c := c + 1;
        }
      }
      Finish(c, sorted);
    }

    /** `freeList.sort()`. */
    method SortFree()
      requires Valid()
      modifies freeList, freeList.Repr
      ensures Valid() && freeList.Repr == old(freeList.Repr)
      ensures freeList.Contents == BubbleSort(old(freeList.Contents))
      ensures allocatedList.Contents == old(allocatedList.Contents)
    {
      freeList.Sort();
    }

    /** One merge of `Defrag`: the block after `current` is absorbed into it and its
        node removed, which leaves the merged result of the list unchanged. */
    method MergeNext(current: Node, ghost c: int)
      requires Valid() && 0 <= c < |freeList.Contents| - 1 && current == freeList.Nodes[c]
      requires Allocation.Adjacent(freeList.Contents[c], freeList.Contents[c + 1])
      modifies freeList, freeList.Repr
      ensures Valid() && freeList.Repr <= old(freeList.Repr)
      ensures c < |freeList.Nodes| && freeList.Nodes[c] == current
      ensures |freeList.Contents| == |old(freeList.Contents)| - 1
      ensures freeList.Contents[..c] + Allocation.Coalesce(freeList.Contents[c..])
           == old(freeList.Contents)[..c] + Allocation.Coalesce(old(freeList.Contents)[c..])
    {
      ghost var cs := freeList.Contents;
      var currentBlock := current.block;
      var nextBlock := current.next.block;
      assert current.next == freeList.Nodes[c + 1];
      ReplaceFree(current, c, MemoryBlock(currentBlock.baseAddress, currentBlock.length + nextBlock.length));
      DropFree(current.next, c + 1);
      var merged := Allocation.Merge(cs[c], cs[c + 1]);
      assert freeList.Contents == cs[..c] + [merged] + cs[c + 2..];
      assert freeList.Contents[..c] == cs[..c];
      assert freeList.Contents[c..] == [merged] + cs[c + 2..];
      assert cs[c..][2..] == cs[c + 2..];
    }

    /** The other step of `Defrag`: block `c` cannot be merged with its successor and
        is kept as it is. */
    lemma Skip(c: int)
      requires Valid() && 0 <= c < |freeList.Contents| - 1
      requires !Allocation.Adjacent(freeList.Contents[c], freeList.Contents[c + 1])
      ensures freeList.Contents[..c + 1] + Allocation.Coalesce(freeList.Contents[c + 1..])
           == freeList.Contents[..c] + Allocation.Coalesce(freeList.Contents[c..])
    {
      var cs := freeList.Contents;
      assert cs[c..][1..] == cs[c + 1..];
      assert cs[..c + 1] == cs[..c] + [cs[c]];
    }

    /** When `Defrag` stops, its cursor is at the last node and the list is merged. */
    lemma Finish(c: int, sorted: seq<MemoryBlock>)
      requires Valid() && 0 <= c < |freeList.Contents| && freeList.Nodes[c].next == null
      requires freeList.Contents[..c] + Allocation.Coalesce(freeList.Contents[c..]) == Allocation.Coalesce(sorted)
      ensures freeList.Contents == Allocation.Coalesce(sorted)
    {
      var cs := freeList.Contents;
      assert c == |cs| - 1;
      assert cs[..c] + cs[c..] == cs;
    }
  }
}
