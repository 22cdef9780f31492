/** Memory blocks: the address ranges the allocator hands out, and facts about
    sequences of them that both lists and the allocator rely on. */
module Blocks {

  datatype Option<T> = None | Some(value: T)

  /** The address range [baseAddress, baseAddress + length). */
  datatype MemoryBlock = MemoryBlock(baseAddress: int, length: int) {
    predicate Contains(x: int) {
      baseAddress <= x < baseAddress + length
    }
  }

  /** 1 when `b` contains `x`, else 0. */
  function Hit(b: MemoryBlock, x: int): nat {
    if b.Contains(x) then 1 else 0
  }

  /** The number of blocks of `s` that contain address `x`. */
  function Count(s: seq<MemoryBlock>, x: int): nat {
    if s == [] then 0 else Hit(s[0], x) + Count(s[1..], x)
  }

  /** The sum of the lengths of the blocks of `s`. */
  function TotalLength(s: seq<MemoryBlock>): int {
    if s == [] then 0 else s[0].length + TotalLength(s[1..])
  }

  /** Ascending (not necessarily strictly) by base address. */
  ghost predicate SortedByBase(s: seq<MemoryBlock>) {
    forall i, j :: 0 <= i < j < |s| ==> s[i].baseAddress <= s[j].baseAddress
  }

  /** The first position of `b` in `s`, or -1 when `b` does not occur. */
  function FirstIndex<T(==)>(s: seq<T>, b: T): (r: int)
    ensures -1 <= r < |s|
    ensures r == -1 <==> b !in s
    ensures 0 <= r ==> s[r] == b && forall k :: 0 <= k < r ==> s[k] != b
  {
    FirstIndexFrom(s, b, 0)
  }

  /** The first position at or after `i` that holds `b`, or -1. */
  function FirstIndexFrom<T(==)>(s: seq<T>, b: T, i: nat): (r: int)
    requires i <= |s|
    ensures -1 <= r < |s|
    ensures r == -1 <==> forall k :: i <= k < |s| ==> s[k] != b
    ensures 0 <= r ==> i <= r && s[r] == b && forall k :: i <= k < r ==> s[k] != b
    decreases |s| - i
  {
    if i == |s| then -1
    else if s[i] == b then i
    else FirstIndexFrom(s, b, i + 1)
  }

  lemma {:induction false} CountAppend(a: seq<MemoryBlock>, b: seq<MemoryBlock>, x: int)
    ensures Count(a + b, x) == Count(a, x) + Count(b, x)
  {
    if a != [] {
      assert (a + b)[0] == a[0] && (a + b)[1..] == a[1..] + b;
      CountAppend(a[1..], b, x);
    } else {
      assert a + b == b;
    }
  }

  lemma {:induction false} TotalLengthAppend(a: seq<MemoryBlock>, b: seq<MemoryBlock>)
    ensures TotalLength(a + b) == TotalLength(a) + TotalLength(b)
  {
    if a != [] {
      assert (a + b)[0] == a[0] && (a + b)[1..] == a[1..] + b;
      TotalLengthAppend(a[1..], b);
    } else {
      assert a + b == b;
    }
  }

  /** Counting and summing split around position `k`. */
  lemma SplitAt(s: seq<MemoryBlock>, k: int, x: int)
    requires 0 <= k < |s|
    ensures Count(s, x) == Count(s[..k], x) + Hit(s[k], x) + Count(s[k + 1..], x)
    ensures TotalLength(s) == TotalLength(s[..k]) + s[k].length + TotalLength(s[k + 1..])
  {
    assert s == s[..k] + ([s[k]] + s[k + 1..]);
    CountAppend(s[..k], [s[k]] + s[k + 1..], x);
    TotalLengthAppend(s[..k], [s[k]] + s[k + 1..]);
    assert ([s[k]] + s[k + 1..])[1..] == s[k + 1..];
  }

  /** Deleting position `k` takes away exactly that block's contribution. */
  lemma RemoveAtEffect(s: seq<MemoryBlock>, k: int, x: int)
    requires 0 <= k < |s|
    ensures Count(s[..k] + s[k + 1..], x) == Count(s, x) - Hit(s[k], x)
    ensures TotalLength(s[..k] + s[k + 1..]) == TotalLength(s) - s[k].length
  {
    SplitAt(s, k, x);
    CountAppend(s[..k], s[k + 1..], x);
    TotalLengthAppend(s[..k], s[k + 1..]);
  }

  /** Replacing position `k` by `v` swaps the two blocks' contributions. */
  lemma ReplaceEffect(s: seq<MemoryBlock>, k: int, v: MemoryBlock, x: int)
    requires 0 <= k < |s|
    ensures Count(s[k := v], x) == Count(s, x) - Hit(s[k], x) + Hit(v, x)
    ensures TotalLength(s[k := v]) == TotalLength(s) - s[k].length + v.length
  {
    var t := s[k := v];
    SplitAt(s, k, x);
    SplitAt(t, k, x);
    assert t[..k] == s[..k] && t[k + 1..] == s[k + 1..];
  }

  /** Position `k` holds one copy of its block; the rest of `s` holds the others. */
  lemma MultisetRemoveAt(s: seq<MemoryBlock>, k: int)
    requires 0 <= k < |s|
    ensures multiset(s) == multiset{s[k]} + multiset(s[..k] + s[k + 1..])
  {
    assert s == s[..k] + [s[k]] + s[k + 1..];
  }

  /** A non-empty permutation of `b` starts with some block of `b`, and the rests agree. */
  lemma MatchFirst(a: seq<MemoryBlock>, b: seq<MemoryBlock>) returns (k: int)
    requires a != [] && multiset(a) == multiset(b)
    ensures 0 <= k < |b| && b[k] == a[0]
    ensures multiset(a[1..]) == multiset(b[..k] + b[k + 1..])
  {
    assert a[0] in b by { assert a[0] in multiset(b); }
    k :| 0 <= k < |b| && b[k] == a[0];
    var rest := b[..k] + b[k + 1..];
    assert a == [a[0]] + a[1..];
    MultisetRemoveAt(b, k);
    forall y ensures multiset(a[1..])[y] == multiset(rest)[y] {
      assert multiset(a)[y] == multiset{a[0]}[y] + multiset(a[1..])[y];
      assert multiset(b)[y] == multiset{b[k]}[y] + multiset(rest)[y];
    }
  }

  /** A permutation covers every address as often as the original, and has the same total length. */
  lemma {:induction false} PermutationEffect(a: seq<MemoryBlock>, b: seq<MemoryBlock>, x: int)
    requires multiset(a) == multiset(b)
    ensures Count(a, x) == Count(b, x)
    ensures TotalLength(a) == TotalLength(b)
  {
    if a == [] {
      assert |b| == |multiset(b)| == 0;
    } else {
      var k := MatchFirst(a, b);
      PermutationEffect(a[1..], b[..k] + b[k + 1..], x);
      RemoveAtEffect(b, k, x);
    }
  }
}
