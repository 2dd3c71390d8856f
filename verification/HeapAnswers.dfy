/**
 What malloc, calloc and realloc of HeapModel answer, in terms of the blocks there are and the room
 that is left.
 */
module HeapAnswers {
  import opened Numbers
  import opened HeapModel

  /** The payload size of the block at p. */
  function SizeAt(a: Heap, p: nat): nat
    requires IsLive(a, p)
  {
    a.blocks[p - DATA_OFFSET].size
  }

  /** g is what a request is rounded up to: the least bucket that holds it, or itself if none does. */
  ghost predicate RoundsTo(c: Config, size: nat, g: nat) {
    && (g in c.sizes || (g == size && forall s | s in c.sizes :: s < size))
    && size <= g && forall s | s in c.sizes && size <= s :: g <= s
  }

  lemma GrantedRounds(c: Config, size: nat)
    requires GoodConfig(c)
    ensures RoundsTo(c, size, Granted(c, size))
  {
    var b := FirstFit(c.sizes, size);
    forall s | s in c.sizes && size <= s ensures Granted(c, size) <= s {
      var i: nat :| i < |c.sizes| && c.sizes[i] == s;
      assert b <= i;
    }
  }

  /** A block of this size waits on a free list. */
  ghost predicate Spare(a: Heap, g: nat) {
    exists h :: h in a.blocks && a.blocks[h] == Block(g, Free)
  }

  /** The free blocks of a size are those on the list of its bucket. */
  lemma SpareIff(c: Config, a: Heap, size: nat)
    requires Inv(c, a)
    ensures var b := FirstFit(c.sizes, size);
            Spare(a, Granted(c, size)) <==> b < |c.sizes| && a.free[b] != []
  {
    var b, g := FirstFit(c.sizes, size), Granted(c, size);
    if b < |c.sizes| && a.free[b] != [] {
      FreeEntry(c, a, b, 0);
    }
    if h :| h in a.blocks && a.blocks[h] == Block(g, Free) {
      assert FiledAs(c, a, h);
      if b < |c.sizes| {
        IndexOfOwn(c.sizes, b);
      } else {
        GrantedRounds(c, size);
      }
    }
  }

  /** malloc answers null exactly if nothing is asked, or no block of the size waits and no new one fits. */
  lemma MallocNullIff(c: Config, a: Heap, size: nat, g: nat)
    requires Inv(c, a) && RoundsTo(c, size, g)
    ensures Malloc(c, a, size).1 == 0 <==> size == 0 || (!Spare(a, g) && a.next + Extent(g) > c.top)
  {
    RoundsOnce(c, size, g);
    SpareIff(c, a, size);
  }

  lemma RoundsOnce(c: Config, size: nat, g: nat)
    requires GoodConfig(c) && RoundsTo(c, size, g)
    ensures g == Granted(c, size)
  {
    GrantedRounds(c, size);
  }

  /** Its block has exactly that size, and is one that waited if there was any, or the next new one. */
  lemma MallocBlock(c: Config, a: Heap, size: nat, g: nat)
    requires Inv(c, a) && RoundsTo(c, size, g) && Malloc(c, a, size).1 != 0
    ensures var (a', q) := Malloc(c, a, size);
            && IsLive(a', q) && SizeAt(a', q) == g
            && if Spare(a, g) then q - DATA_OFFSET in a.blocks && a.blocks[q - DATA_OFFSET] == Block(g, Free)
               else q == a.next + DATA_OFFSET
  {
    RoundsOnce(c, size, g);
    SpareIff(c, a, size);
    var b := FirstFit(c.sizes, size);
    if b < |c.sizes| && a.free[b] != [] {
      FreeEntry(c, a, b, 0);
    }
  }

  /** The block that was freed last is the first to be handed out again. */
  lemma LastFreedFirst(c: Config, a: Heap, p: nat, size: nat)
    requires Inv(c, a) && IsLive(a, p) && size > 0 && SizeAt(a, p) in c.sizes && RoundsTo(c, size, SizeAt(a, p))
    ensures Malloc(c, Release(c, a, p), size) == (a, p)
  {
    RoundsOnce(c, size, SizeAt(a, p));
    var b := FirstFit(c.sizes, size);
    assert b < |c.sizes|;
    IndexOfOwn(c.sizes, b);
    var freed := Release(c, a, p);
    assert freed.free[b] == [p - DATA_OFFSET] + a.free[b];
    assert freed.free[b := freed.free[b][1..]] == a.free;
    assert freed.blocks[p - DATA_OFFSET := Block(c.sizes[b], Live)] == a.blocks;
  }

  /** calloc of nothing answers null; of a product within 32 bits it answers as malloc. */
  lemma CallocAnswer(c: Config, a: Heap, n: nat, size: nat)
    requires |a.free| == |c.sizes|
    ensures n == 0 || size == 0 ==> Calloc(c, a, n, size) == (a, 0)
    ensures n * size < UINT32 ==> Calloc(c, a, n, size) == Malloc(c, a, n * size)
  {
    if n == 0 || size == 0 {
      assert n * size == 0;
    } else if n * size < UINT32 {
      InRange(n * size);
    }
  }

  lemma InRange(x: nat)
    requires x < UINT32
    ensures x % UINT32 == x
  {
  }

  /**
   realloc of a live block: to a size it already holds it answers the block and changes nothing; to a
   longer one it answers malloc's block, null exactly if malloc does, and ends the old block's life
   only if it is not null; to nothing it frees.
   */
  lemma ReallocAnswer(c: Config, a: Heap, p: nat, newSize: nat)
    requires Inv(c, a) && IsLive(a, p)
    ensures var (a', q) := Realloc(c, a, p, newSize);
            && (0 < newSize <= SizeAt(a, p) ==> q == p && a' == a)
            && (newSize > SizeAt(a, p) ==> q == Malloc(c, a, newSize).1)
            && (newSize > SizeAt(a, p) && q == 0 ==> a' == a)
            && (newSize > SizeAt(a, p) && q != 0 ==>
                  q != p && IsLive(a', q) && SizeAt(a', q) >= newSize && !IsLive(a', p))
            && (newSize == 0 ==> q == 0 && !IsLive(a', p))
  {
    if newSize > SizeAt(a, p) {
      GrowAnswer(c, a, p, newSize);
    } else {
      ReleaseInv(c, a, p);
    }
  }

  lemma GrowAnswer(c: Config, a: Heap, p: nat, newSize: nat)
    requires Inv(c, a) && IsLive(a, p) && newSize > SizeAt(a, p)
    ensures var (a', q) := Realloc(c, a, p, newSize);
            && q == Malloc(c, a, newSize).1 && (q == 0 ==> a' == a)
            && (q != 0 ==> q != p && IsLive(a', q) && SizeAt(a', q) >= newSize && !IsLive(a', p))
  {
    MallocServed(c, a, newSize);
    if Malloc(c, a, newSize).1 != 0 {
      MallocInv(c, a, newSize);
      ReleaseInv(c, Malloc(c, a, newSize).0, p);
    }
  }

  /** Whatever it does, every other live block stays. */
  lemma ReallocKeeps(c: Config, a: Heap, p: nat, newSize: nat)
    requires Inv(c, a) && IsLive(a, p)
    ensures KeepsLive(a, Realloc(c, a, p, newSize).0, p)
  {
    MallocServed(c, a, newSize);
    ReleaseInv(c, a, p);
    if newSize > SizeAt(a, p) && Malloc(c, a, newSize).1 != 0 {
      MallocInv(c, a, newSize);
      ReleaseInv(c, Malloc(c, a, newSize).0, p);
    }
  }

  lemma ReallocOfNull(c: Config, a: Heap, newSize: nat)
    requires Inv(c, a)
    ensures Realloc(c, a, 0, newSize) == Malloc(c, a, newSize)
  {
  }
}
