/**
 How the heap of HeapModel lies in a flat byte memory: headers are words in that memory, the free lists
 are threaded through the `next` words of free blocks; and what each store of the allocator does to it.
 */
module HeapMemory {
  import opened Digits
  import opened HeapModel
  import opened Numbers

  const BLOCK_MAGIC := 0x424C4D43
  /** Offsets of the `size` and `next` words in a header; `magic` is at 0. */
  const SIZE_OFFSET := 4
  const NEXT_OFFSET := 8

  // ---------- little-endian words ----------

  function Word(m: seq<Byte>, at: nat): nat
    requires at + 4 <= |m|
  {
    m[at] as int + 0x100 * (m[at + 1] as int) + 0x1_0000 * (m[at + 2] as int) + 0x100_0000 * (m[at + 3] as int)
  }

  function Put(m: seq<Byte>, at: nat, v: nat): (r: seq<Byte>)
    requires at + 4 <= |m| && v < UINT32
    ensures SameOutside(m, r, at, at + 4)
  {
    m[at := v % 0x100][at + 1 := v / 0x100 % 0x100][at + 2 := v / 0x1_0000 % 0x100][at + 3 := v / 0x100_0000]
  }

  ghost predicate SameOutside(m: seq<Byte>, m': seq<Byte>, lo: nat, hi: nat) {
    |m| == |m'| && forall i | 0 <= i < |m| && !(lo <= i < hi) :: m'[i] == m[i]
  }

  lemma WordOfPut(m: seq<Byte>, at: nat, v: nat)
    requires at + 4 <= |m| && v < UINT32
    ensures Word(Put(m, at, v), at) == v
  {
    var q1, q2, q3 := v / 0x100, v / 0x1_0000, v / 0x100_0000;
    assert q2 == q1 / 0x100 && q3 == q2 / 0x100;
  }

  lemma WordElsewhere(m: seq<Byte>, m': seq<Byte>, lo: nat, hi: nat, at: nat)
    requires SameOutside(m, m', lo, hi)
    requires at + 4 <= |m| && (at + 4 <= lo || hi <= at)
    ensures Word(m', at) == Word(m, at)
  {
  }

  // ---------- the abstract heap as stored in memory ----------

  /** Entry i of a list, null past its end. */
  function Nth(list: seq<nat>, i: nat): nat {
    if i < |list| then list[i] else 0
  }

  ghost predicate HeaderStored(m: seq<Byte>, a: Heap, h: nat)
    requires h in a.blocks
  {
    && h + DATA_OFFSET <= |m|
    && Word(m, h) == BLOCK_MAGIC
    && Word(m, h + SIZE_OFFSET) == a.blocks[h].size
  }

  ghost predicate LinkStored(m: seq<Byte>, list: seq<nat>, i: nat)
    requires i < |list|
  {
    && list[i] + DATA_OFFSET <= |m|
    && Word(m, list[i] + NEXT_OFFSET) == Nth(list, i + 1)
  }

  ghost predicate Stored(m: seq<Byte>, heads: seq<nat>, a: Heap) {
    HeadersStored(m, a) && HeadsStored(heads, a.free) && LinksStored(m, a.free)
  }

  ghost predicate HeadersStored(m: seq<Byte>, a: Heap) {
    forall h {:trigger HeaderStored(m, a, h)} | h in a.blocks :: HeaderStored(m, a, h)
  }

  ghost predicate HeadsStored(heads: seq<nat>, free: seq<seq<nat>>) {
    |heads| == |free| && forall b | 0 <= b < |heads| :: heads[b] == Nth(free[b], 0)
  }

  ghost predicate LinksStored(m: seq<Byte>, free: seq<seq<nat>>) {
    forall b, i {:trigger LinkStored(m, free[b], i)} | 0 <= b < |free| && 0 <= i < |free[b]| ::
      LinkStored(m, free[b], i)
  }

  /** Memory and list heads store an intact heap. */
  ghost predicate Represents(c: Config, m: seq<Byte>, heads: seq<nat>, a: Heap) {
    Inv(c, a) && Stored(m, heads, a)
  }

  /** Writes that stay clear of every header disturb nothing that is stored. */
  lemma StoredFrame(c: Config, m: seq<Byte>, m': seq<Byte>, heads: seq<nat>, a: Heap, lo: nat, hi: nat)
    requires Inv(c, a) && Stored(m, heads, a)
    requires SameOutside(m, m', lo, hi)
    requires forall h | h in a.blocks :: h + DATA_OFFSET <= lo || hi <= h
    ensures Stored(m', heads, a)
  {
    forall h | h in a.blocks ensures HeaderStored(m', a, h) {
      assert HeaderStored(m, a, h);
      WordElsewhere(m, m', lo, hi, h);
      WordElsewhere(m, m', lo, hi, h + SIZE_OFFSET);
    }
    forall b, i | 0 <= b < |a.free| && 0 <= i < |a.free[b]| ensures LinkStored(m', a.free[b], i) {
      assert LinkStored(m, a.free[b], i);
      assert a.free[b][i] in a.blocks;
      WordElsewhere(m, m', lo, hi, a.free[b][i] + NEXT_OFFSET);
    }
  }

  /** The `next` word of a header is not part of any other header field. */
  lemma HeadersAfterLink(c: Config, m: seq<Byte>, a: Heap, h: nat, v: nat, k: nat)
    requires Inv(c, a)
    requires h in a.blocks && h + DATA_OFFSET <= |m| && v < UINT32
    requires k in a.blocks && HeaderStored(m, a, k)
    ensures HeaderStored(Put(m, h + NEXT_OFFSET, v), a, k)
  {
    var m' := Put(m, h + NEXT_OFFSET, v);
    WordElsewhere(m, m', h + NEXT_OFFSET, h + DATA_OFFSET, k);
    WordElsewhere(m, m', h + NEXT_OFFSET, h + DATA_OFFSET, k + SIZE_OFFSET);
  }

  lemma LinksAfterLink(c: Config, m: seq<Byte>, a: Heap, h: nat, v: nat, list: seq<nat>, i: nat)
    requires Inv(c, a)
    requires h in a.blocks && h + DATA_OFFSET <= |m| && v < UINT32
    requires i < |list| && list[i] in a.blocks && list[i] != h && LinkStored(m, list, i)
    ensures LinkStored(Put(m, h + NEXT_OFFSET, v), list, i)
  {
    WordElsewhere(m, Put(m, h + NEXT_OFFSET, v), h + NEXT_OFFSET, h + DATA_OFFSET, list[i] + NEXT_OFFSET);
  }

  lemma LinkInHeader(m: seq<Byte>, h: nat, v: nat)
    requires h + DATA_OFFSET <= |m| && v < UINT32
    ensures SameOutside(m, Put(m, h + NEXT_OFFSET, v), h, h + DATA_OFFSET)
  {
  }

  /** A store to one `next` word leaves all headers as they are, whoever owns the blocks. */
  lemma HeadersKept(c: Config, m: seq<Byte>, heads: seq<nat>, a: Heap, a': Heap, h: nat, v: nat)
    requires Inv(c, a) && Stored(m, heads, a)
    requires h in a.blocks && h + DATA_OFFSET <= |m| && v < UINT32
    requires a'.blocks.Keys == a.blocks.Keys
    requires forall k | k in a.blocks :: a'.blocks[k].size == a.blocks[k].size
    ensures HeadersStored(Put(m, h + NEXT_OFFSET, v), a')
  {
    forall k | k in a'.blocks ensures HeaderStored(Put(m, h + NEXT_OFFSET, v), a', k) {
      assert HeaderStored(m, a, k);
      HeadersAfterLink(c, m, a, h, v, k);
    }
  }

  /** An entry of a free list is a free block, and not the head of list b unless it is that. */
  lemma ListEntry(c: Config, a: Heap, i: nat, j: nat, b: nat)
    requires Inv(c, a) && i < |a.free| && j < |a.free[i]|
    requires b < |a.free| && a.free[b] != []
    ensures a.free[i][j] in a.blocks && a.blocks[a.free[i][j]] == Block(c.sizes[i], Free)
    ensures a.free[i][j] == a.free[b][0] ==> i == b && j == 0
  {
    FreeEntry(c, a, i, j);
    FreeEntry(c, a, b, 0);
  }

  lemma LinksAfterTake(c: Config, m: seq<Byte>, heads: seq<nat>, a: Heap, b: nat, i: nat, j: nat)
    requires Inv(c, a) && Stored(m, heads, a)
    requires b < |c.sizes| && a.free[b] != [] && a.free[b][0] + DATA_OFFSET <= |m|
    requires i < |a.free| && j < |a.free[b := a.free[b][1..]][i]|
    ensures LinkStored(Put(m, a.free[b][0] + NEXT_OFFSET, 0), a.free[b := a.free[b][1..]][i], j)
  {
    if i == b {
      TakenLink(c, m, heads, a, b, j);
    } else {
      ListEntry(c, a, i, j, b);
      LinkKept(c, m, heads, a, a.free[b][0], 0, i, j);
    }
  }

  lemma TakenLink(c: Config, m: seq<Byte>, heads: seq<nat>, a: Heap, b: nat, j: nat)
    requires Inv(c, a) && Stored(m, heads, a)
    requires b < |c.sizes| && j + 1 < |a.free[b]| && a.free[b][0] + DATA_OFFSET <= |m|
    ensures LinkStored(Put(m, a.free[b][0] + NEXT_OFFSET, 0), a.free[b][1..], j)
  {
    LinkBehindHead(c, m, heads, a, b, j + 1);
    LinkDropped(Put(m, a.free[b][0] + NEXT_OFFSET, 0), a.free[b], j);
  }

  lemma LinkBehindHead(c: Config, m: seq<Byte>, heads: seq<nat>, a: Heap, b: nat, j: nat)
    requires Inv(c, a) && Stored(m, heads, a)
    requires b < |c.sizes| && 0 < j < |a.free[b]| && a.free[b][0] + DATA_OFFSET <= |m|
    ensures LinkStored(Put(m, a.free[b][0] + NEXT_OFFSET, 0), a.free[b], j)
  {
    ListEntry(c, a, b, j, b);
    ListEntry(c, a, b, 0, b);
    LinkKept(c, m, heads, a, a.free[b][0], 0, b, j);
  }

  lemma LinkDropped(m: seq<Byte>, list: seq<nat>, j: nat)
    requires j + 1 < |list| && LinkStored(m, list, j + 1)
    ensures LinkStored(m, list[1..], j)
  {
    assert Nth(list[1..], j + 1) == Nth(list, j + 2);
  }

  /** malloc unlinks the head of a list. */
  lemma StoredTakeHead(c: Config, m: seq<Byte>, heads: seq<nat>, a: Heap, b: nat)
    requires Inv(c, a) && Stored(m, heads, a)
    requires b < |c.sizes| && a.free[b] != []
    ensures var h := heads[b];
            && h == a.free[b][0] && h + DATA_OFFSET <= |m|
            && Stored(Put(m, h + NEXT_OFFSET, 0), heads[b := Word(m, h + NEXT_OFFSET)], TakeHead(c, a, b))
  {
    var h := HeadLink(c, m, heads, a, b);
    TakeHeaders(c, m, heads, a, b, h);
    TakeHeadLinks(c, m, heads, a, b);
    HeadsReplaced(heads, a.free, b, NextOf(m, h), a.free[b][1..]);
  }

  lemma TakeHeaders(c: Config, m: seq<Byte>, heads: seq<nat>, a: Heap, b: nat, h: nat)
    requires Inv(c, a) && Stored(m, heads, a)
    requires b < |c.sizes| && a.free[b] != [] && h == a.free[b][0]
    requires h in a.blocks && a.blocks[h].size == c.sizes[b] && h + DATA_OFFSET <= |m|
    ensures HeadersStored(Put(m, h + NEXT_OFFSET, 0), TakeHead(c, a, b))
  {
    HeadersKept(c, m, heads, a, TakeHead(c, a, b), h, 0);
  }

  /** The head of a list is a free block, and its `next` word is the entry behind it. */
  lemma HeadLink(c: Config, m: seq<Byte>, heads: seq<nat>, a: Heap, b: nat) returns (h: nat)
    requires Inv(c, a) && Stored(m, heads, a)
    requires b < |c.sizes| && a.free[b] != []
    ensures h == heads[b] == a.free[b][0] && h + DATA_OFFSET <= |m|
    ensures h in a.blocks && a.blocks[h] == Block(c.sizes[b], Free)
    ensures NextOf(m, h) == Nth(a.free[b][1..], 0)
  {
    h := a.free[b][0];
    FreeEntry(c, a, b, 0);
    assert LinkStored(m, a.free[b], 0);
  }

  /** The heap after malloc took the head h of list b. */
  lemma HeadTaken(c: Config, m: seq<Byte>, heads: seq<nat>, a: Heap, b: nat, h: nat)
    requires Represents(c, m, heads, a) && b < |c.sizes| && a.free[b] != [] && h == heads[b]
    ensures h == a.free[b][0] && h + DATA_OFFSET <= |m|
    ensures Represents(c, Put(m, h + NEXT_OFFSET, 0), heads[b := NextOf(m, h)], TakeHead(c, a, b))
    ensures SameOutside(m, Put(m, h + NEXT_OFFSET, 0), h, h + DATA_OFFSET)
  {
    StoredTakeHead(c, m, heads, a, b);
    TakeHeadInv(c, a, b);
    LinkInHeader(m, h, 0);
  }

  /** The `next` word of the header at h. */
  function NextOf(m: seq<Byte>, h: nat): nat
    requires h + DATA_OFFSET <= |m|
  {
    Word(m, h + NEXT_OFFSET)
  }

  lemma TakeHeadLinks(c: Config, m: seq<Byte>, heads: seq<nat>, a: Heap, b: nat)
    requires Inv(c, a) && Stored(m, heads, a)
    requires b < |c.sizes| && a.free[b] != [] && a.free[b][0] + DATA_OFFSET <= |m|
    ensures LinksStored(Put(m, a.free[b][0] + NEXT_OFFSET, 0), a.free[b := a.free[b][1..]])
  {
    var free, m' := a.free[b := a.free[b][1..]], Put(m, a.free[b][0] + NEXT_OFFSET, 0);
    forall i, j | 0 <= i < |free| && 0 <= j < |free[i]| ensures LinkStored(m', free[i], j) {
      LinksAfterTake(c, m, heads, a, b, i, j);
    }
  }

  /** The link of an entry other than h does not lie in the header at h. */
  lemma LinkKept(c: Config, m: seq<Byte>, heads: seq<nat>, a: Heap, h: nat, v: nat, i: nat, j: nat)
    requires Inv(c, a) && Stored(m, heads, a)
    requires h in a.blocks && h + DATA_OFFSET <= |m| && v < UINT32
    requires i < |a.free| && j < |a.free[i]| && a.free[i][j] != h
    ensures LinkStored(Put(m, h + NEXT_OFFSET, v), a.free[i], j)
  {
    FreeEntry(c, a, i, j);
    assert LinkStored(m, a.free[i], j);
    LinksAfterLink(c, m, a, h, v, a.free[i], j);
  }

  /** A live block is on no list. */
  lemma LiveUnlisted(c: Config, a: Heap, h: nat, i: nat, j: nat)
    requires Inv(c, a) && h in a.blocks && a.blocks[h].status.Live?
    requires i < |a.free| && j < |a.free[i]|
    ensures a.free[i][j] != h
  {
    FreeEntry(c, a, i, j);
  }

  lemma LinkPrepended(m: seq<Byte>, list: seq<nat>, h: nat, j: nat)
    requires j < |list| && LinkStored(m, list, j)
    ensures LinkStored(m, [h] + list, j + 1)
  {
    assert Nth([h] + list, j + 2) == Nth(list, j + 1);
  }

  lemma HeadIsAddress(c: Config, m: seq<Byte>, heads: seq<nat>, a: Heap, b: nat)
    requires Inv(c, a) && Stored(m, heads, a)
    requires b < |heads|
    ensures heads[b] < UINT32
    ensures heads[b] == 0 <==> a.free[b] == []
  {
    assert heads[b] == Nth(a.free[b], 0);
    assert a.free[b] != [] ==> a.free[b][0] in a.blocks;
  }

  lemma LinksAfterPush(c: Config, m: seq<Byte>, heads: seq<nat>, a: Heap, h: nat, b: nat, i: nat, j: nat)
    requires Inv(c, a) && Stored(m, heads, a)
    requires h in a.blocks && a.blocks[h].status.Live? && h + DATA_OFFSET <= |m|
    requires b < |heads| && heads[b] < UINT32
    requires i < |a.free| && j < |a.free[b := [h] + a.free[b]][i]|
    ensures LinkStored(Put(m, h + NEXT_OFFSET, heads[b]), a.free[b := [h] + a.free[b]][i], j)
  {
    if i != b {
      OtherLink(c, m, heads, a, h, heads[b], i, j);
    } else if j == 0 {
      PushedHead(c, m, heads, a, h, b);
    } else {
      PushedLink(c, m, heads, a, h, b, j - 1);
    }
  }

  lemma PushedHead(c: Config, m: seq<Byte>, heads: seq<nat>, a: Heap, h: nat, b: nat)
    requires Inv(c, a) && Stored(m, heads, a)
    requires h + DATA_OFFSET <= |m| && b < |heads| && heads[b] < UINT32
    ensures LinkStored(Put(m, h + NEXT_OFFSET, heads[b]), [h] + a.free[b], 0)
  {
    WordOfPut(m, h + NEXT_OFFSET, heads[b]);
  }

  /** A store to the `next` word of a live block keeps every link. */
  lemma OtherLink(c: Config, m: seq<Byte>, heads: seq<nat>, a: Heap, h: nat, v: nat, i: nat, j: nat)
    requires Inv(c, a) && Stored(m, heads, a)
    requires h in a.blocks && a.blocks[h].status.Live? && h + DATA_OFFSET <= |m| && v < UINT32
    requires i < |a.free| && j < |a.free[i]|
    ensures LinkStored(Put(m, h + NEXT_OFFSET, v), a.free[i], j)
  {
    LiveUnlisted(c, a, h, i, j);
    LinkKept(c, m, heads, a, h, v, i, j);
  }

  lemma PushedLink(c: Config, m: seq<Byte>, heads: seq<nat>, a: Heap, h: nat, b: nat, j: nat)
    requires Inv(c, a) && Stored(m, heads, a)
    requires h in a.blocks && a.blocks[h].status.Live? && h + DATA_OFFSET <= |m|
    requires b < |heads| && heads[b] < UINT32 && j < |a.free[b]|
    ensures LinkStored(Put(m, h + NEXT_OFFSET, heads[b]), [h] + a.free[b], j + 1)
  {
    OtherLink(c, m, heads, a, h, heads[b], b, j);
    LinkPrepended(Put(m, h + NEXT_OFFSET, heads[b]), a.free[b], h, j);
  }

  /** free pushes a block on the list of its bucket. */
  lemma StoredPush(c: Config, m: seq<Byte>, heads: seq<nat>, a: Heap, h: nat)
    requires Inv(c, a) && Stored(m, heads, a)
    requires IsLive(a, h + DATA_OFFSET) && h + DATA_OFFSET <= |m|
    requires IndexOf(c.sizes, a.blocks[h].size) < |c.sizes|
    ensures var b := IndexOf(c.sizes, a.blocks[h].size);
            && heads[b] < UINT32
            && Stored(Put(m, h + NEXT_OFFSET, heads[b]), heads[b := h], Release(c, a, h + DATA_OFFSET))
  {
    var b := IndexOf(c.sizes, a.blocks[h].size);
    HeadIsAddress(c, m, heads, a, b);
    PushHeaders(c, m, heads, a, h, heads[b]);
    PushLinks(c, m, heads, a, h, b);
    HeadsReplaced(heads, a.free, b, h, [h] + a.free[b]);
    ReleasedLists(c, a, h, b);
  }

  lemma ReleasedLists(c: Config, a: Heap, h: nat, b: nat)
    requires |a.free| == |c.sizes| && IsLive(a, h + DATA_OFFSET)
    requires b == IndexOf(c.sizes, a.blocks[h].size) < |c.sizes|
    ensures Release(c, a, h + DATA_OFFSET).free == a.free[b := [h] + a.free[b]]
  {
  }

  lemma PushHeaders(c: Config, m: seq<Byte>, heads: seq<nat>, a: Heap, h: nat, v: nat)
    requires Inv(c, a) && Stored(m, heads, a)
    requires IsLive(a, h + DATA_OFFSET) && h + DATA_OFFSET <= |m| && v < UINT32
    ensures HeadersStored(Put(m, h + NEXT_OFFSET, v), Release(c, a, h + DATA_OFFSET))
  {
    HeadersKept(c, m, heads, a, Release(c, a, h + DATA_OFFSET), h, v);
  }

  lemma HeadsReplaced(heads: seq<nat>, free: seq<seq<nat>>, b: nat, h: nat, list: seq<nat>)
    requires HeadsStored(heads, free) && b < |free| && h == Nth(list, 0)
    ensures HeadsStored(heads[b := h], free[b := list])
  {
  }

  /** The heap after free made h the head of its list. */
  lemma BlockPushed(c: Config, m: seq<Byte>, heads: seq<nat>, a: Heap, h: nat, next: nat)
    requires Represents(c, m, heads, a) && IsLive(a, h + DATA_OFFSET)
    requires IndexOf(c.sizes, a.blocks[h].size) < |c.sizes| && next == heads[IndexOf(c.sizes, a.blocks[h].size)]
    ensures h + DATA_OFFSET <= |m| && next < UINT32
    ensures var b := IndexOf(c.sizes, a.blocks[h].size);
            Represents(c, Put(m, h + NEXT_OFFSET, next), heads[b := h], Release(c, a, h + DATA_OFFSET))
    ensures SameOutside(m, Put(m, h + NEXT_OFFSET, next), h, h + DATA_OFFSET)
  {
    assert HeaderStored(m, a, h);
    StoredPush(c, m, heads, a, h);
    ReleaseInv(c, a, h + DATA_OFFSET);
    LinkInHeader(m, h, next);
  }

  lemma PushLinks(c: Config, m: seq<Byte>, heads: seq<nat>, a: Heap, h: nat, b: nat)
    requires Inv(c, a) && Stored(m, heads, a)
    requires h in a.blocks && a.blocks[h].status.Live? && h + DATA_OFFSET <= |m|
    requires b < |heads| && heads[b] < UINT32
    ensures LinksStored(Put(m, h + NEXT_OFFSET, heads[b]), a.free[b := [h] + a.free[b]])
  {
    var free, m' := a.free[b := [h] + a.free[b]], Put(m, h + NEXT_OFFSET, heads[b]);
    forall i, j | 0 <= i < |free| && 0 <= j < |free[i]| ensures LinkStored(m', free[i], j) {
      LinksAfterPush(c, m, heads, a, h, b, i, j);
    }
  }

  /** free of a block without a bucket changes no memory. */
  lemma StoredRetire(m: seq<Byte>, heads: seq<nat>, c: Config, a: Heap, p: nat)
    requires Inv(c, a) && Stored(m, heads, a)
    requires IsLive(a, p) && IndexOf(c.sizes, a.blocks[p - DATA_OFFSET].size) == |c.sizes|
    ensures Stored(m, heads, Release(c, a, p))
  {
    var a' := Release(c, a, p);
    forall h | h in a'.blocks ensures HeaderStored(m, a', h) {
      assert HeaderStored(m, a, h);
    }
  }

  /** The three header words malloc writes into a block it carves. */
  function NewHeader(m: seq<Byte>, at: nat, size: nat): seq<Byte>
    requires at + DATA_OFFSET <= |m| && size < UINT32
  {
    Put(Put(Put(m, at, BLOCK_MAGIC), at + SIZE_OFFSET, size), at + NEXT_OFFSET, 0)
  }

  lemma NewHeaderWords(m: seq<Byte>, at: nat, size: nat)
    requires at + DATA_OFFSET <= |m| && size < UINT32
    ensures var m' := NewHeader(m, at, size);
            && SameOutside(m, m', at, at + DATA_OFFSET)
            && Word(m', at) == BLOCK_MAGIC && Word(m', at + SIZE_OFFSET) == size
  {
    var m1 := Put(m, at, BLOCK_MAGIC);
    var m2 := Put(m1, at + SIZE_OFFSET, size);
    WordOfPut(m, at, BLOCK_MAGIC);
    WordOfPut(m1, at + SIZE_OFFSET, size);
  }

  lemma StoredCarve(c: Config, m: seq<Byte>, heads: seq<nat>, a: Heap, size: nat)
    requires Inv(c, a) && Stored(m, heads, a)
    requires 0 < size && a.next + Extent(size) <= c.top == |m|
    ensures Stored(NewHeader(m, a.next, size), heads, Carve(a, size))
    ensures SameOutside(m, NewHeader(m, a.next, size), a.next, a.next + DATA_OFFSET)
  {
    var m' := NewHeader(m, a.next, size);
    NewHeaderWords(m, a.next, size);
    CarveLists(c, a, size);
    StoredFrame(c, m, m', heads, a, a.next, a.next + DATA_OFFSET);
    var a' := Carve(a, size);
    forall h | h in a'.blocks ensures HeaderStored(m', a', h) {
      assert h != a.next ==> HeaderStored(m', a, h);
    }
  }

  // ---------- what stays unchanged ----------

  ghost predicate PayloadKept(m: seq<Byte>, m': seq<Byte>, a: Heap, q: nat)
    requires IsLive(a, q)
  {
    && q + a.blocks[q - DATA_OFFSET].size <= |m| == |m'|
    && forall i | q <= i < q + a.blocks[q - DATA_OFFSET].size :: m'[i] == m[i]
  }

  /** The first `done` bytes are copied, as far as they are among the first `keep`. */
  ghost predicate Copied(m: seq<Byte>, m': seq<Byte>, dst: nat, src: nat, done: nat, keep: nat) {
    && dst + (if done < keep then done else keep) <= |m'| && src + (if done < keep then done else keep) <= |m|
    && forall i | dst <= i < dst + done && i < dst + keep :: m'[i] == m[i - dst + src]
  }

  /** The n bytes that were at p are now at q. */
  ghost predicate Moved(m: seq<Byte>, m': seq<Byte>, p: nat, q: nat, n: nat) {
    p + n <= |m| && q + n <= |m'| && forall i | q <= i < q + n :: m'[i] == m[i - q + p]
  }

  /** All live payloads but the one at `except` read the same. */
  ghost predicate PayloadsKept(m: seq<Byte>, m': seq<Byte>, a: Heap, except: nat) {
    forall q: nat {:trigger PayloadKept(m, m', a, q)} | q != except && IsLive(a, q) :: PayloadKept(m, m', a, q)
  }

  /** Bytes written inside one block spoil no other live payload. */
  lemma OthersKept(c: Config, a: Heap, m: seq<Byte>, m': seq<Byte>, h: nat, lo: nat, hi: nat)
    requires Inv(c, a) && |m| == c.top
    requires h in a.blocks && h <= lo <= hi <= h + Extent(a.blocks[h].size)
    requires SameOutside(m, m', lo, hi)
    ensures PayloadsKept(m, m', a, h + DATA_OFFSET)
  {
    forall q: nat | q != h + DATA_OFFSET && IsLive(a, q) ensures PayloadKept(m, m', a, q) {
      PayloadInside(c, a, q, h);
    }
  }

  /** A store into a live payload keeps everything the allocator has stored. */
  lemma PayloadWrite(c: Config, m: seq<Byte>, m': seq<Byte>, heads: seq<nat>, a: Heap, p: nat, lo: nat, hi: nat)
    requires Inv(c, a) && Stored(m, heads, a)
    requires IsLive(a, p) && p <= lo <= hi <= p + a.blocks[p - DATA_OFFSET].size
    requires SameOutside(m, m', lo, hi)
    ensures Stored(m', heads, a)
  {
    forall h | h in a.blocks ensures h + DATA_OFFSET <= lo || hi <= h {
      PayloadInside(c, a, p, h);
    }
    StoredFrame(c, m, m', heads, a, lo, hi);
  }

  lemma AllKept(c: Config, a: Heap, p: nat, m: seq<Byte>)
    requires Inv(c, a) && |m| == c.top
    ensures PayloadsKept(m, m, a, 0)
    ensures IsLive(a, p) ==> p + a.blocks[p - DATA_OFFSET].size <= |m|
  {
    forall q: nat | IsLive(a, q) ensures PayloadKept(m, m, a, q) {
      PayloadInside(c, a, q, 0);
    }
  }

  /** What is kept in the heap after a step was kept in the heap before it. */
  lemma KeptBefore(a: Heap, a': Heap, m: seq<Byte>, m': seq<Byte>, p: nat)
    requires KeepsLive(a, a', 0) && !IsLive(a, p)
    requires PayloadsKept(m, m', a', p)
    ensures PayloadsKept(m, m', a, 0)
  {
    forall q: nat | IsLive(a, q) ensures PayloadKept(m, m', a, q) {
      assert PayloadKept(m, m', a', q);
    }
  }

  lemma AfterMalloc(c: Config, a: Heap, size: nat, m: seq<Byte>, m': seq<Byte>)
    requires Inv(c, a) && |m| == c.top
    requires var p := HeapModel.Malloc(c, a, size).1;
             if p == 0 then m' == m else p >= DATA_OFFSET && SameOutside(m, m', p - DATA_OFFSET, p)
    ensures PayloadsKept(m, m', a, 0)
  {
    var (a', p) := HeapModel.Malloc(c, a, size);
    MallocServed(c, a, size);
    if p == 0 {
      AllKept(c, a, 0, m);
    } else {
      MallocInv(c, a, size);
      HeaderWritten(c, a, a', m, m', p);
    }
  }

  lemma HeaderWritten(c: Config, a: Heap, a': Heap, m: seq<Byte>, m': seq<Byte>, p: nat)
    requires Inv(c, a') && |m| == c.top
    requires IsLive(a', p) && !IsLive(a, p) && KeepsLive(a, a', 0)
    requires SameOutside(m, m', p - DATA_OFFSET, p)
    ensures PayloadsKept(m, m', a, 0)
  {
    OthersKept(c, a', m, m', p - DATA_OFFSET, p - DATA_OFFSET, p);
    KeptBefore(a, a', m, m', p);
  }

  lemma AfterFree(c: Config, a: Heap, p: nat, m: seq<Byte>, m': seq<Byte>)
    requires Inv(c, a) && |m| == c.top
    requires p == 0 || IsLive(a, p)
    requires if p == 0 then m' == m else SameOutside(m, m', p - DATA_OFFSET, p)
    ensures PayloadsKept(m, m', a, p)
  {
    if p == 0 {
      AllKept(c, a, 0, m);
    } else {
      OthersKept(c, a, m, m', p - DATA_OFFSET, p - DATA_OFFSET, p);
    }
  }

  lemma CallocKeeps(a: Heap, a1: Heap, p: nat, m0: seq<Byte>, m1: seq<Byte>, m2: seq<Byte>)
    requires !IsLive(a, p) && KeepsLive(a, a1, 0)
    requires PayloadsKept(m0, m1, a, 0) && PayloadsKept(m1, m2, a1, p)
    ensures PayloadsKept(m0, m2, a, 0)
  {
    forall r: nat | IsLive(a, r) ensures PayloadKept(m0, m2, a, r) {
      assert PayloadKept(m0, m1, a, r) && PayloadKept(m1, m2, a1, r);
    }
  }

  /** malloc, copy and free in a row move payload p to q and spoil no other live payload. */
  lemma GrowKeeps(a: Heap, a1: Heap, p: nat, q: nat, m0: seq<Byte>, m1: seq<Byte>, m2: seq<Byte>, m3: seq<Byte>)
    requires IsLive(a, p) && !IsLive(a, q) && IsLive(a1, q) && KeepsLive(a, a1, 0)
    requires a.blocks[p - DATA_OFFSET].size <= a1.blocks[q - DATA_OFFSET].size
    requires PayloadsKept(m0, m1, a, 0) && PayloadsKept(m1, m2, a1, q) && PayloadsKept(m2, m3, a1, p)
    requires Moved(m1, m2, p, q, a.blocks[p - DATA_OFFSET].size)
    ensures PayloadsKept(m0, m3, a, p)
    ensures Moved(m0, m3, p, q, a.blocks[p - DATA_OFFSET].size)
  {
    forall r: nat | r != p && IsLive(a, r) ensures PayloadKept(m0, m3, a, r) {
      assert PayloadKept(m0, m1, a, r) && PayloadKept(m1, m2, a1, r) && PayloadKept(m2, m3, a1, r);
    }
    assert PayloadKept(m0, m1, a, p) && PayloadKept(m1, m2, a1, p) && PayloadKept(m2, m3, a1, q);
  }

  /** Where the bump pointer goes, in the 32-bit arithmetic of size_t and pointers. */
  function NextAfter(next: nat, size: nat): nat {
    var t1 := (HEADER_SIZE + size) % UINT32;
    var t2 := (t1 + 15) % UINT32 / 16 * 16;
    (next + t2) % UINT32
  }

  lemma NextAfterMod(next: nat, size: nat)
    requires size < UINT32
    ensures NextAfter(next, size) == (next + Extent(size)) % UINT32
  {
    RoundedMod(HEADER_SIZE + size);
    SumMod(next, Extent(size));
  }

  /** Rounding up in 32 bits. */
  lemma RoundedMod(t: nat)
    requires t < UINT32 + HEADER_SIZE
    ensures (t % UINT32 + 15) % UINT32 / 16 * 16 == Round16(t) % UINT32
  {
    if t + 15 < UINT32 {
      SmallMod(t);
      SmallMod(t + 15);
      SmallMod(Round16(t));
    } else if t < UINT32 {
      SmallMod(t);
      LastRound(t);
    } else {
      RoundShift(t - UINT32);
    }
  }

  lemma SmallMod(x: nat)
    requires x < UINT32
    ensures x % UINT32 == x
  {
  }

  lemma LastRound(t: nat)
    requires t < UINT32 <= t + 15
    ensures (t + 15) % UINT32 / 16 == 0 && Round16(t) % UINT32 == 0
  {
    assert (t + 15) / 16 == 0x1000_0000;
  }

  lemma RoundShift(s: nat)
    requires s < HEADER_SIZE
    ensures (s + UINT32) % UINT32 == s
    ensures (s + 15) % UINT32 / 16 * 16 == Round16(s + UINT32) % UINT32
  {
    SmallMod(s + 15);
    assert (s + UINT32 + 15) / 16 == (s + 15) / 16 + 0x1000_0000;
  }

  lemma SumMod(a: nat, b: nat)
    ensures (a + b % UINT32) % UINT32 == (a + b) % UINT32
  {
  }

  /** The end of the block does not wrap to an address that looks free. */
  predicate NoFalseFit(next: nat, size: nat, top: nat) {
    next + Extent(size) < UINT32 || (next + Extent(size)) % UINT32 > top
  }

  /** A 32-bit request that needs no limit check, or one the check decides rightly. */
  predicate Checked(c: Config, a: Heap, request: nat)
    requires |a.free| == |c.sizes|
  {
    var b := FirstFit(c.sizes, request);
    && request < UINT32
    && (request == 0 || (b < |c.sizes| && a.free[b] != []) || NoFalseFit(a.next, Granted(c, request), c.top))
  }

  /**
   The limit check `next > block_limit` tells whether the block fits exactly when the 32-bit sum does
   not wrap, or wraps to an address that is still above the limit.
   */
  lemma CarveCheckExact(next: nat, size: nat, top: nat)
    requires next <= top < UINT32 && 0 < size < UINT32
    ensures NextAfter(next, size) == next + Extent(size) <==> next + Extent(size) < UINT32
    ensures (NextAfter(next, size) <= top <==> next + Extent(size) <= top) <==> NoFalseFit(next, size, top)
  {
    NextAfterMod(next, size);
  }

  /** The same for realloc, which asks malloc only when the old block is too short. */
  predicate ReallocChecked(c: Config, a: Heap, p: nat, newSize: nat)
    requires |a.free| == |c.sizes| && (p == 0 || IsLive(a, p))
  {
    (p != 0 && newSize <= a.blocks[p - DATA_OFFSET].size) || Checked(c, a, newSize)
  }
}
