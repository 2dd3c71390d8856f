/**
 The abstract heap behind lib-clib/src/malloc.cpp: which blocks have been carved from the bump
 pointer, who owns each of them, and the per-bucket free lists. Addresses are numbers; 0 is the
 null pointer. Everything proved here is a statement about every run of the allocator.
 */
module HeapModel {
  import opened Numbers

  /** sizeof(BlockHeader): three words and the one-byte `data` member of the packed struct. */
  const HEADER_SIZE := 13
  /** offsetof(BlockHeader, data). */
  const DATA_OFFSET := 12

  /** Linker symbols and the bucket table; the terminating zero entry is the end of `sizes`. */
  datatype Config = Config(low: nat, top: nat, sizes: seq<nat>)

  ghost predicate GoodConfig(c: Config) {
    && 0 < c.low <= c.top < UINT32
    && c.low % 4 == 0
    && (forall i | 0 <= i < |c.sizes| :: 0 < c.sizes[i] < UINT32)
    && (forall i, j | 0 <= i < j < |c.sizes| :: c.sizes[i] < c.sizes[j])
  }

  datatype Status = Live | Free | Retired
  datatype Block = Block(size: nat, status: Status)

  /** `blocks` maps a header address to its block; `free[b]` is bucket b's list, head first. */
  datatype Heap = Heap(next: nat, blocks: map<nat, Block>, free: seq<seq<nat>>)

  function Round16(n: nat): (r: nat)
    ensures r % 16 == 0 && n <= r < n + 16
  {
    (n + 15) / 16 * 16
  }

  /** Bytes a block with `size` payload bytes takes from the bump pointer. */
  function Extent(size: nat): nat {
    Round16(HEADER_SIZE + size)
  }

  /** The bucket search of malloc: first entry that is large enough, |sizes| if none. */
  function FirstFit(sizes: seq<nat>, size: nat): (b: nat)
    ensures b <= |sizes|
    ensures forall i | 0 <= i < b :: sizes[i] < size
    ensures b < |sizes| ==> size <= sizes[b]
  {
    if sizes == [] then 0
    else if size <= sizes[0] then 0
    else 1 + FirstFit(sizes[1..], size)
  }

  /** The bucket search of free: first entry of exactly this size, |sizes| if none. */
  function IndexOf(sizes: seq<nat>, size: nat): (b: nat)
    ensures b <= |sizes|
    ensures forall i | 0 <= i < b :: sizes[i] != size
    ensures b < |sizes| ==> size == sizes[b]
  {
    if sizes == [] then 0
    else if size == sizes[0] then 0
    else 1 + IndexOf(sizes[1..], size)
  }

  /** The payload size malloc really hands out. */
  function Granted(c: Config, size: nat): (g: nat)
    ensures size <= g
  {
    var b := FirstFit(c.sizes, size);
    if b < |c.sizes| then c.sizes[b] else size
  }

  function Empty(c: Config): Heap {
    Heap(c.low, map[], seq(|c.sizes|, _ => []))
  }

  predicate IsLive(a: Heap, p: nat) {
    p >= DATA_OFFSET && p - DATA_OFFSET in a.blocks && a.blocks[p - DATA_OFFSET].status.Live?
  }

  function TakeHead(c: Config, a: Heap, b: nat): Heap
    requires b < |c.sizes| == |a.free| && a.free[b] != []
  {
    a.(blocks := a.blocks[a.free[b][0] := Block(c.sizes[b], Live)], free := a.free[b := a.free[b][1..]])
  }

  function Carve(a: Heap, size: nat): Heap {
    Heap(a.next + Extent(size), a.blocks[a.next := Block(size, Live)], a.free)
  }

  function Malloc(c: Config, a: Heap, size: nat): (Heap, nat)
    requires |a.free| == |c.sizes|
  {
    if size == 0 then (a, 0)
    else
      var b := FirstFit(c.sizes, size);
      var granted := Granted(c, size);
      if b < |c.sizes| && a.free[b] != [] then
        (TakeHead(c, a, b), a.free[b][0] + DATA_OFFSET)
      else if a.next + Extent(granted) > c.top then (a, 0)
      else (Carve(a, granted), a.next + DATA_OFFSET)
  }

  lemma MallocTakes(c: Config, a: Heap, size: nat, b: nat)
    requires |a.free| == |c.sizes| && size != 0 && b == FirstFit(c.sizes, size) < |c.sizes| && a.free[b] != []
    ensures Malloc(c, a, size) == (TakeHead(c, a, b), a.free[b][0] + DATA_OFFSET)
  {
  }

  lemma MallocCarves(c: Config, a: Heap, size: nat, b: nat, granted: nat)
    requires |a.free| == |c.sizes| && size != 0 && b == FirstFit(c.sizes, size) && granted == Granted(c, size)
    requires b < |c.sizes| ==> a.free[b] == []
    ensures Malloc(c, a, size) == if a.next + Extent(granted) > c.top then (a, 0)
                                  else (Carve(a, granted), a.next + DATA_OFFSET)
  {
  }

  function Release(c: Config, a: Heap, p: nat): Heap
    requires |a.free| == |c.sizes|
    requires p == 0 || IsLive(a, p)
  {
    if p == 0 then a
    else
      var h := p - DATA_OFFSET;
      var size := a.blocks[h].size;
      var b := IndexOf(c.sizes, size);
      if b < |c.sizes| then
        a.(blocks := a.blocks[h := Block(size, Free)], free := a.free[b := [h] + a.free[b]])
      else
        a.(blocks := a.blocks[h := Block(size, Retired)])
  }

  function Realloc(c: Config, a: Heap, p: nat, newSize: nat): (Heap, nat)
    requires Inv(c, a)
    requires p == 0 || IsLive(a, p)
  {
    if p == 0 then Malloc(c, a, newSize)
    else if newSize == 0 then (Release(c, a, p), 0)
    else if a.blocks[p - DATA_OFFSET].size >= newSize then (a, p)
    else
      MallocServed(c, a, newSize);
      var (a1, q) := Malloc(c, a, newSize);
      if q == 0 then (a1, 0) else (Release(c, a1, p), q)
  }

  // ---------- the invariant ----------

  /** Block extents lie inside [low, next), start on word boundaries and never overlap. */
  ghost predicate Separate(c: Config, a: Heap) {
    && (forall h | h in a.blocks ::
          c.low <= h && h % 4 == 0 && a.blocks[h].size > 0 && h + Extent(a.blocks[h].size) <= a.next)
    && (forall h, k | h in a.blocks && k in a.blocks && h < k :: h + Extent(a.blocks[h].size) <= k)
  }

  /** Blocks follow each other without a gap from `low` up to `next`. */
  ghost predicate Chained(c: Config, a: Heap) {
    && (a.next == c.low || c.low in a.blocks)
    && (forall h {:trigger Followed(a, h)} | h in a.blocks :: Followed(a, h))
  }

  /** The block at h ends at the bump pointer or at the next header. */
  ghost predicate Followed(a: Heap, h: nat)
    requires h in a.blocks
  {
    h + Extent(a.blocks[h].size) == a.next || h + Extent(a.blocks[h].size) in a.blocks
  }

  /** Every entry of bucket b's list is a free block of bucket b's size. */
  ghost predicate EntriesFit(c: Config, a: Heap)
    requires |a.free| == |c.sizes|
  {
    forall b, i | 0 <= b < |a.free| && 0 <= i < |a.free[b]| ::
      a.free[b][i] in a.blocks && a.blocks[a.free[b][i]] == Block(c.sizes[b], Free)
  }

  /** No list visits a block twice, so every list is acyclic. */
  ghost predicate Acyclic(a: Heap) {
    forall b, i, j | 0 <= b < |a.free| && 0 <= i < j < |a.free[b]| :: a.free[b][i] != a.free[b][j]
  }

  /** Every free block is on the list of its own size; only sizes without a bucket are retired. */
  ghost predicate Filed(c: Config, a: Heap)
    requires |a.free| == |c.sizes|
  {
    forall h {:trigger FiledAs(c, a, h)} | h in a.blocks :: FiledAs(c, a, h)
  }

  ghost predicate FiledAs(c: Config, a: Heap, h: nat)
    requires |a.free| == |c.sizes|
    requires h in a.blocks
  {
    var b := IndexOf(c.sizes, a.blocks[h].size);
    match a.blocks[h].status
    case Live => true
    case Free => b < |c.sizes| && h in a.free[b]
    case Retired => b == |c.sizes|
  }

  ghost predicate Inv(c: Config, a: Heap) {
    && GoodConfig(c)
    && |a.free| == |c.sizes|
    && c.low <= a.next <= c.top && a.next % 4 == 0
    && Separate(c, a) && Chained(c, a)
    && EntriesFit(c, a) && Acyclic(a) && Filed(c, a)
  }

  lemma EmptyInv(c: Config)
    requires GoodConfig(c)
    ensures Inv(c, Empty(c))
  {
  }

  lemma IndexOfOwn(sizes: seq<nat>, b: nat)
    requires b < |sizes|
    requires forall i, j | 0 <= i < j < |sizes| :: sizes[i] < sizes[j]
    ensures IndexOf(sizes, sizes[b]) == b
  {
  }

  /** What malloc promises about its answer: null and nothing changed, or one fresh live block. */
  ghost predicate Served(a: Heap, a': Heap, p: nat, size: nat) {
    && (p == 0 ==> a' == a)
    && (p != 0 ==> IsLive(a', p) && !IsLive(a, p) && p % 4 == 0 && a'.blocks[p - DATA_OFFSET].size >= size)
    && KeepsLive(a, a', 0)
  }

  /** Every live block other than the one at `except` stays live with its size. */
  ghost predicate KeepsLive(a: Heap, a': Heap, except: nat) {
    forall q: nat | q != except && IsLive(a, q) ::
      IsLive(a', q) && a'.blocks[q - DATA_OFFSET] == a.blocks[q - DATA_OFFSET]
  }

  /** Changing only owners moves no block. */
  lemma GeometryKept(c: Config, a: Heap, a': Heap)
    requires Separate(c, a) && Chained(c, a)
    requires a'.next == a.next && a'.blocks.Keys == a.blocks.Keys
    requires forall h | h in a.blocks :: a'.blocks[h].size == a.blocks[h].size
    ensures Separate(c, a') && Chained(c, a')
  {
    forall h | h in a'.blocks ensures Followed(a', h) {
      assert Followed(a, h);
    }
  }

  lemma TakeHeadLists(c: Config, a: Heap, b: nat)
    requires Inv(c, a)
    requires b < |c.sizes| && a.free[b] != []
    ensures EntriesFit(c, TakeHead(c, a, b)) && Acyclic(TakeHead(c, a, b))
  {
    var a' := TakeHead(c, a, b);
    var h := a.free[b][0];
    forall i, j | 0 <= i < |a'.free| && 0 <= j < |a'.free[i]|
      ensures a'.free[i][j] in a'.blocks && a'.blocks[a'.free[i][j]] == Block(c.sizes[i], Free)
    {
      if i == b {
        assert a'.free[b][j] == a.free[b][j + 1];
      } else {
        assert a.blocks[a.free[i][j]].size == c.sizes[i];
        assert a.blocks[h].size == c.sizes[b];
      }
    }
  }

  lemma TakeHeadFiled(c: Config, a: Heap, b: nat)
    requires Inv(c, a)
    requires b < |c.sizes| && a.free[b] != []
    ensures Filed(c, TakeHead(c, a, b))
  {
    var a' := TakeHead(c, a, b);
    forall k | k in a'.blocks ensures FiledAs(c, a', k) {
      assert FiledAs(c, a, k);
      assert a.free[b] == [a.free[b][0]] + a.free[b][1..];
    }
  }

  /** Taking the head of bucket b's free list. */
  lemma TakeHeadInv(c: Config, a: Heap, b: nat)
    requires Inv(c, a)
    requires b < |c.sizes| && a.free[b] != []
    ensures Inv(c, TakeHead(c, a, b))
  {
    assert a.blocks[a.free[b][0]] == Block(c.sizes[b], Free);
    GeometryKept(c, a, TakeHead(c, a, b));
    TakeHeadLists(c, a, b);
    TakeHeadFiled(c, a, b);
  }

  lemma TakeHeadServed(c: Config, a: Heap, b: nat)
    requires Inv(c, a)
    requires b < |c.sizes| && a.free[b] != []
    ensures Served(a, TakeHead(c, a, b), a.free[b][0] + DATA_OFFSET, c.sizes[b])
  {
    var h := a.free[b][0];
    FreeEntry(c, a, b, 0);
    BlockAt(c, a, h);
    ExtentHolds(h, 0);
    OthersLive(a, TakeHead(c, a, b), h, Block(c.sizes[b], Live));
  }

  /** Changing a block that was not live keeps the live ones. */
  lemma OthersLive(a: Heap, a': Heap, h: nat, s: Block)
    requires !IsLive(a, h + DATA_OFFSET) && a'.blocks == a.blocks[h := s]
    ensures KeepsLive(a, a', 0)
  {
  }

  lemma MultipleOf4(n: nat, m: nat)
    requires n % 4 == 0
    ensures (n + Round16(m)) % 4 == 0 && Round16(m) >= m
  {
    assert Round16(m) == 4 * ((m + 15) / 16 * 4);
  }

  lemma CarveGeometry(c: Config, a: Heap, size: nat)
    requires Inv(c, a)
    requires size > 0 && a.next + Extent(size) <= c.top
    ensures Separate(c, Carve(a, size)) && Chained(c, Carve(a, size))
  {
    CarveSeparate(c, a, size);
    forall h | h in Carve(a, size).blocks ensures Followed(Carve(a, size), h) {
      assert h != a.next ==> Followed(a, h);
    }
  }

  lemma CarveSeparate(c: Config, a: Heap, size: nat)
    requires Separate(c, a) && c.low <= a.next && a.next % 4 == 0
    requires size > 0
    ensures a.next !in a.blocks
    ensures Separate(c, Carve(a, size))
  {
    assert a.next !in a.blocks;
  }

  lemma CarveLists(c: Config, a: Heap, size: nat)
    requires Inv(c, a)
    requires size > 0 && a.next + Extent(size) <= c.top
    ensures a.next !in a.blocks
    ensures EntriesFit(c, Carve(a, size)) && Filed(c, Carve(a, size))
  {
    var a' := Carve(a, size);
    assert a.next !in a.blocks;
    forall h | h in a'.blocks ensures FiledAs(c, a', h) {
      assert h != a.next ==> FiledAs(c, a, h);
    }
  }

  /** Carving a new block at the bump pointer. */
  lemma CarveInv(c: Config, a: Heap, size: nat)
    requires Inv(c, a)
    requires size > 0 && a.next + Extent(size) <= c.top
    ensures Inv(c, Carve(a, size))
  {
    MultipleOf4(a.next, HEADER_SIZE + size);
    CarveGeometry(c, a, size);
    CarveLists(c, a, size);
  }

  lemma CarveServed(c: Config, a: Heap, size: nat)
    requires Inv(c, a)
    requires a.next !in a.blocks
    ensures Served(a, Carve(a, size), a.next + DATA_OFFSET, size)
  {
  }

  lemma MallocInv(c: Config, a: Heap, size: nat)
    requires Inv(c, a)
    ensures Inv(c, Malloc(c, a, size).0)
  {
    var b := FirstFit(c.sizes, size);
    if size == 0 {
    } else if b < |c.sizes| && a.free[b] != [] {
      TakeHeadInv(c, a, b);
    } else if a.next + Extent(Granted(c, size)) <= c.top {
      CarveInv(c, a, Granted(c, size));
    }
  }

  lemma MallocServed(c: Config, a: Heap, size: nat)
    requires Inv(c, a)
    ensures Served(a, Malloc(c, a, size).0, Malloc(c, a, size).1, size)
  {
    var b := FirstFit(c.sizes, size);
    if size == 0 {
    } else if b < |c.sizes| && a.free[b] != [] {
      TakeHeadServed(c, a, b);
    } else if a.next + Extent(Granted(c, size)) <= c.top {
      CarveLists(c, a, Granted(c, size));
      CarveServed(c, a, Granted(c, size));
    }
  }

  lemma ReleaseLists(c: Config, a: Heap, p: nat)
    requires Inv(c, a) && IsLive(a, p)
    ensures EntriesFit(c, Release(c, a, p)) && Acyclic(Release(c, a, p))
  {
    var a' := Release(c, a, p);
    forall i, j | 0 <= i < |a'.free| && 0 <= j < |a'.free[i]|
      ensures a'.free[i][j] in a'.blocks && a'.blocks[a'.free[i][j]] == Block(c.sizes[i], Free)
    {
      ReleasedEntry(c, a, p, i, j);
    }
    ReleasedAcyclic(c, a, p);
  }

  lemma ReleasedEntry(c: Config, a: Heap, p: nat, i: nat, j: nat)
    requires Inv(c, a) && IsLive(a, p)
    requires i < |Release(c, a, p).free| && j < |Release(c, a, p).free[i]|
    ensures var a', b := Release(c, a, p), IndexOf(c.sizes, a.blocks[p - DATA_OFFSET].size);
            && a'.free[i][j] == (if i != b then a.free[i][j] else if j == 0 then p - DATA_OFFSET else a.free[i][j - 1])
            && a'.free[i][j] in a'.blocks && a'.blocks[a'.free[i][j]] == Block(c.sizes[i], Free)
  {
    var b := IndexOf(c.sizes, a.blocks[p - DATA_OFFSET].size);
    if i == b && j == 0 {
      assert [p - DATA_OFFSET] + a.free[b] != [];
    } else {
      FreeEntry(c, a, i, if i != b then j else j - 1);
    }
  }

  lemma FreeEntry(c: Config, a: Heap, i: nat, j: nat)
    requires Inv(c, a) && i < |a.free| && j < |a.free[i]|
    ensures a.free[i][j] in a.blocks && a.blocks[a.free[i][j]] == Block(c.sizes[i], Free)
  {
  }

  lemma ReleasedAcyclic(c: Config, a: Heap, p: nat)
    requires Inv(c, a) && IsLive(a, p)
    ensures Acyclic(Release(c, a, p))
  {
    var a' := Release(c, a, p);
    forall i, j, k | 0 <= i < |a'.free| && 0 <= j < k < |a'.free[i]| ensures a'.free[i][j] != a'.free[i][k] {
      ReleasedEntry(c, a, p, i, j);
      ReleasedEntry(c, a, p, i, k);
      if i == IndexOf(c.sizes, a.blocks[p - DATA_OFFSET].size) {
        FreeEntry(c, a, i, k - 1);
      }
    }
  }

  lemma ReleaseFiled(c: Config, a: Heap, p: nat)
    requires Inv(c, a) && IsLive(a, p)
    ensures Filed(c, Release(c, a, p))
  {
    forall k | k in Release(c, a, p).blocks ensures FiledAs(c, Release(c, a, p), k) {
      ReleasedFiledAs(c, a, p, k);
    }
  }

  lemma ReleasedFiledAs(c: Config, a: Heap, p: nat, k: nat)
    requires Inv(c, a) && IsLive(a, p) && k in a.blocks
    ensures FiledAs(c, Release(c, a, p), k)
  {
    assert FiledAs(c, a, k);
    var h := p - DATA_OFFSET;
    var b := IndexOf(c.sizes, a.blocks[h].size);
    if b < |c.sizes| {
      InPushed(h, a.free[b], k);
    }
  }

  lemma InPushed(h: nat, list: seq<nat>, k: nat)
    ensures k in [h] + list <==> k == h || k in list
  {
  }

  lemma ReleaseInv(c: Config, a: Heap, p: nat)
    requires Inv(c, a)
    requires p == 0 || IsLive(a, p)
    ensures Inv(c, Release(c, a, p))
    ensures KeepsLive(a, Release(c, a, p), p)
    ensures p != 0 ==> !IsLive(Release(c, a, p), p)
  {
    if p != 0 {
      GeometryKept(c, a, Release(c, a, p));
      ReleaseLists(c, a, p);
      ReleaseFiled(c, a, p);
    }
  }

  lemma ReallocInv(c: Config, a: Heap, p: nat, newSize: nat)
    requires Inv(c, a)
    requires p == 0 || IsLive(a, p)
    ensures Inv(c, Realloc(c, a, p, newSize).0)
  {
    MallocInv(c, a, newSize);
    MallocServed(c, a, newSize);
    if p != 0 {
      ReleaseInv(c, a, p);
      if Malloc(c, a, newSize).1 != 0 {
        ReleaseInv(c, Malloc(c, a, newSize).0, p);
      }
    }
  }

  // ---------- runs ----------

  datatype Op =
    | DoMalloc(size: nat)
    | DoFree(p: nat)
    | DoRealloc(p: nat, size: nat)
    | DoCalloc(n: nat, size: nat)

  /** C's rule for callers: only null or a live pointer is handed back. */
  predicate Legal(a: Heap, op: Op) {
    match op
    case DoFree(p) => p == 0 || IsLive(a, p)
    case DoRealloc(p, _) => p == 0 || IsLive(a, p)
    case _ => true
  }

  function Calloc(c: Config, a: Heap, n: nat, size: nat): (Heap, nat)
    requires |a.free| == |c.sizes|
  {
    if n == 0 || size == 0 then (a, 0) else Malloc(c, a, n * size % UINT32)
  }

  /** A block from calloc holds the n * size bytes that were asked for exactly when their number fits 32 bits. */
  lemma CallocHoldsIff(c: Config, a: Heap, n: nat, size: nat)
    requires Inv(c, a) && Calloc(c, a, n, size).1 != 0
    ensures var (a', p) := Calloc(c, a, n, size);
            IsLive(a', p) && (n * size <= a'.blocks[p - DATA_OFFSET].size <==> n * size < UINT32)
  {
    var total := n * size % UINT32;
    MallocServed(c, a, total);
    MallocGrants(c, a, total);
    GrantedFits(c, total);
    SmallRemainder(n * size);
  }

  lemma SmallRemainder(x: nat)
    ensures x % UINT32 == x <==> x < UINT32
  {
  }

  /** A block from malloc has the size of its bucket, or the size asked for. */
  lemma MallocGrants(c: Config, a: Heap, size: nat)
    requires Inv(c, a) && Malloc(c, a, size).1 != 0
    ensures var (a', p) := Malloc(c, a, size);
            IsLive(a', p) && a'.blocks[p - DATA_OFFSET].size == Granted(c, size)
  {
  }

  lemma GrantedFits(c: Config, size: nat)
    requires GoodConfig(c) && size < UINT32
    ensures size <= Granted(c, size) < UINT32
  {
  }

  /** calloc(0x1_0000, 0x1_0001) on a fresh heap: 64 KiB for the 4 GiB that were asked for. */
  lemma CallocWraps()
    ensures var c := Config(0x1000, 0x10_0000, []);
            var (a', p) := Calloc(c, Empty(c), 0x1_0000, 0x1_0001);
            && GoodConfig(c) && p == 0x1000 + DATA_OFFSET
            && IsLive(a', p) && a'.blocks[p - DATA_OFFSET].size == 0x1_0000
  {
    assert 0x1_0000 * 0x1_0001 % UINT32 == 0x1_0000;
  }

  function Step(c: Config, a: Heap, op: Op): Heap
    requires Inv(c, a)
  {
    if !Legal(a, op) then a
    else
      match op
      case DoMalloc(size) => Malloc(c, a, size).0
      case DoFree(p) => Release(c, a, p)
      case DoRealloc(p, size) => Realloc(c, a, p, size).0
      case DoCalloc(n, size) => Calloc(c, a, n, size).0
  }

  lemma StepInv(c: Config, a: Heap, op: Op)
    requires Inv(c, a)
    ensures Inv(c, Step(c, a, op))
  {
    match op
    case DoMalloc(size) => MallocInv(c, a, size);
    case DoFree(p) => if Legal(a, op) { ReleaseInv(c, a, p); }
    case DoRealloc(p, size) => if Legal(a, op) { ReallocInv(c, a, p, size); }
    case DoCalloc(n, size) => MallocInv(c, a, n * size % UINT32);
  }

  /** The heap after a run that starts from power-up; steps that break C's rule are not taken. */
  function Run(c: Config, ops: seq<Op>): (a: Heap)
    requires GoodConfig(c)
    ensures Inv(c, a)
  {
    if ops == [] then EmptyInv(c); Empty(c)
    else
      var a := Run(c, ops[..|ops| - 1]);
      StepInv(c, a, ops[|ops| - 1]);
      Step(c, a, ops[|ops| - 1])
  }

  // ---------- exact tiling ----------

  ghost predicate Covers(a: Heap, h: nat, x: nat) {
    h in a.blocks && h <= x < h + Extent(a.blocks[h].size)
  }

  lemma CoverFrom(c: Config, a: Heap, h: nat, x: nat) returns (k: nat)
    requires Inv(c, a)
    requires h in a.blocks && h <= x < a.next
    ensures Covers(a, k, x)
    decreases a.next - h
  {
    assert Followed(a, h);
    var end := h + Extent(a.blocks[h].size);
    if x < end {
      k := h;
    } else {
      k := CoverFrom(c, a, end, x);
    }
  }

  /** Every address below the bump pointer belongs to exactly one block, whatever the run. */
  lemma ExactTiling(c: Config, ops: seq<Op>, x: nat)
    requires GoodConfig(c)
    ensures var a := Run(c, ops);
            c.low <= x < a.next <==> exists h :: Covers(a, h, x)
    ensures var a := Run(c, ops);
            forall h, k | Covers(a, h, x) && Covers(a, k, x) :: h == k
  {
    var a := Run(c, ops);
    if c.low <= x < a.next {
      var k := CoverFrom(c, a, c.low, x);
    }
  }

  /** Payloads of live blocks are word-aligned and meet no other block, header or payload. */
  lemma LivePayloads(c: Config, ops: seq<Op>, p: nat, k: nat)
    requires GoodConfig(c)
    requires IsLive(Run(c, ops), p)
    ensures p % 4 == 0 && c.low + DATA_OFFSET <= p
    ensures var a := Run(c, ops); p + a.blocks[p - DATA_OFFSET].size < a.next <= c.top
    ensures var a := Run(c, ops);
            k in a.blocks && k != p - DATA_OFFSET ==>
              k + Extent(a.blocks[k].size) <= p - DATA_OFFSET || p + a.blocks[p - DATA_OFFSET].size <= k
  {
    PayloadInside(c, Run(c, ops), p, k);
  }

  lemma PayloadInside(c: Config, a: Heap, p: nat, k: nat)
    requires Inv(c, a)
    requires IsLive(a, p)
    ensures p % 4 == 0 && c.low + DATA_OFFSET <= p
    ensures p + a.blocks[p - DATA_OFFSET].size < a.next <= c.top
    ensures k in a.blocks && k != p - DATA_OFFSET ==>
              k + Extent(a.blocks[k].size) <= p - DATA_OFFSET || p + a.blocks[p - DATA_OFFSET].size <= k
  {
    var h := p - DATA_OFFSET;
    BlockAt(c, a, h);
    ExtentHolds(h, a.blocks[h].size);
    if k in a.blocks && k != h {
      BlocksApart(c, a, h, k);
    }
  }

  lemma BlockAt(c: Config, a: Heap, h: nat)
    requires Inv(c, a) && h in a.blocks
    ensures c.low <= h && h % 4 == 0 && h + Extent(a.blocks[h].size) <= a.next <= c.top
  {
  }

  lemma BlocksApart(c: Config, a: Heap, h: nat, k: nat)
    requires Inv(c, a) && h in a.blocks && k in a.blocks && h != k
    ensures h + Extent(a.blocks[h].size) <= k || k + Extent(a.blocks[k].size) <= h
  {
    if h < k {
      assert h + Extent(a.blocks[h].size) <= k;
    } else {
      assert k + Extent(a.blocks[k].size) <= h;
    }
  }

  lemma ExtentHolds(h: nat, size: nat)
    ensures (h + DATA_OFFSET) % 4 == h % 4 && h + DATA_OFFSET + size < h + Extent(size)
  {
  }

  // ---------- conservation of blocks ----------

  function Carved(a: Heap, size: nat): set<nat> {
    set h | h in a.blocks && a.blocks[h].size == size
  }

  function InUse(a: Heap, size: nat): set<nat> {
    set h | h in a.blocks && a.blocks[h].size == size && a.blocks[h].status.Live?
  }

  /** The most blocks of bucket b that were live together at any moment of the run. */
  function Peak(c: Config, ops: seq<Op>, b: nat): nat
    requires GoodConfig(c) && b < |c.sizes|
  {
    var now := |InUse(Run(c, ops), c.sizes[b])|;
    if ops == [] then now
    else
      var before := Peak(c, ops[..|ops| - 1], b);
      if before < now then now else before
  }

  ghost predicate Disjoint(s: seq<nat>) {
    forall i, j | 0 <= i < j < |s| :: s[i] != s[j]
  }

  function Members(s: seq<nat>): set<nat> {
    set x | x in s
  }

  lemma {:induction false} DistinctCount(s: seq<nat>)
    requires Disjoint(s)
    ensures |Members(s)| == |s|
  {
    if s == [] {
      assert Members(s) == {};
    } else {
      DistinctCount(s[1..]);
      assert s[0] !in Members(s[1..]);
      assert Members(s) == {s[0]} + Members(s[1..]);
    }
  }

  lemma CarvedMembers(c: Config, a: Heap, b: nat, h: nat)
    requires Inv(c, a) && b < |c.sizes|
    ensures h in Carved(a, c.sizes[b]) <==> h in InUse(a, c.sizes[b]) || h in a.free[b]
    ensures !(h in InUse(a, c.sizes[b]) && h in a.free[b])
  {
    IndexOfOwn(c.sizes, b);
    if h in a.blocks {
      assert FiledAs(c, a, h);
    }
  }

  /** Blocks of a bucket's size are either in use or on that bucket's list: none is lost. */
  lemma CarvedSplit(c: Config, a: Heap, b: nat)
    requires Inv(c, a) && b < |c.sizes|
    ensures |Carved(a, c.sizes[b])| == |InUse(a, c.sizes[b])| + |a.free[b]|
  {
    var carved, used, spare := Carved(a, c.sizes[b]), InUse(a, c.sizes[b]), Members(a.free[b]);
    assert |spare| == |a.free[b]| by {
      assert Disjoint(a.free[b]);
      DistinctCount(a.free[b]);
    }
    assert carved == used + spare && used !! spare by {
      forall h: nat
        ensures h in carved <==> h in used || h in spare
        ensures !(h in used && h in spare)
      {
        CarvedMembers(c, a, b, h);
      }
    }
  }

  /** A step either carves nothing for bucket b or leaves it without a spare block. */
  ghost predicate Thrifty(c: Config, a: Heap, a': Heap, b: nat)
    requires b < |c.sizes| == |a'.free|
  {
    && Carved(a, c.sizes[b]) <= Carved(a', c.sizes[b])
    && (Carved(a, c.sizes[b]) == Carved(a', c.sizes[b]) || a'.free[b] == [])
  }

  lemma MallocThrifty(c: Config, a: Heap, size: nat, b: nat)
    requires Inv(c, a) && b < |c.sizes|
    ensures Thrifty(c, a, Malloc(c, a, size).0, b)
  {
    var fit := FirstFit(c.sizes, size);
    var g := Granted(c, size);
    if size == 0 {
    } else if fit < |c.sizes| && a.free[fit] != [] {
      var h := a.free[fit][0];
      assert a.blocks[h] == Block(c.sizes[fit], Free);
      assert Carved(a, c.sizes[b]) == Carved(TakeHead(c, a, fit), c.sizes[b]);
    } else if a.next + Extent(g) <= c.top {
      CarveLists(c, a, g);
      if g == c.sizes[b] {
        assert fit == b;
      } else {
        assert Carved(a, c.sizes[b]) == Carved(Carve(a, g), c.sizes[b]);
      }
    }
  }

  lemma ReleaseThrifty(c: Config, a: Heap, p: nat, b: nat)
    requires Inv(c, a) && b < |c.sizes|
    requires p == 0 || IsLive(a, p)
    ensures Carved(Release(c, a, p), c.sizes[b]) == Carved(a, c.sizes[b])
    ensures p != 0 && a.blocks[p - DATA_OFFSET].size != c.sizes[b] ==> Release(c, a, p).free[b] == a.free[b]
  {
    IndexOfOwn(c.sizes, b);
  }

  lemma ReallocThrifty(c: Config, a: Heap, p: nat, newSize: nat, b: nat)
    requires Inv(c, a) && b < |c.sizes|
    requires p == 0 || IsLive(a, p)
    ensures Thrifty(c, a, Realloc(c, a, p, newSize).0, b)
  {
    MallocThrifty(c, a, newSize, b);
    if p != 0 {
      ReleaseThrifty(c, a, p, b);
      if newSize > a.blocks[p - DATA_OFFSET].size {
        GrowThrifty(c, a, p, newSize, b);
      }
    }
  }

  lemma GrowThrifty(c: Config, a: Heap, p: nat, newSize: nat, b: nat)
    requires Inv(c, a) && b < |c.sizes|
    requires IsLive(a, p) && a.blocks[p - DATA_OFFSET].size < newSize
    ensures Thrifty(c, a, Realloc(c, a, p, newSize).0, b)
  {
    var (a1, q) := Malloc(c, a, newSize);
    MallocThrifty(c, a, newSize, b);
    MallocServed(c, a, newSize);
    MallocInv(c, a, newSize);
    if q != 0 {
      ReleaseThrifty(c, a1, p, b);
      if a.blocks[p - DATA_OFFSET].size == c.sizes[b] {
        GrowingMoves(c, a, p, newSize, b);
      }
    }
  }

  /** A growing realloc never takes its new block from the old block's bucket. */
  lemma GrowingMoves(c: Config, a: Heap, p: nat, newSize: nat, b: nat)
    requires Inv(c, a) && b < |c.sizes|
    requires IsLive(a, p) && a.blocks[p - DATA_OFFSET].size < newSize
    requires a.blocks[p - DATA_OFFSET].size == c.sizes[b]
    ensures Carved(Malloc(c, a, newSize).0, c.sizes[b]) == Carved(a, c.sizes[b])
  {
    var fit := FirstFit(c.sizes, newSize);
    if fit < |c.sizes| && a.free[fit] != [] {
      assert a.blocks[a.free[fit][0]] == Block(c.sizes[fit], Free);
    } else if a.next + Extent(Granted(c, newSize)) <= c.top {
      CarveLists(c, a, Granted(c, newSize));
    }
  }

  lemma StepThrifty(c: Config, a: Heap, op: Op, b: nat)
    requires Inv(c, a) && b < |c.sizes|
    ensures Inv(c, Step(c, a, op)) && Thrifty(c, a, Step(c, a, op), b)
  {
    StepInv(c, a, op);
    match op
    case DoMalloc(size) => MallocThrifty(c, a, size, b);
    case DoFree(p) => if Legal(a, op) { ReleaseThrifty(c, a, p, b); }
    case DoRealloc(p, size) => if Legal(a, op) { ReallocThrifty(c, a, p, size, b); }
    case DoCalloc(n, size) => MallocThrifty(c, a, n * size % UINT32, b);
  }

  /** Over every run the blocks carved for a bucket number exactly its peak of live blocks. */
  lemma {:induction false} CarvedIsPeak(c: Config, ops: seq<Op>, b: nat)
    requires GoodConfig(c) && b < |c.sizes|
    ensures |Carved(Run(c, ops), c.sizes[b])| == Peak(c, ops, b)
  {
    CarvedSplit(c, Run(c, ops), b);
    if ops != [] {
      var before := ops[..|ops| - 1];
      CarvedIsPeak(c, before, b);
      StepThrifty(c, Run(c, before), ops[|ops| - 1], b);
      SubsetSize(Carved(Run(c, before), c.sizes[b]), Carved(Run(c, ops), c.sizes[b]));
    } else {
      assert Carved(Run(c, ops), c.sizes[b]) == {};
    }
  }

  lemma SubsetSize(s: set<nat>, t: set<nat>)
    requires s <= t
    ensures |s| <= |t|
  {
    assert t == s + (t - s);
  }
}
