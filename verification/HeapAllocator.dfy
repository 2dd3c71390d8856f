/**
 lib-clib/src/malloc.cpp over a flat byte memory: every method is proved to perform the step of HeapModel
 on the abstract heap while touching no byte it does not own.
 */
module HeapAllocator {
  import opened Digits
  import opened HeapMemory
  import opened HeapModel
  import opened Numbers

  class Allocator {
    const c: Config
    /** The bytes below heap_top; the heap proper starts at c.low. */
    const mem: array<Byte>
    /** free_list of each bucket. */
    const freeList: array<nat>
    var nextBlock: nat
    ghost var heap: Heap

    ghost predicate Valid()
      reads this, mem, freeList
    {
      && mem.Length == c.top
      && nextBlock == heap.next
      && Represents(c, mem[..], freeList[..], heap)
    }

    constructor (c: Config)
      requires GoodConfig(c)
      ensures Valid() && this.c == c && heap == Empty(c)
      ensures fresh(mem) && fresh(freeList)
    {
      this.c := c;
      mem := new Byte[c.top](_ => 0);
      freeList := new nat[|c.sizes|](_ => 0);
      nextBlock := c.low;
      heap := Empty(c);
      new;
      EmptyInv(c);
    }

    /** bucket->size: the table ends with a zero entry. */
    function BucketSize(b: nat): nat {
      if b < |c.sizes| then c.sizes[b] else 0
    }

    /** Memory reads as zero where nothing is mapped. */
    function LoadByte(at: nat): Byte
      reads mem
    {
      if at < mem.Length then mem[at] else 0
    }

    function LoadWord(at: nat): nat
      requires at + 4 <= mem.Length
      reads mem
    {
      Word(mem[..], at)
    }

    method StoreWord(at: nat, v: nat)
      requires at + 4 <= mem.Length && v < UINT32
      modifies mem
      ensures mem[..] == Put(old(mem[..]), at, v)
    {
      mem[at] := v % 0x100;
      mem[at + 1] := v / 0x100 % 0x100;
      mem[at + 2] := v / 0x1_0000 % 0x100;
      mem[at + 3] := v / 0x100_0000;
    }

    /** The bucket loop of malloc, which also rounds the size up to the bucket's. */
    method FindBucket(request: nat) returns (b: nat, size: nat)
      requires Valid()
      ensures b == FirstFit(c.sizes, request) && size == Granted(c, request)
    {
      b, size := 0, request;
      while BucketSize(b) > 0
        invariant b <= |c.sizes| && size == request
        invariant forall i | 0 <= i < b :: c.sizes[i] < request
        decreases |c.sizes| - b
      {
        if size <= BucketSize(b) {
          size := BucketSize(b);
          break;
        }
        b := b + 1;
      }
    }

    /** bucket->size > 0 and the bucket's free list is not null. */
    method HasFree(b: nat) returns (spare: bool)
      requires Valid()
      ensures spare == (b < |c.sizes| && heap.free[b] != [])
    {
      if b < |c.sizes| {
        HeadIsAddress(c, mem[..], freeList[..], heap, b);
      }
      spare := BucketSize(b) > 0 && freeList[b] != 0;
    }

    method TakeFree(b: nat) returns (p: nat)
      requires Valid()
      requires b < |c.sizes| && heap.free[b] != []
      modifies `heap, mem, freeList
      ensures Valid()
      ensures heap == TakeHead(c, old(heap), b) && p == old(heap).free[b][0] + DATA_OFFSET
      ensures SameOutside(old(mem[..]), mem[..], p - DATA_OFFSET, p)
    {
      HeadTaken(c, mem[..], freeList[..], heap, b, freeList[b]);
      p := UnlinkHead(b, TakeHead(c, heap, b));
      p := p + DATA_OFFSET;
    }

    /** The stores of TakeFree; `a` is the heap after them. */
    method UnlinkHead(b: nat, ghost a: Heap) returns (header: nat)
      requires b < freeList.Length && freeList[b] + DATA_OFFSET <= mem.Length
      modifies `heap, mem, freeList
      ensures heap == a && header == old(freeList[b])
      ensures freeList[..] == old(freeList[..])[b := NextOf(old(mem[..]), header)]
      ensures mem[..] == Put(old(mem[..]), header + NEXT_OFFSET, 0)
    {
      header := freeList[b];
      freeList[b] := LoadWord(header + NEXT_OFFSET);
      StoreWord(header + NEXT_OFFSET, 0);
      heap := a;
    }

    /** The header of a block that starts at the bump pointer. */
    method CarveBlock(size: nat, next: nat)
      requires Valid()
      requires 0 < size && next == heap.next + Extent(size) <= c.top
      modifies `nextBlock, `heap, mem
      ensures Valid()
      ensures heap == Carve(old(heap), size)
      ensures SameOutside(old(mem[..]), mem[..], old(nextBlock), old(nextBlock) + DATA_OFFSET)
    {
      StoredCarve(c, mem[..], freeList[..], heap, size);
      CarveInv(c, heap, size);
      WriteHeader(size, next, Carve(heap, size));
    }

    /** The stores of CarveBlock; `a` is the heap after them. */
    method WriteHeader(size: nat, next: nat, ghost a: Heap)
      requires nextBlock + DATA_OFFSET <= mem.Length && size < UINT32
      modifies `nextBlock, `heap, mem
      ensures nextBlock == next && heap == a
      ensures mem[..] == NewHeader(old(mem[..]), old(nextBlock), size)
    {
      StoreWord(nextBlock, BLOCK_MAGIC);
      StoreWord(nextBlock + SIZE_OFFSET, size);
      StoreWord(nextBlock + NEXT_OFFSET, 0);
      nextBlock := next;
      heap := a;
    }

    /** Out of buckets: move the bump pointer unless that would pass the limit. */
    method BumpOrFail(size: nat) returns (p: nat)
      requires Valid()
      requires 0 < size < UINT32 && NoFalseFit(nextBlock, size, c.top)
      modifies `nextBlock, `heap, mem
      ensures Valid()
      ensures p == if old(heap).next + Extent(size) > c.top then 0 else old(heap).next + DATA_OFFSET
      ensures heap == if p == 0 then old(heap) else Carve(old(heap), size)
      ensures p == 0 ==> mem[..] == old(mem[..])
      ensures p != 0 ==> SameOutside(old(mem[..]), mem[..], p - DATA_OFFSET, p)
    {
      var header := nextBlock;
      var next := NextAfter(nextBlock, size);
      CarveCheckExact(nextBlock, size, c.top);
      if next > c.top {
        return 0;
      }
      CarveBlock(size, next);
      p := header + DATA_OFFSET;
    }

    method MallocBlock(request: nat) returns (p: nat)
      requires Valid()
      requires Checked(c, heap, request)
      modifies `nextBlock, `heap, mem, freeList
      ensures Valid()
      ensures (heap, p) == HeapModel.Malloc(c, old(heap), request)
      ensures p == 0 ==> mem[..] == old(mem[..])
      ensures p != 0 ==> SameOutside(old(mem[..]), mem[..], p - DATA_OFFSET, p)
    {
      if request == 0 {
        return 0;
      }
      var b, size := FindBucket(request);
      p := Serve(b, size, request);
    }

    /** A block of a known bucket and size: from the free list, or from the bump pointer. */
    method Serve(b: nat, size: nat, ghost request: nat) returns (p: nat)
      requires Valid()
      requires request != 0 && Checked(c, heap, request)
      requires b == FirstFit(c.sizes, request) && size == Granted(c, request)
      modifies `nextBlock, `heap, mem, freeList
      ensures Valid()
      ensures (heap, p) == HeapModel.Malloc(c, old(heap), request)
      ensures p == 0 ==> mem[..] == old(mem[..])
      ensures p != 0 ==> SameOutside(old(mem[..]), mem[..], p - DATA_OFFSET, p)
    {
      var spare := HasFree(b);
      if spare {
        p := ServeFree(b, request);
      } else {
        p := ServeFresh(size, request);
      }
    }

    method ServeFree(b: nat, ghost request: nat) returns (p: nat)
      requires Valid()
      requires request != 0 && b == FirstFit(c.sizes, request) < |c.sizes| && heap.free[b] != []
      modifies `heap, mem, freeList
      ensures Valid()
      ensures (heap, p) == HeapModel.Malloc(c, old(heap), request)
      ensures p != 0 && SameOutside(old(mem[..]), mem[..], p - DATA_OFFSET, p)
    {
      MallocTakes(c, heap, request, b);
      p := TakeFree(b);
    }

    method ServeFresh(size: nat, ghost request: nat) returns (p: nat)
      requires Valid()
      requires request != 0 && Checked(c, heap, request) && size == Granted(c, request)
      requires var b := FirstFit(c.sizes, request); b < |c.sizes| ==> heap.free[b] == []
      modifies `nextBlock, `heap, mem
      ensures Valid()
      ensures (heap, p) == HeapModel.Malloc(c, old(heap), request)
      ensures p == 0 ==> mem[..] == old(mem[..])
      ensures p != 0 ==> SameOutside(old(mem[..]), mem[..], p - DATA_OFFSET, p)
    {
      MallocCarves(c, heap, request, FirstFit(c.sizes, request), size);
      GrantedFits(c, request);
      p := BumpOrFail(size);
    }

    /** The magic and size words of the header before a live payload. */
    method ReadHeader(header: nat) returns (magic: nat, size: nat)
      requires Valid()
      requires IsLive(heap, header + DATA_OFFSET)
      ensures magic == BLOCK_MAGIC && size == heap.blocks[header].size
    {
      assert HeaderStored(mem[..], heap, header);
      magic := LoadWord(header);
      size := LoadWord(header + SIZE_OFFSET);
    }

    /** GetAllocated: the size word of a block with an intact header. */
    method GetAllocated(p: nat) returns (size: nat)
      requires Valid()
      requires p == 0 || IsLive(heap, p)
      ensures size == if p == 0 then 0 else heap.blocks[p - DATA_OFFSET].size
    {
      if p == 0 {
        return 0;
      }
      var magic;
      magic, size := ReadHeader(p - DATA_OFFSET);
      if magic != BLOCK_MAGIC {
        assert false;
      }
    }

    /** The block becomes the head of its bucket's list. */
    method PushFree(header: nat, b: nat)
      requires Valid()
      requires IsLive(heap, header + DATA_OFFSET)
      requires b == IndexOf(c.sizes, heap.blocks[header].size) < |c.sizes|
      modifies `heap, mem, freeList
      ensures Valid()
      ensures heap == Release(c, old(heap), header + DATA_OFFSET)
      ensures SameOutside(old(mem[..]), mem[..], header, header + DATA_OFFSET)
    {
      BlockPushed(c, mem[..], freeList[..], heap, header, freeList[b]);
      LinkHead(header, b, Release(c, heap, header + DATA_OFFSET));
    }

    /** The stores of PushFree; `a` is the heap after them. */
    method LinkHead(header: nat, b: nat, ghost a: Heap)
      requires b < freeList.Length && freeList[b] < UINT32 && header + DATA_OFFSET <= mem.Length
      modifies `heap, mem, freeList
      ensures heap == a
      ensures mem[..] == Put(old(mem[..]), header + NEXT_OFFSET, old(freeList[b]))
      ensures freeList[..] == old(freeList[..])[b := header]
    {
      StoreWord(header + NEXT_OFFSET, freeList[b]);
      freeList[b] := header;
      heap := a;
    }

    method FreeBlock(p: nat)
      requires Valid()
      requires p == 0 || IsLive(heap, p)
      modifies `heap, mem, freeList
      ensures Valid()
      ensures heap == Release(c, old(heap), p)
      ensures p == 0 ==> mem[..] == old(mem[..])
      ensures p != 0 ==> SameOutside(old(mem[..]), mem[..], p - DATA_OFFSET, p)
    {
      if p == 0 {
        return;
      }
      var header := p - DATA_OFFSET;
      var magic, size := ReadHeader(header);
      if magic != BLOCK_MAGIC {
        assert false;
      }
      var b := FindExact(size);
      if BucketSize(b) > 0 {
        PushFree(header, b);
      } else {
        StoredRetire(mem[..], freeList[..], c, heap, p);
        ReleaseInv(c, heap, p);
        heap := Release(c, heap, p);
      }
    }

    /** The bucket loop of free. */
    method FindExact(size: nat) returns (b: nat)
      requires Valid()
      ensures b == IndexOf(c.sizes, size)
    {
      b := 0;
      while BucketSize(b) > 0
        invariant b <= |c.sizes|
        invariant forall i | 0 <= i < b :: c.sizes[i] != size
        decreases |c.sizes| - b
      {
        if size == BucketSize(b) {
          break;
        }
        b := b + 1;
      }
    }

    // ---------- copying ----------

    /** True when a forward copy of n bytes cannot spoil the first `keep` source bytes. */
    ghost predicate SafeCopy(dst: nat, src: nat, n: nat, keep: nat)
    {
      keep <= n && dst + n <= mem.Length && src + keep <= mem.Length && (src + keep <= dst || dst + n <= src)
    }

    /**
     The copy loops of realloc: words first, then the odd bytes. The source may be shorter than n;
     only its first `keep` bytes are promised.
     */
    method CopyForward(dst: nat, src: nat, n: nat, ghost keep: nat)
      requires SafeCopy(dst, src, n, keep)
      modifies mem
      ensures SameOutside(old(mem[..]), mem[..], dst, dst + n)
      ensures forall i | dst <= i < dst + keep :: mem[i] == old(mem[..])[i - dst + src]
    {
      ghost var m := mem[..];
      var done := CopyWords(dst, src, n, keep);
      var count := n - done;
      while count > 0
        invariant done + count == n
        invariant SameOutside(m, mem[..], dst, dst + n)
        invariant Copied(m, mem[..], dst, src, done, keep)
      {
        mem[dst + done] := LoadByte(src + done);
        done, count := done + 1, count - 1;
      }
    }

    /** The word loop of the copy. */
    method CopyWords(dst: nat, src: nat, n: nat, ghost keep: nat) returns (done: nat)
      requires SafeCopy(dst, src, n, keep)
      modifies mem
      ensures done <= n && SameOutside(old(mem[..]), mem[..], dst, dst + n)
      ensures Copied(old(mem[..]), mem[..], dst, src, done, keep)
    {
      ghost var m := mem[..];
      done := 0;
      while n - done >= 4
        invariant done <= n
        invariant SameOutside(m, mem[..], dst, dst + n)
        invariant Copied(m, mem[..], dst, src, done, keep)
      {
        CopyWord(dst, src, n, keep, m, done);
        done := done + 4;
      }
    }

    method CopyWord(dst: nat, src: nat, n: nat, ghost keep: nat, ghost m: seq<Byte>, done: nat)
      requires SafeCopy(dst, src, n, keep) && done + 4 <= n
      requires SameOutside(m, mem[..], dst, dst + n) && Copied(m, mem[..], dst, src, done, keep)
      modifies mem
      ensures SameOutside(m, mem[..], dst, dst + n) && Copied(m, mem[..], dst, src, done + 4, keep)
    {
      var b0, b1 := LoadByte(src + done), LoadByte(src + done + 1);
      var b2, b3 := LoadByte(src + done + 2), LoadByte(src + done + 3);
      mem[dst + done], mem[dst + done + 1], mem[dst + done + 2], mem[dst + done + 3] := b0, b1, b2, b3;
    }

    /** The zeroing loops of calloc. */
    method ZeroFill(dst: nat, n: nat)
      requires dst + n <= mem.Length
      modifies mem
      ensures SameOutside(old(mem[..]), mem[..], dst, dst + n)
      ensures forall i | dst <= i < dst + n :: mem[i] == 0
    {
      var done, count := 0, n;
      while count >= 4
        invariant done + count == n
        invariant SameOutside(old(mem[..]), mem[..], dst, dst + n)
        invariant forall i | dst <= i < dst + done :: mem[i] == 0
      {
        mem[dst + done], mem[dst + done + 1], mem[dst + done + 2], mem[dst + done + 3] := 0, 0, 0, 0;
        done, count := done + 4, count - 4;
      }
      while count > 0
        invariant done + count == n
        invariant SameOutside(old(mem[..]), mem[..], dst, dst + n)
        invariant forall i | dst <= i < dst + done :: mem[i] == 0
      {
        mem[dst + done] := 0;
        done, count := done + 1, count - 1;
      }
    }

    // ---------- realloc, calloc and the callers' own stores ----------

    /** A caller writes into its own payload. */
    method WritePayload(p: nat, i: nat, v: Byte)
      requires Valid()
      requires IsLive(heap, p) && i < heap.blocks[p - DATA_OFFSET].size
      modifies mem
      ensures Valid()
      ensures p + i < mem.Length && mem[..] == old(mem[..])[p + i := v]
    {
      PayloadInside(c, heap, p, 0);
      ghost var m := mem[..];
      mem[p + i] := v;
      PayloadWrite(c, m, mem[..], freeList[..], heap, p, p + i, p + i + 1);
    }

    method Malloc(request: nat) returns (p: nat)
      requires Valid()
      requires Checked(c, heap, request)
      modifies `nextBlock, `heap, mem, freeList
      ensures Valid()
      ensures (heap, p) == HeapModel.Malloc(c, old(heap), request)
      ensures p == 0 ==> mem[..] == old(mem[..])
      ensures PayloadsKept(old(mem[..]), mem[..], old(heap), 0)
    {
      p := MallocBlock(request);
      AfterMalloc(c, old(heap), request, old(mem[..]), mem[..]);
    }

    method Free(p: nat)
      requires Valid()
      requires p == 0 || IsLive(heap, p)
      modifies `heap, mem, freeList
      ensures Valid()
      ensures heap == Release(c, old(heap), p)
      ensures PayloadsKept(old(mem[..]), mem[..], old(heap), p)
    {
      FreeBlock(p);
      AfterFree(c, old(heap), p, old(mem[..]), mem[..]);
    }

    method Realloc(p: nat, newSize: nat) returns (q: nat)
      requires Valid()
      requires p == 0 || IsLive(heap, p)
      requires ReallocChecked(c, heap, p, newSize)
      modifies `nextBlock, `heap, mem, freeList
      ensures Valid()
      ensures (heap, q) == HeapModel.Realloc(c, old(heap), p, newSize)
      ensures p != 0 && 0 < newSize <= old(heap).blocks[p - DATA_OFFSET].size ==> q == p && mem[..] == old(mem[..])
      ensures newSize == 0 ==> q == 0
      ensures q == 0 && newSize != 0 ==> heap == old(heap) && mem[..] == old(mem[..])
      ensures PayloadsKept(old(mem[..]), mem[..], old(heap), p)
      ensures p != 0 && q != 0 ==> Moved(old(mem[..]), mem[..], p, q, old(heap).blocks[p - DATA_OFFSET].size)
    {
      if p == 0 {
        q := Malloc(newSize);
      } else {
        q := ReallocLive(p, newSize);
      }
    }

    method ReallocLive(p: nat, newSize: nat) returns (q: nat)
      requires Valid()
      requires IsLive(heap, p)
      requires ReallocChecked(c, heap, p, newSize)
      modifies `nextBlock, `heap, mem, freeList
      ensures Valid()
      ensures (heap, q) == HeapModel.Realloc(c, old(heap), p, newSize)
      ensures p != 0 && 0 < newSize <= old(heap).blocks[p - DATA_OFFSET].size ==> q == p && mem[..] == old(mem[..])
      ensures newSize == 0 ==> q == 0
      ensures q == 0 && newSize != 0 ==> heap == old(heap) && mem[..] == old(mem[..])
      ensures PayloadsKept(old(mem[..]), mem[..], old(heap), p)
      ensures q != 0 ==> Moved(old(mem[..]), mem[..], p, q, old(heap).blocks[p - DATA_OFFSET].size)
    {
      if newSize == 0 {
        Free(p);
        return 0;
      }
      var current := GetAllocated(p);
      if current < newSize {
        q := Grow(p, current, newSize);
      } else {
        AllKept(c, heap, p, mem[..]);
        return p;
      }
    }

    /** The copy of realloc, from live block p into the longer live block q. */
    method CopyPayload(p: nat, q: nat, current: nat, newSize: nat)
      requires Valid()
      requires IsLive(heap, p) && IsLive(heap, q) && p != q
      requires current == heap.blocks[p - DATA_OFFSET].size <= newSize <= heap.blocks[q - DATA_OFFSET].size
      modifies mem
      ensures Valid()
      ensures PayloadsKept(old(mem[..]), mem[..], heap, q)
      ensures Moved(old(mem[..]), mem[..], p, q, current)
    {
      PayloadInside(c, heap, q, 0);
      PayloadInside(c, heap, p, q - DATA_OFFSET);
      CopyForward(q, p, newSize, current);
      PayloadWrite(c, old(mem[..]), mem[..], freeList[..], heap, q, q, q + newSize);
      OthersKept(c, heap, old(mem[..]), mem[..], q - DATA_OFFSET, q, q + newSize);
    }

    method Grow(p: nat, current: nat, newSize: nat) returns (q: nat)
      requires Valid()
      requires IsLive(heap, p) && current == heap.blocks[p - DATA_OFFSET].size < newSize
      requires Checked(c, heap, newSize)
      modifies `nextBlock, `heap, mem, freeList
      ensures Valid()
      ensures (heap, q) == HeapModel.Realloc(c, old(heap), p, newSize)
      ensures q == 0 ==> heap == old(heap) && mem[..] == old(mem[..])
      ensures PayloadsKept(old(mem[..]), mem[..], old(heap), p)
      ensures q != 0 ==> Moved(old(mem[..]), mem[..], p, q, current)
    {
      MallocServed(c, heap, newSize);
      q := Malloc(newSize);
      ghost var h1, m1 := heap, mem[..];
      if q == 0 {
        return;
      }
      CopyPayload(p, q, current, newSize);
      ghost var m2 := mem[..];
      Free(p);
      GrowKeeps(old(heap), h1, p, q, old(mem[..]), m1, m2, mem[..]);
    }

    method ZeroPayload(p: nat, total: nat)
      requires Valid()
      requires IsLive(heap, p) && total <= heap.blocks[p - DATA_OFFSET].size
      modifies mem
      ensures Valid()
      ensures PayloadsKept(old(mem[..]), mem[..], heap, p)
      ensures p + total <= mem.Length && forall i | p <= i < p + total :: mem[i] == 0
    {
      PayloadInside(c, heap, p, 0);
      ZeroFill(p, total);
      PayloadWrite(c, old(mem[..]), mem[..], freeList[..], heap, p, p, p + total);
      OthersKept(c, heap, old(mem[..]), mem[..], p - DATA_OFFSET, p, p + total);
    }

    method Calloc(n: nat, size: nat) returns (p: nat)
      requires Valid()
      requires Checked(c, heap, n * size % UINT32)
      modifies `nextBlock, `heap, mem, freeList
      ensures Valid()
      ensures (heap, p) == HeapModel.Calloc(c, old(heap), n, size)
      ensures p == 0 ==> mem[..] == old(mem[..])
      ensures PayloadsKept(old(mem[..]), mem[..], old(heap), 0)
      ensures p != 0 ==>
                var total := n * size % UINT32;
                p + total <= mem.Length && forall i | p <= i < p + total :: mem[i] == 0
    {
      if n == 0 || size == 0 {
        AllKept(c, heap, 0, mem[..]);
        return 0;
      }
      var total := n * size % UINT32;
      MallocServed(c, heap, total);
      p := Malloc(total);
      if p != 0 {
        ghost var m1 := mem[..];
        ZeroPayload(p, total);
        CallocKeeps(old(heap), heap, p, old(mem[..]), m1, mem[..]);
      }
    }
  }
}
