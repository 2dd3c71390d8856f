/**
 The heap as the 32-bit code drives it: its limit check adds addresses and sizes modulo 2^32, where
 HeapModel adds them as numbers.
 */
module Heap32 {
  import opened Numbers
  import opened HeapModel
  import opened HeapMemory

  /** malloc as the 32-bit code decides it, on the abstract heap. */
  function Malloc32(c: Config, a: Heap, request: nat): (Heap, nat)
    requires |a.free| == |c.sizes|
  {
    if request == 0 then (a, 0)
    else
      var b := FirstFit(c.sizes, request);
      var size := Granted(c, request);
      if b < |c.sizes| && a.free[b] != [] then (TakeHead(c, a, b), a.free[b][0] + DATA_OFFSET)
      else
        var next := NextAfter(a.next, size);
        if next > c.top then (a, 0)
        else (Heap(next, a.blocks[a.next := Block(size, Live)], a.free), a.next + DATA_OFFSET)
  }

  /** The code takes the step of HeapModel, and keeps the heap intact, exactly when no limit check is misled. */
  lemma MallocRightIff(c: Config, a: Heap, request: nat)
    requires Inv(c, a) && request < UINT32
    ensures Inv(c, Malloc32(c, a, request).0) <==> Checked(c, a, request)
    ensures Malloc32(c, a, request) == HeapModel.Malloc(c, a, request) <==> Checked(c, a, request)
  {
    GrantedFits(c, request);
    if Checked(c, a, request) {
      CheckedRight(c, a, request);
      MallocInv(c, a, request);
    } else {
      UncheckedWrong(c, a, request);
    }
  }

  lemma CheckedRight(c: Config, a: Heap, request: nat)
    requires Inv(c, a) && Checked(c, a, request)
    ensures Malloc32(c, a, request) == HeapModel.Malloc(c, a, request)
  {
    GrantedFits(c, request);
    if request != 0 {
      CarveCheckExact(a.next, Granted(c, request), c.top);
    }
  }

  lemma UncheckedWrong(c: Config, a: Heap, request: nat)
    requires Inv(c, a) && request < UINT32 && !Checked(c, a, request)
    ensures !Inv(c, Malloc32(c, a, request).0) && Malloc32(c, a, request) != HeapModel.Malloc(c, a, request)
  {
    FalseFit(c, a, request);
    BlockBehind(c, Malloc32(c, a, request).0, a.next);
    MallocInv(c, a, request);
  }

  lemma BlockBehind(c: Config, a: Heap, h: nat)
    requires h in a.blocks && a.next < h + Extent(a.blocks[h].size)
    ensures !Inv(c, a)
  {
  }

  /** After a false fit the new block ends behind the bump pointer. */
  lemma FalseFit(c: Config, a: Heap, request: nat)
    requires Inv(c, a) && request < UINT32 && !Checked(c, a, request)
    ensures var (a', q), size := Malloc32(c, a, request), Granted(c, request);
            && q == a.next + DATA_OFFSET && a'.next < a.next + Extent(size)
            && a'.blocks == a.blocks[a.next := Block(size, Live)]
  {
    GrantedFits(c, request);
    NextAfterMod(a.next, Granted(c, request));
  }

  /** On a fresh heap a request of nearly 4 GiB is answered with a block that does not fit. */
  lemma CarveCheckWraps()
    ensures var c := Config(0x2000_1000, 0x2000_8000, []);
            var (a, p) := Malloc32(c, Empty(c), 0xFFFF_FF00);
            && GoodConfig(c) && p == c.low + DATA_OFFSET && c.low in a.blocks
            && a.blocks[c.low] == Block(0xFFFF_FF00, Live)
            && a.next < c.low && c.low + Extent(0xFFFF_FF00) > c.top && !Inv(c, a)
  {
    var c := Config(0x2000_1000, 0x2000_8000, []);
    EmptyInv(c);
    WrappedFit();
    UncheckedWrong(c, Empty(c), 0xFFFF_FF00);
  }

  lemma WrappedFit()
    ensures NextAfter(0x2000_1000, 0xFFFF_FF00) == 0x2000_0F10
    ensures Extent(0xFFFF_FF00) == 0xFFFF_FF10
  {
    assert Extent(0xFFFF_FF00) == 0xFFFF_FF1C / 16 * 16;
    NextAfterMod(0x2000_1000, 0xFFFF_FF00);
  }

  // ---------- runs ----------

  function Realloc32(c: Config, a: Heap, p: nat, newSize: nat): (Heap, nat)
    requires Inv(c, a)
    requires p == 0 || IsLive(a, p)
  {
    if p == 0 then Malloc32(c, a, newSize)
    else if newSize == 0 then (Release(c, a, p), 0)
    else if a.blocks[p - DATA_OFFSET].size >= newSize then (a, p)
    else
      Malloc32Keeps(c, a, newSize, p);
      var (a1, q) := Malloc32(c, a, newSize);
      if q == 0 then (a1, 0) else (Release(c, a1, p), q)
  }

  /** Whatever malloc answers, the block at p stays. */
  lemma Malloc32Keeps(c: Config, a: Heap, request: nat, p: nat)
    requires Inv(c, a) && IsLive(a, p)
    ensures IsLive(Malloc32(c, a, request).0, p)
  {
    var b := FirstFit(c.sizes, request);
    if request != 0 && b < |c.sizes| && a.free[b] != [] {
      FreeEntry(c, a, b, 0);
    }
  }

  function Step32(c: Config, a: Heap, op: Op): Heap
    requires Inv(c, a)
  {
    if !Legal(a, op) then a
    else
      match op
      case DoMalloc(size) => Malloc32(c, a, size).0
      case DoFree(p) => Release(c, a, p)
      case DoRealloc(p, size) => Realloc32(c, a, p, size).0
      case DoCalloc(n, size) => if n == 0 || size == 0 then a else Malloc32(c, a, n * size % UINT32).0
  }

  /** The arguments are 32-bit sizes. */
  predicate Sizes32(op: Op) {
    match op
    case DoMalloc(size) => size < UINT32
    case DoFree(_) => true
    case DoRealloc(_, size) => size < UINT32
    case DoCalloc(n, size) => n < UINT32 && size < UINT32
  }

  /** The operation reaches no limit check that the wrap misleads. */
  predicate CheckedStep(c: Config, a: Heap, op: Op)
    requires Inv(c, a)
  {
    Legal(a, op) ==>
      match op
      case DoMalloc(size) => Checked(c, a, size)
      case DoFree(_) => true
      case DoRealloc(p, size) => ReallocChecked(c, a, p, size)
      case DoCalloc(n, size) => Checked(c, a, n * size % UINT32)
  }

  ghost predicate StepRight(c: Config, a: Heap, op: Op)
    requires Inv(c, a)
  {
    && (Inv(c, Step32(c, a, op)) <==> CheckedStep(c, a, op))
    && (CheckedStep(c, a, op) ==> Step32(c, a, op) == Step(c, a, op))
  }

  lemma StepRightIff(c: Config, a: Heap, op: Op)
    requires Inv(c, a) && Sizes32(op)
    ensures StepRight(c, a, op)
  {
    match op
    case DoMalloc(size) => MallocStepRight(c, a, size);
    case DoFree(p) => StepInv(c, a, op);
    case DoRealloc(p, size) => ReallocStepRight(c, a, p, size);
    case DoCalloc(n, size) => CallocStepRight(c, a, n, size);
  }

  lemma ReallocStepRight(c: Config, a: Heap, p: nat, size: nat)
    requires Inv(c, a) && size < UINT32
    ensures StepRight(c, a, DoRealloc(p, size))
  {
    if Legal(a, DoRealloc(p, size)) {
      ReallocRightIff(c, a, p, size);
    }
  }

  lemma CallocStepRight(c: Config, a: Heap, n: nat, size: nat)
    requires Inv(c, a)
    ensures StepRight(c, a, DoCalloc(n, size))
  {
    CallocIsMalloc(c, a, n, size, n * size % UINT32);
    MallocStepRight(c, a, n * size % UINT32);
  }

  /** The two operations are one step, and are checked alike. */
  ghost predicate SameStep(c: Config, a: Heap, op: Op, op': Op)
    requires Inv(c, a)
  {
    Step(c, a, op) == Step(c, a, op') && Step32(c, a, op) == Step32(c, a, op')
    && (CheckedStep(c, a, op) <==> CheckedStep(c, a, op'))
  }

  /** calloc takes the step of malloc for the product; that of nothing is none. */
  lemma CallocIsMalloc(c: Config, a: Heap, n: nat, size: nat, total: nat)
    requires Inv(c, a) && total == n * size % UINT32
    ensures SameStep(c, a, DoCalloc(n, size), DoMalloc(total))
  {
    if n == 0 || size == 0 {
      NothingAsked(c, a, n, size);
    }
  }

  lemma NothingAsked(c: Config, a: Heap, n: nat, size: nat)
    requires Inv(c, a) && (n == 0 || size == 0)
    ensures n * size % UINT32 == 0 && SameStep(c, a, DoCalloc(n, size), DoMalloc(0))
  {
    assert n * size == 0;
  }

  lemma MallocStepRight(c: Config, a: Heap, size: nat)
    requires Inv(c, a) && size < UINT32
    ensures StepRight(c, a, DoMalloc(size))
  {
    MallocRightIff(c, a, size);
  }

  lemma ReallocRightIff(c: Config, a: Heap, p: nat, newSize: nat)
    requires Inv(c, a) && newSize < UINT32 && (p == 0 || IsLive(a, p))
    ensures Inv(c, Realloc32(c, a, p, newSize).0) <==> ReallocChecked(c, a, p, newSize)
    ensures ReallocChecked(c, a, p, newSize) ==> Realloc32(c, a, p, newSize) == HeapModel.Realloc(c, a, p, newSize)
  {
    ReallocInv(c, a, p, newSize);
    if p == 0 {
      MallocRightIff(c, a, newSize);
    } else if newSize > a.blocks[p - DATA_OFFSET].size {
      GrowRightIff(c, a, p, newSize);
    }
  }

  lemma GrowRightIff(c: Config, a: Heap, p: nat, newSize: nat)
    requires Inv(c, a) && IsLive(a, p) && a.blocks[p - DATA_OFFSET].size < newSize < UINT32
    ensures Checked(c, a, newSize) ==> Realloc32(c, a, p, newSize) == HeapModel.Realloc(c, a, p, newSize)
    ensures !Checked(c, a, newSize) ==> !Inv(c, Realloc32(c, a, p, newSize).0)
  {
    if Checked(c, a, newSize) {
      CheckedRight(c, a, newSize);
    } else {
      GrowWrong(c, a, p, newSize);
    }
  }

  /** Releasing the old block leaves the new one where it is. */
  lemma GrowWrong(c: Config, a: Heap, p: nat, newSize: nat)
    requires Inv(c, a) && IsLive(a, p) && a.blocks[p - DATA_OFFSET].size < newSize < UINT32
    requires !Checked(c, a, newSize)
    ensures !Inv(c, Realloc32(c, a, p, newSize).0)
  {
    FalseFit(c, a, newSize);
    Malloc32Keeps(c, a, newSize, p);
    var a1 := Malloc32(c, a, newSize).0;
    assert Realloc32(c, a, p, newSize).0 == Release(c, a1, p);
    BlockBehind(c, Release(c, a1, p), a.next);
  }

  /** The heap after a run of the 32-bit code from power-up; it ends where the heap breaks. */
  ghost function Run32(c: Config, ops: seq<Op>): Heap
    requires GoodConfig(c)
  {
    if ops == [] then Empty(c)
    else
      var a := Run32(c, ops[..|ops| - 1]);
      if Inv(c, a) then Step32(c, a, ops[|ops| - 1]) else a
  }

  /** No operation of the run reaches a misled limit check. */
  ghost predicate AllChecked(c: Config, ops: seq<Op>)
    requires GoodConfig(c)
  {
    ops == [] ||
    (AllChecked(c, ops[..|ops| - 1]) && CheckedStep(c, Run(c, ops[..|ops| - 1]), ops[|ops| - 1]))
  }

  /**
   Over every run from power-up the 32-bit code keeps the heap intact if and only if no operation
   reached a misled limit check; and then its heap is the one of the model.
   */
  lemma {:induction false} RunRightIff(c: Config, ops: seq<Op>)
    requires GoodConfig(c) && forall m | 0 <= m < |ops| :: Sizes32(ops[m])
    ensures Inv(c, Run32(c, ops)) <==> AllChecked(c, ops)
    ensures AllChecked(c, ops) ==> Run32(c, ops) == Run(c, ops)
  {
    if ops == [] {
      EmptyInv(c);
    } else {
      var init, op := ops[..|ops| - 1], ops[|ops| - 1];
      RunRightIff(c, init);
      if AllChecked(c, init) {
        StepRightIff(c, Run(c, init), op);
      }
    }
  }
}
