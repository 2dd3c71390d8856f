/**
 lib-configstore/include/configstore.h as a class: the static members are its fields, each method is
 proved to take the step of ConfigStoreModel, and the flash device behind it is free to do anything
 NOR flash may do.
 */
module ConfigStoreClass {
  import opened ConfigStoreModel
  import opened NorFlash

  /** memset of a field and memcpy over it leave the padded text in it. */
  lemma PaddedSplice(b: seq<bv8>, at: nat, n: nat, src: seq<bv8>, length: nat)
    requires at + n <= |b| && length == if |src| > n then n else |src|
    ensures Splice(Splice(b, at, Zeros(n)), at, src[..length]) == Splice(b, at, Padded(src, n))
  {
  }

  class ConfigStore {
    const l: Layout
    const device: NorDevice
    const haveDevice: bool
    const store: array<bv8>
    var state: State
    var timerId: int

    ghost predicate Valid()
      reads this, store, device, device.flash
    {
      && store != device.flash
      && Shape(l, Model()) && InSync(l, Model())
    }

    ghost function Model(): System
      reads this, store, device, device.flash
    {
      System(store[..], device.flash[..], state, timerId, haveDevice)
    }

    constructor (l: Layout, device: NorDevice, detected: bool, handle: int)
      requires 6 <= l.used <= STORE_SIZE
      requires detected ==> l.start + STORE_SIZE <= device.flash.Length
      ensures Valid() && fresh(store)
      ensures this.l == l && this.device == device
      ensures Model() == Boot(l, device.flash[..], detected, handle)
    {
      this.l := l;
      this.device := device;
      haveDevice := detected;
      store := new bv8[STORE_SIZE](_ => 0);
      state := Idle;
      timerId := TIMER_NONE;
      new;
      BootInSync(l, device.flash[..], detected, handle);
      Load(handle);
    }

    /** The part of the constructor that reads the device. */
    method Load(handle: int)
      requires 6 <= l.used <= STORE_SIZE
      requires haveDevice ==> l.start + STORE_SIZE <= device.flash.Length
      requires store.Length == STORE_SIZE && store != device.flash && state == Idle && timerId == TIMER_NONE
      requires forall i | 0 <= i < STORE_SIZE :: store[i] == 0
      modifies `state, `timerId, store
      ensures Model() == Boot(l, device.flash[..], haveDevice, handle)
    {
      assert store[..] == Zeros(STORE_SIZE);
      if haveDevice {
        CopyIn(0, device.flash[l.start..l.start + STORE_SIZE]);
        if !IsValid(store[..]) {
          InstallDefaults();
          MarkChanged(handle);
        }
      }
    }

    method InstallDefaults()
      requires store.Length == STORE_SIZE
      modifies store
      ensures store[..] == Defaults()
    {
      CopyIn(0, Zeros(STORE_SIZE));
      CopyIn(0, MAGIC);
      CopyIn(|MAGIC|, VERSION);
    }

    /** SetStatusChanged and TimerStart; `handle` is what SoftwareTimerAdd answers if asked. */
    method MarkChanged(handle: int)
      modifies `state, `timerId
      ensures Model() == SetStatusChanged(old(Model()), handle)
    {
      state := Changed;
      if timerId == TIMER_NONE {
        timerId := handle;
      }
    }

    /** memcpy into the store. */
    method CopyIn(at: nat, v: seq<bv8>)
      requires at + |v| <= store.Length
      modifies store
      ensures store[..] == Splice(old(store[..]), at, v)
      ensures forall i | 0 <= i < store.Length && !(at <= i < at + |v|) :: store[i] == old(store[i])
    {
      forall i | at <= i < at + |v| {
        store[i] := v[i - at];
      }
    }

    method Update(at: nat, v: seq<bv8>, handle: int)
      requires Valid()
      requires at + |v| <= l.used
      modifies `state, `timerId, store
      ensures Valid()
      ensures Model() == ConfigStoreModel.Update(old(Model()), at, v, handle)
      ensures store[at..at + |v|] == v
      ensures forall i | 0 <= i < store.Length && !(at <= i < at + |v|) :: store[i] == old(store[i])
    {
      if store[at..at + |v|] != v {
        CopyIn(at, v);
        MarkChanged(handle);
      }
    }

    method UpdateArray(at: nat, n: nat, src: seq<bv8>, handle: int)
      requires Valid()
      requires at + n <= l.used
      modifies `state, `timerId, store
      ensures Valid()
      ensures Model() == ConfigStoreModel.UpdateArray(old(Model()), at, n, src, handle)
      ensures forall i | 0 <= i < store.Length && !(at <= i < at + n) :: store[i] == old(store[i])
    {
      var length := |src|;
      if length > n {
        length := n;
      }
      if store[at..at + length] != src[..length] {
        CopyIn(at, Zeros(n));
        CopyIn(at, src[..length]);
        PaddedSplice(old(store[..]), at, n, src, length);
        MarkChanged(handle);
      }
    }

    method Reset(handle: int)
      requires Valid()
      modifies `state, `timerId, store
      ensures Valid()
      ensures Model() == ConfigStoreModel.Reset(old(Model()), handle)
      ensures forall i | 0 <= i < store.Length :: store[i] == 0
    {
      CopyIn(0, Zeros(STORE_SIZE));
      assert store[..] == Zeros(STORE_SIZE);
      MarkChanged(handle);
    }

    /** One commit step; `o` records what the device did, if it was called. */
    method Flash() returns (more: bool, ghost o: Outcome)
      requires Valid()
      modifies `state, device`work, device.flash
      ensures Valid()
      ensures Possible(l, old(Model()), o)
      ensures (Model(), more) == ConfigStoreModel.Flash(old(Model()), o)
      ensures more && Rank(state) == Rank(old(state)) ==> device.work < old(device.work)
    {
      ghost var s := Model();
      o := Outcome(device.flash[..], false);
      if state == Idle || !haveDevice {
        return false, o;
      }
      more := true;
      match state {
        case Changed => state := ChangedWaiting;
        case ChangedWaiting => state := Erasing;
        case Erasing =>
          var done := device.Erase(l.start, STORE_SIZE);
          o := Outcome(device.flash[..], done);
          if done {
            state := ErasedWaiting;
          }
        case ErasedWaiting => state := Erased;
        case Erased => state := Writing;
        case Writing =>
          var done := device.Write(l.start, store[..l.used]);
          o := Outcome(device.flash[..], done);
          if done {
            state := Idle;
            more := false;
          }
      }
      FlashInSync(l, s, o);
    }

    /** The callback of the software timer; deleting the timer resets the handle. */
    method Timer() returns (ghost o: Outcome)
      requires Valid()
      modifies `state, `timerId, device`work, device.flash
      ensures Valid()
      ensures Possible(l, old(Model()), o)
      ensures Model() == Tick(old(Model()), o)
    {
      var more;
      more, o := Flash();
      if !more && timerId != TIMER_NONE {
        timerId := TIMER_NONE;
      }
    }

    /** ConfigstoreCommit: with a device it returns only when flash and RAM agree. */
    method CommitAll()
      requires Valid()
      modifies `state, device`work, device.flash
      ensures Valid()
      ensures store[..] == old(store[..]) && timerId == old(timerId)
      ensures haveDevice ==> state == Idle && device.flash[l.start..l.start + l.used] == store[..l.used]
      ensures haveDevice ==> SameAround(old(device.flash[..]), device.flash[..], l.start, STORE_SIZE)
      ensures !haveDevice ==> Model() == old(Model())
    {
      ghost var s0 := Model();
      var more, o := Flash();
      FlashInSync(l, s0, o);
      while more
        invariant Valid()
        invariant more ==> haveDevice
        invariant haveDevice && !more ==> state == Idle
        invariant !haveDevice ==> Model() == s0
        invariant haveDevice ==> SameAround(s0.flash, device.flash[..], l.start, STORE_SIZE)
        decreases more, Rank(state), device.work
      {
        ghost var s := Model();
        more, o := Flash();
        FlashInSync(l, s, o);
        FlashProgress(s, o);
      }
    }
  }
}
