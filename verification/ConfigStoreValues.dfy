/**
 What the setters of ConfigStoreModel leave in the RAM image, byte by byte, and what a member reads as
 later, up to and including the next power-up.
 */
module ConfigStoreValues {
  import opened ConfigStoreModel
  import opened NorFlash

  /** Only these bytes of the store may differ. */
  ghost predicate SameOutside(b: seq<bv8>, b': seq<bv8>, at: nat, n: nat) {
    |b'| == |b| && forall i | 0 <= i < |b| && !(at <= i < at + n) :: b'[i] == b[i]
  }

  /** The change is marked, and a timer asked for if there is none; the device is not involved. */
  ghost predicate Marked(s: System, s': System, handle: int) {
    && s'.state == Changed && s'.flash == s.flash && s'.haveDevice == s.haveDevice
    && (if s.timer != TIMER_NONE then s'.timer == s.timer else s'.timer == handle)
  }

  /** A setter stores its value and nothing else, and marks a change exactly if the bytes differed. */
  lemma UpdateStores(s: System, at: nat, v: seq<bv8>, handle: int)
    requires at + |v| <= |s.store|
    ensures var s' := Update(s, at, v, handle);
            && s'.store[at..at + |v|] == v && SameOutside(s.store, s'.store, at, |v|)
            && if s.store[at..at + |v|] == v then s' == s else Marked(s, s', handle)
  {
  }

  /** An array setter writes only its field: the bytes, cut to the field, and zeros, or nothing at all. */
  lemma UpdateArrayStores(s: System, at: nat, n: nat, src: seq<bv8>, handle: int)
    requires at + n <= |s.store|
    ensures var s', length := UpdateArray(s, at, n, src, handle), if |src| > n then n else |src|;
            && s'.store[at..at + length] == src[..length] && SameOutside(s.store, s'.store, at, n)
            && if s.store[at..at + length] == src[..length] then s' == s
               else Marked(s, s', handle) && forall i | at + length <= i < at + n :: s'.store[i] == 0
  {
    var length := if |src| > n then n else |src|;
    if s.store[at..at + length] != src[..length] {
      SplicePadded(s.store, at, n, src, length);
    }
  }

  lemma SplicePadded(b: seq<bv8>, at: nat, n: nat, src: seq<bv8>, length: nat)
    requires at + n <= |b| && length == if |src| > n then n else |src|
    ensures var b' := Splice(b, at, Padded(src, n));
            && b'[at..at + length] == src[..length] && SameOutside(b, b', at, n)
            && forall i | at + length <= i < at + n :: b'[i] == 0
  {
    var p := Padded(src, n);
    var b' := Splice(b, at, p);
    assert forall i | at <= i < at + n :: b'[i] == p[i - at];
    assert forall i | 0 <= i < length :: p[i] == src[i];
  }

  /** Reset leaves no byte, not even the magic number, and marks the change. */
  lemma ResetClears(s: System, handle: int)
    ensures var s' := Reset(s, handle);
            && Marked(s, s', handle) && |s'.store| == STORE_SIZE && forall i | 0 <= i < STORE_SIZE :: s'.store[i] == 0
  {
  }

  /** The content starts with "AvV", a NUL, and version 0.1. */
  ghost predicate Signed(b: seq<bv8>) {
    && |b| >= 6
    && b[0] == 0x41 && b[1] == 0x76 && b[2] == 0x56 && b[3] == 0 && b[4] == 0 && b[5] == 1
  }

  /**
   Power-up: without a device the store is empty; a signed content is taken over as it is; anything else
   is replaced by a signature and zeros, and marked as changed.
   */
  lemma BootReads(l: Layout, flash: seq<bv8>, haveDevice: bool, handle: int)
    requires haveDevice ==> l.start + STORE_SIZE <= |flash|
    ensures var s := Boot(l, flash, haveDevice, handle);
            && |s.store| == STORE_SIZE && s.flash == flash && s.haveDevice == haveDevice
            && (s.state == Changed <==> haveDevice && !Signed(flash[l.start..l.start + STORE_SIZE]))
            && (s.state != Changed ==> s.state == Idle && s.timer == TIMER_NONE)
            && if s.state == Changed then
                 s.timer == handle && Signed(s.store) && forall i | 6 <= i < STORE_SIZE :: s.store[i] == 0
               else forall i | 0 <= i < STORE_SIZE :: s.store[i] == if haveDevice then flash[l.start + i] else 0
  {
    if haveDevice {
      SignedIff(flash[l.start..l.start + STORE_SIZE]);
      SignedIff(Defaults());
    }
  }

  lemma SignedIff(b: seq<bv8>)
    ensures IsValid(b) <==> Signed(b)
  {
    if Signed(b) {
      assert b[..4] == MAGIC && b[4..6] == VERSION;
    }
    if IsValid(b) {
      assert b[0] == b[..4][0] && b[1] == b[..4][1] && b[2] == b[..4][2] && b[3] == b[..4][3];
      assert b[4] == b[4..6][0] && b[5] == b[4..6][1];
    }
  }

  // ---------- over runs ----------

  /** The event may change one of these bytes. */
  predicate Touches(e: Event, at: nat, n: nat) {
    match e
    case OnUpdate(at', v, _) => at' < at + n && at < at' + |v|
    case OnUpdateArray(at', n', _, _) => at' < at + n && at < at' + n'
    case OnReset(_) => true
    case _ => false
  }

  lemma UntouchedStays(l: Layout, s: System, e: Event, at: nat, n: nat)
    requires Shape(l, s) && Enabled(l, s, e) && !Touches(e, at, n) && at + n <= STORE_SIZE
    ensures |Step(l, s, e).store| == STORE_SIZE
    ensures Step(l, s, e).store[at..at + n] == s.store[at..at + n]
  {
    match e
    case OnUpdate(at', v, handle) =>
      UpdateStores(s, at', v, handle);
      DisjointStays(s.store, Step(l, s, e).store, at', |v|, at, n);
    case OnUpdateArray(at', n', src, handle) =>
      UpdateArrayStores(s, at', n', src, handle);
      DisjointStays(s.store, Step(l, s, e).store, at', n', at, n);
    case _ =>
  }

  lemma DisjointStays(b: seq<bv8>, b': seq<bv8>, at': nat, n': nat, at: nat, n: nat)
    requires SameOutside(b, b', at', n') && at + n <= |b| && (at + n <= at' || at' + n' <= at)
    ensures b'[at..at + n] == b[at..at + n]
  {
  }

  /** Event k sets these bytes, and no later event of the run touches them. */
  ghost predicate LatestUpdate(es: seq<Event>, k: nat, at: nat, v: seq<bv8>) {
    && k < |es| && es[k].OnUpdate? && es[k].at == at && es[k].value == v
    && forall m | k < m < |es| :: !Touches(es[m], at, |v|)
  }

  /** Over every run a member reads as its latest update, until another update or a reset touches it. */
  lemma {:induction false} ReadsLatest(l: Layout, es: seq<Event>, ss: seq<System>, k: nat, at: nat, v: seq<bv8>)
    requires IsRun(l, es, ss) && LatestUpdate(es, k, at, v)
    ensures at + |v| <= l.used <= STORE_SIZE && ss[|es|].store[at..at + |v|] == v
  {
    var n := |es| - 1;
    assert Enabled(l, ss[k], es[k]) && Enabled(l, ss[n], es[n]);
    if k == n {
      UpdateStores(ss[n], at, v, es[n].handle);
    } else {
      assert ss[..n + 1][n] == ss[n];
      ReadsLatest(l, es[..n], ss[..n + 1], k, at, v);
      UntouchedStays(l, ss[n], es[n], at, |v|);
    }
  }

  /**
   And when the store has become idle, the value is in the flash, and the next power-up reads it, unless
   the signature is gone.
   */
  lemma LatestSurvives(l: Layout, flash: seq<bv8>, handle: int, es: seq<Event>, ss: seq<System>,
                       k: nat, at: nat, v: seq<bv8>, handle': int)
    requires 6 <= l.used <= STORE_SIZE && l.start + STORE_SIZE <= |flash|
    requires IsRun(l, es, ss) && ss[0] == Boot(l, flash, true, handle)
    requires LatestUpdate(es, k, at, v) && ss[|es|].state == Idle
    ensures at + |v| <= l.used && l.start + STORE_SIZE <= |ss[|es|].flash|
    ensures ss[|es|].flash[l.start + at..l.start + at + |v|] == v
    ensures Signed(ss[|es|].store) ==> Boot(l, ss[|es|].flash, true, handle').store[at..at + |v|] == v
  {
    var s := ss[|es|];
    RunInSync(l, flash, true, handle, es, ss);
    ReadsLatest(l, es, ss, k, at, v);
    InFlash(l, s, at, v);
    if Signed(s.store) {
      SignedIff(s.store);
      RebootRestores(l, s, handle');
      var b := Boot(l, s.flash, true, handle');
      assert b.store[at..at + |v|] == b.store[..l.used][at..at + |v|];
      assert s.store[at..at + |v|] == s.store[..l.used][at..at + |v|];
    }
  }

  lemma InFlash(l: Layout, s: System, at: nat, v: seq<bv8>)
    requires Shape(l, s) && s.haveDevice && s.flash[l.start..l.start + l.used] == s.store[..l.used]
    requires at + |v| <= l.used && s.store[at..at + |v|] == v
    ensures s.flash[l.start + at..l.start + at + |v|] == v
  {
    assert s.flash[l.start..l.start + l.used][at..at + |v|] == s.flash[l.start + at..l.start + at + |v|];
    assert s.store[..l.used][at..at + |v|] == s.store[at..at + |v|];
  }

  /** The timer is given up exactly when nothing is left to commit. */
  lemma TimerGivenUpIff(s: System, o: Outcome)
    requires s.timer != TIMER_NONE && s.haveDevice
    ensures Tick(s, o).timer == TIMER_NONE <==> Tick(s, o).state == Idle
    ensures Tick(s, o).timer != TIMER_NONE ==> Tick(s, o).timer == s.timer
  {
  }

  // ---------- without a device ----------

  /** There is nothing to commit to: no step, and the timer is given up at once. */
  lemma NothingCommitted(s: System, o: Outcome)
    requires !s.haveDevice
    ensures Flash(s, o) == (s, false) && Tick(s, o) == s.(timer := TIMER_NONE)
  {
  }

  /** Over every run without a device no flash is touched, and a change stays a change. */
  lemma {:induction false} FlashUntouched(l: Layout, flash: seq<bv8>, handle: int, es: seq<Event>, ss: seq<System>)
    requires 6 <= l.used <= STORE_SIZE
    requires IsRun(l, es, ss) && ss[0] == Boot(l, flash, false, handle)
    ensures var s := ss[|es|];
            !s.haveDevice && s.flash == flash && (s.state == Changed || s.state == Idle)
  {
    if es != [] {
      var n := |es| - 1;
      FlashUntouched(l, flash, handle, es[..n], ss[..n + 1]);
      assert ss[..n + 1][n] == ss[n];
      DeviceKept(l, ss[n], es[n]);
      EventWithoutDevice(l, ss[n], es[n]);
    }
  }

  lemma EventWithoutDevice(l: Layout, s: System, e: Event)
    requires Shape(l, s) && Enabled(l, s, e) && !s.haveDevice
    ensures var s' := Step(l, s, e); s'.flash == s.flash && (s'.state == s.state || s'.state == Changed)
  {
    match e
    case OnTimer(o) => NothingCommitted(s, o);
    case OnCommit(o) => NothingCommitted(s, o);
    case _ =>
  }
}
