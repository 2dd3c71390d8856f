/**
 The commit machine of lib-configstore/include/configstore.h as a transition system: a RAM image,
 a NOR flash that an erase sets to ones and a write can only clear, and the seven states that carry
 one into the other while updates keep arriving.
 */
module ConfigStoreModel {
  import opened NorFlash

  /** kStoreSize: bytes of the RAM image and of the erased flash region. */
  const STORE_SIZE := 4096
  const MAGIC: seq<bv8> := [0x41, 0x76, 0x56, 0x00]
  const VERSION: seq<bv8> := [0x00, 0x01]
  const TIMER_NONE := -1

  /** `start` is s_start_address, `used` is sizeof(ConfigurationStore). */
  datatype Layout = Layout(start: nat, used: nat)

  datatype State = Idle | Changed | ChangedWaiting | Erasing | Erased | ErasedWaiting | Writing

  datatype System = System(store: seq<bv8>, flash: seq<bv8>, state: State, timer: int, haveDevice: bool)

  // ---------- steps ----------

  ghost predicate Shape(l: Layout, s: System) {
    && |MAGIC| + |VERSION| <= l.used <= STORE_SIZE
    && |s.store| == STORE_SIZE
    && (s.haveDevice ==> l.start + STORE_SIZE <= |s.flash|)
  }

  /** The outcomes the device may have when Flash is called now. */
  ghost predicate Possible(l: Layout, s: System, o: Outcome)
    requires Shape(l, s)
  {
    match s.state
    case Erasing => s.haveDevice ==> EraseCall(s.flash, l.start, STORE_SIZE, o)
    case Writing => s.haveDevice ==> WriteCall(s.flash, l.start, s.store[..l.used], o)
    case _ => true
  }

  /** Flash, which is also Commit. */
  function Flash(s: System, o: Outcome): (System, bool) {
    if s.state == Idle || !s.haveDevice then (s, false)
    else
      match s.state
      case Changed => (s.(state := ChangedWaiting), true)
      case ChangedWaiting => (s.(state := Erasing), true)
      case Erasing => (s.(flash := o.flash, state := if o.done then ErasedWaiting else Erasing), true)
      case ErasedWaiting => (s.(state := Erased), true)
      case Erased => (s.(state := Writing), true)
      case Writing => (s.(flash := o.flash, state := if o.done then Idle else Writing), !o.done)
      case Idle => (s, false)
  }

  /** SetStatusChanged with the answer SoftwareTimerAdd gives if it is asked. */
  function SetStatusChanged(s: System, handle: int): System {
    s.(state := Changed, timer := if s.timer != TIMER_NONE then s.timer else handle)
  }

  /** The timer callback: one commit step, and the timer is given up when there is nothing left. */
  function Tick(s: System, o: Outcome): System {
    var (s', more) := Flash(s, o);
    if more then s' else s'.(timer := TIMER_NONE)
  }

  function Splice(b: seq<bv8>, at: nat, v: seq<bv8>): (r: seq<bv8>)
    requires at + |v| <= |b|
    ensures |r| == |b|
  {
    b[..at] + v + b[at + |v|..]
  }

  /** Update and Store: a member is overwritten only if it differs. */
  function Update(s: System, at: nat, v: seq<bv8>, handle: int): System
    requires at + |v| <= |s.store|
  {
    if s.store[at..at + |v|] == v then s
    else SetStatusChanged(s.(store := Splice(s.store, at, v)), handle)
  }

  function Zeros(n: nat): (r: seq<bv8>)
    ensures |r| == n && forall i | 0 <= i < n :: r[i] == 0
  {
    seq(n, _ => 0)
  }

  /** What a field of n bytes holds after an array of bytes was stored in it. */
  function Padded(src: seq<bv8>, n: nat): (r: seq<bv8>)
    ensures |r| == n
  {
    if |src| >= n then src[..n] else src + Zeros(n - |src|)
  }

  /** UpdateArray: only the first bytes are compared; a difference rewrites the whole field. */
  function UpdateArray(s: System, at: nat, n: nat, src: seq<bv8>, handle: int): System
    requires at + n <= |s.store|
  {
    var length := if |src| > n then n else |src|;
    if s.store[at..at + length] == src[..length] then s
    else SetStatusChanged(s.(store := Splice(s.store, at, Padded(src, n))), handle)
  }

  function Reset(s: System, handle: int): System {
    SetStatusChanged(s.(store := Zeros(STORE_SIZE)), handle)
  }

  predicate IsValid(store: seq<bv8>) {
    |store| >= 6 && store[..4] == MAGIC && store[4..6] == VERSION
  }

  function Defaults(): (r: seq<bv8>)
    ensures |r| == STORE_SIZE && IsValid(r)
  {
    MAGIC + VERSION + Zeros(STORE_SIZE - 6)
  }

  /** The constructor on a device with this content. */
  function Boot(l: Layout, flash: seq<bv8>, haveDevice: bool, handle: int): System
    requires haveDevice ==> l.start + STORE_SIZE <= |flash|
  {
    var s := System(Zeros(STORE_SIZE), flash, Idle, TIMER_NONE, haveDevice);
    if !haveDevice then s
    else
      var store := flash[l.start..l.start + STORE_SIZE];
      if IsValid(store) then s.(store := store) else SetStatusChanged(s.(store := Defaults()), handle)
  }

  // ---------- what every step keeps ----------

  /** Idle means flash and RAM agree; the later states mean the flash is ready for the write. */
  ghost predicate InSync(l: Layout, s: System)
    requires Shape(l, s)
  {
    s.haveDevice ==>
      match s.state
      case Idle => s.flash[l.start..l.start + l.used] == s.store[..l.used]
      case ErasedWaiting => Blank(s.flash, l.start, STORE_SIZE)
      case Erased => Blank(s.flash, l.start, STORE_SIZE)
      case Writing => forall i | 0 <= i < l.used :: HasBits(s.flash[l.start + i], s.store[i])
      case _ => true
  }

  /** Work left to commit always has a timer to drive it. */
  predicate Armed(s: System) {
    s.haveDevice && s.state != Idle ==> s.timer != TIMER_NONE
  }

  lemma BootInSync(l: Layout, flash: seq<bv8>, haveDevice: bool, handle: int)
    requires 6 <= l.used <= STORE_SIZE
    requires haveDevice ==> l.start + STORE_SIZE <= |flash|
    ensures var s := Boot(l, flash, haveDevice, handle); Shape(l, s) && InSync(l, s)
    ensures handle != TIMER_NONE ==> Armed(Boot(l, flash, haveDevice, handle))
  {
  }

  lemma MaskedBits(big: bv8, mid: bv8, small: bv8)
    requires HasBits(big, small) && HasBits(mid, big & small)
    ensures HasBits(mid, small) && (mid == big & small ==> mid == small)
  {
  }

  lemma WriteKeepsByte(l: Layout, s: System, o: Outcome, i: nat)
    requires Shape(l, s) && InSync(l, s) && s.haveDevice && s.state == Writing
    requires Possible(l, s, o) && i < l.used
    ensures HasBits(o.flash[l.start + i], s.store[i]) && (o.done ==> o.flash[l.start + i] == s.store[i])
  {
    var k := l.start + i;
    assert s.store[..l.used][k - l.start] == s.store[i];
    MaskedBits(s.flash[k], o.flash[k], s.store[i]);
  }

  lemma WriteKeepsBits(l: Layout, s: System, o: Outcome)
    requires Shape(l, s) && InSync(l, s) && s.haveDevice && s.state == Writing
    requires Possible(l, s, o)
    ensures forall i | 0 <= i < l.used ::
              HasBits(o.flash[l.start + i], s.store[i]) && (o.done ==> o.flash[l.start + i] == s.store[i])
  {
    forall i | 0 <= i < l.used
      ensures HasBits(o.flash[l.start + i], s.store[i]) && (o.done ==> o.flash[l.start + i] == s.store[i])
    {
      WriteKeepsByte(l, s, o, i);
    }
  }

  lemma FlashInSync(l: Layout, s: System, o: Outcome)
    requires Shape(l, s) && InSync(l, s)
    requires Possible(l, s, o)
    ensures Shape(l, Flash(s, o).0) && InSync(l, Flash(s, o).0)
    ensures s.haveDevice ==> SameAround(s.flash, Flash(s, o).0.flash, l.start, STORE_SIZE)
  {
    if s.haveDevice && s.state == Writing {
      WriteKeepsBits(l, s, o);
    } else if s.haveDevice && s.state == Erased {
      forall i | 0 <= i < l.used ensures HasBits(s.flash[l.start + i], s.store[i]) {
        OnesHaveAllBits(s.store[i]);
      }
    }
  }

  // ---------- runs ----------

  datatype Event =
    | OnTimer(outcome: Outcome)
    | OnCommit(outcome: Outcome)
    | OnUpdate(at: nat, value: seq<bv8>, handle: int)
    | OnUpdateArray(at: nat, size: nat, src: seq<bv8>, handle: int)
    | OnReset(handle: int)

  /** Updates stay inside the store, the timer fires only while it is armed, the device obeys NOR rules. */
  ghost predicate Enabled(l: Layout, s: System, e: Event)
    requires Shape(l, s)
  {
    match e
    case OnTimer(o) => s.timer != TIMER_NONE && Possible(l, s, o)
    case OnCommit(o) => Possible(l, s, o)
    case OnUpdate(at, v, _) => at + |v| <= l.used
    case OnUpdateArray(at, n, _, _) => at + n <= l.used
    case OnReset(_) => true
  }

  ghost function Step(l: Layout, s: System, e: Event): System
    requires Shape(l, s) && Enabled(l, s, e)
  {
    match e
    case OnTimer(o) => Tick(s, o)
    case OnCommit(o) => Flash(s, o).0
    case OnUpdate(at, v, handle) => Update(s, at, v, handle)
    case OnUpdateArray(at, n, src, handle) => UpdateArray(s, at, n, src, handle)
    case OnReset(handle) => Reset(s, handle)
  }

  /** SoftwareTimerAdd finds a slot whenever this event asks for one. */
  predicate TimerGranted(e: Event) {
    match e
    case OnUpdate(_, _, handle) => handle != TIMER_NONE
    case OnUpdateArray(_, _, _, handle) => handle != TIMER_NONE
    case OnReset(handle) => handle != TIMER_NONE
    case _ => true
  }

  lemma StepInSync(l: Layout, s: System, e: Event)
    requires Shape(l, s) && InSync(l, s) && Enabled(l, s, e)
    ensures Shape(l, Step(l, s, e)) && InSync(l, Step(l, s, e))
    ensures s.haveDevice ==> SameAround(s.flash, Step(l, s, e).flash, l.start, STORE_SIZE)
    ensures Step(l, s, e).haveDevice == s.haveDevice
    ensures Armed(s) && TimerGranted(e) ==> Armed(Step(l, s, e))
  {
    match e
    case OnTimer(o) => FlashInSync(l, s, o);
    case OnCommit(o) => FlashInSync(l, s, o);
    case _ =>
  }

  /** A run: s[0] is the state after boot, and every later state follows by an enabled event. */
  ghost predicate IsRun(l: Layout, es: seq<Event>, ss: seq<System>) {
    && |ss| == |es| + 1
    && (forall i | 0 <= i < |ss| :: Shape(l, ss[i]))
    && (forall i | 0 <= i < |es| :: Enabled(l, ss[i], es[i]) && ss[i + 1] == Step(l, ss[i], es[i]))
  }

  /**
   Over every run from boot, with updates between any two steps of a partial erase or write: the
   flash content fits the state, nothing outside the store's region changes, and as long as timers
   are granted no change is left without one.
   */
  lemma {:induction false} RunInSync(l: Layout, flash: seq<bv8>, haveDevice: bool, handle: int,
                                     es: seq<Event>, ss: seq<System>)
    requires 6 <= l.used <= STORE_SIZE
    requires haveDevice ==> l.start + STORE_SIZE <= |flash|
    requires IsRun(l, es, ss) && ss[0] == Boot(l, flash, haveDevice, handle)
    ensures InSync(l, ss[|es|])
    ensures ss[|es|].haveDevice == haveDevice
    ensures haveDevice ==> SameAround(flash, ss[|es|].flash, l.start, STORE_SIZE)
    ensures handle != TIMER_NONE && (forall e | e in es :: TimerGranted(e)) ==> Armed(ss[|es|])
  {
    BootInSync(l, flash, haveDevice, handle);
    if es != [] {
      var n := |es| - 1;
      RunInSync(l, flash, haveDevice, handle, es[..n], ss[..n + 1]);
      assert ss[..n + 1][n] == ss[n];
      StepInSync(l, ss[n], es[n]);
    }
  }

  // ---------- when a change is stranded ----------

  /** The event marks the store as changed. */
  predicate Changes(s: System, e: Event) {
    match e
    case OnTimer(_) => false
    case OnCommit(_) => false
    case OnUpdate(at, v, _) => at + |v| <= |s.store| && s.store[at..at + |v|] != v
    case OnUpdateArray(at, n, src, _) =>
      var length := if |src| > n then n else |src|;
      at + n <= |s.store| && s.store[at..at + length] != src[..length]
    case OnReset(_) => true
  }

  /** What SoftwareTimerAdd answers to this event, if it asks. */
  function Answer(e: Event): int {
    match e
    case OnUpdate(_, _, handle) => handle
    case OnUpdateArray(_, _, _, handle) => handle
    case OnReset(handle) => handle
    case _ => TIMER_NONE
  }

  /** The timer the latest change of a run found or was given; the boot counts as the first change. */
  function LatestTimer(handle: int, es: seq<Event>, ss: seq<System>): int
    requires |ss| == |es| + 1
  {
    if es == [] then handle
    else
      var n := |es| - 1;
      if !Changes(ss[n], es[n]) then LatestTimer(handle, es[..n], ss[..n + 1])
      else if ss[n].timer != TIMER_NONE then ss[n].timer
      else Answer(es[n])
  }

  /** A change finds the armed timer or takes the answer; anything else keeps the timer while work is left. */
  lemma TimerAfterStep(l: Layout, s: System, e: Event)
    requires Shape(l, s) && Enabled(l, s, e) && s.haveDevice
    ensures var s' := Step(l, s, e);
            if Changes(s, e) then s'.timer == if s.timer != TIMER_NONE then s.timer else Answer(e)
            else s'.state != Idle ==> s.state != Idle && s'.timer == s.timer
  {
  }

  /** While a change is not in the flash, the timer is the one its latest change found or was given. */
  lemma {:induction false} TimerOverRun(l: Layout, flash: seq<bv8>, handle: int, es: seq<Event>, ss: seq<System>)
    requires 6 <= l.used <= STORE_SIZE && l.start + STORE_SIZE <= |flash|
    requires IsRun(l, es, ss) && ss[0] == Boot(l, flash, true, handle)
    ensures ss[|es|].haveDevice
    ensures ss[|es|].state != Idle ==> ss[|es|].timer == LatestTimer(handle, es, ss)
  {
    if es != [] {
      var n := |es| - 1;
      TimerOverRun(l, flash, handle, es[..n], ss[..n + 1]);
      assert ss[..n + 1][n] == ss[n];
      TimerAfterStep(l, ss[n], es[n]);
      DeviceKept(l, ss[n], es[n]);
    }
  }

  lemma DeviceKept(l: Layout, s: System, e: Event)
    requires Shape(l, s) && Enabled(l, s, e)
    ensures Step(l, s, e).haveDevice == s.haveDevice
  {
  }

  /**
   Over every run from boot a change waits without a timer exactly when its latest change found none
   armed and was given none.
   */
  lemma StrandedIff(l: Layout, flash: seq<bv8>, handle: int, es: seq<Event>, ss: seq<System>)
    requires 6 <= l.used <= STORE_SIZE && l.start + STORE_SIZE <= |flash|
    requires IsRun(l, es, ss) && ss[0] == Boot(l, flash, true, handle)
    ensures !Armed(ss[|es|]) <==> ss[|es|].state != Idle && LatestTimer(handle, es, ss) == TIMER_NONE
  {
    TimerOverRun(l, flash, handle, es, ss);
  }

  /** A reset whose timer is refused: the change waits, and no timer event can come to commit it. */
  lemma StrandedRun(l: Layout, flash: seq<bv8>, handle: int) returns (es: seq<Event>, ss: seq<System>)
    requires 6 <= l.used <= STORE_SIZE && l.start + STORE_SIZE <= |flash|
    requires IsValid(flash[l.start..l.start + STORE_SIZE])
    ensures IsRun(l, es, ss) && ss[0] == Boot(l, flash, true, handle)
    ensures !Armed(ss[|es|]) && forall o :: !Enabled(l, ss[|es|], OnTimer(o))
  {
    es := [OnReset(TIMER_NONE)];
    var s := Boot(l, flash, true, handle);
    ss := [s, Step(l, s, es[0])];
  }

  // ---------- reaching the flash ----------

  /** Distance of a state from kIdle. */
  function Rank(state: State): nat {
    match state
    case Idle => 0
    case Writing => 1
    case Erased => 2
    case ErasedWaiting => 3
    case Erasing => 4
    case ChangedWaiting => 5
    case Changed => 6
  }

  function Incomplete(os: seq<Outcome>): (n: nat)
    ensures n <= |os|
  {
    if os == [] then 0 else (if os[0].done then 0 else 1) + Incomplete(os[1..])
  }

  function Commits(s: System, os: seq<Outcome>): System
    decreases os
  {
    if os == [] then s else Commits(Flash(s, os[0]).0, os[1..])
  }

  /** Each call brings the state one rank nearer or is a device call still at work. */
  lemma FlashProgress(s: System, o: Outcome)
    requires s.haveDevice
    ensures var (s', more) := Flash(s, o);
            && (more <==> s'.state != Idle) && s'.store == s.store && s'.haveDevice
            && (Rank(s.state) > 0 ==>
                  Rank(s'.state) == Rank(s.state) - 1 || (Rank(s'.state) == Rank(s.state) && !o.done))
  {
  }

  /**
   With no update in between, the state is kIdle after as many completed calls as its rank, however
   many unfinished device calls lie between them.
   */
  lemma {:induction false} CommitsReachIdle(s: System, os: seq<Outcome>)
    requires s.haveDevice
    requires |os| >= Rank(s.state) + Incomplete(os)
    ensures Commits(s, os).state == Idle
    ensures Commits(s, os).store == s.store
    decreases os
  {
    if os != [] {
      var s' := Flash(s, os[0]).0;
      FlashProgress(s, os[0]);
      CommitsReachIdle(s', os[1..]);
    }
  }

  /**
   Power cycle. From an idle state the next boot reads back the configuration that was in RAM, unless
   its magic number or version is gone (as after Reset); then the defaults are queued for writing.
   */
  lemma RebootRestores(l: Layout, s: System, handle: int)
    requires Shape(l, s) && InSync(l, s) && s.haveDevice && s.state == Idle
    ensures var b := Boot(l, s.flash, true, handle);
            if IsValid(s.store) then b.state == Idle && b.store[..l.used] == s.store[..l.used]
            else b.state == Changed && b.store == Defaults()
  {
    var store := s.flash[l.start..l.start + STORE_SIZE];
    assert s.flash[l.start..l.start + l.used] == s.store[..l.used];
    PrefixOfSlice(s.flash, l.start, l.used, STORE_SIZE);
    assert store[..4] == store[..l.used][..4] && store[4..6] == store[..l.used][4..6];
    assert s.store[..4] == s.store[..l.used][..4] && s.store[4..6] == s.store[..l.used][4..6];
  }

  lemma PrefixOfSlice(f: seq<bv8>, at: nat, k: nat, n: nat)
    requires k <= n && at + n <= |f|
    ensures f[at..at + n][..k] == f[at..at + k]
  {
  }

  // ---------- array fields ----------

  /** UpdateArray stores what it was given exactly when the compared bytes differ or the rest is already clear. */
  lemma ArrayStoredIff(s: System, at: nat, n: nat, src: seq<bv8>, handle: int)
    requires at + n <= |s.store|
    ensures var length := if |src| > n then n else |src|;
            UpdateArray(s, at, n, src, handle).store[at..at + n] == Padded(src, n) <==>
            s.store[at..at + length] != src[..length] || s.store[at + length..at + n] == Zeros(n - length)
  {
    var length := if |src| > n then n else |src|;
    var field := s.store[at..at + n];
    assert field == s.store[at..at + length] + s.store[at + length..at + n];
    assert Padded(src, n) == src[..length] + Zeros(n - length);
    if s.store[at..at + length] == src[..length] {
      assert field[length..] == s.store[at + length..at + n];
      assert Padded(src, n)[length..] == Zeros(n - length);
    }
  }

  /** Shortening "ab" to "a" is skipped: the old text survives and nothing is marked changed. */
  lemma ShorteningSkipped(s: System, handle: int)
    requires |s.store| >= 2 && s.store[0] == 0x61 && s.store[1] == 0x62
    ensures UpdateArray(s, 0, 2, [0x61], handle) == s
    ensures s.store[0..2] != Padded([0x61], 2)
  {
    assert s.store[0..1] == [0x61];
    assert Padded([0x61], 2)[1] == 0 && s.store[0..2][1] == 0x62;
  }
}
