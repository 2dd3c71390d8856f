/**
 How long a queued poll waits for its replies while others arrive: ArtNetNode::Run answers the entries
 of the queue in a circle, PollReplyQueueAdd fills the first free one.
 */
module PollFairness {
  import opened Numbers
  import opened PollModel

  function Next(i: nat): nat {
    if i + 1 == QUEUE_SIZE then 0 else i + 1
  }

  /** Entries the node passes on its way from entry i to entry k. */
  function Steps(i: nat, k: nat): nat {
    (k - i) % QUEUE_SIZE
  }

  /** Entry j comes before entry k, seen from entry i. */
  predicate Ahead(i: nat, j: nat, k: nat) {
    Steps(i, j) < Steps(i, k)
  }

  lemma StepNearer(i: nat, k: nat)
    requires i < QUEUE_SIZE && k < QUEUE_SIZE && i != k
    ensures Steps(Next(i), k) == Steps(i, k) - 1
  {
  }

  lemma AheadNext(i: nat, j: nat, k: nat)
    requires i < QUEUE_SIZE && j < QUEUE_SIZE && k < QUEUE_SIZE && i != k && j != k
    ensures Ahead(i, j, k) <==> j == i || Ahead(Next(i), j, k)
    ensures !Ahead(Next(i), i, k)
  {
  }

  // ---------- the calls an entry has to wait for ----------

  /** Calls of Run that an entry takes: its start, its replies and the step to the next entry. */
  function Cost(c: Setup, s: Slot): nat {
    if Occupied(s) then c.ports + 2 else 1
  }

  /** Calls of Run from the first one at entry i up to the last reply for entry k. */
  function Turns(c: Setup, queue: seq<Slot>, i: nat, k: nat): (r: nat)
    requires |queue| == QUEUE_SIZE && i < QUEUE_SIZE && k < QUEUE_SIZE
    ensures r > c.ports
    decreases Steps(i, k)
  {
    if i == k then c.ports + 1
    else
      StepNearer(i, k);
      Cost(c, queue[i]) + Turns(c, queue, Next(i), k)
  }

  /** Calls of Run that entry k has to wait for in state n, if no poll arrives. */
  function Work(c: Setup, n: Node, k: nat): int
    requires Sized(n) && k < QUEUE_SIZE
  {
    Turns(c, n.queue, n.index, k) - if n.running then 1 + n.port else 0
  }

  lemma {:induction false} TurnsUpdate(c: Setup, queue: seq<Slot>, j: nat, s: Slot, i: nat, k: nat)
    requires |queue| == QUEUE_SIZE && i < QUEUE_SIZE && j < QUEUE_SIZE && k < QUEUE_SIZE && j != k
    ensures Turns(c, queue[j := s], i, k) ==
            Turns(c, queue, i, k) + if Ahead(i, j, k) then Cost(c, s) - Cost(c, queue[j]) else 0
    decreases Steps(i, k)
  {
    if i != k {
      StepNearer(i, k);
      AheadNext(i, j, k);
      TurnsUpdate(c, queue, j, s, Next(i), k);
    }
  }

  /** A Run that only waits for the delay of the current entry. */
  predicate Waits(c: Setup, n: Node, now: nat)
    requires n.index < |n.queue|
  {
    var entry := n.queue[n.index];
    Occupied(entry) && !n.running && Elapsed(now, entry.millis) <= c.delay
  }

  /** A poll that is stored in a free entry ahead of entry k. */
  predicate Overtakes(n: Node, e: Event, k: nat) {
    e.Poll? && e.now != 0
    && var j := StopsAt(n.queue, e.from); j < |n.queue| && !Occupied(n.queue[j]) && Ahead(n.index, j, k)
  }

  lemma PollWork(c: Setup, n: Node, e: Event, k: nat)
    requires Inv(c, n) && e.Poll? && k < QUEUE_SIZE && Occupied(n.queue[k])
    ensures var n' := StepOf(c, n, e);
            n'.queue[k] == n.queue[k] && Work(c, n', k) == Work(c, n, k) + if Overtakes(n, e, k) then c.ports + 1 else 0
  {
    var j := StopsAt(n.queue, e.from);
    if j < |n.queue| && !Occupied(n.queue[j]) {
      TurnsUpdate(c, n.queue, j, Slot(e.now, e.from), n.index, k);
    }
  }

  /** Each call that does not wait takes one off, and the one that takes the last off answers entry k. */
  lemma RunWork(c: Setup, n: Node, now: nat, k: nat)
    requires Inv(c, n) && k < QUEUE_SIZE && Occupied(n.queue[k]) && !Waits(c, n, now)
    ensures var n' := Run(c, n, now);
            if Work(c, n, k) == 1 then !Occupied(n'.queue[k]) && n'.served == n.served + [n.queue[k]]
            else n'.queue[k] == n.queue[k] && Work(c, n', k) == Work(c, n, k) - 1
  {
    if !Occupied(n.queue[n.index]) {
      StepNearer(n.index, k);
    } else if n.running && n.port + 1 == c.ports {
      LastReplyWork(c, n, now, k);
    }
  }

  lemma LastReplyWork(c: Setup, n: Node, now: nat, k: nat)
    requires Inv(c, n) && k < QUEUE_SIZE && Occupied(n.queue[k]) && n.running && n.port + 1 == c.ports
    ensures var n' := Run(c, n, now);
            if Work(c, n, k) == 1 then !Occupied(n'.queue[k]) && n'.served == n.served + [n.queue[k]]
            else n'.queue[k] == n.queue[k] && Work(c, n', k) == Work(c, n, k) - 1
  {
    var i := n.index;
    if i != k {
      StepNearer(i, k);
      AheadNext(i, i, k);
      TurnsUpdate(c, n.queue, i, n.queue[i].(millis := 0), i, k);
    }
  }

  lemma WorkPositive(c: Setup, n: Node, k: nat)
    requires Inv(c, n) && k < QUEUE_SIZE
    ensures Work(c, n, k) >= 1
  {
  }

  // ---------- over every run ----------

  lemma NodeStep(c: Setup, es: seq<Event>, ns: seq<Node>, m: nat)
    requires IsRun(c, es, ns) && m < |es|
    ensures Inv(c, ns[m]) && ns[m + 1] == StepOf(c, ns[m], es[m])
  {
    assert Follows(c, es, ns, m);
  }

  /** Event m is a call of Run that does not wait. */
  ghost predicate Acts(c: Setup, es: seq<Event>, ns: seq<Node>, m: nat)
    requires IsRun(c, es, ns) && m < |es|
  {
    es[m].Tick? && !Waits(c, ns[m], es[m].now)
  }

  /** How many of the events m0 to m1 - 1 are such calls. */
  ghost function Acting(c: Setup, es: seq<Event>, ns: seq<Node>, m0: nat, m1: nat): nat
    requires IsRun(c, es, ns) && m0 <= m1 <= |es|
    decreases m1
  {
    if m0 == m1 then 0 else Acting(c, es, ns, m0, m1 - 1) + if Acts(c, es, ns, m1 - 1) then 1 else 0
  }

  /** How many of them are polls stored ahead of entry k. */
  ghost function Overtaking(es: seq<Event>, ns: seq<Node>, m0: nat, m1: nat, k: nat): nat
    requires |es| < |ns| && m0 <= m1 <= |es|
    decreases m1
  {
    if m0 == m1 then 0
    else Overtaking(es, ns, m0, m1 - 1, k) + if Overtakes(ns[m1 - 1], es[m1 - 1], k) then 1 else 0
  }

  /** From before event m0 to before event m1 the poll s waits in entry k. */
  ghost predicate WaitsIn(ns: seq<Node>, m0: nat, m1: nat, k: nat, s: Slot) {
    k < QUEUE_SIZE && Occupied(s) && m0 <= m1 < |ns| && forall m | m0 <= m <= m1 :: Holds(ns[m], k, s)
  }

  /** The calls it still has to wait for: those at first and ports + 1 for each poll ahead of it, less those made. */
  lemma {:induction false} WorkOverRun(c: Setup, es: seq<Event>, ns: seq<Node>, m0: nat, m1: nat, k: nat, s: Slot)
    requires IsRun(c, es, ns) && WaitsIn(ns, m0, m1, k, s)
    ensures Work(c, ns[m1], k) ==
            Work(c, ns[m0], k) + (c.ports + 1) * Overtaking(es, ns, m0, m1, k) - Acting(c, es, ns, m0, m1)
    decreases m1
  {
    if m0 < m1 {
      WorkOverRun(c, es, ns, m0, m1 - 1, k, s);
      WorkOfEvent(c, es, ns, m1 - 1, k, s);
      OneMore(c.ports + 1, Overtaking(es, ns, m0, m1 - 1, k));
    }
  }

  lemma OneMore(a: nat, b: nat)
    ensures a * (b + 1) == a * b + a
  {
  }

  lemma WorkOfEvent(c: Setup, es: seq<Event>, ns: seq<Node>, m: nat, k: nat, s: Slot)
    requires IsRun(c, es, ns) && m < |es| && WaitsIn(ns, m, m + 1, k, s)
    ensures Work(c, ns[m + 1], k) ==
            Work(c, ns[m], k) + (if Overtakes(ns[m], es[m], k) then c.ports + 1 else 0)
            - if Acts(c, es, ns, m) then 1 else 0
  {
    AnsweredByEvent(c, es, ns, m, k, s);
    assert Holds(ns[m + 1], k, s);
  }

  /**
   A waiting poll is answered by event m1 if and only if that is the last of the calls it had to wait
   for: those at first, and ports + 1 for each poll that was stored ahead of it since.
   */
  lemma AnsweredIff(c: Setup, es: seq<Event>, ns: seq<Node>, m0: nat, m1: nat, k: nat, s: Slot)
    requires IsRun(c, es, ns) && WaitsIn(ns, m0, m1, k, s) && m1 < |es|
    ensures !Holds(ns[m1 + 1], k, s) <==>
            Acting(c, es, ns, m0, m1 + 1) ==
            Work(c, ns[m0], k) + (c.ports + 1) * Overtaking(es, ns, m0, m1 + 1, k)
    ensures !Holds(ns[m1 + 1], k, s) ==> ns[m1 + 1].served == ns[m1].served + [s]
  {
    WorkOverRun(c, es, ns, m0, m1, k, s);
    AnsweredByEvent(c, es, ns, m1, k, s);
    OneMore(c.ports + 1, Overtaking(es, ns, m0, m1, k));
  }

  /** One event either answers the poll, with the last call it had to wait for, or leaves it where it is. */
  lemma AnsweredByEvent(c: Setup, es: seq<Event>, ns: seq<Node>, m: nat, k: nat, s: Slot)
    requires IsRun(c, es, ns) && m < |es| && k < QUEUE_SIZE && Occupied(s) && Holds(ns[m], k, s)
    ensures Work(c, ns[m], k) >= 1
    ensures if Acts(c, es, ns, m) && Work(c, ns[m], k) == 1 then
              !Holds(ns[m + 1], k, s) && ns[m + 1].served == ns[m].served + [s]
            else
              Holds(ns[m + 1], k, s)
              && Work(c, ns[m + 1], k) ==
                 Work(c, ns[m], k) + (if Overtakes(ns[m], es[m], k) then c.ports + 1 else 0)
                 - if Acts(c, es, ns, m) then 1 else 0
  {
    NodeStep(c, es, ns, m);
    WorkPositive(c, ns[m], k);
    match es[m]
    case Poll(now, from) => PollWork(c, ns[m], es[m], k);
    case Tick(now) =>
      if !Waits(c, ns[m], now) {
        RunWork(c, ns[m], now, k);
      }
  }

  // ---------- a bound, and when there is none ----------

  function Free(s: Slot): nat {
    if Occupied(s) then 0 else 1
  }

  /** Free entries behind entry i and ahead of entry k. */
  function FreeBetween(queue: seq<Slot>, i: nat, k: nat): (r: nat)
    requires |queue| == QUEUE_SIZE && i < QUEUE_SIZE && k < QUEUE_SIZE
    decreases Steps(i, k)
  {
    if i == k || Next(i) == k then 0
    else
      StepNearer(i, k);
      Free(queue[Next(i)]) + FreeBetween(queue, Next(i), k)
  }

  lemma {:induction false} FreeBetweenUpdate(queue: seq<Slot>, j: nat, s: Slot, i: nat, k: nat)
    requires |queue| == QUEUE_SIZE && i < QUEUE_SIZE && j < QUEUE_SIZE && k < QUEUE_SIZE && j != k
    ensures FreeBetween(queue[j := s], i, k) ==
            FreeBetween(queue, i, k) + if j != i && Ahead(i, j, k) then Free(s) - Free(queue[j]) else 0
    decreases Steps(i, k)
  {
    if i != k {
      StepNearer(i, k);
      AheadNext(i, j, k);
      if Next(i) != k {
        FreeBetweenUpdate(queue, j, s, Next(i), k);
      }
    }
  }

  /** A poll that is stored in the current entry, which is free. */
  predicate Refills(n: Node, e: Event)
    requires Sized(n)
  {
    e.Poll? && e.now != 0 && !Occupied(n.queue[n.index]) && StopsAt(n.queue, e.from) == n.index
  }

  /** Unless it refills the current entry, a poll that overtakes takes a free entry of those between. */
  lemma FreeAfterEvent(c: Setup, n: Node, e: Event, k: nat)
    requires Inv(c, n) && k < QUEUE_SIZE && Occupied(n.queue[k]) && Occupied(StepOf(c, n, e).queue[k]) && !Refills(n, e)
    ensures var n' := StepOf(c, n, e);
            FreeBetween(n'.queue, n'.index, k) + (if Overtakes(n, e, k) then 1 else 0)
            <= FreeBetween(n.queue, n.index, k)
  {
    match e
    case Poll(now, from) =>
      var j := StopsAt(n.queue, from);
      if j < |n.queue| && !Occupied(n.queue[j]) {
        FreeBetweenUpdate(n.queue, j, Slot(now, from), n.index, k);
      }
    case Tick(now) => FreeAfterRun(c, n, now, k);
  }

  lemma FreeAfterRun(c: Setup, n: Node, now: nat, k: nat)
    requires Inv(c, n) && k < QUEUE_SIZE && Occupied(n.queue[k]) && Occupied(Run(c, n, now).queue[k])
    ensures var n' := Run(c, n, now);
            FreeBetween(n'.queue, n'.index, k) <= FreeBetween(n.queue, n.index, k)
  {
    var i, n' := n.index, Run(c, n, now);
    if n'.queue != n.queue {
      FreeBetweenUpdate(n.queue, i, n'.queue[i], i, k);
    }
  }

  ghost predicate NoRefills(es: seq<Event>, ns: seq<Node>, m0: nat, m1: nat)
    requires m1 <= |es| < |ns| && forall m | 0 <= m < |ns| :: Sized(ns[m])
  {
    forall m | m0 <= m < m1 :: !Refills(ns[m], es[m])
  }

  lemma {:induction false} FreeOverRun(c: Setup, es: seq<Event>, ns: seq<Node>, m0: nat, m1: nat, k: nat, s: Slot)
    requires IsRun(c, es, ns) && WaitsIn(ns, m0, m1, k, s) && NoRefills(es, ns, m0, m1)
    ensures FreeBetween(ns[m1].queue, ns[m1].index, k) + Overtaking(es, ns, m0, m1, k)
            <= FreeBetween(ns[m0].queue, ns[m0].index, k)
    decreases m1
  {
    if m0 < m1 {
      FreeOverRun(c, es, ns, m0, m1 - 1, k, s);
      NodeStep(c, es, ns, m1 - 1);
      assert Holds(ns[m1 - 1], k, s) && Holds(ns[m1], k, s);
      FreeAfterEvent(c, ns[m1 - 1], es[m1 - 1], k);
    }
  }

  /** What the current entry has had of its calls; of a free one only the step to the next entry is left. */
  function Progress(c: Setup, n: Node): nat
    requires Sized(n)
  {
    if n.running then 1 + n.port else if Occupied(n.queue[n.index]) then 0 else c.ports + 1
  }

  /** The longest wait of entry k: every entry ahead of it is filled before its turn, but the current one only once. */
  function LongestWait(c: Setup, n: Node, k: nat): int
    requires Sized(n) && k < QUEUE_SIZE
  {
    (c.ports + 2) * Steps(n.index, k) + c.ports + 1 - Progress(c, n)
  }

  lemma {:induction false} TurnsAndFree(c: Setup, queue: seq<Slot>, i: nat, k: nat)
    requires |queue| == QUEUE_SIZE && i < QUEUE_SIZE && k < QUEUE_SIZE && Occupied(queue[k])
    ensures Turns(c, queue, i, k) + (c.ports + 1) * FreeBetween(queue, i, k) ==
            (c.ports + 2) * Steps(i, k) + c.ports + 1 - (c.ports + 1) * Free(queue[i])
    decreases Steps(i, k)
  {
    if i != k {
      StepNearer(i, k);
      TurnsAndFree(c, queue, Next(i), k);
      OneMore(c.ports + 2, Steps(Next(i), k));
      Distributes(c.ports + 1, Free(queue[Next(i)]), FreeBetween(queue, Next(i), k));
      assert Next(i) == k ==> FreeBetween(queue, Next(i), k) == 0 == Free(queue[k]);
    }
  }

  lemma Distributes(a: nat, x: nat, y: nat)
    ensures a * (x + y) == a * x + a * y
  {
  }

  /** The longest wait is that for all free entries between being filled. */
  lemma LongestIs(c: Setup, n: Node, k: nat)
    requires Inv(c, n) && k < QUEUE_SIZE && Occupied(n.queue[k])
    ensures LongestWait(c, n, k) == Work(c, n, k) + (c.ports + 1) * FreeBetween(n.queue, n.index, k)
    ensures LongestWait(c, n, k) <= 4 * c.ports + 7
  {
    TurnsAndFree(c, n.queue, n.index, k);
    FreeCosts(c, n.queue[n.index]);
    ThreeAtMost(c, Steps(n.index, k));
  }

  lemma FreeCosts(c: Setup, s: Slot)
    ensures (c.ports + 1) * Free(s) == if Occupied(s) then 0 else c.ports + 1
  {
  }

  lemma ThreeAtMost(c: Setup, steps: nat)
    requires steps < QUEUE_SIZE
    ensures (c.ports + 2) * steps + c.ports + 1 <= 4 * c.ports + 7
  {
    MulMono(steps, 3, c.ports + 2);
  }

  lemma InvAt(c: Setup, es: seq<Event>, ns: seq<Node>, m: nat)
    requires IsRun(c, es, ns) && m <= |es|
    ensures Inv(c, ns[m])
  {
    if m < |es| {
      NodeStep(c, es, ns, m);
    } else if m > 0 {
      InvAfter(c, es, ns, m - 1);
    } else {
      StartInv(c);
    }
  }

  lemma InvAfter(c: Setup, es: seq<Event>, ns: seq<Node>, m: nat)
    requires IsRun(c, es, ns) && m < |es|
    ensures Inv(c, ns[m + 1])
  {
    NodeStep(c, es, ns, m);
    StepInv(c, ns[m], es[m]);
  }

  /** The calls made, from the balance over the run and the free entries there were. */
  lemma BoundedBy(w: int, w1: int, price: nat, overtaking: nat, free: nat, acting: int)
    requires w1 == w + price * overtaking - acting && w1 >= 1 && overtaking <= free
    ensures acting < w + price * free
  {
    MulMono(overtaking, free, price);
  }

  /**
   If no poll refills the current entry before the node steps on, a waiting poll is answered within
   its longest wait, which is at most 4 * ports + 7 calls.
   */
  lemma AnsweredWithin(c: Setup, es: seq<Event>, ns: seq<Node>, m0: nat, m1: nat, k: nat, s: Slot)
    requires IsRun(c, es, ns) && WaitsIn(ns, m0, m1, k, s) && NoRefills(es, ns, m0, m1)
    ensures Acting(c, es, ns, m0, m1) < LongestWait(c, ns[m0], k) <= 4 * c.ports + 7
  {
    CallsBounded(c, es, ns, m0, m1, k, s);
    InvAt(c, es, ns, m0);
    assert Holds(ns[m0], k, s);
    LongestIs(c, ns[m0], k);
  }

  lemma CallsBounded(c: Setup, es: seq<Event>, ns: seq<Node>, m0: nat, m1: nat, k: nat, s: Slot)
    requires IsRun(c, es, ns) && WaitsIn(ns, m0, m1, k, s) && NoRefills(es, ns, m0, m1)
    ensures Acting(c, es, ns, m0, m1) <
            Work(c, ns[m0], k) + (c.ports + 1) * FreeBetween(ns[m0].queue, ns[m0].index, k)
  {
    WorkOverRun(c, es, ns, m0, m1, k, s);
    FreeOverRun(c, es, ns, m0, m1, k, s);
    InvAt(c, es, ns, m1);
    WorkPositive(c, ns[m1], k);
    BoundedBy(Work(c, ns[m0], k), Work(c, ns[m1], k), c.ports + 1, Overtaking(es, ns, m0, m1, k),
              FreeBetween(ns[m0].queue, ns[m0].index, k), Acting(c, es, ns, m0, m1));
  }

  /** Four polls fill the queue; the last of them has to wait for 4 * ports + 7 calls. */
  lemma LongestReached(c: Setup, p: nat, q: nat, r: nat, s: nat) returns (es: seq<Event>)
    requires GoodSetup(c) && p != q && r != p && r != q && s != p && s != q && s != r
    ensures Occupied(After(c, es).queue[3]) && Work(c, After(c, es), 3) == 4 * c.ports + 7
  {
    es := FifthPollLost(c, p, q, r, s, p + q + r + s + 1);
    var queue := After(c, es).queue;
    assert Turns(c, queue, 3, 3) == c.ports + 1;
    assert Turns(c, queue, 2, 3) == c.ports + 2 + Turns(c, queue, 3, 3);
    assert Turns(c, queue, 1, 3) == c.ports + 2 + Turns(c, queue, 2, 3);
  }

  // ---------- a poll that waits for ever ----------

  function Ticks(now: nat, n: nat): seq<Event> {
    seq(n, _ => Tick(now))
  }

  ghost predicate Ends(c: Setup, es: seq<Event>, n: Node) {
    After(c, es) == n && Sized(n)
  }

  lemma EndsNext(c: Setup, es: seq<Event>, n: Node, e: Event)
    requires Ends(c, es, n)
    ensures Ends(c, es + [e], StepOf(c, n, e))
  {
    AfterSnoc(c, es, e);
  }

  /** The first Run starts the replies of the current entry, each further one sends one. */
  lemma {:induction false} TicksReply(c: Setup, es: seq<Event>, n: Node, now: nat, m: nat) returns (log: seq<Reply>)
    requires GoodSetup(c) && Ends(c, es, n) && Due(c, n, now) && m < c.ports
    ensures Ends(c, es + Ticks(now, m + 1), n.(running := true, port := m, log := log))
  {
    TicksSnoc(es, now, m);
    if m > 0 {
      log := TicksReply(c, es, n, now, m - 1);
      log := OneReply(c, es + Ticks(now, m), n.(running := true, port := m - 1, log := log), now);
    } else {
      log := n.log;
      EndsNext(c, es, n, Tick(now));
    }
  }

  lemma TicksSnoc(es: seq<Event>, now: nat, m: nat)
    ensures es + Ticks(now, m + 1) == es + Ticks(now, m) + [Tick(now)]
    ensures es + Ticks(now, 0) == es
  {
  }

  lemma OneReply(c: Setup, es: seq<Event>, n: Node, now: nat) returns (log: seq<Reply>)
    requires GoodSetup(c) && Ends(c, es, n) && Occupied(n.queue[n.index]) && n.running && n.port + 1 < c.ports
    ensures Ends(c, es + [Tick(now)], n.(port := n.port + 1, log := log))
  {
    EndsNext(c, es, n, Tick(now));
    log := n.log + [Reply(n.port, n.queue[n.index].ip)];
  }

  /** The delay of the current entry has passed, and no reply to it was sent yet. */
  predicate Due(c: Setup, n: Node, now: nat)
    requires Sized(n)
  {
    Occupied(n.queue[n.index]) && !n.running && !Waits(c, n, now)
  }

  lemma AllReplies(c: Setup, es: seq<Event>, n: Node, now: nat) returns (n': Node)
    requires GoodSetup(c) && Ends(c, es, n) && Due(c, n, now)
    ensures Ends(c, es + Ticks(now, c.ports + 1), n')
    ensures n'.queue == n.queue[n.index := n.queue[n.index].(millis := 0)] && n'.index == n.index && !n'.running
    ensures n'.served == n.served + [n.queue[n.index]]
  {
    var log := TicksReply(c, es, n, now, c.ports - 1);
    TicksSnoc(es, now, c.ports);
    n' := Run(c, n.(running := true, port := c.ports - 1, log := log), now);
    EndsNext(c, es + Ticks(now, c.ports), n.(running := true, port := c.ports - 1, log := log), Tick(now));
  }

  /** The node that answered p and has its next poll, of this time, in the first entry. */
  ghost predicate Refilled(n: Node, now: nat, p: nat, q: nat, answered: nat) {
    && n.queue == [Slot(now, p), Slot(1, q), Slot(0, 0), Slot(0, 0)] && n.index == 0 && !n.running
    && now != 0 && |n.served| == answered && forall i | 0 <= i < answered :: n.served[i].ip == p
  }

  /** p is answered and polls again at once. */
  lemma RefilledAgain(c: Setup, es: seq<Event>, n: Node, last: nat, now: nat, p: nat, q: nat) returns (n': Node)
    requires GoodSetup(c) && Ends(c, es, n) && Refilled(n, last, p, q, |n.served|)
    requires Elapsed(now, last) > c.delay && now != 0
    ensures Ends(c, es + Ticks(now, c.ports + 1) + [Poll(now, p)], n') && Refilled(n', now, p, q, |n.served| + 1)
  {
    var answered := AllReplies(c, es, n, now);
    EndsNext(c, es + Ticks(now, c.ports + 1), answered, Poll(now, p));
    StopsAtIs(answered.queue, p, 0);
    n' := Add(answered, now, p);
  }

  /** A run after which n polls of p were answered, and the last is in the first entry; one of q waits behind it. */
  ghost predicate Starving(c: Setup, es: seq<Event>, time: seq<nat>, p: nat, q: nat, n: nat) {
    && Clocked(es, time) && |es| == 2 + (c.ports + 2) * n
    && Refilled(After(c, es), es[|es| - 1].now, p, q, n)
  }

  /** A later reading at which the delay has passed and that is not 0. */
  lemma LaterReading(c: Setup, last: nat) returns (t: nat)
    requires c.delay + 2 < UINT32
    ensures t > last && t % UINT32 != 0 && Elapsed(t % UINT32, last % UINT32) > c.delay
  {
    t := if (last + c.delay + 1) % UINT32 == 0 then last + c.delay + 2 else last + c.delay + 1;
    ElapsedTime(t, last);
  }

  lemma ClockedOn(es: seq<Event>, time: seq<nat>, more: seq<Event>, t: nat)
    requires Clocked(es, time) && time != [] && time[|time| - 1] <= t
    requires forall m | 0 <= m < |more| :: more[m].now == t % UINT32
    ensures Clocked(es + more, time + seq(|more|, _ => t))
  {
  }

  lemma StarvesOn(c: Setup, es: seq<Event>, time: seq<nat>, p: nat, q: nat, n: nat)
    returns (es': seq<Event>, time': seq<nat>)
    requires GoodSetup(c) && c.delay + 2 < UINT32 && Starving(c, es, time, p, q, n)
    ensures Starving(c, es', time', p, q, n + 1)
  {
    var t := LaterReading(c, time[|time| - 1]);
    var now, more := t % UINT32, Ticks(t % UINT32, c.ports + 1) + [Poll(t % UINT32, p)];
    es', time' := es + more, time + seq(|more|, _ => t);
    var n' := RefilledAgain(c, es, After(c, es), es[|es| - 1].now, now, p, q);
    assert es + Ticks(now, c.ports + 1) + [Poll(now, p)] == es';
    ClockedOn(es, time, more, t);
    OneMore(c.ports + 2, n);
  }

  /**
   There is no bound if the current entry is refilled: for every n there is a run, with a clock that
   never goes back, in which n polls of p are answered while an earlier poll of q still waits.
   */
  lemma {:induction false} Starves(c: Setup, p: nat, q: nat, n: nat) returns (es: seq<Event>, time: seq<nat>)
    requires GoodSetup(c) && c.delay + 2 < UINT32 && p != q
    ensures Starving(c, es, time, p, q, n)
  {
    if n == 0 {
      es := TwoPolls(c, p, q);
      time := [1, 1];
    } else {
      es, time := Starves(c, p, q, n - 1);
      es, time := StarvesOn(c, es, time, p, q, n - 1);
    }
  }
}
