/**
 The poll-reply queue of the Art-Net node: polls are queued by PollReplyQueueAdd
 (lib-artnet/src/node/artnetnodehandlepoll.cpp) and answered, one port per call, by ArtNetNode::Run
 (lib-artnet/include/artnetnode_inline_impl.h).
 */
module PollModel {
  import opened Numbers

  const QUEUE_SIZE := 4

  /** A queue entry; millis 0 marks it free. */
  datatype Slot = Slot(millis: nat, ip: nat)

  /** One call of SendPollReply. */
  datatype Reply = Reply(port: nat, ip: nat)

  /** The node's fields, and the history of its run: replies sent, polls accepted, polls answered completely. */
  datatype Node = Node(queue: seq<Slot>, index: nat, port: nat, running: bool,
                       log: seq<Reply>, accepted: seq<Slot>, served: seq<Slot>)

  /** dmxnode::kMaxPorts and poll_reply_delay_millis. */
  datatype Setup = Setup(ports: nat, delay: nat)

  ghost predicate GoodSetup(c: Setup) {
    1 <= c.ports < 0x100 && c.delay < UINT32
  }

  predicate Occupied(s: Slot) {
    s.millis != 0
  }

  /** The unsigned difference current_millis_ - entry.art_poll_millis. */
  function Elapsed(now: nat, millis: nat): nat {
    (now - millis) % UINT32
  }

  // ---------- the two operations ----------

  predicate PassedOver(s: Slot, from: nat) {
    Occupied(s) && s.ip != from
  }

  /** First entry the loop of PollReplyQueueAdd stops at: free, or taken by the same address. */
  function StopsAt(queue: seq<Slot>, from: nat): (k: nat)
    ensures k <= |queue|
    ensures forall i | 0 <= i < k :: PassedOver(queue[i], from)
    ensures k < |queue| ==> !PassedOver(queue[k], from)
  {
    if queue == [] || !PassedOver(queue[0], from) then 0 else 1 + StopsAt(queue[1..], from)
  }

  lemma StopsAtIs(queue: seq<Slot>, from: nat, k: nat)
    requires k <= |queue| && forall i | 0 <= i < k :: PassedOver(queue[i], from)
    requires k < |queue| ==> !PassedOver(queue[k], from)
    ensures StopsAt(queue, from) == k
  {
  }

  function Add(n: Node, now: nat, from: nat): Node {
    var k := StopsAt(n.queue, from);
    if k == |n.queue| || Occupied(n.queue[k]) then n
    else n.(queue := n.queue[k := Slot(now, from)],
            accepted := if now == 0 then n.accepted else n.accepted + [Slot(now, from)])
  }

  function Run(c: Setup, n: Node, now: nat): Node
    requires n.index < |n.queue|
  {
    var entry := n.queue[n.index];
    if !Occupied(entry) then n.(index := if n.index + 1 == QUEUE_SIZE then 0 else n.index + 1)
    else if !n.running then
      if Elapsed(now, entry.millis) > c.delay then n.(running := true, port := 0) else n
    else
      var sent := n.(log := n.log + [Reply(n.port, entry.ip)], port := (n.port + 1) % 0x100);
      if sent.port >= c.ports then
        sent.(queue := n.queue[n.index := entry.(millis := 0)], running := false,
              served := n.served + [entry])
      else sent
  }

  function Start(): Node {
    Node([Slot(0, 0), Slot(0, 0), Slot(0, 0), Slot(0, 0)], 0, 0, false, [], [], [])
  }

  // ---------- what every run keeps ----------

  /** The replies to one poll: ports 0 to n - 1, all to its own address. */
  function Burst(ip: nat, n: nat): (r: seq<Reply>)
    ensures |r| == n && forall k | 0 <= k < n :: r[k] == Reply(k, ip)
  {
    seq(n, k requires 0 <= k < n => Reply(k, ip))
  }

  function Bursts(served: seq<Slot>, ports: nat): seq<Reply> {
    if served == [] then []
    else Bursts(served[..|served| - 1], ports) + Burst(served[|served| - 1].ip, ports)
  }

  /** Everything sent so far: complete bursts, and the begun one of the current entry. */
  ghost predicate LogExact(c: Setup, n: Node)
    requires n.index < |n.queue|
  {
    n.log == Bursts(n.served, c.ports) + Burst(n.queue[n.index].ip, if n.running then n.port else 0)
  }

  /** The polls waiting in the queue. */
  function Pending(queue: seq<Slot>): multiset<Slot> {
    if queue == [] then multiset{} else One(queue[0]) + Pending(queue[1..])
  }

  function One(s: Slot): multiset<Slot> {
    if Occupied(s) then multiset{s} else multiset{}
  }

  function Polls(served: seq<Slot>): multiset<Slot> {
    if served == [] then multiset{} else Polls(served[..|served| - 1]) + multiset{served[|served| - 1]}
  }

  ghost predicate Inv(c: Setup, n: Node) {
    && GoodSetup(c)
    && |n.queue| == QUEUE_SIZE && n.index < QUEUE_SIZE
    && (n.running ==> Occupied(n.queue[n.index]) && n.port < c.ports)
    && LogExact(c, n)
    && multiset(n.accepted) == Polls(n.served) + Pending(n.queue)
  }

  lemma StartInv(c: Setup)
    requires GoodSetup(c)
    ensures Inv(c, Start())
  {
    var q := Start().queue;
    assert q[1..] == [Slot(0, 0), Slot(0, 0), Slot(0, 0)];
    PendingNone(q);
  }

  lemma {:induction false} PendingNone(queue: seq<Slot>)
    ensures Pending(queue) == multiset{} <==> forall k | 0 <= k < |queue| :: !Occupied(queue[k])
  {
    if queue != [] {
      PendingNone(queue[1..]);
      assert forall k | 0 < k < |queue| :: queue[k] == queue[1..][k - 1];
      if Occupied(queue[0]) {
        assert queue[0] in Pending(queue);
      }
    }
  }

  lemma {:induction false} PendingUpdate(queue: seq<Slot>, k: nat, s: Slot)
    requires k < |queue|
    ensures Pending(queue[k := s]) + One(queue[k]) == Pending(queue) + One(s)
  {
    var rest := queue[1..];
    if k > 0 {
      assert queue[k := s][1..] == rest[k - 1 := s];
      PendingUpdate(rest, k - 1, s);
      Regroup(One(queue[0]), Pending(rest[k - 1 := s]), One(queue[k]), Pending(rest), One(s));
    } else {
      assert queue[0 := s][1..] == rest;
      Exchange(One(s), Pending(rest), One(queue[0]));
    }
  }

  lemma Regroup(h: multiset<Slot>, p: multiset<Slot>, x: multiset<Slot>, q: multiset<Slot>, y: multiset<Slot>)
    requires p + x == q + y
    ensures (h + p) + x == (h + q) + y
  {
    assert (h + p) + x == h + (p + x);
    assert (h + q) + y == h + (q + y);
  }

  lemma Exchange(x: multiset<Slot>, p: multiset<Slot>, y: multiset<Slot>)
    ensures (x + p) + y == (y + p) + x
  {
  }

  lemma AddInv(c: Setup, n: Node, now: nat, from: nat)
    requires Inv(c, n)
    ensures Inv(c, Add(n, now, from))
  {
    var k := StopsAt(n.queue, from);
    if k < |n.queue| && !Occupied(n.queue[k]) {
      LogFilled(c, n, k, Slot(now, from));
      CountedFilled(n, k, Slot(now, from), if now == 0 then n.accepted else n.accepted + [Slot(now, from)]);
    }
  }

  lemma CountedFilled(n: Node, k: nat, s: Slot, accepted: seq<Slot>)
    requires k < |n.queue| && !Occupied(n.queue[k])
    requires multiset(n.accepted) == Polls(n.served) + Pending(n.queue)
    requires accepted == if Occupied(s) then n.accepted + [s] else n.accepted
    ensures multiset(accepted) == Polls(n.served) + Pending(n.queue[k := s])
  {
    PendingFilled(n.queue, k, s);
    if Occupied(s) {
      assert multiset(n.accepted + [s]) == multiset(n.accepted) + multiset{s};
    }
  }

  /** Filling a free entry. */
  lemma PendingFilled(queue: seq<Slot>, k: nat, s: Slot)
    requires k < |queue| && !Occupied(queue[k])
    ensures Pending(queue[k := s]) == Pending(queue) + One(s)
  {
    PendingUpdate(queue, k, s);
    assert One(queue[k]) == multiset{};
  }

  lemma LogFilled(c: Setup, n: Node, k: nat, s: Slot)
    requires n.index < |n.queue| && LogExact(c, n)
    requires k < |n.queue| && !Occupied(n.queue[k]) && (n.running ==> Occupied(n.queue[n.index]))
    ensures LogExact(c, n.(queue := n.queue[k := s]))
  {
    assert Burst(s.ip, 0) == Burst(n.queue[k].ip, 0) == [];
  }

  lemma RunInv(c: Setup, n: Node, now: nat)
    requires Inv(c, n)
    ensures Inv(c, Run(c, n, now))
  {
    if n.running {
      ReplyInv(c, n, now);
    }
  }

  lemma ReplyInv(c: Setup, n: Node, now: nat)
    requires Inv(c, n) && n.running
    ensures Inv(c, Run(c, n, now))
  {
    if n.port + 1 >= c.ports {
      LastReplyInv(c, n, now);
    } else {
      NextReplyInv(c, n, now);
    }
  }

  lemma NextReplyInv(c: Setup, n: Node, now: nat)
    requires Inv(c, n) && n.running && n.port + 1 < c.ports
    ensures Inv(c, Run(c, n, now))
  {
    NextReplyLog(c, n, now);
  }

  lemma NextReplyLog(c: Setup, n: Node, now: nat)
    requires GoodSetup(c) && n.index < |n.queue| && Occupied(n.queue[n.index]) && n.running && n.port + 1 < c.ports
    requires LogExact(c, n)
    ensures LogExact(c, Run(c, n, now))
  {
    NextReply(c, n, now);
    BurstSnoc(Bursts(n.served, c.ports), n.queue[n.index].ip, n.port);
  }

  lemma NextReply(c: Setup, n: Node, now: nat)
    requires GoodSetup(c) && n.index < |n.queue| && Occupied(n.queue[n.index]) && n.running && n.port + 1 < c.ports
    ensures Run(c, n, now) == n.(log := n.log + [Reply(n.port, n.queue[n.index].ip)], port := n.port + 1)
  {
  }

  lemma BurstSnoc(before: seq<Reply>, ip: nat, n: nat)
    ensures before + Burst(ip, n) + [Reply(n, ip)] == before + Burst(ip, n + 1)
  {
    assert Burst(ip, n) + [Reply(n, ip)] == Burst(ip, n + 1);
  }

  lemma LastReplyInv(c: Setup, n: Node, now: nat)
    requires Inv(c, n) && n.running && n.port + 1 == c.ports
    ensures Inv(c, Run(c, n, now))
  {
    LastReplyLog(c, n, now);
    ClearedPending(n.queue, n.index, n.accepted, n.served);
  }

  lemma LastReplyLog(c: Setup, n: Node, now: nat)
    requires GoodSetup(c) && n.index < |n.queue| && Occupied(n.queue[n.index]) && n.running && n.port + 1 == c.ports
    requires LogExact(c, n)
    ensures LogExact(c, Run(c, n, now))
  {
    var entry, served := n.queue[n.index], n.served + [n.queue[n.index]];
    BurstSnoc(Bursts(n.served, c.ports), entry.ip, n.port);
    ServedSnoc(n.served, entry, c.ports);
    assert Bursts(served, c.ports) + Burst(entry.ip, 0) == Bursts(served, c.ports);
  }

  lemma MoveOne(a: multiset<Slot>, p: multiset<Slot>, q: multiset<Slot>, q': multiset<Slot>, e: Slot)
    requires a == p + q && q' + multiset{e} == q
    ensures a == (p + multiset{e}) + q'
  {
  }

  /** Clearing the served entry moves its poll from pending to served. */
  lemma ClearedPending(queue: seq<Slot>, k: nat, accepted: seq<Slot>, served: seq<Slot>)
    requires k < |queue| && Occupied(queue[k])
    requires multiset(accepted) == Polls(served) + Pending(queue)
    ensures multiset(accepted) == Polls(served + [queue[k]]) + Pending(queue[k := queue[k].(millis := 0)])
  {
    var cleared := queue[k].(millis := 0);
    PendingUpdate(queue, k, cleared);
    assert Pending(queue) + One(cleared) == Pending(queue);
    ServedSnoc(served, queue[k], 0);
    MoveOne(multiset(accepted), Polls(served), Pending(queue), Pending(queue[k := cleared]), queue[k]);
  }

  lemma ServedSnoc(served: seq<Slot>, s: Slot, ports: nat)
    ensures Bursts(served + [s], ports) == Bursts(served, ports) + Burst(s.ip, ports)
    ensures Polls(served + [s]) == Polls(served) + multiset{s}
  {
    assert (served + [s])[..|served|] == served;
  }

  // ---------- runs ----------

  datatype Event = Poll(now: nat, from: nat) | Tick(now: nat)

  predicate Sized(n: Node) {
    |n.queue| == QUEUE_SIZE && n.index < QUEUE_SIZE
  }

  function StepOf(c: Setup, n: Node, e: Event): (n': Node)
    requires Sized(n)
    ensures Sized(n')
  {
    match e
    case Poll(now, from) => Add(n, now, from)
    case Tick(now) => Run(c, n, now)
  }

  /** The node after a run from power-up. */
  function After(c: Setup, es: seq<Event>): (n: Node)
    ensures Sized(n)
  {
    if es == [] then Start() else StepOf(c, After(c, es[..|es| - 1]), es[|es| - 1])
  }

  lemma {:induction false} AfterInv(c: Setup, es: seq<Event>)
    requires GoodSetup(c)
    ensures Inv(c, After(c, es))
  {
    if es == [] {
      StartInv(c);
    } else {
      AfterInv(c, es[..|es| - 1]);
      StepInv(c, After(c, es[..|es| - 1]), es[|es| - 1]);
    }
  }

  lemma StepInv(c: Setup, n: Node, e: Event)
    requires Inv(c, n)
    ensures Inv(c, StepOf(c, n, e))
  {
    match e
    case Poll(now, from) => AddInv(c, n, now, from);
    case Tick(now) => RunInv(c, n, now);
  }

  lemma AfterSnoc(c: Setup, es: seq<Event>, e: Event)
    ensures After(c, es + [e]) == StepOf(c, After(c, es), e)
  {
    assert (es + [e])[..|es|] == es;
  }

  /**
   Over every run: the replies are the complete bursts of the polls served, in order, and the begun
   one of the current entry; every accepted poll was served once or is still in the queue; and while a
   reply is running its entry is occupied.
   */
  lemma RunExact(c: Setup, es: seq<Event>)
    requires GoodSetup(c)
    ensures var n := After(c, es);
            && |n.queue| == QUEUE_SIZE && n.index < QUEUE_SIZE
            && LogExact(c, n)
            && multiset(n.accepted) == Polls(n.served) + Pending(n.queue)
            && (n.running ==> Occupied(n.queue[n.index]))
  {
    AfterInv(c, es);
  }

  // ---------- no reply before its delay ----------

  /** ns[m] is the node before event m, ns[|es|] the node after the run. */
  ghost predicate IsRun(c: Setup, es: seq<Event>, ns: seq<Node>) {
    && GoodSetup(c) && |ns| == |es| + 1 && ns[0] == Start() && (forall m | 0 <= m < |ns| :: Sized(ns[m]))
    && forall m | 0 <= m < |es| :: Follows(c, es, ns, m)
  }

  ghost predicate Follows(c: Setup, es: seq<Event>, ns: seq<Node>, m: nat)
    requires m < |es| == |ns| - 1
  {
    Inv(c, ns[m]) && ns[m + 1] == StepOf(c, ns[m], es[m])
  }

  /** Every list of events is a run. */
  lemma {:induction false} RunOf(c: Setup, es: seq<Event>) returns (ns: seq<Node>)
    requires GoodSetup(c)
    ensures IsRun(c, es, ns) && ns[|es|] == After(c, es)
  {
    if es == [] {
      ns := [Start()];
    } else {
      var before := RunOf(c, es[..|es| - 1]);
      ns := before + [After(c, es)];
      AfterInv(c, es[..|es| - 1]);
      forall m | 0 <= m < |es| ensures Follows(c, es, ns, m) {
        if m < |es| - 1 {
          assert Follows(c, es[..|es| - 1], before, m);
        }
      }
    }
  }

  predicate Holds(n: Node, k: nat, s: Slot) {
    k < |n.queue| && n.queue[k] == s
  }

  /** Replies to slot s in the current entry k are running, and the next one is for this port. */
  predicate Replying(n: Node, k: nat, s: Slot, port: nat) {
    n.running && n.index == k && Holds(n, k, s) && n.port == port
  }

  /** Only a poll fills an entry. */
  lemma StepFills(c: Setup, es: seq<Event>, ns: seq<Node>, m: nat, k: nat, s: Slot)
    requires IsRun(c, es, ns) && m < |es| && Occupied(s) && Holds(ns[m + 1], k, s)
    ensures Holds(ns[m], k, s) || es[m] == Poll(s.millis, s.ip)
  {
    assert Follows(c, es, ns, m);
    match es[m]
    case Poll(now, from) => AddFills(ns[m], now, from, k, s);
    case Tick(now) => RunFills(c, ns[m], now, k, s);
  }

  lemma AddFills(n: Node, now: nat, from: nat, k: nat, s: Slot)
    requires Holds(Add(n, now, from), k, s)
    ensures Holds(n, k, s) || s == Slot(now, from)
  {
  }

  lemma RunFills(c: Setup, n: Node, now: nat, k: nat, s: Slot)
    requires n.index < |n.queue| && Holds(Run(c, n, now), k, s) && Occupied(s)
    ensures Holds(n, k, s)
  {
  }

  /** Only a Run that finds the delay of the current entry passed starts replies, and it sends none. */
  lemma StepStarts(c: Setup, es: seq<Event>, ns: seq<Node>, m: nat, k: nat, s: Slot, port: nat)
    requires IsRun(c, es, ns) && m < |es| && !ns[m].running && Replying(ns[m + 1], k, s, port)
    ensures Holds(ns[m], k, s) && Occupied(s) && port == 0 && ns[m + 1].log == ns[m].log
    ensures es[m].Tick? && Elapsed(es[m].now, s.millis) > c.delay
  {
    assert Follows(c, es, ns, m);
  }

  /** Replies go on to the same slot, a Run sends the next one. */
  lemma StepGoesOn(c: Setup, es: seq<Event>, ns: seq<Node>, m: nat, k: nat, s: Slot, port: nat)
    requires IsRun(c, es, ns) && m < |es| && ns[m].running && Replying(ns[m + 1], k, s, port)
    ensures if es[m].Tick? then
              port > 0 && Replying(ns[m], k, s, port - 1) && ns[m + 1].log == ns[m].log + [Reply(port - 1, s.ip)]
            else Replying(ns[m], k, s, port) && ns[m + 1].log == ns[m].log
  {
    assert Follows(c, es, ns, m);
  }

  /** The log grows by one reply, by a Run while replies are running. */
  lemma StepSends(c: Setup, es: seq<Event>, ns: seq<Node>, m: nat) returns (k: nat, s: Slot, port: nat)
    requires IsRun(c, es, ns) && m < |es|
    ensures ns[m + 1].log != ns[m].log ==>
              es[m].Tick? && Replying(ns[m], k, s, port) && ns[m + 1].log == ns[m].log + [Reply(port, s.ip)]
  {
    assert Follows(c, es, ns, m);
    k, s, port := ns[m].index, ns[m].queue[ns[m].index], ns[m].port;
  }

  /** Event a put slot s in entry k, which has held it ever since. */
  ghost predicate HeldSince(es: seq<Event>, ns: seq<Node>, n: nat, k: nat, s: Slot, a: nat) {
    && a < n < |ns| && a < |es| && es[a] == Poll(s.millis, s.ip)
    && !Holds(ns[a], k, s) && forall m | a < m <= n :: Holds(ns[m], k, s)
  }

  /** Every occupied entry was put there by a poll of the run and has not moved since. */
  lemma {:induction false} QueuedByPoll(c: Setup, es: seq<Event>, ns: seq<Node>, n: nat, k: nat, s: Slot)
    returns (a: nat)
    requires IsRun(c, es, ns) && n <= |es| && Occupied(s) && Holds(ns[n], k, s)
    ensures HeldSince(es, ns, n, k, s, a)
    decreases n
  {
    if n == 0 {
      assert false;
    }
    StepFills(c, es, ns, n - 1, k, s);
    if Holds(ns[n - 1], k, s) {
      a := QueuedByPoll(c, es, ns, n - 1, k, s);
    } else {
      a := n - 1;
    }
  }

  /** Event d is the Run that found the delay of this slot passed, and started its replies. */
  ghost predicate StartedAt(c: Setup, es: seq<Event>, ns: seq<Node>, s: Slot, d: nat) {
    && d < |es| && |ns| == |es| + 1 && es[d].Tick? && Elapsed(es[d].now, s.millis) > c.delay
    && !ns[d].running && ns[d + 1].running
  }

  /** Replies to slot s in entry k, where event a put it, are running since event d; the next is for this port. */
  ghost predicate RunningSince(c: Setup, es: seq<Event>, ns: seq<Node>, n: nat,
                               k: nat, s: Slot, port: nat, a: nat, d: nat)
  {
    && a < d < n < |ns| && StartedAt(c, es, ns, s, d) && HeldSince(es, ns, n, k, s, a)
    && ns[n].log == ns[d].log + Burst(s.ip, port)
  }

  lemma {:induction false} Running(c: Setup, es: seq<Event>, ns: seq<Node>, n: nat, k: nat, s: Slot, port: nat)
    returns (a: nat, d: nat)
    requires IsRun(c, es, ns) && n <= |es| && Replying(ns[n], k, s, port)
    ensures RunningSince(c, es, ns, n, k, s, port, a, d)
    decreases n
  {
    if n == 0 {
      assert false;
    }
    if ns[n - 1].running {
      StepGoesOn(c, es, ns, n - 1, k, s, port);
      if es[n - 1].Tick? {
        a, d := Running(c, es, ns, n - 1, k, s, port - 1);
        BurstSnoc(ns[d].log, s.ip, port - 1);
      } else {
        a, d := Running(c, es, ns, n - 1, k, s, port);
      }
    } else {
      d := n - 1;
      StepStarts(c, es, ns, d, k, s, port);
      a := QueuedByPoll(c, es, ns, d, k, s);
      assert ns[d].log + Burst(s.ip, 0) == ns[d].log;
    }
  }

  /**
   Reply j of a run was sent by the Run of event t, to the poll of event a, which stayed in its entry
   until then, and event d in between is a Run at which the delay of that poll had passed. The log at d
   ends where the replies to this poll begin, so none of them was sent before d.
   */
  ghost predicate Timely(c: Setup, es: seq<Event>, ns: seq<Node>, n: nat, j: nat, a: nat, d: nat, t: nat)
    requires |ns| == |es| + 1 && n <= |es|
  {
    && a < d < t < n && es[a].Poll? && es[t].Tick?
    && |ns[t].log| == j && |ns[t + 1].log| == j + 1 && ns[t + 1].log <= ns[n].log
    && var r, s := ns[t + 1].log[j], Slot(es[a].now, es[a].from);
    && r.ip == s.ip && StartedAt(c, es, ns, s, d) && |ns[d].log| + r.port == j
    && HeldSince(es, ns, t, ns[t].index, s, a)
  }

  lemma {:induction false} ReplyTimely(c: Setup, es: seq<Event>, ns: seq<Node>, n: nat, j: nat)
    returns (a: nat, d: nat, t: nat)
    requires IsRun(c, es, ns) && n <= |es| && j < |ns[n].log|
    ensures Timely(c, es, ns, n, j, a, d, t)
    decreases n
  {
    if n == 0 {
      assert false;
    }
    var k, s, port := StepSends(c, es, ns, n - 1);
    if j < |ns[n - 1].log| {
      a, d, t := ReplyTimely(c, es, ns, n - 1, j);
    } else {
      t := n - 1;
      a, d := LastReplyTimely(c, es, ns, t, k, s, port);
    }
  }

  lemma LastReplyTimely(c: Setup, es: seq<Event>, ns: seq<Node>, t: nat, k: nat, s: Slot, port: nat)
    returns (a: nat, d: nat)
    requires IsRun(c, es, ns) && t < |es| && es[t].Tick? && Replying(ns[t], k, s, port)
    requires ns[t + 1].log == ns[t].log + [Reply(port, s.ip)]
    ensures Timely(c, es, ns, t + 1, |ns[t].log|, a, d, t)
  {
    a, d := Running(c, es, ns, t, k, s, port);
  }

  /** No reply of any run was sent before the delay of its poll had passed. */
  lemma EveryReplyTimely(c: Setup, es: seq<Event>, j: nat) returns (ns: seq<Node>, a: nat, d: nat, t: nat)
    requires GoodSetup(c) && j < |After(c, es).log|
    ensures IsRun(c, es, ns) && ns[|es|] == After(c, es)
    ensures Timely(c, es, ns, |es|, j, a, d, t)
  {
    ns := RunOf(c, es);
    a, d, t := ReplyTimely(c, es, ns, |es|, j);
  }

  /** The clock readings of a run are a time that never goes back, in 32 bits. */
  ghost predicate Clocked(es: seq<Event>, time: seq<nat>) {
    && |time| == |es| && (forall m | 0 <= m < |es| :: es[m].now == time[m] % UINT32)
    && forall m, n | 0 <= m < n < |es| :: time[m] <= time[n]
  }

  /** The nodes of a run are those after its prefixes. */
  lemma {:induction false} PrefixRun(c: Setup, es: seq<Event>, ns: seq<Node>, m: nat)
    requires IsRun(c, es, ns) && m <= |es|
    ensures ns[m] == After(c, es[..m])
  {
    if m > 0 {
      PrefixRun(c, es, ns, m - 1);
      assert Follows(c, es, ns, m - 1);
      assert es[..m][..m - 1] == es[..m - 1];
    }
  }

  /** Event t is the Run that sends reply j of the run. */
  ghost predicate Sends(c: Setup, es: seq<Event>, t: nat, j: nat)
    requires t < |es|
  {
    var before, after := After(c, es[..t]).log, After(c, es[..t + 1]).log;
    es[t].Tick? && |before| == j && |after| == j + 1 && after <= After(c, es).log
  }

  /** Event a is the poll that filled the current entry of time t, which has not changed since. */
  ghost predicate QueuedAt(c: Setup, es: seq<Event>, a: nat, t: nat)
    requires a < t < |es| && es[a].Poll?
  {
    var k, s := After(c, es[..t]).index, Slot(es[a].now, es[a].from);
    !Holds(After(c, es[..a]), k, s) && forall m | a < m <= t :: Holds(After(c, es[..m]), k, s)
  }

  /**
   In real time: more than the delay lies between the Run that sends a reply and the poll that filled
   the entry it answers.
   */
  lemma NeverEarly(c: Setup, es: seq<Event>, time: seq<nat>, j: nat) returns (a: nat, t: nat)
    requires GoodSetup(c) && Clocked(es, time) && j < |After(c, es).log|
    ensures a < t < |es| && es[a].Poll? && After(c, es).log[j].ip == es[a].from
    ensures Sends(c, es, t, j) && QueuedAt(c, es, a, t)
    ensures time[t] - time[a] > c.delay
  {
    var ns, d;
    ns, a, d, t := EveryReplyTimely(c, es, j);
    TimelySends(c, es, ns, j, a, d, t);
    TimelyQueued(c, es, ns, a, t);
    DelayPassed(c, es, time, a, d, t);
  }

  lemma TimelySends(c: Setup, es: seq<Event>, ns: seq<Node>, j: nat, a: nat, d: nat, t: nat)
    requires IsRun(c, es, ns) && ns[|es|] == After(c, es) && Timely(c, es, ns, |es|, j, a, d, t)
    ensures Sends(c, es, t, j)
  {
    PrefixRun(c, es, ns, t);
    PrefixRun(c, es, ns, t + 1);
  }

  lemma TimelyQueued(c: Setup, es: seq<Event>, ns: seq<Node>, a: nat, t: nat)
    requires IsRun(c, es, ns) && a < t < |es| && es[a].Poll?
    requires HeldSince(es, ns, t, ns[t].index, Slot(es[a].now, es[a].from), a)
    ensures QueuedAt(c, es, a, t)
  {
    PrefixRun(c, es, ns, t);
    PrefixRun(c, es, ns, a);
    forall m | a < m <= t ensures Holds(After(c, es[..m]), ns[t].index, Slot(es[a].now, es[a].from)) {
      PrefixRun(c, es, ns, m);
    }
  }

  lemma DelayPassed(c: Setup, es: seq<Event>, time: seq<nat>, a: nat, d: nat, t: nat)
    requires GoodSetup(c) && Clocked(es, time) && a < d < t < |es| && Elapsed(es[d].now, es[a].now) > c.delay
    ensures time[t] - time[a] > c.delay
  {
    ElapsedTime(time[d], time[a]);
  }

  lemma ElapsedTime(now: nat, since: nat)
    requires since <= now
    ensures now - since < UINT32 ==> Elapsed(now % UINT32, since % UINT32) == now - since
  {
  }

  // ---------- draining ----------

  function Count(queue: seq<Slot>): nat {
    if queue == [] then 0 else (if Occupied(queue[0]) then 1 else 0) + Count(queue[1..])
  }

  /** Free entries between the current one and the next occupied one. */
  function Gap(queue: seq<Slot>, index: nat): (g: nat)
    requires |queue| == QUEUE_SIZE && index < QUEUE_SIZE
    ensures g < QUEUE_SIZE
  {
    if Occupied(queue[index]) then 0
    else if Occupied(queue[(index + 1) % QUEUE_SIZE]) then 1
    else if Occupied(queue[(index + 2) % QUEUE_SIZE]) then 2
    else if Occupied(queue[(index + 3) % QUEUE_SIZE]) then 3
    else 0
  }

  /** Calls of Run that empty the queue once every delay has passed. */
  function CallsLeft(c: Setup, n: Node): int
    requires |n.queue| == QUEUE_SIZE && n.index < QUEUE_SIZE
  {
    if Count(n.queue) == 0 then 0
    else Count(n.queue) * (c.ports + QUEUE_SIZE) + Gap(n.queue, n.index) - if n.running then 1 + n.port else 0
  }

  ghost predicate AllDue(c: Setup, queue: seq<Slot>, now: nat) {
    forall k | 0 <= k < |queue| && Occupied(queue[k]) :: Elapsed(now, queue[k].millis) > c.delay
  }

  lemma {:induction false} CountUpdate(queue: seq<Slot>, k: nat, s: Slot)
    requires k < |queue|
    ensures Count(queue[k := s]) == Count(queue) - (if Occupied(queue[k]) then 1 else 0) + if Occupied(s) then 1 else 0
  {
    if k > 0 {
      assert queue[k := s][1..] == queue[1..][k - 1 := s];
      CountUpdate(queue[1..], k - 1, s);
    } else {
      assert queue[0 := s][1..] == queue[1..];
    }
  }

  lemma {:induction false} CountZero(queue: seq<Slot>)
    ensures Count(queue) == 0 <==> forall k | 0 <= k < |queue| :: !Occupied(queue[k])
  {
    if queue != [] {
      CountZero(queue[1..]);
      assert forall k | 0 < k < |queue| :: queue[k] == queue[1..][k - 1];
    }
  }

  lemma CallsLeftPositive(c: Setup, n: Node)
    requires Inv(c, n)
    ensures CallsLeft(c, n) >= 0 && (CallsLeft(c, n) == 0 <==> Count(n.queue) == 0)
    ensures CallsLeft(c, n) <= QUEUE_SIZE * (c.ports + QUEUE_SIZE) + QUEUE_SIZE
  {
    CountAtMost(n.queue);
    if Count(n.queue) > 0 {
      Product(Count(n.queue), c.ports + QUEUE_SIZE);
    }
  }

  lemma {:induction false} CountAtMost(queue: seq<Slot>)
    ensures Count(queue) <= |queue|
  {
    if queue != [] {
      CountAtMost(queue[1..]);
    }
  }

  lemma Product(a: nat, b: nat)
    requires 1 <= a <= QUEUE_SIZE
    ensures b <= a * b <= QUEUE_SIZE * b
  {
    assert a * b == b + (a - 1) * b;
    assert QUEUE_SIZE * b == a * b + (QUEUE_SIZE - a) * b;
  }

  /** With every delay passed, each call brings the empty queue nearer. */
  lemma RunDrains(c: Setup, n: Node, now: nat)
    requires Inv(c, n) && AllDue(c, n.queue, now) && Count(n.queue) > 0
    ensures CallsLeft(c, Run(c, n, now)) < CallsLeft(c, n)
  {
    if !Occupied(n.queue[n.index]) {
      GapCloses(n.queue, n.index);
    } else if n.running && n.port + 1 >= c.ports {
      LastReplyDrains(c, n, now);
    } else {
      NextReplyDrains(c, n, now);
    }
  }

  lemma NextReplyDrains(c: Setup, n: Node, now: nat)
    requires Inv(c, n) && AllDue(c, n.queue, now) && Occupied(n.queue[n.index])
    requires n.running ==> n.port + 1 < c.ports
    ensures CallsLeft(c, Run(c, n, now)) < CallsLeft(c, n)
  {
    var n' := Run(c, n, now);
    assert n'.queue == n.queue && n'.index == n.index && n'.running;
    assert n'.port == if n.running then n.port + 1 else 0;
    CountZero(n.queue);
  }

  lemma LastReplyDrains(c: Setup, n: Node, now: nat)
    requires Inv(c, n) && n.running && n.port + 1 == c.ports
    ensures CallsLeft(c, Run(c, n, now)) < CallsLeft(c, n)
  {
    CountUpdate(n.queue, n.index, n.queue[n.index].(millis := 0));
    DropOne(Count(n.queue), c.ports + QUEUE_SIZE);
    CallsLeftPositive(c, n);
  }

  lemma DropOne(a: nat, b: nat)
    ensures a * b == (a - 1) * b + b
  {
  }

  lemma GapCloses(queue: seq<Slot>, index: nat)
    requires |queue| == QUEUE_SIZE && index < QUEUE_SIZE && Count(queue) > 0 && !Occupied(queue[index])
    ensures Gap(queue, if index + 1 == QUEUE_SIZE then 0 else index + 1) == Gap(queue, index) - 1
  {
    CountZero(queue);
    assert Occupied(queue[0]) || Occupied(queue[1]) || Occupied(queue[2]) || Occupied(queue[3]);
  }

  function Runs(c: Setup, n: Node, nows: seq<nat>): Node
    requires n.index < QUEUE_SIZE == |n.queue|
    decreases nows
  {
    if nows == [] then n else Runs(c, Run(c, n, nows[0]), nows[1..])
  }

  lemma DueAfterRun(c: Setup, n: Node, now: nat, later: nat)
    requires Inv(c, n) && AllDue(c, n.queue, later)
    ensures AllDue(c, Run(c, n, now).queue, later)
  {
  }

  /** With no new arrivals and all delays passed, the whole queue is answered within CallsLeft calls. */
  lemma {:induction false} Drained(c: Setup, n: Node, nows: seq<nat>)
    requires Inv(c, n)
    requires forall k | 0 <= k < |nows| :: AllDue(c, n.queue, nows[k])
    requires |nows| >= CallsLeft(c, n)
    ensures Inv(c, Runs(c, n, nows)) && Pending(Runs(c, n, nows).queue) == multiset{}
    ensures multiset(Runs(c, n, nows).accepted) == Polls(Runs(c, n, nows).served)
    decreases |nows|
  {
    CallsLeftPositive(c, n);
    if nows == [] {
      CountZero(n.queue);
      PendingNone(n.queue);
    } else {
      var n' := Run(c, n, nows[0]);
      RunInv(c, n, nows[0]);
      if Count(n.queue) > 0 {
        RunDrains(c, n, nows[0]);
      } else {
        IdleStays(c, n, nows[0]);
      }
      forall k | 0 <= k < |nows[1..]| ensures AllDue(c, n'.queue, nows[1..][k]) {
        DueAfterRun(c, n, nows[0], nows[k + 1]);
      }
      Drained(c, n', nows[1..]);
    }
  }

  lemma IdleStays(c: Setup, n: Node, now: nat)
    requires Inv(c, n) && Count(n.queue) == 0
    ensures CallsLeft(c, Run(c, n, now)) == 0
  {
    CountZero(n.queue);
  }

  // ---------- what Add does and does not promise ----------

  /** Entry k is free and all before it belong to other addresses. */
  ghost predicate FreeFirst(queue: seq<Slot>, k: nat, from: nat)
    requires k < |queue|
  {
    !Occupied(queue[k]) && forall i | 0 <= i < k :: Occupied(queue[i]) && queue[i].ip != from
  }

  /** A poll is accepted exactly when a free entry comes before any entry of its address and the clock is not 0. */
  lemma AcceptedIff(n: Node, now: nat, from: nat)
    ensures Add(n, now, from).accepted == n.accepted + [Slot(now, from)] <==>
            now != 0 && exists k :: 0 <= k < |n.queue| && FreeFirst(n.queue, k, from)
  {
    var k := StopsAt(n.queue, from);
    if i: nat :| i < |n.queue| && FreeFirst(n.queue, i, from) {
      assert k == i;
    }
    assert k < |n.queue| && !Occupied(n.queue[k]) ==> FreeFirst(n.queue, k, from);
  }

  ghost predicate Queued(queue: seq<Slot>, k: nat, from: nat) {
    k < |queue| && Occupied(queue[k]) && queue[k].ip == from
  }

  /**
   The test for "already queued" looks only as far as the first free entry: an address that is queued
   behind a free entry is queued a second time.
   */
  lemma QueuedTwiceIff(n: Node, now: nat, from: nat, k: nat)
    requires now != 0 && Queued(n.queue, k, from)
    ensures Add(n, now, from) != n <==>
            exists i :: 0 <= i < k && !Occupied(n.queue[i]) && forall j | 0 <= j < i :: !Queued(n.queue, j, from)
    ensures var q := Add(n, now, from).queue;
            Add(n, now, from) != n ==> Queued(q, k, from) && exists i :: 0 <= i < k && Queued(q, i, from)
  {
    var s := StopsAt(n.queue, from);
    assert s <= k;
    if i: nat :| i < k && !Occupied(n.queue[i]) && forall j | 0 <= j < i :: !Queued(n.queue, j, from) {
      assert s <= i;
      assert !Occupied(n.queue[s]) by {
        assert !Queued(n.queue, s, from) || s == i;
      }
      assert Add(n, now, from).accepted != n.accepted;
    }
    if Add(n, now, from) != n {
      assert s < k && !Occupied(n.queue[s]);
      assert forall j | 0 <= j < s :: !Queued(n.queue, j, from);
      assert Queued(Add(n, now, from).queue, s, from);
    }
  }

  // ---------- runs in which a poll is queued twice, or lost ----------

  /** The queue after a run, whose current entry is the first and not yet being answered. */
  ghost predicate Waiting(c: Setup, es: seq<Event>, queue: seq<Slot>) {
    var n := After(c, es);
    n.queue == queue && n.index == 0 && !n.running
  }

  /** The poll is stored in entry k, the first free one, if all before it belong to others. */
  lemma PollStored(c: Setup, es: seq<Event>, queue: seq<Slot>, now: nat, from: nat, k: nat)
    requires GoodSetup(c) && Waiting(c, es, queue) && k < |queue| && !Occupied(queue[k])
    requires forall i | 0 <= i < k :: PassedOver(queue[i], from)
    ensures Waiting(c, es + [Poll(now, from)], queue[k := Slot(now, from)])
    ensures After(c, es + [Poll(now, from)]).served == After(c, es).served
  {
    AfterSnoc(c, es, Poll(now, from));
    StopsAtIs(queue, from, k);
  }

  lemma OnePoll(c: Setup, p: nat) returns (es: seq<Event>)
    requires GoodSetup(c)
    ensures es == [Poll(1, p)] && After(c, es).served == []
    ensures Waiting(c, es, [Slot(1, p), Slot(0, 0), Slot(0, 0), Slot(0, 0)])
  {
    es := [];
    assert Waiting(c, es, [Slot(0, 0), Slot(0, 0), Slot(0, 0), Slot(0, 0)]);
    PollStored(c, es, [Slot(0, 0), Slot(0, 0), Slot(0, 0), Slot(0, 0)], 1, p, 0);
    es := es + [Poll(1, p)];
  }

  lemma TwoPolls(c: Setup, p: nat, q: nat) returns (es: seq<Event>)
    requires GoodSetup(c) && p != q
    ensures es == [Poll(1, p), Poll(1, q)] && After(c, es).served == []
    ensures Waiting(c, es, [Slot(1, p), Slot(1, q), Slot(0, 0), Slot(0, 0)])
  {
    es := OnePoll(c, p);
    PollStored(c, es, [Slot(1, p), Slot(0, 0), Slot(0, 0), Slot(0, 0)], 1, q, 1);
    es := es + [Poll(1, q)];
  }

  /** Two calls of Run answer the first entry if there is one port and its delay has passed. */
  lemma FirstAnswered(c: Setup, es: seq<Event>, queue: seq<Slot>, now: nat)
    requires GoodSetup(c) && c.ports == 1 && Waiting(c, es, queue) && queue != [] && Occupied(queue[0])
    requires Elapsed(now, queue[0].millis) > c.delay
    ensures Waiting(c, es + [Tick(now)] + [Tick(now)], queue[0 := queue[0].(millis := 0)])
  {
    AfterSnoc(c, es, Tick(now));
    AfterSnoc(c, es + [Tick(now)], Tick(now));
  }

  /** With one port: the second of two polls waits behind the entry of the answered first, and is queued again in it. */
  lemma QueuedTwiceRun(c: Setup, p: nat, q: nat) returns (es: seq<Event>)
    requires GoodSetup(c) && c.ports == 1 && c.delay < 4 && p != q
    ensures Waiting(c, es, [Slot(6, q), Slot(1, q), Slot(0, 0), Slot(0, 0)])
  {
    es := TwoPolls(c, p, q);
    FirstAnswered(c, es, [Slot(1, p), Slot(1, q), Slot(0, 0), Slot(0, 0)], 5);
    es := es + [Tick(5)] + [Tick(5)];
    assert Waiting(c, es, [Slot(0, p), Slot(1, q), Slot(0, 0), Slot(0, 0)]);
    PollStored(c, es, [Slot(0, p), Slot(1, q), Slot(0, 0), Slot(0, 0)], 6, q, 0);
    es := es + [Poll(6, q)];
  }

  /** A poll that arrives while the clock reads 0 is lost, after any run. */
  lemma LostAtClockZero(c: Setup, es: seq<Event>, from: nat)
    requires GoodSetup(c)
    ensures var n, n' := After(c, es), After(c, es + [Poll(0, from)]);
            n'.accepted == n.accepted && forall k, s | Occupied(s) :: Holds(n', k, s) ==> Holds(n, k, s)
  {
    AfterSnoc(c, es, Poll(0, from));
  }

  /** So is a poll that finds no free entry, in the state after any run. */
  lemma LostWhenFull(c: Setup, es: seq<Event>, now: nat, from: nat)
    requires GoodSetup(c)
    requires forall k | 0 <= k < QUEUE_SIZE :: PassedOver(After(c, es).queue[k], from)
    ensures After(c, es + [Poll(now, from)]) == After(c, es)
  {
    AfterSnoc(c, es, Poll(now, from));
    StopsAtIs(After(c, es).queue, from, QUEUE_SIZE);
  }

  /** Four polls fill the queue, and the fifth is lost. */
  lemma FifthPollLost(c: Setup, p: nat, q: nat, r: nat, s: nat, t: nat) returns (es: seq<Event>)
    requires GoodSetup(c)
    requires p != q && r != p && r != q && s != p && s != q && s != r && t != p && t != q && t != r && t != s
    ensures Waiting(c, es, [Slot(1, p), Slot(1, q), Slot(1, r), Slot(1, s)])
    ensures After(c, es + [Poll(1, t)]) == After(c, es)
  {
    es := TwoPolls(c, p, q);
    PollStored(c, es, [Slot(1, p), Slot(1, q), Slot(0, 0), Slot(0, 0)], 1, r, 2);
    es := es + [Poll(1, r)];
    assert Waiting(c, es, [Slot(1, p), Slot(1, q), Slot(1, r), Slot(0, 0)]);
    PollStored(c, es, [Slot(1, p), Slot(1, q), Slot(1, r), Slot(0, 0)], 1, s, 3);
    es := es + [Poll(1, s)];
    LostWhenFull(c, es, 1, t);
  }
}
