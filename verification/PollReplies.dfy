/**
 The poll-reply part of ArtNetNode as a class: state_.art's fields are its fields, and both methods
 are proved to take the step of PollModel.
 */
module PollReplies {
  import opened PollModel

  class ArtNetNode {
    const setup: Setup
    const queue: array<Slot>
    var index: nat
    var port: nat
    var running: bool
    /** The calls of SendPollReply so far. */
    var sent: seq<Reply>
    ghost var history: Node

    ghost predicate Valid()
      reads this, queue
    {
      Inv(setup, history) && Matches()
    }

    /** The fields are those of the abstract node. */
    ghost predicate Matches()
      reads this, queue
    {
      && history.queue == queue[..] && history.index == index && history.port == port
      && history.running == running && history.log == sent
    }

    constructor (setup: Setup)
      requires GoodSetup(setup)
      ensures Valid() && fresh(queue) && this.setup == setup && history == Start()
    {
      this.setup := setup;
      queue := new Slot[QUEUE_SIZE](_ => Slot(0, 0));
      index, port, running, sent := 0, 0, false, [];
      history := Start();
      new;
      StartInv(setup);
      assert queue[..] == Start().queue;
    }

    /** PollReplyQueueAdd at the time `now`, for a poll that came from `from`. */
    method PollReplyQueueAdd(now: nat, from: nat)
      requires Valid()
      modifies queue, `history
      ensures Valid()
      ensures history == Add(old(history), now, from)
    {
      AddInv(setup, history, now, from);
      Enqueue(now, from);
    }

    method Enqueue(now: nat, from: nat)
      requires Matches()
      modifies queue, `history
      ensures Matches()
      ensures history == Add(old(history), now, from)
    {
      var k := 0;
      while k < queue.Length
        invariant 0 <= k <= queue.Length
        invariant forall i | 0 <= i < k :: PassedOver(queue[i], from)
      {
        if (queue[k].ip == from && queue[k].millis != 0) || queue[k].millis == 0 {
          break;
        }
        k := k + 1;
      }
      StopsAtIs(queue[..], from, k);
      history := Add(history, now, from);
      if k < queue.Length && queue[k].millis == 0 {
        queue[k] := Slot(now, from);
      }
    }

    /** Run, from the line that takes the current queue entry on. */
    method Run(now: nat)
      requires Valid()
      modifies this, queue
      ensures Valid()
      ensures history == PollModel.Run(setup, old(history), now)
    {
      RunInv(setup, history, now);
      Advance(now);
    }

    method Advance(now: nat)
      requires Matches() && queue.Length == QUEUE_SIZE && index < QUEUE_SIZE
      modifies this, queue
      ensures Matches()
      ensures history == PollModel.Run(setup, old(history), now)
    {
      history := PollModel.Run(setup, history, now);
      var entry := queue[index];
      if entry.millis != 0 {
        if !running {
          if Elapsed(now, entry.millis) > setup.delay {
            running := true;
            port := 0;
          }
        } else {
          sent := sent + [Reply(port, entry.ip)];
          port := (port + 1) % 0x100;
          if port >= setup.ports {
            queue[index] := entry.(millis := 0);
            running := false;
          }
        }
      } else {
        index := index + 1;
        if index == QUEUE_SIZE {
          index := 0;
        }
      }
    }
  }
}
