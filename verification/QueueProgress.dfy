/**
 The pending queue moves on: frames accepted are dequeued, completed and, where they convert, committed after a
 bounded number of steps of the consumer, and a frame offered to a queue with room is accepted, whatever the other
 thread does in between.
 */
module QueueProgress {
  import opened PendingQueue

  /** The state after some steps. */
  function Play(s: State, events: seq<Event>): State
    requires Inv(s)
    decreases |events|
  {
    if events == [] then s
    else
      StepKeeps(s, events[0].producer, events[0].ch);
      Play(Step(s, events[0].producer, events[0].ch), events[1..])
  }

  function ConsumerSteps(events: seq<Event>): nat
  {
    if events == [] then 0 else (if events[0].producer then 0 else 1) + ConsumerSteps(events[1..])
  }

  // ----- one step -----

  /** A step of the producer leaves the consumer alone, and what has been accepted. */
  lemma ProducerApart(s: State, ch: Choice)
    requires Inv(s)
    ensures var t := ProducerStep(s, ch);
      t.c == s.c && t.readIdx == s.readIdx && t.completed == s.completed && t.committed == s.committed
      && s.accepted <= t.accepted && |t.slots| == |s.slots|
  {
  }

  /** The head of a queue with frames waiting: not at the write index, and ready. */
  lemma HeadReady(s: State)
    requires Inv(s) && Rc(s) < Wc(s) && !s.c.AdvanceRead?
    ensures s.readIdx != s.writeIdx && s.slots[s.readIdx].ready && s.slots[s.readIdx].data == s.accepted[Rc(s)]
  {
    ModDistinct(Rc(s), Wc(s), |s.slots|);
    assert s.slots[Rc(s) % |s.slots|].data == s.accepted[Rc(s)];
  }

  /** How far the consumer has come with the head of the queue. */
  function Stage(c: Consumer): nat
  {
    match c
    case Polling => 0
    case LoadWrite(_) => 1
    case CheckReady(_) => 2
    case Converting(_, committed) => if committed then 4 else 3
    case ClearReady(_) => 5
    case AdvanceRead => 6
  }

  /** Completed frames count seven stages each. */
  function Progress(s: State): nat { 7 * Rc(s) + Stage(s.c) }

  /** With frames waiting, no step of the consumer is in vain. */
  lemma ConsumerMoves(s: State, ch: Choice)
    requires Inv(s) && Rc(s) < Wc(s)
    ensures var t := ConsumerStep(s, ch);
      && t.accepted == s.accepted && Progress(s) < Progress(t)
      && (Stage(s.c) < 3 ==> Progress(t) == Progress(s) + 1)
      && Rc(t) == Rc(s) + if s.c.AdvanceRead? then 1 else 0
  {
    if !s.c.AdvanceRead? {
      HeadReady(s);
    }
  }

  // ----- many steps -----

  /** A polling consumer has the head of the queue after three steps of its own. */
  lemma {:induction false} Dequeues(s: State, events: seq<Event>, stage: nat)
    requires Inv(s) && Rc(s) < Wc(s) && Stage(s.c) == stage <= 3
    requires ConsumerSteps(events) == 3 - stage
    ensures var t := Play(s, events);
      && Inv(t) && t.c == Converting(t.readIdx, false) && t.readIdx == s.readIdx && Rc(t) == Rc(s)
      && t.readIdx < |t.slots| && t.slots[t.readIdx].data == s.accepted[Rc(s)]
    decreases |events|
  {
    hide Inv, ProducerStep, ConsumerStep, InRange;
    if events == [] {
      Arrived(s);
    } else {
      var ch := events[0].ch;
      StepKeeps(s, events[0].producer, ch);
      InRangeOf(s);
      if events[0].producer {
        ProducerApart(s, ch);
        Dequeues(ProducerStep(s, ch), events[1..], stage);
      } else {
        ConsumerMoves(s, ch);
        StageKeepsIndex(s, ch);
        Dequeues(ConsumerStep(s, ch), events[1..], stage + 1);
      }
    }
  }

  lemma InRangeOf(s: State)
    requires Inv(s)
    ensures InRange(s)
  {
  }

  lemma Arrived(s: State)
    requires Inv(s) && Rc(s) < Wc(s) && Stage(s.c) == 3
    ensures s.c == Converting(s.readIdx, false) && s.readIdx < |s.slots| && s.slots[s.readIdx].data == s.accepted[Rc(s)]
  {
    HeadReady(s);
  }

  lemma StageKeepsIndex(s: State, ch: Choice)
    requires Inv(s) && Stage(s.c) < 3
    ensures ConsumerStep(s, ch).readIdx == s.readIdx && ConsumerStep(s, ch).completed == s.completed
  {
  }

  /** Seven steps of the consumer for each waiting frame complete them all, in order, whatever is added meanwhile. */
  lemma {:induction false} Drains(s: State, events: seq<Event>, n: nat)
    requires Inv(s) && n <= Wc(s) && ConsumerSteps(events) + Progress(s) >= 7 * n
    ensures var t := Play(s, events); Inv(t) && Rc(t) >= n && s.accepted <= t.accepted && t.completed <= t.accepted
    ensures Play(s, events).completed[..n] == s.accepted[..n]
    decreases |events|
  {
    hide Inv, ProducerStep, ConsumerStep, InRange;
    if events == [] {
      InRangeOf(s);
      CompletedFirst(s);
      StageBound(s.c);
    } else {
      var ch := events[0].ch;
      StepKeeps(s, events[0].producer, ch);
      InRangeOf(s);
      if events[0].producer {
        ProducerApart(s, ch);
        Drains(ProducerStep(s, ch), events[1..], n);
      } else if Rc(s) < n {
        ConsumerMoves(s, ch);
        Drains(ConsumerStep(s, ch), events[1..], n);
      } else {
        NothingUndone(s, ch);
        Drains(ConsumerStep(s, ch), events[1..], n);
      }
    }
  }

  lemma StageBound(c: Consumer)
    ensures Stage(c) <= 6
  {
  }

  lemma CompletedFirst(s: State)
    requires Inv(s)
    ensures s.completed <= s.accepted
  {
  }

  lemma NothingUndone(s: State, ch: Choice)
    requires Inv(s)
    ensures var t := ConsumerStep(s, ch); t.accepted == s.accepted && Rc(t) >= Rc(s)
  {
  }

  // ----- commits -----

  /** Every choice of the consumer is to commit. */
  predicate AlwaysCommits(events: seq<Event>)
  {
    forall i :: 0 <= i < |events| && !events[i].producer ==> events[i].ch.Commit?
  }

  /** All completed frames have been committed, each once and in order, and the head if its turn has come. */
  ghost predicate AllCommitted(s: State)
  {
    s.committed == seq(Rc(s) + if CommittedHead(s) then 1 else 0, i => i)
  }

  lemma CommitKeeps(s: State)
    requires Inv(s) && AllCommitted(s)
    ensures AllCommitted(ConsumerStep(s, Commit))
  {
  }

  /** When every frame converts, every completed frame has gone to the display. */
  lemma {:induction false} Commits(s: State, events: seq<Event>)
    requires Inv(s) && AllCommitted(s) && AlwaysCommits(events)
    ensures AllCommitted(Play(s, events))
    decreases |events|
  {
    hide Inv, ProducerStep, ConsumerStep, AllCommitted, InRange;
    if events != [] {
      var ch := events[0].ch;
      StepKeeps(s, events[0].producer, ch);
      InRangeOf(s);
      if events[0].producer {
        ProducerApart(s, ch);
        SameCommitted(s, ProducerStep(s, ch));
        Commits(ProducerStep(s, ch), events[1..]);
      } else {
        CommitKeeps(s);
        Commits(ConsumerStep(s, ch), events[1..]);
      }
    }
  }

  lemma SameCommitted(s: State, t: State)
    requires AllCommitted(s) && t.c == s.c && t.completed == s.completed && t.committed == s.committed
    ensures AllCommitted(t)
  {
  }

  // ----- the producer -----

  /** The producer, j steps into enqueuing frame f after the frames acc. */
  ghost predicate Offering(s: State, acc: seq<int>, f: int, j: nat)
  {
    && j <= 5
    && (j == 0 ==> s.p.Ready? && s.accepted == acc)
    && (j == 1 ==> s.p.LoadRead? && s.p.frame == f && s.accepted == acc)
    && (j == 2 ==> s.p.Writing? && s.p.frame == f && s.accepted == acc)
    && (j == 3 ==> s.p.Publish? && s.p.frame == f && s.accepted == acc)
    && (j == 4 ==> s.p.Advance? && s.p.frame == f && s.accepted == acc)
    && (j == 5 ==> s.p.Ready? && s.accepted == acc + [f])
  }

  lemma OfferStep(s: State, acc: seq<int>, f: int, j: nat, ch: Choice)
    requires Inv(s) && Offering(s, acc, f, j) && j < 5 && |acc| + 1 < Rc(s) + |s.slots|
    requires ch == if j == 0 then Frame(f) else Proceed
    ensures Offering(ProducerStep(s, ch), acc, f, j + 1)
  {
    if j == 1 {
      RefusedOnlyWhenFull(s);
    }
  }

  lemma ConsumerApart(s: State, ch: Choice)
    requires Inv(s)
    ensures var t := ConsumerStep(s, ch); t.p == s.p && t.accepted == s.accepted && Rc(t) >= Rc(s) && |t.slots| == |s.slots|
  {
  }

  /** The producer is offered f and then goes on, for the rest of its five steps. */
  predicate Offers(events: seq<Event>, f: int, j: nat)
    decreases |events|
  {
    if events == [] then j == 5
    else if events[0].producer then
      j < 5 && events[0].ch == (if j == 0 then Frame(f) else Proceed) && Offers(events[1..], f, j + 1)
    else Offers(events[1..], f, j)
  }

  /** A frame offered while there is room is accepted, with any steps of the consumer in between. */
  lemma {:induction false} Enqueues(s: State, events: seq<Event>, acc: seq<int>, f: int, j: nat)
    requires Inv(s) && Offering(s, acc, f, j) && Offers(events, f, j) && |acc| + 1 < Rc(s) + |s.slots|
    ensures Play(s, events).accepted == acc + [f]
    decreases |events|
  {
    hide Inv, ProducerStep, ConsumerStep, InRange, Offering;
    if events == [] {
      Offered(s, acc, f);
    } else {
      var ch := events[0].ch;
      StepKeeps(s, events[0].producer, ch);
      InRangeOf(s);
      if events[0].producer {
        OfferStep(s, acc, f, j, ch);
        ProducerApart(s, ch);
        Enqueues(ProducerStep(s, ch), events[1..], acc, f, j + 1);
      } else {
        ConsumerApart(s, ch);
        SameOffer(s, ConsumerStep(s, ch), acc, f, j);
        Enqueues(ConsumerStep(s, ch), events[1..], acc, f, j);
      }
    }
  }

  lemma Offered(s: State, acc: seq<int>, f: int)
    requires Offering(s, acc, f, 5)
    ensures s.accepted == acc + [f]
  {
  }

  lemma SameOffer(s: State, t: State, acc: seq<int>, f: int, j: nat)
    requires Offering(s, acc, f, j) && t.p == s.p && t.accepted == s.accepted
    ensures Offering(t, acc, f, j)
  {
  }
}
