/**
 The queue between the USB callback and the conversion thread (FrameBufferRing.cpp, enqueuePendingFrame to
 completePendingFrame) and the conversion loop that empties it (UVCPreview.cpp), one atomic operation at a
 time, with one producer and one consumer, for any queue size of at least two.
 */
module PendingQueue {
  import opened Powers

  // ----- indices modulo the size -----

  /** The next index of a counter. */
  lemma ModNext(k: nat, n: nat)
    requires n >= 1
    ensures (k % n + 1) % n == (k + 1) % n
  {
    var q, r := k / n, k % n;
    DivSum(k, n);
    NextMultiple(q, n);
    if r + 1 < n {
      DivIs(k + 1, n, q, r + 1);
    } else {
      DivIs(k + 1, n, q + 1, 0);
    }
  }

  /** Counters less than the size apart have different indices. */
  lemma ModDistinct(j: nat, k: nat, n: nat)
    requires n >= 1 && j < k < j + n
    ensures j % n != k % n
  {
    var q, r, d := j / n, j % n, k - j;
    DivSum(j, n);
    NextMultiple(q, n);
    if r + d < n {
      DivIs(k, n, q, r + d);
    } else {
      DivIs(k, n, q + 1, r + d - n);
    }
  }

  lemma ModRound(k: nat, n: nat)
    requires n >= 1
    ensures (k + n) % n == k % n
  {
    DivSum(k, n);
    NextMultiple(k / n, n);
    DivIs(k + n, n, k / n + 1, k % n);
  }

  // ----- the state -----

  datatype Slot = Slot(ready: bool, data: int)

  datatype Producer =
    | Ready
    | LoadRead(frame: int, writeIdx: nat)
    | Writing(frame: int, writeIdx: nat, next: nat)
    | Publish(frame: int, writeIdx: nat, next: nat)
    | Advance(frame: int, next: nat)

  datatype Consumer =
    | Polling
    | LoadWrite(readIdx: nat)
    | CheckReady(readIdx: nat)
    // a frame is dequeued; committed tells whether it has gone to the display
    | Converting(readIdx: nat, committed: bool)
    | ClearReady(readIdx: nat)
    | AdvanceRead

  /**
   accepted, completed: the frames put into and taken out of the queue; committed: those sent on to the
   display, by their position among the accepted ones. Only the slots, indices and program counters are real.
   */
  datatype State = State(slots: seq<Slot>, writeIdx: nat, readIdx: nat, p: Producer, c: Consumer,
                         accepted: seq<int>, completed: seq<int>, committed: seq<nat>)

  // ----- the steps -----

  /** What the producer and the consumer may choose. */
  datatype Choice = Frame(frame: int) | Fail | Proceed | Commit

  predicate InRange(s: State)
  {
    && |s.slots| >= 2 && s.writeIdx < |s.slots| && s.readIdx < |s.slots|
    && (s.p.LoadRead? || s.p.Writing? || s.p.Publish? ==> s.p.writeIdx < |s.slots|)
    && (s.p.Writing? || s.p.Publish? || s.p.Advance? ==> s.p.next < |s.slots|)
    && (s.c.LoadWrite? || s.c.CheckReady? || s.c.Converting? || s.c.ClearReady? ==> s.c.readIdx < |s.slots|)
  }

  /** enqueuePendingFrame */
  function ProducerStep(s: State, ch: Choice): State
    requires InRange(s)
  {
    match s.p
    case Ready => if ch.Frame? then s.(p := LoadRead(ch.frame, s.writeIdx)) else s
    case LoadRead(frame, w) =>
      var next := (w + 1) % |s.slots|;
      // a full queue drops the frame; so does a slot whose buffer cannot be made large enough
      if next == s.readIdx || ch.Fail? then s.(p := Ready) else s.(p := Writing(frame, w, next))
    case Writing(frame, w, next) =>
      s.(slots := s.slots[w := s.slots[w].(data := frame)], p := Publish(frame, w, next))
    case Publish(frame, w, next) =>
      s.(slots := s.slots[w := s.slots[w].(ready := true)], p := Advance(frame, next))
    case Advance(frame, next) => s.(writeIdx := next, p := Ready, accepted := s.accepted + [frame])
  }

  /** dequeuePendingFrame, one turn of the conversion loop, completePendingFrame */
  function ConsumerStep(s: State, ch: Choice): State
    requires InRange(s)
  {
    match s.c
    case Polling => s.(c := LoadWrite(s.readIdx))
    case LoadWrite(r) => if r == s.writeIdx then s.(c := Polling) else s.(c := CheckReady(r))
    case CheckReady(r) => if s.slots[r].ready then s.(c := Converting(r, false)) else s.(c := Polling)
    case Converting(r, committed) =>
      // the write buffer may not be locked, the frame may not convert, or the output may be idle: no commit
      if ch.Commit? && !committed then
        s.(c := Converting(r, true), committed := s.committed + [|s.completed|])
      else s.(c := ClearReady(r))
    case ClearReady(r) => s.(slots := s.slots[r := s.slots[r].(ready := false)], c := AdvanceRead)
    case AdvanceRead =>
      s.(readIdx := (s.readIdx + 1) % |s.slots|, c := Polling, completed := s.completed + [s.slots[s.readIdx].data])
  }

  function Step(s: State, producer: bool, ch: Choice): State
    requires InRange(s)
  {
    if producer then ProducerStep(s, ch) else ConsumerStep(s, ch)
  }

  // ----- the invariant -----

  /** Counters of the frames that have entered and left. */
  function Wc(s: State): nat { |s.accepted| }
  function Rc(s: State): nat { |s.completed| }

  ghost predicate Indices(s: State)
  {
    && InRange(s) && Rc(s) <= Wc(s) < Rc(s) + |s.slots|
    && s.writeIdx == Wc(s) % |s.slots| && s.readIdx == Rc(s) % |s.slots|
  }

  /** Waiting frames are in their slots, ready, except that the head may have been cleared already. */
  ghost predicate Waiting(s: State)
    requires InRange(s)
  {
    forall k :: Rc(s) <= k < Wc(s) ==>
      && s.slots[k % |s.slots|].data == s.accepted[k]
      && (s.slots[k % |s.slots|].ready || (k == Rc(s) && s.c.AdvanceRead?))
  }

  ghost predicate ProducerOk(s: State)
  {
    && InRange(s)
    && (s.p.LoadRead? ==> s.p.writeIdx == s.writeIdx)
    && (s.p.Writing? || s.p.Publish? ==> s.p.writeIdx == s.writeIdx)
    && (s.p.Writing? || s.p.Publish? || s.p.Advance? ==>
        Wc(s) + 1 < Rc(s) + |s.slots| && s.p.next == (Wc(s) + 1) % |s.slots|)
    && (s.p.Publish? || s.p.Advance? ==> s.slots[s.writeIdx].data == s.p.frame)
    && (s.p.Advance? ==> s.slots[s.writeIdx].ready)
  }

  ghost predicate ConsumerOk(s: State)
  {
    && (s.c.LoadWrite? || s.c.CheckReady? || s.c.Converting? || s.c.ClearReady? ==> s.c.readIdx == s.readIdx)
    && (s.c.CheckReady? || s.c.Converting? || s.c.ClearReady? || s.c.AdvanceRead? ==> Rc(s) < Wc(s))
  }

  ghost predicate Ascending(a: seq<nat>)
  {
    forall i, j :: 0 <= i < j < |a| ==> a[i] < a[j]
  }

  /** Completed frames are the first accepted ones; committed ones are some of those, in order. */
  ghost predicate History(s: State)
  {
    && Rc(s) <= Wc(s) && (forall k :: 0 <= k < Rc(s) ==> s.completed[k] == s.accepted[k])
    && Ascending(s.committed)
    && (forall i :: 0 <= i < |s.committed| ==>
        s.committed[i] < Rc(s) || (s.committed[i] == Rc(s) && CommittedHead(s)))
  }

  /** The frame being handled may be the last committed one; before its turn it is not. */
  predicate CommittedHead(s: State)
  {
    (s.c.Converting? && s.c.committed) || s.c.ClearReady? || s.c.AdvanceRead?
  }

  ghost predicate Inv(s: State)
  {
    Indices(s) && Waiting(s) && ProducerOk(s) && ConsumerOk(s) && History(s)
  }

  lemma ProducerLoads(s: State, ch: Choice)
    requires Inv(s) && (s.p.Ready? || s.p.LoadRead?)
    ensures Inv(ProducerStep(s, ch))
  {
    var n := |s.slots|;
    ModNext(Wc(s), n);
    ModRound(Rc(s), n);
  }

  lemma ProducerFills(s: State, ch: Choice)
    requires Inv(s) && (s.p.Writing? || s.p.Publish?)
    ensures Inv(ProducerStep(s, ch))
  {
    OtherSlots(s);
  }

  lemma ProducerAdvances(s: State, ch: Choice)
    requires Inv(s) && s.p.Advance?
    ensures Inv(ProducerStep(s, ch))
  {
    var s' := ProducerStep(s, ch);
    forall k | Rc(s) <= k < Wc(s')
      ensures s'.slots[k % |s.slots|].data == s'.accepted[k]
      ensures s'.slots[k % |s.slots|].ready || (k == Rc(s) && s.c.AdvanceRead?)
    {
      if k < Wc(s) {
        assert s.slots[k % |s.slots|].data == s.accepted[k];
      }
    }
  }

  /** The slot being filled holds no waiting frame. */
  lemma OtherSlots(s: State)
    requires Indices(s)
    ensures forall k :: Rc(s) <= k < Wc(s) ==> k % |s.slots| != s.writeIdx
  {
    forall k | Rc(s) <= k < Wc(s) ensures k % |s.slots| != s.writeIdx {
      ModDistinct(k, Wc(s), |s.slots|);
    }
  }

  lemma ConsumerKeeps(s: State, ch: Choice)
    requires Inv(s)
    ensures Inv(ConsumerStep(s, ch))
  {
    if s.c.ClearReady? {
      ConsumerClears(s, ch);
    } else if s.c.AdvanceRead? {
      ConsumerAdvances(s, ch);
    }
  }

  lemma ConsumerClears(s: State, ch: Choice)
    requires Inv(s) && s.c.ClearReady?
    ensures Inv(ConsumerStep(s, ch))
  {
    forall k | Rc(s) < k < Wc(s) ensures k % |s.slots| != s.readIdx {
      ModDistinct(Rc(s), k, |s.slots|);
    }
    OtherSlots(s);
  }

  lemma ConsumerAdvances(s: State, ch: Choice)
    requires Inv(s) && s.c.AdvanceRead?
    ensures Inv(ConsumerStep(s, ch))
  {
    ModNext(Rc(s), |s.slots|);
  }

  lemma StepKeeps(s: State, producer: bool, ch: Choice)
    requires Inv(s)
    ensures Inv(Step(s, producer, ch))
  {
    hide Indices, Waiting, ConsumerOk, History, ProducerStep, ConsumerStep;
    if !producer {
      ConsumerKeeps(s, ch);
    } else if s.p.Ready? || s.p.LoadRead? {
      ProducerLoads(s, ch);
    } else if s.p.Advance? {
      ProducerAdvances(s, ch);
    } else {
      ProducerFills(s, ch);
    }
  }

  // ----- all runs -----

  datatype Event = Event(producer: bool, ch: Choice)

  function Initial(n: nat): State
  {
    State(seq(n, i => Slot(false, 0)), 0, 0, Ready, Polling, [], [], [])
  }

  ghost predicate IsRun(n: nat, events: seq<Event>, states: seq<State>)
  {
    && n >= 2 && |states| == |events| + 1 && states[0] == Initial(n)
    && forall k :: 0 <= k < |events| ==>
      InRange(states[k]) && states[k + 1] == Step(states[k], events[k].producer, events[k].ch)
  }

  lemma {:induction false} RunKeeps(n: nat, events: seq<Event>, states: seq<State>, k: nat)
    requires IsRun(n, events, states) && k <= |events|
    ensures Inv(states[k])
  {
    hide Inv, Step, InRange;
    if k == 0 {
      InitialInv(n);
    } else {
      RunKeeps(n, events, states, k - 1);
      StepKeeps(states[k - 1], events[k - 1].producer, events[k - 1].ch);
    }
  }

  lemma InitialInv(n: nat)
    requires n >= 2
    ensures Inv(Initial(n))
  {
  }

  /**
   In every state of every run: the producer and the consumer are never in the same slot; the head of a
   non-empty queue is ready when it is looked at; the completed frames are the first of the accepted ones;
   and the frames sent to the display are some of the accepted ones, in their order, each once.
   */
  lemma QueueSafe(n: nat, events: seq<Event>, states: seq<State>, k: nat)
    requires IsRun(n, events, states) && k <= |events|
    ensures var s := states[k];
      && InRange(s)
      && ((s.p.Writing? || s.p.Publish?) && (s.c.Converting? || s.c.ClearReady?) ==> s.p.writeIdx != s.c.readIdx)
      && (s.c.CheckReady? ==> s.slots[s.c.readIdx].ready)
      && s.completed <= s.accepted
      && Ascending(s.committed) && (forall i :: 0 <= i < |s.committed| ==> s.committed[i] < |s.accepted|)
    ensures var s := states[k];
      s.c.Converting? ==> Rc(s) < Wc(s) && s.slots[s.c.readIdx].data == s.accepted[Rc(s)]
  {
    RunKeeps(n, events, states, k);
    var s := states[k];
    if Rc(s) < Wc(s) {
      ModDistinct(Rc(s), Wc(s), |s.slots|);
      assert s.slots[Rc(s) % |s.slots|].data == s.accepted[Rc(s)];
    }
  }

  /** A frame whose slot can be prepared is refused exactly when all slots but one hold waiting frames. */
  lemma RefusedOnlyWhenFull(s: State)
    requires Inv(s) && s.p.LoadRead?
    ensures ProducerStep(s, Proceed).p.Ready? <==> Wc(s) == Rc(s) + |s.slots| - 1
  {
    var n := |s.slots|;
    ModNext(Wc(s), n);
    ModRound(Rc(s), n);
    if Wc(s) + 1 < Rc(s) + n {
      ModDistinct(Rc(s), Wc(s) + 1, n);
    }
  }
}
