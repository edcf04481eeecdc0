/**
 The hand-over moves on: a ring injected is used by the callbacks that come, a clearing ends once the callbacks on
 their way have left, and the ring is freed then.
 */
module RingProgress {
  import opened RingHandover

  /** Steps of callbacks only: the owner stands still. */
  predicate CallbacksOnly(events: seq<nat>, n: nat)
  {
    forall i :: 0 <= i < |events| ==> events[i] < n
  }

  function Play(s: State, events: seq<nat>): (r: State)
    requires CallbacksOnly(events, |s.callbacks|)
    ensures |r.callbacks| == |s.callbacks|
    ensures r.owner == s.owner && r.useRing == s.useRing && r.injected == s.injected && r.ring == s.ring
      && r.deleted == s.deleted && r.clearing == s.clearing
    decreases |events|
  {
    if events == [] then s else Play(CallbackStep(s, events[0]), events[1..])
  }

  /** Steps that callback t takes. */
  function Turns(events: seq<nat>, t: nat): nat
  {
    if events == [] then 0 else (if events[0] == t then 1 else 0) + Turns(events[1..], t)
  }

  lemma {:induction false} PlayKeeps(s: State, events: seq<nat>)
    requires Inv(s) && CallbacksOnly(events, |s.callbacks|)
    ensures Inv(Play(s, events))
    decreases |events|
  {
    hide Inv, CallbackStep;
    if events != [] {
      CallbackKeeps(s, events[0]);
      StepSized(s, events[0]);
      PlayKeeps(CallbackStep(s, events[0]), events[1..]);
    }
  }

  lemma StepSized(s: State, t: nat)
    requires t < |s.callbacks|
    ensures |CallbackStep(s, t).callbacks| == |s.callbacks|
    ensures forall u :: 0 <= u < |s.callbacks| && u != t ==> CallbackStep(s, t).callbacks[u] == s.callbacks[u]
  {
  }

  // ----- an injected ring is used -----

  /** Where a callback is after k steps with the ring in place. */
  function After(ring: int, k: nat): Callback
  {
    if k == 0 then Idle else if k == 1 then Enter else if k == 2 then LoadRing else if k == 3 then LoadInjected(ring)
    else if k == 4 then Using(ring) else Leave
  }

  /** Once a ring is in place, every callback that comes uses it, after four steps of its own. */
  lemma {:induction false} Uses(s: State, events: seq<nat>, t: nat, k: nat)
    requires s.useRing && s.injected && s.ring != 0 && t < |s.callbacks| && CallbacksOnly(events, |s.callbacks|)
    requires k <= 4 && s.callbacks[t] == After(s.ring, k) && k + Turns(events, t) == 4
    ensures Play(s, events).callbacks[t] == Using(s.ring)
    decreases |events|
  {
    hide After;
    if events == [] {
      AfterFour(s.ring);
    } else {
      var s1 := CallbackStep(s, events[0]);
      StepSized(s, events[0]);
      if events[0] == t {
        OneFurther(s, t, k);
        Uses(s1, events[1..], t, k + 1);
      } else {
        Uses(s1, events[1..], t, k);
      }
    }
  }

  lemma AfterFour(ring: int)
    ensures After(ring, 4) == Using(ring)
  {
  }

  lemma OneFurther(s: State, t: nat, k: nat)
    requires s.useRing && s.injected && s.ring != 0 && t < |s.callbacks| && k < 5 && s.callbacks[t] == After(s.ring, k)
    ensures CallbackStep(s, t).callbacks[t] == After(s.ring, k + 1)
  {
  }

  /** The three stores of an injection put the ring in place. */
  lemma Injects(s: State, ring: int)
    requires s.owner.Free?
    ensures var s1 := OwnerStep(s, Inject(ring));
      var s2 := OwnerStep(OwnerStep(OwnerStep(s1, Clear), Clear), Clear);
      s2 == s.(ring := ring, injected := true, useRing := true)
  {
  }

  // ----- a clearing ends -----

  /** Steps a callback still has to take when no new ones come. */
  function Remaining(c: Callback): nat
  {
    match c
    case Idle => 0
    case Enter => 5
    case LoadRing => 4
    case LoadInjected(_) => 3
    case Using(_) => 2
    case Leave => 1
  }

  /** With the use flag down a callback leaves after five steps at most, and none comes. */
  lemma {:induction false} Leaves(s: State, events: seq<nat>, t: nat)
    requires !s.useRing && t < |s.callbacks| && CallbacksOnly(events, |s.callbacks|)
    requires Turns(events, t) >= Remaining(s.callbacks[t])
    ensures Play(s, events).callbacks[t].Idle?
    decreases |events|
  {
    hide Remaining;
    if events == [] {
      NoneRemaining(s.callbacks[t]);
    } else {
      StepSized(s, events[0]);
      if events[0] == t {
        OneFewer(s, t);
      }
      Leaves(CallbackStep(s, events[0]), events[1..], t);
    }
  }

  lemma NoneRemaining(c: Callback)
    requires Remaining(c) == 0
    ensures c.Idle?
  {
  }

  lemma OneFewer(s: State, t: nat)
    requires !s.useRing && t < |s.callbacks|
    ensures var c := CallbackStep(s, t).callbacks[t];
      Remaining(c) <= if Remaining(s.callbacks[t]) == 0 then 0 else Remaining(s.callbacks[t]) - 1
  {
  }

  lemma {:induction false} AllIdle(callbacks: seq<Callback>, n: nat)
    requires n <= |callbacks| && forall t :: 0 <= t < n ==> callbacks[t].Idle?
    ensures Count(callbacks, n) == 0
  {
    if n > 0 {
      AllIdle(callbacks, n - 1);
    }
  }

  /** The drain ends when every callback has had five turns, in any order. */
  lemma Drains(s: State, events: seq<nat>)
    requires Inv(s) && s.owner.Drain? && CallbacksOnly(events, |s.callbacks|)
    requires forall t :: 0 <= t < |s.callbacks| ==> Turns(events, t) >= 5
    ensures Play(s, events).inFlight == 0 && Play(s, events).owner.Drain?
  {
    hide CallbackStep;
    var r := Play(s, events);
    PlayKeeps(s, events);
    forall t | 0 <= t < |s.callbacks| ensures r.callbacks[t].Idle? {
      Leaves(s, events, t);
    }
    AllIdle(r.callbacks, |r.callbacks|);
  }

  /** After the drain four steps of the owner free the ring, once, and leave none in place. */
  lemma Frees(s: State)
    requires Inv(s) && s.owner.Drain? && s.inFlight == 0
    ensures var r := OwnerStep(OwnerStep(OwnerStep(OwnerStep(s, Clear), Clear), Clear), Clear);
      r == s.(owner := Free, ring := 0, clearing := false, deleted := if s.ring != 0 then s.deleted + {s.ring} else s.deleted)
  {
  }

  /** A clearing that finds the ring in use comes to the drain with both flags down. */
  lemma Clears(s: State)
    requires s.owner.Free?
    ensures var r := OwnerStep(OwnerStep(OwnerStep(s, Clear), Clear), Clear);
      r == s.(clearing := true, useRing := false, injected := false, owner := if s.useRing then Drain else TakeRing)
  {
  }
}
