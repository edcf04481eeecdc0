/**
 Taking the ring away from the USB callbacks (UVCPreview.cpp): the ring path of uvc_preview_frame_callback,
 the stores of setFrameBufferRing, and the signal, drain and destroy steps of clearRingBuffer, one atomic
 operation at a time, for any number of callbacks in any interleaving.
 */
module RingHandover {

  /** The next atomic operation of a callback. */
  datatype Callback =
    | Idle
    | Enter
    | LoadRing
    | LoadInjected(ring: int)
    | Using(ring: int)
    | Leave

  /**
   The next operation of the thread that clears or injects. The flag mClearingRingBuffer lets one thread
   at a time past the start of clearRingBuffer; injection is assumed not to overlap it.
   */
  datatype Owner =
    | Free
    // clearRingBuffer
    | ClearUse
    | ClearInjected(wasUsing: bool)
    | Drain
    | TakeRing
    | Delete(ring: int)
    | EndClear
    // setFrameBufferRing
    | StoreRing(ring: int)
    | StoreInjected
    | StoreUse

  /** ring is 0 for no ring; deleted are the rings freed so far. */
  datatype State = State(useRing: bool, injected: bool, ring: int, inFlight: int, clearing: bool,
                         callbacks: seq<Callback>, owner: Owner, deleted: set<int>)

  // ----- the steps -----

  predicate InFlight(c: Callback)
  {
    c.LoadRing? || c.LoadInjected? || c.Using? || c.Leave?
  }

  function CallbackStep(s: State, t: nat): State
    requires t < |s.callbacks|
  {
    match s.callbacks[t]
    case Idle => if s.useRing then s.(callbacks := s.callbacks[t := Enter]) else s
    case Enter => s.(inFlight := s.inFlight + 1, callbacks := s.callbacks[t := LoadRing])
    case LoadRing => s.(callbacks := s.callbacks[t := LoadInjected(s.ring)])
    case LoadInjected(ring) =>
      s.(callbacks := s.callbacks[t := if !s.injected || ring == 0 then Leave else Using(ring)])
    case Using(_) => s.(callbacks := s.callbacks[t := Leave])
    case Leave => s.(inFlight := s.inFlight - 1, callbacks := s.callbacks[t := Idle])
  }

  /** What the owner does when free. */
  datatype Choice = Clear | Inject(ring: int)

  function OwnerStep(s: State, ch: Choice): State
  {
    match s.owner
    case Free =>
      (match ch
       case Clear => s.(clearing := true, owner := ClearUse)
       case Inject(ring) => s.(owner := StoreRing(ring)))
    case ClearUse => s.(useRing := false, owner := ClearInjected(s.useRing))
    case ClearInjected(wasUsing) => s.(injected := false, owner := if wasUsing then Drain else TakeRing)
    case Drain => if s.inFlight > 0 then s else s.(owner := TakeRing)
    case TakeRing => s.(ring := 0, owner := Delete(s.ring))
    case Delete(ring) => s.(deleted := if ring != 0 then s.deleted + {ring} else s.deleted, owner := EndClear)
    case EndClear => s.(clearing := false, owner := Free)
    case StoreRing(ring) => s.(ring := ring, owner := StoreInjected)
    case StoreInjected => s.(injected := true, owner := StoreUse)
    case StoreUse => s.(useRing := true, owner := Free)
  }

  /** Callback number who, or the owner. */
  datatype Event = Step(who: nat) | Own(ch: Choice)

  function Next(s: State, e: Event): State
    requires e.Step? ==> e.who < |s.callbacks|
  {
    match e
    case Step(t) => CallbackStep(s, t)
    case Own(ch) => OwnerStep(s, ch)
  }

  // ----- the invariant -----

  function Count(callbacks: seq<Callback>, n: nat): nat
    requires n <= |callbacks|
  {
    if n == 0 then 0 else Count(callbacks, n - 1) + if InFlight(callbacks[n - 1]) then 1 else 0
  }

  /** A callback has loaded a ring that is gone by now, and is about to look at the injected flag. */
  predicate IsStale(s: State, t: nat)
  {
    t < |s.callbacks| && s.callbacks[t].LoadInjected? && s.callbacks[t].ring in s.deleted
  }

  ghost predicate NoStale(s: State)
  {
    forall t :: 0 <= t < |s.callbacks| ==> !IsStale(s, t)
  }

  predicate Injecting(o: Owner)
  {
    o.StoreRing? || o.StoreInjected? || o.StoreUse?
  }

  /** The ring is out of reach: nobody uses it, and no callback can start to. */
  predicate Sealed(o: Owner)
  {
    o.TakeRing? || o.Delete? || o.EndClear?
  }

  ghost predicate Inv(s: State)
  {
    && s.inFlight == Count(s.callbacks, |s.callbacks|)
    && (s.clearing <==> s.owner.ClearUse? || s.owner.ClearInjected? || s.owner.Drain? || Sealed(s.owner))
    && 0 !in s.deleted && s.ring !in s.deleted
    // the flags agree when no operation is under way
    && (s.owner.Free? || s.owner.ClearUse? || s.owner.StoreRing? ==> s.useRing == s.injected)
    && (s.owner.ClearInjected? ==> !s.useRing && s.owner.wasUsing == s.injected)
    && (s.owner.Drain? || Sealed(s.owner) ==> !s.useRing && !s.injected)
    && (s.owner.StoreUse? ==> s.injected)
    // no callback uses a deleted ring, and none is left using one when the flag is down
    && (forall t :: 0 <= t < |s.callbacks| && s.callbacks[t].Using? ==>
        s.callbacks[t].ring !in s.deleted && (s.injected || s.owner.Drain?))
    && (s.injected || Injecting(s.owner) ==> NoStale(s))
    && (s.owner.StoreRing? ==> s.owner.ring != 0 && s.owner.ring !in s.deleted)
    && (s.owner.Delete? ==> s.owner.ring !in s.deleted && s.ring == 0)
  }

  /** What is assumed of an injection: a ring not freed before, and no callback between its two loads with a freed ring. */
  ghost predicate Allowed(s: State, e: Event)
  {
    && (e.Step? ==> e.who < |s.callbacks|)
    && (e.Own? && s.owner.Free? && e.ch.Inject? ==> e.ch.ring != 0 && e.ch.ring !in s.deleted && NoStale(s))
  }

  lemma {:induction false} CountUpdate(callbacks: seq<Callback>, t: nat, c: Callback, n: nat)
    requires t < |callbacks| && n <= |callbacks|
    ensures Count(callbacks[t := c], n) == Count(callbacks, n)
      + if t < n then (if InFlight(c) then 1 else 0) - (if InFlight(callbacks[t]) then 1 else 0) else 0
  {
    if n > 0 {
      CountUpdate(callbacks, t, c, n - 1);
    }
  }

  lemma {:induction false} NoneInFlight(callbacks: seq<Callback>, n: nat, t: nat)
    requires n <= |callbacks| && Count(callbacks, n) == 0 && t < n
    ensures !InFlight(callbacks[t])
  {
    if t < n - 1 {
      NoneInFlight(callbacks, n - 1, t);
    }
  }

  lemma CallbackKeeps(s: State, t: nat)
    requires Inv(s) && t < |s.callbacks|
    ensures Inv(CallbackStep(s, t))
  {
    hide Count;
    var s' := CallbackStep(s, t);
    CountUpdate(s.callbacks, t, s'.callbacks[t], |s.callbacks|);
    assert s'.callbacks == s.callbacks[t := s'.callbacks[t]];
    if s.injected || Injecting(s.owner) {
      assert !IsStale(s, t);
      forall u | 0 <= u < |s.callbacks| ensures !IsStale(s', u) {
        assert !IsStale(s, u);
      }
    }
  }

  lemma OwnerKeeps(s: State, ch: Choice)
    requires Inv(s) && Allowed(s, Own(ch))
    ensures Inv(OwnerStep(s, ch))
  {
    hide Count;
    var s' := OwnerStep(s, ch);
    if s.owner.Drain? && s.inFlight <= 0 {
      forall t | 0 <= t < |s.callbacks| ensures !s.callbacks[t].Using? {
        NoneInFlight(s.callbacks, |s.callbacks|, t);
      }
    }
    if s'.injected || Injecting(s'.owner) {
      forall u | 0 <= u < |s.callbacks| ensures !IsStale(s', u) {
        assert !IsStale(s, u);
      }
    }
  }

  // ----- all runs -----

  function Initial(n: nat): State
  {
    State(false, false, 0, 0, false, seq(n, i => Idle), Free, {})
  }

  ghost predicate IsRun(n: nat, events: seq<Event>, states: seq<State>)
  {
    && |states| == |events| + 1 && states[0] == Initial(n)
    && forall k :: 0 <= k < |events| ==> Allowed(states[k], events[k]) && states[k + 1] == Next(states[k], events[k])
  }

  lemma {:induction false} NothingCounted(n: nat, m: nat)
    requires m <= n
    ensures Count(seq(n, i => Idle), m) == 0
  {
    if m > 0 {
      NothingCounted(n, m - 1);
    }
  }

  lemma {:induction false} RunKeeps(n: nat, events: seq<Event>, states: seq<State>, k: nat)
    requires IsRun(n, events, states) && k <= |events|
    ensures Inv(states[k])
  {
    hide Inv, CallbackStep, OwnerStep;
    if k == 0 {
      InitialInv(n);
    } else {
      RunKeeps(n, events, states, k - 1);
      match events[k - 1]
      case Step(t) => CallbackKeeps(states[k - 1], t);
      case Own(ch) => OwnerKeeps(states[k - 1], ch);
    }
  }

  lemma InitialInv(n: nat)
    ensures Inv(Initial(n))
  {
    NothingCounted(n, n);
  }

  /**
   In every state of every run no callback uses a deleted ring, and while one uses a ring nothing is taken
   for deletion.
   */
  lemma NoUseAfterFree(n: nat, events: seq<Event>, states: seq<State>, k: nat)
    requires IsRun(n, events, states) && k <= |events|
    ensures forall t :: 0 <= t < |states[k].callbacks| && states[k].callbacks[t].Using? ==>
      states[k].callbacks[t].ring !in states[k].deleted && !Sealed(states[k].owner)
  {
    RunKeeps(n, events, states, k);
  }

  // ----- a check the injecting thread can make -----

  /** With no callback in flight, none holds a freed ring. */
  lemma IdleNoStale(s: State)
    requires Inv(s) && s.inFlight == 0
    ensures NoStale(s)
  {
    forall t | 0 <= t < |s.callbacks| ensures !IsStale(s, t) {
      NoneInFlight(s.callbacks, |s.callbacks|, t);
    }
  }

  /** The injection begins with a look at the number of callbacks in flight, and goes on only if it is zero. */
  predicate Checked(s: State, e: Event)
  {
    && (e.Step? ==> e.who < |s.callbacks|)
    && (e.Own? && s.owner.Free? && e.ch.Inject? ==> e.ch.ring != 0 && e.ch.ring !in s.deleted && s.inFlight == 0)
  }

  ghost predicate IsCheckedRun(n: nat, events: seq<Event>, states: seq<State>)
  {
    && |states| == |events| + 1 && states[0] == Initial(n)
    && forall k :: 0 <= k < |events| ==> Checked(states[k], events[k]) && states[k + 1] == Next(states[k], events[k])
  }

  /** Such a run meets the assumption, although callbacks may enter between the look and the stores. */
  lemma {:induction false} CheckedKeeps(n: nat, events: seq<Event>, states: seq<State>, k: nat)
    requires IsCheckedRun(n, events, states) && k <= |events|
    ensures Inv(states[k]) && (k < |events| ==> Allowed(states[k], events[k]))
  {
    hide Inv, CallbackStep, OwnerStep, NoStale, Initial;
    if k == 0 {
      InitialInv(n);
    } else {
      CheckedKeeps(n, events, states, k - 1);
      match events[k - 1]
      case Step(t) => CallbackKeeps(states[k - 1], t);
      case Own(ch) => OwnerKeeps(states[k - 1], ch);
    }
    if states[k].inFlight == 0 {
      IdleNoStale(states[k]);
    }
  }

  /** With that check alone, no run uses a freed ring. */
  lemma CheckedSafe(n: nat, events: seq<Event>, states: seq<State>, k: nat)
    requires IsCheckedRun(n, events, states) && k <= |events|
    ensures IsRun(n, events, states)
    ensures forall t :: 0 <= t < |states[k].callbacks| && states[k].callbacks[t].Using? ==>
      states[k].callbacks[t].ring !in states[k].deleted && !Sealed(states[k].owner)
  {
    forall j | 0 <= j < |events| ensures Allowed(states[j], events[j]) {
      CheckedKeeps(n, events, states, j);
    }
    NoUseAfterFree(n, events, states, k);
  }

  // ----- without it -----

  /**
   The assumption on injections is exact: an injection that starts while callback t holds a freed ring between
   its two loads makes the callback use it.
   */
  lemma StaleInjection(s: State, t: nat, ring: int)
    requires Inv(s) && s.owner.Free? && IsStale(s, t) && ring != 0
    ensures var s1 := OwnerStep(s, Inject(ring));
      var s2 := OwnerStep(s1, Clear);
      var s3 := OwnerStep(s2, Clear);
      var s4 := CallbackStep(s3, t);
      s4.callbacks[t].Using? && s4.callbacks[t].ring in s4.deleted
  {
  }

  /**
   Such a state is reached after one injection and one complete clearing: the callback entered after the
   drain, but loaded the ring before it was taken.
   */
  lemma StaleReachable() returns (events: seq<Event>, states: seq<State>)
    ensures IsRun(1, events, states)
    ensures IsStale(states[|events|], 0) && states[|events|].owner.Free?
  {
    hide IsRun;
    assert seq(1, i => Idle) == [Idle];
    var s := State(false, false, 0, 0, false, [Idle], Free, {});
    events, states := [], [s];
    StartRun(s);
    events, states, s := Extend(events, states, s, Own(Inject(7)));
    events, states, s := Extend(events, states, s, Own(Clear));
    events, states, s := Extend(events, states, s, Own(Clear));
    events, states, s := Extend(events, states, s, Own(Clear));
    assert s == State(true, true, 7, 0, false, [Idle], Free, {});
    events, states, s := Extend(events, states, s, Step(0));
    events, states, s := Extend(events, states, s, Own(Clear));
    events, states, s := Extend(events, states, s, Own(Clear));
    events, states, s := Extend(events, states, s, Own(Clear));
    events, states, s := Extend(events, states, s, Own(Clear));
    assert s == State(false, false, 7, 0, true, [Enter], TakeRing, {});
    events, states, s := Extend(events, states, s, Step(0));
    events, states, s := Extend(events, states, s, Step(0));
    assert s == State(false, false, 7, 1, true, [LoadInjected(7)], TakeRing, {});
    events, states, s := Extend(events, states, s, Own(Clear));
    events, states, s := Extend(events, states, s, Own(Clear));
    events, states, s := Extend(events, states, s, Own(Clear));
  }

  lemma StartRun(s: State)
    requires s == Initial(1)
    ensures IsRun(1, [], [s])
  {
  }

  /** One more event of a run that has come to s. */
  lemma Extend(events: seq<Event>, states: seq<State>, s: State, e: Event)
    returns (events': seq<Event>, states': seq<State>, s': State)
    requires IsRun(1, events, states) && |states| == |events| + 1 && states[|events|] == s && Allowed(s, e)
    ensures events' == events + [e] && IsRun(1, events', states') && |states'| == |events'| + 1
    ensures s' == Next(s, e) && states'[|events'|] == s'
  {
    s' := Next(s, e);
    events', states' := events + [e], states + [s'];
  }
}
