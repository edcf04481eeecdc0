/**
 The handle table gets things done: with a free slot a registration publishes its object, an acquire of a current
 handle comes to hold it, and an invalidation without references gives the slot back. A thread is followed here
 while the other threads stand still.
 */
module HandleProgress {
  import opened HandleManager

  /** The state after n more steps of thread t. */
  function Alone(s: State, t: nat, call: Call, n: nat): (r: State)
    requires Sized(s) && t < |s.threads| && PcInRange(s.threads[t])
    ensures Sized(r) && |r.threads| == |s.threads| && PcInRange(r.threads[t])
    ensures forall u :: 0 <= u < |s.threads| && u != t ==> r.threads[u] == s.threads[u]
    decreases n
  {
    if n == 0 then s else Alone(Step(s, t, call), t, call, n - 1)
  }

  lemma {:induction false} AloneAdd(s: State, t: nat, call: Call, m: nat, n: nat)
    requires Sized(s) && t < |s.threads| && PcInRange(s.threads[t])
    ensures Alone(s, t, call, m + n) == Alone(Alone(s, t, call, m), t, call, n)
    decreases m
  {
    hide Step, PcInRange;
    if m > 0 {
      StepShaped(s, t, call);
      AloneAdd(Step(s, t, call), t, call, m - 1, n);
    }
  }

  lemma StepShaped(s: State, t: nat, call: Call)
    requires Sized(s) && t < |s.threads| && PcInRange(s.threads[t])
    ensures var r := Step(s, t, call); Sized(r) && |r.threads| == |s.threads| && PcInRange(r.threads[t])
  {
  }

  // ----- registering -----

  predicate Free(slot: Slot) { slot.generation % 2 == 0 && slot.context == 0 }

  /** The j'th slot from the hint on. */
  function SlotFrom(start: nat, j: nat): (idx: nat)
    ensures idx < MAX_HANDLE_SLOTS
  {
    (start + j) % MAX_HANDLE_SLOTS
  }

  /** The first free slot from position i on is that at j. */
  predicate FirstFree(s: State, start: nat, i: nat, j: nat)
    requires Sized(s)
  {
    && i <= j < MAX_HANDLE_SLOTS && Free(s.slots[SlotFrom(start, j)])
    && forall k :: i <= k < j ==> !Free(s.slots[SlotFrom(start, k)])
  }

  lemma SlotIs(start: nat, i: nat)
    ensures SlotFrom(start, i) == (start + i) % MAX_HANDLE_SLOTS
  {
  }

  lemma Two(s: State, t: nat, call: Call)
    requires Sized(s) && t < |s.threads| && PcInRange(s.threads[t])
    ensures var s1 := Step(s, t, call); Sized(s1) && |s1.threads| == |s.threads| && PcInRange(s1.threads[t])
    ensures Alone(s, t, call, 1) == Step(s, t, call) && Alone(s, t, call, 2) == Step(Step(s, t, call), t, call)
  {
    hide Step, PcInRange;
    StepShaped(s, t, call);
    var s1 := Step(s, t, call);
    StepShaped(s1, t, call);
    assert Alone(s1, t, call, 1) == Alone(Step(s1, t, call), t, call, 0);
    assert Alone(s, t, call, 1) == Alone(s1, t, call, 0);
  }

  /** A slot in use is passed over. */
  lemma Passes(s: State, t: nat, call: Call, ctx: int, start: nat, i: nat) returns (n: nat)
    requires Sized(s) && t < |s.threads| && s.threads[t] == SearchGeneration(ctx, start, i) && i < MAX_HANDLE_SLOTS
    requires !Free(s.slots[SlotFrom(start, i)])
    ensures Alone(s, t, call, n) == Go(s, t, SearchGeneration(ctx, start, i + 1))
  {
    hide Alone;
    SlotIs(start, i);
    Two(s, t, call);
    n := if s.slots[SlotFrom(start, i)].generation % 2 == 0 then 2 else 1;
  }

  /** A free slot is claimed. */
  lemma Claims(s: State, t: nat, call: Call, ctx: int, start: nat, i: nat)
    requires Sized(s) && t < |s.threads| && s.threads[t] == SearchGeneration(ctx, start, i) && i < MAX_HANDLE_SLOTS
    requires Free(s.slots[SlotFrom(start, i)])
    ensures var idx := SlotFrom(start, i);
      Alone(s, t, call, 2) == Go(s, t, StoreContext(ctx, idx, s.slots[idx].generation))
  {
    hide Alone;
    SlotIs(start, i);
    Two(s, t, call);
  }

  /** The search passes over slots in use and claims the first free one. */
  lemma {:induction false} Searches(s: State, t: nat, call: Call, ctx: int, start: nat, i: nat, j: nat) returns (n: nat)
    requires Sized(s) && t < |s.threads| && s.threads[t] == SearchGeneration(ctx, start, i) && FirstFree(s, start, i, j)
    ensures var idx := SlotFrom(start, j);
      Alone(s, t, call, n) == Go(s, t, StoreContext(ctx, idx, s.slots[idx].generation))
    decreases j - i
  {
    hide SlotFrom, Free, Alone, Step;
    if i == j {
      Claims(s, t, call, ctx, start, i);
      n := 2;
    } else {
      var m := Passes(s, t, call, ctx, start, i);
      var next := Go(s, t, SearchGeneration(ctx, start, i + 1));
      var k := Searches(next, t, call, ctx, start, i + 1, j);
      AloneAdd(s, t, call, m, k);
      n := m + k;
    }
  }

  /** With no free slot the search comes to its end. */
  lemma {:induction false} SearchFails(s: State, t: nat, call: Call, ctx: int, start: nat, i: nat) returns (n: nat)
    requires Sized(s) && t < |s.threads| && s.threads[t] == SearchGeneration(ctx, start, i) && i <= MAX_HANDLE_SLOTS
    requires forall k :: i <= k < MAX_HANDLE_SLOTS ==> !Free(s.slots[SlotFrom(start, k)])
    ensures Alone(s, t, call, n) == Go(s, t, Idle)
    decreases MAX_HANDLE_SLOTS - i
  {
    hide SlotFrom, Free, Alone, Step;
    if i == MAX_HANDLE_SLOTS {
      GivesUp(s, t, call, ctx, start);
      n := 1;
    } else {
      var m := Passes(s, t, call, ctx, start, i);
      var k := SearchFails(Go(s, t, SearchGeneration(ctx, start, i + 1)), t, call, ctx, start, i + 1);
      AloneAdd(s, t, call, m, k);
      n := m + k;
    }
  }

  lemma GivesUp(s: State, t: nat, call: Call, ctx: int, start: nat)
    requires Sized(s) && t < |s.threads| && s.threads[t] == SearchGeneration(ctx, start, MAX_HANDLE_SLOTS)
    ensures Alone(s, t, call, 1) == Go(s, t, Idle)
  {
    hide Alone;
    Two(s, t, call);
  }

  /** The three stores once a slot is claimed. */
  lemma Publishes(s: State, t: nat, call: Call, ctx: int, idx: nat, found: nat)
    requires Sized(s) && t < |s.threads| && s.threads[t] == StoreContext(ctx, idx, found) && idx < MAX_HANDLE_SLOTS
    ensures Alone(s, t, call, 3)
      == Go(s.(slots := s.slots[idx := Slot(found + 1, ctx)], hint := SlotFrom(idx, 1)), t, Idle)
  {
    hide Alone;
    SlotIs(idx, 1);
    Two(s, t, call);
    var s2 := Alone(s, t, call, 2);
    assert s2.slots == s.slots[idx := Slot(found + 1, ctx)];
    Two(s2, t, call);
    AloneAdd(s, t, call, 2, 1);
  }

  /** The first step of a call. */
  lemma Begins(s: State, t: nat, call: Call, n: nat)
    requires Sized(s) && t < |s.threads| && s.threads[t].Idle?
    ensures var s1 := Step(s, t, call);
      Sized(s1) && |s1.threads| == |s.threads| && PcInRange(s1.threads[t])
      && Alone(s, t, call, 1 + n) == Alone(s1, t, call, n)
  {
    hide Step;
    StepShaped(s, t, call);
  }

  /**
   A registration with a free slot: the first one from the hint on gets the object and its next generation, which
   is odd; nothing else changes but the hint.
   */
  lemma Registers(s: State, t: nat, ctx: int, j: nat) returns (n: nat)
    requires Sized(s) && t < |s.threads| && s.threads[t].Idle? && ctx != 0 && FirstFree(s, s.hint, 0, j)
    ensures var idx, r := SlotFrom(s.hint, j), Alone(s, t, Register(ctx), n);
      && r == s.(slots := s.slots[idx := Slot(s.slots[idx].generation + 1, ctx)], hint := SlotFrom(idx, 1),
                 live := s.live + {ctx})
      && r.slots[idx].generation % 2 == 1
  {
    hide SlotFrom, Alone;
    var call, idx := Register(ctx), SlotFrom(s.hint, j);
    var s1 := Step(s, t, call);
    var k := Searches(s1, t, call, ctx, s.hint, 0, j);
    Publishes(Alone(s1, t, call, k), t, call, ctx, idx, s.slots[idx].generation);
    AloneAdd(s1, t, call, k, 3);
    n := 1 + (k + 3);
    Begins(s, t, call, k + 3);
    assert Alone(s, t, call, n).threads == s.threads;
  }

  /** Without one it is refused, and leaves the slots as they are. */
  lemma Refuses(s: State, t: nat, ctx: int) returns (n: nat)
    requires Sized(s) && t < |s.threads| && s.threads[t].Idle? && ctx != 0
    requires forall k :: 0 <= k < MAX_HANDLE_SLOTS ==> !Free(s.slots[SlotFrom(s.hint, k)])
    ensures Alone(s, t, Register(ctx), n) == s.(live := s.live + {ctx})
  {
    hide SlotFrom, Alone;
    var call := Register(ctx);
    var s1 := Step(s, t, call);
    var k := SearchFails(s1, t, call, ctx, s.hint, 0);
    n := 1 + k;
    Begins(s, t, call, k);
    assert Alone(s, t, call, n).threads == s.threads;
  }

  /** Some free slot is the first one from anywhere. */
  lemma {:induction false} SomeFirst(s: State, start: nat, i: nat, k: nat) returns (j: nat)
    requires Sized(s) && i <= k < MAX_HANDLE_SLOTS && Free(s.slots[SlotFrom(start, k)])
    ensures FirstFree(s, start, i, j)
    decreases k - i
  {
    hide SlotFrom, Free;
    if Free(s.slots[SlotFrom(start, i)]) {
      j := i;
    } else {
      j := SomeFirst(s, start, i + 1, k);
    }
  }

  // ----- acquiring and releasing -----

  /** An acquire holds the object of its slot exactly when the handle has the slot's generation and there is one. */
  lemma Acquires(s: State, t: nat, idx: nat, gen: nat)
    requires Sized(s) && t < |s.threads| && s.threads[t].Idle? && idx < MAX_HANDLE_SLOTS && gen < 0x8000_0000
    ensures var slot, r := s.slots[idx], Alone(s, t, Acquire(Handle(gen, idx)), 3);
      r == Go(s.(refs := s.refs[idx := s.refs[idx] + 1]), t,
              if slot.generation == gen && slot.context != 0 then Holding(idx, gen, slot.context) else DropReference(idx))
  {
    hide Alone, Handle, Step;
    var call := Acquire(Handle(gen, idx));
    Begins(s, t, call, 2);
    AcquireStarts(s, t, idx, gen);
    Loads(Step(s, t, call), t, call, idx, gen);
  }

  lemma AcquireStarts(s: State, t: nat, idx: nat, gen: nat)
    requires Sized(s) && t < |s.threads| && s.threads[t].Idle? && idx < MAX_HANDLE_SLOTS && gen < 0x8000_0000
    ensures Step(s, t, Acquire(Handle(gen, idx)))
      == Go(s.(refs := s.refs[idx := s.refs[idx] + 1]), t, LoadGeneration(idx, gen))
  {
    hide Handle, IndexOf, GenerationOf;
    HandleRoundTrip(gen, idx);
  }

  lemma Loads(s: State, t: nat, call: Call, idx: nat, gen: nat)
    requires Sized(s) && t < |s.threads| && s.threads[t] == LoadGeneration(idx, gen) && idx < MAX_HANDLE_SLOTS
    ensures var slot := s.slots[idx];
      Alone(s, t, call, 2)
        == Go(s, t, if slot.generation == gen && slot.context != 0 then Holding(idx, gen, slot.context) else DropReference(idx))
  {
    hide Alone;
    Two(s, t, call);
  }

  /** Giving a reference up, or dropping one that was not granted, takes back what acquiring counted. */
  lemma Releases(s: State, t: nat, call: Call)
    requires Sized(s) && t < |s.threads| && (s.threads[t].Holding? || s.threads[t].DropReference?)
    requires s.threads[t].idx < MAX_HANDLE_SLOTS
    ensures var idx := s.threads[t].idx;
      Alone(s, t, call, 1) == Go(s.(refs := s.refs[idx := s.refs[idx] - 1]), t, Idle)
  {
    hide Alone;
    Two(s, t, call);
  }

  // ----- invalidating -----

  /**
   Invalidating a current handle without references: the generation becomes even, the object leaves the slot and is
   deleted, and the slot is free again.
   */
  lemma Invalidates(s: State, t: nat, idx: nat)
    requires Sized(s) && t < |s.threads| && s.threads[t].Idle? && idx < MAX_HANDLE_SLOTS
    requires s.slots[idx].generation < 0x7FFF_FFFF && s.slots[idx].generation % 2 == 1 && s.refs[idx] <= 0
    ensures var slot := s.slots[idx];
      var r := Alone(s, t, Invalidate(Handle(slot.generation, idx)), 5);
      && r == s.(slots := s.slots[idx := Slot(slot.generation + 1, 0)], live := s.live - {slot.context})
      && Free(r.slots[idx])
  {
    hide Alone, Handle, Step;
    var gen := s.slots[idx].generation;
    var call := Invalidate(Handle(gen, idx));
    InvalidateStarts(s, t, idx, gen);
    var s1 := Step(s, t, call);
    Begins(s, t, call, 4);
    Marks(s1, t, call, idx, gen);
    Takes(Alone(s1, t, call, 2), t, call, idx, gen);
    AloneAdd(s1, t, call, 2, 2);
    assert Alone(s1, t, call, 4).threads == s.threads;
  }

  lemma InvalidateStarts(s: State, t: nat, idx: nat, gen: nat)
    requires Sized(s) && t < |s.threads| && s.threads[t].Idle? && idx < MAX_HANDLE_SLOTS && gen < 0x8000_0000
    ensures Step(s, t, Invalidate(Handle(gen, idx))) == Go(s, t, CheckGeneration(idx, gen))
  {
    hide Handle, IndexOf, GenerationOf;
    HandleRoundTrip(gen, idx);
  }

  lemma Marks(s: State, t: nat, call: Call, idx: nat, gen: nat)
    requires Sized(s) && t < |s.threads| && s.threads[t] == CheckGeneration(idx, gen) && idx < MAX_HANDLE_SLOTS
    requires s.slots[idx].generation == gen
    ensures Alone(s, t, call, 2)
      == Go(s.(slots := s.slots[idx := s.slots[idx].(generation := gen + 1)]), t, Drain(idx, gen))
  {
    hide Alone;
    Two(s, t, call);
  }

  lemma Takes(s: State, t: nat, call: Call, idx: nat, gen: nat)
    requires Sized(s) && t < |s.threads| && s.threads[t] == Drain(idx, gen) && idx < MAX_HANDLE_SLOTS && s.refs[idx] <= 0
    ensures Alone(s, t, call, 2)
      == Go(s.(slots := s.slots[idx := s.slots[idx].(context := 0)], live := s.live - {s.slots[idx].context}), t, Idle)
  {
    hide Alone;
    Two(s, t, call);
  }

  /** With references it waits: the object stays, for any number of steps, until they are given up. */
  lemma {:induction false} Waits(s: State, t: nat, call: Call, n: nat)
    requires Sized(s) && t < |s.threads| && s.threads[t].Drain? && s.threads[t].idx < MAX_HANDLE_SLOTS
    requires s.refs[s.threads[t].idx] > 0
    ensures Alone(s, t, call, n) == s
    decreases n
  {
    if n > 0 {
      Waits(s, t, call, n - 1);
    }
  }

  // ----- a life -----

  /**
   As long as some slot is free an object can be registered, its handle held, given up and invalidated, over and
   over: at the end the slot is free once more, and older generations of it stay behind.
   */
  lemma Life(s: State, t: nat, ctx: int, k: nat) returns (idx: nat, m: nat, s1: State)
    requires Sized(s) && t < |s.threads| && s.threads[t].Idle? && ctx != 0
    requires k < MAX_HANDLE_SLOTS && Free(s.slots[SlotFrom(s.hint, k)])
    requires forall i :: 0 <= i < MAX_HANDLE_SLOTS ==> s.slots[i].generation < 0x7FFF_FFFE && s.refs[i] == 0
    ensures idx < MAX_HANDLE_SLOTS && s1 == Alone(s, t, Register(ctx), m) && s1.threads == s.threads
    ensures var gen := s.slots[idx].generation + 1;
      && gen % 2 == 1 && s1.slots == s.slots[idx := Slot(gen, ctx)]
      && var s2 := Alone(s1, t, Acquire(Handle(gen, idx)), 3);
      && s2.threads[t] == Holding(idx, gen, ctx) && s2.slots == s1.slots
      && var s3 := Alone(s2, t, Acquire(Handle(gen, idx)), 1);
      && s3 == s1
      && var s4 := Alone(s3, t, Invalidate(Handle(gen, idx)), 5);
      && s4.threads == s.threads && s4.refs == s.refs && s4.slots == s.slots[idx := Slot(gen + 1, 0)] && Free(s4.slots[idx])
  {
    hide Alone, Handle, SlotFrom, Step;
    var j := SomeFirst(s, s.hint, 0, k);
    m := Registers(s, t, ctx, j);
    idx := SlotFrom(s.hint, j);
    s1 := Alone(s, t, Register(ctx), m);
    var gen := s.slots[idx].generation + 1;
    Acquires(s1, t, idx, gen);
    var s2 := Alone(s1, t, Acquire(Handle(gen, idx)), 3);
    Releases(s2, t, Acquire(Handle(gen, idx)));
    assert Alone(s2, t, Acquire(Handle(gen, idx)), 1) == s1;
    Invalidates(s1, t, idx);
  }
}
