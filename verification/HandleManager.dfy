/**
 The strong-reference handle table (HandleManager.h) as a state machine: any number of threads run
 registerContext, acquire, ~ScopedRef and invalidateAndFree, one atomic operation at a time, in any
 interleaving. No context is freed while a reference to it is live.
 */
module HandleManager {

  const MAX_HANDLE_SLOTS: nat := 64
  const WORD: int := 0x1_0000_0000
  const INVALID_HANDLE: int := -1

  // ----- handles -----

  /** v stored in a signed 64-bit integer. */
  function Int64(v: int): int
  {
    (v + 0x8000_0000_0000_0000) % 0x1_0000_0000_0000_0000 - 0x8000_0000_0000_0000
  }

  /** The generation in the high word, the slot in the low word. */
  function Handle(gen: int, idx: int): int
    requires 0 <= gen < WORD && 0 <= idx < MAX_HANDLE_SLOTS
  {
    Int64(gen * WORD + idx)
  }

  predicate Rejected(handle: int) { handle == INVALID_HANDLE || handle < 0 }
  function IndexOf(handle: int): int { handle % WORD }
  function GenerationOf(handle: int): int { handle / WORD % WORD }

  /** A handle is accepted, and read back as it was made, exactly when its generation fits 31 bits. */
  lemma HandleRoundTrip(gen: int, idx: int)
    requires 0 <= gen < WORD && 0 <= idx < MAX_HANDLE_SLOTS
    ensures !Rejected(Handle(gen, idx)) <==> gen < 0x8000_0000
    ensures gen < 0x8000_0000 ==> IndexOf(Handle(gen, idx)) == idx && GenerationOf(Handle(gen, idx)) == gen
  {
  }

  // ----- the state -----

  /** activeRefs is counted apart from what a slot holds. */
  datatype Slot = Slot(generation: nat, context: int)

  /** What a thread is about to do. The names tell the next atomic operation. */
  datatype Pc =
    | Idle
    // acquire, with the reference already counted
    | LoadGeneration(idx: nat, gen: nat)
    | LoadContext(idx: nat, gen: nat, actual: nat)
    | DropReference(idx: nat)
    // a ScopedRef is live
    | Holding(idx: nat, gen: nat, ctx: int)
    // registerContext
    | SearchGeneration(ctx: int, start: nat, i: nat)
    | SearchContext(ctx: int, start: nat, i: nat, found: nat)
    | StoreContext(ctx: int, idx: nat, found: nat)
    | StoreGeneration(ctx: int, idx: nat, found: nat)
    | StoreHint(idx: nat)
    // invalidateAndFree
    | CheckGeneration(idx: nat, gen: nat)
    | MarkDead(idx: nat, gen: nat)
    | Drain(idx: nat, gen: nat)
    | TakeContext(idx: nat, gen: nat)

  /** live: the objects not yet deleted, as the owners of contexts see it. */
  datatype State = State(slots: seq<Slot>, refs: seq<int>, hint: nat, threads: seq<Pc>, live: set<int>)

  datatype Call = Acquire(handle: int) | Register(ctx: int) | Invalidate(handle: int)

  ghost predicate Sized(s: State)
  {
    |s.slots| == |s.refs| == MAX_HANDLE_SLOTS
  }

  predicate Registering(p: Pc)
  {
    p.SearchGeneration? || p.SearchContext? || p.StoreContext? || p.StoreGeneration? || p.StoreHint?
  }

  predicate Invalidating(p: Pc, idx: nat, gen: nat)
  {
    (p.CheckGeneration? || p.MarkDead? || p.Drain? || p.TakeContext?) && p.idx == idx && p.gen == gen
  }

  /** A thread that has counted itself as a reference to slot idx. */
  predicate Counts(p: Pc, idx: nat)
  {
    (p.LoadGeneration? || p.LoadContext? || p.DropReference? || p.Holding?) && p.idx == idx
  }

  /**
   What is assumed of callers: registrations are serialised, and so are destructions of one handle; handles
   carry an odd generation, as all handles given out do; a registered object is not registered or freed
   already; generations stay below 2 to the 31.
   */
  ghost predicate Allowed(s: State, t: nat, call: Call)
    requires Sized(s) && t < |s.threads|
  {
    match s.threads[t]
    case Idle =>
      (match call
       case Acquire(handle) => GenerationOf(handle) % 2 == 1
       case Register(ctx) => (forall u :: 0 <= u < |s.threads| ==> !Registering(s.threads[u])) && ctx !in s.live
       case Invalidate(handle) =>
         && GenerationOf(handle) % 2 == 1
         && (handle < 0 || forall u :: 0 <= u < |s.threads| ==>
             !Invalidating(s.threads[u], IndexOf(handle), GenerationOf(handle))))
    case StoreGeneration(_, _, found) => found + 1 < 0x8000_0000
    case _ => true
  }

  // ----- the steps -----

  function Go(s: State, t: nat, p: Pc): State
    requires t < |s.threads|
  {
    s.(threads := s.threads[t := p])
  }

  function CallStep(s: State, t: nat, call: Call): State
    requires Sized(s) && t < |s.threads|
  {
    match call
    case Acquire(handle) =>
      var idx, gen := IndexOf(handle), GenerationOf(handle);
      if Rejected(handle) || idx >= MAX_HANDLE_SLOTS then s
      else Go(s.(refs := s.refs[idx := s.refs[idx] + 1]), t, LoadGeneration(idx, gen))
    case Register(ctx) =>
      if ctx == 0 then s else Go(s.(live := s.live + {ctx}), t, SearchGeneration(ctx, s.hint, 0))
    case Invalidate(handle) =>
      var idx, gen := IndexOf(handle), GenerationOf(handle);
      if Rejected(handle) || idx >= MAX_HANDLE_SLOTS then s
      else Go(s, t, CheckGeneration(idx, gen))
  }

  /** One atomic operation of thread t; call is what an idle thread does next. */
  function Step(s: State, t: nat, call: Call): State
    requires Sized(s) && t < |s.threads| && PcInRange(s.threads[t])
  {
    var p := s.threads[t];
    match p
    case Idle => CallStep(s, t, call)
    case LoadGeneration(idx, gen) => Go(s, t, LoadContext(idx, gen, s.slots[idx].generation))
    case LoadContext(idx, gen, actual) =>
      var ctx := s.slots[idx].context;
      Go(s, t, if actual == gen && ctx != 0 then Holding(idx, gen, ctx) else DropReference(idx))
    case DropReference(idx) => Go(s.(refs := s.refs[idx := s.refs[idx] - 1]), t, Idle)
    case Holding(idx, _, _) => Go(s.(refs := s.refs[idx := s.refs[idx] - 1]), t, Idle)
    case SearchGeneration(ctx, start, i) =>
      if i == MAX_HANDLE_SLOTS then Go(s, t, Idle)
      else
        var gen := s.slots[(start + i) % MAX_HANDLE_SLOTS].generation;
        Go(s, t, if gen % 2 == 0 then SearchContext(ctx, start, i, gen) else SearchGeneration(ctx, start, i + 1))
    case SearchContext(ctx, start, i, found) =>
      var idx := (start + i) % MAX_HANDLE_SLOTS;
      Go(s, t, if s.slots[idx].context == 0 then StoreContext(ctx, idx, found)
               else SearchGeneration(ctx, start, i + 1))
    case StoreContext(ctx, idx, found) =>
      Go(s.(slots := s.slots[idx := s.slots[idx].(context := ctx)]), t, StoreGeneration(ctx, idx, found))
    case StoreGeneration(ctx, idx, found) =>
      Go(s.(slots := s.slots[idx := s.slots[idx].(generation := found + 1)]), t, StoreHint(idx))
    case StoreHint(idx) => Go(s.(hint := (idx + 1) % MAX_HANDLE_SLOTS), t, Idle)
    case CheckGeneration(idx, gen) =>
      Go(s, t, if s.slots[idx].generation == gen then MarkDead(idx, gen) else Idle)
    case MarkDead(idx, gen) =>
      Go(s.(slots := s.slots[idx := s.slots[idx].(generation := s.slots[idx].generation + 1)]), t, Drain(idx, gen))
    case Drain(idx, gen) => if s.refs[idx] > 0 then s else Go(s, t, TakeContext(idx, gen))
    case TakeContext(idx, gen) =>
      // the caller deletes the context it gets back
      Go(s.(slots := s.slots[idx := s.slots[idx].(context := 0)], live := s.live - {s.slots[idx].context}), t, Idle)
  }

  predicate PcInRange(p: Pc)
  {
    match p
    case Idle => true
    case SearchGeneration(_, _, i) => i <= MAX_HANDLE_SLOTS
    case SearchContext(_, _, i, _) => i < MAX_HANDLE_SLOTS
    case _ => p.idx < MAX_HANDLE_SLOTS
  }

  // ----- the invariant -----

  /** The incarnation gen of slot idx is alive or draining: its context is still there. */
  predicate Present(slots: seq<Slot>, idx: nat, gen: nat)
    requires idx < |slots|
  {
    gen <= slots[idx].generation <= gen + 1 && slots[idx].context != 0
  }

  predicate NotStored(slots: seq<Slot>, ctx: int)
  {
    forall i :: 0 <= i < |slots| ==> slots[i].context != ctx
  }

  /** What holds of the slots at each point of a thread. */
  predicate PcOk(slots: seq<Slot>, live: set<int>, p: Pc)
    requires |slots| == MAX_HANDLE_SLOTS
  {
    PcInRange(p) &&
    match p
    case Idle => true
    case LoadGeneration(idx, gen) => gen % 2 == 1
    case LoadContext(idx, gen, actual) => gen % 2 == 1 && (actual == gen ==> Present(slots, idx, gen))
    case DropReference(_) => true
    case Holding(idx, gen, ctx) => gen % 2 == 1 && Present(slots, idx, gen) && slots[idx].context == ctx
    case SearchGeneration(ctx, _, _) => ctx != 0 && ctx in live && NotStored(slots, ctx)
    case SearchContext(ctx, start, i, found) =>
      && ctx != 0 && ctx in live && NotStored(slots, ctx) && found % 2 == 0
      && slots[(start + i) % MAX_HANDLE_SLOTS].generation == found
    case StoreContext(ctx, idx, found) =>
      && ctx != 0 && ctx in live && NotStored(slots, ctx) && found % 2 == 0
      && slots[idx].generation == found && slots[idx].context == 0
    case StoreGeneration(ctx, idx, found) =>
      ctx != 0 && found % 2 == 0 && slots[idx].generation == found && slots[idx].context == ctx
    case StoreHint(_) => true
    case CheckGeneration(idx, gen) => gen % 2 == 1
    case MarkDead(idx, gen) => gen % 2 == 1 && slots[idx].generation == gen
    case Drain(idx, gen) => gen % 2 == 1 && slots[idx].generation == gen + 1 && slots[idx].context != 0
    case TakeContext(idx, gen) => gen % 2 == 1 && slots[idx].generation == gen + 1 && slots[idx].context != 0
  }

  /** The thread has, or is about to get, a reference to incarnation gen of slot idx. */
  predicate Refers(p: Pc, idx: nat, gen: nat)
  {
    (p.LoadContext? && p.idx == idx && p.gen == gen && p.actual == gen) ||
    (p.Holding? && p.idx == idx && p.gen == gen)
  }

  /** What two threads cannot both be doing. */
  predicate Compatible(p: Pc, q: Pc)
  {
    && !(Registering(p) && Registering(q))
    && ((p.CheckGeneration? || p.MarkDead? || p.Drain? || p.TakeContext?) ==> !Invalidating(q, p.idx, p.gen))
    && (p.TakeContext? ==> !Refers(q, p.idx, p.gen))
    && (p.StoreGeneration? ==> !((q.Drain? || q.TakeContext?) && q.idx == p.idx))
    && (p.StoreGeneration? && p.found >= 1 ==> !Refers(q, p.idx, p.found - 1))
  }

  ghost predicate SlotsOk(slots: seq<Slot>, live: set<int>)
  {
    && |slots| == MAX_HANDLE_SLOTS
    && (forall i :: 0 <= i < MAX_HANDLE_SLOTS ==>
        (slots[i].generation % 2 == 1 ==> slots[i].context != 0) && (slots[i].context != 0 ==> slots[i].context in live))
    && (forall i, j :: 0 <= i < j < MAX_HANDLE_SLOTS && slots[i].context != 0 ==> slots[i].context != slots[j].context)
  }

  /** Number of threads among the first n that count as references to slot idx. */
  function RefCount(threads: seq<Pc>, idx: nat, n: nat): nat
    requires n <= |threads|
  {
    if n == 0 then 0 else RefCount(threads, idx, n - 1) + if Counts(threads[n - 1], idx) then 1 else 0
  }

  ghost predicate RefsOk(refs: seq<int>, threads: seq<Pc>)
  {
    |refs| == MAX_HANDLE_SLOTS &&
    forall i :: 0 <= i < MAX_HANDLE_SLOTS ==> refs[i] == RefCount(threads, i, |threads|)
  }

  ghost predicate ThreadsOk(slots: seq<Slot>, live: set<int>, threads: seq<Pc>)
    requires |slots| == MAX_HANDLE_SLOTS
  {
    && (forall t :: 0 <= t < |threads| ==> PcOk(slots, live, threads[t]))
    && (forall t, u :: 0 <= t < |threads| && 0 <= u < |threads| && t != u ==> Compatible(threads[t], threads[u]))
  }

  ghost predicate Inv(s: State)
  {
    Sized(s) && SlotsOk(s.slots, s.live) && RefsOk(s.refs, s.threads) && ThreadsOk(s.slots, s.live, s.threads)
  }

  lemma {:induction false} RefCountUpdate(threads: seq<Pc>, t: nat, p: Pc, idx: nat, n: nat)
    requires t < |threads| && n <= |threads|
    ensures RefCount(threads[t := p], idx, n) == RefCount(threads, idx, n)
      + if t < n then (if Counts(p, idx) then 1 else 0) - (if Counts(threads[t], idx) then 1 else 0) else 0
  {
    if n > 0 {
      RefCountUpdate(threads, t, p, idx, n - 1);
    }
  }

  lemma {:induction false} NoneCounted(threads: seq<Pc>, idx: nat, n: nat, t: nat)
    requires n <= |threads| && RefCount(threads, idx, n) == 0 && t < n
    ensures !Counts(threads[t], idx)
  {
    if t < n - 1 {
      NoneCounted(threads, idx, n - 1, t);
    }
  }

  /** A step that changes the counter as the thread's own counting changes. */
  lemma RefsKept(refs: seq<int>, refs': seq<int>, threads: seq<Pc>, t: nat, p: Pc)
    requires RefsOk(refs, threads) && t < |threads| && |refs'| == MAX_HANDLE_SLOTS
    requires forall i :: 0 <= i < MAX_HANDLE_SLOTS ==>
      refs'[i] == refs[i] + (if Counts(p, i) then 1 else 0) - if Counts(threads[t], i) then 1 else 0
    ensures RefsOk(refs', threads[t := p])
  {
    forall i | 0 <= i < MAX_HANDLE_SLOTS ensures refs'[i] == RefCount(threads[t := p], i, |threads|) {
      RefCountUpdate(threads, t, p, i, |threads|);
    }
  }

  /** Threads other than t keep their facts, and t gets a new one compatible with the others. */
  lemma ThreadsKept(slots: seq<Slot>, live: set<int>, slots': seq<Slot>, live': set<int>, threads: seq<Pc>, t: nat, p: Pc)
    requires |slots| == |slots'| == MAX_HANDLE_SLOTS && t < |threads| && ThreadsOk(slots, live, threads)
    requires PcOk(slots', live', p)
    requires forall u :: 0 <= u < |threads| && u != t ==>
      PcOk(slots', live', threads[u]) && Compatible(p, threads[u]) && Compatible(threads[u], p)
    ensures ThreadsOk(slots', live', threads[t := p])
  {
    hide PcOk, Compatible;
  }

  // ----- each change of a slot respects the other threads -----

  lemma MarkKeeps(slots: seq<Slot>, live: set<int>, idx: nat, gen: nat, q: Pc)
    requires |slots| == MAX_HANDLE_SLOTS && PcOk(slots, live, MarkDead(idx, gen)) && PcOk(slots, live, q)
    requires Compatible(MarkDead(idx, gen), q) && Compatible(q, MarkDead(idx, gen))
    ensures PcOk(slots[idx := slots[idx].(generation := gen + 1)], live, q)
    ensures Compatible(Drain(idx, gen), q) && Compatible(q, Drain(idx, gen))
  {
  }

  lemma TakeKeeps(slots: seq<Slot>, live: set<int>, idx: nat, gen: nat, q: Pc)
    requires |slots| == MAX_HANDLE_SLOTS && PcOk(slots, live, TakeContext(idx, gen)) && PcOk(slots, live, q)
    requires Compatible(TakeContext(idx, gen), q) && Compatible(q, TakeContext(idx, gen))
    ensures PcOk(slots[idx := slots[idx].(context := 0)], live - {slots[idx].context}, q)
  {
  }

  lemma StoreKeeps(slots: seq<Slot>, live: set<int>, ctx: int, idx: nat, found: nat, q: Pc)
    requires |slots| == MAX_HANDLE_SLOTS && PcOk(slots, live, StoreContext(ctx, idx, found)) && PcOk(slots, live, q)
    requires Compatible(StoreContext(ctx, idx, found), q) && Compatible(q, StoreContext(ctx, idx, found))
    ensures PcOk(slots[idx := slots[idx].(context := ctx)], live, q)
    ensures Compatible(StoreGeneration(ctx, idx, found), q) && Compatible(q, StoreGeneration(ctx, idx, found))
  {
  }

  lemma PublishKeeps(slots: seq<Slot>, live: set<int>, ctx: int, idx: nat, found: nat, q: Pc)
    requires |slots| == MAX_HANDLE_SLOTS && PcOk(slots, live, StoreGeneration(ctx, idx, found)) && PcOk(slots, live, q)
    requires Compatible(StoreGeneration(ctx, idx, found), q) && Compatible(q, StoreGeneration(ctx, idx, found))
    ensures PcOk(slots[idx := slots[idx].(generation := found + 1)], live, q)
    ensures Compatible(StoreHint(idx), q) && Compatible(q, StoreHint(idx))
  {
  }

  // ----- each step keeps the invariant -----

  /** Steps that change no slot. */
  lemma QuietStep(s: State, t: nat, p: Pc, refs': seq<int>)
    requires Inv(s) && t < |s.threads| && PcOk(s.slots, s.live, p)
    requires |refs'| == MAX_HANDLE_SLOTS && forall i :: 0 <= i < MAX_HANDLE_SLOTS ==>
      refs'[i] == s.refs[i] + (if Counts(p, i) then 1 else 0) - if Counts(s.threads[t], i) then 1 else 0
    requires forall u :: 0 <= u < |s.threads| && u != t ==> Compatible(p, s.threads[u]) && Compatible(s.threads[u], p)
    ensures Inv(s.(refs := refs', threads := s.threads[t := p]))
  {
    hide PcOk, Compatible, SlotsOk;
    RefsKept(s.refs, refs', s.threads, t, p);
    ThreadsKept(s.slots, s.live, s.slots, s.live, s.threads, t, p);
  }

  lemma AcquireSteps(s: State, t: nat, call: Call)
    requires Inv(s) && t < |s.threads|
    requires s.threads[t].LoadGeneration? || s.threads[t].LoadContext? || s.threads[t].DropReference? || s.threads[t].Holding?
    ensures PcInRange(s.threads[t]) && Inv(Step(s, t, call))
  {
    hide RefsOk, NotStored;
    assert PcOk(s.slots, s.live, s.threads[t]);
    var s' := Step(s, t, call);
    QuietStep(s, t, s'.threads[t], s'.refs);
  }

  lemma SearchSteps(s: State, t: nat, call: Call)
    requires Inv(s) && t < |s.threads| && (s.threads[t].SearchGeneration? || s.threads[t].SearchContext?)
    ensures PcInRange(s.threads[t]) && Inv(Step(s, t, call))
  {
    hide RefsOk, NotStored;
    assert PcOk(s.slots, s.live, s.threads[t]);
    var s' := Step(s, t, call);
    QuietStep(s, t, s'.threads[t], s'.refs);
  }

  lemma InvalidateSteps(s: State, t: nat, call: Call)
    requires Inv(s) && t < |s.threads| && (s.threads[t].CheckGeneration? || s.threads[t].Drain?)
    ensures PcInRange(s.threads[t]) && Inv(Step(s, t, call))
  {
    hide NotStored;
    var p := s.threads[t];
    assert PcOk(s.slots, s.live, p);
    var s' := Step(s, t, call);
    if p.Drain? && s.refs[p.idx] <= 0 {
      forall u | 0 <= u < |s.threads| ensures !Counts(s.threads[u], p.idx) {
        NoneCounted(s.threads, p.idx, |s.threads|, u);
      }
    }
    if s' != s {
      QuietStep(s, t, s'.threads[t], s'.refs);
    }
  }

  lemma HintStep(s: State, t: nat, call: Call)
    requires Inv(s) && t < |s.threads| && s.threads[t].StoreHint?
    ensures PcInRange(s.threads[t]) && Inv(Step(s, t, call))
  {
    hide NotStored;
    assert PcOk(s.slots, s.live, s.threads[t]);
    QuietStep(s, t, Idle, s.refs);
  }

  /** Steps that change slots or the set of live objects, but no counter. */
  lemma SlotStep(s: State, t: nat, slots': seq<Slot>, live': set<int>, p: Pc)
    requires Inv(s) && t < |s.threads| && |slots'| == MAX_HANDLE_SLOTS
    requires SlotsOk(slots', live') && PcOk(slots', live', p)
    requires forall i :: 0 <= i < MAX_HANDLE_SLOTS ==> Counts(p, i) == Counts(s.threads[t], i)
    requires forall u :: 0 <= u < |s.threads| && u != t ==>
      PcOk(slots', live', s.threads[u]) && Compatible(p, s.threads[u]) && Compatible(s.threads[u], p)
    ensures Inv(s.(slots := slots', live := live', threads := s.threads[t := p]))
  {
    hide PcOk, Compatible, SlotsOk;
    RefsKept(s.refs, s.refs, s.threads, t, p);
    ThreadsKept(s.slots, s.live, slots', live', s.threads, t, p);
  }

  lemma MarkStep(s: State, t: nat, call: Call)
    requires Inv(s) && t < |s.threads| && s.threads[t].MarkDead?
    ensures PcInRange(s.threads[t]) && Inv(Step(s, t, call))
  {
    hide NotStored, RefsOk, Compatible;
    var p := s.threads[t];
    assert PcOk(s.slots, s.live, p);
    var s' := Step(s, t, call);
    forall u | 0 <= u < |s.threads| && u != t
      ensures PcOk(s'.slots, s.live, s.threads[u])
      ensures Compatible(s'.threads[t], s.threads[u]) && Compatible(s.threads[u], s'.threads[t])
    {
      MarkKeeps(s.slots, s.live, p.idx, p.gen, s.threads[u]);
    }
    SlotStep(s, t, s'.slots, s.live, s'.threads[t]);
  }

  lemma TakeStep(s: State, t: nat, call: Call)
    requires Inv(s) && t < |s.threads| && s.threads[t].TakeContext?
    ensures PcInRange(s.threads[t]) && Inv(Step(s, t, call))
  {
    hide NotStored, RefsOk;
    var p := s.threads[t];
    assert PcOk(s.slots, s.live, p);
    var s' := Step(s, t, call);
    forall u | 0 <= u < |s.threads| && u != t ensures PcOk(s'.slots, s'.live, s.threads[u]) {
      TakeKeeps(s.slots, s.live, p.idx, p.gen, s.threads[u]);
    }
    SlotStep(s, t, s'.slots, s'.live, Idle);
  }

  lemma StoreStep(s: State, t: nat, call: Call)
    requires Inv(s) && t < |s.threads| && s.threads[t].StoreContext?
    ensures PcInRange(s.threads[t]) && Inv(Step(s, t, call))
  {
    hide RefsOk, Compatible;
    var p := s.threads[t];
    assert PcOk(s.slots, s.live, p);
    var s' := Step(s, t, call);
    forall u | 0 <= u < |s.threads| && u != t
      ensures PcOk(s'.slots, s.live, s.threads[u])
      ensures Compatible(s'.threads[t], s.threads[u]) && Compatible(s.threads[u], s'.threads[t])
    {
      StoreKeeps(s.slots, s.live, p.ctx, p.idx, p.found, s.threads[u]);
    }
    SlotStep(s, t, s'.slots, s.live, s'.threads[t]);
  }

  lemma PublishStep(s: State, t: nat, call: Call)
    requires Inv(s) && t < |s.threads| && s.threads[t].StoreGeneration?
    ensures PcInRange(s.threads[t]) && Inv(Step(s, t, call))
  {
    hide NotStored, RefsOk, Compatible;
    var p := s.threads[t];
    assert PcOk(s.slots, s.live, p);
    var s' := Step(s, t, call);
    forall u | 0 <= u < |s.threads| && u != t
      ensures PcOk(s'.slots, s.live, s.threads[u])
      ensures Compatible(s'.threads[t], s.threads[u]) && Compatible(s.threads[u], s'.threads[t])
    {
      PublishKeeps(s.slots, s.live, p.ctx, p.idx, p.found, s.threads[u]);
    }
    SlotStep(s, t, s'.slots, s.live, s'.threads[t]);
  }

  lemma CallKeeps(s: State, t: nat, call: Call)
    requires Inv(s) && t < |s.threads| && s.threads[t].Idle? && Allowed(s, t, call)
    ensures PcInRange(s.threads[t]) && Inv(Step(s, t, call))
  {
    hide RefsOk;
    var s' := Step(s, t, call);
    if s' != s {
      match call
      case Acquire(_) => QuietStep(s, t, s'.threads[t], s'.refs);
      case Register(ctx) =>
        forall u | 0 <= u < |s.threads| ensures PcOk(s.slots, s'.live, s.threads[u]) {
          assert PcOk(s.slots, s.live, s.threads[u]);
        }
        SlotStep(s, t, s.slots, s'.live, s'.threads[t]);
      case Invalidate(_) => QuietStep(s, t, s'.threads[t], s'.refs);
    }
  }

  /** Whatever thread moves next, and whatever an idle thread calls, the invariant stays. */
  lemma StepKeepsInv(s: State, t: nat, call: Call)
    requires Inv(s) && t < |s.threads| && Allowed(s, t, call)
    ensures PcInRange(s.threads[t]) && Inv(Step(s, t, call))
  {
    hide Inv, Allowed, Step;
    match s.threads[t]
    case Idle => CallKeeps(s, t, call);
    case LoadGeneration(_, _) => AcquireSteps(s, t, call);
    case LoadContext(_, _, _) => AcquireSteps(s, t, call);
    case DropReference(_) => AcquireSteps(s, t, call);
    case Holding(_, _, _) => AcquireSteps(s, t, call);
    case SearchGeneration(_, _, _) => SearchSteps(s, t, call);
    case SearchContext(_, _, _, _) => SearchSteps(s, t, call);
    case StoreContext(_, _, _) => StoreStep(s, t, call);
    case StoreGeneration(_, _, _) => PublishStep(s, t, call);
    case StoreHint(_) => HintStep(s, t, call);
    case CheckGeneration(_, _) => InvalidateSteps(s, t, call);
    case MarkDead(_, _) => MarkStep(s, t, call);
    case Drain(_, _) => InvalidateSteps(s, t, call);
    case TakeContext(_, _) => TakeStep(s, t, call);
  }

  // ----- all runs -----

  datatype Event = Event(t: nat, call: Call)

  function Initial(n: nat): State
  {
    State(seq(MAX_HANDLE_SLOTS, i => Slot(0, 0)), seq(MAX_HANDLE_SLOTS, i => 0), 0, seq(n, i => Idle), {})
  }

  /** Each event is a step of some thread that the callers' rules allow. */
  ghost predicate IsRun(n: nat, events: seq<Event>, states: seq<State>)
  {
    && |states| == |events| + 1 && states[0] == Initial(n)
    && forall k :: 0 <= k < |events| ==>
      && Sized(states[k]) && events[k].t < |states[k].threads| && PcInRange(states[k].threads[events[k].t])
      && Allowed(states[k], events[k].t, events[k].call)
      && states[k + 1] == Step(states[k], events[k].t, events[k].call)
  }

  lemma {:induction false} NothingCounted(n: nat, idx: nat, m: nat)
    requires m <= n
    ensures RefCount(seq(n, i => Idle), idx, m) == 0
  {
    if m > 0 {
      NothingCounted(n, idx, m - 1);
    }
  }

  lemma InitialInv(n: nat)
    ensures Inv(Initial(n))
  {
    forall i | 0 <= i < MAX_HANDLE_SLOTS ensures RefCount(Initial(n).threads, i, n) == 0 {
      NothingCounted(n, i, n);
    }
  }

  lemma {:induction false} RunKeepsInv(n: nat, events: seq<Event>, states: seq<State>, k: nat)
    requires IsRun(n, events, states) && k <= |events|
    ensures Inv(states[k])
  {
    hide Inv, Allowed, Step, Initial;
    if k == 0 {
      InitialInv(n);
    } else {
      RunKeepsInv(n, events, states, k - 1);
      StepKeepsInv(states[k - 1], events[k - 1].t, events[k - 1].call);
    }
  }

  /**
   In every state of every run: the object behind a live reference has not been deleted; a context is not
   taken for deletion while there is a live reference to its slot's incarnation; and a slot with an odd
   generation has a context.
   */
  lemma NoUseAfterFree(n: nat, events: seq<Event>, states: seq<State>, k: nat)
    requires IsRun(n, events, states) && k <= |events|
    ensures Sized(states[k])
    ensures forall t :: 0 <= t < |states[k].threads| && states[k].threads[t].Holding? ==>
      var p := states[k].threads[t]; p.ctx != 0 && p.ctx in states[k].live
    ensures forall t, u :: 0 <= t < |states[k].threads| && 0 <= u < |states[k].threads| ==>
      (states[k].threads[t].TakeContext? && states[k].threads[u].Holding? ==>
       states[k].threads[t].idx != states[k].threads[u].idx)
    ensures forall i :: 0 <= i < MAX_HANDLE_SLOTS && states[k].slots[i].generation % 2 == 1 ==>
      states[k].slots[i].context != 0
  {
    RunKeepsInv(n, events, states, k);
    var s := states[k];
    forall t | 0 <= t < |s.threads| && s.threads[t].Holding?
      ensures s.threads[t].ctx != 0 && s.threads[t].ctx in s.live
    {
      assert PcOk(s.slots, s.live, s.threads[t]);
    }
    forall t, u | 0 <= t < |s.threads| && 0 <= u < |s.threads| && s.threads[t].TakeContext? && s.threads[u].Holding?
      ensures s.threads[t].idx != s.threads[u].idx
    {
      assert PcOk(s.slots, s.live, s.threads[t]) && PcOk(s.slots, s.live, s.threads[u]);
      assert Compatible(s.threads[t], s.threads[u]);
    }
  }

  /** Slot idx has moved past generation gen, and no thread refers to that incarnation. */
  ghost predicate Stale(s: State, idx: nat, gen: nat)
  {
    && Sized(s) && idx < MAX_HANDLE_SLOTS && s.slots[idx].generation > gen
    && forall t :: 0 <= t < |s.threads| ==> !Refers(s.threads[t], idx, gen)
  }

  lemma StaleStep(s: State, t: nat, call: Call, idx: nat, gen: nat)
    requires Inv(s) && t < |s.threads| && Allowed(s, t, call) && Stale(s, idx, gen)
    ensures PcInRange(s.threads[t]) && Stale(Step(s, t, call), idx, gen)
  {
    hide NotStored, Compatible, RefsOk, SlotsOk;
    assert PcOk(s.slots, s.live, s.threads[t]);
    var s' := Step(s, t, call);
    assert !Refers(s.threads[t], idx, gen);
    assert forall u :: 0 <= u < |s.threads| && u != t ==> s'.threads[u] == s.threads[u];
  }

  /** Once a handle is stale it never validates again, however often its slot is reused. */
  lemma {:induction false} StaleForever(n: nat, events: seq<Event>, states: seq<State>, j: nat, k: nat, idx: nat, gen: nat)
    requires IsRun(n, events, states) && j <= k <= |events| && Stale(states[j], idx, gen)
    ensures Stale(states[k], idx, gen)
  {
    hide Inv, Allowed, Step, Initial, Stale;
    if j < k {
      StaleForever(n, events, states, j, k - 1, idx, gen);
      RunKeepsInv(n, events, states, k - 1);
      StaleStep(states[k - 1], events[k - 1].t, events[k - 1].call, idx, gen);
    }
  }

  /**
   Odd generations are needed: a made-up handle with the even generation of a slot whose last reference has
   just drained validates, and then refers to a deleted object.
   */
  lemma ForgedHandle(s: State, a: nat, b: nat, idx: nat, gen: nat)
    requires Inv(s) && a < |s.threads| && b < |s.threads| && s.threads[b].Idle?
    requires s.threads[a] == TakeContext(idx, gen) && idx < MAX_HANDLE_SLOTS && gen + 1 < 0x8000_0000
    ensures var call := Acquire(Handle(gen + 1, idx));
      var s1 := Step(s, b, call);
      var s2 := Step(s1, b, call);
      var s3 := Step(s2, b, call);
      var s4 := Step(s3, a, call);
      s3.threads[b].Holding? && s4.threads[b] == s3.threads[b] && s4.threads[b].ctx !in s4.live
  {
    HandleRoundTrip(gen + 1, idx);
    assert PcOk(s.slots, s.live, s.threads[a]);
  }

  /** A thread looks for a free slot for an object, while another one does nothing. */
  lemma SearchReachable(ctx: int) returns (events: seq<Event>, states: seq<State>, s: State)
    requires ctx != 0
    ensures IsRun(2, events, states) && |states| == |events| + 1 && states[|events|] == s && Sized(s)
    ensures s.threads == [StoreContext(ctx, 0, 0), Idle] && s.slots[0].generation == 0 && s.refs[0] == 0
    ensures s.live == {ctx}
  {
    hide IsRun;
    s := Initial(2);
    assert s.threads == [Idle, Idle];
    events, states := [], [s];
    StartRun(s);
    var e := Event(0, Register(ctx));
    events, states, s := Extend(events, states, s, e);
    assert s.threads == [SearchGeneration(ctx, 0, 0), Idle];
    events, states, s := Extend(events, states, s, e);
    assert s.threads == [SearchContext(ctx, 0, 0, 0), Idle];
    events, states, s := Extend(events, states, s, e);
  }

  /** It registers the object. */
  lemma RegisteredReachable(ctx: int) returns (events: seq<Event>, states: seq<State>, s: State)
    requires ctx != 0
    ensures IsRun(2, events, states) && |states| == |events| + 1 && states[|events|] == s && Sized(s)
    ensures s.threads == [Idle, Idle] && s.slots[0] == Slot(1, ctx) && s.refs[0] == 0 && s.live == {ctx}
  {
    hide IsRun, Initial;
    events, states, s := SearchReachable(ctx);
    var e := Event(0, Register(ctx));
    events, states, s := Extend(events, states, s, e);
    assert s.threads == [StoreGeneration(ctx, 0, 0), Idle];
    events, states, s := Extend(events, states, s, e);
    assert s.threads == [StoreHint(0), Idle];
    events, states, s := Extend(events, states, s, e);
  }

  /** Then it invalidates its handle, up to the point of taking the object out of the slot. */
  lemma DrainedReachable(ctx: int) returns (events: seq<Event>, states: seq<State>)
    requires ctx != 0
    ensures IsRun(2, events, states) && |states| == |events| + 1
    ensures states[|events|].threads == [TakeContext(0, 1), Idle]
  {
    hide IsRun, Handle, IndexOf, GenerationOf;
    HandleRoundTrip(1, 0);
    var s;
    events, states, s := RegisteredReachable(ctx);
    var e := Event(0, Invalidate(Handle(1, 0)));
    events, states, s := Extend(events, states, s, e);
    assert s.threads == [CheckGeneration(0, 1), Idle];
    events, states, s := Extend(events, states, s, e);
    assert s.threads == [MarkDead(0, 1), Idle];
    events, states, s := Extend(events, states, s, e);
    assert s.threads == [Drain(0, 1), Idle];
    events, states, s := Extend(events, states, s, e);
    assert s.threads == [TakeContext(0, 1), Idle];
  }

  /** So a run of permitted steps comes to a state of the kind ForgedHandle starts from. */
  lemma ForgedReachable(ctx: int) returns (events: seq<Event>, states: seq<State>)
    requires ctx != 0
    ensures IsRun(2, events, states) && |states| == |events| + 1
    ensures Inv(states[|events|]) && states[|events|].threads == [TakeContext(0, 1), Idle]
  {
    hide IsRun, Inv;
    events, states := DrainedReachable(ctx);
    RunKeepsInv(2, events, states, |events|);
  }

  lemma StartRun(s: State)
    requires s == Initial(2)
    ensures IsRun(2, [], [s])
  {
  }

  /** One more event of a run that has come to s. */
  lemma Extend(events: seq<Event>, states: seq<State>, s: State, e: Event)
    returns (events': seq<Event>, states': seq<State>, s': State)
    requires IsRun(2, events, states) && |states| == |events| + 1 && states[|events|] == s
    requires Sized(s) && e.t < |s.threads| && PcInRange(s.threads[e.t]) && Allowed(s, e.t, e.call)
    ensures events' == events + [e] && IsRun(2, events', states') && |states'| == |events'| + 1
    ensures s' == Step(s, e.t, e.call) && states'[|events'|] == s'
  {
    hide Step, Allowed, Initial, PcInRange;
    s' := Step(s, e.t, e.call);
    events', states' := events + [e], states + [s'];
    forall k | 0 <= k < |events'|
      ensures Sized(states'[k]) && events'[k].t < |states'[k].threads| && PcInRange(states'[k].threads[events'[k].t])
        && Allowed(states'[k], events'[k].t, events'[k].call)
        && states'[k + 1] == Step(states'[k], events'[k].t, events'[k].call)
    {
      if k < |events| {
        assert events'[k] == events[k] && states'[k] == states[k] && states'[k + 1] == states[k + 1];
      }
    }
  }
}
