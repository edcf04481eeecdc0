/**
 The mailbox with its two index hand-overs taken apart: acquireReadBuffer into the load of the latest index and the
 store of the read index, unlockWriteBuffer into the store of the latest index, the load of the read index and the
 store of the write index (FrameBufferRing.cpp). Frames completed between load and store of the reader can give
 the writer the buffer the reader is about to hold; here is exactly when.
 */
module SplitCalls {
  import opened FrameMailbox

  /** Between calls, or with the latest index loaded and not stored yet. */
  datatype Reader = Between | Loaded(latest: nat)

  /** Between calls, with the latest index stored, or with the next buffer chosen and not stored yet. */
  datatype Writer = Idle | Completed | Chosen(next: nat)

  /** completed counts the frames completed since the reader loaded the index. */
  datatype State = State(box: Box, writer: Writer, reader: Reader, completed: nat)

  datatype Step = Call(op: Op) | Complete(fenceFd: int) | LoadRead | StoreWrite | Load | Store

  predicate Shaped(s: State)
  {
    && Sized(s.box) && (s.reader.Loaded? ==> s.reader.latest < FRAME_BUFFER_COUNT)
    && (s.writer.Chosen? ==> s.writer.next < FRAME_BUFFER_COUNT)
  }

  /** The buffer the writer writes next; none has been chosen right after a frame was completed. */
  predicate Writes(s: State, slot: nat)
  {
    match s.writer
    case Idle => slot == s.box.write
    case Completed => false
    case Chosen(next) => slot == next
  }

  /** The reader is about to hold the buffer the writer writes. */
  predicate Collides(s: State)
  {
    s.reader.Loaded? && Writes(s, s.reader.latest)
  }

  /** One writer and one reader, which releases before it acquires again; nothing has gone wrong so far. */
  predicate Allowed(s: State, st: Step)
  {
    match st
    case Call(op) =>
      && !op.AcquireRead? && !op.Unlock? && (op.ReleaseRead? ==> s.box.held && s.reader.Between?)
      && (op.LockWrite? || op.WritePixels? || op.Cancel? ==> s.writer.Idle?)
    case Complete(_) => s.writer.Idle? && s.box.isAllocated
    case LoadRead => s.writer.Completed?
    case StoreWrite => s.writer.Chosen?
    case Load => s.reader.Between? && !s.box.held
    case Store => s.reader.Loaded? && !Collides(s)
  }

  /** The frame gets its number and becomes the latest one. */
  function Published(b: Box, fenceFd: int): Box
    requires Sized(b)
  {
    var n, idx := b.counter + 1, b.write;
    b.(meta := b.meta[idx := b.meta[idx].(frameNumber := n, acquireFenceFd := fenceFd, valid := true)],
       latest := idx, counter := n, committed := b.committed + [Frame(n, b.contents[idx])])
  }

  function Taken(b: Box, latest: nat): Box
    requires Sized(b) && latest < FRAME_BUFFER_COUNT
  {
    b.(read := latest, meta := b.meta[latest := b.meta[latest].(isLockedByConsumer := true)],
       held := true, lastNumber := b.meta[latest].frameNumber)
  }

  function Next(s: State, st: Step): State
    requires Shaped(s)
  {
    match st
    case Call(op) => s.(box := Apply(s.box, op))
    case Complete(fenceFd) => s.(box := Published(s.box, fenceFd), writer := Completed, completed := s.completed + 1)
    case LoadRead => s.(writer := Chosen(NextWrite(s.box.write, s.box.read)))
    case StoreWrite => if s.writer.Chosen? then s.(box := s.box.(write := s.writer.next), writer := Idle) else s
    case Load => if Newest(s.box).None? then s else s.(reader := Loaded(s.box.latest), completed := 0)
    case Store => if s.reader.Loaded? then s.(box := Taken(s.box, s.reader.latest), reader := Between) else s
  }

  /** With nothing in between, the parts are the calls. */
  lemma PartsTogether(s: State, fenceFd: int)
    requires Shaped(s)
    ensures Newest(s.box).Some? ==> Shaped(Next(s, Load)) && Next(Next(s, Load), Store).box == Acquired(s.box)
    ensures s.box.isAllocated ==>
      var s1 := Next(s, Complete(fenceFd));
      Shaped(s1) && var s2 := Next(s1, LoadRead);
      Shaped(s2) && Next(s2, StoreWrite).box == Unlocked(s.box, fenceFd)
  {
  }

  // ----- the invariant -----

  ghost predicate RingOk(s: State)
  {
    var b := s.box;
    && Shaped(s) && NumbersOk(b)
    && (b.latest == -1 ==> b.counter == 0 && s.writer.Idle?)
    && (b.latest >= 0 ==> HoldsFrame(b, b.latest, b.counter) && b.isAllocated && !Writes(s, b.latest) && !Writes(s, b.read))
    && (!s.writer.Idle? ==> b.write == b.latest)
    && (b.held ==> b.latest >= 0 && HoldsFrame(b, b.read, b.lastNumber))
    && (forall i :: 0 <= i < FRAME_BUFFER_COUNT && b.meta[i].isLockedByConsumer ==> b.held && i == b.read)
  }

  /**
   The buffer loaded still holds a frame no older than the one read before; unless it is the one read before, it
   is the writer's when the completions are odd, or will be once the writer has chosen.
   */
  ghost predicate Tracked(s: State, latest: nat)
    requires Shaped(s)
  {
    var b := s.box;
    && latest < FRAME_BUFFER_COUNT && b.latest >= 0 && !b.held && b.meta[latest].frameNumber >= b.lastNumber
    && (!Writes(s, latest) ==> HoldsFrame(b, latest, b.meta[latest].frameNumber))
    && (b.read == latest ==> !Writes(s, latest))
    && (b.read != latest && s.completed % 2 == 0 ==> b.latest == latest)
    && (b.read != latest && s.completed % 2 == 1 ==>
        if s.writer.Completed? then b.write != latest && b.write != b.read else Writes(s, latest))
  }

  ghost predicate Inv(s: State)
  {
    RingOk(s) && (s.reader.Loaded? ==> Tracked(s, s.reader.latest))
  }

  lemma StepKeeps(s: State, st: Step)
    requires Inv(s) && Allowed(s, st)
    ensures Shaped(s) && Inv(Next(s, st))
  {
    match st
    case Call(op) => CallKeeps(s, op);
    case Complete(fenceFd) => CompleteKeeps(s, fenceFd);
    case LoadRead =>
    case StoreWrite =>
    case Load =>
    case Store =>
  }

  lemma CallKeeps(s: State, op: Op)
    requires Inv(s) && Allowed(s, Call(op))
    ensures Shaped(s) && Inv(Next(s, Call(op)))
  {
    match op
    case LockWrite => LockKeeps(s);
    case WritePixels(content) => PixelsKeep(s, content);
    case Cancel =>
    case ReleaseRead => ReleaseKeeps(s);
    case SetFence(slot, fenceFd) => FenceKeeps(s, slot, fenceFd);
  }

  lemma LockKeeps(s: State)
    requires Inv(s)
    ensures Shaped(s) && Inv(Next(s, Call(LockWrite)))
  {
  }

  lemma PixelsKeep(s: State, content: int)
    requires Inv(s) && s.writer.Idle?
    ensures Shaped(s) && Inv(Next(s, Call(WritePixels(content))))
  {
  }

  lemma ReleaseKeeps(s: State)
    requires Inv(s) && s.box.held && s.reader.Between?
    ensures Shaped(s) && Inv(Next(s, Call(ReleaseRead)))
  {
  }

  lemma FenceKeeps(s: State, slot: int, fenceFd: int)
    requires Inv(s)
    ensures Shaped(s) && Inv(Next(s, Call(SetFence(slot, fenceFd))))
  {
  }

  lemma CompleteKeeps(s: State, fenceFd: int)
    requires Inv(s) && Allowed(s, Complete(fenceFd))
    ensures Shaped(s) && Inv(Next(s, Complete(fenceFd)))
  {
  }

  // ----- all runs -----

  const START := State(NEW_BOX, Idle, Between, 0)

  ghost predicate IsRun(steps: seq<Step>, states: seq<State>)
  {
    && |states| == |steps| + 1 && states[0] == START
    && forall k :: 0 <= k < |steps| ==>
      Shaped(states[k]) && Allowed(states[k], steps[k]) && states[k + 1] == Next(states[k], steps[k])
  }

  lemma {:induction false} RunKeeps(steps: seq<Step>, states: seq<State>, k: nat)
    requires IsRun(steps, states) && k <= |steps|
    ensures Inv(states[k])
  {
    hide Inv, Allowed, Next;
    if k == 0 {
      StartInv();
    } else {
      RunKeeps(steps, states, k - 1);
      StepKeeps(states[k - 1], steps[k - 1]);
    }
  }

  lemma StartInv()
    ensures Inv(START)
  {
  }

  /**
   In every run without a collision so far: the reader is about to take the writer's buffer exactly when the
   buffer it read last is another one than it loaded, an odd number of frames has been completed since, and the
   writer has chosen its next buffer after the last of them.
   */
  lemma CollidesExactly(steps: seq<Step>, states: seq<State>, k: nat)
    requires IsRun(steps, states) && k <= |steps| && states[k].reader.Loaded?
    ensures var s := states[k];
      Collides(s) <==> s.box.read != s.reader.latest && s.completed % 2 == 1 && !s.writer.Completed?
  {
    RunKeeps(steps, states, k);
  }

  /** In every such run, what the reader holds is the frame it acquired, and the writer does not write it. */
  lemma HeldUnchanged(steps: seq<Step>, states: seq<State>, k: nat)
    requires IsRun(steps, states) && k <= |steps| && states[k].box.held
    ensures var s := states[k];
      Sized(s.box) && !Writes(s, s.box.read) && 1 <= s.box.lastNumber <= |s.box.committed|
      && s.box.contents[s.box.read] == s.box.committed[s.box.lastNumber - 1].content
  {
    RunKeeps(steps, states, k);
  }

  /** One more step of a run that has come to s. */
  lemma Extend(steps: seq<Step>, states: seq<State>, s: State, st: Step)
    returns (steps': seq<Step>, states': seq<State>, s': State)
    requires IsRun(steps, states) && states[|steps|] == s && Shaped(s) && Allowed(s, st)
    ensures steps' == steps + [st] && IsRun(steps', states')
    ensures s' == Next(s, st) && states'[|steps'|] == s'
  {
    hide Next, Allowed, Shaped;
    s' := Next(s, st);
    steps', states' := steps + [st], states + [s'];
    forall k | 0 <= k < |steps'|
      ensures Shaped(states'[k]) && Allowed(states'[k], steps'[k]) && states'[k + 1] == Next(states'[k], steps'[k])
    {
      if k < |steps| {
        assert steps'[k] == steps[k] && states'[k] == states[k] && states'[k + 1] == states[k + 1];
      }
    }
  }

  /** A frame completed with nothing in between. */
  lemma WholeFrame(steps: seq<Step>, states: seq<State>, s: State)
    returns (steps': seq<Step>, states': seq<State>, s': State)
    requires IsRun(steps, states) && states[|steps|] == s && Shaped(s) && s.writer.Idle? && s.box.isAllocated
    ensures IsRun(steps', states') && |states'| == |steps'| + 1 && states'[|steps'|] == s'
    ensures Shaped(s') && s' == s.(box := Unlocked(s.box, -1), completed := s.completed + 1)
  {
    steps', states', s' := Extend(steps, states, s, Complete(-1));
    steps', states', s' := Extend(steps', states', s', LoadRead);
    steps', states', s' := Extend(steps', states', s', StoreWrite);
  }

  /**
   Such a state is reached: two frames, the load, and one more frame. When the reader then stores its index, the
   buffer it holds is the one the writer writes, and it changes under the reader's eyes.
   */
  lemma CollisionReached(content: int) returns (steps: seq<Step>, states: seq<State>)
    ensures IsRun(steps, states)
    ensures var s := states[|steps|];
      && Shaped(s) && Collides(s)
      && var b := Next(s, Store).box;
      && b.held && b.read == b.write && Sized(b) && Locked(b).meta[b.write].isLockedByConsumer
      && Written(b, content).contents[b.read] == content
      && 1 <= b.lastNumber <= |b.committed| && b.committed[b.lastNumber - 1].content == 0
  {
    var s := START;
    steps, states := [], [s];
    steps, states, s := WholeFrame(steps, states, s);
    steps, states, s := WholeFrame(steps, states, s);
    assert s.box.latest == 1 && s.box.write == 2 && s.box.read == 0;
    steps, states, s := Extend(steps, states, s, Load);
    assert s.reader == Loaded(1);
    steps, states, s := WholeFrame(steps, states, s);
    assert s.box.write == 1;
  }
}
