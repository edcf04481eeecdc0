/**
 The triple-buffered mailbox of FrameBufferRing.cpp: the writer always has a buffer nobody reads, and the
 reader always gets the frame completed last. Each call is one atomic step; one reader alternates
 acquireReadBuffer and releaseReadBuffer.
 */
module FrameMailbox {
  import opened Wrappers

  const FRAME_BUFFER_COUNT: nat := 3

  /** A descriptor is at least 0; -1 means none. */
  datatype Metadata = Metadata(frameNumber: nat, acquireFenceFd: int, gpuReleaseFenceFd: int,
                               valid: bool, isLockedByConsumer: bool)

  const EMPTY_SLOT := Metadata(0, -1, -1, false, false)

  /** A frame number and the contents of its buffer. */
  datatype Frame = Frame(number: nat, content: int)

  /**
   What the ring holds. committed, held and lastNumber are history: all frames completed since allocation,
   whether the reader holds a frame, and the number of the frame it acquired last.
   */
  datatype Box = Box(isAllocated: bool, latest: int, write: nat, read: nat, counter: nat,
                     meta: seq<Metadata>, contents: seq<int>,
                     committed: seq<Frame>, held: bool, lastNumber: nat)

  // ----- the calls, as functions -----

  /** The next buffer to write after idx, leaving out the one last read. */
  function NextWrite(idx: nat, read: nat): (next: nat)
    requires idx < FRAME_BUFFER_COUNT && read < FRAME_BUFFER_COUNT
    ensures next < FRAME_BUFFER_COUNT && next != idx && next != read
  {
    var next := (idx + 1) % FRAME_BUFFER_COUNT;
    if next == read then (next + 1) % FRAME_BUFFER_COUNT else next
  }

  predicate Sized(b: Box)
  {
    && |b.meta| == |b.contents| == FRAME_BUFFER_COUNT
    && -1 <= b.latest < FRAME_BUFFER_COUNT && b.write < FRAME_BUFFER_COUNT && b.read < FRAME_BUFFER_COUNT
  }

  function Locked(b: Box): Box
    requires Sized(b)
  {
    if b.meta[b.write].gpuReleaseFenceFd >= 0 then
      b.(meta := b.meta[b.write := b.meta[b.write].(gpuReleaseFenceFd := -1)])
    else b
  }

  function Written(b: Box, content: int): Box
    requires Sized(b)
  {
    b.(contents := b.contents[b.write := content])
  }

  function Unlocked(b: Box, fenceFd: int): Box
    requires Sized(b)
  {
    if !b.isAllocated then b
    else
      var n, idx := b.counter + 1, b.write;
      b.(meta := b.meta[idx := b.meta[idx].(frameNumber := n, acquireFenceFd := fenceFd, valid := true)],
         latest := idx, counter := n, write := NextWrite(idx, b.read),
         committed := b.committed + [Frame(n, b.contents[idx])])
  }

  /** What the reader gets. */
  function Newest(b: Box): Option<Frame>
    requires Sized(b)
  {
    if b.isAllocated && b.latest >= 0 && b.meta[b.latest].valid
    then Some(Frame(b.meta[b.latest].frameNumber, b.contents[b.latest])) else None
  }

  function Acquired(b: Box): Box
    requires Sized(b)
  {
    if Newest(b).None? then b
    else b.(read := b.latest, meta := b.meta[b.latest := b.meta[b.latest].(isLockedByConsumer := true)],
            held := true, lastNumber := Newest(b).value.number)
  }

  function Released(b: Box): Box
    requires Sized(b)
  {
    b.(meta := b.meta[b.read := b.meta[b.read].(isLockedByConsumer := false)], held := false)
  }

  function Fenced(b: Box, slot: int, fenceFd: int): Box
    requires Sized(b)
  {
    if 0 <= slot < FRAME_BUFFER_COUNT then
      b.(meta := b.meta[slot := b.meta[slot].(gpuReleaseFenceFd := fenceFd, isLockedByConsumer := false)])
    else b
  }

  // ----- the invariant -----

  ghost predicate NumbersOk(b: Box)
    requires Sized(b)
  {
    && |b.committed| == b.counter && b.lastNumber <= b.counter
    && (forall i :: 0 <= i < b.counter ==> b.committed[i].number == i + 1)
    && (forall i :: 0 <= i < FRAME_BUFFER_COUNT && b.meta[i].valid ==> 1 <= b.meta[i].frameNumber <= b.counter)
    && (forall i, j :: 0 <= i < j < FRAME_BUFFER_COUNT && b.meta[i].valid && b.meta[j].valid ==>
        b.meta[i].frameNumber != b.meta[j].frameNumber)
  }

  /** Slot i holds the frame it says it does. */
  predicate HoldsFrame(b: Box, i: int, n: nat)
    requires Sized(b) && 0 <= i < FRAME_BUFFER_COUNT
  {
    && b.meta[i].valid && b.meta[i].frameNumber == n && 1 <= n <= |b.committed|
    && b.contents[i] == b.committed[n - 1].content
  }

  ghost predicate Ok(b: Box)
  {
    && Sized(b) && NumbersOk(b)
    && (b.latest == -1 ==> b.counter == 0)
    && (b.latest >= 0 ==> HoldsFrame(b, b.latest, b.counter))
    // the buffer to write is neither the latest one nor the one held
    && b.write != b.latest
    && (b.held ==> b.isAllocated && b.write != b.read && HoldsFrame(b, b.read, b.lastNumber))
    && (forall i :: 0 <= i < FRAME_BUFFER_COUNT && b.meta[i].isLockedByConsumer ==> b.held && i == b.read)
  }

  lemma OkSized(b: Box)
    requires Ok(b)
    ensures Sized(b)
  {
  }

  lemma LockedOk(b: Box)
    requires Ok(b)
    ensures Ok(Locked(b))
  {
  }

  lemma WrittenOk(b: Box, content: int)
    requires Ok(b)
    ensures Ok(Written(b, content))
  {
  }

  lemma UnlockedOk(b: Box, fenceFd: int)
    requires Ok(b)
    ensures Ok(Unlocked(b, fenceFd))
  {
    if b.isAllocated {
      var c := Unlocked(b, fenceFd);
      assert HoldsFrame(c, c.latest, c.counter);
      if b.held {
        assert HoldsFrame(b, b.read, b.lastNumber);
        assert c.committed[b.lastNumber - 1] == b.committed[b.lastNumber - 1];
      }
    }
  }

  lemma AcquiredOk(b: Box)
    requires Ok(b) && !b.held
    ensures Ok(Acquired(b))
    ensures Newest(b).Some? <==> b.isAllocated && b.committed != []
    ensures Newest(b).Some? ==> Newest(b).value == b.committed[|b.committed| - 1]
    ensures b.lastNumber <= Acquired(b).lastNumber
  {
  }

  lemma ReleasedOk(b: Box)
    requires Ok(b)
    ensures Ok(Released(b))
  {
  }

  lemma FencedOk(b: Box, slot: int, fenceFd: int)
    requires Ok(b)
    ensures Ok(Fenced(b, slot, fenceFd))
  {
  }

  // ----- all runs -----

  /** Calls of the writer and of the reader, in any order but for the reader's alternation. */
  datatype Op =
    | LockWrite
    | WritePixels(content: int)
    | Unlock(fenceFd: int)
    | Cancel
    | AcquireRead
    | ReleaseRead
    | SetFence(slot: int, fenceFd: int)

  predicate Permitted(b: Box, op: Op)
  {
    (op.AcquireRead? ==> !b.held) && (op.ReleaseRead? ==> b.held)
  }

  function Apply(b: Box, op: Op): Box
    requires Sized(b)
  {
    match op
    case LockWrite => if b.isAllocated then Locked(b) else b
    case WritePixels(content) => Written(b, content)
    case Unlock(fenceFd) => Unlocked(b, fenceFd)
    case Cancel => b
    case AcquireRead => Acquired(b)
    case ReleaseRead => Released(b)
    case SetFence(slot, fenceFd) => Fenced(b, slot, fenceFd)
  }

  const NEW_BOX := Box(true, -1, 0, 0, 0, [EMPTY_SLOT, EMPTY_SLOT, EMPTY_SLOT], [0, 0, 0], [], false, 0)

  ghost predicate IsRun(ops: seq<Op>, boxes: seq<Box>)
  {
    && |boxes| == |ops| + 1 && boxes[0] == NEW_BOX
    && forall k :: 0 <= k < |ops| ==>
      Sized(boxes[k]) && Permitted(boxes[k], ops[k]) && boxes[k + 1] == Apply(boxes[k], ops[k])
  }

  lemma ApplyOk(b: Box, op: Op)
    requires Ok(b) && Permitted(b, op)
    ensures Ok(Apply(b, op)) && b.committed <= Apply(b, op).committed && b.lastNumber <= Apply(b, op).lastNumber
  {
    match op
    case LockWrite => LockedOk(b);
    case WritePixels(content) => WrittenOk(b, content);
    case Unlock(fenceFd) => UnlockedOk(b, fenceFd);
    case Cancel =>
    case AcquireRead => AcquiredOk(b);
    case ReleaseRead => ReleasedOk(b);
    case SetFence(slot, fenceFd) => FencedOk(b, slot, fenceFd);
  }

  lemma {:induction false} RunOk(ops: seq<Op>, boxes: seq<Box>, k: nat)
    requires IsRun(ops, boxes) && k <= |ops|
    ensures Ok(boxes[k])
  {
    hide Ok, Permitted, Apply;
    if k == 0 {
      NewBoxOk();
    } else {
      RunOk(ops, boxes, k - 1);
      ApplyOk(boxes[k - 1], ops[k - 1]);
    }
  }

  lemma NewBoxOk()
    ensures Ok(NEW_BOX)
  {
  }

  lemma {:induction false} NumbersGrow(ops: seq<Op>, boxes: seq<Box>, j: nat, k: nat)
    requires IsRun(ops, boxes) && j <= k <= |ops|
    ensures boxes[j].lastNumber <= boxes[k].lastNumber && boxes[j].committed <= boxes[k].committed
  {
    hide Ok, Permitted, Apply;
    if j < k {
      NumbersGrow(ops, boxes, j, k - 1);
      RunOk(ops, boxes, k - 1);
      ApplyOk(boxes[k - 1], ops[k - 1]);
    }
  }

  /**
   In every state of every run: the buffer to write is neither the one held nor the one completed last, so
   the writer never finds its buffer locked by the reader; what the reader holds has not changed since it was
   completed; and acquiring gives the frame completed last, with a number at least that of any frame acquired
   before.
   */
  lemma MailboxSafe(ops: seq<Op>, boxes: seq<Box>, j: nat, k: nat)
    requires IsRun(ops, boxes) && j <= k <= |ops|
    ensures var b := boxes[k];
      && Sized(b) && b.write != b.latest && (b.held ==> b.write != b.read)
      && !b.meta[b.write].isLockedByConsumer
      && (b.held ==> 1 <= b.lastNumber <= |b.committed| && b.contents[b.read] == b.committed[b.lastNumber - 1].content)
      && (!b.held && Newest(b).Some? ==> b.committed != [] && Newest(b).value == b.committed[|b.committed| - 1])
      && (!b.held && Newest(b).Some? ==> boxes[j].lastNumber <= Newest(b).value.number)
  {
    RunOk(ops, boxes, k);
    NumbersGrow(ops, boxes, j, k);
    if !boxes[k].held {
      AcquiredOk(boxes[k]);
    }
  }

  // ----- what the calls are for -----

  /** After a release nothing is held, no slot is locked, and nothing else has changed. */
  lemma ReleasedFrees(b: Box)
    requires Ok(b)
    ensures var c := Released(b);
      && !c.held && (forall i :: 0 <= i < FRAME_BUFFER_COUNT ==> !c.meta[i].isLockedByConsumer)
      && c.contents == b.contents && c.committed == b.committed && Newest(c) == Newest(b)
      && (forall i :: 0 <= i < FRAME_BUFFER_COUNT ==> c.meta[i].(isLockedByConsumer := false) == b.meta[i].(isLockedByConsumer := false))
  {
  }

  /** The writer's calls for one frame. */
  function Put(b: Box, content: int, fenceFd: int): (c: Box)
    requires Sized(b)
    ensures Sized(c)
  {
    Apply(Apply(Apply(b, LockWrite), WritePixels(content)), Unlock(fenceFd))
  }

  /** A frame locked, written and unlocked is the newest one, under the next number. */
  lemma Published(b: Box, content: int, fenceFd: int)
    requires Ok(b) && b.isAllocated
    ensures var c := Put(b, content, fenceFd);
      && Ok(c) && c.committed == b.committed + [Frame(b.counter + 1, content)]
      && Newest(c) == Some(Frame(b.counter + 1, content)) && c.held == b.held && c.meta[c.latest].acquireFenceFd == fenceFd
  {
    LockedOk(b);
    var b1 := Apply(b, LockWrite);
    WrittenOk(b1, content);
    UnlockedOk(Apply(b1, WritePixels(content)), fenceFd);
  }

  /** It is what the reader acquires next, with its pixels and its fence. */
  lemma Delivered(b: Box, content: int, fenceFd: int)
    requires Ok(b) && b.isAllocated && !b.held
    ensures var d := Apply(Put(b, content, fenceFd), AcquireRead);
      && Ok(d) && d.held && d.contents[d.read] == content && d.lastNumber == b.counter + 1
      && d.meta[d.read].isLockedByConsumer && d.meta[d.read].acquireFenceFd == fenceFd
  {
    hide Put;
    Published(b, content, fenceFd);
    AcquiredOk(Put(b, content, fenceFd));
  }

  /** A write that is cancelled leaves what a reader gets, and what it holds, as they were. */
  lemma CancelledUnseen(b: Box, content: int)
    requires Ok(b) && b.isAllocated
    ensures var c := Apply(Apply(Apply(b, LockWrite), WritePixels(content)), Cancel);
      && Ok(c) && Newest(c) == Newest(b) && c.committed == b.committed
      && (b.held ==> c.held && c.read == b.read && c.contents[b.read] == b.contents[b.read])
  {
    LockedOk(b);
    WrittenOk(Apply(b, LockWrite), content);
  }

  // ----- file descriptors -----

  function Own(fd: int): multiset<int> { if fd >= 0 then multiset{fd} else multiset{} }

  function Is(fd: int, x: int): nat { if fd == x then 1 else 0 }

  /** How often descriptor x is stored in the slots. */
  function Stored(meta: seq<Metadata>, x: int): nat
    requires |meta| == FRAME_BUFFER_COUNT
  {
    Is(meta[0].acquireFenceFd, x) + Is(meta[0].gpuReleaseFenceFd, x)
    + Is(meta[1].acquireFenceFd, x) + Is(meta[1].gpuReleaseFenceFd, x)
    + Is(meta[2].acquireFenceFd, x) + Is(meta[2].gpuReleaseFenceFd, x)
  }

  /** The ring has open exactly the descriptors it stores. */
  ghost predicate FdsOk(open: multiset<int>, meta: seq<Metadata>)
  {
    |meta| == FRAME_BUFFER_COUNT && forall x :: open[x] == if x >= 0 then Stored(meta, x) else 0
  }

  lemma StoredReplaced(meta: seq<Metadata>, i: nat, m: Metadata, x: int)
    requires |meta| == FRAME_BUFFER_COUNT && i < FRAME_BUFFER_COUNT
    ensures Stored(meta[i := m], x) == Stored(meta, x)
      - Is(meta[i].acquireFenceFd, x) - Is(meta[i].gpuReleaseFenceFd, x)
      + Is(m.acquireFenceFd, x) + Is(m.gpuReleaseFenceFd, x)
  {
  }

  lemma OwnCount(fd: int, x: int)
    ensures Own(fd)[x] == if fd >= 0 then Is(fd, x) else 0
  {
  }

  /** Every count changes as the descriptors of slot i do, from those in the slot to those of m. */
  ghost predicate Exchanged(open: multiset<int>, open': multiset<int>, before: Metadata, m: Metadata)
  {
    forall x :: open'[x] + Own(before.acquireFenceFd)[x] + Own(before.gpuReleaseFenceFd)[x]
      == open[x] + Own(m.acquireFenceFd)[x] + Own(m.gpuReleaseFenceFd)[x]
  }

  /** Closing what slot i stores and storing other descriptors there. */
  lemma FdsReplaced(open: multiset<int>, meta: seq<Metadata>, i: nat, m: Metadata, open': multiset<int>)
    requires FdsOk(open, meta) && i < FRAME_BUFFER_COUNT && Exchanged(open, open', meta[i], m)
    ensures FdsOk(open', meta[i := m])
  {
    hide Stored, Own, Is;
    forall x ensures open'[x] == if x >= 0 then Stored(meta[i := m], x) else 0 {
      StoredReplaced(meta, i, m, x);
      OwnCount(meta[i].acquireFenceFd, x);
      OwnCount(meta[i].gpuReleaseFenceFd, x);
      OwnCount(m.acquireFenceFd, x);
      OwnCount(m.gpuReleaseFenceFd, x);
      IsNegative(meta[i].acquireFenceFd, x);
      IsNegative(meta[i].gpuReleaseFenceFd, x);
      IsNegative(m.acquireFenceFd, x);
      IsNegative(m.gpuReleaseFenceFd, x);
    }
  }

  lemma IsNegative(fd: int, x: int)
    ensures x >= 0 > fd ==> Is(fd, x) == 0
    ensures fd >= 0 > x ==> Is(fd, x) == 0
  {
  }

  lemma FdIsOpen(open: multiset<int>, meta: seq<Metadata>, i: nat)
    requires FdsOk(open, meta) && i < FRAME_BUFFER_COUNT
    ensures meta[i].acquireFenceFd >= 0 ==> meta[i].acquireFenceFd in open
    ensures meta[i].gpuReleaseFenceFd >= 0 ==> meta[i].gpuReleaseFenceFd in open
    ensures meta[i].acquireFenceFd >= 0 && meta[i].gpuReleaseFenceFd >= 0 ==>
      meta[i].gpuReleaseFenceFd in open - multiset{meta[i].acquireFenceFd}
  {
    var a, g := meta[i].acquireFenceFd, meta[i].gpuReleaseFenceFd;
    assert a >= 0 ==> open[a] == Stored(meta, a);
    assert g >= 0 ==> open[g] == Stored(meta, g);
  }

  /** A descriptor is closed, or added; nothing happens for a negative one. */
  ghost predicate Minus(open: multiset<int>, open': multiset<int>, fd: int)
  {
    forall x :: open'[x] + Own(fd)[x] == open[x]
  }

  ghost predicate Plus(open: multiset<int>, open': multiset<int>, fd: int)
  {
    forall x :: open'[x] == open[x] + Own(fd)[x]
  }

  lemma Combine(o0: multiset<int>, o1: multiset<int>, o2: multiset<int>, closed: int, taken: int,
                before: Metadata, m: Metadata)
    requires Minus(o0, o1, closed) && Plus(o1, o2, taken)
    requires (before.acquireFenceFd == closed && m.acquireFenceFd == taken && m.gpuReleaseFenceFd == before.gpuReleaseFenceFd)
      || (before.gpuReleaseFenceFd == closed && m.gpuReleaseFenceFd == taken && m.acquireFenceFd == before.acquireFenceFd)
    ensures Exchanged(o0, o2, before, m)
  {
    hide Own;
    forall x
      ensures o2[x] + Own(before.acquireFenceFd)[x] + Own(before.gpuReleaseFenceFd)[x]
        == o0[x] + Own(m.acquireFenceFd)[x] + Own(m.gpuReleaseFenceFd)[x]
    {
      assert o1[x] + Own(closed)[x] == o0[x] && o2[x] == o1[x] + Own(taken)[x];
    }
  }

  lemma NoFd(open: multiset<int>, fd: int)
    requires fd < 0
    ensures Own(fd) == multiset{} && Minus(open, open, fd) && Plus(open, open, fd)
  {
  }

  lemma BothMoved(given: multiset<int>, closed: multiset<int>, fds: multiset<int>)
    requires closed <= given
    ensures (given + fds) - (closed + fds) == given - closed
  {
  }

  // ----- the ring itself -----

  datatype LockResult = Writable | NotAllocated | LockedByConsumer | LockFailed

  class Mailbox {
    var isAllocated: bool
    var latestCompleted: int
    var writeIndex: nat
    var readIndex: nat
    var frameCounter: nat
    var meta: seq<Metadata>
    var contents: seq<int>
    ghost var committed: seq<Frame>
    ghost var held: bool
    ghost var lastNumber: nat
    /** Descriptors handed to the ring, and those it has closed. */
    ghost var given: multiset<int>
    ghost var closed: multiset<int>

    ghost function Abs(): Box
      reads this
    {
      Box(isAllocated, latestCompleted, writeIndex, readIndex, frameCounter, meta, contents, committed, held, lastNumber)
    }

    ghost predicate Valid()
      reads this
    {
      Ok(Abs()) && Accounted()
    }

    ghost function Open(): multiset<int>
      reads this`given, this`closed
    {
      given - closed
    }

    /** Every descriptor handed over has been closed once, or is stored in a slot and has not been closed. */
    ghost predicate Accounted()
      reads this`given, this`closed, this`meta
    {
      closed <= given && FdsOk(Open(), meta)
    }

    /** A ring after allocate. */
    constructor ()
      ensures Valid() && Abs() == NEW_BOX && given == closed == multiset{}
    {
      isAllocated, latestCompleted, writeIndex, readIndex, frameCounter := true, -1, 0, 0, 0;
      meta := [EMPTY_SLOT, EMPTY_SLOT, EMPTY_SLOT];
      contents := [0, 0, 0];
      committed, held, lastNumber, given, closed := [], false, 0, multiset{}, multiset{};
    }

    /** Closing a descriptor, which must be one the ring still has open. */
    ghost method Close(fd: int)
      requires fd >= 0 && fd in Open() && closed <= given
      modifies this`closed
      ensures closed <= given && closed == old(closed) + Own(fd) && Minus(old(Open()), Open(), fd)
    {
      closed := closed + multiset{fd};
    }

    /** Being handed a descriptor. */
    ghost method Take(fd: int)
      requires closed <= given
      modifies this`given
      ensures closed <= given == old(given) + Own(fd) && Plus(old(Open()), Open(), fd)
    {
      given := given + Own(fd);
    }

    /** The acquire fence of a slot; one that was never used is closed. */
    method ReplaceAcquireFence(idx: nat, fenceFd: int)
      requires Accounted() && idx < |meta| == FRAME_BUFFER_COUNT
      modifies this`meta, this`given, this`closed
      ensures Accounted()
      ensures given == old(given) + Own(fenceFd) && closed == old(closed) + Own(old(meta[idx].acquireFenceFd))
      ensures meta == old(meta)[idx := old(meta[idx]).(acquireFenceFd := fenceFd)]
    {
      hide FdsOk, Exchanged, Minus, Plus, Own;
      ghost var o0, before := Open(), meta;
      FdIsOpen(o0, meta, idx);
      if meta[idx].acquireFenceFd >= 0 {
        Close(meta[idx].acquireFenceFd);
      } else {
        NoFd(o0, meta[idx].acquireFenceFd);
      }
      ghost var o1 := Open();
      Take(fenceFd);
      meta := meta[idx := meta[idx].(acquireFenceFd := fenceFd)];
      Combine(o0, o1, Open(), before[idx].acquireFenceFd, fenceFd, before[idx], meta[idx]);
      FdsReplaced(o0, before, idx, meta[idx], Open());
    }

    /** The release fence of a slot; one that was never used is closed. */
    method ReplaceReleaseFence(idx: nat, fenceFd: int)
      requires Accounted() && idx < |meta| == FRAME_BUFFER_COUNT
      modifies this`meta, this`given, this`closed
      ensures Accounted()
      ensures given == old(given) + Own(fenceFd) && closed == old(closed) + Own(old(meta[idx].gpuReleaseFenceFd))
      ensures meta == old(meta)[idx := old(meta[idx]).(gpuReleaseFenceFd := fenceFd)]
    {
      hide FdsOk, Exchanged, Minus, Plus, Own;
      ghost var o0, before := Open(), meta;
      FdIsOpen(o0, meta, idx);
      if meta[idx].gpuReleaseFenceFd >= 0 {
        Close(meta[idx].gpuReleaseFenceFd);
      } else {
        NoFd(o0, meta[idx].gpuReleaseFenceFd);
      }
      ghost var o1 := Open();
      Take(fenceFd);
      meta := meta[idx := meta[idx].(gpuReleaseFenceFd := fenceFd)];
      Combine(o0, o1, Open(), before[idx].gpuReleaseFenceFd, fenceFd, before[idx], meta[idx]);
      FdsReplaced(o0, before, idx, meta[idx], Open());
    }

    /** Everything in a slot but its fences. */
    method Reset(idx: nat, m: Metadata)
      requires Accounted() && idx < |meta| == FRAME_BUFFER_COUNT
      requires m.acquireFenceFd == meta[idx].acquireFenceFd && m.gpuReleaseFenceFd == meta[idx].gpuReleaseFenceFd
      modifies this`meta
      ensures Accounted() && meta == old(meta)[idx := m]
    {
      hide FdsOk;
      SameFences(Open(), meta, idx, m);
      meta := meta[idx := m];
    }

    /** lockWriteBuffer; hardware tells whether the buffer can be locked. The reader never is in the way. */
    method LockWriteBuffer(hardware: bool) returns (r: LockResult)
      requires Valid()
      modifies this`meta, this`given, this`closed
      ensures Valid() && Abs() == Apply(old(Abs()), LockWrite) && given == old(given)
      ensures closed == old(closed) + (if isAllocated then Own(old(meta[writeIndex].gpuReleaseFenceFd)) else multiset{})
      ensures r == if !isAllocated then NotAllocated else if hardware then Writable else LockFailed
    {
      hide Accounted, Open, Own, HoldsFrame, NumbersOk;
      if !isAllocated {
        return NotAllocated;
      }
      var idx := writeIndex;
      LockedOk(Abs());
      if meta[idx].gpuReleaseFenceFd >= 0 {
        NoFd(given, -1);
        ReplaceReleaseFence(idx, -1);
      } else {
        NoFd(given, meta[idx].gpuReleaseFenceFd);
        if meta[idx].isLockedByConsumer {
          return LockedByConsumer;
        }
      }
      r := if hardware then Writable else LockFailed;
    }

    /** The pixels written between lock and unlock or cancel. */
    method WriteBuffer(content: int)
      requires Valid()
      modifies this`contents
      ensures Valid() && Abs() == Apply(old(Abs()), WritePixels(content))
    {
      hide FdsOk, HoldsFrame, NumbersOk;
      WrittenOk(Abs(), content);
      contents := contents[writeIndex := content];
    }

    /** cancelWriteBuffer: what was written stays unseen, and the fence that comes with unlocking is closed. */
    method CancelWriteBuffer(fenceFd: int)
      requires Valid()
      modifies this`given, this`closed
      ensures Valid()
      ensures var fds := if isAllocated then Own(fenceFd) else multiset{};
        given == old(given) + fds && closed == old(closed) + fds
    {
      hide Accounted, Ok, Own;
      if isAllocated {
        CloseUnused(fenceFd);
      }
    }

    /** The metadata of a completed frame; its fence replaces one that was never used. */
    method CompleteSlot(idx: nat, fenceFd: int, n: nat)
      requires Accounted() && idx < |meta| == FRAME_BUFFER_COUNT
      modifies this`meta, this`given, this`closed
      ensures Accounted()
      ensures given == old(given) + Own(fenceFd) && closed == old(closed) + Own(old(meta[idx].acquireFenceFd))
      ensures meta == old(meta)[idx := old(meta[idx]).(frameNumber := n, acquireFenceFd := fenceFd, valid := true)]
    {
      hide Accounted, Open, Own;
      ghost var before := meta;
      ReplaceAcquireFence(idx, fenceFd);
      Reset(idx, meta[idx].(frameNumber := n, valid := true));
      assert meta == before[idx := meta[idx]];
    }

    /** The buffer to write next: the one after idx, or the one after that if the reader has it. */
    method NextSlot(idx: nat) returns (nextWrite: nat)
      requires idx < FRAME_BUFFER_COUNT && readIndex < FRAME_BUFFER_COUNT
      ensures nextWrite == NextWrite(idx, readIndex)
    {
      nextWrite := (idx + 1) % FRAME_BUFFER_COUNT;
      if nextWrite == readIndex {
        nextWrite := (nextWrite + 1) % FRAME_BUFFER_COUNT;
      }
    }

    /** unlockWriteBuffer: the frame becomes the latest one, and a buffer not being read is written next. */
    method UnlockWriteBuffer(fenceFd: int)
      requires Valid()
      modifies this`meta, this`latestCompleted, this`writeIndex, this`frameCounter, this`given, this`closed,
        this`committed
      ensures Valid() && Abs() == Apply(old(Abs()), Unlock(fenceFd))
      ensures given == old(given) + (if isAllocated then Own(fenceFd) else multiset{})
      ensures closed == old(closed) + (if isAllocated then Own(old(meta[writeIndex].acquireFenceFd)) else multiset{})
    {
      hide FdsOk, Ok, Own, Accounted, Open, NextWrite;
      OkSized(Abs());
      if !isAllocated {
        assert given == given + multiset{} && closed == closed + multiset{};
        return;
      }
      UnlockedOk(Abs(), fenceFd);
      var idx, n := writeIndex, frameCounter + 1;
      CompleteSlot(idx, fenceFd, n);
      var nextWrite := NextSlot(idx);
      frameCounter, latestCompleted, writeIndex, committed :=
        n, idx, nextWrite, committed + [Frame(n, contents[idx])];
    }

    /** acquireReadBuffer: the frame completed last, with a number no smaller than the one read before. */
    method AcquireReadBuffer() returns (r: Option<Frame>)
      requires Valid() && !held
      modifies this`readIndex, this`meta, this`held, this`lastNumber
      ensures Valid() && Abs() == Apply(old(Abs()), AcquireRead)
      ensures r.Some? <==> isAllocated && committed != []
      ensures r.Some? ==> r.value == committed[|committed| - 1] && old(lastNumber) <= r.value.number
    {
      hide FdsOk, Exchanged, HoldsFrame, NumbersOk;
      AcquiredOk(Abs());
      if !isAllocated {
        return None;
      }
      var latest := latestCompleted;
      if latest < 0 || !meta[latest].valid {
        return None;
      }
      ghost var before := meta;
      readIndex := latest;
      meta := meta[latest := meta[latest].(isLockedByConsumer := true)];
      held, lastNumber := true, meta[latest].frameNumber;
      SameFences(Open(), before, latest, meta[latest]);
      r := Some(Frame(meta[latest].frameNumber, contents[latest]));
    }

    /** releaseReadBuffer */
    method ReleaseReadBuffer()
      requires Valid()
      modifies this`meta, this`held
      ensures Valid() && Abs() == Apply(old(Abs()), ReleaseRead)
    {
      hide FdsOk, HoldsFrame, NumbersOk;
      ReleasedOk(Abs());
      ghost var before := meta;
      meta := meta[readIndex := meta[readIndex].(isLockedByConsumer := false)];
      held := false;
      SameFences(Open(), before, readIndex, meta[readIndex]);
    }

    /** findSlotByFrameNumber: the one slot that holds the frame, or -1 if it is gone. */
    method FindSlotByFrameNumber(frameNumber: nat) returns (slot: int)
      requires Valid()
      ensures slot == -1 ==> forall i :: 0 <= i < FRAME_BUFFER_COUNT && meta[i].valid ==> meta[i].frameNumber != frameNumber
      ensures slot != -1 ==> 0 <= slot < FRAME_BUFFER_COUNT && meta[slot].valid && meta[slot].frameNumber == frameNumber
      ensures held && frameNumber == lastNumber ==> slot == readIndex
    {
      hide FdsOk;
      var i := 0;
      while i < FRAME_BUFFER_COUNT
        invariant 0 <= i <= FRAME_BUFFER_COUNT
        invariant forall k :: 0 <= k < i && meta[k].valid ==> meta[k].frameNumber != frameNumber
      {
        if meta[i].valid && meta[i].frameNumber == frameNumber {
          return i;
        }
        i := i + 1;
      }
      return -1;
    }

    /** setGpuReleaseFence: the ring owns the descriptor from here on, whatever the slot. */
    method SetGpuReleaseFence(slotIndex: int, fenceFd: int)
      requires Valid()
      modifies this`meta, this`given, this`closed
      ensures Valid() && Abs() == Apply(old(Abs()), SetFence(slotIndex, fenceFd))
      ensures given == old(given) + Own(fenceFd)
      ensures closed == old(closed) + Own(if 0 <= slotIndex < FRAME_BUFFER_COUNT then old(meta[slotIndex].gpuReleaseFenceFd)
        else fenceFd)
    {
      hide Accounted, Open, HoldsFrame, NumbersOk, Own;
      FencedOk(Abs(), slotIndex, fenceFd);
      if slotIndex < 0 || slotIndex >= FRAME_BUFFER_COUNT {
        CloseUnused(fenceFd);
      } else {
        ghost var before := meta;
        ReplaceReleaseFence(slotIndex, fenceFd);
        Reset(slotIndex, meta[slotIndex].(isLockedByConsumer := false));
        assert meta == before[slotIndex := meta[slotIndex]];
      }
    }

    /** A descriptor that is taken and closed at once. */
    method CloseUnused(fenceFd: int)
      requires Accounted()
      modifies this`given, this`closed
      ensures given == old(given) + Own(fenceFd) && closed == old(closed) + Own(fenceFd) && Accounted()
    {
      hide FdsOk, Minus, Plus;
      BothMoved(given, closed, Own(fenceFd));
      Take(fenceFd);
      if fenceFd >= 0 {
        Close(fenceFd);
      } else {
        NoFd(given, fenceFd);
      }
    }

    /** destroy: every descriptor is closed, once. */
    method Destroy()
      requires Valid()
      modifies this
      ensures Valid() && Abs() == NEW_BOX.(isAllocated := false, contents := contents) && closed == given == old(given)
    {
      hide Ok, Accounted, Own;
      DestroyFds();
      isAllocated := false;
      latestCompleted := -1;
      writeIndex, readIndex, frameCounter := 0, 0, 0;
      committed, held, lastNumber := [], false, 0;
      EmptyOk(this);
    }

    /** The loop of destroy over the slots. */
    method DestroyFds()
      requires Valid()
      modifies this`meta, this`given, this`closed
      ensures meta == [EMPTY_SLOT, EMPTY_SLOT, EMPTY_SLOT] && Accounted() && given == old(given)
      ensures |contents| == FRAME_BUFFER_COUNT
    {
      hide Accounted, Open, Own, NumbersOk, HoldsFrame;
      var i := 0;
      NoFd(given, -1);
      while i < FRAME_BUFFER_COUNT
        invariant 0 <= i <= FRAME_BUFFER_COUNT && |meta| == FRAME_BUFFER_COUNT && Accounted() && given == old(given)
        invariant forall k :: 0 <= k < i ==> meta[k] == EMPTY_SLOT
      {
        ReplaceAcquireFence(i, -1);
        ReplaceReleaseFence(i, -1);
        Reset(i, EMPTY_SLOT);
        i := i + 1;
      }
    }
  }

  lemma EmptyOk(m: Mailbox)
    requires |m.contents| == FRAME_BUFFER_COUNT && m.Abs() == NEW_BOX.(isAllocated := false, contents := m.contents)
    requires m.Accounted()
    ensures Ok(m.Abs()) && m.closed == m.given
  {
    forall x ensures m.Open()[x] == 0 {
    }
    assert m.given == m.closed + m.Open();
  }

  /** Changing anything but the fences of a slot. */
  lemma SameFences(open: multiset<int>, meta: seq<Metadata>, i: nat, m: Metadata)
    requires FdsOk(open, meta) && i < FRAME_BUFFER_COUNT
    requires m.acquireFenceFd == meta[i].acquireFenceFd && m.gpuReleaseFenceFd == meta[i].gpuReleaseFenceFd
    ensures FdsOk(open, meta[i := m])
  {
    hide Stored, Own;
    FdsReplaced(open, meta, i, m, open);
  }
}
