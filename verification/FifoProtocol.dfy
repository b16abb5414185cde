/**
  The FIFO asks its users to finish first what was opened last.  What happens
  if they do not: exactly when closing a transaction too early lets a slot be
  read before it is written, or written before it is read.
 */
module FifoProtocol {

  import opened Wrappers

  import opened AtomicFifo
  import opened FifoReservations

  // ---------- Ranges of slots ----------

  /** The slot is met on the way from one position to another, around the end of the buffer if need be. */
  predicate Between(p: nat, from: nat, to: nat) {
    if from <= to then from <= p < to else from <= p || p < to
  }

  function Preceding(p: nat, size: nat): (r: nat)
    requires p < size
    ensures r < size && Following(r, size) == p
  {
    if p == 0 then size - 1 else p - 1
  }

  lemma {:induction false} BetweenPositions(k: nat, a: nat, b: nat, size: nat)
    requires size > 0 && a <= b < a + size && a <= k < a + size
    ensures Between(Position(k, size), Position(a, size), Position(b, size)) <==> k < b
  {
    if a >= size {
      BetweenPositions(k - size, a - size, b - size, size);
    }
  }

  lemma {:induction false} PrecedingPosition(a: nat, size: nat)
    requires size > 0
    ensures Preceding(Position(a, size), size) == Position(a + size - 1, size)
  {
    if a >= size {
      PrecedingPosition(a - size, size);
    }
  }

  // ---------- Slots in danger ----------

  /** A get that opens next, or some more of them, may be given the slot. */
  predicate Readable<T>(f: Fifo<T>, p: nat) {
    Between(p, f.head.rd, f.tail.rd)
  }

  /** A put that opens next, or some more of them, may be given the slot. */
  predicate Writable<T>(f: Fifo<T>, p: nat)
    requires f.head.wr < |f.buf|
  {
    Between(p, f.tail.wr, Preceding(f.head.wr, |f.buf|))
  }

  predicate UnfinishedPut<T>(frame: Frame<T>) {
    frame.PutFrame? && !frame.copied
  }

  predicate UnfinishedGet<T>(frame: Frame<T>) {
    frame.GetFrame? && frame.got.None?
  }

  /** A slot into which an item is being copied may be read. */
  predicate ExposesPut<T>(f: Fifo<T>) {
    exists j :: 0 <= j < |f.frames| && UnfinishedPut(f.frames[j]) && Readable(f, f.frames[j].lastTail.wr)
  }

  /** A slot from which an item is being copied may be overwritten. */
  predicate ExposesGet<T>(f: Fifo<T>)
    requires f.head.wr < |f.buf|
  {
    exists j :: 0 <= j < |f.frames| && UnfinishedGet(f.frames[j]) && Writable(f, f.frames[j].lastHead.rd)
  }

  lemma PutSlot<T>(f: Fifo<T>, q: Queue<T>, j: nat, visible: nat)
    requires Coupled(f, q) && j < |q.stack| && UnfinishedPut(f.frames[j])
    requires q.taken <= visible <= |q.items|
    ensures q.stack[j].Putting? && !q.stack[j].copied && q.visible <= q.stack[j].number < |q.items|
    ensures Between(f.frames[j].lastTail.wr, f.head.rd, Position(visible, |f.buf|)) <==> q.stack[j].number < visible
  {
    hide Holds, BeingCopied, NonePutting, NoneGetting, Position, Between;
    assert FrameMatches(f, q, j);
    BetweenPositions(q.stack[j].number, q.taken, visible, |f.buf|);
  }

  lemma GetSlot<T>(f: Fifo<T>, q: Queue<T>, j: nat, released: nat)
    requires Coupled(f, q) && j < |q.stack| && UnfinishedGet(f.frames[j])
    requires q.released <= released <= |q.items|
    ensures q.stack[j].Getting? && !q.stack[j].copied && q.released <= q.stack[j].number < q.taken
    ensures Between(f.frames[j].lastHead.rd, f.tail.wr, Preceding(Position(released, |f.buf|), |f.buf|))
       <==> q.stack[j].number + 1 < released
  {
    var n := |f.buf|;
    hide Holds, BeingCopied, NonePutting, NoneGetting, Position, Between, Preceding;
    assert FrameMatches(f, q, j);
    var k := q.stack[j].number;
    PrecedingPosition(released, n);
    SamePosition(k, k + n, n);
    BetweenPositions(k + n, |q.items|, released + n - 1, n);
  }

  /** While FIFO and queue are coupled, no slot is in danger. */
  lemma NoSlotExposed<T>(f: Fifo<T>, q: Queue<T>)
    requires Coupled(f, q)
    ensures f.head.wr < |f.buf| && !ExposesPut(f) && !ExposesGet(f)
  {
    forall j | 0 <= j < |f.frames| && UnfinishedPut(f.frames[j])
      ensures !Readable(f, f.frames[j].lastTail.wr)
    {
      PutSlot(f, q, j, q.visible);
    }
    forall j | 0 <= j < |f.frames| && UnfinishedGet(f.frames[j])
      ensures !Writable(f, f.frames[j].lastHead.rd)
    {
      GetSlot(f, q, j, q.released);
    }
    hide FrameMatches, Holds, BeingCopied, NonePutting, NoneGetting, Between, UnfinishedPut, UnfinishedGet;
  }

  /** At no point of any run may a slot be read that is being written, or written that is being read. */
  lemma RunNeverExposes<T>(buf: seq<T>, es: seq<Event<T>>)
    requires |buf| > 0
    ensures
      var f := Run(Initial(buf), es).0;
      f.head.wr < |f.buf| && !ExposesPut(f) && !ExposesGet(f)
  {
    hide Coupled, Run, ExposesPut, ExposesGet;
    RunLinked(buf, es);
    NoSlotExposed(Run(Initial(buf), es).0, State(|buf|, es));
  }

  // ---------- Closing in any order ----------

  /** The transactions left when one is closed are the others. */
  lemma Others<T>(f: Fifo<T>, i: nat, j: nat)
    requires i < |f.frames| && j < |f.frames| && j != i
    ensures
      var left := DropFrame(f, i).frames;
      var d := if j < i then j else j - 1;
      d < |left| && left[d] == f.frames[j]
  {
  }

  /** Some other put is not finished. */
  predicate OtherPut(stack: seq<Activity>) {
    exists j :: 0 <= j < |stack| && stack[j].Putting? && !stack[j].copied
  }

  /** Some other get is not finished. */
  predicate OtherGet(stack: seq<Activity>) {
    exists j :: 0 <= j < |stack| && stack[j].Getting? && !stack[j].copied
  }

  /** Some other get is not finished that has not been given the last item taken. */
  predicate OtherGetBefore(stack: seq<Activity>, taken: nat) {
    exists j :: 0 <= j < |stack| && stack[j].Getting? && !stack[j].copied && stack[j].number + 1 < taken
  }

  /**
    Committing a put, whenever it is done, exposes a slot that is still being
    written exactly when the put was the first one in progress and any other
    one is unfinished.
   */
  lemma CommitExposesExactlyWhen<T>(f: Fifo<T>, q: Queue<T>, i: nat)
    requires Coupled(f, q) && i < |q.stack| && q.stack[i].Putting? && q.stack[i].copied
    ensures f.frames[i].PutFrame? && f.frames[i].copied
    ensures ExposesPut(DoCommit(f, i).0) <==> NonePutting(q.stack[..i]) && OtherPut(q.stack)
  {
    assert FrameMatches(f, q, i);
    hide Holds, BeingCopied, NonePutting, NoneGetting, Position, Between, FrameMatches;
    var f' := DoCommit(f, i).0;
    var visible := if NonePutting(q.stack[..i]) then |q.items| else q.visible;
    if ExposesPut(f') {
      var d :| 0 <= d < |f'.frames| && UnfinishedPut(f'.frames[d]) && Readable(f', f'.frames[d].lastTail.wr);
      var j := if d < i then d else d + 1;
      assert f'.frames[d] == f.frames[j];
      PutSlot(f, q, j, visible);
    }
    if NonePutting(q.stack[..i]) && OtherPut(q.stack) {
      var j :| 0 <= j < |q.stack| && q.stack[j].Putting? && !q.stack[j].copied;
      UnfinishedPutFrame(f, q, j);
      Others(f, i, j);
      PutSlot(f, q, j, visible);
      var d := if j < i then j else j - 1;
      assert UnfinishedPut(f'.frames[d]) && Readable(f', f'.frames[d].lastTail.wr);
    }
  }

  lemma UnfinishedPutFrame<T>(f: Fifo<T>, q: Queue<T>, j: nat)
    requires Coupled(f, q) && j < |q.stack| && q.stack[j].Putting? && !q.stack[j].copied
    ensures UnfinishedPut(f.frames[j])
  {
    assert FrameMatches(f, q, j);
    hide Holds, NonePutting, NoneGetting;
  }

  lemma UnfinishedGetFrame<T>(f: Fifo<T>, q: Queue<T>, j: nat)
    requires Coupled(f, q) && j < |q.stack| && q.stack[j].Getting? && !q.stack[j].copied
    ensures UnfinishedGet(f.frames[j])
  {
    assert FrameMatches(f, q, j);
    hide Holds, NonePutting, NoneGetting;
  }

  /** The slot has been taken and not been released, so that no put may be given it. */
  predicate Protected<T>(f: Fifo<T>, p: nat) {
    Between(p, f.head.wr, f.head.rd)
  }

  /** A slot from which an item is being copied is not protected. */
  predicate Unprotects<T>(f: Fifo<T>) {
    exists j :: 0 <= j < |f.frames| && UnfinishedGet(f.frames[j]) && !Protected(f, f.frames[j].lastHead.rd)
  }

  /** While FIFO and queue are coupled, the slot of every get in progress is protected. */
  lemma GetProtected<T>(f: Fifo<T>, q: Queue<T>, j: nat)
    requires Coupled(f, q) && j < |q.stack| && UnfinishedGet(f.frames[j])
    ensures q.stack[j].Getting? && !q.stack[j].copied && Protected(f, f.frames[j].lastHead.rd)
  {
    hide Holds, BeingCopied, NonePutting, NoneGetting, Position, Between;
    assert FrameMatches(f, q, j);
    BetweenPositions(q.stack[j].number, q.released, q.taken, |f.buf|);
  }

  /** What flushing a get, last or not, leaves of the FIFO. */
  lemma FlushLeaves<T>(f: Fifo<T>, q: Queue<T>, i: nat)
    requires Coupled(f, q) && i < |q.stack| && q.stack[i].Getting? && q.stack[i].copied
    ensures f.frames[i].GetFrame? && f.frames[i].got.Some? && Shape(DoFlush(f, i).0)
    ensures
      DoFlush(f, i).0 == DropFrame(f, i).(
        head := if NoneGetting(q.stack[..i]) then Tag(f.head.rd, f.head.rd) else f.head)
  {
    CoupledShape(f, q);
    assert FrameMatches(f, q, i);
    hide Coupled, Holds, BeingCopied, NonePutting, NoneGetting, Position, FrameMatches, Inside;
    var f' := DoFlush(f, i).0;
    forall d | 0 <= d < |f'.frames|
      ensures Inside(f'.frames[d], |f.buf|)
    {
      assert f'.frames[d] == f.frames[if d < i then d else d + 1];
    }
  }

  /**
    Flushing a get, whenever it is done, ends the protection of a slot that is
    still being read exactly when the get was the first one in progress and any
    other one is unfinished.
   */
  lemma FlushUnprotectsExactlyWhen<T>(f: Fifo<T>, q: Queue<T>, i: nat)
    requires Coupled(f, q) && i < |q.stack| && q.stack[i].Getting? && q.stack[i].copied
    ensures f.frames[i].GetFrame? && f.frames[i].got.Some?
    ensures Unprotects(DoFlush(f, i).0) <==> NoneGetting(q.stack[..i]) && OtherGet(q.stack)
  {
    hide Coupled, NoneGetting, Shape, FrameMatches;
    FlushLeaves(f, q, i);
    CoupledDepth(f, q);
    var f' := DoFlush(f, i).0;
    if Unprotects(f') {
      var d :| 0 <= d < |f'.frames| && UnfinishedGet(f'.frames[d]) && !Protected(f', f'.frames[d].lastHead.rd);
      var j := if d < i then d else d + 1;
      assert f'.frames[d] == f.frames[j];
      GetProtected(f, q, j);
    }
    if NoneGetting(q.stack[..i]) && OtherGet(q.stack) {
      var j :| 0 <= j < |q.stack| && q.stack[j].Getting? && !q.stack[j].copied;
      UnfinishedGetFrame(f, q, j);
      Others(f, i, j);
      var d := if j < i then j else j - 1;
      assert UnfinishedGet(f'.frames[d]) && !Protected(f', f'.frames[d].lastHead.rd);
    }
  }

  lemma CoupledDepth<T>(f: Fifo<T>, q: Queue<T>)
    requires Coupled(f, q)
    ensures |f.frames| == |q.stack|
  {
  }

  /** Which slots being read may be overwritten when the others are as they were, and more or less is released. */
  lemma ExposedByRelease<T>(f: Fifo<T>, q: Queue<T>, i: nat, f': Fifo<T>, released: nat)
    requires Coupled(f, q) && i < |q.stack| && q.stack[i].Getting? && q.stack[i].copied
    requires f'.frames == DropFrame(f, i).frames && f'.tail == f.tail && |f'.buf| == |f.buf|
    requires q.released <= released <= |q.items| && f'.head.wr == Position(released, |f.buf|)
    ensures ExposesGet(f') <==> OtherGetBefore(q.stack, released)
  {
    CoupledDepth(f, q);
    assert FrameMatches(f, q, i);
    hide Coupled, FrameMatches, Position, Between, Preceding;
    if ExposesGet(f') {
      var d :| 0 <= d < |f'.frames| && UnfinishedGet(f'.frames[d]) && Writable(f', f'.frames[d].lastHead.rd);
      var j := if d < i then d else d + 1;
      assert f'.frames[d] == f.frames[j];
      GetSlot(f, q, j, released);
    }
    if OtherGetBefore(q.stack, released) {
      var j :| 0 <= j < |q.stack| && q.stack[j].Getting? && !q.stack[j].copied && q.stack[j].number + 1 < released;
      UnfinishedGetFrame(f, q, j);
      Others(f, i, j);
      GetSlot(f, q, j, released);
      var d := if j < i then j else j - 1;
      assert UnfinishedGet(f'.frames[d]) && Writable(f', f'.frames[d].lastHead.rd);
    }
  }

  /** The numbers of the gets in progress are among those taken and not released. */
  lemma GetNumbers<T>(f: Fifo<T>, q: Queue<T>)
    requires Coupled(f, q)
    ensures forall j | 0 <= j < |q.stack| && q.stack[j].Getting? :: q.released <= q.stack[j].number < q.taken
    ensures q.released <= q.taken <= q.visible <= |q.items|
    ensures f.head == Tag(Position(q.released, |f.buf|), Position(q.taken, |f.buf|))
    ensures f.tail.rd == Position(q.visible, |f.buf|) && q.visible < q.taken + |f.buf|
  {
    forall j | 0 <= j < |q.stack| && q.stack[j].Getting?
      ensures q.released <= q.stack[j].number < q.taken
    {
      assert FrameMatches(f, q, j);
    }
    hide Holds, NonePutting, NoneGetting, Position;
  }

  /**
    The puts that follow such a flush directly may be given every slot that is
    unprotected but the one of the last item taken, since one slot always
    stays free.
   */
  lemma FlushExposesNextPutExactlyWhen<T>(f: Fifo<T>, q: Queue<T>, i: nat)
    requires Coupled(f, q) && i < |q.stack| && q.stack[i].Getting? && q.stack[i].copied
    ensures f.frames[i].GetFrame? && f.frames[i].got.Some? && DoFlush(f, i).0.head.wr < |f.buf|
    ensures ExposesGet(DoFlush(f, i).0) <==> NoneGetting(q.stack[..i]) && OtherGetBefore(q.stack, q.taken)
  {
    hide Coupled, NoneGetting, FrameMatches, ExposesGet, Position;
    CoupledDepth(f, q);
    FlushLeaves(f, q, i);
    GetNumbers(f, q);
    ExposedByRelease(f, q, i, DoFlush(f, i).0, if NoneGetting(q.stack[..i]) then q.taken else q.released);
  }

  // One more get.

  lemma FramesOnTop<T>(frames: seq<Frame<T>>, a: Frame<T>)
    ensures (frames + [a])[..|frames|] + (frames + [a])[|frames| + 1..] == frames
    ensures forall b :: (frames + [a])[|frames| := b] == frames + [b]
  {
  }

  /** A get that loads and stores in any state of the FIFO that has an item to read. */
  lemma GetOpensFifo<T>(f: Fifo<T>)
    requires Shape(f) && f.head.rd != f.tail.rd
    ensures
      Run(f, [BeginGet, Load, Compare, StoreGet]).0
      == f.(frames := f.frames + [GetFrame(f.head, None)], monitor := false,
            head := Tag(f.head.wr, Following(f.head.rd, |f.buf|)))
  {
    hide Shape, Run, Following;
    FramesOnTop(f.frames, GetOpening(Begun));
    FramesOnTop(f.frames, GetOpening(Loaded(f.head)));
    FramesOnTop(f.frames, GetOpening(Compared(f.head)));
    var none: seq<Event<T>> := [];
    RunNone(f);
    RunOnce(f, none, BeginGet);
    RunOnce(f, none + [BeginGet], Load);
    RunOnce(f, none + [BeginGet] + [Load], Compare);
    RunOnce(f, none + [BeginGet] + [Load] + [Compare], StoreGet);
    assert none + [BeginGet] + [Load] + [Compare] + [StoreGet] == [BeginGet, Load, Compare, StoreGet];
  }

  lemma CopiesOut<T>(g: Fifo<T>, h: Tag)
    requires Shape(g.(frames := g.frames + [GetFrame(h, None)], monitor := false)) && h.rd < |g.buf|
    ensures
      Step(g.(frames := g.frames + [GetFrame(h, None)], monitor := false), CopyOut).0
      == g.(frames := g.frames + [GetFrame(h, Some(g.buf[h.rd]))], monitor := false)
  {
    hide Shape;
    FramesOnTop(g.frames, GetFrame(h, None));
  }

  lemma Flushes<T>(g: Fifo<T>, h: Tag, item: T)
    requires Shape(g.(frames := g.frames + [GetFrame(h, Some(item))], monitor := false))
    ensures
      Step(g.(frames := g.frames + [GetFrame(h, Some(item))], monitor := false), Flush).0
      == g.(monitor := false, head := if h.wr == h.rd then Tag(g.head.rd, g.head.rd) else g.head)
  {
    hide Shape;
    FramesOnTop(g.frames, GetFrame(h, Some(item)));
  }

  lemma GetClosesFifo<T>(f: Fifo<T>, es: seq<Event<T>>, g: Fifo<T>, h: Tag)
    requires Shape(f) && TagInside(h, |g.buf|)
    requires Run(f, es).0 == g.(frames := g.frames + [GetFrame(h, None)], monitor := false)
    ensures
      Run(f, es + [CopyOut] + [Flush]).0
      == g.(monitor := false, head := if h.wr == h.rd then Tag(g.head.rd, g.head.rd) else g.head)
  {
    hide Shape, Run, Step;
    RunOnce(f, es, CopyOut);
    CopiesOut(g, h);
    RunOnce(f, es + [CopyOut], Flush);
    Flushes(g, h, g.buf[h.rd]);
  }

  /** What a whole get does to any state of the FIFO that has an item to read. */
  lemma WholeGetFifo<T>(f: Fifo<T>)
    requires Shape(f) && f.head.rd != f.tail.rd
    ensures
      var next := Following(f.head.rd, |f.buf|);
      Run(f, GetEvents()).0
      == f.(monitor := false, head := Tag(if f.head.wr == f.head.rd then next else f.head.wr, next))
  {
    var es: seq<Event<T>> := [BeginGet, Load, Compare, StoreGet];
    var g := f.(head := Tag(f.head.wr, Following(f.head.rd, |f.buf|)));
    GetOpensFifo(f);
    GetClosesFifo(f, es, g, f.head);
    assert es + [CopyOut] + [Flush] == GetEvents();
    hide Run, Shape;
  }

  /**
    One more get, opened and closed in order, takes the exception away: then a
    slot that is still being read may be overwritten exactly when the get that
    was flushed was the first one in progress and any other one is unfinished.
   */
  lemma FlushAndGetExposeExactlyWhen<T>(f: Fifo<T>, q: Queue<T>, i: nat)
    requires Coupled(f, q) && i < |q.stack| && q.stack[i].Getting? && q.stack[i].copied
    requires q.taken < q.visible
    ensures f.frames[i].GetFrame? && f.frames[i].got.Some? && Shape(DoFlush(f, i).0)
    ensures
      var g := Run(DoFlush(f, i).0, GetEvents()).0;
      && g.head.wr < |g.buf|
      && (ExposesGet(g) <==> NoneGetting(q.stack[..i]) && OtherGet(q.stack))
  {
    FlushLeaves(f, q, i);
    GetNumbers(f, q);
    TagComparisons(f, q);
    assert !NoneGetting(q.stack);
    hide Coupled, NoneGetting, FrameMatches, ExposesGet, Position, Run, Shape, Following;
    SamePosition(q.taken, q.visible, |f.buf|);
    FollowingPosition(q.taken, |f.buf|);
    var f' := DoFlush(f, i).0;
    WholeGetFifo(f');
    var g := Run(f', GetEvents()).0;
    var first := NoneGetting(q.stack[..i]);
    ExposedByRelease(f, q, i, g, if first then q.taken + 1 else q.released);
  }
}
