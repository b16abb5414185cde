/**
  The atomic FIFO: transactions by the main program and by nested interrupt
  handlers, without locks.

  A put reserves a slot, copies its item into the slot, and commits; a get
  reserves a slot, copies the item out, and flushes.  Any transaction may be
  interrupted at any point by others, which are finished before it goes on.

  To reserve a slot the code loads one tag exclusively, compares it with the
  other tag, which it reads later, and stores the changed tag.  The store fails
  and the code starts over if an interrupt has come in between, but a refusal
  is decided by the comparison and never reaches the store.  So a success is
  decided at one instant, while a refusal may rest on a tag that is out of date.

  The FIFO only has four positions to keep track of what is in progress.  It is
  shown to refine a queue whose specification counts items, knows all the
  transactions in progress, and says exactly when a reservation is refused.

  Positions count items where the code counts bytes.
 */
module AtomicFifo {

  import opened Wrappers

  // ---------- The FIFO as it is ----------

  /** A write and a read position that are changed by one store. */
  datatype Tag = Tag(wr: nat, rd: nat)

  /** How far a reservation has come, with what it has loaded. */
  datatype Stage<+L> = Begun | Loaded(loaded: L) | Compared(loaded: L)

  /** A transaction in progress, with the context that it keeps. */
  datatype Frame<T> =
    | PutOpening(stage: Stage<Tag>)
    | PutFrame(item: T, lastTail: Tag, copied: bool)
    | GetOpening(stage: Stage<Tag>)
    | GetFrame(lastHead: Tag, got: Option<T>)

  /**
    The last frame is the one that is running; it has interrupted the ones
    before it.  `monitor` tells whether an exclusive store would succeed.
   */
  datatype Fifo<T> = Fifo(buf: seq<T>, tail: Tag, head: Tag, monitor: bool, frames: seq<Frame<T>>)

  function Following(p: nat, size: nat): nat {
    if p + 1 >= size then p + 1 - size else p + 1
  }

  /**
    `Interrupt` is an interrupt that does not use the FIFO.  The item of a put
    is named when its slot has been reserved, and copied later.
   */
  datatype Event<T> =
    | BeginPut
    | BeginGet
    | Load
    | Compare
    | StorePut(item: T)
    | StoreGet
    | CopyPartly(scribble: T)
    | CopyIn
    | Commit
    | CopyOut
    | Flush
    | Clear
    | Interrupt

  /** What the code reports, or finds out about itself. */
  datatype Result<T> =
    | Nothing
    | Refused
    | Retried
    | Opened
    | Closed(effective: bool)
    | Read(item: T, released: bool)
    | Cleared(all: bool)

  function Push<T>(f: Fifo<T>, frame: Frame<T>): Fifo<T> {
    f.(frames := f.frames + [frame], monitor := false)
  }

  function SetTop<T>(f: Fifo<T>, frame: Frame<T>): Fifo<T>
    requires f.frames != []
  {
    f.(frames := f.frames[|f.frames| - 1 := frame])
  }

  function DropFrame<T>(f: Fifo<T>, i: nat): Fifo<T>
    requires i < |f.frames|
  {
    f.(frames := f.frames[..i] + f.frames[i + 1..], monitor := false)
  }

  /** All positions are inside the buffer. */
  ghost predicate Shape<T>(f: Fifo<T>) {
    var n := |f.buf|;
    && f.tail.wr < n && f.tail.rd < n && f.head.wr < n && f.head.rd < n
    && forall i | 0 <= i < |f.frames| :: Inside(f.frames[i], n)
  }

  predicate TagInside(t: Tag, n: nat) {
    t.wr < n && t.rd < n
  }

  predicate StageInside(s: Stage<Tag>, n: nat) {
    s.Begun? || TagInside(s.loaded, n)
  }

  predicate Inside<T>(frame: Frame<T>, n: nat) {
    match frame
    case PutOpening(s) => StageInside(s, n)
    case PutFrame(_, t, _) => TagInside(t, n)
    case GetOpening(s) => StageInside(s, n)
    case GetFrame(h, _) => TagInside(h, n)
  }

  // The steps of a reservation.

  /** The exclusive load of the tag that is going to be changed. */
  function DoLoad<T>(f: Fifo<T>): Fifo<T>
    requires f.frames != []
  {
    match f.frames[|f.frames| - 1]
    case PutOpening(Begun) => SetTop(f, PutOpening(Loaded(f.tail))).(monitor := true)
    case GetOpening(Begun) => SetTop(f, GetOpening(Loaded(f.head))).(monitor := true)
    case _ => f.(monitor := false)
  }

  /** The comparison of the loaded tag with the other one as it is now. */
  function DoCompare<T>(f: Fifo<T>): (Fifo<T>, Result<T>)
    requires f.frames != []
  {
    var top := |f.frames| - 1;
    match f.frames[top]
    case PutOpening(Loaded(t)) =>
      if Following(t.wr, |f.buf|) == f.head.wr then (DropFrame(f, top), Refused)
      else (SetTop(f, PutOpening(Compared(t))), Nothing)
    case GetOpening(Loaded(t)) =>
      if t.rd == f.tail.rd then (DropFrame(f, top), Refused)
      else (SetTop(f, GetOpening(Compared(t))), Nothing)
    case _ => (f.(monitor := false), Nothing)
  }

  /** The exclusive store, which starts the reservation over if it fails. */
  function DoStorePut<T>(f: Fifo<T>, t: Tag, item: T): (Fifo<T>, Result<T>)
    requires f.frames != []
  {
    if f.monitor then
      (SetTop(f, PutFrame(item, t, false)).(tail := Tag(Following(t.wr, |f.buf|), t.rd), monitor := false), Opened)
    else
      (SetTop(f, PutOpening(Begun)), Retried)
  }

  function DoStoreGet<T>(f: Fifo<T>, t: Tag): (Fifo<T>, Result<T>)
    requires f.frames != []
  {
    if f.monitor then
      (SetTop(f, GetFrame(t, None)).(head := Tag(t.wr, Following(t.rd, |f.buf|)), monitor := false), Opened)
    else
      (SetTop(f, GetOpening(Begun)), Retried)
  }

  // Closing and clearing; their store is repeated until nothing has come between it and its load.

  function DoCommit<T>(f: Fifo<T>, i: nat): (Fifo<T>, Result<T>)
    requires i < |f.frames| && f.frames[i].PutFrame?
  {
    var t := f.frames[i].lastTail;
    var f' := DropFrame(f, i);
    if t.wr == t.rd then (f'.(tail := Tag(f.tail.wr, f.tail.wr)), Closed(true))
    else (f', Closed(false))
  }

  function DoFlush<T>(f: Fifo<T>, i: nat): (Fifo<T>, Result<T>)
    requires i < |f.frames| && f.frames[i].GetFrame? && f.frames[i].got.Some?
  {
    var h := f.frames[i].lastHead;
    var item := f.frames[i].got.value;
    var f' := DropFrame(f, i);
    if h.wr == h.rd then (f'.(head := Tag(f.head.rd, f.head.rd)), Read(item, true))
    else (f', Read(item, false))
  }

  function DoClear<T>(f: Fifo<T>): (Fifo<T>, Result<T>) {
    if f.head.wr == f.head.rd then
      (f.(head := Tag(f.tail.rd, f.tail.rd), monitor := false), Cleared(f.tail.wr == f.tail.rd))
    else
      (f.(head := Tag(f.head.wr, f.tail.rd), monitor := false), Cleared(false))
  }

  /** A step of the running transaction; an event that does not apply to it does nothing but clear the monitor. */
  function StepTop<T>(f: Fifo<T>, e: Event<T>): (Fifo<T>, Result<T>)
    requires f.frames != [] && Inside(f.frames[|f.frames| - 1], |f.buf|)
  {
    var top := |f.frames| - 1;
    match (e, f.frames[top])
    case (Load, _) => (DoLoad(f), Nothing)
    case (Compare, _) => DoCompare(f)
    case (StorePut(item), PutOpening(Compared(t))) => DoStorePut(f, t, item)
    case (StoreGet, GetOpening(Compared(t))) => DoStoreGet(f, t)
    case (CopyPartly(x), PutFrame(_, t, false)) => (f.(buf := f.buf[t.wr := x], monitor := false), Nothing)
    case (CopyIn, PutFrame(item, t, _)) =>
      (SetTop(f, PutFrame(item, t, true)).(buf := f.buf[t.wr := item], monitor := false), Nothing)
    case (CopyOut, GetFrame(h, _)) => (SetTop(f, GetFrame(h, Some(f.buf[h.rd]))).(monitor := false), Nothing)
    case (Commit, PutFrame(_, _, true)) => DoCommit(f, top)
    case (Flush, GetFrame(_, Some(_))) => DoFlush(f, top)
    case _ => (f.(monitor := false), Nothing)
  }

  function Step<T>(f: Fifo<T>, e: Event<T>): (Fifo<T>, Result<T>)
    requires Shape(f)
  {
    if e.BeginPut? then (Push(f, PutOpening(Begun)), Nothing)
    else if e.BeginGet? then (Push(f, GetOpening(Begun)), Nothing)
    else if e.Clear? then DoClear(f)
    else if f.frames == [] then (f.(monitor := false), Nothing)
    else
      assert Inside(f.frames[|f.frames| - 1], |f.buf|);
      StepTop(f, e)
  }

  // ---------- Positions ----------

  /** The position in the buffer of the item with a given number. */
  function Position(number: nat, size: nat): (p: nat)
    requires size > 0
    ensures p < size
  {
    if number < size then number else Position(number - size, size)
  }

  /** The number is a multiple of the size. */
  predicate WholeRounds(number: nat, size: nat)
    requires size > 0
  {
    Position(number, size) == 0
  }

  /** Numbers at most a round apart have the same position only if they are equal, or exactly a round apart. */
  lemma {:induction false} SamePosition(a: nat, b: nat, size: nat)
    requires size > 0 && a <= b <= a + size
    ensures Position(a, size) == Position(b, size) <==> b == a || b == a + size
  {
    if a >= size {
      SamePosition(a - size, b - size, size);
    }
  }

  /** In general, numbers have the same position when they are whole rounds apart. */
  lemma {:induction false} RoundsApart(a: nat, b: nat, size: nat)
    requires size > 0 && a <= b
    ensures Position(a, size) == Position(b, size) <==> WholeRounds(b - a, size)
    decreases b
  {
    if a >= size {
      RoundsApart(a - size, b - size, size);
    } else if b >= a + size {
      RoundsApart(a, b - size, size);
    }
  }

  lemma {:induction false} FollowingPosition(number: nat, size: nat)
    requires size > 0
    ensures Following(Position(number, size), size) == Position(number + 1, size)
  {
    if number >= size {
      FollowingPosition(number - size, size);
    }
  }

  // ---------- The queue that it is meant to be ----------

  /** A transaction in progress: a reservation with the count that it has loaded, or the number of its item. */
  datatype Activity =
    | PutWaiting(stage: Stage<nat>)
    | Putting(number: nat, copied: bool)
    | GetWaiting(stage: Stage<nat>)
    | Getting(number: nat, copied: bool)

  /**
    All items ever put, in the order of the reservations; of them, the first
    `visible` may be read, the first `taken` have been reserved for reading or
    cleared, and the space of the first `released` may be used again.
   */
  datatype Queue<T> =
    Queue(items: seq<T>, visible: nat, taken: nat, released: nat, monitor: bool, stack: seq<Activity>)

  predicate NonePutting(stack: seq<Activity>) {
    forall i | 0 <= i < |stack| :: !stack[i].Putting?
  }

  predicate NoneGetting(stack: seq<Activity>) {
    forall i | 0 <= i < |stack| :: !stack[i].Getting?
  }

  /** The counts are in order, and all numbers are numbers of items. */
  ghost predicate Numbered<T>(q: Queue<T>, size: nat) {
    && q.released <= q.taken <= q.visible <= |q.items| < q.released + size
    && forall i | 0 <= i < |q.stack| && (q.stack[i].Putting? || q.stack[i].Getting?) :: q.stack[i].number < |q.items|
  }

  /**
    The monitor is set only while the running transaction is between its
    exclusive load and its store; then no count has changed since the load.
   */
  ghost predicate MonitorSound<T>(q: Queue<T>, size: nat) {
    q.monitor ==>
      && q.stack != []
      && match q.stack[|q.stack| - 1]
         case PutWaiting(s) =>
           !s.Begun? && s.loaded == |q.items| && (s.Compared? ==> |q.items| - q.released < size - 1)
         case GetWaiting(s) =>
           !s.Begun? && s.loaded == q.taken && (s.Compared? ==> q.taken < q.visible)
         case _ => false
  }

  ghost predicate Sound<T>(q: Queue<T>, size: nat) {
    Numbered(q, size) && MonitorSound(q, size)
  }

  /**
    A put that has loaded `count` as the number of items is refused when there
    was, and still is, no space; but also when, since then, so many items have
    come and gone that their number has become whole rounds more.
   */
  predicate PutRefused<T>(q: Queue<T>, count: nat, size: nat)
    requires size > 0
  {
    count + 1 == q.released + size || (q.released > count && WholeRounds(q.released - (count + 1), size))
  }

  /** A get that has loaded `count` as the number of items taken is refused when whole rounds are visible after it. */
  predicate GetRefused<T>(q: Queue<T>, count: nat, size: nat)
    requires size > 0
  {
    q.visible >= count && WholeRounds(q.visible - count, size)
  }

  function SetTopActivity<T>(q: Queue<T>, a: Activity): Queue<T>
    requires q.stack != []
  {
    q.(stack := q.stack[|q.stack| - 1 := a])
  }

  function PopActivity<T>(q: Queue<T>): Queue<T>
    requires q.stack != []
  {
    q.(stack := q.stack[..|q.stack| - 1], monitor := false)
  }

  /** Puts become visible, and space is released, when no transaction of the kind is left. */
  function SpecTop<T>(q: Queue<T>, size: nat, e: Event<T>): (Queue<T>, Result<T>)
    requires size > 0 && q.stack != [] && Numbered(q, size)
  {
    var top := |q.stack| - 1;
    match (e, q.stack[top])
    case (Load, PutWaiting(Begun)) => (SetTopActivity(q, PutWaiting(Loaded(|q.items|))).(monitor := true), Nothing)
    case (Load, GetWaiting(Begun)) => (SetTopActivity(q, GetWaiting(Loaded(q.taken))).(monitor := true), Nothing)
    case (Compare, PutWaiting(Loaded(count))) =>
      if PutRefused(q, count, size) then (PopActivity(q), Refused)
      else (SetTopActivity(q, PutWaiting(Compared(count))), Nothing)
    case (Compare, GetWaiting(Loaded(count))) =>
      if GetRefused(q, count, size) then (PopActivity(q), Refused)
      else (SetTopActivity(q, GetWaiting(Compared(count))), Nothing)
    case (StorePut(item), PutWaiting(Compared(_))) =>
      if q.monitor then
        (SetTopActivity(q, Putting(|q.items|, false)).(items := q.items + [item], monitor := false), Opened)
      else
        (SetTopActivity(q, PutWaiting(Begun)), Retried)
    case (StoreGet, GetWaiting(Compared(_))) =>
      if q.monitor then
        (SetTopActivity(q, Getting(q.taken, false)).(taken := q.taken + 1, monitor := false), Opened)
      else
        (SetTopActivity(q, GetWaiting(Begun)), Retried)
    case (CopyIn, Putting(number, _)) => (SetTopActivity(q, Putting(number, true)).(monitor := false), Nothing)
    case (CopyOut, Getting(number, _)) => (SetTopActivity(q, Getting(number, true)).(monitor := false), Nothing)
    case (Commit, Putting(_, true)) =>
      if NonePutting(q.stack[..top]) then (PopActivity(q).(visible := |q.items|), Closed(true))
      else (PopActivity(q), Closed(false))
    case (Flush, Getting(number, true)) =>
      if NoneGetting(q.stack[..top]) then (PopActivity(q).(released := q.taken), Read(q.items[number], true))
      else (PopActivity(q), Read(q.items[number], false))
    case _ => (q.(monitor := false), Nothing)
  }

  function Spec<T>(q: Queue<T>, size: nat, e: Event<T>): (Queue<T>, Result<T>)
    requires size > 0 && Numbered(q, size)
  {
    if e.BeginPut? then (q.(stack := q.stack + [PutWaiting(Begun)], monitor := false), Nothing)
    else if e.BeginGet? then (q.(stack := q.stack + [GetWaiting(Begun)], monitor := false), Nothing)
    else if e.Clear? then
      (q.(taken := q.visible, released := if NoneGetting(q.stack) then q.visible else q.released, monitor := false),
       Cleared(NoneGetting(q.stack) && NonePutting(q.stack)))
    else if q.stack == [] then (q.(monitor := false), Nothing)
    else SpecTop(q, size, e)
  }

  // ---------- Refinement ----------

  ghost predicate PutStageMatches<T>(s: Stage<Tag>, st: Stage<nat>, q: Queue<T>, n: nat)
    requires n > 0
  {
    && s.Begun? == st.Begun? && s.Loaded? == st.Loaded?
    && (!s.Begun? ==>
          && TagInside(s.loaded, n) && s.loaded.wr == Position(st.loaded, n)
          && st.loaded <= |q.items| && st.loaded < q.released + n)
  }

  ghost predicate GetStageMatches<T>(s: Stage<Tag>, st: Stage<nat>, q: Queue<T>, n: nat)
    requires n > 0
  {
    && s.Begun? == st.Begun? && s.Loaded? == st.Loaded?
    && (!s.Begun? ==> TagInside(s.loaded, n) && s.loaded.rd == Position(st.loaded, n) && st.loaded <= q.taken)
  }

  /**
    The code tells from a tag that was loaded before whether other transactions
    of the kind were in progress: `wr` and `rd` are equal when there were none.
   */
  ghost predicate FrameMatches<T>(f: Fifo<T>, q: Queue<T>, i: nat)
    requires |f.frames| == |q.stack| && i < |f.frames| && |f.buf| > 0
  {
    var n := |f.buf|;
    match (f.frames[i], q.stack[i])
    case (PutOpening(s), PutWaiting(st)) => PutStageMatches(s, st, q, n)
    case (GetOpening(s), GetWaiting(st)) => GetStageMatches(s, st, q, n)
    case (PutFrame(item, t, copied), Putting(k, c)) =>
      && c == copied && q.visible <= k < |q.items| && q.items[k] == item && TagInside(t, n)
      && t.wr == Position(k, n) && (t.wr == t.rd <==> NonePutting(q.stack[..i]))
    case (GetFrame(h, got), Getting(k, c)) =>
      && c == got.Some? && q.released <= k < q.taken && k < q.visible <= |q.items| && TagInside(h, n)
      && (got.Some? ==> got.value == q.items[k])
      && h.rd == Position(k, n) && (h.wr == h.rd <==> NoneGetting(q.stack[..i]))
    case _ => false
  }

  /** The item is being copied into its slot. */
  ghost predicate BeingCopied<T>(q: Queue<T>, k: nat) {
    exists i :: 0 <= i < |q.stack| && q.stack[i] == Putting(k, false)
  }

  ghost predicate Counts<T>(q: Queue<T>, size: nat) {
    && q.released <= q.taken <= q.visible <= |q.items| < q.released + size
    && (NonePutting(q.stack) ==> q.visible == |q.items|)
    && (NoneGetting(q.stack) ==> q.released == q.taken)
  }

  /** The buffer holds the items that are in the queue and not being copied. */
  ghost predicate Holds<T>(f: Fifo<T>, q: Queue<T>)
    requires |f.buf| > 0
  {
    forall k | q.released <= k < |q.items| && !BeingCopied(q, k) :: f.buf[Position(k, |f.buf|)] == q.items[k]
  }

  ghost predicate Coupled<T>(f: Fifo<T>, q: Queue<T>) {
    && |f.buf| > 0 && |f.frames| == |q.stack|
    && Counts(q, |f.buf|)
    && f.tail == Tag(Position(|q.items|, |f.buf|), Position(q.visible, |f.buf|))
    && f.head == Tag(Position(q.released, |f.buf|), Position(q.taken, |f.buf|))
    && (forall i | 0 <= i < |f.frames| :: FrameMatches(f, q, i))
    && Holds(f, q)
  }

  /** While the monitor is set, what the running transaction has loaded is the tag as it is now. */
  ghost predicate Armed<T>(f: Fifo<T>, q: Queue<T>)
    requires |f.frames| == |q.stack|
  {
    && f.monitor == q.monitor && MonitorSound(q, |f.buf|)
    && (f.monitor ==>
          match f.frames[|f.frames| - 1]
          case PutOpening(s) => !s.Begun? && s.loaded == f.tail
          case GetOpening(s) => !s.Begun? && s.loaded == f.head
          case _ => false)
  }

  ghost predicate Linked<T>(f: Fifo<T>, q: Queue<T>) {
    Coupled(f, q) && Armed(f, q)
  }

  lemma CoupledShape<T>(f: Fifo<T>, q: Queue<T>)
    requires Coupled(f, q)
    ensures Shape(f) && Numbered(q, |f.buf|)
  {
    hide Holds, BeingCopied, NonePutting, NoneGetting;
    forall i | 0 <= i < |f.frames|
      ensures Inside(f.frames[i], |f.buf|)
      ensures q.stack[i].Putting? || q.stack[i].Getting? ==> q.stack[i].number < |q.items|
    {
      assert FrameMatches(f, q, i);
    }
  }

  /** Everything is visible exactly when nothing is being put; what is taken is released when nothing is being read. */
  lemma Pending<T>(f: Fifo<T>, q: Queue<T>)
    requires Coupled(f, q)
    ensures NonePutting(q.stack) <==> q.visible == |q.items|
    ensures NoneGetting(q.stack) <==> q.released == q.taken
  {
    if !NonePutting(q.stack) {
      var i :| 0 <= i < |q.stack| && q.stack[i].Putting?;
      assert FrameMatches(f, q, i);
    }
    if !NoneGetting(q.stack) {
      var i :| 0 <= i < |q.stack| && q.stack[i].Getting?;
      assert FrameMatches(f, q, i);
    }
  }

  /** What comparing the two positions of one tag says. */
  lemma TagComparisons<T>(f: Fifo<T>, q: Queue<T>)
    requires Coupled(f, q)
    ensures f.tail.wr == f.tail.rd <==> NonePutting(q.stack)
    ensures f.head.wr == f.head.rd <==> NoneGetting(q.stack)
  {
    hide BeingCopied, FrameMatches, Holds, NonePutting, NoneGetting;
    Pending(f, q);
    SamePosition(q.visible, |q.items|, |f.buf|);
    SamePosition(q.released, q.taken, |f.buf|);
  }

  /** What comparing a write position, loaded at any time before, with the released position of now says. */
  lemma PutComparison<T>(f: Fifo<T>, q: Queue<T>, p: nat, count: nat)
    requires Coupled(f, q) && p == Position(count, |f.buf|) && count < q.released + |f.buf|
    ensures Following(p, |f.buf|) == f.head.wr <==> PutRefused(q, count, |f.buf|)
  {
    hide BeingCopied, FrameMatches, Holds, NonePutting, NoneGetting, Following;
    FollowingPosition(count, |f.buf|);
    if q.released <= count {
      SamePosition(q.released, count + 1, |f.buf|);
    } else {
      RoundsApart(count + 1, q.released, |f.buf|);
    }
  }

  /** What comparing a read position, loaded at any time before, with the visible position of now says. */
  lemma GetComparison<T>(f: Fifo<T>, q: Queue<T>, p: nat, count: nat)
    requires Coupled(f, q) && p == Position(count, |f.buf|) && count <= q.taken
    ensures p == f.tail.rd <==> GetRefused(q, count, |f.buf|)
  {
    hide BeingCopied, FrameMatches, Holds, NonePutting, NoneGetting;
    RoundsApart(count, q.visible, |f.buf|);
  }

  /** The first `n` transactions still match when they are the same as before and still pending. */
  lemma FramesKept<T>(f: Fifo<T>, q: Queue<T>, f': Fifo<T>, q': Queue<T>, n: nat)
    requires |f.frames| == |q.stack| && |f'.frames| == |q'.stack| && n <= |f.frames| && n <= |f'.frames|
    requires |f.buf| == |f'.buf| > 0 && forall i | 0 <= i < n :: FrameMatches(f, q, i)
    requires f'.frames[..n] == f.frames[..n] && q'.stack[..n] == q.stack[..n]
    requires q.items <= q'.items && q'.visible <= |q'.items|
    requires q.released <= q'.released && q.taken <= q'.taken && q.visible <= q'.visible
    requires NonePutting(q.stack[..n]) || q'.visible == q.visible
    requires NoneGetting(q.stack[..n]) || q'.released == q.released
    ensures forall i | 0 <= i < n :: FrameMatches(f', q', i)
  {
    forall i | 0 <= i < n
      ensures FrameMatches(f', q', i)
    {
      assert FrameMatches(f, q, i);
      assert f'.frames[i] == f'.frames[..n][i] && q'.stack[i] == q'.stack[..n][i] && q.stack[i] == q.stack[..n][i];
      assert q'.stack[..i] == q'.stack[..n][..i] == q.stack[..n][..i] == q.stack[..i];
    }
  }

  lemma HoldsKept<T>(f: Fifo<T>, q: Queue<T>, f': Fifo<T>, q': Queue<T>)
    requires |f.buf| > 0 && f'.buf == f.buf && Holds(f, q)
    requires q.items <= q'.items && q.released <= q'.released
    requires forall k | q.released <= k < |q.items| && BeingCopied(q, k) :: BeingCopied(q', k)
    requires forall k | |q.items| <= k < |q'.items| :: BeingCopied(q', k)
    ensures Holds(f', q')
  {
  }

  /** What is being copied stays so when all transactions are kept but the running one, and that one does not copy. */
  lemma CopiedBelow<T>(q: Queue<T>, q': Queue<T>)
    requires q.stack != [] && |q'.stack| >= |q.stack| - 1
    requires q'.stack[..|q.stack| - 1] == q.stack[..|q.stack| - 1]
    requires q.stack[|q.stack| - 1].Putting? ==> q.stack[|q.stack| - 1].copied
    ensures forall k | BeingCopied(q, k) :: BeingCopied(q', k)
  {
    forall k | BeingCopied(q, k)
      ensures BeingCopied(q', k)
    {
      var i :| 0 <= i < |q.stack| && q.stack[i] == Putting(k, false);
      assert q'.stack[i] == q'.stack[..|q.stack| - 1][i] == q.stack[i];
    }
  }

  /** The kinds in progress, told from the transactions below the running one. */
  lemma Popped(stack: seq<Activity>)
    requires stack != []
    ensures
      var top := |stack| - 1;
      && (NonePutting(stack) <==> NonePutting(stack[..top]) && !stack[top].Putting?)
      && (NoneGetting(stack) <==> NoneGetting(stack[..top]) && !stack[top].Getting?)
  {
    var top := |stack| - 1;
    assert forall i | 0 <= i < top :: stack[i] == stack[..top][i];
  }

  /**
    A step that replaces or removes the running transaction, or adds one that
    has reserved nothing, keeps FIFO and queue coupled if what is new matches.
   */
  lemma TopChanged<T>(f: Fifo<T>, q: Queue<T>, f': Fifo<T>, q': Queue<T>, below: nat)
    requires Coupled(f, q) && f'.buf == f.buf
    requires |f'.frames| == |q'.stack| && below <= |f.frames| <= below + 1 && below <= |f'.frames| <= below + 1
    requires f'.frames[..below] == f.frames[..below] && q'.stack[..below] == q.stack[..below]
    requires |f'.frames| > below ==> FrameMatches(f', q', below)
    requires q.items <= q'.items && q.released <= q'.released && q.taken <= q'.taken && q.visible <= q'.visible
    requires NonePutting(q.stack[..below]) || q'.visible == q.visible
    requires NoneGetting(q.stack[..below]) || q'.released == q.released
    requires Counts(q', |f.buf|)
    requires f'.tail == Tag(Position(|q'.items|, |f.buf|), Position(q'.visible, |f.buf|))
    requires f'.head == Tag(Position(q'.released, |f.buf|), Position(q'.taken, |f.buf|))
    requires forall k | q.released <= k < |q.items| && BeingCopied(q, k) :: BeingCopied(q', k)
    requires forall k | |q.items| <= k < |q'.items| :: BeingCopied(q', k)
    ensures Coupled(f', q')
  {
    hide FrameMatches, BeingCopied, Position, NonePutting, NoneGetting;
    FramesKept(f, q, f', q', below);
    HoldsKept(f, q, f', q');
  }

  // ---------- The steps, one by one ----------

  lemma BeginKeeps<T>(f: Fifo<T>, q: Queue<T>, f': Fifo<T>, q': Queue<T>, frame: Frame<T>, a: Activity)
    requires Coupled(f, q)
    requires
      || (frame == PutOpening(Begun) && a == PutWaiting(Begun))
      || (frame == GetOpening(Begun) && a == GetWaiting(Begun))
    requires f' == Push(f, frame) && q' == q.(stack := q.stack + [a], monitor := false)
    ensures Linked(f', q')
  {
    hide Holds, NonePutting, NoneGetting, Position;
    var top := |q.stack|;
    assert q'.stack[..top] == q.stack == q.stack[..top] && f'.frames[..top] == f.frames[..top];
    Popped(q'.stack);
    assert FrameMatches(f', q', top);
    CopiedPushed(q, q', a);
    hide FrameMatches, BeingCopied;
    TopChanged(f, q, f', q', top);
  }

  lemma CopiedPushed<T>(q: Queue<T>, q': Queue<T>, a: Activity)
    requires q'.stack == q.stack + [a]
    ensures forall k | BeingCopied(q, k) :: BeingCopied(q', k)
  {
    forall k | BeingCopied(q, k)
      ensures BeingCopied(q', k)
    {
      var i :| 0 <= i < |q.stack| && q.stack[i] == Putting(k, false);
      assert q'.stack[i] == Putting(k, false);
    }
  }

  /** What a waiting reservation has loaded may change; nothing is reserved or released. */
  lemma GoOnKeeps<T>(f: Fifo<T>, q: Queue<T>, f': Fifo<T>, q': Queue<T>, frame: Frame<T>, a: Activity)
    requires Coupled(f, q) && q.stack != [] && Waiting(q.stack[|q.stack| - 1]) && Waiting(a)
    requires f' == SetTop(f, frame).(monitor := f'.monitor) && q' == SetTopActivity(q, a).(monitor := q'.monitor)
    requires FrameMatches(f', q', |q.stack| - 1)
    ensures Coupled(f', q')
  {
    var top := |q.stack| - 1;
    hide FrameMatches, BeingCopied, Holds, NonePutting, NoneGetting, Position;
    assert f'.frames[..top] == f.frames[..top] && q'.stack[..top] == q.stack[..top];
    Popped(q.stack);
    Popped(q'.stack);
    CopiedBelow(q, q');
    TopChanged(f, q, f', q', top);
  }

  predicate Waiting(a: Activity) {
    a.PutWaiting? || a.GetWaiting?
  }

  /** A refused reservation disappears without a trace. */
  lemma RefusalKeeps<T>(f: Fifo<T>, q: Queue<T>)
    requires Coupled(f, q) && q.stack != [] && Waiting(q.stack[|q.stack| - 1])
    ensures Linked(DropFrame(f, |q.stack| - 1), PopActivity(q))
  {
    var top := |q.stack| - 1;
    var f', q' := DropFrame(f, top), PopActivity(q);
    hide FrameMatches, BeingCopied, Holds, NonePutting, NoneGetting, Position;
    assert f'.frames == f.frames[..top];
    Popped(q.stack);
    CopiedBelow(q, q');
    TopChanged(f, q, f', q', top);
  }

  lemma StorePutKeeps<T>(f: Fifo<T>, q: Queue<T>, f': Fifo<T>, q': Queue<T>, t: Tag, count: nat, item: T)
    requires Linked(f, q) && f.monitor && q.stack != []
    requires f.frames[|q.stack| - 1] == PutOpening(Compared(t)) && q.stack[|q.stack| - 1] == PutWaiting(Compared(count))
    requires f' == DoStorePut(f, t, item).0
    requires q' == SetTopActivity(q, Putting(|q.items|, false)).(items := q.items + [item], monitor := false)
    ensures Linked(f', q')
  {
    hide FrameMatches, BeingCopied, Holds, NonePutting, NoneGetting, Position, Following;
    var top := |q.stack| - 1;
    assert f'.frames[..top] == f.frames[..top] && q'.stack[..top] == q.stack[..top];
    Popped(q.stack);
    Popped(q'.stack);
    NewPut(f, q, f', q', t, item);
    CopiedBelow(q, q');
    BeingCopiedAt(q', top);
    FollowingPosition(|q.items|, |f.buf|);
    TopChanged(f, q, f', q', top);
  }

  lemma NewPut<T>(f: Fifo<T>, q: Queue<T>, f': Fifo<T>, q': Queue<T>, t: Tag, item: T)
    requires Coupled(f, q) && q.stack != [] && !q.stack[|q.stack| - 1].Putting? && t == f.tail
    requires |f'.buf| == |f.buf| && |f'.frames| == |q'.stack| == |q.stack|
    requires q'.items == q.items + [item] && q'.visible == q.visible
    requires q'.stack == q.stack[|q.stack| - 1 := Putting(|q.items|, false)]
    requires f'.frames[|q.stack| - 1] == PutFrame(item, t, false)
    ensures FrameMatches(f', q', |q.stack| - 1)
  {
    hide Holds, BeingCopied;
    TagComparisons(f, q);
    Popped(q.stack);
    assert q'.stack[..|q.stack| - 1] == q.stack[..|q.stack| - 1];
    hide NonePutting, NoneGetting, Position;
  }

  lemma NewGet<T>(f: Fifo<T>, q: Queue<T>, f': Fifo<T>, q': Queue<T>, t: Tag)
    requires Coupled(f, q) && q.stack != [] && !q.stack[|q.stack| - 1].Getting? && t == f.head && q.taken < q.visible
    requires |f'.buf| == |f.buf| && |f'.frames| == |q'.stack| == |q.stack|
    requires q'.items == q.items && q'.visible == q.visible && q'.released == q.released && q'.taken == q.taken + 1
    requires q'.stack == q.stack[|q.stack| - 1 := Getting(q.taken, false)]
    requires f'.frames[|q.stack| - 1] == GetFrame(t, None)
    ensures FrameMatches(f', q', |q.stack| - 1)
  {
    hide Holds, BeingCopied;
    TagComparisons(f, q);
    Popped(q.stack);
    assert q'.stack[..|q.stack| - 1] == q.stack[..|q.stack| - 1];
    hide NonePutting, NoneGetting, Position;
  }

  lemma BeingCopiedAt<T>(q: Queue<T>, i: nat)
    requires i < |q.stack| && q.stack[i].Putting? && !q.stack[i].copied
    ensures BeingCopied(q, q.stack[i].number)
  {
  }

  lemma StoreGetKeeps<T>(f: Fifo<T>, q: Queue<T>, f': Fifo<T>, q': Queue<T>, t: Tag, count: nat)
    requires Linked(f, q) && f.monitor && q.stack != []
    requires f.frames[|q.stack| - 1] == GetOpening(Compared(t)) && q.stack[|q.stack| - 1] == GetWaiting(Compared(count))
    requires f' == DoStoreGet(f, t).0
    requires q' == SetTopActivity(q, Getting(q.taken, false)).(taken := q.taken + 1, monitor := false)
    ensures Linked(f', q')
  {
    hide FrameMatches, BeingCopied, Holds, NonePutting, NoneGetting, Position, Following;
    var top := |q.stack| - 1;
    assert f'.frames[..top] == f.frames[..top] && q'.stack[..top] == q.stack[..top];
    Popped(q.stack);
    Popped(q'.stack);
    NewGet(f, q, f', q', t);
    CopiedBelow(q, q');
    FollowingPosition(q.taken, |f.buf|);
    TopChanged(f, q, f', q', top);
  }

  lemma CommitKeeps<T>(f: Fifo<T>, q: Queue<T>, f': Fifo<T>, q': Queue<T>)
    requires Coupled(f, q) && q.stack != []
    requires
      var top := |q.stack| - 1;
      && q.stack[top].Putting? && q.stack[top].copied
      && f' == f.(frames := f.frames[..top], monitor := false,
                  tail := if NonePutting(q.stack[..top]) then Tag(f.tail.wr, f.tail.wr) else f.tail)
      && q' == PopActivity(q).(visible := if NonePutting(q.stack[..top]) then |q.items| else q.visible)
    ensures Linked(f', q')
  {
    var top := |q.stack| - 1;
    Popped(q.stack);
    CopiedBelow(q, q');
    hide FrameMatches, BeingCopied, Holds, NonePutting, NoneGetting, Position;
    TopChanged(f, q, f', q', top);
  }

  lemma FlushKeeps<T>(f: Fifo<T>, q: Queue<T>, f': Fifo<T>, q': Queue<T>)
    requires Coupled(f, q) && q.stack != []
    requires
      var top := |q.stack| - 1;
      && q.stack[top].Getting?
      && f' == f.(frames := f.frames[..top], monitor := false,
                  head := if NoneGetting(q.stack[..top]) then Tag(f.head.rd, f.head.rd) else f.head)
      && q' == PopActivity(q).(released := if NoneGetting(q.stack[..top]) then q.taken else q.released)
    ensures Linked(f', q')
  {
    var top := |q.stack| - 1;
    Popped(q.stack);
    CopiedBelow(q, q');
    hide FrameMatches, BeingCopied, Holds, NonePutting, NoneGetting, Position;
    TopChanged(f, q, f', q', top);
  }

  /**
    While a get is in progress, its slot holds its item all the time, so that
    it does not matter when, or in how many parts, the item is copied out.
   */
  lemma SlotStable<T>(f: Fifo<T>, q: Queue<T>, i: nat)
    requires Coupled(f, q) && i < |q.stack| && q.stack[i].Getting?
    ensures f.frames[i].GetFrame? && f.frames[i].lastHead.rd < |f.buf|
    ensures q.stack[i].number < |q.items| && f.buf[f.frames[i].lastHead.rd] == q.items[q.stack[i].number]
  {
    assert FrameMatches(f, q, i);
    forall j | 0 <= j < |q.stack|
      ensures q.stack[j] != Putting(q.stack[i].number, false)
    {
      assert FrameMatches(f, q, j);
    }
  }

  lemma CopyOutKeeps<T>(f: Fifo<T>, q: Queue<T>, f': Fifo<T>, q': Queue<T>)
    requires Coupled(f, q) && q.stack != []
    requires
      var top := |q.stack| - 1;
      && f.frames[top].GetFrame? && q.stack[top].Getting? && f.frames[top].lastHead.rd < |f.buf|
      && f' == SetTop(f, GetFrame(f.frames[top].lastHead, Some(f.buf[f.frames[top].lastHead.rd]))).(monitor := false)
      && q' == SetTopActivity(q, Getting(q.stack[top].number, true)).(monitor := false)
    ensures Linked(f', q')
  {
    hide BeingCopied, Holds, NonePutting, NoneGetting, Position;
    var top := |q.stack| - 1;
    SlotStable(f, q, top);
    assert f'.frames[..top] == f.frames[..top] && q'.stack[..top] == q.stack[..top];
    Popped(q.stack);
    Popped(q'.stack);
    assert FrameMatches(f, q, top);
    assert FrameMatches(f', q', top);
    CopiedBelow(q, q');
    hide FrameMatches;
    TopChanged(f, q, f', q', top);
  }

  lemma ClearKeeps<T>(f: Fifo<T>, q: Queue<T>, f': Fifo<T>, q': Queue<T>)
    requires Coupled(f, q)
    requires f' == f.(monitor := false,
                      head := if NoneGetting(q.stack) then Tag(f.tail.rd, f.tail.rd) else Tag(f.head.wr, f.tail.rd))
    requires q' == q.(monitor := false, taken := q.visible,
                      released := if NoneGetting(q.stack) then q.visible else q.released)
    ensures Linked(f', q')
  {
    assert q.stack[..|q.stack|] == q.stack;
    forall k | BeingCopied(q, k)
      ensures BeingCopied(q', k)
    {
    }
    hide FrameMatches, BeingCopied, Holds, NonePutting, NoneGetting, Position;
    TopChanged(f, q, f', q', |q.stack|);
  }

  /** Changing the slot of a put in progress touches no other item in the queue. */
  lemma OtherSlots<T>(f: Fifo<T>, q: Queue<T>, i: nat, x: T, k: nat)
    requires Coupled(f, q) && i < |q.stack| && q.stack[i].Putting? && FrameMatches(f, q, i)
    requires q.released <= k < |q.items| && k != q.stack[i].number
    ensures f.buf[f.frames[i].lastTail.wr := x][Position(k, |f.buf|)] == f.buf[Position(k, |f.buf|)]
  {
    hide Holds, BeingCopied, NonePutting, NoneGetting;
    var n := q.stack[i].number;
    if k < n {
      SamePosition(k, n, |f.buf|);
    } else {
      SamePosition(n, k, |f.buf|);
    }
  }

  lemma CopyPartlyKeeps<T>(f: Fifo<T>, q: Queue<T>, f': Fifo<T>, q': Queue<T>, x: T)
    requires Coupled(f, q) && q.stack != []
    requires
      var top := |q.stack| - 1;
      && f.frames[top].PutFrame? && f.frames[top].lastTail.wr < |f.buf| && q.stack[top].Putting? && !q.stack[top].copied
      && f' == f.(buf := f.buf[f.frames[top].lastTail.wr := x], monitor := false) && q' == q.(monitor := false)
    ensures Linked(f', q')
  {
    var top := |q.stack| - 1;
    assert FrameMatches(f, q, top);
    FramesKept(f, q, f', q', |q.stack|);
    BeingCopiedAt(q, top);
    assert forall k :: BeingCopied(q', k) <==> BeingCopied(q, k);
    hide BeingCopied, FrameMatches, Position, NonePutting, NoneGetting;
    forall k | q'.released <= k < |q'.items| && !BeingCopied(q', k)
      ensures f'.buf[Position(k, |f'.buf|)] == q'.items[k]
    {
      OtherSlots(f, q, top, x, k);
    }
  }

  lemma CopyInKeeps<T>(f: Fifo<T>, q: Queue<T>, f': Fifo<T>, q': Queue<T>)
    requires Coupled(f, q) && q.stack != []
    requires
      var top := |q.stack| - 1;
      && f.frames[top].PutFrame? && f.frames[top].lastTail.wr < |f.buf| && q.stack[top].Putting?
      && f' == SetTop(f, PutFrame(f.frames[top].item, f.frames[top].lastTail, true)).(
                 buf := f.buf[f.frames[top].lastTail.wr := f.frames[top].item], monitor := false)
      && q' == SetTopActivity(q, Putting(q.stack[top].number, true)).(monitor := false)
    ensures Linked(f', q')
  {
    hide Position, NonePutting, NoneGetting, Holds, BeingCopied;
    var top := |q.stack| - 1;
    assert f'.frames[..top] == f.frames[..top] && q'.stack[..top] == q.stack[..top];
    CopyInFrames(f, q, f', q');
    Popped(q.stack);
    Popped(q'.stack);
    CopyInHolds(f, q, f', q');
    hide FrameMatches;
  }

  lemma CopyInFrames<T>(f: Fifo<T>, q: Queue<T>, f': Fifo<T>, q': Queue<T>)
    requires Coupled(f, q) && q.stack != []
    requires
      var top := |q.stack| - 1;
      && f.frames[top].PutFrame? && q.stack[top].Putting? && |f'.buf| == |f.buf|
      && f'.frames == f.frames[top := PutFrame(f.frames[top].item, f.frames[top].lastTail, true)]
      && q' == SetTopActivity(q, Putting(q.stack[top].number, true)).(monitor := false)
    ensures forall i | 0 <= i < |f'.frames| :: FrameMatches(f', q', i)
  {
    hide Position, NonePutting, NoneGetting, Holds, BeingCopied;
    var top := |q.stack| - 1;
    assert f'.frames[..top] == f.frames[..top] && q'.stack[..top] == q.stack[..top];
    FramesKept(f, q, f', q', top);
    assert FrameMatches(f, q, top);
    assert FrameMatches(f', q', top);
  }

  lemma CopyInHolds<T>(f: Fifo<T>, q: Queue<T>, f': Fifo<T>, q': Queue<T>)
    requires Coupled(f, q) && q.stack != []
    requires
      var top := |q.stack| - 1;
      && f.frames[top].PutFrame? && f.frames[top].lastTail.wr < |f.buf| && q.stack[top].Putting?
      && f'.buf == f.buf[f.frames[top].lastTail.wr := f.frames[top].item]
      && q' == SetTopActivity(q, Putting(q.stack[top].number, true)).(monitor := false)
    ensures Holds(f', q')
  {
    var top := |q.stack| - 1;
    assert FrameMatches(f, q, top);
    hide FrameMatches, Position, NonePutting, NoneGetting, BeingCopied;
    SlotOf(f, q, top);
    forall k | q'.released <= k < |q'.items| && !BeingCopied(q', k)
      ensures f'.buf[Position(k, |f'.buf|)] == q'.items[k]
    {
      if k != q.stack[top].number {
        OtherSlots(f, q, top, f.frames[top].item, k);
        StillCopied(q, q', k);
      }
    }
  }

  lemma SlotOf<T>(f: Fifo<T>, q: Queue<T>, i: nat)
    requires |f.frames| == |q.stack| && |f.buf| > 0 && i < |q.stack| && q.stack[i].Putting? && FrameMatches(f, q, i)
    ensures q.stack[i].number < |q.items| && f.frames[i].item == q.items[q.stack[i].number]
    ensures f.frames[i].lastTail.wr == Position(q.stack[i].number, |f.buf|)
  {
  }

  lemma StillCopied<T>(q: Queue<T>, q': Queue<T>, k: nat)
    requires q.stack != [] && q.stack[|q.stack| - 1].Putting? && k != q.stack[|q.stack| - 1].number
    requires q'.stack == q.stack[|q.stack| - 1 := Putting(q.stack[|q.stack| - 1].number, true)]
    ensures BeingCopied(q, k) ==> BeingCopied(q', k)
  {
    if BeingCopied(q, k) {
      var j :| 0 <= j < |q.stack| && q.stack[j] == Putting(k, false);
      assert q'.stack[j] == Putting(k, false);
    }
  }

  // ---------- Agreement ----------

  /** The step makes the FIFO and the queue report the same, and keeps them linked. */
  ghost predicate Agree<T>(fr: (Fifo<T>, Result<T>), qr: (Queue<T>, Result<T>)) {
    fr.1 == qr.1 && Linked(fr.0, qr.0)
  }

  /** What is known of the running transaction. */
  lemma TopMatches<T>(f: Fifo<T>, q: Queue<T>)
    requires Coupled(f, q) && q.stack != []
    ensures FrameMatches(f, q, |q.stack| - 1)
    ensures q.released <= q.taken <= q.visible <= |q.items| < q.released + |f.buf|
    ensures f.frames[..|q.stack| - 1] + f.frames[|q.stack|..] == f.frames[..|q.stack| - 1]
  {
  }

  /** What does not apply only clears the monitor. */
  lemma MonitorCleared<T>(f: Fifo<T>, q: Queue<T>)
    requires Coupled(f, q)
    ensures Linked(f.(monitor := false), q.(monitor := false))
  {
    var f', q' := f.(monitor := false), q.(monitor := false);
    assert q.stack[..|q.stack|] == q.stack;
    FramesKept(f, q, f', q', |q.stack|);
    assert forall k :: BeingCopied(q', k) <==> BeingCopied(q, k);
    hide FrameMatches, BeingCopied, NonePutting, NoneGetting;
  }

  lemma LoadAgrees<T>(f: Fifo<T>, q: Queue<T>)
    requires Linked(f, q) && Shape(f) && Numbered(q, |f.buf|) && q.stack != []
    ensures Agree(StepTop(f, Load), SpecTop(q, |f.buf|, Load))
  {
    var top := |q.stack| - 1;
    TopMatches(f, q);
    MonitorCleared(f, q);
    if q.stack[top] == PutWaiting(Begun) {
      LoadTailKeeps(f, q);
    } else if q.stack[top] == GetWaiting(Begun) {
      LoadHeadKeeps(f, q);
    }
    hide Coupled, Armed, Numbered, Counts;
  }

  lemma LoadTailKeeps<T>(f: Fifo<T>, q: Queue<T>)
    requires Coupled(f, q) && Shape(f) && q.stack != [] && q.stack[|q.stack| - 1] == PutWaiting(Begun)
    ensures Linked(SetTop(f, PutOpening(Loaded(f.tail))).(monitor := true),
                   SetTopActivity(q, PutWaiting(Loaded(|q.items|))).(monitor := true))
  {
    hide Holds, BeingCopied, NonePutting, NoneGetting;
    var frame, a := PutOpening(Loaded(f.tail)), PutWaiting(Loaded(|q.items|));
    var f', q' := SetTop(f, frame).(monitor := true), SetTopActivity(q, a).(monitor := true);
    assert FrameMatches(f', q', |q.stack| - 1);
    GoOnKeeps(f, q, f', q', frame, a);
  }

  lemma LoadHeadKeeps<T>(f: Fifo<T>, q: Queue<T>)
    requires Coupled(f, q) && Shape(f) && q.stack != [] && q.stack[|q.stack| - 1] == GetWaiting(Begun)
    ensures Linked(SetTop(f, GetOpening(Loaded(f.head))).(monitor := true),
                   SetTopActivity(q, GetWaiting(Loaded(q.taken))).(monitor := true))
  {
    hide Holds, BeingCopied, NonePutting, NoneGetting;
    var frame, a := GetOpening(Loaded(f.head)), GetWaiting(Loaded(q.taken));
    var f', q' := SetTop(f, frame).(monitor := true), SetTopActivity(q, a).(monitor := true);
    assert FrameMatches(f', q', |q.stack| - 1);
    GoOnKeeps(f, q, f', q', frame, a);
  }

  lemma CompareAgrees<T>(f: Fifo<T>, q: Queue<T>)
    requires Linked(f, q) && Shape(f) && Numbered(q, |f.buf|) && q.stack != []
    ensures Agree(StepTop(f, Compare), SpecTop(q, |f.buf|, Compare))
  {
    TopMatches(f, q);
    var top := |q.stack| - 1;
    if q.stack[top].PutWaiting? && q.stack[top].stage.Loaded? {
      ComparePutAgrees(f, q, f.frames[top].stage.loaded, q.stack[top].stage.loaded);
    } else if q.stack[top].GetWaiting? && q.stack[top].stage.Loaded? {
      CompareGetAgrees(f, q, f.frames[top].stage.loaded, q.stack[top].stage.loaded);
    } else {
      MonitorCleared(f, q);
    }
    hide Coupled, Armed, Numbered, Counts, Shape, NonePutting, NoneGetting, Position;
  }

  lemma ComparePutAgrees<T>(f: Fifo<T>, q: Queue<T>, t: Tag, count: nat)
    requires Linked(f, q) && Shape(f) && Numbered(q, |f.buf|) && q.stack != []
    requires f.frames[|q.stack| - 1] == PutOpening(Loaded(t)) && q.stack[|q.stack| - 1] == PutWaiting(Loaded(count))
    ensures Agree(StepTop(f, Compare), SpecTop(q, |f.buf|, Compare))
  {
    TopMatches(f, q);
    hide Coupled, Numbered, Counts, Shape, Position, PutRefused, Following;
    PutComparison(f, q, t.wr, count);
    if PutRefused(q, count, |f.buf|) {
      RefusalKeeps(f, q);
    } else {
      ComparedPutKeeps(f, q, t, count);
    }
    hide Armed, FrameMatches;
  }

  lemma CompareGetAgrees<T>(f: Fifo<T>, q: Queue<T>, t: Tag, count: nat)
    requires Linked(f, q) && Shape(f) && Numbered(q, |f.buf|) && q.stack != []
    requires f.frames[|q.stack| - 1] == GetOpening(Loaded(t)) && q.stack[|q.stack| - 1] == GetWaiting(Loaded(count))
    ensures Agree(StepTop(f, Compare), SpecTop(q, |f.buf|, Compare))
  {
    TopMatches(f, q);
    hide Coupled, Numbered, Counts, Shape, Position, GetRefused;
    GetComparison(f, q, t.rd, count);
    if GetRefused(q, count, |f.buf|) {
      RefusalKeeps(f, q);
    } else {
      ComparedGetKeeps(f, q, t, count);
    }
    hide Armed, FrameMatches;
  }

  lemma ComparedPutKeeps<T>(f: Fifo<T>, q: Queue<T>, t: Tag, count: nat)
    requires Linked(f, q) && q.stack != [] && !PutRefused(q, count, |f.buf|)
    requires f.frames[|q.stack| - 1] == PutOpening(Loaded(t)) && q.stack[|q.stack| - 1] == PutWaiting(Loaded(count))
    ensures Linked(SetTop(f, PutOpening(Compared(t))), SetTopActivity(q, PutWaiting(Compared(count))))
  {
    hide Holds, BeingCopied, NonePutting, NoneGetting, WholeRounds;
    TopMatches(f, q);
    var f', q' := SetTop(f, PutOpening(Compared(t))), SetTopActivity(q, PutWaiting(Compared(count)));
    assert FrameMatches(f', q', |q.stack| - 1);
    GoOnKeeps(f, q, f', q', PutOpening(Compared(t)), PutWaiting(Compared(count)));
    hide Coupled;
  }

  lemma ComparedGetKeeps<T>(f: Fifo<T>, q: Queue<T>, t: Tag, count: nat)
    requires Linked(f, q) && q.stack != [] && !GetRefused(q, count, |f.buf|)
    requires f.frames[|q.stack| - 1] == GetOpening(Loaded(t)) && q.stack[|q.stack| - 1] == GetWaiting(Loaded(count))
    ensures Linked(SetTop(f, GetOpening(Compared(t))), SetTopActivity(q, GetWaiting(Compared(count))))
  {
    hide Holds, BeingCopied, NonePutting, NoneGetting;
    TopMatches(f, q);
    var f', q' := SetTop(f, GetOpening(Compared(t))), SetTopActivity(q, GetWaiting(Compared(count)));
    assert WholeRounds(0, |f.buf|);
    assert FrameMatches(f', q', |q.stack| - 1);
    GoOnKeeps(f, q, f', q', GetOpening(Compared(t)), GetWaiting(Compared(count)));
    hide Coupled, WholeRounds;
  }

  lemma StorePutAgrees<T>(f: Fifo<T>, q: Queue<T>, item: T)
    requires Linked(f, q) && Shape(f) && Numbered(q, |f.buf|) && q.stack != []
    ensures Agree(StepTop(f, StorePut(item)), SpecTop(q, |f.buf|, StorePut(item)))
  {
    var top := |q.stack| - 1;
    TopMatches(f, q);
    MonitorCleared(f, q);
    hide Coupled, Numbered, Counts, Shape;
    if q.stack[top].PutWaiting? && q.stack[top].stage.Compared? {
      var f', q' := StepTop(f, StorePut(item)).0, SpecTop(q, |f.buf|, StorePut(item)).0;
      if f.monitor {
        StorePutKeeps(f, q, f', q', f.frames[top].stage.loaded, q.stack[top].stage.loaded, item);
      } else {
        assert FrameMatches(f', q', top);
        GoOnKeeps(f, q, f', q', PutOpening(Begun), PutWaiting(Begun));
      }
    }
  }

  lemma StoreGetAgrees<T>(f: Fifo<T>, q: Queue<T>)
    requires Linked(f, q) && Shape(f) && Numbered(q, |f.buf|) && q.stack != []
    ensures Agree(StepTop(f, StoreGet), SpecTop(q, |f.buf|, StoreGet))
  {
    var top := |q.stack| - 1;
    TopMatches(f, q);
    MonitorCleared(f, q);
    hide Coupled, Numbered, Counts, Shape;
    if q.stack[top].GetWaiting? && q.stack[top].stage.Compared? {
      var f', q' := StepTop(f, StoreGet).0, SpecTop(q, |f.buf|, StoreGet).0;
      if f.monitor {
        StoreGetKeeps(f, q, f', q', f.frames[top].stage.loaded, q.stack[top].stage.loaded);
      } else {
        assert FrameMatches(f', q', top);
        GoOnKeeps(f, q, f', q', GetOpening(Begun), GetWaiting(Begun));
      }
    }
  }

  lemma CopyPartlyAgrees<T>(f: Fifo<T>, q: Queue<T>, x: T)
    requires Linked(f, q) && Shape(f) && Numbered(q, |f.buf|) && q.stack != []
    ensures Agree(StepTop(f, CopyPartly(x)), SpecTop(q, |f.buf|, CopyPartly(x)))
  {
    TopMatches(f, q);
    MonitorCleared(f, q);
    hide Coupled, Armed, Numbered, Counts, Shape, NonePutting, NoneGetting, Position;
    if q.stack[|q.stack| - 1].Putting? && !q.stack[|q.stack| - 1].copied {
      CopyPartlyKeeps(f, q, StepTop(f, CopyPartly(x)).0, SpecTop(q, |f.buf|, CopyPartly(x)).0, x);
    }
  }

  lemma CopyInAgrees<T>(f: Fifo<T>, q: Queue<T>)
    requires Linked(f, q) && Shape(f) && Numbered(q, |f.buf|) && q.stack != []
    ensures Agree(StepTop(f, CopyIn), SpecTop(q, |f.buf|, CopyIn))
  {
    TopMatches(f, q);
    MonitorCleared(f, q);
    hide Coupled, Armed, Numbered, Counts, Shape, NonePutting, NoneGetting, Position;
    if q.stack[|q.stack| - 1].Putting? {
      CopyInKeeps(f, q, StepTop(f, CopyIn).0, SpecTop(q, |f.buf|, CopyIn).0);
    }
  }

  lemma CopyOutAgrees<T>(f: Fifo<T>, q: Queue<T>)
    requires Linked(f, q) && Shape(f) && Numbered(q, |f.buf|) && q.stack != []
    ensures Agree(StepTop(f, CopyOut), SpecTop(q, |f.buf|, CopyOut))
  {
    TopMatches(f, q);
    MonitorCleared(f, q);
    hide Coupled, Armed, Numbered, Counts, Shape, NonePutting, NoneGetting, Position;
    if q.stack[|q.stack| - 1].Getting? {
      CopyOutKeeps(f, q, StepTop(f, CopyOut).0, SpecTop(q, |f.buf|, CopyOut).0);
    }
  }

  lemma CommitAgrees<T>(f: Fifo<T>, q: Queue<T>)
    requires Linked(f, q) && Shape(f) && Numbered(q, |f.buf|) && q.stack != []
    ensures Agree(StepTop(f, Commit), SpecTop(q, |f.buf|, Commit))
  {
    TopMatches(f, q);
    MonitorCleared(f, q);
    hide Coupled, Armed, Numbered, Counts, Shape, NonePutting, NoneGetting, Position;
    if q.stack[|q.stack| - 1].Putting? && q.stack[|q.stack| - 1].copied {
      CommitKeeps(f, q, StepTop(f, Commit).0, SpecTop(q, |f.buf|, Commit).0);
    }
  }

  lemma FlushAgrees<T>(f: Fifo<T>, q: Queue<T>)
    requires Linked(f, q) && Shape(f) && Numbered(q, |f.buf|) && q.stack != []
    ensures Agree(StepTop(f, Flush), SpecTop(q, |f.buf|, Flush))
  {
    TopMatches(f, q);
    MonitorCleared(f, q);
    hide Coupled, Armed, Numbered, Counts, Shape, NonePutting, NoneGetting, Position;
    if q.stack[|q.stack| - 1].Getting? && q.stack[|q.stack| - 1].copied {
      FlushKeeps(f, q, StepTop(f, Flush).0, SpecTop(q, |f.buf|, Flush).0);
    }
  }

  lemma InterruptAgrees<T>(f: Fifo<T>, q: Queue<T>)
    requires Linked(f, q) && Shape(f) && Numbered(q, |f.buf|) && q.stack != []
    ensures Agree(StepTop(f, Interrupt), SpecTop(q, |f.buf|, Interrupt))
  {
    MonitorCleared(f, q);
    hide Coupled;
  }

  /** One step of the FIFO is one step of the queue. */
  lemma StepAgrees<T>(f: Fifo<T>, q: Queue<T>, e: Event<T>)
    requires Linked(f, q)
    ensures Shape(f) && Numbered(q, |f.buf|)
    ensures Agree(Step(f, e), Spec(q, |f.buf|, e))
  {
    CoupledShape(f, q);
    TagComparisons(f, q);
    hide Coupled, Armed, FrameMatches, Holds, BeingCopied, NonePutting, NoneGetting, Position, StepTop, SpecTop;
    if e.BeginPut? {
      BeginKeeps(f, q, Step(f, e).0, Spec(q, |f.buf|, e).0, PutOpening(Begun), PutWaiting(Begun));
    } else if e.BeginGet? {
      BeginKeeps(f, q, Step(f, e).0, Spec(q, |f.buf|, e).0, GetOpening(Begun), GetWaiting(Begun));
    } else if e.Clear? {
      ClearKeeps(f, q, Step(f, e).0, Spec(q, |f.buf|, e).0);
    } else if q.stack == [] {
      MonitorCleared(f, q);
    } else {
      StepTopAgrees(f, q, e);
    }
  }

  lemma StepTopAgrees<T>(f: Fifo<T>, q: Queue<T>, e: Event<T>)
    requires Linked(f, q) && Shape(f) && Numbered(q, |f.buf|) && q.stack != []
    requires !e.BeginPut? && !e.BeginGet? && !e.Clear?
    ensures Agree(StepTop(f, e), SpecTop(q, |f.buf|, e))
  {
    hide Linked, Shape, Numbered, StepTop, SpecTop;
    match e
    case Load => LoadAgrees(f, q);
    case Compare => CompareAgrees(f, q);
    case StorePut(item) => StorePutAgrees(f, q, item);
    case StoreGet => StoreGetAgrees(f, q);
    case CopyPartly(x) => CopyPartlyAgrees(f, q, x);
    case CopyIn => CopyInAgrees(f, q);
    case CopyOut => CopyOutAgrees(f, q);
    case Commit => CommitAgrees(f, q);
    case Flush => FlushAgrees(f, q);
    case Interrupt => InterruptAgrees(f, q);
  }

  // ---------- Runs ----------

  /** The frames below the running one stay as they are, and the running one stays inside. */
  lemma Reframed<T>(f: Fifo<T>, f': Fifo<T>)
    requires Shape(f) && |f'.buf| == |f.buf| && TagInside(f'.tail, |f.buf|) && TagInside(f'.head, |f.buf|)
    requires forall i | 0 <= i < |f'.frames| - 1 :: i < |f.frames| && f'.frames[i] == f.frames[i]
    requires f'.frames != [] ==> Inside(f'.frames[|f'.frames| - 1], |f.buf|)
    ensures Shape(f')
  {
  }

  lemma FollowingInside(p: nat, n: nat)
    requires p < n
    ensures Following(p, n) < n
  {
  }

  lemma StepShape<T>(f: Fifo<T>, e: Event<T>)
    requires Shape(f)
    ensures Shape(Step(f, e).0) && |Step(f, e).0.buf| == |f.buf|
  {
    if e.BeginPut? || e.BeginGet? || e.Clear? || f.frames == [] {
      Reframed(f, Step(f, e).0);
    } else {
      StepTopShape(f, e);
    }
    hide StepTop;
  }

  lemma StepTopShape<T>(f: Fifo<T>, e: Event<T>)
    requires Shape(f) && f.frames != [] && Inside(f.frames[|f.frames| - 1], |f.buf|)
    ensures Shape(StepTop(f, e).0) && |StepTop(f, e).0.buf| == |f.buf|
  {
    var f' := StepTop(f, e).0;
    var top := |f.frames| - 1;
    assert f.frames[..top] + f.frames[top + 1..] == f.frames[..top];
    assert top > 0 ==> Inside(f.frames[top - 1], |f.buf|);
    StepTopInside(f, e);
    hide Following, Inside, TagInside, StageInside;
    Reframed(f, f');
  }

  lemma StepTopInside<T>(f: Fifo<T>, e: Event<T>)
    requires Shape(f) && f.frames != [] && Inside(f.frames[|f.frames| - 1], |f.buf|)
    ensures
      var f' := StepTop(f, e).0;
      && |f'.buf| == |f.buf| && TagInside(f'.tail, |f.buf|) && TagInside(f'.head, |f.buf|)
      && (|f'.frames| == |f.frames| ==> Inside(f'.frames[|f.frames| - 1], |f.buf|))
  {
    match f.frames[|f.frames| - 1]
    case PutOpening(Compared(t)) => FollowingInside(t.wr, |f.buf|);
    case GetOpening(Compared(t)) => FollowingInside(t.rd, |f.buf|);
    case _ =>
    hide Following;
  }

  lemma SpecSound<T>(q: Queue<T>, size: nat, e: Event<T>)
    requires size > 0 && Sound(q, size)
    ensures Sound(Spec(q, size, e).0, size) && q.items <= Spec(q, size, e).0.items
  {
    if e.BeginPut? || e.BeginGet? || e.Clear? || q.stack == [] {
      hide SpecTop, NonePutting, NoneGetting;
    } else {
      SpecTopSound(q, size, e);
      hide SpecTop, Sound;
    }
  }

  lemma SpecTopSound<T>(q: Queue<T>, size: nat, e: Event<T>)
    requires size > 0 && Sound(q, size) && q.stack != []
    ensures Sound(SpecTop(q, size, e).0, size) && q.items <= SpecTop(q, size, e).0.items
  {
    assert WholeRounds(0, size);
    hide WholeRounds, NonePutting, NoneGetting;
    var q' := SpecTop(q, size, e).0;
    assert forall i | 0 <= i < |q'.stack| && i != |q.stack| - 1 :: q'.stack[i] == q.stack[i];
  }

  /** Runs the FIFO on a sequence of events, with what each of them reports. */
  ghost function Run<T>(f: Fifo<T>, es: seq<Event<T>>): (r: (Fifo<T>, seq<Result<T>>))
    requires Shape(f)
    ensures Shape(r.0) && |r.0.buf| == |f.buf|
  {
    if es == [] then (f, [])
    else
      var (f', rs) := Run(f, es[..|es| - 1]);
      StepShape(f', es[|es| - 1]);
      var (f'', r) := Step(f', es[|es| - 1]);
      (f'', rs + [r])
  }

  lemma RunNone<T>(f: Fifo<T>)
    requires Shape(f)
    ensures Run(f, []) == (f, [])
  {
  }

  lemma RunOnce<T>(f: Fifo<T>, es: seq<Event<T>>, e: Event<T>)
    requires Shape(f)
    ensures Run(f, es + [e]).0 == Step(Run(f, es).0, e).0
  {
    assert (es + [e])[..|es + [e]| - 1] == es;
    hide Step;
  }

  ghost function RunSpec<T>(q: Queue<T>, size: nat, es: seq<Event<T>>): (r: (Queue<T>, seq<Result<T>>))
    requires size > 0 && Sound(q, size)
    ensures Sound(r.0, size)
  {
    if es == [] then (q, [])
    else
      var (q', rs) := RunSpec(q, size, es[..|es| - 1]);
      SpecSound(q', size, es[|es| - 1]);
      var (q'', r) := Spec(q', size, es[|es| - 1]);
      (q'', rs + [r])
  }

  /** A FIFO after its initialization, over a buffer with any contents. */
  function Initial<T>(buf: seq<T>): Fifo<T> {
    Fifo(buf, Tag(0, 0), Tag(0, 0), false, [])
  }

  function Empty<T>(): Queue<T> {
    Queue([], 0, 0, 0, false, [])
  }

  /** The queue after a run from the beginning, and what the run has reported. */
  ghost function State<T>(size: nat, es: seq<Event<T>>): (q: Queue<T>)
    requires size > 0
    ensures Sound(q, size)
  {
    RunSpec(Empty<T>(), size, es).0
  }

  ghost function Reports<T>(size: nat, es: seq<Event<T>>): seq<Result<T>>
    requires size > 0
  {
    RunSpec(Empty<T>(), size, es).1
  }

  lemma Once<T>(size: nat, es: seq<Event<T>>, e: Event<T>)
    requires size > 0
    ensures State(size, es + [e]) == Spec(State(size, es), size, e).0
    ensures Reports(size, es + [e]) == Reports(size, es) + [Spec(State(size, es), size, e).1]
  {
    assert (es + [e])[..|es + [e]| - 1] == es;
  }

  /**
    The initialization also accepts a buffer without slots, but the FIFO cannot
    be used then: the first reservation is granted, for a slot outside.
   */
  lemma BufferWithoutSlots<T>(item: T)
    ensures
      var f: Fifo<T> := Initial([]);
      var loaded := DoLoad(Push(f, PutOpening(Begun)));
      var (compared, r) := DoCompare(loaded);
      r == Nothing && DoStorePut(compared, f.tail, item).1 == Opened && f.tail.wr >= |f.buf|
  {
  }

  lemma {:induction false} RunLinked<T>(buf: seq<T>, es: seq<Event<T>>)
    requires |buf| > 0
    ensures
      var (f, rs) := Run(Initial(buf), es);
      var (q, ss) := RunSpec(Empty<T>(), |buf|, es);
      rs == ss && |f.buf| == |buf| && Linked(f, q)
  {
    hide FrameMatches, Holds, Step, Spec;
    if es != [] {
      var before := es[..|es| - 1];
      RunLinked(buf, before);
      hide Linked;
      StepAgrees(Run(Initial(buf), before).0, RunSpec(Empty<T>(), |buf|, before).0, es[|es| - 1]);
    } else {
      InitialLinked(buf);
    }
  }

  lemma InitialLinked<T>(buf: seq<T>)
    requires |buf| > 0
    ensures Linked(Initial(buf), Empty<T>())
  {
  }

  /**
    The FIFO refines the queue: for every sequence of events, with transactions
    nested in any way, all calls report the same.
   */
  lemma FifoRefinesQueue<T>(buf: seq<T>, es: seq<Event<T>>)
    requires |buf| > 0
    ensures Run(Initial(buf), es).1 == RunSpec(Empty<T>(), |buf|, es).1
  {
    RunLinked(buf, es);
  }
}
