/**
  What a user of the atomic FIFO gets: nothing is lost, duplicated or invented,
  and items come out in the order in which they were put.
 */
module FifoOrder {

  import opened AtomicFifo

  // ---------- What the calls of a run reported ----------

  /** The items of the puts that were granted a slot, in order. */
  function Accepted<T>(es: seq<Event<T>>, rs: seq<Result<T>>): seq<T>
    requires |es| == |rs|
  {
    if es == [] then []
    else
      var n := |es| - 1;
      Accepted(es[..n], rs[..n]) + if es[n].StorePut? && rs[n].Opened? then [es[n].item] else []
  }

  /** The items that gets returned, in the order in which the gets were finished. */
  function ReadItems<T>(rs: seq<Result<T>>): seq<T> {
    if rs == [] then []
    else
      var n := |rs| - 1;
      ReadItems(rs[..n]) + if rs[n].Read? then [rs[n].item] else []
  }

  predicate NeverCleared<T>(es: seq<Event<T>>) {
    forall i | 0 <= i < |es| :: !es[i].Clear?
  }

  lemma AcceptedSnoc<T>(es: seq<Event<T>>, rs: seq<Result<T>>, e: Event<T>, r: Result<T>)
    requires |es| == |rs|
    ensures Accepted(es + [e], rs + [r]) == Accepted(es, rs) + if e.StorePut? && r.Opened? then [e.item] else []
  {
    assert (es + [e])[..|es|] == es && (rs + [r])[..|rs|] == rs;
  }

  lemma ReadSnoc<T>(rs: seq<Result<T>>, r: Result<T>)
    ensures ReadItems(rs + [r]) == ReadItems(rs) + if r.Read? then [r.item] else []
  {
    assert (rs + [r])[..|rs|] == rs;
  }

  // ---------- The queue ----------

  lemma {:induction false} ItemsAreAccepted<T>(size: nat, es: seq<Event<T>>)
    requires size > 0
    ensures |Reports(size, es)| == |es|
    ensures State(size, es).items == Accepted(es, Reports(size, es))
  {
    if es != [] {
      var n := |es| - 1;
      ItemsAreAccepted(size, es[..n]);
      assert es == es[..n] + [es[n]];
      Once(size, es[..n], es[n]);
      AcceptedStep(State(size, es[..n]), size, es[n]);
      hide State, Reports, Spec, Accepted;
      AcceptedSnoc(es[..n], Reports(size, es[..n]), es[n], Spec(State(size, es[..n]), size, es[n]).1);
    }
  }

  lemma AcceptedStep<T>(q: Queue<T>, size: nat, e: Event<T>)
    requires size > 0 && Sound(q, size)
    ensures
      var (q', r) := Spec(q, size, e);
      q'.items == q.items + if e.StorePut? && r.Opened? then [e.item] else []
  {
    hide NonePutting, NoneGetting, PutRefused, GetRefused;
  }

  /** The event finishes the running get. */
  ghost predicate Finishes<T>(q: Queue<T>, e: Event<T>) {
    var top := |q.stack| - 1;
    e.Flush? && top >= 0 && q.stack[top].Getting? && q.stack[top].copied
  }

  ghost function FinishedNumber<T>(q: Queue<T>, e: Event<T>): nat
    requires Finishes(q, e)
  {
    q.stack[|q.stack| - 1].number
  }

  /** The numbers of the items that gets returned, in the order in which the gets were finished. */
  ghost function Delivered<T>(size: nat, es: seq<Event<T>>): seq<nat>
    requires size > 0
  {
    if es == [] then []
    else
      var n := |es| - 1;
      Delivered(size, es[..n]) + Finished(State(size, es[..n]), es[n])
  }

  ghost function Finished<T>(q: Queue<T>, e: Event<T>): seq<nat> {
    if Finishes(q, e) then [FinishedNumber(q, e)] else []
  }

  lemma FinishReport<T>(q: Queue<T>, size: nat, e: Event<T>)
    requires size > 0 && Sound(q, size)
    ensures Spec(q, size, e).1.Read? <==> Finishes(q, e)
    ensures Finishes(q, e) ==>
      FinishedNumber(q, e) < |q.items| && Spec(q, size, e).1.item == q.items[FinishedNumber(q, e)]
  {
    hide NonePutting, NoneGetting, PutRefused, GetRefused;
  }

  lemma DeliveredSnoc<T>(size: nat, es: seq<Event<T>>, e: Event<T>)
    requires size > 0
    ensures Delivered(size, es + [e]) == Delivered(size, es) + Finished(State(size, es), e)
  {
    assert (es + [e])[..|es|] == es;
    hide State, Finished;
  }

  /** The items with the given numbers are the selected ones. */
  ghost predicate Selected<T>(items: seq<T>, numbers: seq<nat>, selected: seq<T>) {
    && |selected| == |numbers|
    && forall i | 0 <= i < |numbers| :: numbers[i] < |items| && selected[i] == items[numbers[i]]
  }

  lemma SelectedStep<T>(q: Queue<T>, size: nat, e: Event<T>, ds: seq<nat>, got: seq<T>)
    requires size > 0 && Sound(q, size) && Selected(q.items, ds, got)
    ensures
      var (q', r) := Spec(q, size, e);
      Selected(q'.items, ds + Finished(q, e), got + if r.Read? then [r.item] else [])
  {
    FinishReport(q, size, e);
    SpecSound(q, size, e);
    hide Spec, Sound, Finishes, FinishedNumber;
  }

  lemma {:induction false} DeliveredAreRead<T>(size: nat, es: seq<Event<T>>)
    requires size > 0
    ensures Selected(State(size, es).items, Delivered(size, es), ReadItems(Reports(size, es)))
  {
    hide Spec, State, Reports, Numbered, MonitorSound, Finished, Selected;
    if es != [] {
      var before, e := es[..|es| - 1], es[|es| - 1];
      DeliveredAreRead(size, before);
      assert es == before + [e];
      Once(size, before, e);
      DeliveredSnoc(size, before, e);
      ReadSnoc(Reports(size, before), Spec(State(size, before), size, e).1);
      hide Delivered, ReadItems;
      SelectedStep(State(size, before), size, e, Delivered(size, before), ReadItems(Reports(size, before)));
    } else {
      NothingYet<T>(size);
    }
  }

  lemma NothingYet<T>(size: nat)
    requires size > 0
    ensures
      var none: seq<Event<T>> := [];
      State(size, none) == Empty() && Reports(size, none) == [] && Selected(State(size, none).items, [], [])
  {
  }

  // ---------- Exactly once ----------

  function Numbers(n: nat): (s: seq<nat>) {
    seq(n, i => i)
  }

  /** The numbers of the items that are being read. */
  function BeingRead(stack: seq<Activity>): seq<nat> {
    if stack == [] then []
    else
      var top := |stack| - 1;
      BeingRead(stack[..top]) + NumberRead(stack[top])
  }

  function NumberRead(a: Activity): seq<nat> {
    if a.Getting? then [a.number] else []
  }

  lemma {:induction false} NothingRead(stack: seq<Activity>)
    ensures NoneGetting(stack) <==> BeingRead(stack) == []
  {
    if stack != [] {
      NothingRead(stack[..|stack| - 1]);
      Popped(stack);
    }
  }

  lemma ReadChanged(stack: seq<Activity>, stack': seq<Activity>)
    requires stack' != [] && |stack| >= |stack'| - 1 && stack'[..|stack'| - 1] == stack[..|stack'| - 1]
    ensures BeingRead(stack') == BeingRead(stack[..|stack'| - 1]) + NumberRead(stack'[|stack'| - 1])
  {
  }

  lemma NextNumber(n: nat)
    ensures Numbers(n + 1) == Numbers(n) + [n]
  {
  }

  /** How a step from `q` to `q'` that reports `r` changes what is being read. */
  ghost predicate ReadingChange<T>(q: Queue<T>, e: Event<T>, q': Queue<T>, r: Result<T>) {
    if e.StoreGet? && r.Opened? then
      q'.taken == q.taken + 1 && BeingRead(q'.stack) == BeingRead(q.stack) + [q.taken]
    else if Finishes(q, e) then
      q'.taken == q.taken && BeingRead(q.stack) == BeingRead(q'.stack) + [FinishedNumber(q, e)]
    else
      && q'.taken == (if e.Clear? then q.visible else q.taken)
      && BeingRead(q'.stack) == BeingRead(q.stack)
  }

  lemma ReadingStep<T>(q: Queue<T>, size: nat, e: Event<T>)
    requires size > 0 && Sound(q, size)
    ensures ReadingChange(q, e, Spec(q, size, e).0, Spec(q, size, e).1)
  {
    hide SpecTop, BeingRead, NonePutting, NoneGetting, MonitorSound, Numbered;
    var stack' := Spec(q, size, e).0.stack;
    if e.BeginPut? || e.BeginGet? {
      ReadChanged(q.stack, stack');
      assert q.stack[..|q.stack|] == q.stack;
    } else if !e.Clear? && q.stack != [] {
      ReadingTopStep(q, size, e);
    }
  }

  lemma ReadingTopStep<T>(q: Queue<T>, size: nat, e: Event<T>)
    requires size > 0 && q.stack != [] && Numbered(q, size) && !e.BeginPut? && !e.BeginGet? && !e.Clear?
    ensures ReadingChange(q, e, SpecTop(q, size, e).0, SpecTop(q, size, e).1)
  {
    hide BeingRead, Numbered, NonePutting, NoneGetting, PutRefused, GetRefused;
    var top := |q.stack| - 1;
    var stack' := SpecTop(q, size, e).0.stack;
    ReadChanged(q.stack, q.stack);
    if |stack'| == |q.stack| {
      assert stack'[..top] == q.stack[..top];
      ReadChanged(q.stack, stack');
    }
  }

  /** The numbers of the items that are dropped by clearing. */
  ghost function Dropped<T>(size: nat, es: seq<Event<T>>): seq<nat>
    requires size > 0
  {
    if es == [] then []
    else
      var n := |es| - 1;
      Dropped(size, es[..n]) + DroppedNow(State(size, es[..n]), es[n])
  }

  /** Clearing drops what is visible and has not been taken. */
  function DroppedNow<T>(q: Queue<T>, e: Event<T>): seq<nat> {
    if e.Clear? && q.taken <= q.visible then seq(q.visible - q.taken, i => q.taken + i) else []
  }

  lemma DroppedSnoc<T>(size: nat, es: seq<Event<T>>, e: Event<T>)
    requires size > 0
    ensures Dropped(size, es + [e]) == Dropped(size, es) + DroppedNow(State(size, es), e)
  {
    assert (es + [e])[..|es|] == es;
    hide State, DroppedNow;
  }

  lemma {:induction false} NothingDropped<T>(size: nat, es: seq<Event<T>>)
    requires size > 0 && NeverCleared(es)
    ensures Dropped(size, es) == []
  {
    hide State;
    if es != [] {
      NothingDropped(size, es[..|es| - 1]);
    }
  }

  /** All numbers below the count of the items taken, each once. */
  ghost predicate Accounted<T>(q: Queue<T>, delivered: seq<nat>, dropped: seq<nat>) {
    multiset(delivered) + multiset(BeingRead(q.stack)) + multiset(dropped) == multiset(Numbers(q.taken))
  }

  /** Every item that has been taken has been delivered once, or is being read, or has been dropped by clearing. */
  lemma {:induction false} ExactlyOnce<T>(size: nat, es: seq<Event<T>>)
    requires size > 0
    ensures Accounted(State(size, es), Delivered(size, es), Dropped(size, es))
  {
    hide State, Spec, Finished, ReadingChange, Accounted, DroppedNow;
    if es != [] {
      var before, e := es[..|es| - 1], es[|es| - 1];
      ExactlyOnce(size, before);
      assert es == before + [e];
      Once(size, before, e);
      DeliveredSnoc(size, before, e);
      DroppedSnoc(size, before, e);
      hide Delivered, Dropped;
      var q := State(size, before);
      ReadingStep(q, size, e);
      InSequence(q, size);
      AccountedStep(q, Spec(q, size, e).0, Spec(q, size, e).1, e, Delivered(size, before), Dropped(size, before));
    } else {
      NothingYet<T>(size);
      NothingAccounted<T>();
    }
  }

  lemma NothingAccounted<T>()
    ensures Accounted<T>(Empty(), [], [])
  {
  }

  lemma InSequence<T>(q: Queue<T>, size: nat)
    requires Sound(q, size)
    ensures q.taken <= q.visible <= |q.items|
  {
  }

  lemma AccountedStep<T>(q: Queue<T>, q': Queue<T>, r: Result<T>, e: Event<T>, ds: seq<nat>, drops: seq<nat>)
    requires ReadingChange(q, e, q', r) && q.taken <= q.visible && Accounted(q, ds, drops)
    ensures Accounted(q', ds + Finished(q, e), drops + DroppedNow(q, e))
  {
    hide BeingRead, Numbers, FinishedNumber, Accounted;
    assert ds + [] == ds && drops + [] == drops;
    if Finishes(q, e) {
      AccountedFinished(q, q', FinishedNumber(q, e), ds, drops);
    } else if e.Clear? {
      AccountedCleared(q, q', ds, drops);
    } else {
      AccountedOpened(q, q', ds, drops);
    }
  }

  lemma AccountedFinished<T>(q: Queue<T>, q': Queue<T>, n: nat, ds: seq<nat>, drops: seq<nat>)
    requires q'.taken == q.taken && BeingRead(q.stack) == BeingRead(q'.stack) + [n] && Accounted(q, ds, drops)
    ensures Accounted(q', ds + [n], drops)
  {
    hide BeingRead, Numbers;
  }

  lemma AccountedCleared<T>(q: Queue<T>, q': Queue<T>, ds: seq<nat>, drops: seq<nat>)
    requires q.taken <= q.visible == q'.taken && BeingRead(q'.stack) == BeingRead(q.stack) && Accounted(q, ds, drops)
    ensures Accounted(q', ds, drops + seq(q.visible - q.taken, i => q.taken + i))
  {
    hide BeingRead, Numbers;
    MoreNumbers(q.taken, q.visible);
  }

  lemma AccountedOpened<T>(q: Queue<T>, q': Queue<T>, ds: seq<nat>, drops: seq<nat>)
    requires
      || (q'.taken == q.taken && BeingRead(q'.stack) == BeingRead(q.stack))
      || (q'.taken == q.taken + 1 && BeingRead(q'.stack) == BeingRead(q.stack) + [q.taken])
    requires Accounted(q, ds, drops)
    ensures Accounted(q', ds, drops)
  {
    hide BeingRead, Numbers;
    NextNumber(q.taken);
  }

  lemma MoreNumbers(m: nat, n: nat)
    requires m <= n
    ensures multiset(Numbers(n)) == multiset(Numbers(m)) + multiset(seq(n - m, i => m + i))
  {
    assert Numbers(n) == Numbers(m) + seq(n - m, i => m + i);
  }

  // ---------- In order ----------

  /** No slot is reserved for reading while another one is being read. */
  ghost predicate GetsNotNested<T>(size: nat, es: seq<Event<T>>)
    requires size > 0
  {
    es == []
    || (var n := |es| - 1;
        GetsNotNested(size, es[..n]) && (es[n].StoreGet? ==> NoneGetting(State(size, es[..n]).stack)))
  }

  predicate Increasing(s: seq<nat>) {
    forall i, j | 0 <= i < j < |s| :: s[i] < s[j]
  }

  ghost predicate InOrder<T>(q: Queue<T>, ds: seq<nat>) {
    var s := ds + BeingRead(q.stack);
    |BeingRead(q.stack)| <= 1 && Increasing(s) && Below(s, q.taken)
  }

  lemma {:induction false} DeliveredInOrder<T>(size: nat, es: seq<Event<T>>)
    requires size > 0 && GetsNotNested(size, es)
    ensures InOrder(State(size, es), Delivered(size, es))
  {
    hide State, Spec, Finished, ReadingChange, NoneGetting, InOrder;
    if es != [] {
      var before, e := es[..|es| - 1], es[|es| - 1];
      DeliveredInOrder(size, before);
      assert es == before + [e];
      Once(size, before, e);
      DeliveredSnoc(size, before, e);
      hide Delivered;
      var q := State(size, before);
      ReadingStep(q, size, e);
      InSequence(q, size);
      InOrderStep(q, Spec(q, size, e).0, Spec(q, size, e).1, e, Delivered(size, before));
    } else {
      NothingYet<T>(size);
      NothingInOrder<T>();
    }
  }

  lemma NothingInOrder<T>()
    ensures InOrder<T>(Empty(), [])
  {
  }

  lemma InOrderStep<T>(q: Queue<T>, q': Queue<T>, r: Result<T>, e: Event<T>, ds: seq<nat>)
    requires ReadingChange(q, e, q', r) && q.taken <= q.visible && (e.StoreGet? ==> NoneGetting(q.stack))
    requires InOrder(q, ds)
    ensures InOrder(q', ds + Finished(q, e))
  {
    NothingRead(q.stack);
    hide BeingRead, FinishedNumber, NoneGetting;
    if Finishes(q, e) {
      assert |BeingRead(q.stack)| == |BeingRead(q'.stack)| + 1;
      assert ds + Finished(q, e) + BeingRead(q'.stack) == ds + BeingRead(q.stack);
    } else {
      assert ds + Finished(q, e) == ds;
      assert ds + [] == ds;
    }
  }

  /** Increasing numbers with no room for gaps. */
  lemma {:induction false} NoGap(s: seq<nat>)
    requires Increasing(s) && Below(s, |s|)
    ensures s == Numbers(|s|)
  {
    if s != [] {
      var n := |s| - 1;
      assert s[n] <= n;
      forall i | 0 <= i < n
        ensures s[..n][i] < n
      {
        assert s[i] < s[n];
      }
      NoGap(s[..n]);
      if n > 0 {
        assert s[..n][n - 1] == n - 1 && s[n - 1] < s[n];
      }
      NextNumber(n);
    }
  }

  // ---------- The FIFO ----------

  lemma InOrderSelection<T>(items: seq<T>, ds: seq<nat>, got: seq<T>)
    requires ds == Numbers(|ds|) && Selected(items, ds, got)
    ensures got <= items
  {
    if ds != [] {
      assert ds[|ds| - 1] == |ds| - 1;
    }
    forall i | 0 <= i < |got|
      ensures i < |items| && got[i] == items[i]
    {
      assert ds[i] == i;
    }
  }

  /** What a run of the FIFO reports and leaves, told from the queue. */
  lemma RunIs<T>(buf: seq<T>, es: seq<Event<T>>)
    requires |buf| > 0
    ensures
      var (f, rs) := Run(Initial(buf), es);
      rs == Reports(|buf|, es) && |rs| == |es| && |f.buf| == |buf| && Coupled(f, State(|buf|, es))
  {
    RunLinked(buf, es);
    ItemsAreAccepted(|buf|, es);
    hide Coupled, Armed, Accepted;
  }

  /**
    When gets are not nested, whatever else interrupts what, the items read
    from the FIFO are accepted items, in the order in which they were accepted.
   */
  lemma ReadInOrder<T>(buf: seq<T>, es: seq<Event<T>>)
    requires |buf| > 0 && GetsNotNested(|buf|, es)
    ensures
      var rs := Run(Initial(buf), es).1;
      |rs| == |es| && exists numbers :: Increasing(numbers) && Selected(Accepted(es, rs), numbers, ReadItems(rs))
  {
    hide Run, Reports, State, Delivered, ReadItems, Accepted, BeingRead, GetsNotNested, Coupled, Selected, Increasing;
    RunIs(buf, es);
    ItemsAreAccepted(|buf|, es);
    DeliveredAreRead(|buf|, es);
    DeliveredInOrder(|buf|, es);
    IncreasingPrefix(Delivered(|buf|, es), BeingRead(State(|buf|, es).stack));
  }

  lemma IncreasingPrefix(a: seq<nat>, b: seq<nat>)
    requires Increasing(a + b)
    ensures Increasing(a)
  {
    assert forall i | 0 <= i < |a| :: (a + b)[i] == a[i];
  }

  /** If the FIFO is not cleared either, there is no gap and no repetition. */
  lemma ReadWithoutGap<T>(buf: seq<T>, es: seq<Event<T>>)
    requires |buf| > 0 && NeverCleared(es) && GetsNotNested(|buf|, es)
    ensures
      var rs := Run(Initial(buf), es).1;
      |rs| == |es| && ReadItems(rs) <= Accepted(es, rs)
  {
    hide Run, Reports, State, Delivered, Dropped, ReadItems, Accepted, BeingRead, GetsNotNested, Coupled, Selected;
    var size := |buf|;
    RunIs(buf, es);
    ItemsAreAccepted(size, es);
    DeliveredAreRead(size, es);
    DeliveredInOrder(size, es);
    ExactlyOnce(size, es);
    NothingDropped(size, es);
    AllInOrder(State(size, es), Delivered(size, es));
    InOrderSelection(State(size, es).items, Delivered(size, es), ReadItems(Reports(size, es)));
  }

  lemma AllInOrder<T>(q: Queue<T>, ds: seq<nat>)
    requires InOrder(q, ds) && Accounted(q, ds, [])
    ensures ds == Numbers(|ds|)
  {
    var s := ds + BeingRead(q.stack);
    hide BeingRead;
    assert multiset(s) == multiset(Numbers(q.taken));
    SameSize(s, Numbers(q.taken));
    NoGap(s);
    assert ds == s[..|ds|];
  }

  // ---------- Conservation ----------

  /** The contents of the slots that are being read. */
  function SlotsBeingRead<T>(buf: seq<T>, frames: seq<Frame<T>>): seq<T>
    requires forall i | 0 <= i < |frames| :: Inside(frames[i], |buf|)
  {
    if frames == [] then []
    else
      var top := |frames| - 1;
      assert Inside(frames[top], |buf|);
      SlotsBeingRead(buf, frames[..top]) + if frames[top].GetFrame? then [buf[frames[top].lastHead.rd]] else []
  }

  predicate BeingWritten<T>(f: Fifo<T>, p: nat) {
    exists i :: 0 <= i < |f.frames| && WritesTo(f.frames[i], p)
  }

  predicate WritesTo<T>(frame: Frame<T>, p: nat) {
    frame.PutFrame? && !frame.copied && frame.lastTail.wr == p
  }

  lemma {:induction false} SlotsHoldItems<T>(f: Fifo<T>, q: Queue<T>, n: nat)
    requires Coupled(f, q) && Shape(f) && n <= |q.stack|
    ensures Selected(q.items, BeingRead(q.stack[..n]), SlotsBeingRead(f.buf, f.frames[..n]))
  {
    hide Selected, FrameMatches, Holds, BeingCopied, NonePutting, NoneGetting, Counts, Position;
    if n == 0 {
      NoneSelected(q.items);
    } else {
      SlotsHoldItems(f, q, n - 1);
      assert q.stack[..n][..n - 1] == q.stack[..n - 1] && f.frames[..n][..n - 1] == f.frames[..n - 1];
      SlotHoldsItem(f, q, n - 1);
      var slot := if f.frames[n - 1].GetFrame? then [f.buf[f.frames[n - 1].lastHead.rd]] else [];
      SelectedBoth(q.items, BeingRead(q.stack[..n - 1]), SlotsBeingRead(f.buf, f.frames[..n - 1]),
                   NumberRead(q.stack[n - 1]), slot);
    }
  }

  lemma NoneSelected<T>(items: seq<T>)
    ensures Selected(items, [], [])
  {
  }

  lemma SlotHoldsItem<T>(f: Fifo<T>, q: Queue<T>, i: nat)
    requires Coupled(f, q) && i < |q.stack|
    ensures f.frames[i].GetFrame? ==> f.frames[i].lastHead.rd < |f.buf|
    ensures Selected(q.items, NumberRead(q.stack[i]),
                     if f.frames[i].GetFrame? then [f.buf[f.frames[i].lastHead.rd]] else [])
  {
    if q.stack[i].Getting? {
      SlotStable(f, q, i);
    }
    assert FrameMatches(f, q, i);
    hide Holds, BeingCopied, NonePutting, NoneGetting, Counts, Position;
  }

  /** What a clear drops is still in its slots, complete. */
  lemma DroppedHeld<T>(f: Fifo<T>, q: Queue<T>)
    requires Coupled(f, q)
    ensures forall k | q.taken <= k < q.visible :: f.buf[Position(k, |f.buf|)] == q.items[k]
  {
    hide NonePutting, NoneGetting, Position;
    forall k | q.taken <= k < q.visible
      ensures !BeingCopied(q, k)
    {
      forall i | 0 <= i < |q.stack|
        ensures q.stack[i] != Putting(k, false)
      {
        assert FrameMatches(f, q, i);
      }
    }
    hide BeingCopied;
  }

  /** The items that have been dropped by clearing. */
  ghost function DroppedItems<T>(size: nat, es: seq<Event<T>>): seq<T>
    requires size > 0
  {
    if es == [] then []
    else
      var n := |es| - 1;
      DroppedItems(size, es[..n]) + ItemsDroppedNow(State(size, es[..n]), es[n])
  }

  function ItemsDroppedNow<T>(q: Queue<T>, e: Event<T>): seq<T> {
    if e.Clear? && q.taken <= q.visible <= |q.items| then q.items[q.taken..q.visible] else []
  }

  lemma {:induction false} DroppedSelected<T>(size: nat, es: seq<Event<T>>)
    requires size > 0
    ensures Selected(State(size, es).items, Dropped(size, es), DroppedItems(size, es))
  {
    hide Spec, State, DroppedNow, ItemsDroppedNow, Selected;
    if es != [] {
      var before, e := es[..|es| - 1], es[|es| - 1];
      DroppedSelected(size, before);
      assert es == before + [e];
      Once(size, before, e);
      DroppedSnoc(size, before, e);
      hide Dropped;
      var q := State(size, before);
      InSequence(q, size);
      SpecSound(q, size, e);
      hide Numbered, MonitorSound;
      DroppedStep(q, Spec(q, size, e).0.items, e, Dropped(size, before), DroppedItems(size, before));
    } else {
      NothingYet<T>(size);
    }
  }

  lemma DroppedStep<T>(q: Queue<T>, items: seq<T>, e: Event<T>, numbers: seq<nat>, dropped: seq<T>)
    requires q.taken <= q.visible <= |q.items| && q.items <= items && Selected(q.items, numbers, dropped)
    ensures Selected(items, numbers + DroppedNow(q, e), dropped + ItemsDroppedNow(q, e))
  {
  }

  /**
    Conservation at every point of every run, with puts and gets nested in any
    way: what has been read, what is in the slots being read, and what clearing
    has dropped are together a permutation of the first accepted items; the
    slots from there up to the write position hold the others, in order, but
    for those being written.
   */
  lemma Conserved<T>(buf: seq<T>, es: seq<Event<T>>)
    requires |buf| > 0
    ensures
      var (f, rs) := Run(Initial(buf), es);
      && |rs| == |es| && |f.buf| == |buf|
      && var items := Accepted(es, rs);
      && var out := ReadItems(rs) + SlotsBeingRead(f.buf, f.frames) + DroppedItems(|buf|, es);
      && |out| <= |items| < |out| + |buf|
      && multiset(out) == multiset(items[..|out|])
      && f.head.rd == Position(|out|, |buf|) && f.tail.wr == Position(|items|, |buf|)
      && forall k | |out| <= k < |items| && !BeingWritten(f, Position(k, |buf|)) ::
           f.buf[Position(k, |buf|)] == items[k]
  {
    hide Run, Reports, State, Delivered, Dropped, DroppedItems, ReadItems, Accepted, BeingRead, Numbers;
    hide Coupled, Holds, BeingCopied, FrameMatches, SlotsBeingRead, Selected, BeingWritten, Position;
    var size := |buf|;
    var f, q := Run(Initial(buf), es).0, State(size, es);
    var ds, reading, drops := Delivered(size, es), BeingRead(q.stack), Dropped(size, es);
    var got, slots := ReadItems(Reports(size, es)), SlotsBeingRead(f.buf, f.frames);
    RunIs(buf, es);
    ItemsAreAccepted(size, es);
    DeliveredAreRead(size, es);
    DroppedSelected(size, es);
    SlotsHoldItems(f, q, |q.stack|);
    SameDepth(f, q);
    assert q.stack[..|q.stack|] == q.stack && f.frames[..|q.stack|] == f.frames;
    ExactlyOnce(size, es);
    SelectedBoth(q.items, ds, got, reading, slots);
    SelectedBoth(q.items, ds + reading, got + slots, drops, DroppedItems(size, es));
    FirstSelected(q.items, q.taken, ds + reading + drops, got + slots + DroppedItems(size, es));
    HeldAfter(f, q);
  }

  lemma SelectedBoth<T>(items: seq<T>, a: seq<nat>, s: seq<T>, b: seq<nat>, t: seq<T>)
    requires Selected(items, a, s) && Selected(items, b, t)
    ensures Selected(items, a + b, s + t)
  {
  }

  /** Where head, tail and the items not yet taken are. */
  lemma HeldAfter<T>(f: Fifo<T>, q: Queue<T>)
    requires Coupled(f, q)
    ensures q.taken <= |q.items| < q.taken + |f.buf|
    ensures f.head.rd == Position(q.taken, |f.buf|) && f.tail.wr == Position(|q.items|, |f.buf|)
    ensures forall k | q.taken <= k < |q.items| && !BeingWritten(f, Position(k, |f.buf|)) ::
              f.buf[Position(k, |f.buf|)] == q.items[k]
  {
    hide NonePutting, NoneGetting, FrameMatches, WritesTo, Position, BeingWritten;
    forall k | q.taken <= k < |q.items| && BeingCopied(q, k)
      ensures BeingWritten(f, Position(k, |f.buf|))
    {
      var i :| 0 <= i < |q.stack| && q.stack[i] == Putting(k, false);
      Writing(f, q, i);
    }
    hide BeingCopied;
  }

  lemma Writing<T>(f: Fifo<T>, q: Queue<T>, i: nat)
    requires Coupled(f, q) && i < |q.stack| && q.stack[i].Putting? && !q.stack[i].copied
    ensures BeingWritten(f, Position(q.stack[i].number, |f.buf|))
  {
    hide NonePutting, NoneGetting, Position, Holds, Counts;
    assert FrameMatches(f, q, i);
    assert WritesTo(f.frames[i], Position(q.stack[i].number, |f.buf|));
  }

  /**
    When nothing is in progress, head and tail say so; if the FIFO has not been
    cleared, the items read are a permutation of the first accepted ones, and
    the buffer holds all others.
   */
  lemma NothingLost<T>(buf: seq<T>, es: seq<Event<T>>)
    requires |buf| > 0 && NeverCleared(es)
    requires Run(Initial(buf), es).0.frames == []
    ensures
      var (f, rs) := Run(Initial(buf), es);
      && |rs| == |es| && |f.buf| == |buf|
      && var got := ReadItems(rs);
      && var items := Accepted(es, rs);
      && |got| <= |items|
      && multiset(got) == multiset(items[..|got|])
      && f.head == Tag(Position(|got|, |buf|), Position(|got|, |buf|))
      && f.tail == Tag(Position(|items|, |buf|), Position(|items|, |buf|))
      && forall k | |got| <= k < |items| :: f.buf[Position(k, |buf|)] == items[k]
  {
    hide Run, Reports, State, ReadItems, Accepted, NeverCleared, Coupled, Position, DroppedItems;
    var f, rs := Run(Initial(buf), es).0, Run(Initial(buf), es).1;
    Conserved(buf, es);
    NoItemsDropped(|buf|, es);
    RunIs(buf, es);
    SameDepth(f, State(|buf|, es));
    TagComparisons(f, State(|buf|, es));
    assert ReadItems(rs) + [] + [] == ReadItems(rs);
  }

  lemma {:induction false} NoItemsDropped<T>(size: nat, es: seq<Event<T>>)
    requires size > 0 && NeverCleared(es)
    ensures DroppedItems(size, es) == []
  {
    hide State;
    if es != [] {
      NoItemsDropped(size, es[..|es| - 1]);
    }
  }

  lemma SameDepth<T>(f: Fifo<T>, q: Queue<T>)
    requires Coupled(f, q)
    ensures |f.frames| == |q.stack|
  {
  }

  /** Numbers in any order select the same items. */
  lemma FirstSelected<T>(items: seq<T>, n: nat, numbers: seq<nat>, selected: seq<T>)
    requires n <= |items| && Selected(items, numbers, selected) && multiset(numbers) == multiset(Numbers(n))
    ensures |selected| == n && multiset(selected) == multiset(items[..n])
  {
    SameSize(numbers, Numbers(n));
    SelectedItems(items, numbers, selected);
    SelectedItems(items, Numbers(n), items[..n]);
    ItemsOfSame(items, numbers, Numbers(n));
    hide ItemsOf;
  }

  lemma SameSize(a: seq<nat>, b: seq<nat>)
    requires multiset(a) == multiset(b)
    ensures |a| == |b|
  {
    assert |multiset(a)| == |a| && |multiset(b)| == |b|;
  }

  predicate Below(numbers: seq<nat>, n: nat) {
    forall i | 0 <= i < |numbers| :: numbers[i] < n
  }

  /** The items with the given numbers, as a multiset. */
  function ItemsOf<T(==)>(items: seq<T>, numbers: seq<nat>): multiset<T>
    requires Below(numbers, |items|)
  {
    if numbers == [] then multiset{}
    else
      var n := |numbers| - 1;
      ItemsOf(items, numbers[..n]) + multiset{items[numbers[n]]}
  }

  lemma {:induction false} SelectedItems<T>(items: seq<T>, numbers: seq<nat>, selected: seq<T>)
    requires Selected(items, numbers, selected)
    ensures Below(numbers, |items|)
    ensures multiset(selected) == ItemsOf(items, numbers)
  {
    if numbers == [] {
      assert selected == [];
    } else {
      var n := |numbers| - 1;
      SelectedItems(items, numbers[..n], selected[..n]);
      assert selected == selected[..n] + [selected[n]];
    }
  }

  lemma ItemsOfSnoc<T>(items: seq<T>, numbers: seq<nat>, x: nat)
    requires Below(numbers, |items|) && x < |items|
    ensures Below(numbers + [x], |items|)
    ensures ItemsOf(items, numbers + [x]) == ItemsOf(items, numbers) + multiset{items[x]}
  {
    assert (numbers + [x])[..|numbers|] == numbers;
  }

  lemma BelowBoth(a: seq<nat>, b: seq<nat>, n: nat)
    ensures Below(a + b, n) <==> Below(a, n) && Below(b, n)
  {
    assert forall i | 0 <= i < |a| :: (a + b)[i] == a[i];
    assert forall i | 0 <= i < |b| :: (a + b)[|a| + i] == b[i];
  }

  lemma {:induction false} ItemsOfMoved<T>(items: seq<T>, a: seq<nat>, x: nat, b: seq<nat>)
    requires Below(a + b, |items|) && x < |items|
    ensures Below(a + [x] + b, |items|)
    ensures ItemsOf(items, a + [x] + b) == ItemsOf(items, a + b) + multiset{items[x]}
  {
    hide Below, ItemsOf;
    BelowBoth(a, b, |items|);
    if b == [] {
      assert a + [x] + b == a + [x] && a + b == a;
      ItemsOfSnoc(items, a, x);
    } else {
      var b', y := b[..|b| - 1], b[|b| - 1];
      assert b == b' + [y];
      BelowLast(b, |items|);
      BelowBoth(a, b', |items|);
      ItemsOfMoved(items, a, x, b');
      ItemsOfSnoc(items, a + [x] + b', y);
      ItemsOfSnoc(items, a + b', y);
      assert a + [x] + b == a + [x] + b' + [y] && a + b == a + b' + [y];
    }
  }

  lemma BelowLast(b: seq<nat>, n: nat)
    requires b != [] && Below(b, n)
    ensures Below(b[..|b| - 1], n) && b[|b| - 1] < n
  {
  }

  /** Numbers in another order select the same items. */
  lemma {:induction false} ItemsOfSame<T>(items: seq<T>, a: seq<nat>, b: seq<nat>)
    requires multiset(a) == multiset(b) && Below(a, |items|) && Below(b, |items|)
    ensures ItemsOf(items, a) == ItemsOf(items, b)
  {
    SameSize(a, b);
    if a == [] {
      assert b == [];
    } else {
      hide Below, ItemsOf;
      var a', x := a[..|a| - 1], a[|a| - 1];
      assert a == a' + [x];
      BelowLast(a, |items|);
      var b1, b2 := Without(b, x);
      BelowBoth(b1 + [x], b2, |items|);
      BelowBoth(b1, [x], |items|);
      BelowBoth(b1, b2, |items|);
      ItemsOfSame(items, a', b1 + b2);
      ItemsOfSnoc(items, a', x);
      ItemsOfMoved(items, b1, x, b2);
    }
  }

  lemma Without(s: seq<nat>, x: nat) returns (s1: seq<nat>, s2: seq<nat>)
    requires x in multiset(s)
    ensures s == s1 + [x] + s2
    ensures multiset(s1 + s2) == multiset(s) - multiset{x}
  {
    var i :| 0 <= i < |s| && s[i] == x;
    s1, s2 := s[..i], s[i + 1..];
    assert s == s1 + [x] + s2;
  }
}
