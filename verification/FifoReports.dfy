/**
  What the calls that close a transaction, or clear the FIFO, report to their
  callers.
 */
module FifoReports {

  import opened AtomicFifo
  import opened FifoReservations

  /**
    A report of visibility comes from every commit of a put that has been
    copied, and an item from every flush.  A store is made, or starts the
    reservation over, depending on whether an interrupt has come since the load.
   */
  lemma WhenReported<T>(buf: seq<T>, es: seq<Event<T>>, e: Event<T>)
    requires |buf| > 0
    ensures
      var q := State(|buf|, es);
      var top := |q.stack| - 1;
      var r := Next(buf, es, e);
      && (r.Closed? <==> e.Commit? && top >= 0 && q.stack[top].Putting? && q.stack[top].copied)
      && (r.Read? <==> e.Flush? && top >= 0 && q.stack[top].Getting? && q.stack[top].copied)
      && (r.Opened? || r.Retried? <==>
            top >= 0 && Waiting(q.stack[top]) && q.stack[top].stage.Compared?
            && if q.stack[top].PutWaiting? then e.StorePut? else e.StoreGet?)
      && (r.Opened? ==> q.monitor) && (r.Retried? ==> !q.monitor)
      && (r.Read? ==> q.stack[top].number < |q.items| && r.item == q.items[q.stack[top].number])
  {
    hide Next, State, Run, Linked, NonePutting, NoneGetting, PutRefused, GetRefused;
    NextIsSpec(buf, es, e);
  }

  // ---------- Commit ----------

  /** What it means that a put, running in `q` and committed in `q'`, was effective: its item is visible, as all are. */
  predicate MadeVisible<T>(q: Queue<T>, q': Queue<T>, effective: bool) {
    var top := |q.stack| - 1;
    && top >= 0 && q.stack[top].Putting?
    && (effective <==> q.stack[top].number < q'.visible)
    && (effective <==> q'.visible == |q'.items|)
    && (effective <==> NonePutting(q'.stack))
  }

  /**
    A commit reports whether the item it has put is visible now; it is exactly
    when all items are, that is, when no other put is in progress.
   */
  lemma CommitReports<T>(buf: seq<T>, es: seq<Event<T>>, e: Event<T>)
    requires |buf| > 0 && Next(buf, es, e).Closed?
    ensures MadeVisible(State(|buf|, es), State(|buf|, es + [e]), Next(buf, es, e).effective)
  {
    hide Next, State, Run, Coupled, Armed, Step, Spec;
    var f, q := Run(Initial(buf), es).0, State(|buf|, es);
    NextIsSpec(buf, es, e);
    Once(|buf|, es, e);
    StepAgrees(f, q, e);
    ClosedStep(f, q, e);
    Pending(Step(f, e).0, Spec(q, |buf|, e).0);
  }

  lemma ClosedStep<T>(f: Fifo<T>, q: Queue<T>, e: Event<T>)
    requires Coupled(f, q) && Sound(q, |f.buf|) && Spec(q, |f.buf|, e).1.Closed?
    ensures
      var q' := Spec(q, |f.buf|, e).0;
      var top := |q.stack| - 1;
      && top >= 0 && q.stack[top].Putting? && q.visible <= q.stack[top].number < |q.items|
      && q'.items == q.items && q'.visible == (if NonePutting(q'.stack) then |q.items| else q.visible)
      && (Spec(q, |f.buf|, e).1.effective <==> NonePutting(q'.stack))
  {
    hide NonePutting, NoneGetting, PutRefused, GetRefused, Holds, BeingCopied, Position;
    assert FrameMatches(f, q, |q.stack| - 1);
  }

  // ---------- Flush ----------

  /** What it means that a get, running in `q` and flushed in `q'`, has released its space: all taken space is free. */
  predicate Released<T>(q: Queue<T>, q': Queue<T>, released: bool) {
    var top := |q.stack| - 1;
    && top >= 0 && q.stack[top].Getting?
    && (released <==> q.stack[top].number < q'.released)
    && (released <==> q'.released == q'.taken)
    && (released <==> NoneGetting(q'.stack))
  }

  /**
    A flush reports whether the space of the item it has read is released now;
    it is exactly when that of all items taken is, that is, when no other get
    is in progress.
   */
  lemma FlushReports<T>(buf: seq<T>, es: seq<Event<T>>, e: Event<T>)
    requires |buf| > 0 && Next(buf, es, e).Read?
    ensures Released(State(|buf|, es), State(|buf|, es + [e]), Next(buf, es, e).released)
  {
    hide Next, State, Run, Coupled, Armed, Step, Spec;
    var f, q := Run(Initial(buf), es).0, State(|buf|, es);
    NextIsSpec(buf, es, e);
    Once(|buf|, es, e);
    StepAgrees(f, q, e);
    ReadStep(f, q, e);
    Pending(Step(f, e).0, Spec(q, |buf|, e).0);
  }

  lemma ReadStep<T>(f: Fifo<T>, q: Queue<T>, e: Event<T>)
    requires Coupled(f, q) && Sound(q, |f.buf|) && Spec(q, |f.buf|, e).1.Read?
    ensures
      var q' := Spec(q, |f.buf|, e).0;
      var top := |q.stack| - 1;
      && top >= 0 && q.stack[top].Getting? && q.released <= q.stack[top].number < q.taken
      && q'.taken == q.taken && q'.released == (if NoneGetting(q'.stack) then q.taken else q.released)
      && (Spec(q, |f.buf|, e).1.released <==> NoneGetting(q'.stack))
  {
    hide NonePutting, NoneGetting, PutRefused, GetRefused, Holds, BeingCopied, Position;
    assert FrameMatches(f, q, |q.stack| - 1);
  }

  // ---------- Clear ----------

  /** Clearing reports success exactly when the FIFO is empty afterwards, with nothing in progress. */
  lemma ClearReports<T>(f: Fifo<T>, q: Queue<T>)
    requires Linked(f, q)
    ensures Shape(f)
    ensures
      var (f', r) := Step(f, Clear);
      r == Cleared(f'.head == f'.tail && f'.head.wr == f'.head.rd)
  {
    CoupledShape(f, q);
    Pending(f, q);
    TagComparisons(f, q);
    hide FrameMatches, Holds, BeingCopied, NonePutting, NoneGetting, Position, Armed, Shape;
    SamePosition(q.released, q.visible, |f.buf|);
  }

  /**
    In terms of the queue: success means that nothing that was ever put is left
    or being put, and all space is released; and, since everything visible has
    been dropped, only transactions in progress can stand in the way.
   */
  lemma ClearReportsOfRun<T>(buf: seq<T>, es: seq<Event<T>>)
    requires |buf| > 0
    ensures
      var q, q' := State(|buf|, es), State(|buf|, es + [Clear]);
      && Next(buf, es, Clear) == Cleared(q'.released == |q'.items|)
      && (q'.released == |q'.items| <==> NonePutting(q.stack) && NoneGetting(q.stack))
  {
    hide Next, State, Run, Coupled, Armed, Step;
    var f, q := Run(Initial(buf), es).0, State(|buf|, es);
    NextIsSpec(buf, es, Clear);
    Once(|buf|, es, Clear);
    StepAgrees(f, q, Clear);
    Pending(f, q);
    ClearedCounts(f, q);
    hide NonePutting, NoneGetting;
  }

  lemma ClearedCounts<T>(f: Fifo<T>, q: Queue<T>)
    requires Coupled(f, q)
    ensures q.released <= q.taken <= q.visible <= |q.items|
    ensures !NoneGetting(q.stack) ==> q.released < q.visible
  {
    Pending(f, q);
    hide Holds, FrameMatches, NonePutting, NoneGetting, Position;
  }
}
