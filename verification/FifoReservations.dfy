/**
  When a reservation in the atomic FIFO succeeds, and when it is refused.

  A success is decided by the store, at an instant at which there is room, or
  an item to read.  A refusal is decided by comparing a tag that was loaded
  before with one that is read now.  It has a cause when nothing has come in
  between, but interrupts in between can bring about a refusal without cause.
 */
module FifoReservations {

  import opened AtomicFifo

  predicate Full<T>(q: Queue<T>, size: nat) {
    |q.items| - q.released == size - 1
  }

  /** What the FIFO reports for one more event after a run. */
  ghost function Next<T>(buf: seq<T>, es: seq<Event<T>>, e: Event<T>): Result<T>
    requires |buf| > 0
  {
    Step(Run(Initial(buf), es).0, e).1
  }

  lemma NextIsSpec<T>(buf: seq<T>, es: seq<Event<T>>, e: Event<T>)
    requires |buf| > 0
    ensures Linked(Run(Initial(buf), es).0, State(|buf|, es)) && |Run(Initial(buf), es).0.buf| == |buf|
    ensures Next(buf, es, e) == Spec(State(|buf|, es), |buf|, e).1
  {
    RunLinked(buf, es);
    StepAgrees(Run(Initial(buf), es).0, State(|buf|, es), e);
    hide Linked, Step, Spec, Run, RunSpec;
  }

  /**
    A put is only granted at an instant at which the queue is not full, and a
    get at one at which there is an item to take; it takes effect then.
   */
  lemma GrantedWithCause<T>(buf: seq<T>, es: seq<Event<T>>, e: Event<T>)
    requires |buf| > 0 && Next(buf, es, e) == Opened
    ensures
      var q := State(|buf|, es);
      var q' := State(|buf|, es + [e]);
      match e
      case StorePut(item) =>
        !Full(q, |buf|) && q' == q.(items := q.items + [item], stack := q'.stack, monitor := false)
      case StoreGet =>
        q.taken < q.visible && q' == q.(taken := q.taken + 1, stack := q'.stack, monitor := false)
      case _ => false
  {
    hide Linked, Next, State, Run, Spec;
    NextIsSpec(buf, es, e);
    Once(|buf|, es, e);
    OpenedStep(State(|buf|, es), |buf|, e);
  }

  lemma OpenedStep<T>(q: Queue<T>, size: nat, e: Event<T>)
    requires size > 0 && Sound(q, size) && Spec(q, size, e).1 == Opened
    ensures
      var q' := Spec(q, size, e).0;
      match e
      case StorePut(item) =>
        !Full(q, size) && q' == q.(items := q.items + [item], stack := q'.stack, monitor := false)
      case StoreGet =>
        q.taken < q.visible && q' == q.(taken := q.taken + 1, stack := q'.stack, monitor := false)
      case _ => false
  {
    hide PutRefused, GetRefused, NonePutting, NoneGetting;
  }

  /** A refusal is found by the comparison, after a load, and leaves no trace. */
  lemma RefusedWithoutEffect<T>(buf: seq<T>, es: seq<Event<T>>, e: Event<T>)
    requires |buf| > 0 && Next(buf, es, e) == Refused
    ensures
      var q := State(|buf|, es);
      && e == Compare && q.stack != []
      && Waiting(q.stack[|q.stack| - 1]) && q.stack[|q.stack| - 1].stage.Loaded?
      && State(|buf|, es + [e]) == q.(stack := q.stack[..|q.stack| - 1], monitor := false)
  {
    hide Linked, Next, State, Run, Spec;
    NextIsSpec(buf, es, e);
    Once(|buf|, es, e);
    RefusedStep(State(|buf|, es), |buf|, e);
  }

  lemma RefusedStep<T>(q: Queue<T>, size: nat, e: Event<T>)
    requires size > 0 && Sound(q, size) && Spec(q, size, e).1 == Refused
    ensures e == Compare && q.stack != [] && Waiting(q.stack[|q.stack| - 1]) && q.stack[|q.stack| - 1].stage.Loaded?
    ensures Spec(q, size, e).0 == q.(stack := q.stack[..|q.stack| - 1], monitor := false)
  {
    hide PutRefused, GetRefused, NonePutting, NoneGetting;
  }

  /**
    When a put is refused that has loaded `count` as the number of items:
    exactly when the loaded count makes a round with what is released now.  The
    refusal has a cause if the round is the one after; the queue is full then,
    and was when the count was loaded.  It has none if items have been put and
    released in between, so that whole rounds have passed, and the queue is not
    full.  Undisturbed, a put is refused exactly when the queue is full.
   */
  lemma PutRefusedExactly<T>(buf: seq<T>, es: seq<Event<T>>, count: nat)
    requires |buf| > 0
    requires
      var q := State(|buf|, es);
      q.stack != [] && q.stack[|q.stack| - 1] == PutWaiting(Loaded(count))
    ensures
      var q := State(|buf|, es);
      var refused := Next(buf, es, Compare) == Refused;
      var around := q.released > count && WholeRounds(q.released - (count + 1), |buf|);
      && (refused <==> count + 1 == q.released + |buf| || around)
      && (count + 1 == q.released + |buf| ==> Full(q, |buf|) && count == |q.items|)
      && (q.monitor ==> (refused <==> Full(q, |buf|)))
  {
    hide Next, State, Run, Linked, Spec;
    NextIsSpec(buf, es, Compare);
    ComparedPut(Run(Initial(buf), es).0, State(|buf|, es), count);
    hide WholeRounds, Sound;
  }

  lemma ComparedPut<T>(f: Fifo<T>, q: Queue<T>, count: nat)
    requires Linked(f, q) && Sound(q, |f.buf|) && q.stack != [] && q.stack[|q.stack| - 1] == PutWaiting(Loaded(count))
    ensures count <= |q.items| < q.released + |f.buf|
    ensures q.monitor ==> count == |q.items|
    ensures Spec(q, |f.buf|, Compare).1 == if PutRefused(q, count, |f.buf|) then Refused else Nothing
  {
    hide PutRefused, Holds, BeingCopied, NonePutting, NoneGetting, Position;
    assert FrameMatches(f, q, |q.stack| - 1);
  }

  /**
    When a get is refused that has loaded `count` as the number of items taken:
    exactly when whole rounds of items are visible after it.  The refusal has a
    cause if these are none; then nothing is left to take, and nothing was when
    the count was loaded.  Undisturbed, a get is refused exactly when there is
    nothing to take.
   */
  lemma GetRefusedExactly<T>(buf: seq<T>, es: seq<Event<T>>, count: nat)
    requires |buf| > 0
    requires
      var q := State(|buf|, es);
      q.stack != [] && q.stack[|q.stack| - 1] == GetWaiting(Loaded(count))
    ensures
      var q := State(|buf|, es);
      var refused := Next(buf, es, Compare) == Refused;
      var around := q.visible > count && WholeRounds(q.visible - count, |buf|);
      && (refused <==> count == q.visible || around)
      && (count == q.visible ==> q.taken == q.visible && count == q.taken)
      && (q.monitor ==> (refused <==> q.taken == q.visible))
  {
    hide Next, State, Run, Linked, Spec;
    NextIsSpec(buf, es, Compare);
    ComparedGet(Run(Initial(buf), es).0, State(|buf|, es), count);
    OneRound(|buf|);
    if count == State(|buf|, es).taken {
      WithinRound(State(|buf|, es), count, |buf|);
    }
    hide WholeRounds, Sound;
  }

  lemma ComparedGet<T>(f: Fifo<T>, q: Queue<T>, count: nat)
    requires Linked(f, q) && Sound(q, |f.buf|) && q.stack != [] && q.stack[|q.stack| - 1] == GetWaiting(Loaded(count))
    ensures count <= q.taken <= q.visible
    ensures q.monitor ==> count == q.taken
    ensures Spec(q, |f.buf|, Compare).1 == if GetRefused(q, count, |f.buf|) then Refused else Nothing
  {
    hide GetRefused, Holds, BeingCopied, NonePutting, NoneGetting, Position;
    assert FrameMatches(f, q, |q.stack| - 1);
  }

  /** Less than a round of items can be visible and not taken. */
  lemma WithinRound<T>(q: Queue<T>, count: nat, size: nat)
    requires size > 0 && Sound(q, size) && count == q.taken
    ensures q.visible > count ==> !WholeRounds(q.visible - count, size)
  {
    hide MonitorSound;
  }

  lemma OneRound(size: nat)
    requires size > 0
    ensures WholeRounds(0, size) && WholeRounds(size, size) && (size > 1 ==> !WholeRounds(1, size))
  {
  }

  // ---------- Transactions without interruption ----------

  /** The events of a whole put. */
  function PutEvents<T>(item: T): seq<Event<T>> {
    [BeginPut, Load, Compare, StorePut(item), CopyIn, Commit]
  }

  function GetEvents<T>(): seq<Event<T>> {
    [BeginGet, Load, Compare, StoreGet, CopyOut, Flush]
  }

  lemma ComparisonPasses<T>(q: Queue<T>, size: nat)
    requires size > 0 && Sound(q, size)
    ensures PutRefused(q, |q.items|, size) <==> Full(q, size)
    ensures GetRefused(q, q.taken, size) <==> q.taken == q.visible
  {
    hide MonitorSound;
  }

  lemma OneMore(stack: seq<Activity>, a: Activity)
    ensures (stack + [a])[..|stack|] == stack
    ensures forall b :: (stack + [a])[|stack| := b] == stack + [b]
  {
  }

  lemma PutOpens<T>(size: nat, es: seq<Event<T>>)
    requires size > 0 && !Full(State(size, es), size)
    ensures
      var q := State(size, es);
      State(size, es + [BeginPut] + [Load] + [Compare])
      == q.(stack := q.stack + [PutWaiting(Compared(|q.items|))], monitor := true)
  {
    hide State, PutRefused, NonePutting, NoneGetting;
    var q := State(size, es);
    ComparisonPasses(State(size, es + [BeginPut] + [Load]), size);
    hide Sound;
    OneMore(q.stack, PutWaiting(Begun));
    OneMore(q.stack, PutWaiting(Loaded(|q.items|)));
    Once(size, es, BeginPut);
    Once(size, es + [BeginPut], Load);
    Once(size, es + [BeginPut] + [Load], Compare);
  }

  lemma PutCloses<T>(size: nat, es: seq<Event<T>>, q: Queue<T>, item: T)
    requires size > 0 && NonePutting(q.stack)
    requires State(size, es) == q.(stack := q.stack + [PutWaiting(Compared(|q.items|))], monitor := true)
    ensures
      State(size, es + [StorePut(item)] + [CopyIn] + [Commit])
      == q.(items := q.items + [item], visible := |q.items| + 1, monitor := false)
  {
    hide State, NonePutting, NoneGetting, Sound;
    OneMore(q.stack, PutWaiting(Compared(|q.items|)));
    OneMore(q.stack, Putting(|q.items|, false));
    OneMore(q.stack, Putting(|q.items|, true));
    Once(size, es, StorePut(item));
    var items := q.items + [item];
    assert State(size, es + [StorePut(item)])
        == q.(items := items, stack := q.stack + [Putting(|q.items|, false)], monitor := false);
    Once(size, es + [StorePut(item)], CopyIn);
    assert State(size, es + [StorePut(item)] + [CopyIn])
        == q.(items := items, stack := q.stack + [Putting(|q.items|, true)], monitor := false);
    Once(size, es + [StorePut(item)] + [CopyIn], Commit);
    assert (q.stack + [Putting(|q.items|, true)])[..|q.stack + [Putting(|q.items|, true)]| - 1] == q.stack;
  }

  /** A whole put, while no other one is in progress and the queue is not full, makes its item visible. */
  lemma WholePut<T>(size: nat, es: seq<Event<T>>, item: T)
    requires size > 0 && NonePutting(State(size, es).stack) && !Full(State(size, es), size)
    ensures
      var q := State(size, es);
      State(size, es + PutEvents(item))
      == q.(items := q.items + [item], visible := |q.items| + 1, monitor := false)
  {
    hide State, NonePutting, Full;
    var es3 := es + [BeginPut] + [Load] + [Compare];
    PutOpens(size, es);
    PutCloses(size, es3, State(size, es), item);
    assert es3 + [StorePut(item)] + [CopyIn] + [Commit] == es + PutEvents(item);
  }

  lemma GetOpens<T>(size: nat, es: seq<Event<T>>)
    requires size > 0 && State(size, es).taken < State(size, es).visible
    ensures
      var q := State(size, es);
      State(size, es + [BeginGet] + [Load] + [Compare])
      == q.(stack := q.stack + [GetWaiting(Compared(q.taken))], monitor := true)
  {
    hide State, GetRefused, NonePutting, NoneGetting;
    var q := State(size, es);
    ComparisonPasses(State(size, es + [BeginGet] + [Load]), size);
    hide Sound;
    OneMore(q.stack, GetWaiting(Begun));
    OneMore(q.stack, GetWaiting(Loaded(q.taken)));
    Once(size, es, BeginGet);
    Once(size, es + [BeginGet], Load);
    Once(size, es + [BeginGet] + [Load], Compare);
  }

  lemma GetCloses<T>(size: nat, es: seq<Event<T>>, q: Queue<T>)
    requires size > 0 && NoneGetting(q.stack)
    requires State(size, es) == q.(stack := q.stack + [GetWaiting(Compared(q.taken))], monitor := true)
    ensures
      State(size, es + [StoreGet] + [CopyOut] + [Flush])
      == q.(taken := q.taken + 1, released := q.taken + 1, monitor := false)
  {
    hide State, NonePutting, NoneGetting, Sound;
    OneMore(q.stack, GetWaiting(Compared(q.taken)));
    OneMore(q.stack, Getting(q.taken, false));
    OneMore(q.stack, Getting(q.taken, true));
    Once(size, es, StoreGet);
    assert State(size, es + [StoreGet])
        == q.(taken := q.taken + 1, stack := q.stack + [Getting(q.taken, false)], monitor := false);
    Once(size, es + [StoreGet], CopyOut);
    assert State(size, es + [StoreGet] + [CopyOut])
        == q.(taken := q.taken + 1, stack := q.stack + [Getting(q.taken, true)], monitor := false);
    Once(size, es + [StoreGet] + [CopyOut], Flush);
    assert (q.stack + [Getting(q.taken, true)])[..|q.stack + [Getting(q.taken, true)]| - 1] == q.stack;
  }

  /** A whole get, while no other one is in progress and there is an item, takes and releases it. */
  lemma WholeGet<T>(size: nat, es: seq<Event<T>>)
    requires size > 0 && NoneGetting(State(size, es).stack) && State(size, es).taken < State(size, es).visible
    ensures
      var q := State(size, es);
      State(size, es + GetEvents()) == q.(taken := q.taken + 1, released := q.taken + 1, monitor := false)
  {
    hide State, NoneGetting;
    var es3 := es + [BeginGet] + [Load] + [Compare];
    GetOpens(size, es);
    GetCloses(size, es3, State(size, es));
    assert es3 + [StoreGet] + [CopyOut] + [Flush] == es + GetEvents();
  }

  // ---------- Every reservation is decided ----------

  /** How many accesses at most an uninterrupted reservation still makes. */
  function AccessesLeft(stage: Stage<nat>, monitor: bool): nat {
    match stage
    case Begun => 3
    case Loaded(_) => if monitor then 2 else 5
    case Compared(_) => if monitor then 1 else 4
  }

  /** The last of the events grants or refuses a reservation. */
  ghost predicate Decides<T>(buf: seq<T>, es: seq<Event<T>>, more: seq<Event<T>>, granted: bool)
    requires |buf| > 0
  {
    && more != []
    && var last := |more| - 1; Next(buf, es + more[..last], more[last]) == if granted then Opened else Refused
  }

  lemma DecidesNow<T>(buf: seq<T>, es: seq<Event<T>>, e: Event<T>, granted: bool)
    requires |buf| > 0 && Next(buf, es, e) == if granted then Opened else Refused
    ensures Decides(buf, es, [e] + [], granted)
  {
    hide Next;
    assert es + ([e] + [])[..0] == es;
  }

  lemma DecidesLater<T>(buf: seq<T>, es: seq<Event<T>>, e: Event<T>, more: seq<Event<T>>, granted: bool)
    requires |buf| > 0 && Decides(buf, es + [e], more, granted)
    ensures Decides(buf, es, [e] + more, granted)
  {
    hide Next;
    assert es + ([e] + more)[..|more|] == es + [e] + more[..|more| - 1];
  }

  /** The access that a put makes next while it reserves its slot. */
  function PutAccess<T>(stage: Stage<nat>, item: T): Event<T> {
    match stage
    case Begun => Load
    case Loaded(_) => Compare
    case Compared(_) => StorePut(item)
  }

  /** The running put goes on, access by access, without being interrupted. */
  ghost predicate PutGoesOn<T>(size: nat, es: seq<Event<T>>, item: T, more: seq<Event<T>>)
    requires size > 0
  {
    forall i | 0 <= i < |more| :: PutMakes(State(size, es + more[..i]), item, more[i])
  }

  ghost predicate PutMakes<T>(q: Queue<T>, item: T, e: Event<T>) {
    var top := |q.stack| - 1;
    top >= 0 && q.stack[top].PutWaiting? && e == PutAccess(q.stack[top].stage, item)
  }

  /** What a put is granted for: room, and it has not loaded a tag that will be mistaken. */
  predicate PutGrantable<T>(q: Queue<T>, stage: Stage<nat>, size: nat)
    requires size > 0
  {
    !Full(q, size) && !(stage.Loaded? && PutRefused(q, stage.loaded, size))
  }

  lemma PutAccessStep<T>(q: Queue<T>, size: nat, item: T)
    requires size > 0 && Sound(q, size) && q.stack != [] && q.stack[|q.stack| - 1].PutWaiting?
    ensures
      var top := |q.stack| - 1;
      var stage := q.stack[top].stage;
      var (q', r) := Spec(q, size, PutAccess(stage, item));
      && (r == Opened ==> PutGrantable(q, stage, size))
      && (r == Refused ==> !PutGrantable(q, stage, size))
      && (r != Opened && r != Refused ==>
            && |q'.stack| == |q.stack| && q'.stack[top].PutWaiting?
            && AccessesLeft(q'.stack[top].stage, q'.monitor) < AccessesLeft(stage, q.monitor)
            && (PutGrantable(q', q'.stack[top].stage, size) <==> PutGrantable(q, stage, size)))
  {
    ComparisonPasses(q, size);
    hide WholeRounds, NonePutting, NoneGetting;
  }

  lemma PutGoesOnPrepend<T>(size: nat, es: seq<Event<T>>, item: T, e: Event<T>, more: seq<Event<T>>)
    requires size > 0 && PutMakes(State(size, es), item, e) && PutGoesOn(size, es + [e], item, more)
    ensures PutGoesOn(size, es, item, [e] + more)
  {
    hide State, PutMakes;
    var all := [e] + more;
    forall i | 0 <= i < |all|
      ensures PutMakes(State(size, es + all[..i]), item, all[i])
    {
      if i == 0 {
        assert es + all[..i] == es;
      } else {
        assert es + all[..i] == es + [e] + more[..i - 1] && all[i] == more[i - 1];
      }
    }
  }

  lemma PutAccessed<T>(buf: seq<T>, es: seq<Event<T>>, item: T)
    requires |buf| > 0
    requires var q := State(|buf|, es); q.stack != [] && q.stack[|q.stack| - 1].PutWaiting?
    ensures
      var q := State(|buf|, es);
      var stage := q.stack[|q.stack| - 1].stage;
      var e: Event<T> := PutAccess(stage, item);
      var r := Next(buf, es, e);
      var q' := State(|buf|, es + [e]);
      && (r == Opened ==> PutGrantable(q, stage, |buf|))
      && (r == Refused ==> !PutGrantable(q, stage, |buf|))
      && (r != Opened && r != Refused ==>
            && |q'.stack| == |q.stack| && q'.stack[|q.stack| - 1].PutWaiting?
            && AccessesLeft(q'.stack[|q.stack| - 1].stage, q'.monitor) < AccessesLeft(stage, q.monitor)
            && (PutGrantable(q', q'.stack[|q.stack| - 1].stage, |buf|) <==> PutGrantable(q, stage, |buf|)))
  {
    hide State, Next, Spec, Sound, PutGrantable;
    var q := State(|buf|, es);
    var e: Event<T> := PutAccess(q.stack[|q.stack| - 1].stage, item);
    NextIsSpec(buf, es, e);
    Once(|buf|, es, e);
    PutAccessStep(q, |buf|, item);
  }

  /**
    From any point of its reservation, a put that is not interrupted any more
    is decided within five accesses.  It is granted exactly when there is
    room and it does not go on with a tag that will be mistaken; if it
    does not go on with an old tag at all, exactly when there is room.
   */
  lemma {:induction false} PutDecided<T>(buf: seq<T>, es: seq<Event<T>>, item: T) returns (more: seq<Event<T>>)
    requires |buf| > 0
    requires var q := State(|buf|, es); q.stack != [] && q.stack[|q.stack| - 1].PutWaiting?
    ensures PutGoesOn(|buf|, es, item, more)
    ensures
      var q := State(|buf|, es);
      var stage := q.stack[|q.stack| - 1].stage;
      && |more| <= AccessesLeft(stage, q.monitor) <= 5
      && Decides(buf, es, more, PutGrantable(q, stage, |buf|))
      && ((stage.Loaded? ==> q.monitor) ==> Decides(buf, es, more, !Full(q, |buf|)))
    decreases var q := State(|buf|, es); AccessesLeft(q.stack[|q.stack| - 1].stage, q.monitor)
  {
    hide State, Next, Sound, PutGrantable, PutGoesOn, Decides, PutAccess;
    var q := State(|buf|, es);
    var stage := q.stack[|q.stack| - 1].stage;
    var e: Event<T> := PutAccess(stage, item);
    PutAccessed(buf, es, item);
    PutNotMistaken(q, |buf|);
    var r := Next(buf, es, e);
    if r == Opened || r == Refused {
      more := [];
      PutGoesOnNothing(|buf|, es + [e], item);
      DecidesNow(buf, es, e, r == Opened);
    } else {
      more := PutDecided(buf, es + [e], item);
      DecidesLater(buf, es, e, more, PutGrantable(q, stage, |buf|));
    }
    PutGoesOnPrepend(|buf|, es, item, e, more);
    more := [e] + more;
    hide AccessesLeft, PutMakes;
  }

  lemma PutGoesOnNothing<T>(size: nat, es: seq<Event<T>>, item: T)
    requires size > 0
    ensures PutGoesOn(size, es, item, [])
  {
  }

  /** A tag that has not been changed since it was loaded is not mistaken. */
  lemma PutNotMistaken<T>(q: Queue<T>, size: nat)
    requires size > 0 && Sound(q, size) && q.stack != [] && q.stack[|q.stack| - 1].PutWaiting?
    ensures
      var stage := q.stack[|q.stack| - 1].stage;
      (stage.Loaded? ==> q.monitor) ==> (PutGrantable(q, stage, size) <==> !Full(q, size))
  {
    ComparisonPasses(q, size);
    hide WholeRounds;
  }

  /** The access that a get makes next while it reserves its slot. */
  function GetAccess<T>(stage: Stage<nat>): Event<T> {
    match stage
    case Begun => Load
    case Loaded(_) => Compare
    case Compared(_) => StoreGet
  }

  /** The running get goes on, access by access, without being interrupted. */
  ghost predicate GetGoesOn<T>(size: nat, es: seq<Event<T>>, more: seq<Event<T>>)
    requires size > 0
  {
    forall i | 0 <= i < |more| :: GetMakes(State(size, es + more[..i]), more[i])
  }

  ghost predicate GetMakes<T>(q: Queue<T>, e: Event<T>) {
    var top := |q.stack| - 1;
    top >= 0 && q.stack[top].GetWaiting? && e == GetAccess(q.stack[top].stage)
  }

  /** What a get is granted for: an item to take, and it has not loaded a tag that will be mistaken. */
  predicate GetGrantable<T>(q: Queue<T>, stage: Stage<nat>, size: nat)
    requires size > 0
  {
    q.taken < q.visible && !(stage.Loaded? && GetRefused(q, stage.loaded, size))
  }

  lemma GetAccessStep<T>(q: Queue<T>, size: nat)
    requires size > 0 && Sound(q, size) && q.stack != [] && q.stack[|q.stack| - 1].GetWaiting?
    ensures
      var top := |q.stack| - 1;
      var stage := q.stack[top].stage;
      var (q', r) := Spec(q, size, GetAccess(stage));
      && (r == Opened ==> GetGrantable(q, stage, size))
      && (r == Refused ==> !GetGrantable(q, stage, size))
      && (r != Opened && r != Refused ==>
            && |q'.stack| == |q.stack| && q'.stack[top].GetWaiting?
            && AccessesLeft(q'.stack[top].stage, q'.monitor) < AccessesLeft(stage, q.monitor)
            && (GetGrantable(q', q'.stack[top].stage, size) <==> GetGrantable(q, stage, size)))
  {
    ComparisonPasses(q, size);
    hide WholeRounds, NonePutting, NoneGetting;
  }

  lemma GetGoesOnPrepend<T>(size: nat, es: seq<Event<T>>, e: Event<T>, more: seq<Event<T>>)
    requires size > 0 && GetMakes(State(size, es), e) && GetGoesOn(size, es + [e], more)
    ensures GetGoesOn(size, es, [e] + more)
  {
    hide State, GetMakes;
    var all := [e] + more;
    forall i | 0 <= i < |all|
      ensures GetMakes(State(size, es + all[..i]), all[i])
    {
      if i == 0 {
        assert es + all[..i] == es;
      } else {
        assert es + all[..i] == es + [e] + more[..i - 1] && all[i] == more[i - 1];
      }
    }
  }

  lemma GetAccessed<T>(buf: seq<T>, es: seq<Event<T>>)
    requires |buf| > 0
    requires var q := State(|buf|, es); q.stack != [] && q.stack[|q.stack| - 1].GetWaiting?
    ensures
      var q := State(|buf|, es);
      var stage := q.stack[|q.stack| - 1].stage;
      var e: Event<T> := GetAccess(stage);
      var r := Next(buf, es, e);
      var q' := State(|buf|, es + [e]);
      && (r == Opened ==> GetGrantable(q, stage, |buf|))
      && (r == Refused ==> !GetGrantable(q, stage, |buf|))
      && (r != Opened && r != Refused ==>
            && |q'.stack| == |q.stack| && q'.stack[|q.stack| - 1].GetWaiting?
            && AccessesLeft(q'.stack[|q.stack| - 1].stage, q'.monitor) < AccessesLeft(stage, q.monitor)
            && (GetGrantable(q', q'.stack[|q.stack| - 1].stage, |buf|) <==> GetGrantable(q, stage, |buf|)))
  {
    hide State, Next, Spec, Sound, GetGrantable;
    var q := State(|buf|, es);
    var e: Event<T> := GetAccess(q.stack[|q.stack| - 1].stage);
    NextIsSpec(buf, es, e);
    Once(|buf|, es, e);
    GetAccessStep(q, |buf|);
  }

  /**
    From any point of its reservation, a get that is not interrupted any more
    is decided within five accesses.  It is granted exactly when there is
    an item to take and it does not go on with a tag that will be mistaken; if it
    does not go on with an old tag at all, exactly when there is an item to take.
   */
  lemma {:induction false} GetDecided<T>(buf: seq<T>, es: seq<Event<T>>) returns (more: seq<Event<T>>)
    requires |buf| > 0
    requires var q := State(|buf|, es); q.stack != [] && q.stack[|q.stack| - 1].GetWaiting?
    ensures GetGoesOn(|buf|, es, more)
    ensures
      var q := State(|buf|, es);
      var stage := q.stack[|q.stack| - 1].stage;
      && |more| <= AccessesLeft(stage, q.monitor) <= 5
      && Decides(buf, es, more, GetGrantable(q, stage, |buf|))
      && ((stage.Loaded? ==> q.monitor) ==> Decides(buf, es, more, q.taken < q.visible))
    decreases var q := State(|buf|, es); AccessesLeft(q.stack[|q.stack| - 1].stage, q.monitor)
  {
    hide State, Next, Sound, GetGrantable, GetGoesOn, Decides, GetAccess;
    var q := State(|buf|, es);
    var stage := q.stack[|q.stack| - 1].stage;
    var e: Event<T> := GetAccess(stage);
    GetAccessed(buf, es);
    GetNotMistaken(q, |buf|);
    var r := Next(buf, es, e);
    if r == Opened || r == Refused {
      more := [];
      GetGoesOnNothing(|buf|, es + [e]);
      DecidesNow(buf, es, e, r == Opened);
    } else {
      more := GetDecided(buf, es + [e]);
      DecidesLater(buf, es, e, more, GetGrantable(q, stage, |buf|));
    }
    GetGoesOnPrepend(|buf|, es, e, more);
    more := [e] + more;
    hide AccessesLeft, GetMakes;
  }

  lemma GetGoesOnNothing<T>(size: nat, es: seq<Event<T>>)
    requires size > 0
    ensures GetGoesOn(size, es, [])
  {
  }

  /** A tag that has not been changed since it was loaded is not mistaken. */
  lemma GetNotMistaken<T>(q: Queue<T>, size: nat)
    requires size > 0 && Sound(q, size) && q.stack != [] && q.stack[|q.stack| - 1].GetWaiting?
    ensures
      var stage := q.stack[|q.stack| - 1].stage;
      (stage.Loaded? ==> q.monitor) ==> (GetGrantable(q, stage, size) <==> q.taken < q.visible)
  {
    ComparisonPasses(q, size);
    hide WholeRounds;
  }

  // ---------- Refusals without cause ----------

  /** Counts only grow. */
  lemma {:induction false} CountsGrow<T>(size: nat, es: seq<Event<T>>, k: nat)
    requires size > 0 && k <= |es|
    ensures
      var before, after := State(size, es[..k]), State(size, es);
      |before.items| <= |after.items| && before.visible <= after.visible && before.taken <= after.taken
  {
    if k < |es| {
      var n := |es| - 1;
      CountsGrow(size, es[..n], k);
      assert es[..n][..k] == es[..k] && es == es[..n] + [es[n]];
      Once(size, es[..n], es[n]);
      StepGrows(State(size, es[..n]), size, es[n]);
      hide State, Spec;
    } else {
      assert es[..k] == es;
    }
  }

  lemma StepGrows<T>(q: Queue<T>, size: nat, e: Event<T>)
    requires size > 0 && Sound(q, size)
    ensures
      var q' := Spec(q, size, e).0;
      |q.items| <= |q'.items| && q.visible <= q'.visible && q.taken <= q'.taken
  {
    hide NonePutting, NoneGetting, PutRefused, GetRefused;
  }

  /** A put is refused although the FIFO has never been full. */
  ghost predicate PutRefusedNeverFull<T>(buf: seq<T>, es: seq<Event<T>>)
    requires |buf| > 0
  {
    && Next(buf, es, Compare) == Refused
    && (var q := State(|buf|, es); q.stack != [] && q.stack[|q.stack| - 1].PutWaiting?)
    && NeverFull(|buf|, es)
  }

  ghost predicate NeverFull<T>(size: nat, es: seq<Event<T>>)
    requires size > 0
  {
    forall k | 0 <= k <= |es| :: !Full(State(size, es[..k]), size)
  }

  /** Such refusals are possible exactly when the buffer has at least three slots. */
  lemma PutRefusedWithoutCause<T>(buf: seq<T>)
    requires |buf| > 0
    ensures (exists es :: PutRefusedNeverFull(buf, es)) <==> |buf| >= 3
  {
    if |buf| >= 3 {
      var es := PutOvertaken(buf, buf[0]);
    } else {
      forall es
        ensures !PutRefusedNeverFull(buf, es)
      {
        FewSlotsFull(buf, es);
      }
    }
  }

  /** A put that is interrupted, right after its load, by a whole put and a whole get is refused. */
  lemma PutOvertaken<T>(buf: seq<T>, item: T) returns (es: seq<Event<T>>)
    requires |buf| >= 3
    ensures PutRefusedNeverFull(buf, es)
  {
    var n := |buf|;
    var none: seq<Event<T>>, begun: seq<Event<T>> := [], [BeginPut, Load];
    Once(n, none, BeginPut);
    Once(n, none + [BeginPut], Load);
    assert none + [BeginPut] + [Load] == begun;
    assert State(n, begun) == Queue([], 0, 0, 0, true, [PutWaiting(Loaded(0))]);
    hide State;
    WholePut(n, begun, item);
    WholeGet(n, begun + PutEvents(item));
    es := begun + PutEvents(item) + GetEvents();
    assert State(n, es) == Queue([item], 1, 1, 1, false, [PutWaiting(Loaded(0))]);
    assert WholeRounds(0, n);
    PutRefusedExactly(buf, es, 0);
    hide Next, PutEvents, GetEvents;
    forall k | 0 <= k <= |es|
      ensures !Full(State(n, es[..k]), n)
    {
      CountsGrow(n, es, k);
    }
  }

  /** With one or two slots, a put is only refused if the FIFO has been full. */
  lemma FewSlotsFull<T>(buf: seq<T>, es: seq<Event<T>>)
    requires 0 < |buf| <= 2
    ensures !PutRefusedNeverFull(buf, es)
  {
    hide State, Next;
    if PutRefusedNeverFull(buf, es) {
      var q := State(|buf|, es);
      RefusedWithoutEffect(buf, es, Compare);
      NeverFullEmpty(|buf|, es);
      assert es[..|es|] == es;
      hide PutRefusedNeverFull;
      PutRefusedExactly(buf, es, q.stack[|q.stack| - 1].stage.loaded);
    }
  }

  lemma {:induction false} NeverFullEmpty<T>(size: nat, es: seq<Event<T>>)
    requires 0 < size <= 2 && NeverFull(size, es)
    ensures State(size, es).items == []
  {
    hide State, Spec, Sound;
    if es != [] {
      var before, e := es[..|es| - 1], es[|es| - 1];
      NeverFullBefore(size, es);
      hide NeverFull;
      NeverFullEmpty(size, before);
      assert es == before + [e];
      Once(size, before, e);
      AtMostOnePut(State(size, before), size, e);
      CountsInOrder(State(size, before), size);
    } else {
      NothingPut<T>(size);
    }
  }

  lemma NeverFullBefore<T>(size: nat, es: seq<Event<T>>)
    requires size > 0 && es != [] && NeverFull(size, es)
    ensures NeverFull(size, es[..|es| - 1]) && !Full(State(size, es), size)
  {
    hide State, Full;
    var before := es[..|es| - 1];
    assert es[..|es|] == es;
    forall k | 0 <= k <= |before|
      ensures !Full(State(size, before[..k]), size)
    {
      assert before[..k] == es[..k];
    }
  }

  lemma NothingPut<T>(size: nat)
    requires size > 0
    ensures State<T>(size, []) == Empty()
  {
  }

  lemma CountsInOrder<T>(q: Queue<T>, size: nat)
    requires Sound(q, size)
    ensures q.released <= q.taken <= q.visible <= |q.items| < q.released + size
  {
  }

  lemma AtMostOnePut<T>(q: Queue<T>, size: nat, e: Event<T>)
    requires size > 0 && Sound(q, size)
    ensures
      var q' := Spec(q, size, e).0;
      q'.items == q.items || (|q'.items| == |q.items| + 1 && q'.released == q.released)
  {
    hide NonePutting, NoneGetting, PutRefused, GetRefused;
  }

  /** The activity is a get between its load and its comparison. */
  predicate LoadedGet(a: Activity) {
    a.GetWaiting? && a.stage.Loaded?
  }

  /** The running get has made its load, and had not yet made it in the earlier state `q0`. */
  predicate LoadedAfter<T>(q0: Queue<T>, q: Queue<T>) {
    var top := |q.stack| - 1;
    top >= 0 && LoadedGet(q.stack[top]) && !(top < |q0.stack| && LoadedGet(q0.stack[top]))
  }

  /** A get is refused although, since some time before its load, there has always been an item to take. */
  ghost predicate GetRefusedNeverEmpty<T>(buf: seq<T>, es: seq<Event<T>>, since: nat)
    requires |buf| > 0
  {
    && Next(buf, es, Compare) == Refused
    && since <= |es| && Available(|buf|, es, since)
    && LoadedAfter(State(|buf|, es[..since]), State(|buf|, es))
  }

  ghost predicate Available<T>(size: nat, es: seq<Event<T>>, since: nat)
    requires size > 0
  {
    forall k | since <= k <= |es| :: State(size, es[..k]).taken < State(size, es[..k]).visible
  }

  /** These refusals, too, are possible exactly when the buffer has at least three slots. */
  lemma GetRefusedWithoutCause<T>(buf: seq<T>)
    requires |buf| > 0
    ensures (exists es, since :: GetRefusedNeverEmpty(buf, es, since)) <==> |buf| >= 3
  {
    if |buf| >= 3 {
      var es, since := GetOvertaken(buf, buf[0]);
    } else {
      forall es, since
        ensures !GetRefusedNeverEmpty(buf, es, since)
      {
        FewSlotsEmpty(buf, es, since);
      }
    }
  }

  /** Everything put has been taken and released, but for one item. */
  ghost predicate OneLeft<T>(q: Queue<T>) {
    && NonePutting(q.stack) && NoneGetting(q.stack)
    && q.visible == |q.items| == q.taken + 1 && q.released == q.taken
  }

  /** Goes from one run to a longer one between which there is always an item to take. */
  lemma AvailableBetween<T>(size: nat, es: seq<Event<T>>, es': seq<Event<T>>, since: nat)
    requires size > 0 && since <= |es| && es <= es' && Available(size, es, since)
    requires State(size, es').taken < State(size, es).visible
    ensures Available(size, es', since)
  {
    hide State;
    forall k | since <= k <= |es'|
      ensures State(size, es'[..k]).taken < State(size, es'[..k]).visible
    {
      if k <= |es| {
        assert es'[..k] == es[..k];
      } else {
        CountsGrow(size, es', k);
        CountsGrow(size, es'[..k], |es|);
        assert es'[..k][..|es|] == es;
      }
    }
  }

  /** Any number of items can pass through the FIFO, always with another one left. */
  lemma {:induction false} PassThrough<T>(size: nat, es: seq<Event<T>>, since: nat, item: T, n: nat)
    returns (es': seq<Event<T>>)
    requires size >= 3 && since <= |es| && OneLeft(State(size, es)) && Available(size, es, since)
    ensures
      var q, q' := State(size, es), State(size, es');
      es <= es' && OneLeft(q') && q'.stack == q.stack && q'.taken == q.taken + n && Available(size, es', since)
  {
    hide State, Available, NonePutting, NoneGetting;
    if n == 0 {
      es' := es;
    } else {
      var es1 := PassThrough(size, es, since, item, n - 1);
      WholePut(size, es1, item);
      var es2 := es1 + PutEvents(item);
      WholeGet(size, es2);
      es' := es2 + GetEvents();
      hide PutEvents, GetEvents;
      AvailableBetween(size, es1, es2, since);
      AvailableBetween(size, es2, es', since);
    }
  }

  /** A get that has loaded its tag is refused once a whole round of items has passed. */
  lemma GetOvertaken<T>(buf: seq<T>, item: T) returns (es: seq<Event<T>>, since: nat)
    requires |buf| >= 3
    ensures GetRefusedNeverEmpty(buf, es, since)
  {
    hide State, NonePutting, NoneGetting, Available, Next, PutEvents, WholeRounds;
    var n := |buf|;
    var begun := GetBegun(n, item);
    since := |begun| - 1;
    var passed := PassThrough(n, begun, since, item, n - 2);
    WholePut(n, passed, item);
    es := passed + PutEvents(item);
    AvailableBetween(n, passed, es, since);
    OneRound(n);
    assert es[..since] == begun[..since];
    GetRefusedExactly(buf, es, 0);
  }

  /** A get that has just made its load, while there was an item to take before and after. */
  lemma GetBegun<T>(size: nat, item: T) returns (es: seq<Event<T>>)
    requires size >= 3
    ensures |es| > 0 && Available(size, es, |es| - 1)
    ensures State(size, es[..|es| - 1]).stack == [GetWaiting(Begun)]
    ensures
      var q := State(size, es);
      OneLeft(q) && q.taken == 0 && q.stack == [GetWaiting(Loaded(0))]
  {
    var none: seq<Event<T>> := [];
    assert State(size, none) == Empty();
    WholePut(size, none, item);
    var es1 := none + PutEvents(item);
    Once(size, es1, BeginGet);
    var es2 := es1 + [BeginGet];
    Once(size, es2, Load);
    hide PutEvents, State;
    es := es2 + [Load];
    assert State(size, es2) == Queue([item], 1, 0, 0, false, [GetWaiting(Begun)]);
    assert State(size, es) == Queue([item], 1, 0, 0, true, [GetWaiting(Loaded(0))]);
    assert es[..|es|] == es && es[..|es| - 1] == es2;
  }

  /** What gets have loaded since an earlier state is no less than the count of that state. */
  ghost predicate LoadsRecent<T>(q0: Queue<T>, q: Queue<T>) {
    forall i | 0 <= i < |q.stack| && LoadedGet(q.stack[i]) && !(i < |q0.stack| && LoadedGet(q0.stack[i])) ::
      q0.taken <= q.stack[i].stage.loaded
  }

  lemma {:induction false} LoadsRecentRun<T>(size: nat, es: seq<Event<T>>, since: nat)
    requires size > 0 && since <= |es|
    ensures LoadsRecent(State(size, es[..since]), State(size, es))
  {
    hide State, Spec, LoadsRecent;
    if since == |es| {
      assert es[..since] == es;
      LoadsRecentSame(State(size, es));
    } else {
      var before, e := es[..|es| - 1], es[|es| - 1];
      LoadsRecentRun(size, before, since);
      CountsGrow(size, before, since);
      assert es == before + [e] && before[..since] == es[..since];
      Once(size, before, e);
      LoadsRecentStep(State(size, es[..since]), State(size, before), size, e);
    }
  }

  lemma LoadsRecentSame<T>(q: Queue<T>)
    ensures LoadsRecent(q, q)
  {
  }

  lemma LoadsRecentStep<T>(q0: Queue<T>, q: Queue<T>, size: nat, e: Event<T>)
    requires size > 0 && Sound(q, size) && q0.taken <= q.taken && LoadsRecent(q0, q)
    ensures LoadsRecent(q0, Spec(q, size, e).0)
  {
    hide NonePutting, NoneGetting, PutRefused, GetRefused, Numbered, MonitorSound;
    var q' := Spec(q, size, e).0;
    assert forall i | 0 <= i < |q'.stack| && i < |q.stack| - 1 :: q'.stack[i] == q.stack[i];
  }

  /** With one or two slots, a get is only refused if there has been nothing to take. */
  lemma FewSlotsEmpty<T>(buf: seq<T>, es: seq<Event<T>>, since: nat)
    requires 0 < |buf| <= 2
    ensures !GetRefusedNeverEmpty(buf, es, since)
  {
    hide State, Next;
    if GetRefusedNeverEmpty(buf, es, since) {
      var q := State(|buf|, es);
      StandsStill(|buf|, es, since);
      LoadsRecentRun(|buf|, es, since);
      OneRound(2);
      hide WholeRounds, Available;
      GetRefusedExactly(buf, es, q.stack[|q.stack| - 1].stage.loaded);
    }
  }

  /** With one or two slots, nothing can be taken or made visible as long as there is an item to take. */
  lemma {:induction false} StandsStill<T>(size: nat, es: seq<Event<T>>, since: nat)
    requires 0 < size <= 2 && since <= |es| && Available(size, es, since)
    ensures
      var q, q' := State(size, es[..since]), State(size, es);
      size == 2 && q'.released == q'.taken == q.taken && q'.visible == q.visible == q.taken + 1
  {
    hide State, Spec;
    assert es[..|es|] == es;
    OneBetween(State(size, es), size);
    hide Sound;
    if since < |es| {
      var n := |es| - 1;
      AvailableBefore(size, es, since);
      StandsStill(size, es[..n], since);
      assert es == es[..n] + [es[n]] && es[..n][..since] == es[..since];
      Once(size, es[..n], es[n]);
      hide Available;
      OneCountMoves(State(size, es[..n]), size, es[n]);
    }
  }

  lemma OneBetween<T>(q: Queue<T>, size: nat)
    requires 0 < size <= 2 && Sound(q, size) && q.taken < q.visible
    ensures size == 2 && q.released == q.taken && q.visible == q.taken + 1
  {
  }

  lemma AvailableBefore<T>(size: nat, es: seq<Event<T>>, since: nat)
    requires size > 0 && since < |es| && Available(size, es, since)
    ensures Available(size, es[..|es| - 1], since)
  {
    hide State;
    var before := es[..|es| - 1];
    forall k | since <= k <= |before|
      ensures State(size, before[..k]).taken < State(size, before[..k]).visible
    {
      assert before[..k] == es[..k];
    }
  }

  lemma OneCountMoves<T>(q: Queue<T>, size: nat, e: Event<T>)
    requires size > 0 && Sound(q, size)
    ensures
      var q' := Spec(q, size, e).0;
      q'.taken == q.taken || q'.visible == q.visible
  {
    hide NonePutting, NoneGetting, PutRefused, GetRefused;
  }
}
