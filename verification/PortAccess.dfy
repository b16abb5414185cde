/**
  Register accesses to the `OUT` word of a port and their interleavings.

  The driver never stores a computed value to `OUT` itself: it writes `OUTSET`
  and `OUTCLR`, and an inversion works from a snapshot read earlier.  Contexts
  (the main program and interrupt handlers) may be switched between any two
  accesses.  This module states what every such interleaving computes.

  Words are the sets of the pins whose bit is one: `|` is union, `a & ~b` is
  difference.  `Boards` relates these sets to the 32-bit registers.
 */
module PortAccess {

  type PinSet = set<nat>

  datatype Access =
    | SetBits(mask: PinSet)    // OUTSET = mask
    | ClearBits(mask: PinSet)  // OUTCLR = mask
    | ReadOut                  // snapshot = OUT
    | SetUnset(mask: PinSet)   // OUTSET = mask & ~snapshot
    | ClearSet(mask: PinSet)   // OUTCLR = mask & snapshot

  /** The shared word together with the snapshot of one context. */
  datatype View = View(out: PinSet, snapshot: PinSet)

  function Apply(a: Access, v: View): View {
    match a
    case SetBits(mask) => v.(out := v.out + mask)
    case ClearBits(mask) => v.(out := v.out - mask)
    case ReadOut => v.(snapshot := v.out)
    case SetUnset(mask) => v.(out := v.out + (mask - v.snapshot))
    case ClearSet(mask) => v.(out := v.out - (mask * v.snapshot))
  }

  /** Runs a whole access sequence without interruption. */
  function Run(accesses: seq<Access>, v: View): View {
    if accesses == [] then v
    else
      var n := |accesses| - 1;
      Apply(accesses[n], Run(accesses[..n], v))
  }

  /** The pins an access may change. */
  function Touched(a: Access): PinSet {
    if a.ReadOut? then {} else a.mask
  }

  predicate Within(accesses: seq<Access>, pins: PinSet) {
    forall a | a in accesses :: Touched(a) <= pins
  }

  lemma {:induction false} RunConcat(a: seq<Access>, b: seq<Access>, v: View)
    ensures Run(a + b, v) == Run(b, Run(a, v))
  {
    if b == [] {
      assert a + b == a;
    } else {
      var n := |b| - 1;
      assert (a + b)[..|a + b| - 1] == a + b[..n];
      RunConcat(a, b[..n], v);
    }
  }

  // ---------- Interleaving ----------

  /** A context: what it is going to do, and the pins it owns. */
  datatype Context = Context(accesses: seq<Access>, pins: PinSet)

  /** The shared word, and per context its snapshot and the number of accesses done. */
  datatype Machine = Machine(out: PinSet, snapshots: seq<PinSet>, done: seq<nat>)

  ghost predicate Wellformed(cs: seq<Context>) {
    && (forall i | 0 <= i < |cs| :: Within(cs[i].accesses, cs[i].pins))
    && (forall i, j | 0 <= i < j < |cs| :: cs[i].pins !! cs[j].pins)
  }

  function Start(cs: seq<Context>, out: PinSet): Machine {
    Machine(out, seq(|cs|, _ => {}), seq(|cs|, _ => 0))
  }

  predicate Fits(m: Machine, cs: seq<Context>) {
    && |m.snapshots| == |m.done| == |cs|
    && forall i | 0 <= i < |cs| :: m.done[i] <= |cs[i].accesses|
  }

  /** One access of context `i`; a context that has finished, or does not exist, does nothing. */
  function Step(cs: seq<Context>, m: Machine, i: nat): (m': Machine)
    requires Fits(m, cs)
    ensures Fits(m', cs)
  {
    if i < |cs| && m.done[i] < |cs[i].accesses| then
      var v := Apply(cs[i].accesses[m.done[i]], View(m.out, m.snapshots[i]));
      Machine(v.out, m.snapshots[i := v.snapshot], m.done[i := m.done[i] + 1])
    else m
  }

  /** The machine after the contexts named by `schedule` have each taken their turn. */
  function Interleave(cs: seq<Context>, schedule: seq<nat>, out: PinSet): (m: Machine)
    ensures Fits(m, cs)
  {
    if schedule == [] then Start(cs, out)
    else
      var n := |schedule| - 1;
      Step(cs, Interleave(cs, schedule[..n], out), schedule[n])
  }

  predicate Finished(cs: seq<Context>, m: Machine)
    requires Fits(m, cs)
  {
    forall i | 0 <= i < |cs| :: m.done[i] == |cs[i].accesses|
  }

  /** Two views agree as far as a context owning `pins` can tell. */
  predicate Agree(v: View, w: View, pins: PinSet) {
    v.out * pins == w.out * pins && v.snapshot * pins == w.snapshot * pins
  }

  /** An access within `pins` maps views that agree on `pins` to views that agree on `pins`. */
  lemma ApplyAgree(a: Access, v: View, w: View, pins: PinSet)
    requires Touched(a) <= pins && Agree(v, w, pins)
    ensures Agree(Apply(a, v), Apply(a, w), pins)
  {
    forall p | p in pins
      ensures p in v.out <==> p in w.out
      ensures p in v.snapshot <==> p in w.snapshot
    {
      assert p in v.out * pins <==> p in w.out * pins;
      assert p in v.snapshot * pins <==> p in w.snapshot * pins;
    }
  }

  /** An access leaves all pins that it may not touch as they were. */
  lemma ApplyElsewhere(a: Access, v: View, pins: PinSet, others: PinSet)
    requires Touched(a) <= pins && pins !! others
    ensures Apply(a, v).out * others == v.out * others
  {
  }

  /**
    At every point of every schedule, each context sees its own pins and its
    own snapshot as if it had been running alone.
   */
  lemma {:induction false} Isolation(cs: seq<Context>, schedule: seq<nat>, out: PinSet, i: nat)
    requires Wellformed(cs) && i < |cs|
    ensures
      var m := Interleave(cs, schedule, out);
      Agree(View(m.out, m.snapshots[i]), Run(cs[i].accesses[..m.done[i]], View(out, {})), cs[i].pins)
  {
    if schedule != [] {
      var n := |schedule| - 1;
      Isolation(cs, schedule[..n], out, i);
      IsolationStep(cs, Interleave(cs, schedule[..n], out), out, schedule[n], i);
    }
  }

  lemma IsolationStep(cs: seq<Context>, m: Machine, out: PinSet, j: nat, i: nat)
    requires Wellformed(cs) && Fits(m, cs) && i < |cs|
    requires Agree(View(m.out, m.snapshots[i]), Run(cs[i].accesses[..m.done[i]], View(out, {})), cs[i].pins)
    ensures
      var m' := Step(cs, m, j);
      Agree(View(m'.out, m'.snapshots[i]), Run(cs[i].accesses[..m'.done[i]], View(out, {})), cs[i].pins)
  {
    if j < |cs| && m.done[j] < |cs[j].accesses| {
      var a := cs[j].accesses[m.done[j]];
      if i == j {
        var sofar := cs[i].accesses[..m.done[i]];
        assert cs[i].accesses[..m.done[i] + 1][..m.done[i]] == sofar;
        ApplyAgree(a, View(m.out, m.snapshots[i]), Run(sofar, View(out, {})), cs[i].pins);
      } else {
        assert cs[j].pins !! cs[i].pins by {
          if j < i {
            assert cs[j].pins !! cs[i].pins;
          } else {
            assert cs[i].pins !! cs[j].pins;
          }
        }
        ApplyElsewhere(a, View(m.out, m.snapshots[j]), cs[j].pins, cs[i].pins);
      }
    }
  }

  /** Pins that no context owns keep their level at every point of every schedule. */
  lemma {:induction false} Frame(cs: seq<Context>, schedule: seq<nat>, out: PinSet, others: PinSet)
    requires forall i | 0 <= i < |cs| :: Within(cs[i].accesses, cs[i].pins) && cs[i].pins !! others
    ensures Interleave(cs, schedule, out).out * others == out * others
  {
    if schedule != [] {
      var n := |schedule| - 1;
      var m := Interleave(cs, schedule[..n], out);
      Frame(cs, schedule[..n], out, others);
      var j := schedule[n];
      if j < |cs| && m.done[j] < |cs[j].accesses| {
        ApplyElsewhere(cs[j].accesses[m.done[j]], View(m.out, m.snapshots[j]), cs[j].pins, others);
      }
    }
  }

  /**
    No lost updates: once every context has finished, whatever the schedule
    was, each context's pins are what its accesses alone would have made them.
   */
  lemma NoLostUpdates(cs: seq<Context>, schedule: seq<nat>, out: PinSet, i: nat)
    requires Wellformed(cs) && i < |cs|
    requires Finished(cs, Interleave(cs, schedule, out))
    ensures Interleave(cs, schedule, out).out * cs[i].pins
         == Run(cs[i].accesses, View(out, {})).out * cs[i].pins
  {
    Isolation(cs, schedule, out, i);
    assert cs[i].accesses[..|cs[i].accesses|] == cs[i].accesses;
  }

  /** The accesses of an inversion of `mask`. */
  function Inversion(mask: PinSet): seq<Access> {
    [ReadOut, SetUnset(mask), ClearSet(mask)]
  }

  function SymDiff(a: PinSet, b: PinSet): PinSet {
    (a - b) + (b - a)
  }

  /** Uninterrupted, the three accesses flip exactly the pins of `mask`. */
  lemma InversionFlips(mask: PinSet, v: View)
    ensures Run(Inversion(mask), v).out == SymDiff(v.out, mask)
  {
    var a := Inversion(mask);
    assert a[..2] == [ReadOut, SetUnset(mask)] && a[..2][..1] == [ReadOut];
    assert Run(a[..2][..1], v) == Apply(ReadOut, v);
    assert Run(a[..2], v) == Apply(SetUnset(mask), Apply(ReadOut, v));
  }

  /** Two inversions of the same pins, one after the other, restore the word. */
  lemma InversionTwice(mask: PinSet, v: View)
    ensures Run(Inversion(mask), Run(Inversion(mask), v)).out == v.out
  {
    InversionFlips(mask, v);
    InversionFlips(mask, Run(Inversion(mask), v));
  }

  // ---------- Two inversions ----------

  /** The main program and an interrupt handler invert some pins each. */
  function TwoInversions(m1: PinSet, m2: PinSet): seq<Context> {
    [Context(Inversion(m1), m1), Context(Inversion(m2), m2)]
  }

  lemma DisjointInversions(m1: PinSet, m2: PinSet, schedule: seq<nat>, out: PinSet)
    requires m1 !! m2
    requires Finished(TwoInversions(m1, m2), Interleave(TwoInversions(m1, m2), schedule, out))
    ensures Interleave(TwoInversions(m1, m2), schedule, out).out == SymDiff(SymDiff(out, m1), m2)
  {
    var cs := TwoInversions(m1, m2);
    var left := Interleave(cs, schedule, out).out;
    NoLostUpdates(cs, schedule, out, 0);
    NoLostUpdates(cs, schedule, out, 1);
    InversionFlips(m1, View(out, {}));
    InversionFlips(m2, View(out, {}));
    hide Interleave, Run, Finished;
    forall p
      ensures p in left <==> p in SymDiff(SymDiff(out, m1), m2)
    {
      if p in m1 {
        assert p in left * m1 <==> p in SymDiff(out, m1) * m1;
      } else if p in m2 {
        assert p in left * m2 <==> p in SymDiff(out, m2) * m2;
      } else {
        Frame(cs, schedule, out, {p});
        assert p in left * {p} <==> p in out * {p};
      }
    }
  }

  /** The first inversion is interrupted, right after its snapshot, by the second one. */
  lemma InterruptedInversion(m1: PinSet, m2: PinSet, out: PinSet) returns (schedule: seq<nat>)
    ensures
      var cs := TwoInversions(m1, m2);
      var m := Interleave(cs, schedule, out);
      Finished(cs, m) && m.out == SymDiff(out, m2) + (m1 - out) - (m1 * out)
  {
    var cs := TwoInversions(m1, m2);
    InterruptedSteps(m1, m2, out);
    InterleaveNone(cs, out);
    assert Start(cs, out) == Machine(out, [{}, {}], [0, 0]);
    hide Step, Start, Interleave;
    schedule := [];
    InterleaveOnce(cs, schedule, 0, out);
    schedule := schedule + [0];
    InterleaveOnce(cs, schedule, 1, out);
    schedule := schedule + [1];
    InterleaveOnce(cs, schedule, 1, out);
    schedule := schedule + [1];
    InterleaveOnce(cs, schedule, 1, out);
    schedule := schedule + [1];
    InterleaveOnce(cs, schedule, 0, out);
    schedule := schedule + [0];
    InterleaveOnce(cs, schedule, 0, out);
    schedule := schedule + [0];
  }

  lemma InterleaveNone(cs: seq<Context>, out: PinSet)
    ensures Interleave(cs, [], out) == Start(cs, out)
  {
  }

  lemma InterleaveOnce(cs: seq<Context>, schedule: seq<nat>, i: nat, out: PinSet)
    ensures Interleave(cs, schedule + [i], out) == Step(cs, Interleave(cs, schedule, out), i)
  {
    assert (schedule + [i])[..|schedule|] == schedule;
  }

  /** The machine states of an inversion that is interrupted, after its snapshot, by another one. */
  lemma InterruptedSteps(m1: PinSet, m2: PinSet, out: PinSet)
    ensures
      var cs := TwoInversions(m1, m2);
      var none: PinSet := {};
      var half, both := out + (m2 - out), SymDiff(out, m2);
      && Step(cs, Machine(out, [none, none], [0, 0]), 0) == Machine(out, [out, none], [1, 0])
      && Step(cs, Machine(out, [out, none], [1, 0]), 1) == Machine(out, [out, out], [1, 1])
      && Step(cs, Machine(out, [out, out], [1, 1]), 1) == Machine(half, [out, out], [1, 2])
      && Step(cs, Machine(half, [out, out], [1, 2]), 1) == Machine(both, [out, out], [1, 3])
      && Step(cs, Machine(both, [out, out], [1, 3]), 0) == Machine(both + (m1 - out), [out, out], [2, 3])
      && Step(cs, Machine(both + (m1 - out), [out, out], [2, 3]), 0)
         == Machine(both + (m1 - out) - (m1 * out), [out, out], [3, 3])
  {
    var none: PinSet := {};
    assert out + (m2 - out) - (m2 * out) == SymDiff(out, m2);
    assert [none, none][0 := out] == [out, none] && [out, none][1 := out] == [out, out];
    assert [out, out][0 := out] == [out, out] && [out, out][1 := out] == [out, out];
    assert [0, 0][0 := 1] == [1, 0] && [1, 0][1 := 1] == [1, 1] && [1, 1][1 := 2] == [1, 2];
    assert [1, 2][1 := 3] == [1, 3] && [1, 3][0 := 2] == [2, 3] && [2, 3][0 := 3] == [3, 3];
  }

  /** A pin that both invert is then flipped once instead of twice, whatever its level was. */
  lemma SharedPinFlippedOnce(m1: PinSet, m2: PinSet, out: PinSet, p: nat)
    requires p in m1 && p in m2
    ensures p in SymDiff(out, m2) + (m1 - out) - (m1 * out) <==> p !in SymDiff(SymDiff(out, m1), m2)
  {
  }

  /**
    Two inversions that may interrupt each other anywhere always have the
    effect of both exactly when they have no pin in common.
   */
  lemma InversionsComposeExactlyWhen(m1: PinSet, m2: PinSet, out: PinSet)
    ensures
      var cs := TwoInversions(m1, m2);
      (forall schedule | Finished(cs, Interleave(cs, schedule, out)) ::
         Interleave(cs, schedule, out).out == SymDiff(SymDiff(out, m1), m2))
      <==> m1 !! m2
  {
    var cs := TwoInversions(m1, m2);
    if m1 !! m2 {
      forall schedule | Finished(cs, Interleave(cs, schedule, out))
        ensures Interleave(cs, schedule, out).out == SymDiff(SymDiff(out, m1), m2)
      {
        DisjointInversions(m1, m2, schedule, out);
      }
    } else {
      var p :| p in m1 && p in m2;
      var schedule := InterruptedInversion(m1, m2, out);
      SharedPinFlippedOnce(m1, m2, out, p);
    }
    hide Finished, Interleave;
  }
}
