/**
  The compile-time checks that keep two drivers from using the same serial
  peripheral instance.

  A configuration is a partial map from driver instances to the values of
  their `..._ENABLED` macros.  As in the preprocessor, a macro that is not
  defined counts as zero in an arithmetic condition.
 */
module SdkValidation {

  datatype Kind = TWIM | TWIS | SPIM | SPIS | SPI | TWI

  datatype Driver = Driver(kind: Kind, instance: nat)

  datatype Sharing = Undefined | Defined(value: nat)

  datatype Config = Config(enabled: map<Driver, nat>, resourceSharing: Sharing)

  function Value(c: Config, d: Driver): nat {
    if d in c.enabled then c.enabled[d] else 0
  }

  /** `#if defined(a) && defined(b) && (left + right) > 1` followed by `#error`. */
  datatype Check = Check(a: Driver, b: Driver, left: Driver, right: Driver)

  predicate Fires(c: Config, k: Check) {
    k.a in c.enabled && k.b in c.enabled && Value(c, k.left) + Value(c, k.right) > 1
  }

  /** A check that tests the two drivers it names. */
  function Pair(a: Kind, b: Kind, n: nat): Check {
    Check(Driver(a, n), Driver(b, n), Driver(a, n), Driver(b, n))
  }

  /** The fifteen checks on instance `n`, which is 0 or 1. */
  function InstanceChecks(n: nat): seq<Check> {
    [ Pair(TWIM, TWIS, n), Pair(TWIM, SPIM, n), Pair(TWIM, SPIS, n), Pair(TWIM, SPI, n), Pair(TWIM, TWI, n),
      Pair(TWIS, SPIM, n), Pair(TWIS, SPIS, n), Pair(TWIS, SPI, n), Pair(TWIS, TWI, n),
      Pair(SPIM, SPIS, n), Pair(SPIM, SPI, n), Pair(SPIM, TWI, n),
      Pair(SPIS, SPI, n), Pair(SPIS, TWI, n),
      Pair(SPI, TWI, n) ]
  }

  const SPI2 := Driver(SPI, 2)
  const SPIS2 := Driver(SPIS, 2)
  const SPIM2 := Driver(SPIM, 2)

  /** The checks on instance 2: all three add up the values of SPI2 and SPIS2. */
  const INSTANCE_2_CHECKS: seq<Check> :=
    [ Check(SPI2, SPIS2, SPI2, SPIS2), Check(SPIM2, SPIS2, SPI2, SPIS2), Check(SPIM2, SPI2, SPI2, SPIS2) ]

  /** The overlap checks are compiled in only when sharing is explicitly disabled. */
  predicate ChecksApply(c: Config) {
    c.resourceSharing.Defined? && c.resourceSharing.value == 0
  }

  predicate Passes(c: Config, checks: seq<Check>) {
    forall k | k in checks :: !Fires(c, k)
  }

  predicate Accepts(c: Config) {
    ChecksApply(c) ==>
      Passes(c, InstanceChecks(0)) && Passes(c, InstanceChecks(1)) && Passes(c, INSTANCE_2_CHECKS)
  }

  // ---------- Pairwise checks and the global statement ----------

  /** How many of the drivers have their macro defined. */
  function Defined(c: Config, ds: seq<Driver>): nat {
    if ds == [] then 0
    else
      var n := |ds| - 1;
      Defined(c, ds[..n]) + if ds[n] in c.enabled then 1 else 0
  }

  function Sum(c: Config, ds: seq<Driver>): nat {
    if ds == [] then 0
    else
      var n := |ds| - 1;
      Sum(c, ds[..n]) + Value(c, ds[n])
  }

  ghost predicate PairwiseOk(c: Config, ds: seq<Driver>) {
    forall i, j | 0 <= i < j < |ds| ::
      ds[i] in c.enabled && ds[j] in c.enabled ==> Value(c, ds[i]) + Value(c, ds[j]) <= 1
  }

  /** At most one driver is enabled; with fewer than two macros defined, nothing is checked. */
  predicate AtMostOne(c: Config, ds: seq<Driver>) {
    Defined(c, ds) < 2 || Sum(c, ds) <= 1
  }

  lemma {:induction false} AllZero(c: Config, ds: seq<Driver>)
    requires forall i | 0 <= i < |ds| :: Value(c, ds[i]) == 0
    ensures Sum(c, ds) == 0
  {
    if ds != [] {
      AllZero(c, ds[..|ds| - 1]);
    }
  }

  /** A driver that is defined, if there is one; the only one that adds to the sum, if there is just one. */
  lemma {:induction false} SomeDefined(c: Config, ds: seq<Driver>) returns (i: nat)
    requires Defined(c, ds) >= 1
    ensures i < |ds| && ds[i] in c.enabled
    ensures Defined(c, ds) == 1 ==> Sum(c, ds) == Value(c, ds[i])
  {
    var n := |ds| - 1;
    if Defined(c, ds[..n]) >= 1 {
      i := SomeDefined(c, ds[..n]);
    } else {
      i := n;
      NoneDefined(c, ds[..n]);
    }
  }

  lemma {:induction false} NoneDefined(c: Config, ds: seq<Driver>)
    requires Defined(c, ds) == 0
    ensures Sum(c, ds) == 0
  {
    if ds != [] {
      NoneDefined(c, ds[..|ds| - 1]);
    }
  }

  lemma {:induction false} PairBounds(c: Config, ds: seq<Driver>, i: nat, j: nat)
    requires i < j < |ds|
    ensures Value(c, ds[i]) + Value(c, ds[j]) <= Sum(c, ds)
    ensures ds[i] in c.enabled && ds[j] in c.enabled ==> Defined(c, ds) >= 2
  {
    var n := |ds| - 1;
    if j < n {
      PairBounds(c, ds[..n], i, j);
    } else {
      OneBounds(c, ds[..n], i);
    }
  }

  lemma {:induction false} OneBounds(c: Config, ds: seq<Driver>, i: nat)
    requires i < |ds|
    ensures Value(c, ds[i]) <= Sum(c, ds)
    ensures ds[i] in c.enabled ==> Defined(c, ds) >= 1
  {
    var n := |ds| - 1;
    if i < n {
      OneBounds(c, ds[..n], i);
    }
  }

  lemma {:induction false} PairwiseImpliesAtMostOne(c: Config, ds: seq<Driver>)
    requires PairwiseOk(c, ds)
    ensures AtMostOne(c, ds)
  {
    if Defined(c, ds) >= 2 {
      var n := |ds| - 1;
      var rest := ds[..n];
      PairwiseImpliesAtMostOne(c, rest);
      if ds[n] in c.enabled {
        var i := SomeDefined(c, rest);
        if Value(c, ds[n]) >= 1 {
          AllZero(c, rest);
        }
      }
    }
  }

  /**
    For any list of drivers and any values, the pairwise conditions say exactly
    that at most one driver is enabled.
   */
  lemma PairwiseIsGlobal(c: Config, ds: seq<Driver>)
    ensures PairwiseOk(c, ds) <==> AtMostOne(c, ds)
  {
    if AtMostOne(c, ds) {
      forall i, j | 0 <= i < j < |ds| && ds[i] in c.enabled && ds[j] in c.enabled
        ensures Value(c, ds[i]) + Value(c, ds[j]) <= 1
      {
        PairBounds(c, ds, i, j);
      }
    }
    if PairwiseOk(c, ds) {
      PairwiseImpliesAtMostOne(c, ds);
    }
  }

  // ---------- The validator ----------

  function Group(n: nat): seq<Driver> {
    [Driver(TWIM, n), Driver(TWIS, n), Driver(SPIM, n), Driver(SPIS, n), Driver(SPI, n), Driver(TWI, n)]
  }

  function Position(k: Kind): nat {
    match k
    case TWIM => 0
    case TWIS => 1
    case SPIM => 2
    case SPIS => 3
    case SPI => 4
    case TWI => 5
  }

  /** Where the check on the drivers at positions `i` and `j` of a group is found. */
  function CheckIndex(i: nat, j: nat): nat
    requires i < j
  {
    j - 1 + if i == 0 then 0 else if i == 1 then 4 else if i == 2 then 7 else if i == 3 then 9 else 10
  }

  lemma EveryPairIsChecked(n: nat, i: nat, j: nat)
    requires i < j < 6
    ensures CheckIndex(i, j) < 15
    ensures InstanceChecks(n)[CheckIndex(i, j)] == Check(Group(n)[i], Group(n)[j], Group(n)[i], Group(n)[j])
  {
  }

  lemma EveryCheckIsAPair(n: nat, k: Check)
    requires k in InstanceChecks(n)
    ensures Position(k.a.kind) < Position(k.b.kind) < 6
    ensures Group(n)[Position(k.a.kind)] == k.a == k.left && Group(n)[Position(k.b.kind)] == k.b == k.right
  {
  }

  /** The fifteen checks are the pairs of the six drivers: none is missing. */
  lemma ChecksArePairs(c: Config, n: nat)
    ensures Passes(c, InstanceChecks(n)) <==> PairwiseOk(c, Group(n))
  {
    hide InstanceChecks, Group, Position, CheckIndex;
    GroupSize(n);
    if Passes(c, InstanceChecks(n)) {
      forall i, j | 0 <= i < j < 6
        ensures !Fires(c, Check(Group(n)[i], Group(n)[j], Group(n)[i], Group(n)[j]))
      {
        EveryPairIsChecked(n, i, j);
        assert InstanceChecks(n)[CheckIndex(i, j)] in InstanceChecks(n);
      }
    }
    if PairwiseOk(c, Group(n)) {
      forall k | k in InstanceChecks(n)
        ensures !Fires(c, k)
      {
        EveryCheckIsAPair(n, k);
      }
    }
  }

  lemma GroupSize(n: nat)
    ensures |Group(n)| == 6 && |InstanceChecks(n)| == 15
  {
  }

  /** What the checks on instance 2 enforce, and all that they enforce. */
  predicate Instance2Ok(c: Config) {
    Defined(c, [SPI2, SPIS2, SPIM2]) < 2 || Value(c, SPI2) + Value(c, SPIS2) <= 1
  }

  lemma Defined3(c: Config, a: Driver, b: Driver, d: Driver)
    ensures Defined(c, [a, b, d])
         == (if a in c.enabled then 1 else 0) + (if b in c.enabled then 1 else 0) + (if d in c.enabled then 1 else 0)
    ensures Sum(c, [a, b, d]) == Value(c, a) + Value(c, b) + Value(c, d)
  {
    assert [a, b, d][..2] == [a, b] && [a, b][..1] == [a];
    assert Defined(c, [a]) == if a in c.enabled then 1 else 0;
    assert Sum(c, [a]) == Value(c, a);
  }

  /**
    A configuration is accepted exactly when, if sharing is explicitly disabled,
    at most one driver is enabled on instance 0, at most one on instance 1, and
    SPI2 and SPIS2 are not both enabled.
   */
  lemma AcceptedExactlyWhen(c: Config)
    ensures Accepts(c) <==>
      (c.resourceSharing == Sharing.Defined(0) ==>
         AtMostOne(c, Group(0)) && AtMostOne(c, Group(1)) && Instance2Ok(c))
  {
    ChecksArePairs(c, 0);
    ChecksArePairs(c, 1);
    PairwiseIsGlobal(c, Group(0));
    PairwiseIsGlobal(c, Group(1));
    Defined3(c, SPI2, SPIS2, SPIM2);
    var ks := INSTANCE_2_CHECKS;
    assert ks[0] in ks && ks[1] in ks && ks[2] in ks;
  }

  /**
    The three messages for instance 2 promise that at most one of SPI2, SPIS2
    and SPIM2 is enabled.  Of an accepted configuration this is true exactly
    when SPIM2 is not enabled along with another one.
   */
  lemma Instance2ExclusiveExactlyWhen(c: Config)
    requires c.resourceSharing == Sharing.Defined(0) && Accepts(c)
    ensures AtMostOne(c, [SPI2, SPIS2, SPIM2]) <==>
      || Defined(c, [SPI2, SPIS2, SPIM2]) < 2
      || Value(c, SPIM2) == 0
      || (Value(c, SPIM2) == 1 && Value(c, SPI2) == 0 && Value(c, SPIS2) == 0)
  {
    AcceptedExactlyWhen(c);
    Defined3(c, SPI2, SPIS2, SPIM2);
  }

  /** SPIM2 and SPI2 can both be enabled. */
  lemma Instance2NotExclusive()
    ensures
      var c := Config(map[SPI2 := 1, SPIS2 := 0, SPIM2 := 1], Sharing.Defined(0));
      Accepts(c) && !AtMostOne(c, [SPI2, SPIS2, SPIM2])
  {
    hide InstanceChecks;
    var c := Config(map[SPI2 := 1, SPIS2 := 0, SPIM2 := 1], Sharing.Defined(0));
    Defined3(c, SPI2, SPIS2, SPIM2);
    forall n, k | 0 <= n < 2 && k in InstanceChecks(n)
      ensures !Fires(c, k)
    {
      EveryCheckIsAPair(n, k);
      assert k.a.instance == n;
    }
  }

  // ---------- Register base addresses ----------

  /** The peripheral base address of a driver instance on the nRF52. */
  function Base(d: Driver): nat {
    if d.instance == 0 then 0x4000_3000
    else if d.instance == 1 then 0x4000_4000
    else 0x4002_3000
  }

  predicate Enabled(c: Config, d: Driver) {
    Value(c, d) >= 1
  }

  /** No two enabled drivers of instances 0 and 1 own the same registers. */
  ghost predicate OwnersUnique(c: Config) {
    forall d: Driver, e: Driver |
      d.instance < 2 && e.instance < 2 && Enabled(c, d) && Enabled(c, e) && Base(d) == Base(e) :: d == e
  }

  /** When sharing is enabled, or not mentioned, the drivers may share whatever they like. */
  lemma SharingAllowsAll(c: Config)
    ensures (forall enabled: map<Driver, nat> :: Accepts(c.(enabled := enabled)))
       <==> c.resourceSharing != Sharing.Defined(0)
  {
    if c.resourceSharing == Sharing.Defined(0) {
      var both := c.(enabled := map[Driver(SPI, 0) := 1, Driver(TWI, 0) := 1]);
      EveryPairIsChecked(0, 4, 5);
      assert InstanceChecks(0)[CheckIndex(4, 5)] in InstanceChecks(0);
      assert !Accepts(both);
    }
  }

  lemma PassingMeansUniqueOwners(c: Config)
    requires c.resourceSharing == Sharing.Defined(0) && Accepts(c)
    ensures OwnersUnique(c)
  {
    ChecksArePairs(c, 0);
    ChecksArePairs(c, 1);
    forall d: Driver, e: Driver |
      d.instance < 2 && e.instance < 2 && Enabled(c, d) && Enabled(c, e) && Base(d) == Base(e)
      ensures d == e
    {
      var g := Group(d.instance);
      assert g[Position(d.kind)] == d && g[Position(e.kind)] == e;
    }
  }

  /**
    For configurations that use the macros as switches (0 or 1): apart from
    instance 2, accepted means that no register block has two owners.
   */
  lemma AcceptedMeansUniqueOwners(c: Config)
    requires c.resourceSharing == Sharing.Defined(0) && forall d: Driver :: Value(c, d) <= 1
    ensures Accepts(c) <==> OwnersUnique(c) && Instance2Ok(c)
  {
    AcceptedExactlyWhen(c);
    if Accepts(c) {
      PassingMeansUniqueOwners(c);
    }
    if OwnersUnique(c) && Instance2Ok(c) {
      UniqueOwnersArePairwise(c, 0);
      UniqueOwnersArePairwise(c, 1);
    }
  }

  lemma UniqueOwnersArePairwise(c: Config, n: nat)
    requires n < 2 && OwnersUnique(c) && forall d: Driver :: Value(c, d) <= 1
    ensures AtMostOne(c, Group(n))
  {
    var g := Group(n);
    forall i, j | 0 <= i < j < |g|
      ensures Value(c, g[i]) + Value(c, g[j]) <= 1
    {
      assert g[i] != g[j] && Base(g[i]) == Base(g[j]);
    }
    PairwiseIsGlobal(c, g);
  }
}
