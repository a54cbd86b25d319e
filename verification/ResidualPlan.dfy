/** Which delta programs share a residual pack: one greedy walk per base. */
module ResidualPlan {
  import opened Sorting
  import opened Grouping
  import opened GreedyCut
  import opened ByteLayout
  import opened Numbers

  const MAX_RESIDUAL_PACK := 262144
  const MAX_AMPLIFICATION: real := 2.0
  const DESCRIPTOR_CHARGE := 16
  const MIN_NET_SAVING := 128

  datatype Program = Program(target: int, base: int, targetBytes: nat, rawDelta: Bytes, separateBytes: nat)

  // ----- The law that a group obeys

  function RawBytes(g: seq<Program>): nat {
    if g == [] then 0 else RawBytes(g[..|g| - 1]) + |g[|g| - 1].rawDelta|
  }

  /** Extra bytes read per byte of the target. */
  function Amplification(raw: nat, m: Program): real {
    raw as real / AtLeastOne(m.targetBytes) as real
  }

  function MaxAmplification(raw: nat, g: seq<Program>): real {
    if g == [] then 0.0
    else if |g| == 1 then Amplification(raw, g[0])
    else
      var rest, last := MaxAmplification(raw, g[..|g| - 1]), Amplification(raw, g[|g| - 1]);
      if last > rest then last else rest
  }

  function Law(limit: int): seq<Program> -> bool {
    (g: seq<Program>) => RawBytes(g) <= limit && MaxAmplification(RawBytes(g), g) <= MAX_AMPLIFICATION
  }

  /** The law without fractions. */
  predicate Bounded(g: seq<Program>, limit: int) {
    RawBytes(g) <= limit && forall m :: m in g ==> RawBytes(g) <= 2 * AtLeastOne(m.targetBytes)
  }

  lemma QuotientAtMostTwo(n: real, d: real)
    requires d > 0.0
    ensures n / d <= 2.0 <==> n <= 2.0 * d
  {
    assert (n / d) * d == n;
    if n / d <= 2.0 {
      assert (2.0 - n / d) * d >= 0.0;
    } else {
      assert (n / d - 2.0) * d > 0.0;
    }
  }

  lemma AmplificationExact(raw: nat, m: Program)
    ensures Amplification(raw, m) <= MAX_AMPLIFICATION <==> raw <= 2 * AtLeastOne(m.targetBytes)
  {
    var t := AtLeastOne(m.targetBytes);
    QuotientAtMostTwo(raw as real, t as real);
    assert 2.0 * t as real == (2 * t) as real;
  }

  lemma {:induction false} MaxAmplificationExact(raw: nat, g: seq<Program>)
    ensures MaxAmplification(raw, g) <= MAX_AMPLIFICATION <==>
            forall m :: m in g ==> raw <= 2 * AtLeastOne(m.targetBytes)
  {
    if |g| == 1 {
      AmplificationExact(raw, g[0]);
      assert g == [g[0]];
    } else if g != [] {
      var init, last := g[..|g| - 1], g[|g| - 1];
      assert g == init + [last];
      MaxAmplificationExact(raw, init);
      AmplificationExact(raw, last);
    }
  }

  lemma LawIsBounded(limit: int)
    ensures forall g :: Law(limit)(g) <==> Bounded(g, limit)
  {
    forall g ensures Law(limit)(g) <==> Bounded(g, limit) {
      MaxAmplificationExact(RawBytes(g), g);
    }
  }

  lemma {:induction false} RawBytesAppend(a: seq<Program>, b: seq<Program>)
    ensures RawBytes(a + b) == RawBytes(a) + RawBytes(b)
  {
    if b == [] {
      assert a + b == a;
    } else {
      assert (a + b)[..|a + b| - 1] == a + b[..|b| - 1];
      RawBytesAppend(a, b[..|b| - 1]);
    }
  }

  /** The law, and all of one base. */
  ghost function FullLaw(limit: int): seq<Program> -> bool {
    (g: seq<Program>) => Bounded(g, limit) && OneBase(g)
  }

  predicate OneBase(g: seq<Program>) {
    forall k :: 0 <= k < |g| ==> g[k].base == g[0].base
  }

  lemma BoundedSlice(a: seq<Program>, b: seq<Program>, c: seq<Program>, limit: int)
    requires Bounded(a + b + c, limit)
    ensures Bounded(b, limit)
  {
    RawBytesAppend(a + b, c);
    RawBytesAppend(a, b);
    forall m | m in b ensures RawBytes(b) <= 2 * AtLeastOne(m.targetBytes) {
      assert m in a + b + c;
    }
  }

  lemma FullLawClosed(limit: int)
    ensures SliceClosed(FullLaw(limit))
  {
    hide Bounded;
    forall a: seq<Program>, b: seq<Program>, c: seq<Program> | b != [] && FullLaw(limit)(a + b + c)
      ensures FullLaw(limit)(b)
    {
      BoundedSlice(a, b, c, limit);
      forall k | 0 <= k < |b| ensures b[k].base == b[0].base {
        assert (a + b + c)[|a| + k] == b[k] && (a + b + c)[|a|] == b[0];
      }
    }
  }

  // ----- The plan

  function BaseOf(p: Program): int { p.base }

  function TargetKey(p: Program): Key { (p.target, 0, 0) }

  /** The programs by base, in order of the bases. */
  function ByBase(programs: seq<Program>): seq<Bucket<Program>> {
    Sort(GroupBy(programs, BaseOf), BucketKey)
  }

  function PlanFrom(buckets: seq<Bucket<Program>>, limit: int): seq<seq<Program>> {
    if buckets == [] then []
    else PlanFrom(buckets[..|buckets| - 1], limit) + Cut(Sort(buckets[|buckets| - 1].members, TargetKey), Law(limit))
  }

  function Plan(programs: seq<Program>, limit: int): seq<seq<Program>> {
    PlanFrom(ByBase(programs), limit)
  }

  function InOrderFrom(buckets: seq<Bucket<Program>>): seq<Program> {
    if buckets == [] then []
    else InOrderFrom(buckets[..|buckets| - 1]) + Sort(buckets[|buckets| - 1].members, TargetKey)
  }

  /** All programs by base, and within a base by target. */
  function InOrder(programs: seq<Program>): seq<Program> {
    InOrderFrom(ByBase(programs))
  }

  // ----- One greedy walk per base is one greedy walk over all

  lemma {:induction false} CutOneBase(current: seq<Program>, items: seq<Program>, limit: int, base: int)
    requires forall p :: p in current || p in items ==> p.base == base
    ensures CutFrom(current, items, Law(limit)) == CutFrom(current, items, FullLaw(limit))
    decreases |items|
  {
    if items != [] {
      var x, rest := items[0], items[1..];
      assert items == [x] + rest;
      LawIsBounded(limit);
      assert OneBase(current + [x]);
      assert Law(limit)(current + [x]) == FullLaw(limit)(current + [x]);
      CutOneBase([x], rest, limit, base);
      CutOneBase(current + [x], rest, limit, base);
    }
  }

  lemma BaseChanges(current: seq<Program>, x: Program, limit: int)
    requires current != [] && current[0].base != x.base
    ensures !FullLaw(limit)(current + [x])
  {
    assert (current + [x])[0] == current[0] && (current + [x])[|current|] == x;
  }

  /** A cut is forced wherever the base changes. */
  lemma {:induction false} CutJoin(current: seq<Program>, a: seq<Program>, b: seq<Program>, limit: int)
    requires b != [] && forall p :: p in current || p in a ==> p.base != b[0].base
    ensures CutFrom(current, a + b, FullLaw(limit)) ==
            CutFrom(current, a, FullLaw(limit)) + CutFrom([], b, FullLaw(limit))
    decreases |a|
  {
    hide FullLaw;
    var law := FullLaw(limit);
    if a == [] {
      assert a + b == b;
      if current != [] {
        BaseChanges(current, b[0], limit);
        assert [] + [b[0]] == [b[0]];
      }
    } else {
      var x, rest := a[0], a[1..];
      assert a == [x] + rest && (a + b)[1..] == rest + b;
      if current != [] && !law(current + [x]) {
        CutJoin([x], rest, b, limit);
      } else {
        CutJoin(current + [x], rest, b, limit);
      }
    }
  }

  ghost predicate KeyedByBase(buckets: seq<Bucket<Program>>) {
    && DistinctKeys(buckets)
    && forall g :: g in buckets ==> g.members != [] && forall p :: p in g.members ==> p.base == g.key
  }

  lemma {:induction false} InOrderBases(buckets: seq<Bucket<Program>>)
    requires KeyedByBase(buckets)
    ensures forall p :: p in InOrderFrom(buckets) ==> HasKey(buckets, p.base)
    ensures multiset(InOrderFrom(buckets)) == multiset(Listed(buckets))
  {
    if buckets != [] {
      var init, g := buckets[..|buckets| - 1], buckets[|buckets| - 1];
      assert buckets == init + [g] && [g][1..] == [];
      InOrderBases(init);
      MembersMatch(g.members, Sort(g.members, TargetKey));
      ListedAppend(init, [g]);
      assert Listed([g]) == g.members;
      forall p | p in InOrderFrom(buckets) ensures HasKey(buckets, p.base) {
        if p in InOrderFrom(init) {
          var b :| b in init && b.key == p.base;
          assert b in buckets;
        } else {
          assert p in g.members && g in buckets;
        }
      }
    }
  }

  /** Everything listed before the last bucket has a base of an earlier bucket. */
  lemma EarlierBases(buckets: seq<Bucket<Program>>)
    requires buckets != [] && KeyedByBase(buckets)
    ensures KeyedByBase(buckets[..|buckets| - 1])
    ensures var last := buckets[|buckets| - 1];
            forall p :: p in InOrderFrom(buckets[..|buckets| - 1]) ==>
              p.base != last.key && (Ascending(buckets, BucketKey) ==> p.base < last.key)
  {
    var init, last := buckets[..|buckets| - 1], buckets[|buckets| - 1];
    assert buckets == init + [last];
    InOrderBases(init);
    forall p | p in InOrderFrom(init)
      ensures p.base != last.key && (Ascending(buckets, BucketKey) ==> p.base < last.key)
    {
      var x :| x in init && x.key == p.base;
      var i :| 0 <= i < |init| && init[i] == x;
      assert buckets[i] == x && buckets[i].key != buckets[|init|].key;
      assert Ascending(buckets, BucketKey) ==> Le(BucketKey(buckets[i]), BucketKey(buckets[|init|]));
    }
  }

  lemma {:induction false} OneWalk(buckets: seq<Bucket<Program>>, limit: int)
    requires KeyedByBase(buckets)
    ensures PlanFrom(buckets, limit) == Cut(InOrderFrom(buckets), FullLaw(limit))
  {
    if buckets != [] {
      var init, g := buckets[..|buckets| - 1], buckets[|buckets| - 1];
      assert buckets == init + [g] && g in buckets;
      OneWalk(init, limit);
      var a, b := InOrderFrom(init), Sort(g.members, TargetKey);
      MembersMatch(g.members, b);
      CutOneBase([], b, limit, g.key);
      assert b[0] in b;
      EarlierBases(buckets);
      CutJoin([], a, b, limit);
    }
  }

  lemma ByBaseKeyed(programs: seq<Program>)
    ensures KeyedByBase(ByBase(programs))
    ensures multiset(Listed(ByBase(programs))) == multiset(programs)
  {
    GroupByGroups(programs, BaseOf);
    SortGrouped(GroupBy(programs, BaseOf), programs, BaseOf, BucketKey);
    ListedPermutes(programs, BaseOf);
    ListedSort(GroupBy(programs, BaseOf), ByBase(programs));
  }

  lemma AdmissibleGroups(groups: seq<seq<Program>>, limit: int)
    requires AllAdmissible(groups, FullLaw(limit))
    ensures forall g :: g in groups ==> g != [] && OneBase(g) && (|g| > 1 ==> Bounded(g, limit))
  {
    hide Bounded;
    forall g | g in groups ensures g != [] && OneBase(g) && (|g| > 1 ==> Bounded(g, limit)) {
      assert Admissible(g, FullLaw(limit));
    }
  }

  lemma FewestGroups(ordered: seq<Program>, limit: int)
    ensures forall rival :: AllAdmissible(rival, FullLaw(limit)) && Flatten(rival) == ordered ==>
              |Cut(ordered, FullLaw(limit))| <= |rival|
  {
    hide Cut, FullLaw, Flatten, AllAdmissible;
    FullLawClosed(limit);
    forall rival | AllAdmissible(rival, FullLaw(limit)) && Flatten(rival) == ordered
      ensures |Cut(ordered, FullLaw(limit))| <= |rival|
    {
      CutIsLeast(ordered, FullLaw(limit), rival);
    }
  }

  /** For every limit the plan holds every program once, in order of base and target, in groups of one
      base; a group of several stays within the limit and within twice each member's target; and no
      other way to cut that order into such groups has fewer. */
  lemma PlanExact(programs: seq<Program>, limit: int)
    ensures multiset(InOrder(programs)) == multiset(programs)
    ensures Flatten(Plan(programs, limit)) == InOrder(programs)
    ensures forall g :: g in Plan(programs, limit) ==> g != [] && OneBase(g) && (|g| > 1 ==> Bounded(g, limit))
    ensures forall rival :: AllAdmissible(rival, FullLaw(limit)) && Flatten(rival) == InOrder(programs) ==>
              |Plan(programs, limit)| <= |rival|
  {
    hide ByBase, Bounded, FullLaw, OneBase, KeyedByBase, AllAdmissible, Flatten;
    var ordered := InOrder(programs);
    ByBaseKeyed(programs);
    InOrderBases(ByBase(programs));
    OneWalk(ByBase(programs), limit);
    CutPartitions([], ordered, FullLaw(limit));
    assert [] + ordered == ordered;
    AdmissibleGroups(Plan(programs, limit), limit);
    FewestGroups(ordered, limit);
  }

  /** A larger limit never needs more groups. */
  lemma LargerLimitFewerGroups(programs: seq<Program>, small: int, large: int)
    requires small <= large
    ensures |Plan(programs, large)| <= |Plan(programs, small)|
  {
    ByBaseKeyed(programs);
    OneWalk(ByBase(programs), small);
    OneWalk(ByBase(programs), large);
    FullLawClosed(large);
    WeakerLawFewerGroups(InOrder(programs), FullLaw(small), FullLaw(large));
  }

  ghost predicate Ordered(s: seq<Program>) {
    Ascending(s, BaseThenTarget)
  }

  function BaseThenTarget(p: Program): Key { (p.base, p.target, 0) }

  lemma AscendingJoin(a: seq<Program>, b: seq<Program>, base: int)
    requires Ordered(a) && Ascending(b, TargetKey)
    requires (forall p :: p in a ==> p.base < base) && (forall p :: p in b ==> p.base == base)
    ensures Ordered(a + b)
  {
    var all := a + b;
    forall i, j | 0 <= i < j < |all| ensures Le(BaseThenTarget(all[i]), BaseThenTarget(all[j])) {
      if i < |a| <= j {
        assert all[i] in a && all[j] in b;
      } else if j < |a| {
        assert Le(BaseThenTarget(a[i]), BaseThenTarget(a[j]));
      } else {
        assert Le(TargetKey(b[i - |a|]), TargetKey(b[j - |a|])) && all[i] in b && all[j] in b;
      }
    }
  }

  lemma {:induction false} InOrderAscends(buckets: seq<Bucket<Program>>)
    requires KeyedByBase(buckets) && Ascending(buckets, BucketKey)
    ensures Ordered(InOrderFrom(buckets))
  {
    hide Ordered;
    if buckets != [] {
      var init, g := buckets[..|buckets| - 1], buckets[|buckets| - 1];
      assert g in buckets;
      EarlierBases(buckets);
      AscendingTake(buckets, |buckets| - 1, BucketKey);
      InOrderAscends(init);
      SortAscends(g.members, TargetKey);
      MembersMatch(g.members, Sort(g.members, TargetKey));
      AscendingJoin(InOrderFrom(init), Sort(g.members, TargetKey), g.key);
    } else {
      NothingOrdered();
    }
  }

  lemma NothingOrdered()
    ensures Ordered([])
  {
  }

  /** The order that the plan cuts is by base, then by target. */
  lemma PlanOrder(programs: seq<Program>)
    ensures Ordered(InOrder(programs))
  {
    ByBaseKeyed(programs);
    SortAscends(GroupBy(programs, BaseOf), BucketKey);
    InOrderAscends(ByBase(programs));
  }

  // ----- What a group costs, and which groups are kept

  datatype Group = Group(
    base: int, targets: seq<int>, members: nat, rawBytes: nat, separateBytes: nat, packedPayload: nat,
    packedBytes: nat, charge: nat, netSaving: int, maxAmplification: real)

  type Compressor = Bytes -> Bytes

  function Joined(g: seq<Program>): Bytes {
    if g == [] then [] else Joined(g[..|g| - 1]) + g[|g| - 1].rawDelta
  }

  function SeparateBytes(g: seq<Program>): nat {
    if g == [] then 0 else SeparateBytes(g[..|g| - 1]) + g[|g| - 1].separateBytes
  }

  function Targets(g: seq<Program>): (r: seq<int>)
    ensures |r| == |g|
  {
    seq(|g|, k requires 0 <= k < |g| => g[k].target)
  }

  /** `_pack_group` */
  function PackGroup(g: seq<Program>, compress: Compressor, header: nat): Group
    requires g != []
  {
    var raw := Joined(g);
    var payload := |compress(raw)|;
    var separate, packed, charge := SeparateBytes(g), header + payload, DESCRIPTOR_CHARGE * |g|;
    Group(g[0].base, Targets(g), |g|, |raw|, separate, payload, packed, charge, separate - packed - charge,
          MaxAmplification(|raw|, g))
  }

  predicate Eligible(g: Group) {
    && g.members >= 2
    && g.rawBytes <= MAX_RESIDUAL_PACK
    && g.maxAmplification <= MAX_AMPLIFICATION
    && g.netSaving >= MIN_NET_SAVING
  }

  lemma {:induction false} JoinedLength(g: seq<Program>)
    ensures |Joined(g)| == RawBytes(g)
  {
    if g != [] {
      JoinedLength(g[..|g| - 1]);
    }
  }

  /** The amplification filter is redundant for every limit. */
  lemma AmplificationFilterRedundant(
    programs: seq<Program>, limit: int, g: seq<Program>, compress: Compressor, header: nat)
    requires g in Plan(programs, limit)
    ensures g != []
    ensures Eligible(PackGroup(g, compress, header)) <==>
            && |g| >= 2 && RawBytes(g) <= MAX_RESIDUAL_PACK
            && PackGroup(g, compress, header).netSaving >= MIN_NET_SAVING
    ensures |g| >= 2 ==> RawBytes(g) <= limit
  {
    hide Plan, MaxAmplification;
    PlanExact(programs, limit);
    JoinedLength(g);
    MaxAmplificationExact(RawBytes(g), g);
  }

  /** Membership and net saving decide alone. */
  ghost predicate SizeFilterRedundant(limit: int, compress: Compressor, header: nat) {
    forall programs, g :: g in Plan(programs, limit) && g != [] ==>
      (Eligible(PackGroup(g, compress, header)) <==>
       |g| >= 2 && PackGroup(g, compress, header).netSaving >= MIN_NET_SAVING)
  }

  /** The size filter is redundant exactly for the limits up to 256 KiB, which are the shipped ones. */
  lemma SizeFilterExact(limit: int, compress: Compressor, header: nat)
    ensures SizeFilterRedundant(limit, compress, header) <==> limit <= MAX_RESIDUAL_PACK
  {
    hide Plan, Eligible, PackGroup;
    if limit <= MAX_RESIDUAL_PACK {
      forall programs, g | g in Plan(programs, limit) && g != []
        ensures Eligible(PackGroup(g, compress, header)) <==>
                |g| >= 2 && PackGroup(g, compress, header).netSaving >= MIN_NET_SAVING
      {
        AmplificationFilterRedundant(programs, limit, g, compress, header);
      }
    } else {
      var programs, g := SizeFilterDecides(limit, compress, header);
    }
  }

  function Filler(n: nat): Bytes {
    seq(n, _ => 0)
  }

  /** For a larger limit a group passes every other filter and fails that one. */
  lemma SizeFilterDecides(limit: int, compress: Compressor, header: nat)
    returns (programs: seq<Program>, g: seq<Program>)
    requires limit > MAX_RESIDUAL_PACK
    ensures g in Plan(programs, limit) && |g| == 2
    ensures var packed := PackGroup(g, compress, header);
            && packed.members >= 2 && packed.maxAmplification <= MAX_AMPLIFICATION
            && packed.netSaving >= MIN_NET_SAVING && packed.rawBytes > MAX_RESIDUAL_PACK
            && !Eligible(packed)
  {
    hide Plan, MaxAmplification;
    var a := Program(0, 0, MAX_RESIDUAL_PACK, Filler(MAX_RESIDUAL_PACK), 0);
    var b := Program(1, 0, MAX_RESIDUAL_PACK, Filler(1), 0);
    var cost := header + |compress(Joined([a, b]))| + 2 * DESCRIPTOR_CHARGE + MIN_NET_SAVING;
    var rich := b.(separateBytes := cost);
    programs := [a, rich];
    g := programs;
    PairPlan(a, rich, limit);
    JoinedPair(a, rich, b);
    JoinedLength(g);
    PairRaw(a, rich);
    SeparatePair(a, rich);
    MaxAmplificationExact(RawBytes(g), g);
  }

  lemma JoinedPair(a: Program, b: Program, c: Program)
    requires b.rawDelta == c.rawDelta
    ensures Joined([a, b]) == Joined([a, c])
  {
    assert [a, b][..1] == [a] == [a, c][..1];
  }

  lemma SeparatePair(a: Program, b: Program)
    ensures SeparateBytes([a, b]) == a.separateBytes + b.separateBytes
  {
    assert [a, b][..1] == [a] && [a][..0] == [];
    assert SeparateBytes([a]) == a.separateBytes;
  }

  lemma PairRaw(a: Program, b: Program)
    ensures RawBytes([a, b]) == |a.rawDelta| + |b.rawDelta|
  {
    assert [a, b] == [a] + [b];
    RawBytesAppend([a], [b]);
    assert [a][..0] == [] && [b][..0] == [];
  }

  lemma PairOrder(a: Program, b: Program)
    requires a.base == b.base && a.target < b.target
    ensures InOrder([a, b]) == [a, b]
  {
    hide InOrder, Plan, FullLaw, Bounded, AllAdmissible, OneBase, Flatten;
    var s := [a, b];
    PlanExact(s, 0);
    PlanOrder(s);
    assert Ascending(s, BaseThenTarget) && InjectiveOn(s, BaseThenTarget);
    OrderedUnique(s, InOrder(s), BaseThenTarget);
  }

  lemma PairAdmissible(a: Program, b: Program, limit: int)
    requires a.base == b.base && |a.rawDelta| + |b.rawDelta| <= limit
    requires |a.rawDelta| + |b.rawDelta| <= 2 * AtLeastOne(a.targetBytes)
    requires |a.rawDelta| + |b.rawDelta| <= 2 * AtLeastOne(b.targetBytes)
    ensures AllAdmissible([[a, b]], FullLaw(limit)) && Flatten([[a, b]]) == [a, b]
  {
    hide RawBytes;
    PairRaw(a, b);
    assert FullLaw(limit)([a, b]);
    assert [[a, b]][1..] == [] && [a, b] + [] == [a, b];
  }

  lemma PairPlan(a: Program, b: Program, limit: int)
    requires a.base == b.base && a.target < b.target && |a.rawDelta| + |b.rawDelta| <= limit
    requires |a.rawDelta| + |b.rawDelta| <= 2 * AtLeastOne(a.targetBytes)
    requires |a.rawDelta| + |b.rawDelta| <= 2 * AtLeastOne(b.targetBytes)
    ensures [a, b] in Plan([a, b], limit)
  {
    hide Plan, InOrder, AllAdmissible, FullLaw, Flatten;
    PlanExact([a, b], limit);
    PairOrder(a, b);
    PairAdmissible(a, b, limit);
    OneGroup(Plan([a, b], limit), [a, b]);
  }

  lemma OneGroup(groups: seq<seq<Program>>, s: seq<Program>)
    requires |groups| <= 1 && Flatten(groups) == s && s != []
    ensures s in groups
  {
    assert groups[1..] == [];
    assert groups[0] + [] == groups[0];
  }

  ghost predicate NoneEmpty(groups: seq<seq<Program>>) {
    forall k :: 0 <= k < |groups| ==> groups[k] != []
  }

  ghost function PackAll(groups: seq<seq<Program>>, compress: Compressor, header: nat): (r: seq<Group>)
    requires NoneEmpty(groups)
    ensures |r| == |groups|
  {
    if groups == [] then []
    else PackAll(groups[..|groups| - 1], compress, header) + [PackGroup(groups[|groups| - 1], compress, header)]
  }

  function Kept(groups: seq<Group>): seq<Group> {
    if groups == [] then []
    else Kept(groups[..|groups| - 1]) + if Eligible(groups[|groups| - 1]) then [groups[|groups| - 1]] else []
  }

  function NetSaving(groups: seq<Group>): int {
    if groups == [] then 0 else NetSaving(groups[..|groups| - 1]) + groups[|groups| - 1].netSaving
  }

  /** Bytes when eligible groups are packed, with their descriptors, and all others stay separate. */
  function FinalBytes(groups: seq<Group>): int {
    if groups == [] then 0
    else
      var g := groups[|groups| - 1];
      FinalBytes(groups[..|groups| - 1]) + if Eligible(g) then g.packedBytes + g.charge else g.separateBytes
  }

  lemma {:induction false} SavingOfGroups(groups: seq<seq<Program>>, compress: Compressor, header: nat)
    requires NoneEmpty(groups)
    ensures var all := PackAll(groups, compress, header);
            && SeparateBytes(Flatten(groups)) == FinalBytes(all) + NetSaving(Kept(all))
            && NetSaving(Kept(all)) >= MIN_NET_SAVING * |Kept(all)|
  {
    if groups != [] {
      var init, g := groups[..|groups| - 1], groups[|groups| - 1];
      assert groups == init + [g] && [g][1..] == [];
      SavingOfGroups(init, compress, header);
      FlattenAppend(init, [g]);
      assert Flatten([g]) == g;
      SeparateAppend(Flatten(init), g);
      SavingStep(PackAll(init, compress, header), PackGroup(g, compress, header));
    }
  }

  lemma SavingStep(before: seq<Group>, last: Group)
    requires last.netSaving == last.separateBytes - last.packedBytes - last.charge
    ensures FinalBytes(before + [last]) + NetSaving(Kept(before + [last]))
            == FinalBytes(before) + NetSaving(Kept(before)) + last.separateBytes
    ensures NetSaving(Kept(before + [last])) - MIN_NET_SAVING * |Kept(before + [last])|
            >= NetSaving(Kept(before)) - MIN_NET_SAVING * |Kept(before)|
  {
    assert (before + [last])[..|before|] == before;
    if Eligible(last) {
      assert (Kept(before) + [last])[..|Kept(before)|] == Kept(before);
    } else {
      assert Kept(before) + [] == Kept(before);
    }
  }

  function ProgramsIn(groups: seq<Group>): nat {
    if groups == [] then 0 else ProgramsIn(groups[..|groups| - 1]) + groups[|groups| - 1].members
  }

  /** `max(..., default=0.0)`: no amplification is negative. */
  function WorstAmplification(groups: seq<Group>): (r: real)
    ensures r >= 0.0
  {
    if groups == [] then 0.0
    else
      var rest, last := WorstAmplification(groups[..|groups| - 1]), groups[|groups| - 1].maxAmplification;
      if last > rest then last else rest
  }

  lemma {:induction false} WorstExact(groups: seq<Group>)
    requires forall g :: g in groups ==> g.maxAmplification >= 0.0
    ensures forall g :: g in groups ==> g.maxAmplification <= WorstAmplification(groups)
    ensures groups != [] ==> exists g :: g in groups && g.maxAmplification == WorstAmplification(groups)
  {
    if groups != [] {
      var init, last := groups[..|groups| - 1], groups[|groups| - 1];
      assert groups == init + [last];
      WorstExact(init);
      assert last in groups;
    }
  }

  lemma {:induction false} AmplificationNonNegative(raw: nat, g: seq<Program>)
    ensures MaxAmplification(raw, g) >= 0.0
  {
    if |g| > 1 {
      AmplificationNonNegative(raw, g[..|g| - 1]);
    }
  }

  lemma {:induction false} KeptExact(groups: seq<Group>)
    ensures forall g :: g in Kept(groups) <==> g in groups && Eligible(g)
    ensures 2 * |Kept(groups)| <= ProgramsIn(Kept(groups)) <= ProgramsIn(groups)
  {
    if groups != [] {
      var init, last := groups[..|groups| - 1], groups[|groups| - 1];
      assert groups == init + [last];
      KeptExact(init);
      if Eligible(last) {
        assert (Kept(init) + [last])[..|Kept(init)|] == Kept(init);
      } else {
        assert Kept(groups) == Kept(init);
      }
    }
  }

  lemma {:induction false} PackedPrograms(groups: seq<seq<Program>>, compress: Compressor, header: nat)
    requires NoneEmpty(groups)
    ensures var all := PackAll(groups, compress, header);
            && ProgramsIn(all) == |Flatten(groups)|
            && forall g :: g in all ==> g.maxAmplification >= 0.0
  {
    if groups != [] {
      var init, g := groups[..|groups| - 1], groups[|groups| - 1];
      assert groups == init + [g] && [g][1..] == [];
      PackedPrograms(init, compress, header);
      FlattenAppend(init, [g]);
      assert Flatten([g]) == g;
      AmplificationNonNegative(|Joined(g)|, g);
      var before, all := PackAll(init, compress, header), PackAll(groups, compress, header);
      assert all[..|before|] == before;
    }
  }

  /** The totals of a plan: its groups have every program once, the kept ones at least two each, and the
      reported amplification is that of the worst kept group, at most 2. */
  lemma PlanTotals(programs: seq<Program>, limit: int, compress: Compressor, header: nat)
    ensures NoneEmpty(Plan(programs, limit))
    ensures var all := PackAll(Plan(programs, limit), compress, header);
            && ProgramsIn(all) == |programs|
            && 2 * |Kept(all)| <= ProgramsIn(Kept(all)) <= |programs|
            && 0.0 <= WorstAmplification(Kept(all)) <= MAX_AMPLIFICATION
            && (forall g :: g in Kept(all) ==> g.maxAmplification <= WorstAmplification(Kept(all)))
            && (Kept(all) != [] ==>
                  exists g :: g in Kept(all) && g.maxAmplification == WorstAmplification(Kept(all)))
  {
    hide Plan, PackAll, Kept, ProgramsIn, WorstAmplification, InOrder, NoneEmpty;
    PlanExact(programs, limit);
    PlanNoneEmpty(programs, limit);
    MembersMatch(InOrder(programs), programs);
    var all := PackAll(Plan(programs, limit), compress, header);
    PackedPrograms(Plan(programs, limit), compress, header);
    KeptExact(all);
    WorstExact(Kept(all));
    if Kept(all) == [] {
      NoGroups();
    }
  }

  lemma {:induction false} SeparateAppend(a: seq<Program>, b: seq<Program>)
    ensures SeparateBytes(a + b) == SeparateBytes(a) + SeparateBytes(b)
  {
    if b == [] {
      assert a + b == a;
    } else {
      assert (a + b)[..|a + b| - 1] == a + b[..|b| - 1];
      SeparateAppend(a, b[..|b| - 1]);
    }
  }

  lemma PlanNoneEmpty(programs: seq<Program>, limit: int)
    ensures NoneEmpty(Plan(programs, limit))
  {
    hide Plan;
    PlanExact(programs, limit);
    forall k | 0 <= k < |Plan(programs, limit)| ensures Plan(programs, limit)[k] != [] {
      assert Plan(programs, limit)[k] in Plan(programs, limit);
    }
  }

  /** The plan's net saving is exactly what packing the eligible groups takes off the separate records,
      and at least the minimum for each of them. */
  lemma SavingConserved(programs: seq<Program>, limit: int, compress: Compressor, header: nat)
    ensures NoneEmpty(Plan(programs, limit))
    ensures var all := PackAll(Plan(programs, limit), compress, header);
            && SeparateBytes(InOrder(programs)) == FinalBytes(all) + NetSaving(Kept(all))
            && NetSaving(Kept(all)) >= MIN_NET_SAVING * |Kept(all)|
  {
    hide Plan;
    PlanExact(programs, limit);
    PlanNoneEmpty(programs, limit);
    SavingOfGroups(Plan(programs, limit), compress, header);
  }

  // ----- The procedure

  lemma CutStep(current: seq<Program>, rows: seq<Program>, k: nat, limit: int)
    requires k < |rows|
    ensures CutFrom(current, rows[k..], Law(limit)) ==
            if current != [] && !Law(limit)(current + [rows[k]])
            then [current] + CutFrom([rows[k]], rows[k + 1..], Law(limit))
            else CutFrom(current + [rows[k]], rows[k + 1..], Law(limit))
  {
    assert rows[k..][0] == rows[k] && rows[k..][1..] == rows[k + 1..];
  }

  lemma RawStep(current: seq<Program>, row: Program)
    ensures RawBytes(current + [row]) == RawBytes(current) + |row.rawDelta|
  {
    assert (current + [row])[..|current|] == current;
  }

  /** The programs of one base, in target order. */
  method WalkBase(rows: seq<Program>, limit: int) returns (groups: seq<seq<Program>>)
    ensures groups == Cut(rows, Law(limit))
  {
    hide RawBytes, MaxAmplification;
    groups := [];
    var current: seq<Program> := [];
    var currentRaw := 0;
    ghost var whole := Cut(rows, Law(limit));
    assert rows[0..] == rows;
    NoRaw();
    for k := 0 to |rows|
      invariant whole == groups + CutFrom(current, rows[k..], Law(limit))
      invariant currentRaw == RawBytes(current)
    {
      var row := rows[k];
      CutStep(current, rows, k, limit);
      RawStep(current, row);
      RawStep([], row);
      NoRaw();
      assert [] + [row] == [row];
      var candidateRaw := currentRaw + |row.rawDelta|;
      var candidateMembers := current + [row];
      if current != []
         && (candidateRaw > limit || MaxAmplification(candidateRaw, candidateMembers) > MAX_AMPLIFICATION)
      {
        ghost var rest := CutFrom([row], rows[k + 1..], Law(limit));
        assert groups + ([current] + rest) == (groups + [current]) + rest;
        groups := groups + [current];
        current := [row];
        currentRaw := |row.rawDelta|;
      } else {
        current := candidateMembers;
        currentRaw := candidateRaw;
      }
    }
    if current != [] {
      groups := groups + [current];
    }
  }

  lemma NoRaw()
    ensures RawBytes([]) == 0
  {
  }

  method GroupPrograms(programs: seq<Program>) returns (byBase: seq<Bucket<Program>>)
    ensures byBase == GroupBy(programs, BaseOf)
  {
    byBase := [];
    for i := 0 to |programs|
      invariant byBase == GroupBy(programs[..i], BaseOf)
    {
      assert programs[..i + 1] == programs[..i] + [programs[i]];
      GroupByStep(programs[..i], programs[i], BaseOf);
      byBase := AddTo(byBase, programs[i].base, programs[i]);
    }
    assert programs[..|programs|] == programs;
  }

  datatype PlanResult = PlanResult(
    limit: int, groups: seq<Group>, eligible: seq<Group>, eligiblePrograms: nat, netSaving: int,
    maxAmplification: real)

  lemma NothingPacked(compress: Compressor, header: nat)
    ensures NoneEmpty([]) && PackAll([], compress, header) == []
  {
  }

  lemma PackAllStep(raws: seq<seq<Program>>, k: nat, compress: Compressor, header: nat)
    requires k < |raws| && NoneEmpty(raws)
    ensures raws[k] != [] && NoneEmpty(raws[..k]) && NoneEmpty(raws[..k + 1])
    ensures PackAll(raws[..k + 1], compress, header)
            == PackAll(raws[..k], compress, header) + [PackGroup(raws[k], compress, header)]
  {
    assert raws[..k + 1][..k] == raws[..k];
  }

  lemma KeptStep(groups: seq<Group>, g: Group)
    ensures Kept(groups + [g]) == if Eligible(g) then Kept(groups) + [g] else Kept(groups)
  {
    assert (groups + [g])[..|groups|] == groups;
  }

  lemma TotalsStep(groups: seq<Group>, g: Group)
    ensures NetSaving(groups + [g]) == NetSaving(groups) + g.netSaving
    ensures ProgramsIn(groups + [g]) == ProgramsIn(groups) + g.members
    ensures WorstAmplification(groups + [g]) ==
            if g.maxAmplification > WorstAmplification(groups) then g.maxAmplification else WorstAmplification(groups)
  {
    assert (groups + [g])[..|groups|] == groups;
  }

  lemma NoGroups()
    ensures Kept([]) == [] && NetSaving([]) == 0 && ProgramsIn([]) == 0 && WorstAmplification([]) == 0.0
  {
  }

  /** `_pack_group` of every group, the filter and the totals. */
  method PackAndFilter(raws: seq<seq<Program>>, compress: Compressor, header: nat)
    returns (groups: seq<Group>, eligible: seq<Group>, members: nat, netSaving: int, worst: real)
    requires NoneEmpty(raws)
    ensures groups == PackAll(raws, compress, header) && eligible == Kept(groups) && netSaving == NetSaving(eligible)
    ensures members == ProgramsIn(eligible) && worst == WorstAmplification(eligible)
  {
    hide PackGroup, Eligible, PackAll, NoneEmpty, Kept, NetSaving, ProgramsIn, WorstAmplification;
    NothingPacked(compress, header);
    NoGroups();
    groups, eligible, members, netSaving, worst := [], [], 0, 0, 0.0;
    for k := 0 to |raws|
      invariant NoneEmpty(raws[..k]) && groups == PackAll(raws[..k], compress, header)
      invariant eligible == Kept(groups) && netSaving == NetSaving(eligible)
      invariant members == ProgramsIn(eligible) && worst == WorstAmplification(eligible)
    {
      PackAllStep(raws, k, compress, header);
      var g := PackGroup(raws[k], compress, header);
      KeptStep(groups, g);
      groups := groups + [g];
      if Eligible(g) {
        TotalsStep(eligible, g);
        eligible := eligible + [g];
        members := members + g.members;
        netSaving := netSaving + g.netSaving;
        if g.maxAmplification > worst {
          worst := g.maxAmplification;
        }
      }
    }
    assert raws[..|raws|] == raws;
  }

  /** The groups of all bases, in order of the bases. */
  method WalkBases(programs: seq<Program>, limit: int) returns (raws: seq<seq<Program>>)
    ensures raws == Plan(programs, limit)
  {
    hide Law;
    var byBase := GroupPrograms(programs);
    var buckets := Sort(byBase, BucketKey);
    raws := [];
    for k := 0 to |buckets|
      invariant raws == PlanFrom(buckets[..k], limit)
    {
      assert buckets[..k + 1][..k] == buckets[..k];
      var walked := WalkBase(Sort(buckets[k].members, TargetKey), limit);
      raws := raws + walked;
    }
    assert buckets[..|buckets|] == buckets;
  }

  /** `_plan` */
  method MakePlan(programs: seq<Program>, limit: int, compress: Compressor, header: nat) returns (r: PlanResult)
    ensures NoneEmpty(Plan(programs, limit))
    ensures var groups := PackAll(Plan(programs, limit), compress, header);
            r == PlanResult(limit, groups, Kept(groups), ProgramsIn(Kept(groups)), NetSaving(Kept(groups)),
                            WorstAmplification(Kept(groups)))
  {
    hide Plan, NoneEmpty, PackAll, Kept, NetSaving, ProgramsIn, WorstAmplification;
    var raws := WalkBases(programs, limit);
    PlanNoneEmpty(programs, limit);
    var groups, eligible, members, netSaving, worst := PackAndFilter(raws, compress, header);
    r := PlanResult(limit, groups, eligible, members, netSaving, worst);
  }
}
