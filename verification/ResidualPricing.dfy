/** Residual programs at the cost that the oracle gives them: a header and the compressed delta. */
module ResidualPricing {
  import opened Sorting
  import opened ByteLayout
  import opened GreedyCut
  import opened ResidualPlan

  /** `separate_physical_bytes` of `_delta_programs`. */
  predicate Priced(p: Program, compress: Compressor, header: nat) {
    p.separateBytes == header + |compress(p.rawDelta)|
  }

  ghost predicate AllPriced(programs: seq<Program>, compress: Compressor, header: nat) {
    forall p :: p in programs ==> Priced(p, compress, header)
  }

  function Pasted(deltas: seq<Bytes>): Bytes {
    if deltas == [] then [] else Pasted(deltas[..|deltas| - 1]) + deltas[|deltas| - 1]
  }

  function CostApart(deltas: seq<Bytes>, compress: Compressor, header: nat): nat {
    if deltas == [] then 0
    else CostApart(deltas[..|deltas| - 1], compress, header) + header + |compress(deltas[|deltas| - 1])|
  }

  /** What packing these deltas together saves. */
  function Gain(deltas: seq<Bytes>, compress: Compressor, header: nat): int {
    CostApart(deltas, compress, header) - (header + |compress(Pasted(deltas))|) - DESCRIPTOR_CHARGE * |deltas|
  }

  /** Two or more deltas that gain enough, together above 256 KiB and within the limit. */
  ghost predicate LargeGain(deltas: seq<Bytes>, limit: int, compress: Compressor, header: nat) {
    && |deltas| >= 2 && MAX_RESIDUAL_PACK < |Pasted(deltas)| <= limit
    && Gain(deltas, compress, header) >= MIN_NET_SAVING
  }

  function DeltasOf(g: seq<Program>): (r: seq<Bytes>)
    ensures |r| == |g|
  {
    seq(|g|, k requires 0 <= k < |g| => g[k].rawDelta)
  }

  lemma {:induction false} PricedGroup(g: seq<Program>, compress: Compressor, header: nat)
    requires AllPriced(g, compress, header)
    ensures Pasted(DeltasOf(g)) == Joined(g)
    ensures CostApart(DeltasOf(g), compress, header) == SeparateBytes(g)
  {
    if g != [] {
      var init, last := g[..|g| - 1], g[|g| - 1];
      assert g == init + [last] && last in g;
      assert DeltasOf(g)[..|g| - 1] == DeltasOf(init);
      PricedGroup(init, compress, header);
    }
  }

  lemma GroupGain(g: seq<Program>, compress: Compressor, header: nat)
    requires g != [] && AllPriced(g, compress, header)
    ensures var packed := PackGroup(g, compress, header);
            packed.netSaving == Gain(DeltasOf(g), compress, header) && packed.rawBytes == |Pasted(DeltasOf(g))|
  {
    hide MaxAmplification;
    PricedGroup(g, compress, header);
  }

  // ----- A list of deltas as one group of a plan

  /** Programs of one base with these deltas, for targets as long as all deltas together. */
  function ProgramsOf(deltas: seq<Bytes>, compress: Compressor, header: nat): (r: seq<Program>)
    ensures |r| == |deltas|
  {
    seq(|deltas|, k requires 0 <= k < |deltas| =>
      Program(k, 0, |Pasted(deltas)|, deltas[k], header + |compress(deltas[k])|))
  }

  lemma ListPlan(g: seq<Program>, limit: int)
    requires g != [] && OneBase(g) && Bounded(g, limit)
    requires forall i, j | 0 <= i < j < |g| :: g[i].target < g[j].target
    ensures g in Plan(g, limit)
  {
    hide Plan, InOrder, Flatten, Bounded, FullLaw;
    PlanExact(g, limit);
    PlanOrder(g);
    assert Ascending(g, BaseThenTarget) && InjectiveOn(g, BaseThenTarget);
    OrderedUnique(g, InOrder(g), BaseThenTarget);
    WholeAdmissible(g, limit);
    OneGroup(Plan(g, limit), g);
  }

  lemma WholeAdmissible(g: seq<Program>, limit: int)
    requires g != [] && OneBase(g) && Bounded(g, limit)
    ensures AllAdmissible([g], FullLaw(limit)) && Flatten([g]) == g
  {
    hide Bounded;
    assert [g][1..] == [] && g + [] == g;
  }

  lemma LargeGroup(deltas: seq<Bytes>, limit: int, compress: Compressor, header: nat)
    requires LargeGain(deltas, limit, compress, header)
    ensures var g := ProgramsOf(deltas, compress, header);
            && AllPriced(g, compress, header) && DeltasOf(g) == deltas
            && g in Plan(g, limit)
            && PackGroup(g, compress, header).maxAmplification <= MAX_AMPLIFICATION
  {
    hide Plan, MaxAmplification, Pasted, Gain, Joined, RawBytes;
    var g := ProgramsOf(deltas, compress, header);
    assert DeltasOf(g) == deltas;
    PricedGroup(g, compress, header);
    JoinedLength(g);
    assert Bounded(g, limit);
    ListPlan(g, limit);
    MaxAmplificationExact(RawBytes(g), g);
  }

  /** For programs at their real cost, members and net saving decide alone. */
  ghost predicate PricedFilterRedundant(limit: int, compress: Compressor, header: nat) {
    forall programs, g :: AllPriced(programs, compress, header) && g in Plan(programs, limit) && g != [] ==>
      (Eligible(PackGroup(g, compress, header)) <==>
       |g| >= 2 && PackGroup(g, compress, header).netSaving >= MIN_NET_SAVING)
  }

  lemma PlannedPriced(
    programs: seq<Program>, limit: int, g: seq<Program>, compress: Compressor, header: nat)
    requires AllPriced(programs, compress, header) && g in Plan(programs, limit)
    ensures AllPriced(g, compress, header)
  {
    hide Plan, InOrder;
    PlanExact(programs, limit);
    MembersMatch(InOrder(programs), programs);
    forall p | p in g ensures Priced(p, compress, header) {
      FlattenMember(Plan(programs, limit), p);
    }
  }

  /** At real costs the size filter is redundant exactly when no large list of deltas within the limit gains
      enough, whatever the compressor; for limits up to 256 KiB there is none. */
  lemma PricedFilterExact(limit: int, compress: Compressor, header: nat)
    ensures PricedFilterRedundant(limit, compress, header) <==>
            forall deltas :: !LargeGain(deltas, limit, compress, header)
    ensures limit <= MAX_RESIDUAL_PACK ==> PricedFilterRedundant(limit, compress, header)
  {
    hide Plan, Eligible, PackGroup, Pasted, Gain;
    if forall deltas :: !LargeGain(deltas, limit, compress, header) {
      forall programs, g | AllPriced(programs, compress, header) && g in Plan(programs, limit) && g != []
        ensures Eligible(PackGroup(g, compress, header)) <==>
                |g| >= 2 && PackGroup(g, compress, header).netSaving >= MIN_NET_SAVING
      {
        PlannedPriced(programs, limit, g, compress, header);
        GroupGain(g, compress, header);
        AmplificationFilterRedundant(programs, limit, g, compress, header);
        GroupLength(g, compress, header);
        assert !LargeGain(DeltasOf(g), limit, compress, header);
      }
    }
    if deltas :| LargeGain(deltas, limit, compress, header) {
      var g := ProgramsOf(deltas, compress, header);
      LargeGroup(deltas, limit, compress, header);
      GroupGain(g, compress, header);
      TooLarge(g, compress, header);
    }
  }

  lemma GroupLength(g: seq<Program>, compress: Compressor, header: nat)
    requires g != []
    ensures PackGroup(g, compress, header).rawBytes == RawBytes(g)
  {
    JoinedLength(g);
  }

  lemma TooLarge(g: seq<Program>, compress: Compressor, header: nat)
    requires g != [] && PackGroup(g, compress, header).rawBytes > MAX_RESIDUAL_PACK
    ensures !Eligible(PackGroup(g, compress, header))
  {
  }
}
