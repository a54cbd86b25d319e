/** The residual plan told by its programs: which groups it makes, what each reports, which are kept. */
module ResidualMeaning {
  import opened Sorting
  import opened GreedyCut
  import opened Numbers
  import opened ResidualPlan
  import opened ResidualPricing

  /** Bytes of all deltas together. */
  function DeltaBytes(g: seq<Program>): int {
    Total(seq(|g|, k requires 0 <= k < |g| => |g[k].rawDelta|))
  }

  function SeparateTotal(g: seq<Program>): int {
    Total(seq(|g|, k requires 0 <= k < |g| => g[k].separateBytes))
  }

  lemma TotalLast(s: seq<int>, x: int)
    ensures Total(s + [x]) == Total(s) + x
  {
    TotalAppend(s, [x]);
    assert [x][1..] == [];
  }

  lemma {:induction false} TotalsAre(g: seq<Program>)
    ensures RawBytes(g) == DeltaBytes(g) && SeparateBytes(g) == SeparateTotal(g)
  {
    hide Total;
    if g == [] {
      NoTotal();
    } else {
      var init, last := g[..|g| - 1], g[|g| - 1];
      TotalsAre(init);
      var a, b := seq(|init|, k requires 0 <= k < |init| => |init[k].rawDelta|),
                  seq(|init|, k requires 0 <= k < |init| => init[k].separateBytes);
      assert seq(|g|, k requires 0 <= k < |g| => |g[k].rawDelta|) == a + [|last.rawDelta|];
      assert seq(|g|, k requires 0 <= k < |g| => g[k].separateBytes) == b + [last.separateBytes];
      TotalLast(a, |last.rawDelta|);
      TotalLast(b, last.separateBytes);
    }
  }

  lemma NoTotal()
    ensures Total([]) == 0 && DeltaBytes([]) == 0 && SeparateTotal([]) == 0
  {
  }

  lemma {:induction false} JoinedIsFlat(g: seq<Program>)
    ensures Joined(g) == Flatten(DeltasOf(g))
  {
    if g != [] {
      var init, last := g[..|g| - 1], g[|g| - 1];
      JoinedIsFlat(init);
      assert DeltasOf(g) == DeltasOf(init) + [last.rawDelta];
      FlattenAppend(DeltasOf(init), [last.rawDelta]);
      assert [last.rawDelta][1..] == [] && last.rawDelta + [] == last.rawDelta;
    }
  }

  // ----- The columns of a group

  function ReadCost(m: Program): int {
    if m.targetBytes == 0 then 1 else m.targetBytes
  }

  function Times(fraction: real, m: Program): real {
    fraction * ReadCost(m) as real
  }

  /** `worst` is the largest of the fractions of `raw` over the members' targets. */
  ghost predicate IsWorst(worst: real, raw: int, g: seq<Program>) {
    (forall m :: m in g ==> raw as real <= Times(worst, m)) && exists m :: m in g && raw as real == Times(worst, m)
  }

  lemma FractionIs(raw: nat, m: Program)
    ensures Times(Amplification(raw, m), m) == raw as real
  {
  }

  lemma LargerFraction(a: real, b: real, m: Program)
    requires a <= b
    ensures Times(a, m) <= Times(b, m)
  {
    assert (b - a) * ReadCost(m) as real >= 0.0;
  }

  lemma {:induction false} WorstIs(raw: nat, g: seq<Program>)
    requires g != []
    ensures IsWorst(MaxAmplification(raw, g), raw, g)
  {
    hide Times, Amplification;
    var last := g[|g| - 1];
    FractionIs(raw, last);
    assert last in g;
    if |g| > 1 {
      var init := g[..|g| - 1];
      assert g == init + [last];
      WorstIs(raw, init);
      var worst, before := MaxAmplification(raw, g), MaxAmplification(raw, init);
      LargerFraction(Amplification(raw, last), worst, last);
      forall m | m in g ensures raw as real <= Times(worst, m) {
        LargerFraction(before, worst, m);
      }
      var m :| m in init && raw as real == Times(before, m);
      assert m in g;
    } else {
      assert g == [last];
    }
  }

  /** Every column of a group. */
  lemma GroupExact(g: seq<Program>, compress: Compressor, header: nat)
    requires g != []
    ensures var p, raw := PackGroup(g, compress, header), Flatten(DeltasOf(g));
            && (OneBase(g) ==> forall m :: m in g ==> m.base == p.base)
            && |p.targets| == |g| && (forall k :: 0 <= k < |g| ==> p.targets[k] == g[k].target)
            && p.members == |g| && p.rawBytes == |raw| == DeltaBytes(g) && p.separateBytes == SeparateTotal(g)
            && p.packedPayload == |compress(raw)| && p.packedBytes == header + |compress(raw)| && p.charge == 16 * |g|
            && p.netSaving == SeparateTotal(g) - (header + |compress(raw)|) - 16 * |g|
            && IsWorst(p.maxAmplification, |raw|, g)
  {
    hide MaxAmplification;
    JoinedIsFlat(g);
    JoinedLength(g);
    TotalsAre(g);
    WorstIs(|Joined(g)|, g);
  }

  /** A group is kept exactly when it has two members, 256 KiB at most, no target that would have to read
      more than twice itself, and a net saving of 128 bytes. */
  lemma KeptMeans(g: seq<Program>, compress: Compressor, header: nat)
    requires g != []
    ensures Eligible(PackGroup(g, compress, header)) <==>
            && |g| >= 2 && DeltaBytes(g) <= 262144
            && (forall m :: m in g ==> DeltaBytes(g) <= 2 * ReadCost(m))
            && SeparateTotal(g) - (header + |compress(Flatten(DeltasOf(g)))|) - 16 * |g| >= 128
  {
    hide MaxAmplification, ReadCost, IsWorst;
    GroupExact(g, compress, header);
    JoinedLength(g);
    TotalsAre(g);
    MaxAmplificationExact(RawBytes(g), g);
    forall m | m in g ensures AtLeastOne(m.targetBytes) == ReadCost(m) {
      CostIs(m);
    }
  }

  lemma CostIs(m: Program)
    ensures AtLeastOne(m.targetBytes) == ReadCost(m)
  {
  }

  /** The kept groups are those eligible, in their order. */
  lemma {:induction false} KeptInOrder(groups: seq<Group>) returns (at: seq<nat>)
    ensures IsPart(Kept(groups), groups, at)
    ensures forall i :: 0 <= i < |groups| ==> (i in at <==> Eligible(groups[i]))
  {
    hide Eligible, IsPart;
    at := [];
    if groups == [] {
      NoPart<Group>();
    } else {
      var last := |groups| - 1;
      at := KeptInOrder(groups[..last]);
      PartGrows(Kept(groups[..last]), groups[..last], at, groups[last]);
      assert groups[..last] + [groups[last]] == groups;
      if Eligible(groups[last]) {
        at := at + [last];
      } else {
        assert Kept(groups[..last]) + [] == Kept(groups[..last]);
      }
    }
  }

  // ----- Which groups there are

  /** The opener of `h` has another base, or no room in `g`. */
  ghost predicate Shut(g: seq<Program>, h: seq<Program>, limit: int) {
    && g != [] && h != []
    && (h[0].base != g[0].base || DeltaBytes(g + [h[0]]) > limit
        || exists m :: m in g + [h[0]] && DeltaBytes(g + [h[0]]) > 2 * ReadCost(m))
  }

  ghost predicate AllShut(groups: seq<seq<Program>>, limit: int) {
    forall k :: 0 < k < |groups| ==> Shut(groups[k - 1], groups[k], limit)
  }

  ghost predicate Fitting(g: seq<Program>, limit: int) {
    DeltaBytes(g) <= limit && forall m :: m in g ==> DeltaBytes(g) <= 2 * ReadCost(m)
  }

  lemma BoundedMeans(g: seq<Program>, limit: int)
    ensures Bounded(g, limit) <==> Fitting(g, limit)
  {
    hide RawBytes, DeltaBytes;
    TotalsAre(g);
    forall m | m in g ensures AtLeastOne(m.targetBytes) == ReadCost(m) {
      CostIs(m);
    }
  }

  lemma BarredIsShut(g: seq<Program>, h: seq<Program>, limit: int)
    requires g != [] && OneBase(g) && Barred(g, h, FullLaw(limit))
    ensures Shut(g, h, limit)
  {
    hide DeltaBytes, ReadCost, Bounded;
    var both := g + [h[0]];
    BoundedMeans(both, limit);
    if h[0].base == g[0].base {
      assert OneBase(both);
    }
  }

  /** The programs by base and target; every group of one base, and of several only what fits; and none
      that could have taken the program that opens the next. */
  lemma PlanMeans(programs: seq<Program>, limit: int)
    ensures var groups := Plan(programs, limit);
            && multiset(Flatten(groups)) == multiset(programs) && Ordered(Flatten(groups)) && AllShut(groups, limit)
            && forall g :: g in groups ==> g != [] && OneBase(g) && (|g| > 1 ==> Fitting(g, limit))
  {
    hide Plan, InOrder, FullLaw, OneBase, Ordered, AllAdmissible, Bounded, Fitting, Shut, Flatten, ByBase;
    var groups := Plan(programs, limit);
    PlanExact(programs, limit);
    PlanOrder(programs);
    forall g | g in groups ensures |g| > 1 ==> Fitting(g, limit) {
      BoundedMeans(g, limit);
    }
    PlanIsCut(programs, limit);
    CutIsGreedy([], InOrder(programs), FullLaw(limit));
    forall k | 0 < k < |groups| ensures Shut(groups[k - 1], groups[k], limit) {
      assert Barred(groups[k - 1], groups[k], FullLaw(limit));
      assert groups[k - 1] in groups;
      BarredIsShut(groups[k - 1], groups[k], limit);
    }
  }

  lemma PlanIsCut(programs: seq<Program>, limit: int)
    ensures Plan(programs, limit) == Cut(InOrder(programs), FullLaw(limit))
  {
    hide ByBase, FullLaw, KeyedByBase;
    ByBaseKeyed(programs);
    OneWalk(ByBase(programs), limit);
  }
}
