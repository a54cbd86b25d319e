/** The v4 codec: packs in order of their first file row, blob ids stored absolutely. */
module PackMapV4 {
  import opened Results
  import opened Sorting
  import opened Grouping
  import opened ControlRows
  import opened Descriptors
  import opened PackTally

  datatype Candidate = Candidate(control: Control, q: seq<Descriptor>)

  function MaxOf(s: seq<int>): int
    requires s != []
  {
    if |s| == 1 then s[0]
    else
      var rest := MaxOf(s[1..]);
      if s[0] >= rest then s[0] else rest
  }

  function MinFi(members: seq<Slot>): int {
    if members == [] then 0
    else if |members| == 1 then members[0].fi
    else
      var rest := MinFi(members[1..]);
      if members[0].fi <= rest then members[0].fi else rest
  }

  function FirstKey(g: PackGroup): Key { (MinFi(g.members), g.key, 0) }

  /** `previous_file_end` after a pack with these rows. */
  function FileEnd(fileEnd: int, indices: seq<int>): int
    requires indices != []
  {
    var end := MaxOf(indices) + 1;
    if fileEnd >= end then fileEnd else end
  }

  // ----- The encoder as a function

  function EncodeRun(run: Run, fileEnd: int): Result<Descriptor>
    requires Matched(run)
  {
    var uniform := Uniform(run.lengths);
    if Contiguous(run.indices) then
      var gap := run.indices[0] - fileEnd;
      if gap < 0 then Raised(MembershipOverlap)
      else if uniform then Ok([Num(run.blob), Num(0), List([gap, |run.indices|]), Num(run.lengths[0])])
      else Ok([Num(run.blob), Num(1), Num(gap), List(run.lengths)])
    else if uniform then Ok([Num(run.blob), Num(2), List(run.indices), Num(run.lengths[0])])
    else Ok([Num(run.blob), Num(3), List(run.indices), List(run.lengths)])
  }

  function Encode(groups: seq<PackGroup>, fileEnd: int): Result<seq<Descriptor>>
    decreases |groups|
  {
    if groups == [] then Ok([])
    else
      var _ :- TileCheck(groups[0].members, 0);
      if groups[0].members == [] then Raised(EmptyPack)
      else
        var desc :- EncodeRun(RunOf(groups[0]), fileEnd);
        var rest :- Encode(groups[1..], FileEnd(fileEnd, FileIndices(groups[0].members)));
        Ok([desc] + rest)
  }

  /** The packs in descriptor order. */
  function Ordered(f: seq<Row>): seq<PackGroup> {
    Sort(ArrangeAll(Buckets(Packed(f))), FirstKey)
  }

  lemma OrderedArranges(f: seq<Row>)
    ensures Arranged(Ordered(f), Packed(f))
  {
    hide Packed, Sort, Arranged, Grouped;
    GroupByGroups(Packed(f), BlobOf);
    ArrangeArranges(Buckets(Packed(f)), Packed(f));
    SortArranged(ArrangeAll(Buckets(Packed(f))), Packed(f), FirstKey);
  }

  /** `_compact_v4` as a function. */
  function Compact(c: Control): Result<Candidate> {
    var q :- Encode(Ordered(c.f), 0);
    Ok(Candidate(c.(f := Cleared(c.f, Nothing)), q))
  }

  // ----- The decoder as a function

  function Expand(desc: Descriptor, cursor: Cursor): Result<Step> {
    if |desc| != 4 then Raised(MalformedDescriptor)
    else
      var blob :- AsInt(desc[0]);
      var mode :- AsInt(desc[1]);
      if blob < 0 || !(0 <= mode <= 3) then Raised(BadDescriptorHeader)
      else
        var run :- ExpandMembership(blob, mode, desc[2], desc[3], cursor.fileEnd);
        if exists n :: n in run.lengths && n < 0 then Raised(NegativeLength)
        else Ok(Step(run, Cursor(blob, FileEnd(cursor.fileEnd, run.indices))))
  }

  function ExpandMembership(blob: int, mode: int, membership: Cell, spec: Cell, fileEnd: int): (r: Result<Run>)
    ensures r.Ok? ==> Matched(r.value) && r.value.blob == blob
  {
    if mode == 0 then
      if !membership.List? || |membership.vs| != 2 then Raised(BadMembershipRange)
      else
        var gap, count := membership.vs[0], membership.vs[1];
        if gap < 0 || count <= 0 then Raised(BadMembershipRange)
        else
          var length :- AsInt(spec);
          Ok(Run(blob, Range(fileEnd + gap, count), Repeat(length, count)))
    else if mode == 1 then
      var gap :- AsInt(membership);
      var lengths :- AsList(spec);
      if gap < 0 || lengths == [] then Raised(BadMembershipRange)
      else Ok(Run(blob, Range(fileEnd + gap, |lengths|), lengths))
    else if mode == 2 then
      var indices :- AsList(membership);
      if indices == [] then Raised(EmptySparse)
      else
        var length :- AsInt(spec);
        Ok(Run(blob, indices, Repeat(length, |indices|)))
    else
      var indices :- AsList(membership);
      var lengths :- AsList(spec);
      if indices == [] || |lengths| != |indices| then Raised(CountMismatch)
      else Ok(Run(blob, indices, lengths))
  }

  /** `_restore_v4` as a function. */
  function Decompact(candidate: Candidate): Result<Control> {
    var sheet :- Restore(Sheet(candidate.control.f, {}), Cursor(0, 0), candidate.q, Expand);
    Ok(candidate.control.(f := sheet.rows))
  }

  // ----- The round trip

  /** One descriptor undone: none of the decoder's shape, count, range or sign guards fires, unless
      the blob id is negative. */
  lemma ExpandUndoesEncode(run: Run, cursor: Cursor)
    requires Matched(run) && EncodeRun(run, cursor.fileEnd).Ok?
    requires forall n :: n in run.lengths ==> n >= 0
    ensures var step := Expand(EncodeRun(run, cursor.fileEnd).value, cursor);
            if run.blob < 0 then step == Raised(BadDescriptorHeader)
            else step == Ok(Step(run, Cursor(run.blob, FileEnd(cursor.fileEnd, run.indices))))
  {
    if Uniform(run.lengths) {
      UniformRepeats(run.lengths);
    }
  }

  /** The encoder's descriptors expand to the packs they came from, exactly when no id is negative. */
  lemma {:induction false} ExpansionUndoesEncode(groups: seq<PackGroup>, cursor: Cursor)
    requires forall g :: g in groups ==> g.members != []
    requires Encode(groups, cursor.fileEnd).Ok?
    ensures var runs := Expansion(cursor, Encode(groups, cursor.fileEnd).value, Expand);
            && (runs.Ok? <==> forall g :: g in groups ==> g.key >= 0)
            && (runs.Ok? ==> runs.value == RunsOf(groups))
    ensures forall g :: g in groups ==> Tiles(g.members, 0) && NonNegativeLengths(g.members)
    decreases |groups|
  {
    if groups != [] {
      var g, rest := groups[0], groups[1..];
      assert groups == [g] + rest;
      var q := Encode(groups, cursor.fileEnd).value;
      TileCheckExact(g.members, 0);
      forall n | n in RunOf(g).lengths ensures n >= 0 {
        var k :| 0 <= k < |g.members| && Lengths(g.members)[k] == n;
        assert g.members[k] in g.members;
      }
      ExpandUndoesEncode(RunOf(g), cursor);
      var next := Cursor(g.key, FileEnd(cursor.fileEnd, FileIndices(g.members)));
      assert q[1..] == Encode(rest, next.fileEnd).value;
      ExpansionUndoesEncode(rest, next);
    }
  }

  lemma RowsRoundTrip(f: seq<Row>)
    requires Encode(Ordered(f), 0).Ok?
    ensures var q := Encode(Ordered(f), 0).value;
            var out := Restore(Sheet(Cleared(f, Nothing), {}), Cursor(0, 0), q, Expand);
            && (out.Ok? <==> forall s :: s in Packed(f) ==> s.blob >= 0)
            && (out.Ok? ==> out.value.rows == f)
  {
    hide Packed, Ordered;
    var groups := Ordered(f);
    OrderedArranges(f);
    var q := Encode(groups, 0).value;
    ExpansionUndoesEncode(groups, Cursor(0, 0));
    ArrangedSplits(groups, Packed(f));
    IdsOfPacks(groups, Packed(f));
    RestoreSplits(Sheet(Cleared(f, Nothing), {}), Cursor(0, 0), q, Expand);
    if forall s :: s in Packed(f) ==> s.blob >= 0 {
      TiledGroupsAreRuns(groups);
      ArrangedPermutes(groups, f);
      RestoreUndoesClearing(f, Nothing, Cursor(0, 0), q, Expand);
    }
  }

  /** Decode after encode gives back the whole control, for any index that the encoder accepts. The
      decoder refuses negative blob ids although the encoder does not, and that is the only way the
      round trip can fail. */
  lemma RoundTrip(c: Control)
    requires Compact(c).Ok?
    ensures var out := Decompact(Compact(c).value);
            && (out.Ok? <==> forall s :: s in Packed(c.f) ==> s.blob >= 0)
            && (out.Ok? ==> out.value == c)
  {
    RowsRoundTrip(c.f);
  }

  lemma IdsOfPacks(groups: seq<PackGroup>, slots: seq<Slot>)
    requires SplitByBlob(groups, slots)
    ensures (forall g :: g in groups ==> g.key >= 0) <==> forall s :: s in slots ==> s.blob >= 0
  {
    if forall s :: s in slots ==> s.blob >= 0 {
      forall g | g in groups ensures g.key >= 0 {
        var s := g.members[0];
        assert s in g.members && s in slots && s.blob == g.key;
      }
    }
    if forall g :: g in groups ==> g.key >= 0 {
      forall s | s in slots ensures s.blob >= 0 {
        assert HasKey(groups, s.blob);
      }
    }
  }

  lemma {:induction false} ExpansionMatched(cursor: Cursor, q: seq<Descriptor>)
    requires Expansion(cursor, q, Expand).Ok?
    ensures forall r :: r in Expansion(cursor, q, Expand).value ==>
              Matched(r) && r.blob >= 0 && forall n :: n in r.lengths ==> n >= 0
    decreases |q|
  {
    if q != [] {
      ExpansionMatched(Expand(q[0], cursor).value.next, q[1..]);
    }
  }

  /** Any candidate on which the decoder succeeds: rows placed once, slices consecutive from 0. */
  lemma DecodedIsSliced(f: seq<Row>, q: seq<Descriptor>)
    requires Restore(Sheet(f, {}), Cursor(0, 0), q, Expand).Ok?
    ensures Expansion(Cursor(0, 0), q, Expand).Ok?
    ensures var runs := Expansion(Cursor(0, 0), q, Expand).value;
            var out := Restore(Sheet(f, {}), Cursor(0, 0), q, Expand).value.rows;
            && |out| == |f|
            && SlicedBy(runs, out)
            && (forall a, b | 0 <= a < b < |SlotsOfRuns(runs)| ::
                  SlotsOfRuns(runs)[a].fi != SlotsOfRuns(runs)[b].fi)
            && (forall i :: 0 <= i < |f| && i !in Fis(SlotsOfRuns(runs)) ==> out[i] == f[i])
  {
    RestoreSound(f, Cursor(0, 0), q, Expand);
    ExpansionMatched(Cursor(0, 0), q);
  }

  // ----- The statistics

  function ModeOf(desc: Descriptor): int {
    if |desc| == 4 && desc[1].Num? then desc[1].v else -1
  }

  /** The mode of a descriptor is that of its pack. */
  lemma ModeOfRun(g: PackGroup, fileEnd: int)
    requires g.members != [] && EncodeRun(RunOf(g), fileEnd).Ok?
    ensures ModeOf(EncodeRun(RunOf(g), fileEnd).value) == ModeOfPack(g)
  {
    hide Contiguous, Uniform;
  }

  lemma {:induction false} EncodedModes(groups: seq<PackGroup>, fileEnd: int)
    requires Encode(groups, fileEnd).Ok?
    ensures var q := Encode(groups, fileEnd).value;
            && |q| == |groups|
            && forall k :: 0 <= k < |q| ==> ModeOf(q[k]) == ModeOfPack(groups[k])
    decreases |groups|
  {
    hide EncodeRun, ModeOf, ModeOfPack, TileCheck;
    if groups != [] {
      ModeOfRun(groups[0], fileEnd);
      EncodedModes(groups[1..], FileEnd(fileEnd, FileIndices(groups[0].members)));
    }
  }

  /** The statistics of an accepted index: one descriptor per pack, every packed row counted once, and
      the packs counted as uniform or contiguous are those that the decoder will treat so. */
  lemma StatisticsExact(c: Control)
    requires Compact(c).Ok?
    ensures var q, t := Compact(c).value.q, TallyOf(Ordered(c.f));
            && t.packs == |q| && t.rows == |Packed(c.f)|
            && t.uniform == WithMode(q, ModeOf, 0) + WithMode(q, ModeOf, 2)
            && t.contiguous == WithMode(q, ModeOf, 0) + WithMode(q, ModeOf, 1)
  {
    hide Ordered, Packed, Encode, TallyOf, ModeOf, ModeOfPack;
    OrderedArranges(c.f);
    EncodedModes(Ordered(c.f), 0);
    TallyIsComplete(Ordered(c.f), c.f);
    TallyIsModes(Ordered(c.f), Compact(c).value.q, ModeOf);
  }

  // ----- The procedures

  /** Sort each pack's members, then the packs by their first file row. */
  method OrderGroups(groups: seq<PackGroup>) returns (ordered: seq<PackGroup>)
    ensures ordered == Sort(ArrangeAll(groups), FirstKey)
  {
    var arranged: seq<PackGroup> := [];
    for k := 0 to |groups|
      invariant |arranged| == k && forall i :: 0 <= i < k ==> arranged[i] == Arrange(groups[i])
    {
      arranged := arranged + [Arrange(groups[k])];
    }
    assert arranged == ArrangeAll(groups);
    ordered := Sort(arranged, FirstKey);
  }

  method EncodeOrdered(ordered: seq<PackGroup>) returns (r: Result<seq<Descriptor>>, tally: Tally)
    ensures r == Encode(ordered, 0)
    ensures r.Ok? ==> tally == TallyOf(ordered)
  {
    tally := NO_TALLY;
    var q: seq<Descriptor> := [];
    var previousFileEnd := 0;
    ghost var whole := Encode(ordered, 0);
    assert ordered[0..] == ordered;
    PrefixedNothing(whole);
    assert ordered[..0] == [];
    for k := 0 to |ordered|
      invariant whole == Prefixed(q, Encode(ordered[k..], previousFileEnd))
      invariant tally == TallyOf(ordered[..k])
    {
      var g := ordered[k];
      assert ordered[k..][0] == g && ordered[k..][1..] == ordered[k + 1..];
      assert g in ordered;
      var checked := CheckMembers(g);
      if checked.Raised? {
        return Raised(checked.fault), tally;
      }
      if g.members == [] {
        return Raised(EmptyPack), tally;
      }
      var desc := EncodeRun(checked.value, previousFileEnd);
      if desc.Raised? {
        return Raised(desc.fault), tally;
      }
      PrefixedStep(q, desc.value, Encode(ordered[k + 1..], FileEnd(previousFileEnd, checked.value.indices)));
      q := q + [desc.value];
      previousFileEnd := FileEnd(previousFileEnd, checked.value.indices);
      TallyStep(ordered, k);
      tally := Counted(tally, g);
    }
    assert ordered[..|ordered|] == ordered;
    assert ordered[|ordered|..] == [] && q + [] == q;
    r := Ok(q);
  }

  method CompactV4(c: Control) returns (r: Result<Candidate>, tally: Tally)
    ensures Truncated(c.f) ==> r == Raised(ShapeError)
    ensures !Truncated(c.f) ==> r == Compact(c)
    ensures r.Ok? ==> tally == TallyOf(Ordered(c.f))
  {
    tally := NO_TALLY;
    var rows, gathered := Gather(c.f, Nothing);
    if gathered.Raised? {
      return Raised(gathered.fault), tally;
    }
    var ordered := OrderGroups(gathered.value);
    assert ordered == Ordered(c.f);
    var q: Result<seq<Descriptor>>;
    q, tally := EncodeOrdered(ordered);
    if q.Raised? {
      return Raised(q.fault), tally;
    }
    r := Ok(Candidate(c.(f := rows[..]), q.value));
  }

  method RestoreV4(candidate: Candidate) returns (r: Result<Control>)
    ensures r == Decompact(candidate)
  {
    var rows := RestoreRows(candidate.control.f, candidate.q, Cursor(0, 0), Expand);
    if rows.Raised? {
      return Raised(rows.fault);
    }
    r := Ok(candidate.control.(f := rows.value));
  }
}
