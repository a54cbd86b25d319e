/** The v3 codec: packs in blob order, blob ids and sparse membership delta-coded, the mode in the
    low two bits of the descriptor code. */
module PackMapV3 {
  import opened Results
  import opened Sorting
  import opened Grouping
  import opened ControlRows
  import opened Descriptors
  import opened PackTally

  datatype Candidate = Candidate(control: Control, q: seq<Descriptor>)

  // ----- The encoder as a function

  function Deltas(indices: seq<int>, prev: int): Result<seq<int>> {
    if indices == [] then Ok([])
    else if indices[0] - prev < 0 then Raised(SparseNotMonotonic)
    else
      var rest :- Deltas(indices[1..], indices[0]);
      Ok([indices[0] - prev] + rest)
  }

  function EncodeRun(run: Run, cursor: Cursor): Result<Descriptor>
    requires Matched(run)
  {
    var step := run.blob - cursor.blob;
    var uniform := Uniform(run.lengths);
    if step < 0 then Raised(BlobIdRegressed)
    else if Contiguous(run.indices) then
      var gap := run.indices[0] - cursor.fileEnd;
      if gap < 0 then Raised(MembershipOverlap)
      else if uniform then Ok([Num(step * 4 + 0), List([gap, |run.indices|]), Num(run.lengths[0])])
      else Ok([Num(step * 4 + 1), Num(gap), List(run.lengths)])
    else
      var deltas :- Deltas(run.indices, cursor.fileEnd);
      if uniform then Ok([Num(step * 4 + 2), List(deltas), Num(run.lengths[0])])
      else Ok([Num(step * 4 + 3), List(deltas), List(run.lengths)])
  }

  function Advance(run: Run): Cursor
    requires Matched(run)
  {
    Cursor(run.blob, run.indices[|run.indices| - 1] + 1)
  }

  function Encode(groups: seq<PackGroup>, cursor: Cursor): Result<seq<Descriptor>>
    decreases |groups|
  {
    if groups == [] then Ok([])
    else
      var _ :- TileCheck(groups[0].members, 0);
      if groups[0].members == [] then Raised(EmptyPack)
      else
        var desc :- EncodeRun(RunOf(groups[0]), cursor);
        var rest :- Encode(groups[1..], Advance(RunOf(groups[0])));
        Ok([desc] + rest)
  }

  /** `_compact_v3` as a function. */
  function Compact(c: Control): Result<Candidate> {
    var q :- Encode(ByBlob(c.f), Cursor(0, 0));
    Ok(Candidate(c.(f := Cleared(c.f, Nothing)), q))
  }

  // ----- The decoder as a function

  function Expand(desc: Descriptor, cursor: Cursor): Result<Step> {
    if |desc| != 3 then Raised(MalformedDescriptor)
    else
      var code :- AsInt(desc[0]);
      if code < 0 then Raised(BadDescriptorHeader)
      else
        var run :- ExpandMembership(cursor.blob + code / 4, code % 4, desc[1], desc[2], cursor.fileEnd);
        if exists n :: n in run.lengths && n < 0 then Raised(NegativeLength)
        else Ok(Step(run, Advance(run)))
  }

  function ExpandMembership(blob: int, mode: int, membership: Cell, spec: Cell, fileEnd: int): (r: Result<Run>)
    ensures r.Ok? ==> Matched(r.value) && r.value.blob == blob
  {
    if mode == 0 then
      if !membership.List? || |membership.vs| != 2 then Raised(BadMembershipRange)
      else
        var gap, count := membership.vs[0], membership.vs[1];
        if gap < 0 || count <= 0 then Raised(BadMembershipRange)
        else
          var length :- AsInt(spec);
          Ok(Run(blob, Range(fileEnd + gap, count), Repeat(length, count)))
    else if mode == 1 then
      var gap :- AsInt(membership);
      var lengths :- AsList(spec);
      if gap < 0 || lengths == [] then Raised(BadMembershipRange)
      else Ok(Run(blob, Range(fileEnd + gap, |lengths|), lengths))
    else
      var deltas :- AsList(membership);
      if deltas == [] then Raised(EmptySparse)
      else if exists d :: d in deltas && d < 0 then Raised(BadMembershipRange)
      else if mode == 2 then
        var length :- AsInt(spec);
        Ok(Run(blob, Accumulate(deltas, fileEnd), Repeat(length, |deltas|)))
      else
        var lengths :- AsList(spec);
        if |lengths| != |deltas| then Raised(CountMismatch)
        else Ok(Run(blob, Accumulate(deltas, fileEnd), lengths))
  }

  /** `_restore_v3` as a function. */
  function Decompact(candidate: Candidate): Result<Control> {
    var sheet :- Restore(Sheet(candidate.control.f, {}), Cursor(0, 0), candidate.q, Expand);
    Ok(candidate.control.(f := sheet.rows))
  }

  // ----- The round trip

  lemma {:induction false} AccumulateUndoesDeltas(indices: seq<int>, prev: int)
    requires Deltas(indices, prev).Ok?
    ensures var deltas := Deltas(indices, prev).value;
            && |deltas| == |indices|
            && (forall d :: d in deltas ==> d >= 0)
            && Accumulate(deltas, prev) == indices
  {
    if indices != [] {
      AccumulateUndoesDeltas(indices[1..], indices[0]);
      assert Deltas(indices, prev).value[1..] == Deltas(indices[1..], indices[0]).value;
    }
  }

  /** `step*4 + mode` splits back into its two parts, the membership and the lengths come back, and
      none of the decoder's guards fires. */
  lemma ExpandUndoesEncode(run: Run, cursor: Cursor)
    requires Matched(run) && EncodeRun(run, cursor).Ok?
    requires forall n :: n in run.lengths ==> n >= 0
    ensures Expand(EncodeRun(run, cursor).value, cursor) == Ok(Step(run, Advance(run)))
  {
    if Uniform(run.lengths) {
      UniformRepeats(run.lengths);
    }
    if !Contiguous(run.indices) {
      AccumulateUndoesDeltas(run.indices, cursor.fileEnd);
    }
  }

  lemma {:induction false} ExpansionUndoesEncode(groups: seq<PackGroup>, cursor: Cursor)
    requires forall g :: g in groups ==> g.members != []
    requires Encode(groups, cursor).Ok?
    ensures Expansion(cursor, Encode(groups, cursor).value, Expand) == Ok(RunsOf(groups))
    ensures forall g :: g in groups ==> Tiles(g.members, 0) && NonNegativeLengths(g.members)
    decreases |groups|
  {
    if groups != [] {
      var g, rest := groups[0], groups[1..];
      assert groups == [g] + rest;
      var q := Encode(groups, cursor).value;
      TileCheckExact(g.members, 0);
      forall n | n in RunOf(g).lengths ensures n >= 0 {
        var k :| 0 <= k < |g.members| && Lengths(g.members)[k] == n;
        assert g.members[k] in g.members;
      }
      ExpandUndoesEncode(RunOf(g), cursor);
      assert q[1..] == Encode(rest, Advance(RunOf(g))).value;
      ExpansionUndoesEncode(rest, Advance(RunOf(g)));
    }
  }

  lemma RowsRoundTrip(f: seq<Row>)
    requires Encode(ByBlob(f), Cursor(0, 0)).Ok?
    ensures var q := Encode(ByBlob(f), Cursor(0, 0)).value;
            var out := Restore(Sheet(Cleared(f, Nothing), {}), Cursor(0, 0), q, Expand);
            out.Ok? && out.value.rows == f
  {
    hide Packed, ByBlob;
    var groups := ByBlob(f);
    ByBlobArranges(f);
    ExpansionUndoesEncode(groups, Cursor(0, 0));
    ArrangedSplits(groups, Packed(f));
    TiledGroupsAreRuns(groups);
    ArrangedPermutes(groups, f);
    RestoreUndoesClearing(f, Nothing, Cursor(0, 0), Encode(groups, Cursor(0, 0)).value, Expand);
  }

  /** Decode after encode gives back the whole control, for any index that the encoder accepts. */
  lemma RoundTrip(c: Control)
    requires Compact(c).Ok?
    ensures Decompact(Compact(c).value) == Ok(c)
  {
    RowsRoundTrip(c.f);
  }

  lemma {:induction false} ExpansionMatched(cursor: Cursor, q: seq<Descriptor>)
    requires Expansion(cursor, q, Expand).Ok?
    ensures forall r :: r in Expansion(cursor, q, Expand).value ==>
              Matched(r) && forall n :: n in r.lengths ==> n >= 0
    decreases |q|
  {
    if q != [] {
      ExpansionMatched(Expand(q[0], cursor).value.next, q[1..]);
    }
  }

  /** Any candidate on which the decoder succeeds: rows assigned once, slices consecutive from 0. */
  lemma DecodedIsSliced(f: seq<Row>, q: seq<Descriptor>)
    requires Restore(Sheet(f, {}), Cursor(0, 0), q, Expand).Ok?
    ensures Expansion(Cursor(0, 0), q, Expand).Ok?
    ensures var runs := Expansion(Cursor(0, 0), q, Expand).value;
            var out := Restore(Sheet(f, {}), Cursor(0, 0), q, Expand).value.rows;
            && |out| == |f|
            && SlicedBy(runs, out)
            && (forall a, b | 0 <= a < b < |SlotsOfRuns(runs)| ::
                  SlotsOfRuns(runs)[a].fi != SlotsOfRuns(runs)[b].fi)
            && (forall i :: 0 <= i < |f| && i !in Fis(SlotsOfRuns(runs)) ==> out[i] == f[i])
  {
    RestoreSound(f, Cursor(0, 0), q, Expand);
    ExpansionMatched(Cursor(0, 0), q);
  }

  // ----- The statistics

  function ModeOf(desc: Descriptor): int {
    if |desc| == 3 && desc[0].Num? then desc[0].v % 4 else -1
  }

  /** The mode of a descriptor is that of its pack. */
  lemma ModeOfRun(g: PackGroup, cursor: Cursor)
    requires g.members != [] && EncodeRun(RunOf(g), cursor).Ok?
    ensures ModeOf(EncodeRun(RunOf(g), cursor).value) == ModeOfPack(g)
  {
    hide Contiguous, Uniform;
  }

  lemma {:induction false} EncodedModes(groups: seq<PackGroup>, cursor: Cursor)
    requires Encode(groups, cursor).Ok?
    ensures var q := Encode(groups, cursor).value;
            && |q| == |groups|
            && forall k :: 0 <= k < |q| ==> ModeOf(q[k]) == ModeOfPack(groups[k])
    decreases |groups|
  {
    hide EncodeRun, ModeOf, ModeOfPack, TileCheck;
    if groups != [] {
      ModeOfRun(groups[0], cursor);
      EncodedModes(groups[1..], Advance(RunOf(groups[0])));
    }
  }

  /** As for v4. */
  lemma StatisticsExact(c: Control)
    requires Compact(c).Ok?
    ensures var q, t := Compact(c).value.q, TallyOf(ByBlob(c.f));
            && t.packs == |q| && t.rows == |Packed(c.f)|
            && t.uniform == WithMode(q, ModeOf, 0) + WithMode(q, ModeOf, 2)
            && t.contiguous == WithMode(q, ModeOf, 0) + WithMode(q, ModeOf, 1)
  {
    hide ByBlob, Packed, Encode, TallyOf, ModeOf, ModeOfPack;
    ByBlobArranges(c.f);
    EncodedModes(ByBlob(c.f), Cursor(0, 0));
    TallyIsComplete(ByBlob(c.f), c.f);
    TallyIsModes(ByBlob(c.f), Compact(c).value.q, ModeOf);
  }

  // ----- The procedures

  lemma EncodeStep(ordered: seq<PackGroup>, k: nat, cursor: Cursor)
    requires k < |ordered|
    ensures var g := ordered[k];
            Encode(ordered[k..], cursor) ==
            if TileCheck(g.members, 0).Raised? then Raised(TileCheck(g.members, 0).fault)
            else if g.members == [] then Raised(EmptyPack)
            else
              var desc := EncodeRun(RunOf(g), cursor);
              if desc.Raised? then Raised(desc.fault)
              else Prefixed([desc.value], Encode(ordered[k + 1..], Advance(RunOf(g))))
  {
    hide TileCheck, EncodeRun;
    assert ordered[k..][0] == ordered[k] && ordered[k..][1..] == ordered[k + 1..];
  }

  lemma EncodeNothing(cursor: Cursor)
    ensures Encode([], cursor) == Ok([])
  {
  }

  method EncodeGroups(groups: seq<PackGroup>) returns (r: Result<seq<Descriptor>>, tally: Tally)
    ensures r == Encode(ArrangeAll(groups), Cursor(0, 0))
    ensures r.Ok? ==> tally == TallyOf(ArrangeAll(groups))
  {
    hide Encode, EncodeRun, TileCheck, Advance, TallyOf, Counted;
    tally := NO_TALLY;
    TallyNothing();
    ghost var ordered := ArrangeAll(groups);
    var q: seq<Descriptor> := [];
    var cursor := Cursor(0, 0);
    ghost var whole := Encode(ordered, cursor);
    assert ordered[0..] == ordered;
    PrefixedNothing(whole);
    assert ordered[..0] == [];
    for k := 0 to |groups|
      invariant whole == Prefixed(q, Encode(ordered[k..], cursor))
      invariant tally == TallyOf(ordered[..k])
    {
      var g := Arrange(groups[k]);
      EncodeStep(ordered, k, cursor);
      var checked := CheckMembers(g);
      if checked.Raised? {
        return Raised(checked.fault), tally;
      }
      if g.members == [] {
        return Raised(EmptyPack), tally;
      }
      var desc := EncodeRun(checked.value, cursor);
      if desc.Raised? {
        return Raised(desc.fault), tally;
      }
      PrefixedStep(q, desc.value, Encode(ordered[k + 1..], Advance(checked.value)));
      q := q + [desc.value];
      cursor := Advance(checked.value);
      TallyStep(ordered, k);
      tally := Counted(tally, g);
    }
    assert ordered[..|groups|] == ordered;
    EncodeNothing(cursor);
    assert ordered[|groups|..] == [] && q + [] == q;
    r := Ok(q);
  }

  method CompactV3(c: Control) returns (r: Result<Candidate>, tally: Tally)
    ensures Truncated(c.f) ==> r == Raised(ShapeError)
    ensures !Truncated(c.f) ==> r == Compact(c)
    ensures r.Ok? ==> tally == TallyOf(ByBlob(c.f))
  {
    tally := NO_TALLY;
    var rows, gathered := Gather(c.f, Nothing);
    if gathered.Raised? {
      return Raised(gathered.fault), tally;
    }
    assert ArrangeAll(Sort(gathered.value, BucketKey)) == ByBlob(c.f);
    var q: Result<seq<Descriptor>>;
    q, tally := EncodeGroups(Sort(gathered.value, BucketKey));
    if q.Raised? {
      return Raised(q.fault), tally;
    }
    r := Ok(Candidate(c.(f := rows[..]), q.value));
  }

  method RestoreV3(candidate: Candidate) returns (r: Result<Control>)
    ensures r == Decompact(candidate)
  {
    var rows := RestoreRows(candidate.control.f, candidate.q, Cursor(0, 0), Expand);
    if rows.Raised? {
      return Raised(rows.fault);
    }
    r := Ok(candidate.control.(f := rows.value));
  }
}
