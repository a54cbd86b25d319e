/** Pack descriptors as they sit in a candidate index, and the decoding loop that the v3 and v4
    codecs share: expand each descriptor, then assign its slices to rows. */
module Descriptors {
  import opened Results
  import opened Grouping
  import opened ControlRows
  import opened Numbers

  /** One element of a descriptor list: an integer, or a list of integers. */
  datatype Cell = Num(v: int) | List(vs: seq<int>)

  type Descriptor = seq<Cell>

  function AsInt(c: Cell): Result<int> {
    if c.Num? then Ok(c.v) else Raised(ShapeError)
  }

  function AsList(c: Cell): Result<seq<int>> {
    if c.List? then Ok(c.vs) else Raised(ShapeError)
  }

  /** What one descriptor says: these rows, in this order, with these lengths. */
  datatype Run = Run(blob: int, indices: seq<int>, lengths: seq<int>)

  predicate Matched(run: Run) {
    |run.indices| == |run.lengths| > 0
  }

  /** The running state of a decoder: `previous_blob` and `previous_file_end`. */
  datatype Cursor = Cursor(blob: int, fileEnd: int)

  datatype Step = Step(run: Run, next: Cursor)

  type Expander = (Descriptor, Cursor) -> Result<Step>

  function SlotsOfRun(run: Run): seq<Slot> {
    if |run.indices| == |run.lengths| then RunSlots(run.blob, run.indices, run.lengths, 0) else []
  }

  function SlotsOfRuns(runs: seq<Run>): seq<Slot> {
    if runs == [] then [] else SlotsOfRun(runs[0]) + SlotsOfRuns(runs[1..])
  }

  /** The whole decoder: descriptors are expanded and assigned one at a time. */
  function Restore(sheet: Sheet, cursor: Cursor, q: seq<Descriptor>, expand: Expander): Result<Sheet>
    decreases |q|
  {
    if q == [] then Ok(sheet)
    else
      var step :- expand(q[0], cursor);
      var next :- Place(sheet, SlotsOfRun(step.run));
      Restore(next, step.next, q[1..], expand)
  }

  /** All the runs that a descriptor list stands for. */
  function Expansion(cursor: Cursor, q: seq<Descriptor>, expand: Expander): Result<seq<Run>>
    decreases |q|
  {
    if q == [] then Ok([])
    else
      var step :- expand(q[0], cursor);
      var rest :- Expansion(step.next, q[1..], expand);
      Ok([step.run] + rest)
  }

  lemma {:induction false} PlaceAppend(sheet: Sheet, a: seq<Slot>, b: seq<Slot>)
    ensures Place(sheet, a + b) ==
            if Place(sheet, a).Ok? then Place(Place(sheet, a).value, b) else Place(sheet, a)
    decreases |a|
  {
    if a == [] {
      assert a + b == b;
    } else {
      assert (a + b)[0] == a[0] && (a + b)[1..] == a[1..] + b;
      if Assignable(sheet, a[0]) {
        PlaceAppend(Assign(sheet, a[0]), a[1..], b);
      }
    }
  }

  /** Decoding one descriptor at a time succeeds exactly when all of them expand and all their
      slices can be assigned, and it then assigns exactly those. */
  lemma {:induction false} RestoreSplits(sheet: Sheet, cursor: Cursor, q: seq<Descriptor>, expand: Expander)
    ensures var runs := Expansion(cursor, q, expand);
            var out := Restore(sheet, cursor, q, expand);
            && (out.Ok? <==> runs.Ok? && Place(sheet, SlotsOfRuns(runs.value)).Ok?)
            && (out.Ok? ==> out == Place(sheet, SlotsOfRuns(runs.value)))
    decreases |q|
  {
    if q != [] {
      var step := expand(q[0], cursor);
      if step.Ok? {
        var rest := Expansion(step.value.next, q[1..], expand);
        var placed := Place(sheet, SlotsOfRun(step.value.run));
        if placed.Ok? {
          RestoreSplits(placed.value, step.value.next, q[1..], expand);
        }
        if rest.Ok? {
          var runs := [step.value.run] + rest.value;
          assert runs[1..] == rest.value;
          PlaceAppend(sheet, SlotsOfRun(step.value.run), SlotsOfRuns(rest.value));
        }
      }
    }
  }

  /** Row `runs[k].indices[j]` holds bytes [sum of the lengths before j, +lengths[j]) of its pack. */
  ghost predicate SlicedBy(runs: seq<Run>, rows: seq<Row>) {
    forall k, j :: 0 <= k < |runs| && 0 <= j < |runs[k].indices| ==>
      && |runs[k].indices| == |runs[k].lengths|
      && 0 <= runs[k].indices[j] < |rows| && rows[runs[k].indices[j]].Long?
      && rows[runs[k].indices[j]].field == Slice(runs[k].blob, Total(runs[k].lengths[..j]), runs[k].lengths[j])
  }

  lemma {:induction false} SlotsOfRunsMember(runs: seq<Run>, k: nat, j: nat)
    requires k < |runs| && j < |runs[k].indices|
    requires forall r :: r in runs ==> |r.indices| == |r.lengths|
    ensures Slot(runs[k].indices[j], runs[k].blob, Total(runs[k].lengths[..j]), runs[k].lengths[j])
              in SlotsOfRuns(runs)
  {
    hide RunSlots, Total;
    if k == 0 {
      RunOffsets(runs[0].blob, runs[0].indices, runs[0].lengths, 0, j);
      assert SlotsOfRun(runs[0])[j] in SlotsOfRun(runs[0]);
    } else {
      var rest := runs[1..];
      assert rest[k - 1] == runs[k];
      assert forall r :: r in rest ==> r in runs;
      SlotsOfRunsMember(rest, k - 1, j);
    }
  }

  /** Every descriptor list that decodes at all gives each descriptor's rows consecutive slices from
      offset 0, assigns no row twice, and leaves all other rows alone. */
  lemma RestoreSound(f: seq<Row>, cursor: Cursor, q: seq<Descriptor>, expand: Expander)
    requires Restore(Sheet(f, {}), cursor, q, expand).Ok?
    ensures Expansion(cursor, q, expand).Ok?
    ensures var runs := Expansion(cursor, q, expand).value;
            var slots := SlotsOfRuns(runs);
            var out := Restore(Sheet(f, {}), cursor, q, expand).value.rows;
            && |out| == |f|
            && (forall a, b | 0 <= a < b < |slots| :: slots[a].fi != slots[b].fi)
            && ((forall r :: r in runs ==> |r.indices| == |r.lengths|) ==> SlicedBy(runs, out))
            && (forall i :: 0 <= i < |f| && i !in Fis(slots) ==> out[i] == f[i])
  {
    RestoreSplits(Sheet(f, {}), cursor, q, expand);
    var runs := Expansion(cursor, q, expand).value;
    var slots := SlotsOfRuns(runs);
    var out := Restore(Sheet(f, {}), cursor, q, expand).value.rows;
    PlaceExact(Sheet(f, {}), slots);
    if forall r :: r in runs ==> |r.indices| == |r.lengths| {
      forall k, j | 0 <= k < |runs| && 0 <= j < |runs[k].indices|
        ensures && |runs[k].indices| == |runs[k].lengths|
                && 0 <= runs[k].indices[j] < |out| && out[runs[k].indices[j]].Long?
                && out[runs[k].indices[j]].field ==
                   Slice(runs[k].blob, Total(runs[k].lengths[..j]), runs[k].lengths[j])
      {
        SlotsOfRunsMember(runs, k, j);
      }
    }
  }

  /** The decoder succeeds exactly when all descriptors expand and their slots name fresh, distinct rows. */
  lemma RestoreExact(f: seq<Row>, cursor: Cursor, q: seq<Descriptor>, expand: Expander)
    ensures Restore(Sheet(f, {}), cursor, q, expand).Ok? <==>
            Expansion(cursor, q, expand).Ok?
            && Placeable(Sheet(f, {}), SlotsOfRuns(Expansion(cursor, q, expand).value))
  {
    RestoreSplits(Sheet(f, {}), cursor, q, expand);
    if Expansion(cursor, q, expand).Ok? {
      PlaceExact(Sheet(f, {}), SlotsOfRuns(Expansion(cursor, q, expand).value));
    }
  }

  /** Any descriptor list whose runs list the packed rows restores the rows that were cleared. */
  lemma RestoreUndoesClearing(f: seq<Row>, with: Field, cursor: Cursor, q: seq<Descriptor>, expand: Expander)
    requires Expansion(cursor, q, expand).Ok?
    requires multiset(SlotsOfRuns(Expansion(cursor, q, expand).value)) == multiset(Packed(f))
    ensures Restore(Sheet(Cleared(f, with), {}), cursor, q, expand).Ok?
    ensures Restore(Sheet(Cleared(f, with), {}), cursor, q, expand).value.rows == f
  {
    var slots := SlotsOfRuns(Expansion(cursor, q, expand).value);
    PlaceUndoesClearing(f, with, slots);
    RestoreSplits(Sheet(Cleared(f, with), {}), cursor, q, expand);
  }

  /** Running sums of the deltas, in the v2 and v3 decoders. */
  function Accumulate(deltas: seq<int>, prev: int): (r: seq<int>)
    ensures |r| == |deltas|
  {
    if deltas == [] then [] else [prev + deltas[0]] + Accumulate(deltas[1..], prev + deltas[0])
  }

  // ----- What the v3 and v4 encoders check of each pack

  /** The members must tile the pack from `expected` on, with no negative length. */
  function TileCheck(members: seq<Slot>, expected: int): Result<()> {
    if members == [] then Ok(())
    else if members[0].off != expected then Raised(SlicesNotContiguous)
    else if members[0].len < 0 then Raised(NegativeLength)
    else TileCheck(members[1..], expected + members[0].len)
  }

  ghost predicate NonNegativeLengths(members: seq<Slot>) {
    forall s :: s in members ==> s.len >= 0
  }

  lemma {:induction false} TileCheckExact(members: seq<Slot>, expected: int)
    ensures TileCheck(members, expected).Ok? <==> Tiles(members, expected) && NonNegativeLengths(members)
  {
    if members != [] {
      TileCheckExact(members[1..], expected + members[0].len);
      assert members == [members[0]] + members[1..];
    }
  }

  predicate Contiguous(indices: seq<int>) {
    indices != [] && indices == Range(indices[0], |indices|)
  }

  predicate Uniform(lengths: seq<int>) {
    lengths != [] && forall n :: n in lengths ==> n == lengths[0]
  }

  /** `[v] * count` */
  function Repeat(v: int, count: nat): (r: seq<int>)
    ensures |r| == count
  {
    seq(count, _ => v)
  }

  lemma UniformRepeats(lengths: seq<int>)
    requires Uniform(lengths)
    ensures Repeat(lengths[0], |lengths|) == lengths
  {
    forall k | 0 <= k < |lengths| ensures lengths[k] == lengths[0] {
      assert lengths[k] in lengths;
    }
    assert Repeat(lengths[0], |lengths|) == lengths;
  }

  /** The run that a pack's members stand for. */
  function RunOf(g: PackGroup): Run {
    Run(g.key, FileIndices(g.members), Lengths(g.members))
  }

  function RunsOf(groups: seq<PackGroup>): seq<Run> {
    if groups == [] then [] else [RunOf(groups[0])] + RunsOf(groups[1..])
  }

  lemma {:induction false} TiledGroupsAreRuns(groups: seq<PackGroup>)
    requires forall g :: g in groups ==> Tiles(g.members, 0)
    requires forall g, s :: g in groups && s in g.members ==> s.blob == g.key
    ensures SlotsOfRuns(RunsOf(groups)) == Listed(groups)
  {
    if groups != [] {
      assert groups == [groups[0]] + groups[1..];
      assert groups[0] in groups;
      TiledRun(groups[0].key, groups[0].members, 0);
      TiledGroupsAreRuns(groups[1..]);
    }
  }

  // ----- The inner loops of the two encoders and the two decoders

  /** Walk a pack in physical order, refusing a gap, an overlap or a negative length. */
  method CheckMembers(g: PackGroup) returns (r: Result<Run>)
    ensures TileCheck(g.members, 0).Ok? ==> r == Ok(RunOf(g))
    ensures TileCheck(g.members, 0).Raised? ==> r == Raised(TileCheck(g.members, 0).fault)
  {
    var expected := 0;
    var indices: seq<int>, lengths: seq<int> := [], [];
    for j := 0 to |g.members|
      invariant TileCheck(g.members, 0) == TileCheck(g.members[j..], expected)
      invariant indices == FileIndices(g.members)[..j]
      invariant lengths == Lengths(g.members)[..j]
    {
      if g.members[j].off != expected {
        return Raised(SlicesNotContiguous);
      }
      if g.members[j].len < 0 {
        return Raised(NegativeLength);
      }
      indices := indices + [g.members[j].fi];
      lengths := lengths + [g.members[j].len];
      expected := expected + g.members[j].len;
    }
    assert indices == FileIndices(g.members) && lengths == Lengths(g.members);
    r := Ok(Run(g.key, indices, lengths));
  }

  /** Overwrite column 3 of each row of a run, in place. */
  method AssignRun(standard: array<Row>, seen: set<int>, run: Run) returns (r: Result<set<int>>)
    requires Matched(run)
    modifies standard
    ensures var placed := Place(Sheet(old(standard[..]), seen), SlotsOfRun(run));
            match placed
            case Ok(sheet) => r == Ok(sheet.seen) && standard[..] == sheet.rows
            case Raised(e) => r == Raised(e)
  {
    var offset, marked := 0, seen;
    ghost var start := Sheet(standard[..], seen);
    for j := 0 to |run.indices|
      invariant Place(start, SlotsOfRun(run)) ==
                Place(Sheet(standard[..], marked), RunSlots(run.blob, run.indices[j..], run.lengths[j..], offset))
    {
      var slot := Slot(run.indices[j], run.blob, offset, run.lengths[j]);
      RunSlotsStep(run, j, offset);
      ghost var before := Sheet(standard[..], marked);
      if slot.fi < 0 || slot.fi >= standard.Length || slot.fi in marked {
        return Raised(MembershipClash);
      }
      if standard[slot.fi].Short? {
        return Raised(ShapeError);
      }
      standard[slot.fi] := Fill(standard[slot.fi], slot);
      offset := offset + slot.len;
      marked := marked + {slot.fi};
      assert Sheet(standard[..], marked) == Assign(before, slot);
    }
    r := Ok(marked);
  }

  lemma RunSlotsStep(run: Run, j: nat, offset: int)
    requires Matched(run) && j < |run.indices|
    ensures RunSlots(run.blob, run.indices[j..], run.lengths[j..], offset) ==
            [Slot(run.indices[j], run.blob, offset, run.lengths[j])]
            + RunSlots(run.blob, run.indices[j + 1..], run.lengths[j + 1..], offset + run.lengths[j])
  {
    assert run.indices[j..][1..] == run.indices[j + 1..];
    assert run.lengths[j..][1..] == run.lengths[j + 1..];
  }

  ghost predicate ExpandsMatched(expand: Expander) {
    forall desc, cursor :: expand(desc, cursor).Ok? ==> Matched(expand(desc, cursor).value.run)
  }

  /** The outer loop: `standard` is a copy of the candidate's rows, overwritten run by run. */
  method RestoreRows(f: seq<Row>, q: seq<Descriptor>, start: Cursor, expand: Expander)
    returns (r: Result<seq<Row>>)
    requires ExpandsMatched(expand)
    ensures var whole := Restore(Sheet(f, {}), start, q, expand);
            if whole.Ok? then r == Ok(whole.value.rows) else r == Raised(whole.fault)
  {
    var standard := new Row[|f|](i requires 0 <= i < |f| => f[i]);
    var cursor, seen: set<int> := start, {};
    ghost var whole := Restore(Sheet(f, {}), start, q, expand);
    assert standard[..] == f && q[0..] == q;
    for k := 0 to |q|
      invariant whole == Restore(Sheet(standard[..], seen), cursor, q[k..], expand)
    {
      assert q[k..][0] == q[k] && q[k..][1..] == q[k + 1..];
      var expanded := expand(q[k], cursor);
      if expanded.Raised? {
        return Raised(expanded.fault);
      }
      var placed := AssignRun(standard, seen, expanded.value.run);
      if placed.Raised? {
        return Raised(placed.fault);
      }
      seen := placed.value;
      cursor := expanded.value.next;
    }
    assert q[|q|..] == [];
    r := Ok(standard[..]);
  }
}
