/** The v2 codec: each packed row keeps the marker [S_PACK]; one descriptor per pack, in blob order,
    lists its rows and lengths. The decoder checks markers instead of ranges. */
module PackMapV2 {
  import opened Results
  import opened Sorting
  import opened Grouping
  import opened ControlRows
  import opened Descriptors

  /** `u` counts the contiguous and the delta-coded packs; the decoder drops it. */
  datatype Candidate = Candidate(control: Control, q: seq<Descriptor>, u: (int, int))

  // ----- The encoder as a function

  function Differences(indices: seq<int>, prev: int): (r: seq<int>)
    ensures |r| == |indices|
  {
    if indices == [] then [] else [indices[0] - prev] + Differences(indices[1..], indices[0])
  }

  function EncodeRun(run: Run): Descriptor
    requires Matched(run)
  {
    if Contiguous(run.indices) then [Num(run.blob), Num(0), Num(run.indices[0]), List(run.lengths)]
    else [Num(run.blob), Num(1), List(Differences(run.indices, 0)), List(run.lengths)]
  }

  function Encode(groups: seq<PackGroup>): Result<seq<Descriptor>> {
    if groups == [] then Ok([])
    else if !Tiles(groups[0].members, 0) then Raised(SlicesNotContiguous)
    else if groups[0].members == [] then Raised(ShapeError)
    else
      var rest :- Encode(groups[1..]);
      Ok([EncodeRun(RunOf(groups[0]))] + rest)
  }

  function ContiguousPacks(groups: seq<PackGroup>): nat {
    if groups == [] then 0
    else (if Contiguous(FileIndices(groups[0].members)) then 1 else 0) + ContiguousPacks(groups[1..])
  }

  /** `_packmap_compact` as a function. */
  function Compact(c: Control): Result<Candidate> {
    var groups := ByBlob(c.f);
    var q :- Encode(groups);
    Ok(Candidate(c.(f := Cleared(c.f, Marker)), q, (ContiguousPacks(groups), |groups| - ContiguousPacks(groups))))
  }

  // ----- The decoder as a function

  /** A slot, and whether the blob cell it came from is an integer: that is only looked at when the
      slot is written. */
  datatype Entry = Entry(slot: Slot, typed: bool)

  function EntriesOf(run: Run, typed: bool): (r: seq<Entry>)
    requires |run.indices| == |run.lengths|
    ensures |r| == |run.indices|
  {
    var slots := RunSlots(run.blob, run.indices, run.lengths, 0);
    seq(|slots|, k requires 0 <= k < |slots| => Entry(slots[k], typed))
  }

  function Expand(desc: Descriptor): Result<seq<Entry>> {
    if |desc| != 4 then Raised(MalformedDescriptor)
    else
      var lengths :- AsList(desc[3]);
      var mode :- AsInt(desc[1]);
      var blob := if desc[0].Num? then desc[0].v else 0;
      if mode == 0 then
        var first :- AsInt(desc[2]);
        Ok(EntriesOf(Run(blob, Range(first, |lengths|), lengths), desc[0].Num?))
      else if mode == 1 then
        var deltas :- AsList(desc[2]);
        if |deltas| != |lengths| then Raised(CountMismatch)
        else Ok(EntriesOf(Run(blob, Accumulate(deltas, 0), lengths), desc[0].Num?))
      else Raised(BadDescriptorHeader)
  }

  /** Python list indexing: a negative index counts from the end. */
  function Resolve(fi: int, count: nat): int {
    if fi < 0 then fi + count else fi
  }

  function Check(sheet: Sheet, e: Entry): Result<()> {
    var at := Resolve(e.slot.fi, |sheet.rows|);
    if e.slot.fi in sheet.seen then Raised(MembershipClash)
    else if at < 0 || at >= |sheet.rows| || sheet.rows[at].Short? then Raised(ShapeError)
    else if !sheet.rows[at].field.Marker? then Raised(MarkerMismatch)
    else if !e.typed then Raised(ShapeError)
    else Ok(())
  }

  function Write(sheet: Sheet, e: Entry): Sheet
    requires Check(sheet, e).Ok?
  {
    var at := Resolve(e.slot.fi, |sheet.rows|);
    Sheet(sheet.rows[at := Fill(sheet.rows[at], e.slot)], sheet.seen + {e.slot.fi})
  }

  function Place(sheet: Sheet, entries: seq<Entry>): Result<Sheet>
    decreases |entries|
  {
    if entries == [] then Ok(sheet)
    else
      var _ :- Check(sheet, entries[0]);
      Place(Write(sheet, entries[0]), entries[1..])
  }

  function Fold(sheet: Sheet, q: seq<Descriptor>): Result<Sheet>
    decreases |q|
  {
    if q == [] then Ok(sheet)
    else
      var entries :- Expand(q[0]);
      var next :- Place(sheet, entries);
      Fold(next, q[1..])
  }

  /** `_restore_standard` as a function of the rows: no marker may be left over. */
  function Restore(f: seq<Row>, q: seq<Descriptor>): Result<seq<Row>> {
    var sheet :- Fold(Sheet(f, {}), q);
    if exists r :: r in sheet.rows && IsMarked(r) then Raised(MembershipIncomplete) else Ok(sheet.rows)
  }

  function Decompact(candidate: Candidate): Result<Control> {
    var rows :- Restore(candidate.control.f, candidate.q);
    Ok(candidate.control.(f := rows))
  }

  /** All entries of a descriptor list. */
  function Expansion(q: seq<Descriptor>): Result<seq<Entry>> {
    if q == [] then Ok([])
    else
      var entries :- Expand(q[0]);
      var rest :- Expansion(q[1..]);
      Ok(entries + rest)
  }

  // ----- What the decoder accepts

  ghost predicate Placeable(sheet: Sheet, entries: seq<Entry>) {
    var n := |sheet.rows|;
    && (forall e :: e in entries ==>
          && 0 <= Resolve(e.slot.fi, n) < n && IsMarked(sheet.rows[Resolve(e.slot.fi, n)])
          && e.slot.fi !in sheet.seen && e.typed)
    && (forall i, j | 0 <= i < j < |entries| ::
          Resolve(entries[i].slot.fi, n) != Resolve(entries[j].slot.fi, n))
  }

  /** The rows that the entries resolve to. */
  function Targets(entries: seq<Entry>, n: nat): set<int> {
    set e | e in entries :: Resolve(e.slot.fi, n)
  }

  ghost predicate Placed(sheet: Sheet, entries: seq<Entry>, out: Sheet) {
    var n := |sheet.rows|;
    && |out.rows| == n
    && (forall e :: e in entries ==>
          && 0 <= Resolve(e.slot.fi, n) < n && sheet.rows[Resolve(e.slot.fi, n)].Long?
          && out.rows[Resolve(e.slot.fi, n)] == Fill(sheet.rows[Resolve(e.slot.fi, n)], e.slot))
    && (forall i :: 0 <= i < n && i !in Targets(entries, n) ==> out.rows[i] == sheet.rows[i])
  }

  lemma PlaceableCons(sheet: Sheet, e: Entry, rest: seq<Entry>)
    ensures Placeable(sheet, [e] + rest) <==> Check(sheet, e).Ok? && Placeable(Write(sheet, e), rest)
  {
    var entries, n := [e] + rest, |sheet.rows|;
    assert forall t :: t in entries <==> t == e || t in rest;
    if Placeable(sheet, entries) {
      forall t | t in rest ensures Resolve(t.slot.fi, n) != Resolve(e.slot.fi, n) {
        var k :| 0 <= k < |rest| && rest[k] == t;
        assert entries[0] == e && entries[k + 1] == t;
      }
      forall i, j | 0 <= i < j < |rest|
        ensures Resolve(rest[i].slot.fi, n) != Resolve(rest[j].slot.fi, n)
      {
        assert rest[i] == entries[i + 1] && rest[j] == entries[j + 1];
      }
    }
    if Check(sheet, e).Ok? && Placeable(Write(sheet, e), rest) {
      forall t | t in rest ensures Resolve(t.slot.fi, n) != Resolve(e.slot.fi, n) {
        assert IsMarked(Write(sheet, e).rows[Resolve(t.slot.fi, n)]);
      }
      forall i, j | 0 <= i < j < |entries|
        ensures Resolve(entries[i].slot.fi, n) != Resolve(entries[j].slot.fi, n)
      {
        assert entries[j] == rest[j - 1] && rest[j - 1] in rest;
      }
    }
  }

  /** Although the decoder checks neither ranges nor, for a negative index, aliasing, the markers make
      it refuse exactly the lists that do not name distinct marked rows. */
  lemma {:induction false} PlaceExact(sheet: Sheet, entries: seq<Entry>)
    ensures Place(sheet, entries).Ok? <==> Placeable(sheet, entries)
    ensures Placeable(sheet, entries) ==> Placed(sheet, entries, Place(sheet, entries).value)
    decreases |entries|
  {
    if entries != [] {
      var e, rest := entries[0], entries[1..];
      assert entries == [e] + rest;
      PlaceableCons(sheet, e, rest);
      if Check(sheet, e).Ok? {
        PlaceExact(Write(sheet, e), rest);
        if Placeable(Write(sheet, e), rest) {
          PlacedCons(sheet, e, rest, Place(sheet, entries).value);
        }
      }
    }
  }

  lemma PlacedCons(sheet: Sheet, e: Entry, rest: seq<Entry>, out: Sheet)
    requires Check(sheet, e).Ok? && Placeable(Write(sheet, e), rest) && Placed(Write(sheet, e), rest, out)
    ensures Placed(sheet, [e] + rest, out)
  {
    var n, at := |sheet.rows|, Resolve(e.slot.fi, |sheet.rows|);
    assert Targets([e] + rest, n) == {at} + Targets(rest, n);
    assert at !in Targets(rest, n);
    forall t | t in [e] + rest
      ensures && 0 <= Resolve(t.slot.fi, n) < n && sheet.rows[Resolve(t.slot.fi, n)].Long?
              && out.rows[Resolve(t.slot.fi, n)] == Fill(sheet.rows[Resolve(t.slot.fi, n)], t.slot)
    {
      if t in rest {
        assert Resolve(t.slot.fi, n) in Targets(rest, n);
      }
    }
  }

  lemma {:induction false} PlaceAppend(sheet: Sheet, a: seq<Entry>, b: seq<Entry>)
    ensures Place(sheet, a + b) ==
            if Place(sheet, a).Ok? then Place(Place(sheet, a).value, b) else Place(sheet, a)
    decreases |a|
  {
    if a == [] {
      assert a + b == b;
    } else {
      assert (a + b)[0] == a[0] && (a + b)[1..] == a[1..] + b;
      if Check(sheet, a[0]).Ok? {
        PlaceAppend(Write(sheet, a[0]), a[1..], b);
      }
    }
  }

  lemma {:induction false} FoldSplits(sheet: Sheet, q: seq<Descriptor>)
    ensures var entries := Expansion(q);
            var out := Fold(sheet, q);
            && (out.Ok? <==> entries.Ok? && Place(sheet, entries.value).Ok?)
            && (out.Ok? ==> out == Place(sheet, entries.value))
    decreases |q|
  {
    if q != [] {
      var entries := Expand(q[0]);
      if entries.Ok? {
        var placed, rest := Place(sheet, entries.value), Expansion(q[1..]);
        if placed.Ok? {
          FoldSplits(placed.value, q[1..]);
        }
        if rest.Ok? {
          PlaceAppend(sheet, entries.value, rest.value);
        }
      }
    }
  }

  ghost predicate MarkedRow(f: seq<Row>, i: int) {
    0 <= i < |f| && IsMarked(f[i])
  }

  /** The decoder succeeds exactly when the entries are in bijection with the marked rows; each
      marked row then holds the slice of its entry and every other row is unchanged. */
  lemma RestoreExact(f: seq<Row>, q: seq<Descriptor>)
    ensures Restore(f, q).Ok? <==>
            && Expansion(q).Ok?
            && Placeable(Sheet(f, {}), Expansion(q).value)
            && (forall i :: MarkedRow(f, i) ==> i in Targets(Expansion(q).value, |f|))
    ensures Restore(f, q).Ok? ==>
              Placed(Sheet(f, {}), Expansion(q).value, Sheet(Restore(f, q).value, {}))
  {
    FoldSplits(Sheet(f, {}), q);
    if Expansion(q).Ok? {
      var entries, n := Expansion(q).value, |f|;
      PlaceExact(Sheet(f, {}), entries);
      if Placeable(Sheet(f, {}), entries) {
        var out := Place(Sheet(f, {}), entries).value.rows;
        forall i | 0 <= i < n ensures IsMarked(out[i]) <==> MarkedRow(f, i) && i !in Targets(entries, n) {
        }
        if r :| r in out && IsMarked(r) {
          var i :| 0 <= i < n && out[i] == r;
          assert MarkedRow(f, i) && i !in Targets(entries, n);
        } else {
          forall i | MarkedRow(f, i) ensures i in Targets(entries, n) {
            assert out[i] in out;
          }
        }
      }
    }
  }

  // ----- The round trip

  lemma {:induction false} AccumulateUndoesDifferences(indices: seq<int>, prev: int)
    ensures Accumulate(Differences(indices, prev), prev) == indices
  {
    if indices != [] {
      AccumulateUndoesDifferences(indices[1..], indices[0]);
      assert Differences(indices, prev)[1..] == Differences(indices[1..], indices[0]);
    }
  }

  function Typed(slots: seq<Slot>): (r: seq<Entry>)
    ensures |r| == |slots|
  {
    seq(|slots|, k requires 0 <= k < |slots| => Entry(slots[k], true))
  }

  /** One descriptor undone. */
  lemma ExpandUndoesEncode(run: Run)
    requires Matched(run)
    ensures Expand(EncodeRun(run)) == Ok(EntriesOf(run, true))
  {
    AccumulateUndoesDifferences(run.indices, 0);
  }

  lemma {:induction false} ExpansionUndoesEncode(groups: seq<PackGroup>)
    requires forall g :: g in groups ==> g.members != []
    requires forall g, s :: g in groups && s in g.members ==> s.blob == g.key
    requires Encode(groups).Ok?
    ensures Expansion(Encode(groups).value) == Ok(Typed(Listed(groups)))
  {
    hide EncodeRun, Expand;
    if groups != [] {
      var g, rest := groups[0], groups[1..];
      assert groups == [g] + rest;
      assert Encode(groups).value[1..] == Encode(rest).value;
      ExpansionUndoesEncode(rest);
      ExpandUndoesEncode(RunOf(g));
      assert g in groups;
      TiledRun(g.key, g.members, 0);
      assert EntriesOf(RunOf(g), true) == Typed(g.members);
      assert Typed(g.members) + Typed(Listed(rest)) == Typed(Listed(groups));
    }
  }

  lemma TypedMember(slots: seq<Slot>, e: Entry)
    ensures e in Typed(slots) <==> e.typed && e.slot in slots
  {
    if e.typed && e.slot in slots {
      var k :| 0 <= k < |slots| && slots[k] == e.slot;
      assert Typed(slots)[k] == e;
    }
  }

  lemma TypedAt(slots: seq<Slot>)
    ensures forall k :: 0 <= k < |slots| ==> Typed(slots)[k] == Entry(slots[k], true)
  {
  }

  ghost predicate NamePacked(f: seq<Row>, slots: seq<Slot>) {
    && (forall s :: s in slots ==> 0 <= s.fi < |f| && IsPacked(f[s.fi]))
    && (forall i, j | 0 <= i < j < |slots| :: slots[i].fi != slots[j].fi)
  }

  lemma SlotsNamePacked(f: seq<Row>, slots: seq<Slot>)
    requires multiset(slots) == multiset(Packed(f))
    ensures NamePacked(f, slots)
    ensures forall s :: s in Packed(f) ==> s in slots
  {
    hide Packed;
    PackedSound(f);
    PackedDistinct(f);
    MembersMatch(slots, Packed(f));
    NoDuplicatesPermutes(slots, Packed(f));
    forall i, j | 0 <= i < j < |slots| ensures slots[i].fi != slots[j].fi {
      assert slots[i] in Packed(f) && slots[j] in Packed(f) && slots[i] != slots[j];
    }
  }

  lemma NamePackedFits(f: seq<Row>, slots: seq<Slot>)
    requires NamePacked(f, slots)
    ensures Placeable(Sheet(Cleared(f, Marker), {}), Typed(slots))
    ensures forall i :: i in Targets(Typed(slots), |f|) ==> 0 <= i < |f| && IsPacked(f[i])
  {
    hide Typed;
    TypedAt(slots);
    forall e | e in Typed(slots) ensures 0 <= e.slot.fi < |f| && IsPacked(f[e.slot.fi]) && e.typed {
      TypedMember(slots, e);
    }
  }

  /** The packed rows' own slots name exactly the rows that the encoder marked. */
  lemma EntriesFit(f: seq<Row>, slots: seq<Slot>)
    requires multiset(slots) == multiset(Packed(f))
    ensures Placeable(Sheet(Cleared(f, Marker), {}), Typed(slots))
    ensures forall i :: 0 <= i < |f| ==> (i in Targets(Typed(slots), |f|) <==> IsPacked(f[i]))
  {
    hide Placeable, Targets, Typed, NamePacked;
    SlotsNamePacked(f, slots);
    NamePackedFits(f, slots);
    forall i | 0 <= i < |f| && IsPacked(f[i]) ensures i in Targets(Typed(slots), |f|) {
      PackedTarget(f, slots, i);
    }
  }

  lemma PackedTarget(f: seq<Row>, slots: seq<Slot>, i: nat)
    requires i < |f| && IsPacked(f[i]) && forall s :: s in Packed(f) ==> s in slots
    ensures i in Targets(Typed(slots), |f|)
  {
    PackedComplete(f, i);
    var e := Entry(Slot(i, f[i].field.blob, f[i].field.off, f[i].field.len), true);
    TypedMember(slots, e);
    assert Resolve(e.slot.fi, |f|) == i;
  }

  /** Filling in the packed rows' own slots restores them all. */
  lemma PlacedRestores(f: seq<Row>, slots: seq<Slot>, out: seq<Row>)
    requires multiset(slots) == multiset(Packed(f))
    requires Placed(Sheet(Cleared(f, Marker), {}), Typed(slots), Sheet(out, {}))
    ensures out == f
  {
    EntriesFit(f, slots);
    MembersMatch(slots, Packed(f));
    forall i | 0 <= i < |f| ensures out[i] == f[i] {
      if IsPacked(f[i]) {
        PackedComplete(f, i);
        var e := Entry(Slot(i, f[i].field.blob, f[i].field.off, f[i].field.len), true);
        TypedMember(slots, e);
        assert Resolve(e.slot.fi, |f|) == i;
      }
    }
  }

  lemma RowsRoundTrip(f: seq<Row>)
    requires !Truncated(f) && Encode(ByBlob(f)).Ok?
    ensures var out := Restore(Cleared(f, Marker), Encode(ByBlob(f)).value);
            && (out.Ok? <==> Unmarked(f))
            && (out.Ok? ==> out.value == f)
  {
    hide Packed, ByBlob, Restore, Placeable, Placed;
    var groups, rows := ByBlob(f), Cleared(f, Marker);
    ByBlobArranges(f);
    ArrangedSplits(groups, Packed(f));
    ExpansionUndoesEncode(groups);
    ArrangedPermutes(groups, f);
    var slots := Listed(groups);
    EntriesFit(f, slots);
    RestoreExact(rows, Encode(groups).value);
    forall i | MarkedRow(rows, i) ensures i in Targets(Typed(slots), |f|) <==> !IsMarked(f[i]) {
    }
    if r :| r in f && IsMarked(r) {
      var i :| 0 <= i < |f| && f[i] == r;
      assert MarkedRow(rows, i);
    } else {
      forall i | MarkedRow(rows, i) ensures !IsMarked(f[i]) {
        assert f[i] in f;
      }
      PlacedRestores(f, slots, Restore(rows, Encode(groups).value).value);
    }
  }

  /** Decode after encode on any rows at all: markers in place of slices are told from the encoder's own
      only by the kind of their row, and a row that is no regular file and carries one is refused. */
  lemma RoundTripExact(c: Control)
    requires !Truncated(c.f) && Compact(c).Ok?
    ensures var out := Decompact(Compact(c).value);
            && (out.Ok? <==> Unmarked(c.f))
            && (out.Ok? ==> out.value == c)
  {
    RowsRoundTrip(c.f);
  }

  /** Decode after encode gives back the whole control, for every compact table that the encoder accepts. */
  lemma RoundTrip(c: Control)
    requires Unmarked(c.f) && Compact(c).Ok?
    ensures Decompact(Compact(c).value) == Ok(c)
  {
    RoundTripExact(c);
  }

  // ----- The procedures

  /** Walk a pack in physical order; unlike v3 and v4 this accepts negative lengths. */
  method WalkMembers(g: PackGroup) returns (r: Result<Run>)
    ensures r == if Tiles(g.members, 0) then Ok(RunOf(g)) else Raised(SlicesNotContiguous)
  {
    var expected := 0;
    var indices: seq<int>, lengths: seq<int> := [], [];
    for j := 0 to |g.members|
      invariant Tiles(g.members, 0) == Tiles(g.members[j..], expected)
      invariant indices == FileIndices(g.members)[..j]
      invariant lengths == Lengths(g.members)[..j]
    {
      if g.members[j].off != expected {
        return Raised(SlicesNotContiguous);
      }
      indices := indices + [g.members[j].fi];
      lengths := lengths + [g.members[j].len];
      expected := expected + g.members[j].len;
    }
    assert indices == FileIndices(g.members) && lengths == Lengths(g.members);
    r := Ok(Run(g.key, indices, lengths));
  }

  method EncodeGroups(groups: seq<PackGroup>) returns (r: Result<seq<Descriptor>>, contiguous: nat)
    ensures r == Encode(ArrangeAll(groups))
    ensures r.Ok? ==> contiguous == ContiguousPacks(ArrangeAll(groups)) <= |groups|
  {
    ghost var ordered := ArrangeAll(groups);
    var q: seq<Descriptor> := [];
    contiguous := 0;
    ghost var whole := Encode(ordered);
    assert ordered[0..] == ordered;
    PrefixedNothing(whole);
    for k := 0 to |groups|
      invariant whole == Prefixed(q, Encode(ordered[k..]))
      invariant contiguous + ContiguousPacks(ordered[k..]) == ContiguousPacks(ordered) && contiguous <= k
    {
      ghost var rest := ordered[k + 1..];
      assert ordered[k..][0] == Arrange(groups[k]) && ordered[k..][1..] == rest;
      var run := WalkMembers(Arrange(groups[k]));
      if run.Raised? {
        return Raised(run.fault), contiguous;
      }
      if groups[k].members == [] {
        return Raised(ShapeError), contiguous;
      }
      var desc := EncodeRun(run.value);
      PrefixedStep(q, desc, Encode(rest));
      q := q + [desc];
      if Contiguous(run.value.indices) {
        contiguous := contiguous + 1;
      }
    }
    assert ordered[|groups|..] == [] && q + [] == q;
    r := Ok(q);
  }

  method CompactV2(c: Control) returns (r: Result<Candidate>)
    ensures Truncated(c.f) ==> r == Raised(ShapeError)
    ensures !Truncated(c.f) ==> r == Compact(c)
  {
    hide Packed, Buckets, Sort, ArrangeAll, Cleared, Encode, ContiguousPacks, Truncated;
    var rows, gathered := Gather(c.f, Marker);
    if gathered.Raised? {
      return Raised(gathered.fault);
    }
    var groups := Sort(gathered.value, BucketKey);
    assert ArrangeAll(groups) == ByBlob(c.f);
    var q, contiguous := EncodeGroups(groups);
    if q.Raised? {
      return Raised(q.fault);
    }
    r := Ok(Candidate(c.(f := rows[..]), q.value, (contiguous, |groups| - contiguous)));
  }

  method PlaceEntries(standard: array<Row>, seen: set<int>, entries: seq<Entry>) returns (r: Result<set<int>>)
    modifies standard
    ensures match Place(Sheet(old(standard[..]), seen), entries)
            case Ok(sheet) => r == Ok(sheet.seen) && standard[..] == sheet.rows
            case Raised(e) => r == Raised(e)
  {
    var marked := seen;
    ghost var start := Sheet(standard[..], seen);
    assert entries[0..] == entries;
    for j := 0 to |entries|
      invariant Place(start, entries) == Place(Sheet(standard[..], marked), entries[j..])
    {
      var e := entries[j];
      assert entries[j..][0] == e && entries[j..][1..] == entries[j + 1..];
      ghost var before := Sheet(standard[..], marked);
      if e.slot.fi in marked {
        return Raised(MembershipClash);
      }
      var at := if e.slot.fi < 0 then e.slot.fi + standard.Length else e.slot.fi;
      if at < 0 || at >= standard.Length || standard[at].Short? {
        return Raised(ShapeError);
      }
      if !standard[at].field.Marker? {
        return Raised(MarkerMismatch);
      }
      if !e.typed {
        return Raised(ShapeError);
      }
      standard[at] := Fill(standard[at], e.slot);
      marked := marked + {e.slot.fi};
      assert Sheet(standard[..], marked) == Write(before, e);
    }
    r := Ok(marked);
  }

  method RestoreV2(candidate: Candidate) returns (r: Result<Control>)
    ensures r == Decompact(candidate)
  {
    var f, q := candidate.control.f, candidate.q;
    var standard := new Row[|f|](i requires 0 <= i < |f| => f[i]);
    var seen: set<int> := {};
    ghost var whole := Fold(Sheet(f, {}), q);
    assert standard[..] == f && q[0..] == q;
    for k := 0 to |q|
      invariant whole == Fold(Sheet(standard[..], seen), q[k..])
    {
      assert q[k..][0] == q[k] && q[k..][1..] == q[k + 1..];
      var entries := Expand(q[k]);
      if entries.Raised? {
        return Raised(entries.fault);
      }
      var placed := PlaceEntries(standard, seen, entries.value);
      if placed.Raised? {
        return Raised(placed.fault);
      }
      seen := placed.value;
    }
    assert q[|q|..] == [];
    for i := 0 to standard.Length
      invariant forall k :: 0 <= k < i ==> !IsMarked(standard[k])
    {
      if IsMarked(standard[i]) {
        assert standard[i] in standard[..];
        return Raised(MembershipIncomplete);
      }
    }
    r := Ok(candidate.control.(f := standard[..]));
  }
}
