/** What the decoders read out of one descriptor, whoever wrote it. */
module Decoders {
  import opened Results
  import opened ControlRows
  import opened Descriptors
  import AcceptanceV4
  import V2 = PackMapV2
  import V3 = PackMapV3
  import V4 = PackMapV4

  /** Rows one after another, from `first` on. */
  ghost predicate RowsFrom(rows: seq<int>, first: int) {
    forall i :: 0 <= i < |rows| ==> rows[i] == first + i
  }

  /** Rows of which `steps` holds the distances, the first one from `start`. */
  ghost predicate RowsBySteps(rows: seq<int>, steps: seq<int>, start: int) {
    && |steps| == |rows|
    && (rows != [] ==> rows[0] == start + steps[0])
    && forall i :: 0 < i < |rows| ==> rows[i] == rows[i - 1] + steps[i]
  }

  ghost predicate AllAre(ns: seq<int>, n: int) {
    forall i :: 0 <= i < |ns| ==> ns[i] == n
  }

  ghost predicate NoneNegative(ns: seq<int>) {
    forall i :: 0 <= i < |ns| ==> ns[i] >= 0
  }

  lemma {:induction false} AccumulateSteps(steps: seq<int>, start: int)
    ensures RowsBySteps(Accumulate(steps, start), steps, start)
  {
    if steps != [] {
      AccumulateSteps(steps[1..], start + steps[0]);
      var rows, rest := Accumulate(steps, start), Accumulate(steps[1..], start + steps[0]);
      assert rows == [start + steps[0]] + rest;
      forall i | 0 < i < |rows| ensures rows[i] == rows[i - 1] + steps[i] {
        assert rows[i] == rest[i - 1] && steps[i] == steps[1..][i - 1] && (i > 1 ==> rows[i - 1] == rest[i - 2]);
      }
    }
  }

  lemma {:induction false} StepsDetermine(a: seq<int>, b: seq<int>, steps: seq<int>, start: int, n: nat)
    requires RowsBySteps(a, steps, start) && RowsBySteps(b, steps, start) && n <= |steps|
    ensures forall i :: 0 <= i < n ==> a[i] == b[i]
  {
    if n > 0 {
      StepsDetermine(a, b, steps, start, n - 1);
      assert n > 1 ==> a[n - 1] == a[n - 2] + steps[n - 1] && b[n - 1] == b[n - 2] + steps[n - 1];
    }
  }

  lemma SameAsRange(rows: seq<int>, first: int, count: nat)
    ensures rows == Range(first, count) <==> |rows| == count && RowsFrom(rows, first)
  {
  }

  lemma SameAsRepeat(ns: seq<int>, n: int, count: nat)
    ensures ns == Repeat(n, count) <==> |ns| == count && AllAre(ns, n)
  {
  }

  lemma SameAsAccumulate(rows: seq<int>, steps: seq<int>, start: int)
    ensures rows == Accumulate(steps, start) <==> RowsBySteps(rows, steps, start)
  {
    AccumulateSteps(steps, start);
    if RowsBySteps(rows, steps, start) {
      StepsDetermine(rows, Accumulate(steps, start), steps, start, |steps|);
    }
  }

  lemma NoneNegativeExact(ns: seq<int>)
    ensures NoneNegative(ns) <==> !exists n :: n in ns && n < 0
  {
    if i :| 0 <= i < |ns| && ns[i] < 0 {
      assert ns[i] in ns;
    }
  }

  // ----- v4

  /** The lengths of a run, as its mode tells them. */
  ghost predicate ReadsLengths(cell: Cell, even: bool, lengths: seq<int>) {
    && NoneNegative(lengths)
    && if even then cell.Num? && AllAre(lengths, cell.v) else cell == List(lengths)
  }

  ghost predicate Reads4(d: Descriptor, end: int, run: Run) {
    && |d| == 4 && d[0] == Num(run.blob) && run.blob >= 0 && d[1].Num? && 0 <= d[1].v <= 3
    && |run.indices| == |run.lengths| > 0
    && ReadsLengths(d[3], d[1].v == 0 || d[1].v == 2, run.lengths)
    && (if d[1].v >= 2 then d[2] == List(run.indices)
        else
          && run.indices[0] >= end && RowsFrom(run.indices, run.indices[0])
          && d[2] == if d[1].v == 0 then List([run.indices[0] - end, |run.indices|]) else Num(run.indices[0] - end))
  }

  lemma Membership4(blob: int, mode: int, membership: Cell, spec: Cell, end: int, run: Run)
    requires 0 <= mode <= 3 && run.blob == blob
    ensures V4.ExpandMembership(blob, mode, membership, spec, end) == Ok(run) && NoneNegative(run.lengths) <==>
            && |run.indices| == |run.lengths| > 0
            && ReadsLengths(spec, mode == 0 || mode == 2, run.lengths)
            && (if mode >= 2 then membership == List(run.indices)
                else
                  && run.indices[0] >= end && RowsFrom(run.indices, run.indices[0])
                  && membership == if mode == 0 then List([run.indices[0] - end, |run.indices|])
                                   else Num(run.indices[0] - end))
  {
    hide Range, Repeat;
    var n := |run.indices|;
    if spec.Num? {
      SameAsRepeat(run.lengths, spec.v, n);
    }
    if mode == 0 && membership.List? && |membership.vs| == 2 && membership.vs[1] > 0 {
      SameAsRange(run.indices, end + membership.vs[0], membership.vs[1]);
      if spec.Num? {
        SameAsRepeat(run.lengths, spec.v, membership.vs[1]);
      }
      assert membership.vs == [membership.vs[0], membership.vs[1]];
    } else if mode == 1 && membership.Num? && spec.List? {
      SameAsRange(run.indices, end + membership.v, |spec.vs|);
    } else if mode == 2 && membership.List? && spec.Num? {
      SameAsRepeat(run.lengths, spec.v, |membership.vs|);
    }
  }

  /** The greatest row, plus one, unless the end was greater before. */
  ghost predicate NextEnd(before: int, rows: seq<int>, after: int) {
    && after >= before && (forall i :: 0 <= i < |rows| ==> rows[i] < after)
    && (after == before || exists i :: 0 <= i < |rows| && rows[i] + 1 == after)
  }

  /** v4: a descriptor is accepted exactly if it is the description of a run, and then it gives that run. */
  lemma ExpandV4Exact(d: Descriptor, cursor: Cursor)
    ensures V4.Expand(d, cursor).Ok? <==> exists run :: Reads4(d, cursor.fileEnd, run)
    ensures forall run :: Reads4(d, cursor.fileEnd, run) ==>
              && V4.Expand(d, cursor).Ok? && V4.Expand(d, cursor).value.run == run
              && V4.Expand(d, cursor).value.next.blob == run.blob
              && NextEnd(cursor.fileEnd, run.indices, V4.Expand(d, cursor).value.next.fileEnd)
  {
    hide V4.ExpandMembership, V4.FileEnd, ReadsLengths, NoneNegative;
    if |d| == 4 && d[0].Num? && d[1].Num? && 0 <= d[1].v <= 3 {
      forall run: Run | run.blob == d[0].v
        ensures Reads4(d, cursor.fileEnd, run) <==>
                && d[0].v >= 0 && NoneNegative(run.lengths)
                && V4.ExpandMembership(d[0].v, d[1].v, d[2], d[3], cursor.fileEnd) == Ok(run)
      {
        Membership4(d[0].v, d[1].v, d[2], d[3], cursor.fileEnd, run);
      }
      var r := V4.ExpandMembership(d[0].v, d[1].v, d[2], d[3], cursor.fileEnd);
      if r.Ok? {
        NoneNegativeExact(r.value.lengths);
        NextEndIs(cursor.fileEnd, r.value.indices);
      }
    }
  }

  lemma NextEndIs(end: int, rows: seq<int>)
    requires rows != []
    ensures NextEnd(end, rows, V4.FileEnd(end, rows))
  {
    AcceptanceV4.MaxOfExact(rows);
    forall i | 0 <= i < |rows| ensures rows[i] < V4.FileEnd(end, rows) {
      assert rows[i] in rows;
    }
    var i :| 0 <= i < |rows| && rows[i] == V4.MaxOf(rows);
  }

  // ----- v3

  ghost predicate Reads3(d: Descriptor, cursor: Cursor, run: Run) {
    && |d| == 3 && d[0].Num? && d[0].v >= 0
    && run.blob == cursor.blob + d[0].v / 4
    && |run.indices| == |run.lengths| > 0
    && var mode := d[0].v % 4;
    && ReadsLengths(d[2], mode == 0 || mode == 2, run.lengths)
    && (if mode >= 2 then d[1].List? && NoneNegative(d[1].vs) && RowsBySteps(run.indices, d[1].vs, cursor.fileEnd)
        else
          && run.indices[0] >= cursor.fileEnd && RowsFrom(run.indices, run.indices[0])
          && d[1] == if mode == 0 then List([run.indices[0] - cursor.fileEnd, |run.indices|])
                     else Num(run.indices[0] - cursor.fileEnd))
  }

  lemma Membership3(blob: int, mode: int, membership: Cell, spec: Cell, end: int, run: Run)
    requires 0 <= mode <= 3 && run.blob == blob
    ensures V3.ExpandMembership(blob, mode, membership, spec, end) == Ok(run) && NoneNegative(run.lengths) <==>
            && |run.indices| == |run.lengths| > 0
            && ReadsLengths(spec, mode == 0 || mode == 2, run.lengths)
            && (if mode >= 2 then
                  membership.List? && NoneNegative(membership.vs) && RowsBySteps(run.indices, membership.vs, end)
                else
                  && run.indices[0] >= end && RowsFrom(run.indices, run.indices[0])
                  && membership == if mode == 0 then List([run.indices[0] - end, |run.indices|])
                                   else Num(run.indices[0] - end))
  {
    hide Range, Repeat, Accumulate, RowsBySteps;
    if mode == 0 && membership.List? && |membership.vs| == 2 && membership.vs[1] > 0 {
      SameAsRange(run.indices, end + membership.vs[0], membership.vs[1]);
      if spec.Num? {
        SameAsRepeat(run.lengths, spec.v, membership.vs[1]);
      }
      assert membership.vs == [membership.vs[0], membership.vs[1]];
    } else if mode == 1 && membership.Num? && spec.List? {
      SameAsRange(run.indices, end + membership.v, |spec.vs|);
    } else if mode >= 2 && membership.List? {
      NoneNegativeExact(membership.vs);
      SameAsAccumulate(run.indices, membership.vs, end);
      StepsCount(run.indices, membership.vs, end);
      if spec.Num? {
        SameAsRepeat(run.lengths, spec.v, |membership.vs|);
      }
    }
  }

  lemma StepsCount(rows: seq<int>, steps: seq<int>, start: int)
    ensures RowsBySteps(rows, steps, start) ==> |steps| == |rows|
  {
  }

  /** v3 likewise; the next pack counts on from this one's id and its last row. */
  lemma ExpandV3Exact(d: Descriptor, cursor: Cursor)
    ensures V3.Expand(d, cursor).Ok? <==> exists run :: Reads3(d, cursor, run)
    ensures forall run :: Reads3(d, cursor, run) ==>
              && V3.Expand(d, cursor).Ok? && V3.Expand(d, cursor).value.run == run
              && V3.Expand(d, cursor).value.next == Cursor(run.blob, run.indices[|run.indices| - 1] + 1)
  {
    hide V3.ExpandMembership, ReadsLengths, NoneNegative, RowsBySteps, RowsFrom;
    if |d| == 3 && d[0].Num? && d[0].v >= 0 {
      var blob, mode := cursor.blob + d[0].v / 4, d[0].v % 4;
      forall run: Run | run.blob == blob
        ensures Reads3(d, cursor, run) <==>
                && NoneNegative(run.lengths)
                && V3.ExpandMembership(blob, mode, d[1], d[2], cursor.fileEnd) == Ok(run)
      {
        Membership3(blob, mode, d[1], d[2], cursor.fileEnd, run);
      }
      var r := V3.ExpandMembership(blob, mode, d[1], d[2], cursor.fileEnd);
      if r.Ok? {
        NoneNegativeExact(r.value.lengths);
      }
    }
  }

  // ----- v2

  /** One entry per length: the rows that the mode tells, and slices one after another from 0. An id that is
      no integer is only noticed when the first entry is written. */
  ghost predicate Sliced(entries: seq<V2.Entry>) {
    && (entries != [] ==> entries[0].slot.off == 0)
    && forall i :: 0 < i < |entries| ==> entries[i].slot.off == entries[i - 1].slot.off + entries[i - 1].slot.len
  }

  function RowsOf(entries: seq<V2.Entry>): (r: seq<int>)
    ensures |r| == |entries| && forall i :: 0 <= i < |r| ==> r[i] == entries[i].slot.fi
  {
    seq(|entries|, i requires 0 <= i < |entries| => entries[i].slot.fi)
  }

  ghost predicate Reads2(d: Descriptor, entries: seq<V2.Entry>) {
    && |d| == 4 && d[1].Num? && d[3].List? && |entries| == |d[3].vs|
    && (d[1].v == 0 || d[1].v == 1)
    && (forall i :: 0 <= i < |entries| ==>
          var s := entries[i].slot;
          && entries[i].typed == d[0].Num? && s.len == d[3].vs[i]
          && s.blob == (if d[0].Num? then d[0].v else 0))
    && Sliced(entries)
    && (if d[1].v == 0 then d[2].Num? && RowsFrom(RowsOf(entries), d[2].v)
        else d[2].List? && RowsBySteps(RowsOf(entries), d[2].vs, 0))
  }

  lemma {:induction false} RunSlotsFollow(blob: int, indices: seq<int>, lengths: seq<int>, offset: int)
    requires |indices| == |lengths|
    ensures var r := RunSlots(blob, indices, lengths, offset);
            && (r != [] ==> r[0].off == offset)
            && forall i :: 0 < i < |r| ==> r[i].off == r[i - 1].off + r[i - 1].len
  {
    if indices != [] {
      RunSlotsFollow(blob, indices[1..], lengths[1..], offset + lengths[0]);
      var r := RunSlots(blob, indices, lengths, offset);
      var rest := RunSlots(blob, indices[1..], lengths[1..], offset + lengths[0]);
      assert r == [Slot(indices[0], blob, offset, lengths[0])] + rest;
      forall i | 0 < i < |r| ensures r[i].off == r[i - 1].off + r[i - 1].len {
        assert r[i] == rest[i - 1] && (i > 1 ==> r[i - 1] == rest[i - 2]);
      }
    }
  }

  lemma EntriesFollow(run: Run, typed: bool)
    requires |run.indices| == |run.lengths|
    ensures var es := V2.EntriesOf(run, typed);
            && (forall i :: 0 <= i < |es| ==>
                  && es[i].typed == typed && es[i].slot.fi == run.indices[i] && es[i].slot.blob == run.blob
                  && es[i].slot.len == run.lengths[i])
            && Sliced(es)
  {
    hide RunSlots;
    var es, slots := V2.EntriesOf(run, typed), RunSlots(run.blob, run.indices, run.lengths, 0);
    assert forall i :: 0 <= i < |es| ==> es[i].slot == slots[i];
    RunSlotsFollow(run.blob, run.indices, run.lengths, 0);
  }

  lemma EntriesDetermined(d: Descriptor, a: seq<V2.Entry>, b: seq<V2.Entry>, n: nat)
    requires Reads2(d, a) && Reads2(d, b) && n <= |a|
    ensures |a| == |b| && a[..n] == b[..n]
  {
    if d[1].v == 1 {
      StepsDetermine(RowsOf(a), RowsOf(b), d[2].vs, 0, |a|);
    }
    SlicesDetermined(d, a, b, n);
  }

  lemma {:induction false} SlicesDetermined(d: Descriptor, a: seq<V2.Entry>, b: seq<V2.Entry>, n: nat)
    requires Reads2(d, a) && Reads2(d, b) && n <= |a|
    requires forall i :: 0 <= i < |a| ==> RowsOf(a)[i] == RowsOf(b)[i]
    ensures a[..n] == b[..n]
  {
    if n > 0 {
      SlicesDetermined(d, a, b, n - 1);
      var x, y := a[n - 1], b[n - 1];
      if n > 1 {
        assert a[n - 2] == a[..n - 1][n - 2] == b[..n - 1][n - 2] == b[n - 2];
      }
      assert RowsOf(a)[n - 1] == x.slot.fi && RowsOf(b)[n - 1] == y.slot.fi;
      assert x.slot == y.slot && x == y;
      assert a[..n] == a[..n - 1] + [x] && b[..n] == b[..n - 1] + [y];
    }
  }

  /** v2 likewise. */
  lemma ExpandV2Exact(d: Descriptor)
    ensures V2.Expand(d).Ok? <==> exists entries :: Reads2(d, entries)
    ensures forall entries :: Reads2(d, entries) ==> V2.Expand(d) == Ok(entries)
  {
    hide V2.EntriesOf, Accumulate, Range;
    if |d| == 4 && d[1].Num? && d[3].List? {
      var blob := if d[0].Num? then d[0].v else 0;
      if d[1].v == 0 && d[2].Num? {
        EntriesFollow(Run(blob, Range(d[2].v, |d[3].vs|), d[3].vs), d[0].Num?);
        SameAsRange(Range(d[2].v, |d[3].vs|), d[2].v, |d[3].vs|);
        assert RowsOf(V2.Expand(d).value) == Range(d[2].v, |d[3].vs|);
        assert Reads2(d, V2.Expand(d).value);
      } else if d[1].v == 1 && d[2].List? && |d[2].vs| == |d[3].vs| {
        EntriesFollow(Run(blob, Accumulate(d[2].vs, 0), d[3].vs), d[0].Num?);
        AccumulateSteps(d[2].vs, 0);
        assert RowsOf(V2.Expand(d).value) == Accumulate(d[2].vs, 0);
        assert Reads2(d, V2.Expand(d).value);
      }
    }
    forall entries | Reads2(d, entries) ensures V2.Expand(d) == Ok(entries) {
      var e := V2.Expand(d).value;
      EntriesDetermined(d, e, entries, |e|);
      assert e[..|e|] == e && entries[..|e|] == entries;
    }
  }

  /** The row that an index names, counting from the end if it is negative, when it names one at all. */
  ghost predicate Lands(fi: int, n: nat, row: int) {
    0 <= fi + n && fi < n && row == fi % n
  }

  /** Every entry with an integer id lands on a row of its own that carries the marker. */
  ghost predicate EachLands(f: seq<Row>, entries: seq<V2.Entry>) {
    && (forall k :: 0 <= k < |entries| ==> LandsMarked(f, entries[k]))
    && forall i, j | 0 <= i < j < |entries| :: Elsewhere(entries[i], entries[j], |f|)
  }

  ghost predicate LandsMarked(f: seq<Row>, e: V2.Entry) {
    e.typed && exists row :: 0 <= row < |f| && Lands(e.slot.fi, |f|, row) && f[row].Long? && f[row].field == Marker
  }

  ghost predicate Elsewhere(a: V2.Entry, b: V2.Entry, n: nat) {
    forall row :: !(Lands(a.slot.fi, n, row) && Lands(b.slot.fi, n, row))
  }

  ghost predicate IsHit(f: seq<Row>, entries: seq<V2.Entry>, row: int) {
    exists k :: 0 <= k < |entries| && Lands(entries[k].slot.fi, |f|, row)
  }

  lemma ResolveLands(fi: int, n: nat)
    ensures 0 <= V2.Resolve(fi, n) < n <==> 0 <= fi + n && fi < n
    ensures forall row :: Lands(fi, n, row) <==> 0 <= V2.Resolve(fi, n) < n && row == V2.Resolve(fi, n)
  {
  }

  lemma EachLandsExact(f: seq<Row>, entries: seq<V2.Entry>)
    ensures V2.Placeable(Sheet(f, {}), entries) <==> EachLands(f, entries)
  {
    hide Lands, V2.Resolve;
    var n := |f|;
    forall e | e in entries
      ensures LandsMarked(f, e) <==>
              && 0 <= V2.Resolve(e.slot.fi, n) < n && IsMarked(f[V2.Resolve(e.slot.fi, n)]) && e.typed
    {
      ResolveLands(e.slot.fi, n);
    }
    if V2.Placeable(Sheet(f, {}), entries) {
      forall i, j | 0 <= i < j < |entries| ensures Elsewhere(entries[i], entries[j], n) {
        ResolveLands(entries[i].slot.fi, n);
        ResolveLands(entries[j].slot.fi, n);
      }
    }
    if EachLands(f, entries) {
      forall e | e in entries ensures LandsMarked(f, e) {
        var k :| 0 <= k < |entries| && entries[k] == e;
      }
      forall i, j | 0 <= i < j < |entries|
        ensures V2.Resolve(entries[i].slot.fi, n) != V2.Resolve(entries[j].slot.fi, n)
      {
        assert entries[i] in entries && Elsewhere(entries[i], entries[j], n);
        ResolveLands(entries[i].slot.fi, n);
        ResolveLands(entries[j].slot.fi, n);
        assert !(Lands(entries[i].slot.fi, n, V2.Resolve(entries[i].slot.fi, n))
                 && Lands(entries[j].slot.fi, n, V2.Resolve(entries[i].slot.fi, n)));
      }
    }
  }

  /** v2 as a whole: the descriptors must all be read, and their entries land on the marked rows, each once
      and none left out; every marked row then has the slice of its entry, and no other row changes. */
  lemma RestoreV2Means(f: seq<Row>, q: seq<Descriptor>)
    ensures V2.Restore(f, q).Ok? <==>
            && V2.Expansion(q).Ok? && EachLands(f, V2.Expansion(q).value)
            && forall row :: V2.MarkedRow(f, row) ==> IsHit(f, V2.Expansion(q).value, row)
    ensures V2.Restore(f, q).Ok? ==>
              var entries, out := V2.Expansion(q).value, V2.Restore(f, q).value;
              && |out| == |f|
              && (forall row :: 0 <= row < |f| && !IsHit(f, entries, row) ==> out[row] == f[row])
              && forall k, row | 0 <= k < |entries| && 0 <= row < |f| && Lands(entries[k].slot.fi, |f|, row) ::
                   && f[row].Long?
                   && var s := entries[k].slot; out[row] == f[row].(field := Slice(s.blob, s.off, s.len))
  {
    hide Lands, V2.Resolve, V2.Restore, V2.Expansion, V2.Placeable, EachLands;
    V2.RestoreExact(f, q);
    if V2.Expansion(q).Ok? {
      var entries, n := V2.Expansion(q).value, |f|;
      EachLandsExact(f, entries);
      forall row | 0 <= row < n && V2.Placeable(Sheet(f, {}), entries)
        ensures IsHit(f, entries, row) <==> row in V2.Targets(entries, n)
      {
        HitIsTarget(f, entries, row);
      }
      if V2.Restore(f, q).Ok? {
        forall k, row | 0 <= k < |entries| && 0 <= row < n && Lands(entries[k].slot.fi, n, row)
          ensures f[row].Long?
          ensures V2.Restore(f, q).value[row] == Fill(f[row], entries[k].slot)
        {
          assert entries[k] in entries;
          ResolveLands(entries[k].slot.fi, n);
        }
      }
    }
  }

  lemma HitIsTarget(f: seq<Row>, entries: seq<V2.Entry>, row: int)
    requires 0 <= row < |f|
    ensures IsHit(f, entries, row) <==> row in V2.Targets(entries, |f|)
  {
    hide Lands, V2.Resolve;
    forall e | e in entries ensures Lands(e.slot.fi, |f|, row) <==> V2.Resolve(e.slot.fi, |f|) == row {
      ResolveLands(e.slot.fi, |f|);
    }
    if row in V2.Targets(entries, |f|) {
      var e :| e in entries && V2.Resolve(e.slot.fi, |f|) == row;
      var k :| 0 <= k < |entries| && entries[k] == e;
    }
    if k :| 0 <= k < |entries| && Lands(entries[k].slot.fi, |f|, row) {
      assert entries[k] in entries;
    }
  }
}
