/** From the index to a candidate and back: compaction, a pack map on top of it, and both undone. */
module IndexPipeline {
  import opened Results
  import opened ByteLayout
  import opened ControlRows
  import opened Kinds
  import opened IndexTable
  import opened IndexCodec
  import V2 = PackMapV2
  import V3 = PackMapV3
  import V4 = PackMapV4
  import V5 = BlobTableV5

  // ----- The compact rows as the pack maps see them

  /** Storages that no pack map looks into are told apart by a number. */
  type Code = Storage -> int

  ghost predicate Injective(code: Code) {
    forall s, t :: code(s) == code(t) ==> s == t
  }

  function Cells(o: Option<int>): seq<int> {
    if o.None? then [0] else [1, o.value]
  }

  function FieldOf(s: Storage, code: Code): Field {
    if s == Absent then Nothing
    else if s == Bare(S_PACK) then Marker
    else if s.Packed? then ControlRows.Slice(s.blob, s.off, s.len)
    else Foreign(code(s))
  }

  function RowOf(e: Encoded, code: Code): Row {
    var head := Cells(e.mode) + [e.delta];
    match e
    case Stub(kind, _, _) => Short(kind, head)
    case Alias(kind, _, _, owner) => Long(kind, head, Foreign(owner), [])
    case Full(kind, _, _, storage, size, digest) =>
      Long(kind, head, FieldOf(storage, code), Cells(size) + Cells(digest))
  }

  function ControlOf(c: CompactIndex, code: Code): Control {
    Control(seq(|c.f|, i requires 0 <= i < |c.f| => RowOf(c.f[i], code)), Table(c.b), [])
  }

  lemma CellsTold(a: Option<int>, b: Option<int>, x: seq<int>, y: seq<int>)
    requires Cells(a) + x == Cells(b) + y
    ensures a == b && x == y
  {
    var s, t := Cells(a) + x, Cells(b) + y;
    assert s[0] == t[0];
    assert s[|Cells(a)|..] == x && t[|Cells(b)|..] == y;
    if a.Some? {
      assert s[1] == t[1];
    }
  }

  lemma FieldTold(s: Storage, t: Storage, code: Code)
    requires Injective(code) && FieldOf(s, code) == FieldOf(t, code)
    ensures s == t
  {
  }

  lemma RowTold(a: Encoded, b: Encoded, code: Code)
    requires Injective(code) && RowOf(a, code) == RowOf(b, code)
    ensures a == b
  {
    hide Cells, FieldOf;
    CellsTold(a.mode, b.mode, [a.delta], [b.delta]);
    assert [a.delta][0] == [b.delta][0];
    if a.Full? {
      TailNotEmpty(a.size, a.digest);
    }
    if b.Full? {
      TailNotEmpty(b.size, b.digest);
    }
    if a.Full? && b.Full? {
      CellsTold(a.size, b.size, Cells(a.digest), Cells(b.digest));
      assert Cells(a.digest) + [] == Cells(a.digest) && Cells(b.digest) + [] == Cells(b.digest);
      CellsTold(a.digest, b.digest, [], []);
      FieldTold(a.storage, b.storage, code);
    }
  }

  lemma TailNotEmpty(a: Option<int>, b: Option<int>)
    ensures Cells(a) + Cells(b) != []
  {
    assert |Cells(a)| > 0;
  }

  /** The pack maps lose nothing of a compact table. */
  lemma ControlTold(c: CompactIndex, d: CompactIndex, code: Code)
    requires Injective(code) && ControlOf(c, code).f == ControlOf(d, code).f
    ensures c.f == d.f
  {
    hide RowOf;
    var f, g := ControlOf(c, code).f, ControlOf(d, code).f;
    assert |c.f| == |f| == |g| == |d.f|;
    forall i | 0 <= i < |c.f| ensures c.f[i] == d.f[i] {
      assert f[i] == RowOf(c.f[i], code) && g[i] == RowOf(d.f[i], code);
      RowTold(c.f[i], d.f[i], code);
    }
  }

  /** No bare marker leaves the encoder: deriving the size of its row raises. */
  lemma CompactIsUnmarked(ix: Index, code: Code)
    requires Compact(ix).Ok?
    ensures var f := ControlOf(Compact(ix).value, code).f; Unmarked(f) && !Truncated(f)
  {
    hide Compact;
    var c := Compact(ix).value;
    var f := ControlOf(c, code).f;
    CompactLengths(ix);
    forall r | r in f ensures !IsMarked(r) {
      var i :| 0 <= i < |f| && f[i] == r;
      CompactColumns(ix, i);
      assert f[i] == RowOf(c.f[i], code);
    }
  }

  // ----- The whole way

  /** No packed row of the index names a negative blob id. */
  ghost predicate IdsNatural(ix: Index) {
    forall row :: row in ix.files && row.kind == K_FILE && row.storage.Packed? ==> row.storage.blob >= 0
  }

  /** The pack maps see a packed row, with these numbers, exactly where the index has a regular file that is
      stored so. */
  lemma SlicesTold(ix: Index, code: Code, i: nat, blob: int, off: int, len: int)
    requires Compact(ix).Ok? && i < |ix.files|
    ensures var f, row := ControlOf(Compact(ix).value, code).f, ix.files[i];
            && |f| == |ix.files| && f[i].kind == row.kind
            && (f[i].Long? && f[i].kind == 0 && f[i].field == ControlRows.Slice(blob, off, len) <==>
                row.kind == 0 && row.storage == Packed(blob, off, len))
  {
    hide Compact;
    CompactLengths(ix);
    CompactColumns(ix, i);
    assert ControlOf(Compact(ix).value, code).f[i] == RowOf(Compact(ix).value.f[i], code);
  }

  lemma PackedRows(ix: Index, code: Code)
    requires Compact(ix).Ok?
    ensures IdsNatural(ix) <==>
            forall s :: s in ControlRows.Packed(ControlOf(Compact(ix).value, code).f) ==> s.blob >= 0
  {
    hide Compact;
    var c := Compact(ix).value;
    var f := ControlOf(c, code).f;
    CompactLengths(ix);
    PackedSound(f);
    forall i | 0 <= i < |ix.files|
      ensures IsPacked(f[i]) <==> ix.files[i].kind == K_FILE && ix.files[i].storage.Packed?
      ensures IsPacked(f[i]) ==> f[i].field.blob == ix.files[i].storage.blob
    {
      CompactColumns(ix, i);
      assert f[i] == RowOf(c.f[i], code);
    }
    if IdsNatural(ix) {
      forall s | s in ControlRows.Packed(f) ensures s.blob >= 0 {
        assert ix.files[s.fi] in ix.files;
      }
    }
    if forall s :: s in ControlRows.Packed(f) ==> s.blob >= 0 {
      forall row | row in ix.files && row.kind == K_FILE && row.storage.Packed? ensures row.storage.blob >= 0 {
        var i :| 0 <= i < |ix.files| && ix.files[i] == row;
        PackedComplete(f, i);
      }
    }
  }

  /** Whatever compact table the restored control is read as, all other columns being those of `c`, it
      expands to the index exactly when the index is faithful. */
  ghost predicate ExpandsTo(control: Control, c: CompactIndex, code: Code, ix: Index) {
    && (exists f :: ControlOf(c.(f := f), code) == control)
    && forall f :: ControlOf(c.(f := f), code) == control ==>
         (Expand(c.(f := f), ix.version, ix.features) == Ok(ix) <==> Faithful(ix))
  }

  lemma SameControlExpands(ix: Index, code: Code)
    requires Injective(code) && Compact(ix).Ok?
    ensures ExpandsTo(ControlOf(Compact(ix).value, code), Compact(ix).value, code, ix)
  {
    hide Compact, Expand, ControlOf, Faithful;
    var c := Compact(ix).value;
    var control := ControlOf(c, code);
    assert c.(f := c.f) == c;
    forall f | ControlOf(c.(f := f), code) == control
      ensures Expand(c.(f := f), ix.version, ix.features) == Ok(ix) <==> Faithful(ix)
    {
      ControlTold(c, c.(f := f), code);
      RoundTripExact(ix);
    }
  }

  /** v4 from end to end: an index that compacts and that v4 accepts comes back exactly when no packed row
      has a negative id and the index is faithful. */
  lemma ProjectV4Exact(ix: Index, code: Code)
    requires Injective(code) && Compact(ix).Ok?
    requires V4.Compact(ControlOf(Compact(ix).value, code)).Ok?
    ensures var c := Compact(ix).value;
            var out := V4.Decompact(V4.Compact(ControlOf(c, code)).value);
            && (out.Ok? <==> IdsNatural(ix))
            && (out.Ok? ==> ExpandsTo(out.value, c, code, ix))
  {
    hide Compact, V4.Compact, V4.Decompact, ControlOf, IdsNatural, ExpandsTo;
    V4.RoundTrip(ControlOf(Compact(ix).value, code));
    PackedRows(ix, code);
    SameControlExpands(ix, code);
  }

  /** v3 and v2 have no other condition than faithfulness. */
  lemma ProjectV3Exact(ix: Index, code: Code)
    requires Injective(code) && Compact(ix).Ok?
    requires V3.Compact(ControlOf(Compact(ix).value, code)).Ok?
    ensures var c := Compact(ix).value;
            var out := V3.Decompact(V3.Compact(ControlOf(c, code)).value);
            out.Ok? && ExpandsTo(out.value, c, code, ix)
  {
    hide Compact, V3.Compact, V3.Decompact, ControlOf, ExpandsTo;
    V3.RoundTrip(ControlOf(Compact(ix).value, code));
    SameControlExpands(ix, code);
  }

  lemma ProjectV2Exact(ix: Index, code: Code)
    requires Injective(code) && Compact(ix).Ok?
    requires V2.Compact(ControlOf(Compact(ix).value, code)).Ok?
    ensures var c := Compact(ix).value;
            var out := V2.Decompact(V2.Compact(ControlOf(c, code)).value);
            out.Ok? && ExpandsTo(out.value, c, code, ix)
  {
    hide Compact, V2.Compact, V2.Decompact, ControlOf, ExpandsTo, Unmarked, Truncated;
    CompactIsUnmarked(ix, code);
    V2.RoundTrip(ControlOf(Compact(ix).value, code));
    SameControlExpands(ix, code);
  }

  /** v5, over the archive's own records. */
  lemma ProjectV5Exact(ix: Index, data: Bytes, code: Code)
    requires Injective(code) && Compact(ix).Ok?
    requires V5.Compact(ControlOf(Compact(ix).value, code), ix.blobs, data).Ok?
    ensures var c := Compact(ix).value;
            var out := V5.Decompact(V5.Compact(ControlOf(c, code), ix.blobs, data).value, data);
            && (out.Ok? <==> IdsNatural(ix))
            && (out.Ok? ==> ExpandsTo(out.value, c, code, ix))
  {
    hide Compact, V5.Compact, V5.Decompact, ControlOf, IdsNatural, ExpandsTo;
    V5.RoundTrip(ControlOf(Compact(ix).value, code), ix.blobs, data);
    PackedRows(ix, code);
    SameControlExpands(ix, code);
  }
}
