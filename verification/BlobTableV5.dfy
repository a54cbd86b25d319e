/** The v5 codec: v4 with the blob table left out and rebuilt by scanning the records. */
module BlobTableV5 {
  import opened Results
  import opened Sorting
  import opened ByteLayout
  import opened ControlRows
  import opened RecordScan
  import opened Acceptance
  import AcceptanceV3
  import V4 = PackMapV4

  /** `_compact_v5` as a function; the index's own blob table is `table`. */
  function Compact(c: Control, table: seq<BlobRow>, data: Bytes): Result<V4.Candidate> {
    var candidate :- V4.Compact(c);
    var scanned :- ScanFrom(data, 0);
    if scanned != table || c.b != Table(table) then Raised(BlobTableDrift)
    else Ok(candidate.(control := candidate.control.(b := NoTable)))
  }

  /** `_restore_v5` as a function. */
  function Decompact(candidate: V4.Candidate, data: Bytes): Result<Control> {
    var scanned :- ScanFrom(data, 0);
    V4.Decompact(V4.Candidate(candidate.control.(b := Table(scanned)), candidate.q))
  }

  /** v5 accepts exactly the indexes that v4 accepts and whose table, in the index and in the compact
      control alike, is the table of a stream of well-formed records. */
  lemma AcceptedV5Exact(c: Control, table: seq<BlobRow>, data: Bytes)
    ensures Compact(c, table, data).Ok? <==>
            && AcceptedV4(c.f) && c.b == Table(table)
            && exists recs :: AllWellFormed(recs) && Flatten(recs) == data && TableOf(recs, 0) == table
  {
    ScanExact(data);
    if Compact(c, table, data).Ok? {
      var recs := ScanParses(data, 0);
    }
  }

  /** Scanning puts back the very candidate that v4 had made. */
  lemma RebuildsV4(c: Control, table: seq<BlobRow>, data: Bytes)
    requires Compact(c, table, data).Ok?
    ensures V4.Compact(c).Ok?
    ensures Decompact(Compact(c, table, data).value, data) == V4.Decompact(V4.Compact(c).value)
  {
    hide ScanFrom, V4.Decompact, V4.Encode, V4.Ordered, Cleared;
    var candidate := V4.Compact(c).value;
    var stripped := Compact(c, table, data).value;
    assert V4.Candidate(stripped.control.(b := Table(table)), stripped.q) == candidate;
  }

  /** Decode after encode gives back the compact control with its blob table, for every index that
      the encoder accepts; as for v4, a negative blob id is the only obstacle. */
  lemma RoundTrip(c: Control, table: seq<BlobRow>, data: Bytes)
    requires Compact(c, table, data).Ok?
    ensures var out := Decompact(Compact(c, table, data).value, data);
            && (out.Ok? <==> forall s :: s in Packed(c.f) ==> s.blob >= 0)
            && (out.Ok? ==> out.value == c)
  {
    RebuildsV4(c, table, data);
    V4.RoundTrip(c);
  }

  /** It does fail: the row packed under the id -1, with no records at all. */
  lemma NegativeIdRefused(rest: seq<int>) returns (c: Control)
    ensures c == Control([AcceptanceV3.FileRow(-1, 0, 5)], Table([]), rest)
    ensures Compact(c, [], []).Ok? && Decompact(Compact(c, [], []).value, []).Raised?
  {
    hide V4.Encode, V4.Ordered, V4.Decompact;
    c := AcceptanceV3.NegativeIdRefused(Table([]), rest);
    assert ScanFrom([], 0) == Ok([]);
    RebuildsV4(c, [], []);
  }

  method CompactV5(c: Control, table: seq<BlobRow>, data: Bytes) returns (r: Result<V4.Candidate>)
    ensures Truncated(c.f) ==> r == Raised(ShapeError)
    ensures !Truncated(c.f) ==> r == Compact(c, table, data)
  {
    var candidate, _ := V4.CompactV4(c);
    if candidate.Raised? {
      return Raised(candidate.fault);
    }
    var encoded := candidate.value.control.b;
    var stripped := candidate.value.control.(b := NoTable);
    var scanned := ScanBlobTable(data);
    if scanned.Raised? {
      return Raised(scanned.fault);
    }
    if scanned.value != table {
      return Raised(BlobTableDrift);
    }
    if encoded != Table(table) {
      return Raised(BlobTableDrift);
    }
    r := Ok(V4.Candidate(stripped, candidate.value.q));
  }

  method RestoreV5(candidate: V4.Candidate, data: Bytes) returns (r: Result<Control>)
    ensures r == Decompact(candidate, data)
  {
    var scanned := ScanBlobTable(data);
    if scanned.Raised? {
      return Raised(scanned.fault);
    }
    r := V4.RestoreV4(V4.Candidate(candidate.control.(b := Table(scanned.value)), candidate.q));
  }
}
