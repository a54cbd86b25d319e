/** Streams of self-describing physical records, and the scanner that rebuilds the blob table. */
module RecordScan {
  import opened Results
  import opened Sorting
  import opened ByteLayout
  import opened ControlRows

  function HeaderOf(record: Bytes): Header
    requires |record| >= HEADER_BYTES
  {
    Unpack(record[..HEADER_BYTES])
  }

  /** A physical record: magic, header fields, then exactly as many bytes as the header says. */
  ghost predicate WellFormed(record: Bytes) {
    && |record| >= HEADER_BYTES
    && HeaderOf(record).magic == RECORD_MAGIC
    && |record| == HEADER_BYTES + HeaderOf(record).metaLen + HeaderOf(record).csize
  }

  ghost predicate AllWellFormed(recs: seq<Bytes>) {
    recs == [] || (WellFormed(recs[0]) && AllWellFormed(recs[1..]))
  }

  /** What the builder writes for one blob is such a record, and its header reads back. */
  lemma WrittenRecord(h: Header, meta: Bytes, payload: Bytes)
    requires HeaderFits(h) && h.magic == RECORD_MAGIC && |meta| == h.metaLen && |payload| == h.csize
    ensures WellFormed(PackHeader(h) + meta + payload)
    ensures HeaderOf(PackHeader(h) + meta + payload) == h
  {
    UnpackOfPack(h);
    assert (PackHeader(h) + meta + payload)[..HEADER_BYTES] == PackHeader(h);
  }

  function RowOf(record: Bytes, pos: int): BlobRow
    requires |record| >= HEADER_BYTES
  {
    var h := HeaderOf(record);
    BlobRow(pos, h.usize, h.csize, h.codec, h.metaLen)
  }

  /** One row per record, offsets accumulating. */
  ghost function TableOf(recs: seq<Bytes>, pos: int): seq<BlobRow>
    requires AllWellFormed(recs)
  {
    if recs == [] then [] else [RowOf(recs[0], pos)] + TableOf(recs[1..], pos + |recs[0]|)
  }

  /** `_scan_blob_table` on the bytes from position `pos` on. */
  function ScanFrom(rest: Bytes, pos: int): Result<seq<BlobRow>>
    decreases |rest|
  {
    if rest == [] then Ok([])
    else if |rest| < HEADER_BYTES then Raised(TruncatedRecord)
    else
      var h := HeaderOf(rest);
      var size := HEADER_BYTES + h.metaLen + h.csize;
      if h.magic != RECORD_MAGIC then Raised(BadMagic)
      else if size > |rest| then Raised(RecordEscapes)
      else
        var rows :- ScanFrom(rest[size..], pos + size);
        Ok([BlobRow(pos, h.usize, h.csize, h.codec, h.metaLen)] + rows)
  }

  /** Scanning a stream of well-formed records yields exactly their table. */
  lemma {:induction false} ScanOfStream(recs: seq<Bytes>, pos: int)
    requires AllWellFormed(recs)
    ensures ScanFrom(Flatten(recs), pos) == Ok(TableOf(recs, pos))
  {
    hide Unpack;
    if recs != [] {
      var r, tail := recs[0], Flatten(recs[1..]);
      assert (r + tail)[..HEADER_BYTES] == r[..HEADER_BYTES];
      assert (r + tail)[|r|..] == tail;
      assert |r| == HEADER_BYTES + HeaderOf(r).metaLen + HeaderOf(r).csize;
      ScanOfStream(recs[1..], pos + |r|);
    }
  }

  /** Whatever the scanner accepts is such a stream. */
  lemma {:induction false} ScanParses(data: Bytes, pos: int) returns (recs: seq<Bytes>)
    requires ScanFrom(data, pos).Ok?
    ensures AllWellFormed(recs) && Flatten(recs) == data
    decreases |data|
  {
    hide Unpack;
    if data == [] {
      recs := [];
    } else {
      var h := HeaderOf(data);
      var size := HEADER_BYTES + h.metaLen + h.csize;
      assert data[..size][..HEADER_BYTES] == data[..HEADER_BYTES];
      var rest := ScanParses(data[size..], pos + size);
      recs := [data[..size]] + rest;
      assert recs[1..] == rest;
      assert data == data[..size] + data[size..];
    }
  }

  /** The scanner accepts exactly the concatenations of well-formed records, and consumes all. */
  lemma ScanExact(data: Bytes)
    ensures ScanFrom(data, 0).Ok? <==> exists recs :: AllWellFormed(recs) && Flatten(recs) == data
    ensures forall recs :: AllWellFormed(recs) && Flatten(recs) == data ==> ScanFrom(data, 0) == Ok(TableOf(recs, 0))
  {
    if ScanFrom(data, 0).Ok? {
      var recs := ScanParses(data, 0);
    }
    forall recs | AllWellFormed(recs) && Flatten(recs) == data ensures ScanFrom(data, 0) == Ok(TableOf(recs, 0)) {
      ScanOfStream(recs, 0);
    }
  }

  function Extent(row: BlobRow): int {
    HEADER_BYTES + row.metaLen + row.csize
  }

  /** A scanned table starts at `pos`, has no gaps, and ends with the data. */
  lemma {:induction false} ScanContiguous(data: Bytes, pos: int)
    requires ScanFrom(data, pos).Ok?
    ensures var rows := ScanFrom(data, pos).value;
            && (rows == [] <==> data == [])
            && (rows != [] ==> rows[0].off == pos && rows[|rows| - 1].off + Extent(rows[|rows| - 1]) == pos + |data|)
            && (forall k :: 0 < k < |rows| ==> rows[k].off == rows[k - 1].off + Extent(rows[k - 1]))
            && (forall k :: 0 <= k < |rows| ==> Extent(rows[k]) >= HEADER_BYTES)
    decreases |data|
  {
    hide Unpack;
    if data != [] {
      var h := HeaderOf(data);
      var size := HEADER_BYTES + h.metaLen + h.csize;
      ScanContiguous(data[size..], pos + size);
      var rows, rest := ScanFrom(data, pos).value, ScanFrom(data[size..], pos + size).value;
      assert forall k :: 0 < k < |rows| ==> rows[k] == rest[k - 1];
      forall k | 0 < k < |rows| ensures rows[k].off == rows[k - 1].off + Extent(rows[k - 1]) {
        if k > 1 {
          assert rest[k - 1].off == rest[k - 2].off + Extent(rest[k - 2]);
        }
      }
    }
  }

  // ----- The two scanners

  method ScanBlobTable(data: Bytes) returns (r: Result<seq<BlobRow>>)
    ensures r == ScanFrom(data, 0)
  {
    hide Unpack;
    var rows: seq<BlobRow> := [];
    var pos := 0;
    ghost var whole := ScanFrom(data, 0);
    assert data[0..] == data;
    PrefixedNothing(whole);
    while pos < |data|
      invariant 0 <= pos <= |data|
      invariant whole == Prefixed(rows, ScanFrom(data[pos..], pos))
    {
      if pos + HEADER_BYTES > |data| {
        return Raised(TruncatedRecord);
      }
      var h := HeaderOf(data[pos..]);
      if h.magic != RECORD_MAGIC {
        return Raised(BadMagic);
      }
      var end := pos + HEADER_BYTES + h.metaLen + h.csize;
      if end > |data| {
        return Raised(RecordEscapes);
      }
      var row := BlobRow(pos, h.usize, h.csize, h.codec, h.metaLen);
      assert data[pos..][end - pos..] == data[end..];
      PrefixedStep(rows, row, ScanFrom(data[end..], end));
      rows := rows + [row];
      pos := end;
    }
    assert rows + [] == rows;
    r := Ok(rows);
  }

  /** The scanner of the distributed-control oracle appends its row before it checks the extent. */
  method DerivedBlobTable(data: Bytes) returns (r: Result<seq<BlobRow>>)
    ensures r == ScanFrom(data, 0)
  {
    hide Unpack;
    var rows: seq<BlobRow> := [];
    var off := 0;
    ghost var whole := ScanFrom(data, 0);
    assert data[0..] == data;
    PrefixedNothing(whole);
    while off < |data|
      invariant 0 <= off <= |data|
      invariant whole == Prefixed(rows, ScanFrom(data[off..], off))
    {
      if off + HEADER_BYTES > |data| {
        return Raised(TruncatedRecord);
      }
      var h := HeaderOf(data[off..]);
      if h.magic != RECORD_MAGIC {
        return Raised(BadMagic);
      }
      ghost var before := rows;
      rows := rows + [BlobRow(off, h.usize, h.csize, h.codec, h.metaLen)];
      var next := off + HEADER_BYTES + h.metaLen + h.csize;
      if next > |data| {
        return Raised(RecordEscapes);
      }
      assert data[off..][next - off..] == data[next..];
      PrefixedStep(before, BlobRow(off, h.usize, h.csize, h.codec, h.metaLen), ScanFrom(data[next..], next));
      off := next;
    }
    assert rows + [] == rows;
    r := Ok(rows);
  }
}
