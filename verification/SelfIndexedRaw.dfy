/** Re-framing a RAW-only record stream under 40-byte self-indexing headers `<4sI32s`. */
module SelfIndexedRaw {
  import opened Results
  import opened Sorting
  import opened ByteLayout
  import opened ControlRows
  import opened Numbers
  import opened RecordScan

  const SELF_HEADER_BYTES := 40

  /** `C2R0` */
  const SELF_MAGIC: Bytes := [67, 50, 82, 48]

  /** SHA-256, and CRC-32 masked to 32 bits. */
  type Digest = Bytes -> Bytes
  type Checksum = Bytes -> nat

  function PayloadOf(record: Bytes): Bytes
    requires |record| >= HEADER_BYTES
  {
    record[HEADER_BYTES..]
  }

  /** The header half of RAW eligibility. */
  predicate RawHeader(h: Header) {
    h.codec == CODEC_RAW && h.flags == 0 && h.reserved == 0 && h.metaLen == 0
  }

  ghost predicate RawRecord(record: Bytes, sha: Digest, crc: Checksum)
    requires |record| >= HEADER_BYTES
  {
    var h := HeaderOf(record);
    && RawHeader(h) && h.usize == h.csize
    && sha(PayloadOf(record)) == h.digest && crc(PayloadOf(record)) == h.crc
  }

  datatype Scanned = Scanned(rows: seq<BlobRow>, payloadBytes: int)

  function Charged(row: BlobRow, size: nat, rest: Result<Scanned>): Result<Scanned> {
    match rest
    case Ok(s) => Ok(Scanned([row] + s.rows, size + s.payloadBytes))
    case Raised(e) => Raised(e)
  }

  /** `_scan_current_raw_records` on the bytes from position `at` on. */
  function RawScanFrom(rest: Bytes, at: int, sha: Digest, crc: Checksum): Result<Scanned>
    decreases |rest|
  {
    if rest == [] then Ok(Scanned([], 0))
    else if |rest| < HEADER_BYTES then Raised(TruncatedRecord)
    else
      var h := HeaderOf(rest);
      var end := HEADER_BYTES + h.csize;
      if h.magic != RECORD_MAGIC then Raised(BadMagic)
      else if !RawHeader(h) then Raised(NotEligible)
      else if h.usize != h.csize then Raised(SizesDiffer)
      else if end > |rest| then Raised(RecordEscapes)
      else if sha(rest[HEADER_BYTES..end]) != h.digest then Raised(DigestMismatch)
      else if crc(rest[HEADER_BYTES..end]) != h.crc then Raised(ChecksumMismatch)
      else
        Charged(BlobRow(at, h.usize, h.csize, h.codec, h.metaLen), h.csize,
                RawScanFrom(rest[end..], at + end, sha, crc))
  }

  datatype Projection = Projection(end: nat, rows: seq<BlobRow>, payloadBytes: int)

  function Extended(row: BlobRow, size: nat, rest: Result<Projection>): Result<Projection> {
    match rest
    case Ok(p) => Ok(Projection(p.end, [row] + p.rows, size + p.payloadBytes))
    case Raised(e) => Raised(e)
  }

  /** `_project_self_indexed_data`: it trusts record extents, so a final payload may be cut short. */
  function ProjectFrom(rest: Bytes, at: nat, sha: Digest): Result<Projection>
    decreases |rest|
  {
    if rest == [] then Ok(Projection(at, [], 0))
    else if |rest| < HEADER_BYTES then Raised(StructError)
    else
      var h := HeaderOf(rest);
      var end := Clip(HEADER_BYTES + h.csize, |rest|);
      if h.magic != RECORD_MAGIC || !RawHeader(h) then Raised(NotEligible)
      else if h.usize != h.csize then Raised(SizesDiffer)
      else if sha(rest[HEADER_BYTES..end]) != h.digest then Raised(DigestMismatch)
      else if h.csize >= Pow256(4) then Raised(StructError)
      else
        Extended(BlobRow(at, h.usize, h.csize, CODEC_RAW, 0), h.csize,
                 ProjectFrom(rest[end..], at + SELF_HEADER_BYTES + h.csize, sha))
  }

  /** The record that takes an old one's place: magic, 32-bit payload length, SHA-256, payload. */
  function Reframed(record: Bytes): (b: Bytes)
    requires |record| >= HEADER_BYTES
    ensures |HeaderOf(record).digest| == 32
    ensures |b| == SELF_HEADER_BYTES + |record| - HEADER_BYTES
  {
    SELF_MAGIC + FieldBytes(HeaderOf(record).csize, 4) + HeaderOf(record).digest + PayloadOf(record)
  }

  ghost function ReframedAll(recs: seq<Bytes>): (out: seq<Bytes>)
    requires AllWellFormed(recs)
  {
    if recs == [] then [] else [Reframed(recs[0])] + ReframedAll(recs[1..])
  }

  /** A reader of the new grammar: each record says how long it is, codec and metadata are fixed. */
  function SelfScanFrom(rest: Bytes, at: int): Result<seq<BlobRow>>
    decreases |rest|
  {
    if rest == [] then Ok([])
    else if |rest| < SELF_HEADER_BYTES then Raised(TruncatedRecord)
    else
      var size := Value(rest[4..8]);
      var end := SELF_HEADER_BYTES + size;
      if rest[..4] != SELF_MAGIC then Raised(BadMagic)
      else if end > |rest| then Raised(RecordEscapes)
      else
        var rows :- SelfScanFrom(rest[end..], at + end);
        Ok([BlobRow(at, size, size, CODEC_RAW, 0)] + rows)
  }

  /** `_same_blob_semantics`: all columns but the offset. */
  predicate SameBlobSemantics(a: seq<BlobRow>, b: seq<BlobRow>) {
    && |a| == |b|
    && forall k :: 0 <= k < |a| ==>
         && a[k].usize == b[k].usize && a[k].csize == b[k].csize
         && a[k].codec == b[k].codec && a[k].metaLen == b[k].metaLen
  }

  // ----- RAW scan against the plain scan

  ghost predicate AllRaw(recs: seq<Bytes>, sha: Digest, crc: Checksum) {
    recs == [] || (WellFormed(recs[0]) && RawRecord(recs[0], sha, crc) && AllRaw(recs[1..], sha, crc))
  }

  lemma {:induction false} RawIsWellFormed(recs: seq<Bytes>, sha: Digest, crc: Checksum)
    requires AllRaw(recs, sha, crc)
    ensures AllWellFormed(recs)
  {
    if recs != [] {
      RawIsWellFormed(recs[1..], sha, crc);
    }
  }

  function PayloadTotal(recs: seq<Bytes>): int {
    if recs == [] then 0 else |recs[0]| - HEADER_BYTES + PayloadTotal(recs[1..])
  }

  lemma HeadOfStream(r: Bytes, tail: Bytes)
    requires WellFormed(r)
    ensures HeaderOf(r + tail) == HeaderOf(r)
    ensures (r + tail)[|r|..] == tail && (r + tail)[HEADER_BYTES..|r|] == PayloadOf(r)
  {
    assert (r + tail)[..HEADER_BYTES] == r[..HEADER_BYTES];
  }

  lemma RawScanNothing(at: int, sha: Digest, crc: Checksum)
    ensures RawScanFrom([], at, sha, crc) == Ok(Scanned([], 0))
  {
  }

  lemma RawScanStep(r: Bytes, tail: Bytes, at: int, sha: Digest, crc: Checksum)
    requires WellFormed(r)
    ensures RawScanFrom(r + tail, at, sha, crc).Ok? ==> RawRecord(r, sha, crc)
    ensures RawRecord(r, sha, crc) ==>
              RawScanFrom(r + tail, at, sha, crc) ==
              Charged(RowOf(r, at), |r| - HEADER_BYTES, RawScanFrom(tail, at + |r|, sha, crc))
  {
    hide Unpack;
    HeadOfStream(r, tail);
    assert HeaderOf(r).metaLen == 0 ==> |r| == HEADER_BYTES + HeaderOf(r).csize;
  }

  /** On a stream of records, the RAW scan accepts exactly when every record is RAW and intact. */
  lemma {:induction false} RawScanOfStream(recs: seq<Bytes>, at: int, sha: Digest, crc: Checksum)
    requires AllWellFormed(recs)
    ensures RawScanFrom(Flatten(recs), at, sha, crc).Ok? <==> AllRaw(recs, sha, crc)
    ensures AllRaw(recs, sha, crc) ==>
              RawScanFrom(Flatten(recs), at, sha, crc) == Ok(Scanned(TableOf(recs, at), PayloadTotal(recs)))
  {
    hide RawScanFrom, HeaderOf;
    RawScanNothing(at, sha, crc);
    if recs != [] {
      var r, rest := recs[0], recs[1..];
      RawScanStep(r, Flatten(rest), at, sha, crc);
      RawScanOfStream(rest, at + |r|, sha, crc);
    }
  }

  lemma {:induction false} RawScanIsScan(data: Bytes, at: int, sha: Digest, crc: Checksum)
    requires RawScanFrom(data, at, sha, crc).Ok?
    ensures ScanFrom(data, at) == Ok(RawScanFrom(data, at, sha, crc).value.rows)
    decreases |data|
  {
    hide Unpack;
    if data != [] {
      var h := HeaderOf(data);
      var end := HEADER_BYTES + h.csize;
      RawScanIsScan(data[end..], at + end, sha, crc);
    }
  }

  /** The third walker: on any bytes the RAW scan accepts exactly the concatenations of intact RAW
      records, and then derives the table that the plain scan derives. */
  lemma RawScanExact(data: Bytes, sha: Digest, crc: Checksum)
    ensures RawScanFrom(data, 0, sha, crc).Ok? <==> exists recs :: AllRaw(recs, sha, crc) && Flatten(recs) == data
    ensures RawScanFrom(data, 0, sha, crc).Ok? ==>
              ScanFrom(data, 0) == Ok(RawScanFrom(data, 0, sha, crc).value.rows)
  {
    if RawScanFrom(data, 0, sha, crc).Ok? {
      RawScanIsScan(data, 0, sha, crc);
      var recs := ScanParses(data, 0);
      RawScanOfStream(recs, 0, sha, crc);
    }
    forall recs | AllRaw(recs, sha, crc) && Flatten(recs) == data ensures RawScanFrom(data, 0, sha, crc).Ok? {
      RawIsWellFormed(recs, sha, crc);
      RawScanOfStream(recs, 0, sha, crc);
    }
  }

  // ----- The projection

  ghost predicate Narrow(recs: seq<Bytes>) {
    recs == [] || (|recs[0]| - HEADER_BYTES < Pow256(4) && Narrow(recs[1..]))
  }

  /** The rows of the re-framed records. */
  ghost function SelfTableOf(recs: seq<Bytes>, at: nat): seq<BlobRow>
    requires AllWellFormed(recs)
  {
    if recs == [] then []
    else
      var size := |recs[0]| - HEADER_BYTES;
      [BlobRow(at, size, size, CODEC_RAW, 0)] + SelfTableOf(recs[1..], at + SELF_HEADER_BYTES + size)
  }

  lemma ProjectNothing(at: nat, sha: Digest)
    ensures ProjectFrom([], at, sha) == Ok(Projection(at, [], 0))
  {
  }

  lemma ProjectStep(r: Bytes, tail: Bytes, at: nat, sha: Digest, crc: Checksum)
    requires WellFormed(r) && RawRecord(r, sha, crc)
    ensures var size := |r| - HEADER_BYTES;
            ProjectFrom(r + tail, at, sha) ==
            if size >= Pow256(4) then Raised(StructError)
            else Extended(BlobRow(at, size, size, CODEC_RAW, 0), size,
                          ProjectFrom(tail, at + SELF_HEADER_BYTES + size, sha))
  {
    hide Unpack;
    HeadOfStream(r, tail);
    assert |r| == HEADER_BYTES + HeaderOf(r).csize;
    assert Clip(|r|, |r + tail|) == |r|;
  }

  /** The projection succeeds exactly when every payload length fits 32 bits. */
  lemma {:induction false} ProjectOfStream(recs: seq<Bytes>, at: nat, sha: Digest, crc: Checksum)
    requires AllRaw(recs, sha, crc) && AllWellFormed(recs)
    ensures ProjectFrom(Flatten(recs), at, sha).Ok? <==> Narrow(recs)
    ensures Narrow(recs) ==>
              ProjectFrom(Flatten(recs), at, sha) ==
              Ok(Projection(at + |Flatten(ReframedAll(recs))|, SelfTableOf(recs, at), PayloadTotal(recs)))
  {
    hide ProjectFrom, HeaderOf;
    ProjectNothing(at, sha);
    if recs != [] {
      var r, rest := recs[0], recs[1..];
      ProjectStep(r, Flatten(rest), at, sha, crc);
      ProjectOfStream(rest, at + SELF_HEADER_BYTES + |r| - HEADER_BYTES, sha, crc);
      FlattenReframed(recs);
    }
  }

  lemma FlattenReframed(recs: seq<Bytes>)
    requires recs != [] && AllWellFormed(recs)
    ensures Flatten(ReframedAll(recs)) == Reframed(recs[0]) + Flatten(ReframedAll(recs[1..]))
  {
    hide Unpack;
    assert ReframedAll(recs)[1..] == ReframedAll(recs[1..]);
  }

  lemma ReframedHead(r: Bytes, tail: Bytes)
    requires WellFormed(r) && HeaderOf(r).metaLen == 0 && HeaderOf(r).csize < Pow256(4)
    ensures var b := Reframed(r) + tail;
            && b[..4] == SELF_MAGIC && Value(b[4..8]) == |r| - HEADER_BYTES
            && b[SELF_HEADER_BYTES..|Reframed(r)|] == PayloadOf(r)
            && b[|Reframed(r)|..] == tail
  {
    var b := Reframed(r) + tail;
    assert b[4..8] == FieldBytes(HeaderOf(r).csize, 4);
    ValueOfField(HeaderOf(r).csize, 4);
  }

  lemma SelfScanNothing(at: nat)
    ensures SelfScanFrom([], at) == Ok([])
  {
  }

  lemma SelfScanStep(r: Bytes, tail: Bytes, at: nat)
    requires WellFormed(r) && HeaderOf(r).metaLen == 0 && HeaderOf(r).csize < Pow256(4)
    ensures var size := |r| - HEADER_BYTES;
            SelfScanFrom(Reframed(r) + tail, at) ==
            Prefixed([BlobRow(at, size, size, CODEC_RAW, 0)], SelfScanFrom(tail, at + SELF_HEADER_BYTES + size))
  {
    ReframedHead(r, tail);
  }

  /** A reader of the re-framed stream derives exactly the projected rows. */
  lemma {:induction false} SelfScanOfStream(recs: seq<Bytes>, at: nat, sha: Digest, crc: Checksum)
    requires AllWellFormed(recs) && AllRaw(recs, sha, crc) && Narrow(recs)
    ensures SelfScanFrom(Flatten(ReframedAll(recs)), at) == Ok(SelfTableOf(recs, at))
  {
    hide SelfScanFrom, HeaderOf;
    SelfScanNothing(at);
    if recs != [] {
      var r, rest := recs[0], recs[1..];
      FlattenReframed(recs);
      SelfScanStep(r, Flatten(ReframedAll(rest)), at);
      SelfScanOfStream(rest, at + SELF_HEADER_BYTES + |r| - HEADER_BYTES, sha, crc);
    }
  }

  /** Row by row: only the offset changes, and the k-th one falls by k header differences. */
  lemma {:induction false} OffsetsShift(recs: seq<Bytes>, pos: int, at: nat, sha: Digest, crc: Checksum)
    requires AllWellFormed(recs) && AllRaw(recs, sha, crc)
    ensures SameBlobSemantics(TableOf(recs, pos), SelfTableOf(recs, at))
    ensures |TableOf(recs, pos)| == |recs|
    ensures forall k :: 0 <= k < |recs| ==>
              TableOf(recs, pos)[k].off - SelfTableOf(recs, at)[k].off ==
              pos - at + k * (HEADER_BYTES - SELF_HEADER_BYTES)
  {
    hide Unpack;
    if recs != [] {
      var r, rest := recs[0], recs[1..];
      var pos', at' := pos + |r|, at + SELF_HEADER_BYTES + |r| - HEADER_BYTES;
      OffsetsShift(rest, pos', at', sha, crc);
      var a, b := TableOf(rest, pos'), SelfTableOf(rest, at');
      assert TableOf(recs, pos) == [RowOf(r, pos)] + a;
      assert SelfTableOf(recs, at) == [BlobRow(at, |r| - HEADER_BYTES, |r| - HEADER_BYTES, CODEC_RAW, 0)] + b;
      forall k | 0 < k < |recs|
        ensures TableOf(recs, pos)[k].off - SelfTableOf(recs, at)[k].off ==
                pos - at + k * (HEADER_BYTES - SELF_HEADER_BYTES)
      {
        assert TableOf(recs, pos)[k] == a[k - 1] && SelfTableOf(recs, at)[k] == b[k - 1];
      }
    }
  }

  /** Re-framing a stream that the RAW scan accepts: it succeeds exactly when all payloads are shorter
      than 2^32; payload bytes are kept, all blob columns but the offset are kept, the k-th offset
      falls by 24k, and a reader of the new stream derives exactly the projected table. */
  lemma ReframeExact(data: Bytes, sha: Digest, crc: Checksum) returns (recs: seq<Bytes>)
    requires RawScanFrom(data, 0, sha, crc).Ok?
    ensures AllRaw(recs, sha, crc) && AllWellFormed(recs) && Flatten(recs) == data
    ensures var scanned := RawScanFrom(data, 0, sha, crc).value;
            var out := ProjectFrom(data, 0, sha);
            && (out.Ok? <==> forall row :: row in scanned.rows ==> row.csize < Pow256(4))
            && (out.Ok? ==>
                && out.value.payloadBytes == scanned.payloadBytes
                && SameBlobSemantics(scanned.rows, out.value.rows)
                && (forall k :: 0 <= k < |scanned.rows| ==> out.value.rows[k].off == scanned.rows[k].off - 24 * k)
                && out.value.end == |Flatten(ReframedAll(recs))|
                && SelfScanFrom(Flatten(ReframedAll(recs)), 0) == Ok(out.value.rows))
  {
    RawScanIsScan(data, 0, sha, crc);
    recs := ScanParses(data, 0);
    RawScanOfStream(recs, 0, sha, crc);
    ProjectOfStream(recs, 0, sha, crc);
    NarrowRows(recs, 0, sha, crc);
    OffsetsShift(recs, 0, 0, sha, crc);
    if Narrow(recs) {
      SelfScanOfStream(recs, 0, sha, crc);
    }
  }

  lemma {:induction false} NarrowRows(recs: seq<Bytes>, pos: int, sha: Digest, crc: Checksum)
    requires AllWellFormed(recs) && AllRaw(recs, sha, crc)
    ensures Narrow(recs) <==> forall row :: row in TableOf(recs, pos) ==> row.csize < Pow256(4)
  {
    hide Unpack;
    if recs != [] {
      var r, rest := recs[0], recs[1..];
      NarrowRows(rest, pos + |r|, sha, crc);
      var table, tail := TableOf(recs, pos), TableOf(rest, pos + |r|);
      assert table == [RowOf(r, pos)] + tail;
      assert forall row :: row in table <==> row == RowOf(r, pos) || row in tail;
      assert RowOf(r, pos).csize == |r| - HEADER_BYTES;
      assert Narrow(recs) <==> |r| - HEADER_BYTES < Pow256(4) && Narrow(rest);
    }
  }

  // ----- A record that is too wide

  /** The record that the builder writes for a payload that it stores as it is. */
  function RawRecordOf(payload: Bytes, sha: Digest, crc: Checksum): Bytes
    requires |payload| < Pow256(8) && |sha(payload)| == 32 && crc(payload) < Pow256(4)
  {
    var n := |payload|;
    assert 0 < Pow256(2) && 0 < Pow256(4);
    PackHeader(Header(RECORD_MAGIC, CODEC_RAW, 0, 0, n, n, 0, crc(payload), sha(payload))) + payload
  }

  /** An archive of one such record is accepted by the RAW scan, and re-framed exactly when its payload is
      shorter than 2^32 bytes. */
  lemma OneRecordExact(payload: Bytes, sha: Digest, crc: Checksum)
    requires |payload| < Pow256(8) && |sha(payload)| == 32 && crc(payload) < Pow256(4)
    ensures RawScanFrom(RawRecordOf(payload, sha, crc), 0, sha, crc).Ok?
    ensures ProjectFrom(RawRecordOf(payload, sha, crc), 0, sha).Ok? <==> |payload| < Pow256(4)
  {
    hide RawScanFrom, ProjectFrom, PackHeader, Unpack;
    var h := Header(RECORD_MAGIC, CODEC_RAW, 0, 0, |payload|, |payload|, 0, crc(payload), sha(payload));
    var record := RawRecordOf(payload, sha, crc);
    SmallFieldsFit(h);
    WrittenRecord(h, [], payload);
    assert PackHeader(h) + [] + payload == record;
    assert PayloadOf(record) == payload;
    var recs := [record];
    assert recs[1..] == [] && record + [] == record && Flatten(recs) == record;
    RawScanOfStream(recs, 0, sha, crc);
    ProjectOfStream(recs, 0, sha, crc);
  }

  lemma SmallFieldsFit(h: Header)
    requires h.magic == RECORD_MAGIC && h.codec == CODEC_RAW && h.flags == 0 && h.reserved == 0 && h.metaLen == 0
    requires h.usize == h.csize < Pow256(8) && h.crc < Pow256(4) && |h.digest| == 32
    ensures HeaderFits(h)
  {
  }

  /** Such a payload exists. */
  lemma WideRecordRefused(sha: Digest, crc: Checksum) returns (payload: Bytes)
    requires forall b :: |sha(b)| == 32 && crc(b) < Pow256(4)
    ensures |payload| == Pow256(4) < Pow256(8)
    ensures RawScanFrom(RawRecordOf(payload, sha, crc), 0, sha, crc).Ok?
    ensures ProjectFrom(RawRecordOf(payload, sha, crc), 0, sha).Raised?
  {
    hide RawScanFrom, ProjectFrom, RawRecordOf, Pow256;
    payload := seq(Pow256(4), _ => 0);
    WiderField();
    OneRecordExact(payload, sha, crc);
  }

  lemma WiderField()
    ensures Pow256(4) < Pow256(8)
  {
    assert Pow256(5) == 256 * Pow256(4) && Pow256(6) == 256 * Pow256(5);
    assert Pow256(7) == 256 * Pow256(6) && Pow256(8) == 256 * Pow256(7);
  }

  // ----- The loops

  /** The result `rest` once some rows and payload bytes have been collected already. */
  function Resumed(rows: seq<BlobRow>, payloadBytes: int, rest: Result<Scanned>): Result<Scanned> {
    match rest
    case Ok(s) => Ok(Scanned(rows + s.rows, payloadBytes + s.payloadBytes))
    case Raised(e) => Raised(e)
  }

  lemma ResumedStep(rows: seq<BlobRow>, payloadBytes: int, row: BlobRow, size: nat, rest: Result<Scanned>)
    ensures Resumed(rows, payloadBytes, Charged(row, size, rest)) == Resumed(rows + [row], payloadBytes + size, rest)
  {
    if rest.Ok? {
      assert rows + ([row] + rest.value.rows) == rows + [row] + rest.value.rows;
    }
  }

  lemma ResumedNothing(rest: Result<Scanned>)
    ensures Resumed([], 0, rest) == rest
  {
    if rest.Ok? {
      assert [] + rest.value.rows == rest.value.rows;
    }
  }

  lemma RawScanAt(data: Bytes, at: nat, sha: Digest, crc: Checksum)
    requires at + HEADER_BYTES <= |data|
    ensures var h := HeaderOf(data[at..]);
            var start := at + HEADER_BYTES;
            var end := start + h.csize;
            RawScanFrom(data[at..], at, sha, crc) ==
            if h.magic != RECORD_MAGIC then Raised(BadMagic)
            else if !RawHeader(h) then Raised(NotEligible)
            else if h.usize != h.csize then Raised(SizesDiffer)
            else if end > |data| then Raised(RecordEscapes)
            else if sha(data[start..end]) != h.digest then Raised(DigestMismatch)
            else if crc(data[start..end]) != h.crc then Raised(ChecksumMismatch)
            else Charged(BlobRow(at, h.usize, h.csize, h.codec, h.metaLen), h.csize,
                         RawScanFrom(data[end..], end, sha, crc))
  {
    hide Unpack;
    var h := HeaderOf(data[at..]);
    var end := at + HEADER_BYTES + h.csize;
    if end <= |data| {
      assert data[at + HEADER_BYTES..end] == data[at..][HEADER_BYTES..end - at];
      assert data[at..][end - at..] == data[end..];
    }
  }

  lemma RawScanEnds(data: Bytes, at: nat, sha: Digest, crc: Checksum)
    requires at <= |data| < at + HEADER_BYTES
    ensures RawScanFrom(data[at..], at, sha, crc) ==
            if at == |data| then Ok(Scanned([], 0)) else Raised(TruncatedRecord)
  {
  }

  /** `_scan_current_raw_records` */
  method ScanCurrentRawRecords(data: Bytes, sha: Digest, crc: Checksum) returns (r: Result<Scanned>)
    ensures r == RawScanFrom(data, 0, sha, crc)
  {
    hide Unpack, RawScanFrom;
    var blobs: seq<BlobRow> := [];
    var at, payloadBytes := 0, 0;
    ghost var whole := RawScanFrom(data, 0, sha, crc);
    assert data[0..] == data;
    ResumedNothing(whole);
    while at < |data|
      invariant 0 <= at <= |data|
      invariant whole == Resumed(blobs, payloadBytes, RawScanFrom(data[at..], at, sha, crc))
    {
      if at + HEADER_BYTES > |data| {
        RawScanEnds(data, at, sha, crc);
        return Raised(TruncatedRecord);
      }
      RawScanAt(data, at, sha, crc);
      var h := HeaderOf(data[at..]);
      if h.magic != RECORD_MAGIC {
        return Raised(BadMagic);
      }
      if h.codec != CODEC_RAW || h.flags != 0 || h.reserved != 0 || h.metaLen != 0 {
        return Raised(NotEligible);
      }
      if h.usize != h.csize {
        return Raised(SizesDiffer);
      }
      var start := at + HEADER_BYTES;
      var end := start + h.csize;
      if end > |data| {
        return Raised(RecordEscapes);
      }
      var payload := data[start..end];
      if sha(payload) != h.digest {
        return Raised(DigestMismatch);
      }
      if crc(payload) != h.crc {
        return Raised(ChecksumMismatch);
      }
      var row := BlobRow(at, h.usize, h.csize, h.codec, h.metaLen);
      ResumedStep(blobs, payloadBytes, row, h.csize, RawScanFrom(data[end..], end, sha, crc));
      blobs := blobs + [row];
      payloadBytes := payloadBytes + h.csize;
      at := end;
    }
    RawScanEnds(data, at, sha, crc);
    assert blobs + [] == blobs;
    r := Ok(Scanned(blobs, payloadBytes));
  }

  function Continued(rows: seq<BlobRow>, payloadBytes: int, rest: Result<Projection>): Result<Projection> {
    match rest
    case Ok(p) => Ok(Projection(p.end, rows + p.rows, payloadBytes + p.payloadBytes))
    case Raised(e) => Raised(e)
  }

  lemma ContinuedStep(rows: seq<BlobRow>, payloadBytes: int, row: BlobRow, size: nat, rest: Result<Projection>)
    ensures Continued(rows, payloadBytes, Extended(row, size, rest))
            == Continued(rows + [row], payloadBytes + size, rest)
  {
    if rest.Ok? {
      assert rows + ([row] + rest.value.rows) == rows + [row] + rest.value.rows;
    }
  }

  lemma ContinuedNothing(rest: Result<Projection>)
    ensures Continued([], 0, rest) == rest
  {
    if rest.Ok? {
      assert [] + rest.value.rows == rest.value.rows;
    }
  }

  /** One step of the projection, at a position in the data. */
  lemma ProjectAt(data: Bytes, at: nat, out: nat, sha: Digest)
    requires at + HEADER_BYTES <= |data|
    ensures var h := HeaderOf(data[at..]);
            var stop := Clip(at + HEADER_BYTES + h.csize, |data|);
            ProjectFrom(data[at..], out, sha) ==
            if h.magic != RECORD_MAGIC || !RawHeader(h) then Raised(NotEligible)
            else if h.usize != h.csize then Raised(SizesDiffer)
            else if sha(data[at + HEADER_BYTES..stop]) != h.digest then Raised(DigestMismatch)
            else if h.csize >= Pow256(4) then Raised(StructError)
            else Extended(BlobRow(out, h.usize, h.csize, CODEC_RAW, 0), h.csize,
                          ProjectFrom(data[stop..], out + SELF_HEADER_BYTES + h.csize, sha))
  {
    hide Unpack;
    var h := HeaderOf(data[at..]);
    var stop := Clip(at + HEADER_BYTES + h.csize, |data|);
    assert stop - at == Clip(HEADER_BYTES + h.csize, |data[at..]|);
    assert data[at + HEADER_BYTES..stop] == data[at..][HEADER_BYTES..stop - at];
    assert data[at..][stop - at..] == data[stop..];
  }

  lemma ProjectCut(data: Bytes, at: nat, out: nat, sha: Digest)
    requires at < |data| < at + HEADER_BYTES
    ensures ProjectFrom(data[at..], out, sha) == Raised(StructError)
  {
  }

  /** `_project_self_indexed_data` */
  method ProjectSelfIndexedData(data: Bytes, sha: Digest) returns (r: Result<Projection>)
    ensures r == ProjectFrom(data, 0, sha)
  {
    hide Unpack, ProjectFrom, HeaderOf;
    var projected: seq<BlobRow> := [];
    var sourceAt, projectedAt, payloadBytes := 0, 0, 0;
    ghost var whole := ProjectFrom(data, 0, sha);
    assert data[0..] == data;
    ContinuedNothing(whole);
    while sourceAt < |data|
      invariant 0 <= sourceAt && 0 <= projectedAt
      invariant whole == Continued(projected, payloadBytes,
                                   ProjectFrom(data[Clip(sourceAt, |data|)..], projectedAt, sha))
    {
      if sourceAt + HEADER_BYTES > |data| {
        ProjectCut(data, sourceAt, projectedAt, sha);
        return Raised(StructError);
      }
      ProjectAt(data, sourceAt, projectedAt, sha);
      var h := HeaderOf(data[sourceAt..]);
      if h.magic != RECORD_MAGIC || h.codec != CODEC_RAW || h.flags != 0 || h.reserved != 0 || h.metaLen != 0 {
        return Raised(NotEligible);
      }
      if h.usize != h.csize {
        return Raised(SizesDiffer);
      }
      var payloadStart := sourceAt + HEADER_BYTES;
      var payloadEnd := payloadStart + h.csize;
      var stop := Clip(payloadEnd, |data|);
      if sha(data[payloadStart..stop]) != h.digest {
        return Raised(DigestMismatch);
      }
      if h.csize >= Pow256(4) {
        return Raised(StructError);
      }
      var row := BlobRow(projectedAt, h.usize, h.csize, CODEC_RAW, 0);
      ContinuedStep(projected, payloadBytes, row, h.csize,
                    ProjectFrom(data[stop..], projectedAt + SELF_HEADER_BYTES + h.csize, sha));
      projected := projected + [row];
      projectedAt := projectedAt + SELF_HEADER_BYTES + h.csize;
      payloadBytes := payloadBytes + h.csize;
      sourceAt := payloadEnd;
    }
    ProjectNothing(projectedAt, sha);
    assert data[|data|..] == [] && projected + [] == projected;
    r := Ok(Projection(projectedAt, projected, payloadBytes));
  }
}
