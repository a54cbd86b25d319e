/** Physical records byte by byte. */
module RecordBytes {
  import opened ByteLayout
  import opened Numbers
  import opened RecordScan
  import opened Results
  import opened SelfIndexedRaw
  import opened ControlRows
  import opened Sorting

  // ----- Little-endian fields

  lemma ProductGrows(d: nat, a: int, b: int)
    ensures a <= b ==> d * a <= d * b
  {
  }

  lemma QuotientIs(v: nat, d: nat, q: nat, rest: nat)
    requires d > 0 && rest < d && v == d * q + rest
    ensures v / d == q
  {
    var u := v / d;
    ProductGrows(d, u + 1, q);
    ProductGrows(d, q + 1, u);
  }

  lemma Regroup(b: nat, q: nat)
    ensures 256 * b * q == 256 * (b * q)
  {
  }

  /** Dividing twice is dividing by the product. */
  lemma DivideTwice(v: nat, b: nat)
    requires b > 0
    ensures v / 256 / b == v / (256 * b)
  {
    var u := v / 256;
    var q := u / b;
    Regroup(b, q);
    QuotientIs(v, 256 * b, q, v - 256 * (b * q));
  }

  /** Byte `k` of a field is digit `k` of its value, to base 256. */
  lemma {:induction false} FieldAt(v: nat, n: nat, k: nat)
    requires k < n
    ensures FieldBytes(v, n)[k] as int == v / Pow256(k) % 256
  {
    if k > 0 {
      FieldAt(v / 256, n - 1, k - 1);
      DivideTwice(v, Pow256(k - 1));
    }
  }

  /** A value below 256 to the length has these bytes as its digits. */
  ghost predicate DigitsOf(b: Bytes, v: nat) {
    v < Pow256(|b|) && forall k :: 0 <= k < |b| ==> IsDigit(b[k], v, k)
  }

  predicate IsDigit(d: byte, v: nat, k: nat) {
    d as int == v / Pow256(k) % 256
  }

  lemma ValueDigits(b: Bytes)
    ensures DigitsOf(b, Value(b))
  {
    FieldOfValue(b);
    forall k | 0 <= k < |b| ensures IsDigit(b[k], Value(b), k) {
      FieldAt(Value(b), |b|, k);
    }
  }

  /** Where each column of a header lies. */
  lemma HeaderColumns(b: Bytes)
    requires |b| == 64
    ensures var h := Unpack(b);
            && h.magic == b[..4] && h.codec == b[4] as int && h.flags == b[5] as int && h.digest == b[32..]
            && DigitsOf(b[6..8], h.reserved) && DigitsOf(b[8..16], h.usize) && DigitsOf(b[16..24], h.csize)
            && DigitsOf(b[24..28], h.metaLen) && DigitsOf(b[28..32], h.crc)
  {
    ValueDigits(b[6..8]);
    ValueDigits(b[8..16]);
    ValueDigits(b[16..24]);
    ValueDigits(b[24..28]);
    ValueDigits(b[28..32]);
  }

  // ----- RAW records

  lemma {:induction false} ZeroField(n: nat)
    ensures FieldBytes(0, n) == seq(n, _ => 0)
  {
    if n > 0 {
      ZeroField(n - 1);
      assert FieldBytes(0, n) == [0] + FieldBytes(0, n - 1);
    }
  }

  /** The header of an intact RAW record with payload `p`. */
  function RawHeaderBytes(p: Bytes, sha: Digest, crc: Checksum): Bytes {
    [67, 77, 65, 52, 0, 0, 0, 0] + FieldBytes(|p|, 8) + FieldBytes(|p|, 8)
    + [0, 0, 0, 0] + FieldBytes(crc(p), 4) + sha(p)
  }

  lemma RawHeaderPacks(p: Bytes, sha: Digest, crc: Checksum)
    requires |p| < Pow256(8) && crc(p) < Pow256(4) && |sha(p)| == 32
    ensures var h := Header(RECORD_MAGIC, CODEC_RAW, 0, 0, |p|, |p|, 0, crc(p), sha(p));
            HeaderFits(h) && PackHeader(h) == RawHeaderBytes(p, sha, crc)
  {
    var h := Header(RECORD_MAGIC, CODEC_RAW, 0, 0, |p|, |p|, 0, crc(p), sha(p));
    SmallFieldsFit(h);
    ZeroField(2);
    ZeroField(4);
    assert FieldBytes(0, 2) == [0, 0] && FieldBytes(0, 4) == [0, 0, 0, 0];
  }

  /** An intact RAW record is this header and its payload, byte for byte, with every length and checksum in
      its field; nothing else is one. */
  lemma RawRecordExact(record: Bytes, sha: Digest, crc: Checksum)
    requires |record| >= 64
    ensures var p := record[64..];
            WellFormed(record) && RawRecord(record, sha, crc) <==>
            && |p| < Pow256(8) && crc(p) < Pow256(4) && |sha(p)| == 32
            && record == RawHeaderBytes(p, sha, crc) + p
  {
    hide Unpack, PackHeader, RawHeaderBytes;
    var p, head, h := record[64..], record[..64], HeaderOf(record);
    UnpackFits(head);
    assert record == head + p;
    if WellFormed(record) && RawRecord(record, sha, crc) {
      RawHeaderPacks(p, sha, crc);
    }
    if |p| < Pow256(8) && crc(p) < Pow256(4) && |sha(p)| == 32 && record == RawHeaderBytes(p, sha, crc) + p {
      RawHeaderPacks(p, sha, crc);
      UnpackOfPack(Header(RECORD_MAGIC, CODEC_RAW, 0, 0, |p|, |p|, 0, crc(p), sha(p)));
      assert head == RawHeaderBytes(p, sha, crc);
    }
  }

  /** What takes its place: magic, the length in 32 bits, the digest and the payload. */
  lemma ReframedExact(record: Bytes, sha: Digest, crc: Checksum)
    requires |record| >= 64 && WellFormed(record) && RawRecord(record, sha, crc)
    ensures var p := record[64..];
            && Reframed(record) == [67, 50, 82, 48] + FieldBytes(|p|, 4) + sha(p) + p
            && |Reframed(record)| == 40 + |p|
  {
    hide Unpack;
    assert PayloadOf(record) == record[64..];
  }

  /** Two tables agree in all columns but the offset: without it they are the same. */
  lemma SameBlobsExact(a: seq<BlobRow>, b: seq<BlobRow>)
    ensures SameBlobSemantics(a, b) <==> WithoutOffsets(a) == WithoutOffsets(b)
  {
    var x, y := WithoutOffsets(a), WithoutOffsets(b);
    if x == y {
      forall k | 0 <= k < |a|
        ensures a[k].usize == b[k].usize && a[k].csize == b[k].csize
                && a[k].codec == b[k].codec && a[k].metaLen == b[k].metaLen
      {
        assert x[k] == y[k];
      }
    }
  }

  function WithoutOffsets(rows: seq<BlobRow>): (r: seq<BlobRow>)
    ensures |r| == |rows|
  {
    seq(|rows|, k requires 0 <= k < |rows| => rows[k].(off := 0))
  }

  // ----- The projection of any bytes

  /** A record that the projection takes: no metadata, no flags, a length below 2^32 and no more bytes than
      that, the digest of the bytes that are there. Nothing is said of the checksum. */
  ghost predicate Taken(record: Bytes, sha: Digest) {
    && |record| >= 64
    && var h := HeaderOf(record);
       && record[..4] == [67, 77, 65, 52] && h.codec == 0 && h.flags == 0 && h.reserved == 0 && h.metaLen == 0
       && h.usize == h.csize < 0x1_0000_0000 && |record| <= 64 + h.csize && h.digest == sha(record[64..])
  }

  /** Only the last one may have fewer bytes than it claims. */
  ghost predicate AllTaken(recs: seq<Bytes>, sha: Digest) {
    recs == [] ||
    (Taken(recs[0], sha) && (|recs| > 1 ==> |recs[0]| == 64 + HeaderOf(recs[0]).csize) && AllTaken(recs[1..], sha))
  }

  /** Bytes that the records claim to hold. */
  ghost function Claimed(recs: seq<Bytes>): nat
    requires forall r :: r in recs ==> |r| >= 64
  {
    if recs == [] then 0
    else
      assert recs[0] in recs;
      HeaderOf(recs[0]).csize + Claimed(recs[1..])
  }

  lemma {:induction false} TakenLong(recs: seq<Bytes>, sha: Digest)
    requires AllTaken(recs, sha)
    ensures forall r :: r in recs ==> |r| >= 64
  {
    if recs != [] {
      TakenLong(recs[1..], sha);
      assert recs == [recs[0]] + recs[1..];
    }
  }

  /** What the projection makes of such records. */
  ghost predicate Projects(p: Projection, recs: seq<Bytes>, at: nat)
    requires forall r :: r in recs ==> |r| >= 64
  {
    && p.payloadBytes == Claimed(recs) && p.end == at + 40 * |recs| + Claimed(recs) && |p.rows| == |recs|
    && forall k :: 0 <= k < |recs| ==> ProjectsAt(p.rows[k], recs, k, at)
  }

  ghost predicate ProjectsAt(row: BlobRow, recs: seq<Bytes>, k: nat, at: nat)
    requires k < |recs| && forall r :: r in recs ==> |r| >= 64
  {
    var r := recs[k];
    assert r in recs;
    row == BlobRow(at + 40 * k + Claimed(recs[..k]), HeaderOf(r).csize, HeaderOf(r).csize, 0, 0)
  }

  lemma Pow256Four()
    ensures Pow256(4) == 0x1_0000_0000
  {
    assert Pow256(1) == 256 && Pow256(2) == 256 * 256 && Pow256(3) == 256 * 256 * 256;
  }

  lemma TakenStep(r: Bytes, tail: Bytes, at: nat, sha: Digest)
    requires Taken(r, sha) && (tail == [] || |r| == 64 + HeaderOf(r).csize)
    ensures var size := HeaderOf(r).csize;
            ProjectFrom(r + tail, at, sha)
            == Extended(BlobRow(at, size, size, 0, 0), size, ProjectFrom(tail, at + 40 + size, sha))
  {
    hide Unpack;
    Pow256Four();
    assert (r + tail)[..64] == r[..64];
    assert HeaderOf(r).magic == r[..4] by { HeaderColumns(r[..64]); }
    assert (r + tail)[|r|..] == tail && (r + tail)[64..|r|] == r[64..];
    assert Clip(64 + HeaderOf(r).csize, |r + tail|) == |r|;
  }

  lemma ProjectsCons(p: Projection, recs: seq<Bytes>, at: nat)
    requires recs != [] && forall r :: r in recs ==> |r| >= 64
    requires recs[0] in recs && forall r :: r in recs[1..] ==> |r| >= 64
    requires Projects(p, recs[1..], at + 40 + HeaderOf(recs[0]).csize)
    ensures var size := HeaderOf(recs[0]).csize;
            Projects(Projection(p.end, [BlobRow(at, size, size, 0, 0)] + p.rows, size + p.payloadBytes), recs, at)
  {
    hide Unpack;
    var rest, size := recs[1..], HeaderOf(recs[0]).csize;
    var rows := [BlobRow(at, size, size, 0, 0)] + p.rows;
    forall k | 0 <= k < |recs| ensures ProjectsAt(rows[k], recs, k, at) {
      if k > 0 {
        assert ProjectsAt(p.rows[k - 1], rest, k - 1, at + 40 + size);
        assert recs[..k][1..] == rest[..k - 1];
      }
    }
  }

  lemma {:induction false} ProjectOfTaken(recs: seq<Bytes>, at: nat, sha: Digest)
    requires AllTaken(recs, sha)
    ensures forall r :: r in recs ==> |r| >= 64
    ensures ProjectFrom(Flatten(recs), at, sha).Ok? && Projects(ProjectFrom(Flatten(recs), at, sha).value, recs, at)
    decreases |recs|
  {
    hide ProjectFrom, Unpack, Projects;
    TakenLong(recs, sha);
    if recs == [] {
      ProjectNothing(at, sha);
      NothingProjects(at);
    } else {
      var r, rest := recs[0], recs[1..];
      var size := HeaderOf(r).csize;
      ProjectOfTaken(rest, at + 40 + size, sha);
      assert |recs| == 1 ==> rest == [];
      TakenStep(r, Flatten(rest), at, sha);
      ProjectsCons(ProjectFrom(Flatten(rest), at + 40 + size, sha).value, recs, at);
    }
  }

  lemma NothingProjects(at: nat)
    ensures Projects(Projection(at, [], 0), [], at)
  {
  }

  lemma ProjectTakes(data: Bytes, at: nat, sha: Digest) returns (r: Bytes)
    requires data != [] && ProjectFrom(data, at, sha).Ok?
    ensures 0 < |r| <= |data| && r == data[..|r|] && Taken(r, sha)
    ensures |r| == |data| || |r| == 64 + HeaderOf(r).csize
    ensures ProjectFrom(data[|r|..], at + 40 + HeaderOf(r).csize, sha).Ok?
  {
    hide Unpack;
    Pow256Four();
    r := data[..Clip(64 + HeaderOf(data).csize, |data|)];
    assert r[..64] == data[..64] && r[64..] == data[64..|r|];
    HeaderColumns(r[..64]);
  }

  lemma {:induction false} ProjectParses(data: Bytes, at: nat, sha: Digest) returns (recs: seq<Bytes>)
    requires ProjectFrom(data, at, sha).Ok?
    ensures AllTaken(recs, sha) && Flatten(recs) == data
    decreases |data|
  {
    hide ProjectFrom, Unpack;
    recs := [];
    if data != [] {
      var r := ProjectTakes(data, at, sha);
      var rest := ProjectParses(data[|r|..], at + 40 + HeaderOf(r).csize, sha);
      assert data == r + data[|r|..];
      recs := [r] + rest;
      assert recs[1..] == rest;
      assert |r| == |data| ==> data[|r|..] == [] && |Flatten(rest)| == 0;
      NoneFlat(rest, sha);
    }
  }

  lemma NoneFlat(recs: seq<Bytes>, sha: Digest)
    requires AllTaken(recs, sha)
    ensures |Flatten(recs)| == 0 ==> recs == []
  {
    if recs != [] {
      assert |Flatten(recs)| >= |recs[0]|;
    }
  }

  /** On any bytes the projection succeeds exactly when they are records that it takes, and gives one row for
      each, every offset behind the shorter headers and the claimed payloads before it. */
  lemma ProjectExact(data: Bytes, sha: Digest)
    ensures ProjectFrom(data, 0, sha).Ok? <==> exists recs :: AllTaken(recs, sha) && Flatten(recs) == data
    ensures forall recs :: AllTaken(recs, sha) && Flatten(recs) == data ==>
              (forall r :: r in recs ==> |r| >= 64) && Projects(ProjectFrom(data, 0, sha).value, recs, 0)
  {
    hide ProjectFrom, Projects, AllTaken, Flatten;
    if ProjectFrom(data, 0, sha).Ok? {
      var recs := ProjectParses(data, 0, sha);
    }
    forall recs | AllTaken(recs, sha) && Flatten(recs) == data
      ensures (forall r :: r in recs ==> |r| >= 64)
      ensures ProjectFrom(data, 0, sha).Ok? && Projects(ProjectFrom(data, 0, sha).value, recs, 0)
    {
      ProjectOfTaken(recs, 0, sha);
    }
  }

  // ----- A reader of the shorter records

  ghost predicate IsShort(record: Bytes) {
    && |record| >= 40 && record[..4] == [67, 50, 82, 48]
    && |record| == 40 + Value(record[4..8])
  }

  ghost predicate AllShort(recs: seq<Bytes>) {
    recs == [] || (IsShort(recs[0]) && AllShort(recs[1..]))
  }

  ghost function ShortRows(recs: seq<Bytes>, at: int): seq<BlobRow> {
    if recs == [] then []
    else [BlobRow(at, |recs[0]| - 40, |recs[0]| - 40, 0, 0)] + ShortRows(recs[1..], at + |recs[0]|)
  }

  lemma {:induction false} SelfScanOfShort(recs: seq<Bytes>, at: int)
    requires AllShort(recs)
    ensures SelfScanFrom(Flatten(recs), at) == Ok(ShortRows(recs, at))
  {
    hide SelfScanFrom;
    if recs == [] {
      SelfScanEmpty(at);
    } else {
      SelfScanOfShort(recs[1..], at + |recs[0]|);
      ShortStep(recs[0], Flatten(recs[1..]), at);
    }
  }

  lemma SelfScanEmpty(at: int)
    ensures SelfScanFrom([], at) == Ok([])
  {
  }

  lemma ShortStep(r: Bytes, tail: Bytes, at: int)
    requires IsShort(r)
    ensures SelfScanFrom(r + tail, at)
         == Prefixed([BlobRow(at, |r| - 40, |r| - 40, 0, 0)], SelfScanFrom(tail, at + |r|))
  {
    hide Value;
    var all := r + tail;
    assert all[..4] == r[..4] && all[4..8] == r[4..8] && all[|r|..] == tail;
  }

  lemma {:induction false} SelfScanParses(data: Bytes, at: int) returns (recs: seq<Bytes>)
    requires SelfScanFrom(data, at).Ok?
    ensures AllShort(recs) && Flatten(recs) == data
    decreases |data|
  {
    hide Value;
    recs := [];
    if data != [] {
      var end := 40 + Value(data[4..8]);
      var r := data[..end];
      assert r[..4] == data[..4] && r[4..8] == data[4..8] && r + data[end..] == data;
      var rest := SelfScanParses(data[end..], at + end);
      recs := [r] + rest;
      assert recs[1..] == rest;
    }
  }

  /** It accepts exactly concatenations of records of the shorter form, and gives one row for each. */
  lemma SelfScanExact(data: Bytes, at: int)
    ensures SelfScanFrom(data, at).Ok? <==> exists recs :: AllShort(recs) && Flatten(recs) == data
    ensures forall recs :: AllShort(recs) && Flatten(recs) == data ==> SelfScanFrom(data, at) == Ok(ShortRows(recs, at))
  {
    hide SelfScanFrom;
    if SelfScanFrom(data, at).Ok? {
      var recs := SelfScanParses(data, at);
    }
    forall recs | AllShort(recs) && Flatten(recs) == data ensures SelfScanFrom(data, at) == Ok(ShortRows(recs, at)) {
      SelfScanOfShort(recs, at);
    }
  }
}
