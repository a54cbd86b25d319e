/** The table-directed walk that prices a self-describing varint header for every record. */
module SalvageHeaders {
  import opened Results
  import opened Sorting
  import opened ByteLayout
  import opened ControlRows
  import opened Numbers
  import opened RecordScan

  /** magic + codec + flags + CRC32 + SHA-256 */
  const SALVAGE_FIXED_BYTES := 4 + 1 + 1 + 4 + 32

  function Pow128(n: nat): (p: nat)
    ensures p > 0
  {
    if n == 0 then 1 else 128 * Pow128(n - 1)
  }

  lemma {:induction false} Pow128Grows(m: nat, n: nat)
    requires m <= n
    ensures Pow128(m) <= Pow128(n)
    decreases n
  {
    if m < n {
      Pow128Grows(m, n - 1);
    }
  }

  /** `n` seven-bit groups are what `v` needs. */
  ghost predicate Needs(v: nat, n: nat) {
    n >= 1 && v < Pow128(n) && (n == 1 || Pow128(n - 1) <= v)
  }

  function UvarintLength(v: nat): (n: nat)
    ensures Needs(v, n)
  {
    if v < 128 then
      assert Pow128(1) == 128 by { assert Pow128(0) == 1; }
      1
    else
      var n := UvarintLength(v / 128);
      assert Pow128(n + 1) == 128 * Pow128(n);
      1 + n
  }

  /** A length is determined by the bounds of its groups. */
  lemma UvarintLengthExact(v: nat, n: nat)
    ensures UvarintLength(v) == n <==> Needs(v, n)
  {
    var m := UvarintLength(v);
    if Needs(v, n) {
      if m < n {
        Pow128Grows(m, n - 1);
      } else if n < m {
        Pow128Grows(n, m - 1);
      }
    }
  }

  method UvarintBytes(value: int) returns (r: Result<nat>)
    ensures value < 0 ==> r == Raised(NegativeField)
    ensures value >= 0 ==> r == Ok(UvarintLength(value)) && Needs(value, r.value)
  {
    if value < 0 {
      return Raised(NegativeField);
    }
    var n, left := 1, value;
    while left >= 0x80
      invariant left >= 0 && n >= 1
      invariant UvarintLength(value) == UvarintLength(left) + n - 1
    {
      left := left / 128;
      n := n + 1;
    }
    r := Ok(n);
  }

  // ----- The walk

  datatype Ledger = Ledger(headerBytes: nat, widths: seq<nat>, nonzeroFlags: nat, nonzeroReserved: nat)

  function Width(row: BlobRow): nat
    requires row.usize >= 0 && row.csize >= 0 && row.metaLen >= 0
  {
    SALVAGE_FIXED_BYTES + UvarintLength(row.usize) + UvarintLength(row.csize) + UvarintLength(row.metaLen)
  }

  function OffsetKey(row: BlobRow): Key { (row.off, 0, 0) }

  predicate Agrees(row: BlobRow, h: Header) {
    h.usize == row.usize && h.csize == row.csize && h.codec == row.codec && h.metaLen == row.metaLen
  }

  /** One step of the loop: the record that the row claims must be at `expected` and agree with it. */
  function Inspect(row: BlobRow, data: Bytes, expected: nat): (r: Result<Header>)
    ensures r.Ok? ==> Agrees(row, r.value)
  {
    if row.off != expected then Raised(SpanDrift)
    else if row.off + HEADER_BYTES > |data| then Raised(TruncatedRecord)
    else
      var h := HeaderOf(data[row.off..]);
      if h.magic != RECORD_MAGIC then Raised(BadMagic)
      else if !Agrees(row, h) then Raised(FramingDisagrees)
      else Ok(h)
  }

  function Charge(row: BlobRow, h: Header): Ledger
    requires Agrees(row, h)
  {
    Ledger(Width(row), [Width(row)], if h.flags != 0 then 1 else 0, if h.reserved != 0 then 1 else 0)
  }

  function Add(a: Ledger, b: Ledger): Ledger {
    Ledger(a.headerBytes + b.headerBytes, a.widths + b.widths,
           a.nonzeroFlags + b.nonzeroFlags, a.nonzeroReserved + b.nonzeroReserved)
  }

  const EMPTY_LEDGER := Ledger(0, [], 0, 0)

  /** The loop over the offset-sorted table. */
  function WalkFrom(rows: seq<BlobRow>, data: Bytes, expected: nat): Result<Ledger> {
    if rows == [] then
      if expected != |data| then Raised(SpanDrift) else Ok(EMPTY_LEDGER)
    else
      var h :- Inspect(rows[0], data, expected);
      var rest :- WalkFrom(rows[1..], data, expected + HEADER_BYTES + h.metaLen + h.csize);
      Ok(Add(Charge(rows[0], h), rest))
  }

  /** `_salvage_header_accounting` as a function. */
  function Account(blobs: seq<BlobRow>, data: Bytes): Result<Ledger> {
    var ledger :- WalkFrom(Sort(blobs, OffsetKey), data, 0);
    if ledger.nonzeroReserved != 0 then Raised(ReservedInUse) else Ok(ledger)
  }

  /** The record that a row points at uses the reserved field. */
  predicate ReservedAt(data: Bytes, row: BlobRow) {
    && 0 <= row.off && row.off + HEADER_BYTES <= |data|
    && HeaderOf(data[row.off..]).reserved != 0
  }

  lemma InspectIsScanStep(row: BlobRow, data: Bytes, pos: nat)
    requires pos + HEADER_BYTES <= |data|
    ensures var h := HeaderOf(data[pos..]);
            && (Inspect(row, data, pos).Ok? <==>
                h.magic == RECORD_MAGIC && row == BlobRow(pos, h.usize, h.csize, h.codec, h.metaLen))
            && (Inspect(row, data, pos).Ok? ==> Inspect(row, data, pos).value == h)
  {
    hide Unpack;
  }

  lemma ScanStep(data: Bytes, pos: nat)
    requires pos + HEADER_BYTES <= |data|
    ensures var h := HeaderOf(data[pos..]);
            var next := pos + HEADER_BYTES + h.metaLen + h.csize;
            ScanFrom(data[pos..], pos) ==
            if h.magic != RECORD_MAGIC then Raised(BadMagic)
            else if next > |data| then Raised(RecordEscapes)
            else Prefixed([BlobRow(pos, h.usize, h.csize, h.codec, h.metaLen)], ScanFrom(data[next..], next))
  {
    hide Unpack;
    var h := HeaderOf(data[pos..]);
    var next := pos + HEADER_BYTES + h.metaLen + h.csize;
    if next <= |data| {
      assert data[pos..][next - pos..] == data[next..];
    }
  }

  lemma WalkStep(row: BlobRow, rest: seq<BlobRow>, data: Bytes, pos: nat)
    requires pos + HEADER_BYTES <= |data|
    ensures var h := HeaderOf(data[pos..]);
            WalkFrom([row] + rest, data, pos).Ok? <==>
            && h.magic == RECORD_MAGIC && row == BlobRow(pos, h.usize, h.csize, h.codec, h.metaLen)
            && WalkFrom(rest, data, pos + HEADER_BYTES + h.metaLen + h.csize).Ok?
  {
    hide Unpack;
    InspectIsScanStep(row, data, pos);
    assert ([row] + rest)[1..] == rest;
  }

  /** Walking a table succeeds exactly when scanning the bytes derives that very table. */
  lemma {:induction false} WalkIsScan(rows: seq<BlobRow>, data: Bytes, pos: nat)
    ensures WalkFrom(rows, data, pos).Ok? <==> pos <= |data| && ScanFrom(data[pos..], pos) == Ok(rows)
    decreases |rows|
  {
    hide Unpack;
    if pos + HEADER_BYTES <= |data| {
      ScanStep(data, pos);
      if rows != [] {
        var h := HeaderOf(data[pos..]);
        assert rows == [rows[0]] + rows[1..];
        WalkStep(rows[0], rows[1..], data, pos);
        WalkIsScan(rows[1..], data, pos + HEADER_BYTES + h.metaLen + h.csize);
      }
    }
  }

  lemma {:induction false} WalkCountsReserved(rows: seq<BlobRow>, data: Bytes, pos: nat)
    requires WalkFrom(rows, data, pos).Ok?
    ensures WalkFrom(rows, data, pos).value.nonzeroReserved == 0 <==>
            forall row :: row in rows ==> !ReservedAt(data, row)
    decreases |rows|
  {
    hide Unpack;
    if rows != [] {
      var h := Inspect(rows[0], data, pos).value;
      WalkCountsReserved(rows[1..], data, pos + HEADER_BYTES + h.metaLen + h.csize);
      assert ReservedAt(data, rows[0]) <==> h.reserved != 0;
      assert forall row :: row in rows <==> row == rows[0] || row in rows[1..];
    }
  }

  /** The three walkers agree: the table-directed accounting succeeds exactly when the stream-directed
      scan succeeds, derives the offset-sorted table, and no record uses the reserved field. */
  lemma WalkersAgree(blobs: seq<BlobRow>, data: Bytes)
    ensures Account(blobs, data).Ok? <==>
            && ScanFrom(data, 0) == Ok(Sort(blobs, OffsetKey))
            && forall row :: row in blobs ==> !ReservedAt(data, row)
  {
    hide Unpack;
    var rows := Sort(blobs, OffsetKey);
    WalkIsScan(rows, data, 0);
    assert data[0..] == data;
    if WalkFrom(rows, data, 0).Ok? {
      WalkCountsReserved(rows, data, 0);
      MembersMatch(rows, blobs);
    }
  }

  /** A scanned table is already sorted, so the accounting accepts it in any order of rows. */
  lemma AccountAnyOrder(blobs: seq<BlobRow>, data: Bytes)
    requires ScanFrom(data, 0).Ok? && forall row :: row in blobs ==> !ReservedAt(data, row)
    requires multiset(blobs) == multiset(ScanFrom(data, 0).value)
    ensures Account(blobs, data).Ok?
  {
    hide Unpack, ScanFrom, Account, Sort, HeaderOf;
    var rows := ScanFrom(data, 0).value;
    ScanContiguous(data, 0);
    forall i, j | 0 <= i < j < |rows| ensures rows[i].off < rows[j].off {
      OffsetsRise(rows, i, j);
    }
    SortAscends(blobs, OffsetKey);
    OrderedUnique(rows, Sort(blobs, OffsetKey), OffsetKey);
    WalkersAgree(blobs, data);
  }

  lemma {:induction false} OffsetsRise(rows: seq<BlobRow>, i: nat, j: nat)
    requires i < j < |rows|
    requires forall k :: 0 < k < |rows| ==> rows[k].off == rows[k - 1].off + Extent(rows[k - 1])
    requires forall k :: 0 <= k < |rows| ==> Extent(rows[k]) >= HEADER_BYTES
    ensures rows[i].off < rows[j].off
    decreases j - i
  {
    assert rows[j].off == rows[j - 1].off + Extent(rows[j - 1]);
    if i < j - 1 {
      OffsetsRise(rows, i, j - 1);
    }
  }

  // ----- The projection

  function Kept(rows: seq<BlobRow>): int {
    if rows == [] then 0 else rows[0].metaLen + rows[0].csize + Kept(rows[1..])
  }

  /** Each width is the price of its row. */
  ghost predicate Priced(rows: seq<BlobRow>, widths: seq<nat>) {
    && |widths| == |rows|
    && forall k :: 0 <= k < |rows| ==>
         rows[k].usize >= 0 && rows[k].csize >= 0 && rows[k].metaLen >= 0 && widths[k] == Width(rows[k])
  }

  /** How many rows point at a record with flags. */
  ghost function Flagged(rows: seq<BlobRow>, data: Bytes): nat {
    if rows == [] then 0
    else
      var off := rows[0].off;
      (if 0 <= off && off + HEADER_BYTES <= |data| && HeaderOf(data[off..]).flags != 0 then 1 else 0)
      + Flagged(rows[1..], data)
  }

  lemma {:induction false} WalkPrices(rows: seq<BlobRow>, data: Bytes, pos: nat)
    requires WalkFrom(rows, data, pos).Ok?
    ensures var ledger := WalkFrom(rows, data, pos).value;
            Priced(rows, ledger.widths) && ledger.nonzeroFlags == Flagged(rows, data)
    decreases |rows|
  {
    hide Unpack, UvarintLength;
    if rows != [] {
      var row := rows[0];
      var next := pos + HEADER_BYTES + row.metaLen + row.csize;
      WalkPrices(rows[1..], data, next);
      var ledger, rest := WalkFrom(rows, data, pos).value, WalkFrom(rows[1..], data, next).value;
      assert ledger.widths == [Width(row)] + rest.widths;
    }
  }

  lemma {:induction false} WalkConserves(rows: seq<BlobRow>, data: Bytes, pos: nat)
    requires WalkFrom(rows, data, pos).Ok?
    ensures var ledger := WalkFrom(rows, data, pos).value;
            && |ledger.widths| == |rows|
            && ledger.headerBytes == Total(ledger.widths)
            && |data| - pos == HEADER_BYTES * |rows| + Kept(rows)
    decreases |rows|
  {
    hide Unpack;
    if rows != [] {
      var row := rows[0];
      var next := pos + HEADER_BYTES + row.metaLen + row.csize;
      WalkConserves(rows[1..], data, next);
      var ledger := WalkFrom(rows, data, pos).value;
      assert ledger.widths[1..] == WalkFrom(rows[1..], data, next).value.widths;
    }
  }

  datatype Projected = Projected(dataBytes: int, wrappedBytes: int, saved: int)

  /** `_projection` without the competitor columns. */
  function Project(wrapped: int, physical: int, header: int, replacement: int, framing: int, control: int)
    : Result<Projected>
  {
    var saving := header - replacement;
    var projected := physical - saving;
    if wrapped - saving != framing + projected + control then Raised(DoesNotReconcile)
    else Ok(Projected(projected, framing + projected + control, saving))
  }

  /** With the salvage headers, the projected data is metadata, payload and the new headers, nothing
      else; and the projection reconciles exactly when the measured archive is framing, data and
      control. */
  lemma ProjectionConserves(blobs: seq<BlobRow>, data: Bytes, wrapped: int, framing: int, control: int)
    requires Account(blobs, data).Ok?
    ensures var ledger := Account(blobs, data).value;
            var out := Project(wrapped, |data|, HEADER_BYTES * |blobs|, ledger.headerBytes, framing, control);
            && (out.Ok? <==> wrapped == framing + |data| + control)
            && (out.Ok? ==> out.value.dataBytes == Kept(Sort(blobs, OffsetKey)) + Total(ledger.widths))
            && (out.Ok? ==> out.value.saved == 64 * |blobs| - Total(ledger.widths))
            && (out.Ok? ==> out.value.wrappedBytes == wrapped - out.value.saved)
  {
    hide WalkFrom, Sort, Kept, Total;
    var rows := Sort(blobs, OffsetKey);
    assert |rows| == |blobs| && WalkFrom(rows, data, 0).Ok?;
    WalkConserves(rows, data, 0);
  }

  /** The price of a record: 42 bytes of magic, codec, flags, checksum and digest, and as many as its three
      lengths need. */
  lemma WidthExact(row: BlobRow, u: nat, c: nat, m: nat)
    requires row.usize >= 0 && row.csize >= 0 && row.metaLen >= 0
    requires Needs(row.usize, u) && Needs(row.csize, c) && Needs(row.metaLen, m)
    ensures Width(row) == 42 + u + c + m
  {
    UvarintLengthExact(row.usize, u);
    UvarintLengthExact(row.csize, c);
    UvarintLengthExact(row.metaLen, m);
  }

  /** Below 2^56 bytes a record's salvage header is shorter than the 64 bytes it replaces. */
  lemma SalvageIsShorter(row: BlobRow)
    requires 0 <= row.usize < Pow128(8) && 0 <= row.csize < Pow128(8) && 0 <= row.metaLen < Pow256(4)
    ensures Width(row) < HEADER_BYTES
  {
    LengthAtMost(row.usize, 8);
    LengthAtMost(row.csize, 8);
    assert Pow256(4) == 256 * 256 * 256 * 256 by {
      assert Pow256(1) == 256 && Pow256(2) == 256 * 256 && Pow256(3) == 256 * 256 * 256;
    }
    assert Pow128(5) == 128 * 128 * 128 * 128 * 128 by {
      assert Pow128(1) == 128 && Pow128(2) == 128 * 128 && Pow128(3) == 128 * 128 * 128;
      assert Pow128(4) == 128 * 128 * 128 * 128;
    }
    LengthAtMost(row.metaLen, 5);
  }

  lemma LengthAtMost(v: nat, n: nat)
    requires n >= 1 && v < Pow128(n)
    ensures UvarintLength(v) <= n
  {
    if UvarintLength(v) > n {
      Pow128Grows(n, UvarintLength(v) - 1);
    }
  }

  // ----- The procedure

  lemma WalkCons(ledger: Ledger, rows: seq<BlobRow>, k: nat, data: Bytes, expected: nat)
    requires k < |rows|
    ensures var h := Inspect(rows[k], data, expected);
            Joined(ledger, WalkFrom(rows[k..], data, expected)) ==
            if h.Raised? then Raised(h.fault)
            else Joined(Add(ledger, Charge(rows[k], h.value)),
                        WalkFrom(rows[k + 1..], data, expected + HEADER_BYTES + h.value.metaLen + h.value.csize))
  {
    hide Unpack;
    var h := Inspect(rows[k], data, expected);
    assert rows[k..][0] == rows[k] && rows[k..][1..] == rows[k + 1..];
    if h.Ok? {
      AddStep(ledger, Charge(rows[k], h.value),
              WalkFrom(rows[k + 1..], data, expected + HEADER_BYTES + h.value.metaLen + h.value.csize));
    }
  }

  method WalkTable(rows: seq<BlobRow>, data: Bytes) returns (r: Result<Ledger>)
    ensures r == WalkFrom(rows, data, 0)
  {
    var ledger, expected: nat := EMPTY_LEDGER, 0;
    ghost var whole := WalkFrom(rows, data, 0);
    assert rows[0..] == rows;
    AddEmpty(whole);
    for k := 0 to |rows|
      invariant whole == Joined(ledger, WalkFrom(rows[k..], data, expected))
    {
      WalkCons(ledger, rows, k, data, expected);
      var h := Inspect(rows[k], data, expected);
      if h.Raised? {
        return Raised(h.fault);
      }
      ledger := Add(ledger, Charge(rows[k], h.value));
      expected := expected + HEADER_BYTES + h.value.metaLen + h.value.csize;
    }
    AddEmpty(Ok(ledger));
    if expected != |data| {
      return Raised(SpanDrift);
    }
    r := Ok(ledger);
  }

  /** The columns that the accounting reports about the widths; the average is exact. */
  datatype Spread = Spread(minimum: nat, maximum: nat, average: real, records: nat)

  function Widest(widths: seq<nat>): nat {
    if widths == [] then 0
    else
      var rest := Widest(widths[1..]);
      if widths[0] > rest then widths[0] else rest
  }

  function SpreadOf(ledger: Ledger): Spread {
    var n := |ledger.widths|;
    Spread(Least(ledger.widths), Widest(ledger.widths),
           if n == 0 then 0.0 else ledger.headerBytes as real / n as real, n)
  }

  lemma {:induction false} WidestExact(widths: seq<nat>)
    ensures widths != [] ==> Widest(widths) in widths
    ensures forall w :: w in widths ==> w <= Widest(widths)
  {
    if widths != [] {
      assert widths == [widths[0]] + widths[1..];
      WidestExact(widths[1..]);
    }
  }

  lemma CancelFactor(a: real, b: real, n: real)
    requires n > 0.0 && a * n <= b * n
    ensures a <= b
  {
    assert (b - a) * n >= 0.0;
  }

  lemma MeanInside(total: nat, n: nat, lo: nat, hi: nat)
    requires n > 0 && n * lo <= total <= n * hi
    ensures var mean := total as real / n as real;
            lo as real <= mean <= hi as real && mean * n as real == total as real
  {
    var mean := total as real / n as real;
    QuotientTimes(total as real, n as real);
    ProductAsReal(n, lo);
    ProductAsReal(n, hi);
    CancelFactor(lo as real, mean, n as real);
    CancelFactor(mean, hi as real, n as real);
  }

  lemma QuotientTimes(a: real, n: real)
    requires n > 0.0
    ensures a / n * n == a
  {
  }

  lemma ProductAsReal(n: nat, x: nat)
    ensures (n * x) as real == x as real * n as real
  {
  }

  lemma OneMore(n: nat, x: nat)
    ensures (n + 1) * x == n * x + x
  {
  }

  lemma {:induction false} TotalInside(widths: seq<int>, lo: nat, hi: nat)
    requires forall w :: w in widths ==> lo <= w <= hi
    ensures |widths| * lo <= Total(widths) <= |widths| * hi
  {
    if widths != [] {
      var rest := widths[1..];
      assert widths == [widths[0]] + rest;
      assert widths[0] in widths && forall w :: w in rest ==> w in widths;
      TotalInside(rest, lo, hi);
      OneMore(|rest|, lo);
      OneMore(|rest|, hi);
    }
  }

  lemma SpreadInside(ledger: Ledger)
    requires ledger.widths != [] && ledger.headerBytes == Total(ledger.widths)
    ensures var s := SpreadOf(ledger);
            && s.minimum in ledger.widths && s.maximum in ledger.widths
            && (forall w :: w in ledger.widths ==> s.minimum <= w <= s.maximum)
            && s.minimum as real <= s.average <= s.maximum as real
            && s.average * s.records as real == ledger.headerBytes as real
  {
    hide Total, Least, Widest;
    LeastExact(ledger.widths);
    WidestExact(ledger.widths);
    var lo, hi := Least(ledger.widths), Widest(ledger.widths);
    TotalInside(ledger.widths, lo, hi);
    MeanInside(ledger.headerBytes, |ledger.widths|, lo, hi);
  }

  /** What the accounting reports is consistent: one width per blob row, the extremes are widths of
      records, and the average lies between them and times the count is the total. */
  lemma SpreadExact(blobs: seq<BlobRow>, data: Bytes)
    requires Account(blobs, data).Ok? && blobs != []
    ensures var ledger := Account(blobs, data).value;
            var s := SpreadOf(ledger);
            && s.records == |blobs|
            && s.minimum in ledger.widths && s.maximum in ledger.widths
            && (forall w :: w in ledger.widths ==> s.minimum <= w <= s.maximum)
            && s.minimum as real <= s.average <= s.maximum as real
            && s.average * s.records as real == ledger.headerBytes as real
  {
    hide WalkFrom, Total, Sort, Least, Widest;
    var ledger := Account(blobs, data).value;
    WalkConserves(Sort(blobs, OffsetKey), data, 0);
    SpreadInside(ledger);
  }

  method SalvageAccounting(blobs: seq<BlobRow>, data: Bytes) returns (r: Result<Ledger>, spread: Spread)
    ensures r == Account(blobs, data)
    ensures r.Ok? ==> spread == SpreadOf(r.value)
  {
    spread := SpreadOf(EMPTY_LEDGER);
    r := WalkTable(Sort(blobs, OffsetKey), data);
    if r.Ok? {
      if r.value.nonzeroReserved != 0 {
        r := Raised(ReservedInUse);
      } else {
        spread := SpreadOf(r.value);
      }
    }
  }

  function Joined(ledger: Ledger, rest: Result<Ledger>): Result<Ledger> {
    match rest
    case Ok(more) => Ok(Add(ledger, more))
    case Raised(e) => Raised(e)
  }

  lemma AddEmpty(rest: Result<Ledger>)
    ensures Joined(EMPTY_LEDGER, rest) == rest
    ensures rest.Ok? ==> Joined(rest.value, Ok(EMPTY_LEDGER)) == rest
  {
    if rest.Ok? {
      assert [] + rest.value.widths == rest.value.widths;
      assert rest.value.widths + [] == rest.value.widths;
    }
  }

  lemma AddStep(ledger: Ledger, charge: Ledger, rest: Result<Ledger>)
    ensures Joined(Add(ledger, charge), rest) == Joined(ledger, Joined(charge, rest))
  {
    if rest.Ok? {
      assert ledger.widths + charge.widths + rest.value.widths == ledger.widths + (charge.widths + rest.value.widths);
    }
  }
}
