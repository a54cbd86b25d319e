/** The compact index: front-coded paths, times and modes as differences, sizes only where the storage does
    not tell them, hard links by row number. */
module IndexCodec {
  import opened Results
  import opened ControlRows
  import opened Kinds
  import opened Numbers
  import opened IndexTable

  /** A path: how much of the previous one it repeats, and what follows. */
  datatype PathRow = PathRow(prefix: int, suffix: string)

  /** A compact row: of a directory, of a hard link, or of anything else. */
  datatype Encoded =
    | Stub(kind: int, mode: Option<int>, delta: int)
    | Alias(kind: int, mode: Option<int>, delta: int, owner: int)
    | Full(kind: int, mode: Option<int>, delta: int, storage: Storage, size: Option<int>, digest: Option<int>)

  datatype CompactIndex = CompactIndex(
    p: seq<PathRow>, mode: int, mtime: int, f: seq<Encoded>, b: seq<BlobRow>, r: seq<RecipeRow>, z: Option<int>,
    m: seq<int>)

  // ----- Defaults

  function Count(values: seq<int>, v: int): nat {
    multiset(values)[v]
  }

  /** `(-count(a), a) <= (-count(b), b)` */
  predicate AtLeastAsCommon(values: seq<int>, a: int, b: int) {
    Count(values, a) > Count(values, b) || (Count(values, a) == Count(values, b) && a <= b)
  }

  function MostCommon(among: seq<int>, values: seq<int>): int
    requires among != []
  {
    var last := among[|among| - 1];
    if |among| == 1 then last
    else
      var rest := MostCommon(among[..|among| - 1], values);
      if AtLeastAsCommon(values, rest, last) then rest else last
  }

  /** `_mode` */
  function ModeOf(values: seq<int>): int {
    if values == [] then 0 else MostCommon(values, values)
  }

  lemma {:induction false} MostCommonExact(among: seq<int>, values: seq<int>)
    requires among != []
    ensures MostCommon(among, values) in among
    ensures forall v :: v in among ==> AtLeastAsCommon(values, MostCommon(among, values), v)
  {
    hide Count;
    var init, last := among[..|among| - 1], among[|among| - 1];
    assert among == init + [last];
    if |among| > 1 {
      MostCommonExact(init, values);
      var rest := MostCommon(init, values);
      forall v | v in among ensures AtLeastAsCommon(values, MostCommon(among, values), v) {
        assert v == last || AtLeastAsCommon(values, rest, v);
      }
    }
  }

  function Overrides(values: seq<int>, default: int): nat {
    |values| - Count(values, default)
  }

  /** No other default leaves fewer values to be written out. */
  lemma ModeFewestOverrides(values: seq<int>, other: int)
    ensures Overrides(values, ModeOf(values)) <= Overrides(values, other)
    ensures Overrides(values, ModeOf(values)) == Overrides(values, other) && values != [] ==> ModeOf(values) <= other
  {
    if values != [] {
      MostCommonExact(values, values);
      if other in values {
        assert AtLeastAsCommon(values, ModeOf(values), other);
      } else {
        assert Count(values, other) == 0;
        assert ModeOf(values) in multiset(values);
      }
    }
  }

  // ----- Paths

  /** `_common_prefix` */
  function CommonPrefix(a: string, b: string): (n: nat)
    ensures n <= |a| && n <= |b| && a[..n] == b[..n]
    ensures n < |a| && n < |b| ==> a[n] != b[n]
  {
    if a == "" || b == "" || a[0] != b[0] then 0
    else
      var n := CommonPrefix(a[1..], b[1..]);
      assert a[..n + 1] == [a[0]] + a[1..][..n] && b[..n + 1] == [b[0]] + b[1..][..n];
      n + 1
  }

  function PathOf(previous: string, rel: string): PathRow {
    var n := CommonPrefix(previous, rel);
    PathRow(n, rel[n..])
  }

  /** `previous` before row `i`. */
  function Previous(files: seq<IndexRow>, i: nat): string
    requires i <= |files|
  {
    if i == 0 then "" else files[i - 1].rel
  }

  /** The last of the first `n` rows with this path; -1 if there is none. */
  function LastAt(files: seq<IndexRow>, n: nat, path: string): (i: int)
    requires n <= |files|
    ensures -1 <= i < n
    ensures i >= 0 ==> files[i].rel == path
    ensures forall k :: i < k < n ==> files[k].rel != path
  {
    if n == 0 then -1 else if files[n - 1].rel == path then n - 1 else LastAt(files, n - 1, path)
  }

  // ----- The encoder as a function

  function ModesOf(files: seq<IndexRow>): seq<int> {
    seq(|files|, i requires 0 <= i < |files| => files[i].mode)
  }

  function MtimesOf(files: seq<IndexRow>): seq<int> {
    seq(|files|, i requires 0 <= i < |files| => files[i].mtime)
  }

  function EncodeRow(ix: Index, i: nat, mode: int, mtime: int): Result<Encoded>
    requires i < |ix.files|
  {
    var row := ix.files[i];
    var override := if row.mode == mode then None else Some(row.mode);
    var delta := row.mtime - mtime;
    if row.kind == K_DIR then Ok(Stub(row.kind, override, delta))
    else if row.kind == K_HARDLINK then
      if !row.storage.Owner? then Raised(ShapeError)
      else
        var owner := LastAt(ix.files, i + 1, row.storage.path);
        if owner < 0 then Raised(OwnerUnknown) else Ok(Alias(row.kind, override, delta, owner))
    else
      var derived :- DerivedSize(row.storage, ix.blobs, ix.recipes);
      Ok(Full(row.kind, override, delta, row.storage, if derived == Some(row.size) then None else Some(row.size),
              if KeepsDigest(row.storage) then row.digest else None))
  }

  function EncodeTo(ix: Index, n: nat, mode: int, mtime: int): (r: Result<seq<Encoded>>)
    requires n <= |ix.files|
    ensures r.Ok? ==> |r.value| == n
  {
    if n == 0 then Ok([])
    else
      var init :- EncodeTo(ix, n - 1, mode, mtime);
      var last :- EncodeRow(ix, n - 1, mode, mtime);
      Ok(init + [last])
  }

  function PathsOf(files: seq<IndexRow>): (r: seq<PathRow>)
    ensures |r| == |files|
  {
    seq(|files|, i requires 0 <= i < |files| => PathOf(Previous(files, i), files[i].rel))
  }

  /** `_compact_index` as a function. */
  function Compact(ix: Index): Result<CompactIndex> {
    var mode, mtime := ModeOf(ModesOf(ix.files)), ModeOf(MtimesOf(ix.files));
    var f :- EncodeTo(ix, |ix.files|, mode, mtime);
    Ok(CompactIndex(PathsOf(ix.files), mode, mtime, f, ix.blobs, ix.recipes, ix.dictBlob, ix.fsmeta))
  }

  // ----- The decoder as a function

  /** Kind-dependent columns: size, digest and storage. */
  function DecodeBody(c: CompactIndex, prior: seq<IndexRow>, e: Encoded): Result<(int, Option<int>, Storage)> {
    if e.kind == K_DIR then Ok((0, None, Absent))
    else if e.kind == K_HARDLINK then
      if !e.Alias? then Raised(ShapeError)
      else if e.owner < 0 || e.owner >= |prior| then Raised(BadOwner)
      else
        var owner := prior[e.owner].rel;
        Ok((prior[LastAt(prior, |prior|, owner)].size, None, Owner(owner, [])))
    else if !e.Full? then Raised(ShapeError)
    else
      var derived :- DerivedSize(e.storage, c.b, c.r);
      var size := if e.size.Some? then e.size else derived;
      if size.None? then Raised(SizeUnknown)
      else Ok((size.value, if KeepsDigest(e.storage) then e.digest else None, e.storage))
  }

  function DecodeRow(c: CompactIndex, prior: seq<IndexRow>, path: PathRow, e: Encoded): Result<IndexRow> {
    var previous := Previous(prior, |prior|);
    if path.prefix < 0 || path.prefix > |previous| then Raised(BadPathPrefix)
    else
      var body :- DecodeBody(c, prior, e);
      Ok(IndexRow(previous[..path.prefix] + path.suffix, e.kind, if e.mode.None? then c.mode else e.mode.value,
                  c.mtime + e.delta, body.0, body.1, body.2))
  }

  function DecodeTo(c: CompactIndex, n: nat): (r: Result<seq<IndexRow>>)
    requires n <= |c.p| && n <= |c.f|
    ensures r.Ok? ==> |r.value| == n
  {
    if n == 0 then Ok([])
    else
      var prior :- DecodeTo(c, n - 1);
      var last :- DecodeRow(c, prior, c.p[n - 1], c.f[n - 1]);
      Ok(prior + [last])
  }

  /** `_expand_index` as a function; columns of different lengths raise when the shorter one ends. */
  function Expand(c: CompactIndex, version: int, features: seq<string>): Result<Index> {
    var files :- DecodeTo(c, Smaller(|c.p|, |c.f|));
    if |c.p| != |c.f| then Raised(ShapeError)
    else Ok(Index(files, c.b, c.r, c.z, c.m, version, features))
  }

  // ----- Which indices can be compacted

  /** A hard link names a path at or before its row; any other storage tells its size without a fault. */
  ghost predicate RowCompacts(ix: Index, i: nat)
    requires i < |ix.files|
  {
    var row := ix.files[i];
    if row.kind == K_DIR then true
    else if row.kind == K_HARDLINK then
      row.storage.Owner? && exists k :: 0 <= k <= i && ix.files[k].rel == row.storage.path
    else DerivedSize(row.storage, ix.blobs, ix.recipes).Ok?
  }

  lemma EncodeRowExact(ix: Index, i: nat, mode: int, mtime: int)
    requires i < |ix.files|
    ensures EncodeRow(ix, i, mode, mtime).Ok? <==> RowCompacts(ix, i)
  {
  }

  lemma {:induction false} EncodeToExact(ix: Index, n: nat, mode: int, mtime: int)
    requires n <= |ix.files|
    ensures EncodeTo(ix, n, mode, mtime).Ok? <==> forall i :: 0 <= i < n ==> RowCompacts(ix, i)
    ensures EncodeTo(ix, n, mode, mtime).Ok? ==>
              forall i :: 0 <= i < n ==> EncodeRow(ix, i, mode, mtime) == Ok(EncodeTo(ix, n, mode, mtime).value[i])
  {
    hide RowCompacts, EncodeRow;
    if n > 0 {
      EncodeToExact(ix, n - 1, mode, mtime);
      EncodeRowExact(ix, n - 1, mode, mtime);
    }
  }

  lemma CompactExact(ix: Index)
    ensures Compact(ix).Ok? <==> forall i :: 0 <= i < |ix.files| ==> RowCompacts(ix, i)
  {
    hide RowCompacts, EncodeTo;
    EncodeToExact(ix, |ix.files|, ModeOf(ModesOf(ix.files)), ModeOf(MtimesOf(ix.files)));
  }

  // ----- Decode after encode

  /** A hard link that names its own path, which the encoder lets pass. */
  predicate NamesItself(row: IndexRow) {
    row.kind == K_HARDLINK && row.storage.Owner? && row.storage.path == row.rel
  }

  /** What the compact form keeps of a row is all of it. */
  ghost predicate RowFaithful(ix: Index, i: nat)
    requires i < |ix.files|
  {
    var row := ix.files[i];
    if row.kind == K_DIR then row.size == 0 && row.digest.None? && row.storage == Absent
    else if row.kind == K_HARDLINK then
      && row.digest.None? && row.storage.Owner? && row.storage.more == []
      && var k := LastAt(ix.files, i, row.storage.path);
         k >= 0 && row.storage.path != row.rel && row.size == ix.files[k].size
    else KeepsDigest(row.storage) || row.digest.None?
  }

  ghost predicate Faithful(ix: Index) {
    forall i :: 0 <= i < |ix.files| ==> RowFaithful(ix, i)
  }

  /** The rows decoded so far have the paths of the originals. */
  ghost predicate SamePaths(a: seq<IndexRow>, b: seq<IndexRow>) {
    |a| <= |b| && forall i :: 0 <= i < |a| ==> a[i].rel == b[i].rel
  }

  lemma {:induction false} SameLast(a: seq<IndexRow>, b: seq<IndexRow>, n: nat, path: string)
    requires SamePaths(a, b) && n <= |a|
    ensures LastAt(a, n, path) == LastAt(b, n, path)
  {
    if n > 0 {
      SameLast(a, b, n - 1, path);
    }
  }

  lemma DecodesLink(ix: Index, c: CompactIndex, prior: seq<IndexRow>, i: nat, e: Encoded)
    requires i < |ix.files| && ix.files[i].kind == K_HARDLINK && |prior| == i && SamePaths(prior, ix.files)
    requires EncodeRow(ix, i, c.mode, c.mtime) == Ok(e)
    ensures var row, out := ix.files[i], DecodeBody(c, prior, e);
            && (out.Ok? <==> !NamesItself(row))
            && (prior == ix.files[..i] ==> (out == Ok((row.size, row.digest, row.storage)) <==> RowFaithful(ix, i)))
  {
    hide DerivedSize;
    var row := ix.files[i];
    var path := row.storage.path;
    var k := LastAt(ix.files, i + 1, path);
    SameLast(prior, ix.files, i, path);
    if path != row.rel {
      assert k == LastAt(ix.files, i, path) && prior[k].rel == path;
    }
  }

  lemma DecodesFull(ix: Index, c: CompactIndex, prior: seq<IndexRow>, i: nat, e: Encoded)
    requires i < |ix.files| && ix.files[i].kind != K_HARDLINK && ix.files[i].kind != K_DIR
    requires EncodeRow(ix, i, c.mode, c.mtime) == Ok(e) && c.b == ix.blobs && c.r == ix.recipes
    ensures var row, out := ix.files[i], DecodeBody(c, prior, e);
            out.Ok? && (out == Ok((row.size, row.digest, row.storage)) <==> RowFaithful(ix, i))
  {
    hide DerivedSize;
  }

  lemma DecodesBody(ix: Index, c: CompactIndex, prior: seq<IndexRow>, i: nat, e: Encoded)
    requires i < |ix.files| && |prior| == i && SamePaths(prior, ix.files)
    requires EncodeRow(ix, i, c.mode, c.mtime) == Ok(e) && c.b == ix.blobs && c.r == ix.recipes
    ensures var row, out := ix.files[i], DecodeBody(c, prior, e);
            && (out.Ok? <==> !NamesItself(row))
            && (prior == ix.files[..i] ==> (out == Ok((row.size, row.digest, row.storage)) <==> RowFaithful(ix, i)))
  {
    hide DerivedSize, LastAt;
    var row := ix.files[i];
    if row.kind == K_HARDLINK {
      DecodesLink(ix, c, prior, i, e);
    } else if row.kind != K_DIR {
      DecodesFull(ix, c, prior, i, e);
    }
  }

  lemma EncodedHead(ix: Index, i: nat, mode: int, mtime: int)
    requires i < |ix.files| && EncodeRow(ix, i, mode, mtime).Ok?
    ensures var row, e := ix.files[i], EncodeRow(ix, i, mode, mtime).value;
            && e.kind == row.kind && mtime + e.delta == row.mtime
            && (if e.mode.None? then mode else e.mode.value) == row.mode
  {
    hide DerivedSize, LastAt;
  }

  lemma SamePrevious(prior: seq<IndexRow>, files: seq<IndexRow>)
    requires SamePaths(prior, files)
    ensures Previous(prior, |prior|) == Previous(files, |prior|)
  {
  }

  lemma CompactColumns(ix: Index, i: nat)
    requires Compact(ix).Ok? && i < |ix.files|
    ensures var c := Compact(ix).value;
            && |c.p| == |c.f| == |ix.files| && c.b == ix.blobs && c.r == ix.recipes
            && c.p[i] == PathOf(Previous(ix.files, i), ix.files[i].rel)
            && EncodeRow(ix, i, c.mode, c.mtime) == Ok(c.f[i])
  {
    hide EncodeTo, EncodeRow, ModeOf, PathOf, RowCompacts;
    EncodeToExact(ix, |ix.files|, ModeOf(ModesOf(ix.files)), ModeOf(MtimesOf(ix.files)));
  }

  lemma DecodesPath(previous: string, rel: string)
    ensures var path := PathOf(previous, rel);
            0 <= path.prefix <= |previous| && previous[..path.prefix] + path.suffix == rel
  {
  }

  lemma DecodesRow(ix: Index, c: CompactIndex, prior: seq<IndexRow>, i: nat)
    requires i < |ix.files| && Compact(ix) == Ok(c)
    requires |prior| == i && SamePaths(prior, ix.files)
    ensures |c.p| == |c.f| == |ix.files|
    ensures var out := DecodeRow(c, prior, c.p[i], c.f[i]);
            && (out.Ok? <==> !NamesItself(ix.files[i]))
            && (out.Ok? ==> out.value.rel == ix.files[i].rel)
            && (prior == ix.files[..i] ==> (out == Ok(ix.files[i]) <==> RowFaithful(ix, i)))
  {
    hide Compact, EncodeRow, DecodeBody, PathOf, RowFaithful, NamesItself, SamePaths, Previous;
    CompactColumns(ix, i);
    EncodedHead(ix, i, c.mode, c.mtime);
    DecodesBody(ix, c, prior, i, c.f[i]);
    SamePrevious(prior, ix.files);
    DecodesPath(Previous(prior, i), ix.files[i].rel);
  }

  lemma DecodeStep(c: CompactIndex, n: nat)
    requires 0 < n <= |c.p| && n <= |c.f|
    ensures DecodeTo(c, n) ==
            if DecodeTo(c, n - 1).Raised? then DecodeTo(c, n - 1)
            else
              var prior := DecodeTo(c, n - 1).value;
              var last := DecodeRow(c, prior, c.p[n - 1], c.f[n - 1]);
              if last.Raised? then Raised(last.fault) else Ok(prior + [last.value])
  {
    hide DecodeRow;
  }

  lemma DecodeNothing(c: CompactIndex)
    ensures DecodeTo(c, 0) == Ok([])
  {
  }

  lemma OneMoreRow(files: seq<IndexRow>, n: nat, prior: seq<IndexRow>, last: IndexRow)
    requires 0 < n <= |files| && |prior| == n - 1
    ensures prior + [last] == files[..n] <==> prior == files[..n - 1] && last == files[n - 1]
    ensures SamePaths(prior, files) && last.rel == files[n - 1].rel ==> SamePaths(prior + [last], files)
  {
    var all := prior + [last];
    assert all[..n - 1] == prior && all[n - 1] == last;
    assert files[..n][..n - 1] == files[..n - 1] && files[..n][n - 1] == files[n - 1];
    assert files[..n] == files[..n - 1] + [files[n - 1]];
  }

  lemma {:induction false} DecodesTo(ix: Index, c: CompactIndex, n: nat)
    requires n <= |ix.files| && Compact(ix) == Ok(c)
    ensures |c.p| == |c.f| == |ix.files|
    ensures var out := DecodeTo(c, n);
            && (out.Ok? <==> forall i :: 0 <= i < n ==> !NamesItself(ix.files[i]))
            && (out.Ok? ==> SamePaths(out.value, ix.files))
            && (out == Ok(ix.files[..n]) <==> forall i :: 0 <= i < n ==> RowFaithful(ix, i))
  {
    hide Compact, DecodeTo, DecodeRow, RowFaithful, NamesItself;
    CompactLengths(ix);
    if n == 0 {
      DecodeNothing(c);
    } else {
      DecodesTo(ix, c, n - 1);
      DecodeStep(c, n);
      if DecodeTo(c, n - 1).Ok? {
        var prior := DecodeTo(c, n - 1).value;
        DecodesRow(ix, c, prior, n - 1);
        var last := DecodeRow(c, prior, c.p[n - 1], c.f[n - 1]);
        if last.Ok? {
          OneMoreRow(ix.files, n, prior, last.value);
        }
      }
    }
  }

  lemma CompactLengths(ix: Index)
    ensures Compact(ix).Ok? ==>
              var c := Compact(ix).value;
              && |c.p| == |c.f| == |ix.files|
              && c.b == ix.blobs && c.r == ix.recipes && c.z == ix.dictBlob && c.m == ix.fsmeta
  {
  }

  /** Decode after encode: it fails exactly on a hard link that names itself, and gives back the index
      exactly when every row is faithful. */
  lemma RoundTripExact(ix: Index)
    requires Compact(ix).Ok?
    ensures var out := Expand(Compact(ix).value, ix.version, ix.features);
            && (out.Ok? <==> forall i :: 0 <= i < |ix.files| ==> !NamesItself(ix.files[i]))
            && (out == Ok(ix) <==> Faithful(ix))
  {
    hide Compact, DecodeTo, RowFaithful, NamesItself;
    var c := Compact(ix).value;
    CompactLengths(ix);
    DecodesTo(ix, c, |ix.files|);
    assert ix.files[..|ix.files|] == ix.files;
  }

  // ----- What the decoder accepts

  /** Whatever table the decoder accepts: unless a hard link shares its path with an earlier row, the
      result is faithful and can be compacted, so that encoding and decoding it again changes nothing. */
  lemma DecodedIsFaithful(c: CompactIndex, version: int, features: seq<string>)
    requires Expand(c, version, features).Ok?
    requires forall row :: row in Expand(c, version, features).value.files ==> !NamesItself(row)
    ensures var ix := Expand(c, version, features).value;
            && Faithful(ix) && Compact(ix).Ok?
            && Expand(Compact(ix).value, version, features) == Ok(ix)
  {
    hide Compact, DecodeTo, RowFaithful, RowCompacts, NamesItself;
    var ix := Expand(c, version, features).value;
    assert ix.files[..|ix.files|] == ix.files;
    forall i | 0 <= i < |ix.files| ensures RowFaithful(ix, i) && RowCompacts(ix, i) {
      DecodedRow(c, ix, |ix.files|, i);
    }
    CompactExact(ix);
    RoundTripExact(ix);
  }

  lemma {:induction false} DecodedRow(c: CompactIndex, ix: Index, n: nat, i: nat)
    requires i < n <= |c.p| && n <= |c.f| && n <= |ix.files|
    requires DecodeTo(c, n) == Ok(ix.files[..n]) && c.b == ix.blobs && c.r == ix.recipes
    requires !NamesItself(ix.files[i])
    ensures RowFaithful(ix, i) && RowCompacts(ix, i)
  {
    hide DecodeTo, DecodeRow, RowFaithful, RowCompacts, NamesItself;
    DecodeStep(c, n);
    var prior := DecodeTo(c, n - 1).value;
    var last := DecodeRow(c, prior, c.p[n - 1], c.f[n - 1]).value;
    OneMoreRow(ix.files, n, prior, last);
    if i < n - 1 {
      DecodedRow(c, ix, n - 1, i);
    } else {
      DecodedLast(c, ix, i, c.p[i], c.f[i]);
    }
  }

  lemma DecodedLast(c: CompactIndex, ix: Index, i: nat, path: PathRow, e: Encoded)
    requires i < |ix.files| && DecodeRow(c, ix.files[..i], path, e) == Ok(ix.files[i])
    requires c.b == ix.blobs && c.r == ix.recipes && !NamesItself(ix.files[i])
    ensures RowFaithful(ix, i) && RowCompacts(ix, i)
  {
    hide DerivedSize;
    var row, prior := ix.files[i], ix.files[..i];
    if row.kind == K_HARDLINK {
      SameLast(prior, ix.files, i, row.storage.path);
      assert prior[e.owner] == ix.files[e.owner];
    }
  }

  // ----- Hard links that come before their owner

  /** Order of paths: by the first character that differs. */
  predicate PathLe(a: string, b: string) {
    a == "" || (b != "" && (a[0] < b[0] || (a[0] == b[0] && PathLe(a[1..], b[1..]))))
  }

  ghost predicate SortedByPath(files: seq<IndexRow>) {
    forall i, j | 0 <= i < j < |files| :: PathLe(files[i].rel, files[j].rel)
  }

  /** A directory `a` that holds a file `b`, and beside it a second name `a.t` of the same file. The walk
      meets the directory first, so that `a/b` owns the data; sorted by path the alias comes first, and the
      encoder raises. */
  lemma SortedWalkRefused(size: nat, blob: BlobRow) returns (walked: seq<IndexRow>, ix: Index)
    requires blob.usize == size
    ensures walked == [IndexRow("a", K_DIR, 493, 0, 0, None, Absent),
                       IndexRow("a/b", K_FILE, 420, 0, size, None, Blob(0)),
                       IndexRow("a.t", K_HARDLINK, 420, 0, size, None, Owner("a/b", []))]
    ensures ix.files == [walked[0], walked[2], walked[1]] && SortedByPath(ix.files)
    ensures Compact(ix) == Raised(OwnerUnknown)
    ensures var unsorted := ix.(files := walked);
            Compact(unsorted).Ok? && Expand(Compact(unsorted).value, ix.version, ix.features) == Ok(unsorted)
  {
    hide ModeOf;
    var d := IndexRow("a", K_DIR, 493, 0, 0, None, Absent);
    var f := IndexRow("a/b", K_FILE, 420, 0, size, None, Blob(0));
    var l := IndexRow("a.t", K_HARDLINK, 420, 0, size, None, Owner("a/b", []));
    walked := [d, f, l];
    ix := Index([d, l, f], [blob], [], None, [], 24, []);
    AliasFirst(ix, d, l, f);
    WalkFaithful(ix.(files := walked), d, f, l);
    assert "a"[1..] == "" && "a.t"[1..] == ".t" && "a/b"[1..] == "/b";
  }

  lemma AliasFirst(ix: Index, d: IndexRow, l: IndexRow, f: IndexRow)
    requires ix.files == [d, l, f] && d.kind == K_DIR && l.kind == K_HARDLINK && l.storage.Owner?
    requires d.rel != l.storage.path && l.rel != l.storage.path
    ensures Compact(ix) == Raised(OwnerUnknown)
  {
    hide ModeOf;
    var mode, mtime := ModeOf(ModesOf(ix.files)), ModeOf(MtimesOf(ix.files));
    var owner := LastAt(ix.files, 2, l.storage.path);
    assert owner < 0;
    assert EncodeRow(ix, 1, mode, mtime) == Raised(OwnerUnknown);
    assert EncodeRow(ix, 0, mode, mtime).Ok?;
    assert EncodeTo(ix, 0, mode, mtime).Ok?;
    assert EncodeTo(ix, 1, mode, mtime).Ok?;
    assert EncodeTo(ix, 2, mode, mtime) == Raised(OwnerUnknown);
    assert EncodeTo(ix, 3, mode, mtime) == Raised(OwnerUnknown);
  }

  lemma WalkFaithful(ix: Index, d: IndexRow, f: IndexRow, l: IndexRow)
    requires ix.files == [d, f, l]
    requires d.kind == K_DIR && d.size == 0 && d.digest.None? && d.storage == Absent
    requires f.kind == K_FILE && f.digest.None? && f.storage == Blob(0) && ix.blobs != [] && f.size == ix.blobs[0].usize
    requires l.kind == K_HARDLINK && l.size == f.size && l.digest.None? && l.storage == Owner(f.rel, [])
    requires l.rel != f.rel
    ensures Compact(ix).Ok? && Expand(Compact(ix).value, ix.version, ix.features) == Ok(ix)
  {
    hide Compact;
    assert ix.files[1].rel == f.rel;
    assert LastAt(ix.files, 2, f.rel) == 1;
    CompactExact(ix);
    RoundTripExact(ix);
  }

  // ----- The procedures

  /** `_common_prefix` */
  method CountPrefix(a: string, b: string) returns (n: nat)
    ensures n == CommonPrefix(a, b)
  {
    n := 0;
    while n < |a| && n < |b| && a[n] == b[n]
      invariant n <= |a| && n <= |b| && a[..n] == b[..n]
    {
      assert a[..n + 1] == a[..n] + [a[n]] && b[..n + 1] == b[..n] + [b[n]];
      n := n + 1;
    }
    PrefixUnique(a, b, n);
  }

  lemma {:induction false} PrefixUnique(a: string, b: string, n: nat)
    requires n <= |a| && n <= |b| && a[..n] == b[..n]
    requires n < |a| && n < |b| ==> a[n] != b[n]
    ensures n == CommonPrefix(a, b)
  {
    if n > 0 {
      assert a[0] == a[..n][0] && b[0] == b[..n][0];
      assert a[1..][..n - 1] == a[..n][1..] && b[1..][..n - 1] == b[..n][1..];
      PrefixUnique(a[1..], b[1..], n - 1);
    }
  }

  /** The dictionary `path_to_index` after the first `n` rows. */
  ghost predicate Indexes(at: map<string, int>, files: seq<IndexRow>, n: nat)
    requires n <= |files|
  {
    forall path :: if path in at then at[path] == LastAt(files, n, path) >= 0 else LastAt(files, n, path) == -1
  }

  lemma IndexesStep(at: map<string, int>, files: seq<IndexRow>, n: nat)
    requires n < |files| && Indexes(at, files, n)
    ensures Indexes(at[files[n].rel := n], files, n + 1)
  {
  }

  lemma EncodeStep(ix: Index, n: nat, mode: int, mtime: int)
    requires n < |ix.files| && EncodeTo(ix, n, mode, mtime).Ok?
    ensures EncodeRow(ix, n, mode, mtime).Raised? ==>
              EncodeTo(ix, |ix.files|, mode, mtime) == Raised(EncodeRow(ix, n, mode, mtime).fault)
    ensures EncodeRow(ix, n, mode, mtime).Ok? ==>
              EncodeTo(ix, n + 1, mode, mtime)
              == Ok(EncodeTo(ix, n, mode, mtime).value + [EncodeRow(ix, n, mode, mtime).value])
  {
    hide EncodeRow;
    if EncodeRow(ix, n, mode, mtime).Raised? {
      FaultStays(ix, n + 1, |ix.files|, mode, mtime);
    }
  }

  lemma {:induction false} FaultStays(ix: Index, m: nat, n: nat, mode: int, mtime: int)
    requires m <= n <= |ix.files| && EncodeTo(ix, m, mode, mtime).Raised?
    ensures EncodeTo(ix, n, mode, mtime) == EncodeTo(ix, m, mode, mtime)
  {
    if m < n {
      FaultStays(ix, m, n - 1, mode, mtime);
    }
  }

  /** One row of the loop; `at` includes the row itself. */
  method WriteRow(ix: Index, i: nat, mode: int, mtime: int, at: map<string, int>) returns (r: Result<Encoded>)
    requires i < |ix.files| && Indexes(at, ix.files, i + 1)
    ensures r == EncodeRow(ix, i, mode, mtime)
  {
    var row := ix.files[i];
    var override := if row.mode == mode then None else Some(row.mode);
    var delta := row.mtime - mtime;
    if row.kind == K_DIR {
      r := Ok(Stub(row.kind, override, delta));
    } else if row.kind == K_HARDLINK {
      if !row.storage.Owner? {
        return Raised(ShapeError);
      }
      if row.storage.path !in at {
        return Raised(OwnerUnknown);
      }
      r := Ok(Alias(row.kind, override, delta, at[row.storage.path]));
    } else {
      var derived := DerivedSize(row.storage, ix.blobs, ix.recipes);
      if derived.Raised? {
        return Raised(derived.fault);
      }
      var size := if derived.value == Some(row.size) then None else Some(row.size);
      var digest := if KeepsDigest(row.storage) then row.digest else None;
      r := Ok(Full(row.kind, override, delta, row.storage, size, digest));
    }
  }

  /** `_compact_index` */
  method CompactRows(ix: Index) returns (r: Result<CompactIndex>)
    ensures r == Compact(ix)
  {
    hide EncodeTo, EncodeRow, ModeOf, PathOf, PathsOf, LastAt, Indexes, Previous;
    var mode, mtime := ModeOf(ModesOf(ix.files)), ModeOf(MtimesOf(ix.files));
    var paths: seq<PathRow>, rows: seq<Encoded> := [], [];
    var previous := "";
    var at: map<string, int> := map[];
    NothingEncoded(ix, mode, mtime);
    for i := 0 to |ix.files|
      invariant previous == Previous(ix.files, i) && Indexes(at, ix.files, i)
      invariant paths == PathsOf(ix.files[..i])
      invariant EncodeTo(ix, i, mode, mtime) == Ok(rows)
    {
      var rel := ix.files[i].rel;
      var path := WritePath(previous, rel);
      PathsStep(ix.files, i);
      paths := paths + [path];
      previous := rel;
      IndexesStep(at, ix.files, i);
      at := at[rel := i];
      var row := WriteRow(ix, i, mode, mtime, at);
      EncodeStep(ix, i, mode, mtime);
      if row.Raised? {
        return Raised(row.fault);
      }
      rows := rows + [row.value];
    }
    assert ix.files[..|ix.files|] == ix.files;
    r := Ok(CompactIndex(paths, mode, mtime, rows, ix.blobs, ix.recipes, ix.dictBlob, ix.fsmeta));
  }

  lemma NothingEncoded(ix: Index, mode: int, mtime: int)
    ensures EncodeTo(ix, 0, mode, mtime) == Ok([]) && Indexes(map[], ix.files, 0)
    ensures Previous(ix.files, 0) == "" && PathsOf(ix.files[..0]) == []
  {
  }

  lemma PathsStep(files: seq<IndexRow>, i: nat)
    requires i < |files|
    ensures PathsOf(files[..i + 1]) == PathsOf(files[..i]) + [PathOf(Previous(files, i), files[i].rel)]
    ensures Previous(files, i + 1) == files[i].rel
  {
    hide PathOf;
    var longer, shorter := files[..i + 1], files[..i];
    forall k | 0 <= k < i ensures PathsOf(longer)[k] == PathsOf(shorter)[k] {
      assert longer[k] == shorter[k] && Previous(longer, k) == Previous(shorter, k);
    }
  }

  method WritePath(previous: string, rel: string) returns (path: PathRow)
    ensures path == PathOf(previous, rel)
  {
    var n := CountPrefix(previous, rel);
    path := PathRow(n, rel[n..]);
  }

  /** The dictionary `prior_sizes`. */
  ghost predicate Sizes(sizes: map<string, int>, prior: seq<IndexRow>) {
    forall path :: if path in sizes then LastAt(prior, |prior|, path) >= 0
                                         && sizes[path] == prior[LastAt(prior, |prior|, path)].size
                   else LastAt(prior, |prior|, path) == -1
  }

  lemma SizesStep(sizes: map<string, int>, prior: seq<IndexRow>, row: IndexRow)
    requires Sizes(sizes, prior)
    ensures Sizes(sizes[row.rel := row.size], prior + [row])
  {
    var all := prior + [row];
    forall path ensures path != row.rel ==> LastAt(all, |all|, path) == LastAt(prior, |prior|, path) {
      SameLast(prior, all, |prior|, path);
    }
  }

  /** One row of the decoder's loop. */
  method ReadRow(
    c: CompactIndex, ghost prior: seq<IndexRow>, paths: seq<string>, sizes: map<string, int>, path: PathRow, e: Encoded)
    returns (r: Result<IndexRow>)
    requires Sizes(sizes, prior) && |paths| == |prior| && forall k :: 0 <= k < |prior| ==> paths[k] == prior[k].rel
    ensures r == DecodeRow(c, prior, path, e)
  {
    var previous := if paths == [] then "" else paths[|paths| - 1];
    if path.prefix < 0 || path.prefix > |previous| {
      return Raised(BadPathPrefix);
    }
    var rel := previous[..path.prefix] + path.suffix;
    var mode := if e.mode.None? then c.mode else e.mode.value;
    var mtime := c.mtime + e.delta;
    if e.kind == K_DIR {
      r := Ok(IndexRow(rel, e.kind, mode, mtime, 0, None, Absent));
    } else if e.kind == K_HARDLINK {
      if !e.Alias? {
        return Raised(ShapeError);
      }
      if e.owner < 0 || e.owner >= |paths| {
        return Raised(BadOwner);
      }
      var owner := paths[e.owner];
      assert owner in sizes;
      r := Ok(IndexRow(rel, e.kind, mode, mtime, sizes[owner], None, Owner(owner, [])));
    } else if !e.Full? {
      r := Raised(ShapeError);
    } else {
      var derived := DerivedSize(e.storage, c.b, c.r);
      if derived.Raised? {
        return Raised(derived.fault);
      }
      var size := if e.size.Some? then e.size else derived.value;
      if size.None? {
        return Raised(SizeUnknown);
      }
      var digest := if KeepsDigest(e.storage) then e.digest else None;
      r := Ok(IndexRow(rel, e.kind, mode, mtime, size.value, digest, e.storage));
    }
  }

  lemma {:induction false} DecodeFaultStays(c: CompactIndex, m: nat, n: nat)
    requires m <= n <= |c.p| && n <= |c.f| && DecodeTo(c, m).Raised?
    ensures DecodeTo(c, n) == DecodeTo(c, m)
  {
    if m < n {
      DecodeFaultStays(c, m, n - 1);
    }
  }

  /** `_expand_index` */
  method ExpandRows(c: CompactIndex, version: int, features: seq<string>) returns (r: Result<Index>)
    ensures r == Expand(c, version, features)
  {
    hide DecodeTo, DecodeRow, LastAt;
    var files: seq<IndexRow> := [];
    var priorPaths: seq<string>, priorSizes: map<string, int> := [], map[];
    var n := Smaller(|c.p|, |c.f|);
    DecodeNothing(c);
    NoSizes();
    for i := 0 to n
      invariant DecodeTo(c, i) == Ok(files)
      invariant |priorPaths| == |files| && forall k :: 0 <= k < |files| ==> priorPaths[k] == files[k].rel
      invariant Sizes(priorSizes, files)
    {
      var row := ReadRow(c, files, priorPaths, priorSizes, c.p[i], c.f[i]);
      DecodeStep(c, i + 1);
      if row.Raised? {
        DecodeFaultStays(c, i + 1, n);
        return Raised(row.fault);
      }
      SizesStep(priorSizes, files, row.value);
      files := files + [row.value];
      priorPaths := priorPaths + [row.value.rel];
      priorSizes := priorSizes[row.value.rel := row.value.size];
    }
    if |c.p| != |c.f| {
      return Raised(ShapeError);
    }
    r := Ok(Index(files, c.b, c.r, c.z, c.m, version, features));
  }

  lemma NoSizes()
    ensures Sizes(map[], [])
  {
  }
}
