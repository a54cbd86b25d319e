/** What every cell of a compact index says, for the encoder and the decoder alike. */
module IndexMeaning {
  import opened Results
  import opened ControlRows
  import opened Kinds
  import opened Numbers
  import opened IndexTable
  import opened IndexCodec

  // ----- The size that a storage tells

  /** `s[i]` in Python. */
  ghost predicate IsAt<T(!new)>(s: seq<T>, i: int, x: T) {
    (0 <= i < |s| && x == s[i]) || (-|s| <= i < 0 && x == s[|s| + i])
  }

  ghost predicate AreUsizes(refs: seq<int>, blobs: seq<BlobRow>, sizes: seq<int>) {
    && |sizes| == |refs|
    && forall i :: 0 <= i < |refs| ==> exists b :: IsAt(blobs, refs[i], b) && b.usize == sizes[i]
  }

  /** The storage says that its file has `n` bytes. */
  ghost predicate Tells(s: Storage, blobs: seq<BlobRow>, recipes: seq<RecipeRow>, n: int) {
    match s
    case Blob(ref) => exists b :: IsAt(blobs, ref, b) && n == b.usize
    case Packed(_, _, len) => n == len
    case Chunks(refs) => exists sizes :: AreUsizes(refs, blobs, sizes) && n == Total(sizes)
    case Cdc(parts) => n == Total(seq(|parts|, i requires 0 <= i < |parts| => parts[i].0))
    case Vzip(recipe) => exists r :: IsAt(recipes, recipe, r) && n == r.size
    case _ => false
  }

  /** The storage says nothing of the size: it is none at all, sparse, or of an unknown tag. */
  ghost predicate TellsNothing(s: Storage) {
    match s
    case Absent => true
    case Blank => true
    case Sparse(_) => true
    case Bare(tag) => tag !in {0, 1, 2, 4, 5}
    case Other(tag, _) => tag !in {0, 1, 2, 4, 5}
    case _ => false
  }

  lemma AtExact<T(!new)>(s: seq<T>, i: int)
    ensures forall x :: At(s, i) == Ok(x) <==> IsAt(s, i, x)
  {
  }

  lemma {:induction false} BlobSizesExact(refs: seq<int>, blobs: seq<BlobRow>, n: int)
    ensures BlobSizes(refs, blobs) == Ok(n) <==> exists sizes :: AreUsizes(refs, blobs, sizes) && n == Total(sizes)
  {
    hide AreUsizes, Total, At;
    if refs == [] {
      NoUsizes(blobs);
    } else {
      var init, last := refs[..|refs| - 1], refs[|refs| - 1];
      AtExact(blobs, last);
      if BlobSizes(refs, blobs) == Ok(n) {
        var b := At(blobs, last).value;
        BlobSizesExact(init, blobs, n - b.usize);
        var sizes :| AreUsizes(init, blobs, sizes) && n - b.usize == Total(sizes);
        LastUsize(refs, blobs, sizes, b);
      }
      if sizes :| AreUsizes(refs, blobs, sizes) && n == Total(sizes) {
        var b := FirstUsizes(refs, blobs, sizes);
        var rest := sizes[..|refs| - 1];
        assert AreUsizes(init, blobs, rest) && n - b.usize == Total(rest);
        BlobSizesExact(init, blobs, n - b.usize);
        assert At(blobs, last) == Ok(b);
      }
    }
  }

  lemma NoUsizes(blobs: seq<BlobRow>)
    ensures forall sizes :: AreUsizes([], blobs, sizes) <==> sizes == []
    ensures Total([]) == 0
  {
  }

  lemma FirstUsizes(refs: seq<int>, blobs: seq<BlobRow>, sizes: seq<int>) returns (b: BlobRow)
    requires refs != [] && AreUsizes(refs, blobs, sizes)
    ensures |sizes| == |refs|
    ensures IsAt(blobs, refs[|refs| - 1], b) && AreUsizes(refs[..|refs| - 1], blobs, sizes[..|refs| - 1])
    ensures Total(sizes) == Total(sizes[..|refs| - 1]) + b.usize
  {
    hide Total;
    var init, rest := refs[..|refs| - 1], sizes[..|refs| - 1];
    b :| IsAt(blobs, refs[|refs| - 1], b) && b.usize == sizes[|refs| - 1];
    assert forall i :: 0 <= i < |init| ==> init[i] == refs[i] && rest[i] == sizes[i];
    TotalSnoc(rest, b.usize);
    assert sizes == rest + [b.usize];
  }

  lemma LastUsize(refs: seq<int>, blobs: seq<BlobRow>, sizes: seq<int>, b: BlobRow)
    requires refs != [] && AreUsizes(refs[..|refs| - 1], blobs, sizes) && IsAt(blobs, refs[|refs| - 1], b)
    ensures AreUsizes(refs, blobs, sizes + [b.usize]) && Total(sizes + [b.usize]) == Total(sizes) + b.usize
  {
    TotalSnoc(sizes, b.usize);
    var all := sizes + [b.usize];
    forall i | 0 <= i < |refs| ensures exists x :: IsAt(blobs, refs[i], x) && x.usize == all[i] {
      if i < |refs| - 1 {
        assert refs[..|refs| - 1][i] == refs[i];
      }
    }
  }

  lemma TotalSnoc(s: seq<int>, n: int)
    ensures Total(s + [n]) == Total(s) + n
  {
    TotalAppend(s, [n]);
    var one: seq<int> := [n];
    assert one[1..] == [] && Total(one) == n;
  }

  lemma {:induction false} PartSizesExact(parts: seq<(int, int)>)
    ensures PartSizes(parts) == Total(seq(|parts|, i requires 0 <= i < |parts| => parts[i].0))
  {
    var all := seq(|parts|, i requires 0 <= i < |parts| => parts[i].0);
    if parts != [] {
      var n := |parts| - 1;
      PartSizesExact(parts[..n]);
      var init := seq(|parts[..n]|, i requires 0 <= i < |parts[..n]| => parts[..n][i].0);
      assert all == init + [parts[n].0];
      TotalSnoc(init, parts[n].0);
    }
  }

  /** What the routine derives is what the storage tells; it raises on every other storage. */
  lemma DerivedExact(s: Storage, blobs: seq<BlobRow>, recipes: seq<RecipeRow>)
    ensures forall n :: DerivedSize(s, blobs, recipes) == Ok(Some(n)) <==> Tells(s, blobs, recipes, n)
    ensures DerivedSize(s, blobs, recipes) == Ok(None) <==> TellsNothing(s)
  {
    match s
    case Blob(ref) => AtExact(blobs, ref);
    case Vzip(recipe) => AtExact(recipes, recipe);
    case Cdc(parts) => PartSizesExact(parts);
    case Chunks(refs) =>
      forall n ensures BlobSizes(refs, blobs) == Ok(n) <==> Tells(s, blobs, recipes, n) {
        BlobSizesExact(refs, blobs, n);
      }
    case _ =>
  }

  ghost predicate SizeKnown(s: Storage, blobs: seq<BlobRow>, recipes: seq<RecipeRow>) {
    TellsNothing(s) || exists n :: Tells(s, blobs, recipes, n)
  }

  lemma KnownExact(s: Storage, blobs: seq<BlobRow>, recipes: seq<RecipeRow>)
    ensures SizeKnown(s, blobs, recipes) <==> DerivedSize(s, blobs, recipes).Ok?
  {
    hide DerivedSize, Tells, TellsNothing;
    DerivedExact(s, blobs, recipes);
    var d := DerivedSize(s, blobs, recipes);
    if d.Ok? && d.value.Some? {
      assert Tells(s, blobs, recipes, d.value.value);
    }
  }

  /** Storages that keep a digest for the whole file: chunked, content-defined and sparse. */
  ghost predicate IsPieced(s: Storage) {
    match s
    case Chunks(_) => true
    case Cdc(_) => true
    case Sparse(_) => true
    case Bare(tag) => tag in {1, 3, 5}
    case Other(tag, _) => tag in {1, 3, 5}
    case _ => false
  }

  /** Row `k` is the last of the first `n` with this path. */
  ghost predicate IsLast(files: seq<IndexRow>, n: nat, path: string, k: int)
    requires n <= |files|
  {
    0 <= k < n && files[k].rel == path && forall m :: k < m < n ==> files[m].rel != path
  }

  function PathBefore(files: seq<IndexRow>, i: nat): string
    requires i <= |files|
  {
    if i == 0 then "" else files[i - 1].rel
  }

  // ----- The decoder

  ghost predicate Reads(c: CompactIndex, files: seq<IndexRow>, i: nat)
    requires i < |files| && i < |c.p| && i < |c.f|
  {
    var row, e, path, previous := files[i], c.f[i], c.p[i], PathBefore(files, i);
    && 0 <= path.prefix <= |previous| && row.rel == previous[..path.prefix] + path.suffix
    && row.kind == e.kind && row.mode == (if e.mode.None? then c.mode else e.mode.value)
    && row.mtime == c.mtime + e.delta
    && if row.kind == K_DIR then row.size == 0 && row.digest == None && row.storage == Absent
       else if row.kind == K_HARDLINK then
         && e.Alias? && 0 <= e.owner < i && row.digest == None && row.storage == Owner(files[e.owner].rel, [])
         && exists k :: IsLast(files, i, files[e.owner].rel, k) && row.size == files[k].size
       else
         && e.Full? && row.storage == e.storage && SizeKnown(e.storage, c.b, c.r)
         && row.digest == (if IsPieced(e.storage) then e.digest else None)
         && if e.size.Some? then row.size == e.size.value else Tells(e.storage, c.b, c.r, row.size)
  }

  lemma LastAtIs(files: seq<IndexRow>, n: nat, path: string)
    requires n <= |files|
    ensures forall k :: IsLast(files, n, path, k) <==> k == LastAt(files, n, path) && k >= 0
  {
  }

  lemma PiecedKeeps(s: Storage)
    ensures KeepsDigest(s) <==> IsPieced(s)
  {
  }

  lemma ReadsBody(c: CompactIndex, files: seq<IndexRow>, i: nat)
    requires i < |files| && i < |c.p| && i < |c.f|
    ensures var row, e := files[i], c.f[i];
            DecodeBody(c, files[..i], e) == Ok((row.size, row.digest, row.storage)) <==>
            if e.kind == K_DIR then row.size == 0 && row.digest == None && row.storage == Absent
            else if e.kind == K_HARDLINK then
              && e.Alias? && 0 <= e.owner < i && row.digest == None && row.storage == Owner(files[e.owner].rel, [])
              && exists k :: IsLast(files, i, files[e.owner].rel, k) && row.size == files[k].size
            else
              && e.Full? && row.storage == e.storage && SizeKnown(e.storage, c.b, c.r)
              && row.digest == (if IsPieced(e.storage) then e.digest else None)
              && if e.size.Some? then row.size == e.size.value else Tells(e.storage, c.b, c.r, row.size)
  {
    hide DerivedSize, Tells, TellsNothing, SizeKnown, KeepsDigest, IsPieced, LastAt;
    var e, prior := c.f[i], files[..i];
    if e.kind == K_HARDLINK && e.Alias? && 0 <= e.owner < i {
      var owner := files[e.owner].rel;
      assert prior[e.owner] == files[e.owner];
      LastInPrefix(files, i, owner);
      LastAtIs(files, i, owner);
    } else if e.Full? {
      DerivedExact(e.storage, c.b, c.r);
      KnownExact(e.storage, c.b, c.r);
      PiecedKeeps(e.storage);
    }
  }

  lemma LastInPrefix(files: seq<IndexRow>, i: nat, path: string)
    requires i <= |files|
    ensures LastAt(files[..i], i, path) == LastAt(files, i, path)
  {
    SameLast(files[..i], files, i, path);
  }

  lemma ReadsRow(c: CompactIndex, files: seq<IndexRow>, i: nat)
    requires i < |files| && i < |c.p| && i < |c.f|
    ensures DecodeRow(c, files[..i], c.p[i], c.f[i]) == Ok(files[i]) <==> Reads(c, files, i)
  {
    hide DecodeBody, Tells, SizeKnown, IsPieced, IsLast;
    ReadsBody(c, files, i);
    assert Previous(files[..i], i) == PathBefore(files, i);
  }

  lemma {:induction false} ReadsTo(c: CompactIndex, files: seq<IndexRow>, n: nat)
    requires n <= |files| && n <= |c.p| && n <= |c.f|
    ensures DecodeTo(c, n) == Ok(files[..n]) <==> forall i :: 0 <= i < n ==> Reads(c, files, i)
  {
    hide DecodeTo, DecodeRow, Reads;
    if n == 0 {
      DecodeNothing(c);
    } else {
      ReadsTo(c, files, n - 1);
      DecodeStep(c, n);
      ReadsRow(c, files, n - 1);
      if DecodeTo(c, n - 1).Ok? {
        var prior := DecodeTo(c, n - 1).value;
        var last := DecodeRow(c, prior, c.p[n - 1], c.f[n - 1]);
        if last.Ok? {
          OneMoreRow(files, n, prior, last.value);
        }
      }
    }
  }

  /** The decoder gives an index exactly when each of its rows is what the cells say, counting on from the
      rows before. */
  lemma ExpandMeans(c: CompactIndex, version: int, features: seq<string>, ix: Index)
    ensures Expand(c, version, features) == Ok(ix) <==>
            && ix == Index(ix.files, c.b, c.r, c.z, c.m, version, features)
            && |c.p| == |c.f| == |ix.files|
            && forall i :: 0 <= i < |ix.files| ==> Reads(c, ix.files, i)
  {
    hide DecodeTo, Reads;
    if |c.p| == |c.f| == |ix.files| {
      ReadsTo(c, ix.files, |ix.files|);
      assert ix.files[..|ix.files|] == ix.files;
    }
  }

  // ----- The encoder

  /** The value that occurs most often, and of several the least; 0 if there are none. */
  ghost predicate IsDefault(values: seq<int>, m: int) {
    if values == [] then m == 0
    else
      && m in values
      && forall v :: v in values ==>
           multiset(values)[v] < multiset(values)[m] || (multiset(values)[v] == multiset(values)[m] && m <= v)
  }

  lemma ModeIsDefault(values: seq<int>)
    ensures forall m :: m == ModeOf(values) <==> IsDefault(values, m)
  {
    if values != [] {
      MostCommonExact(values, values);
    }
  }

  ghost predicate Writes(c: CompactIndex, ix: Index, i: nat)
    requires i < |ix.files| && i < |c.p| && i < |c.f|
  {
    var row, e, path, previous := ix.files[i], c.f[i], c.p[i], PathBefore(ix.files, i);
    && 0 <= path.prefix <= |previous| && path.prefix <= |row.rel|
    && previous[..path.prefix] == row.rel[..path.prefix] && path.suffix == row.rel[path.prefix..]
    && (path.prefix < |previous| && path.prefix < |row.rel| ==> previous[path.prefix] != row.rel[path.prefix])
    && e.kind == row.kind && e.mode == (if row.mode == c.mode then None else Some(row.mode))
    && e.delta == row.mtime - c.mtime
    && if row.kind == K_DIR then e.Stub?
       else if row.kind == K_HARDLINK then
         e.Alias? && row.storage.Owner? && IsLast(ix.files, i + 1, row.storage.path, e.owner)
       else
         && e.Full? && e.storage == row.storage && SizeKnown(row.storage, ix.blobs, ix.recipes)
         && e.size == (if Tells(row.storage, ix.blobs, ix.recipes, row.size) then None else Some(row.size))
         && e.digest == (if IsPieced(row.storage) then row.digest else None)
  }

  lemma WritesRow(c: CompactIndex, ix: Index, i: nat)
    requires i < |ix.files| && i < |c.p| && i < |c.f|
    ensures Writes(c, ix, i) <==>
            && c.p[i] == PathOf(Previous(ix.files, i), ix.files[i].rel)
            && EncodeRow(ix, i, c.mode, c.mtime) == Ok(c.f[i])
  {
    hide DerivedSize, Tells, TellsNothing, SizeKnown, KeepsDigest, IsPieced, LastAt, CommonPrefix;
    var row := ix.files[i];
    PathExact(PathBefore(ix.files, i), row.rel, c.p[i]);
    if row.kind == K_HARDLINK && row.storage.Owner? {
      LastAtIs(ix.files, i + 1, row.storage.path);
    }
    DerivedExact(row.storage, ix.blobs, ix.recipes);
    KnownExact(row.storage, ix.blobs, ix.recipes);
    PiecedKeeps(row.storage);
  }

  lemma PathExact(previous: string, rel: string, path: PathRow)
    ensures path == PathOf(previous, rel) <==>
            && 0 <= path.prefix <= |previous| && path.prefix <= |rel|
            && previous[..path.prefix] == rel[..path.prefix] && path.suffix == rel[path.prefix..]
            && (path.prefix < |previous| && path.prefix < |rel| ==> previous[path.prefix] != rel[path.prefix])
  {
    if && 0 <= path.prefix <= |previous| && path.prefix <= |rel|
       && previous[..path.prefix] == rel[..path.prefix]
       && (path.prefix < |previous| && path.prefix < |rel| ==> previous[path.prefix] != rel[path.prefix])
    {
      PrefixUnique(previous, rel, path.prefix);
    }
  }

  /** The encoder gives a compact table exactly when its defaults are the most common values, every cell is
      what the row says, and all other columns are carried along. */
  lemma CompactMeans(ix: Index, c: CompactIndex)
    ensures Compact(ix) == Ok(c) <==>
            && c.b == ix.blobs && c.r == ix.recipes && c.z == ix.dictBlob && c.m == ix.fsmeta
            && IsDefault(ModesOf(ix.files), c.mode) && IsDefault(MtimesOf(ix.files), c.mtime)
            && |c.p| == |c.f| == |ix.files|
            && forall i :: 0 <= i < |ix.files| ==> Writes(c, ix, i)
  {
    if Compact(ix) == Ok(c) {
      CompactIsWritten(ix, c);
    }
    if Written(ix, c) {
      WrittenIsCompact(ix, c);
    }
  }

  ghost predicate Written(ix: Index, c: CompactIndex) {
    && c.b == ix.blobs && c.r == ix.recipes && c.z == ix.dictBlob && c.m == ix.fsmeta
    && IsDefault(ModesOf(ix.files), c.mode) && IsDefault(MtimesOf(ix.files), c.mtime)
    && |c.p| == |c.f| == |ix.files|
    && forall i :: 0 <= i < |ix.files| ==> Writes(c, ix, i)
  }

  lemma CompactIsWritten(ix: Index, c: CompactIndex)
    requires Compact(ix) == Ok(c)
    ensures Written(ix, c)
  {
    hide ModeOf, EncodeTo, EncodeRow, Writes, PathOf, PathsOf, IsDefault, Previous;
    ModeIsDefault(ModesOf(ix.files));
    ModeIsDefault(MtimesOf(ix.files));
    CompactLengths(ix);
    forall i | 0 <= i < |ix.files| ensures Writes(c, ix, i) {
      CompactColumns(ix, i);
      WritesRow(c, ix, i);
    }
  }

  lemma WrittenIsCompact(ix: Index, c: CompactIndex)
    requires Written(ix, c)
    ensures Compact(ix) == Ok(c)
  {
    hide ModeOf, EncodeTo, EncodeRow, Writes, PathOf, IsDefault, RowCompacts, Previous;
    ModeIsDefault(ModesOf(ix.files));
    ModeIsDefault(MtimesOf(ix.files));
    forall i | 0 <= i < |ix.files|
      ensures RowCompacts(ix, i) && EncodeRow(ix, i, c.mode, c.mtime) == Ok(c.f[i])
      ensures c.p[i] == PathOf(Previous(ix.files, i), ix.files[i].rel)
    {
      WritesRow(c, ix, i);
      EncodeRowExact(ix, i, c.mode, c.mtime);
    }
    EncodeToExact(ix, |ix.files|, c.mode, c.mtime);
    assert EncodeTo(ix, |ix.files|, c.mode, c.mtime).value == c.f;
    assert c.p == PathsOf(ix.files);
  }
}
