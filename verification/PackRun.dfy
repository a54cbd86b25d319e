/** What a series of packs does to the builder's state: file rows are re-pointed into a pack, and the
    contents they named are dropped from the store. */
module PackRun {
  import opened Results
  import opened ByteLayout
  import opened Kinds
  import opened LocalityPack
  import opened Storages

  datatype State = State(files: seq<FileRow>, cands: Store)

  // ----- One pack

  /** The pack's bytes: its members one after another. */
  function Concat(rows: seq<Item>): Bytes {
    if rows == [] then [] else Concat(rows[..|rows| - 1]) + rows[|rows| - 1].raw
  }

  predicate Has(rows: seq<Item>, h: int) {
    exists it :: it in rows && it.digest == h
  }

  ghost predicate DistinctDigests(rows: seq<Item>) {
    forall i, j | 0 <= i < j < |rows| :: rows[i].digest != rows[j].digest
  }

  /** `slots[h]`: offset and length of a content in the pack. */
  function SlotIn(rows: seq<Item>, h: int): (nat, nat) {
    if rows == [] then (0, 0)
    else
      var init, it := rows[..|rows| - 1], rows[|rows| - 1];
      if it.digest == h then (|Concat(init)|, Size(it)) else SlotIn(init, h)
  }

  /** `refs[h]` was collected from the rows as they were at the start. */
  predicate Refers(row: FileRow, rows: seq<Item>) {
    row.kind == K_FILE && row.ref.BlobRef? && Has(rows, row.ref.h)
  }

  function Repointed(files: seq<FileRow>, origin: seq<FileRow>, rows: seq<Item>, ph: int): (r: seq<FileRow>)
    requires |origin| == |files|
    ensures |r| == |files|
  {
    seq(|files|, i requires 0 <= i < |files| =>
      if Refers(origin[i], rows) then
        var s := SlotIn(rows, origin[i].ref.h);
        FileRow(files[i].kind, PackRef(ph, s.0, s.1))
      else files[i])
  }

  function Digests(rows: seq<Item>): set<int> {
    set it | it in rows :: it.digest
  }

  /** `add_content` of the pack, then `pop` of every member that is not the pack itself. */
  function Stored(cands: Store, rows: seq<Item>, buf: Bytes, ph: int): Store {
    Added(cands, ph, buf, Some(PACK_HINT), None) - (Digests(rows) - {ph})
  }

  function PackOne(st: State, origin: seq<FileRow>, rows: seq<Item>, sha: Digest): State
    requires |origin| == |st.files|
  {
    var buf := Concat(rows);
    State(Repointed(st.files, origin, rows, sha(buf)), Stored(st.cands, rows, buf, sha(buf)))
  }

  /** All packs, one after another. */
  function Run(st: State, groups: seq<seq<Item>>, sha: Digest): (r: State)
    ensures |r.files| == |st.files|
  {
    if groups == [] then st
    else PackOne(Run(st, groups[..|groups| - 1], sha), st.files, groups[|groups| - 1], sha)
  }

  /** A member's slot holds its bytes. */
  lemma {:induction false} SlotReadsBack(rows: seq<Item>, h: int) returns (it: Item)
    requires Has(rows, h)
    ensures it in rows && it.digest == h
    ensures var s := SlotIn(rows, h);
            s.0 + s.1 <= |Concat(rows)| && Concat(rows)[s.0..s.0 + s.1] == it.raw
  {
    var init, last := rows[..|rows| - 1], rows[|rows| - 1];
    assert rows == init + [last];
    if last.digest == h {
      it := last;
      assert Concat(rows)[|Concat(init)|..] == last.raw;
    } else {
      it := SlotReadsBack(init, h);
    }
  }

  // ----- Which contents survive

  /** Groups of a run: members come from the store, no content is in two groups. */
  ghost predicate FromStore(groups: seq<seq<Item>>, cands: Store) {
    && (forall g, it :: g in groups && it in g ==> it.digest in cands && it.raw == cands[it.digest].raw)
    && (forall g :: g in groups ==> g != [])
    && (forall i, j, h | 0 <= i < j < |groups| && Has(groups[i], h) :: !Has(groups[j], h))
  }

  function PackDigest(groups: seq<seq<Item>>, k: nat, sha: Digest): int
    requires k < |groups|
  {
    sha(Concat(groups[k]))
  }

  /** Content `h` is a member of some pack with other bytes, and no later pack spells it again. */
  ghost predicate Dropped(groups: seq<seq<Item>>, h: int, sha: Digest) {
    exists j :: 0 <= j < |groups| && Has(groups[j], h) && PackDigest(groups, j, sha) != h
                && forall m :: j < m < |groups| ==> PackDigest(groups, m, sha) != h
  }

  ghost predicate Written(groups: seq<seq<Item>>, h: int, sha: Digest) {
    exists k :: 0 <= k < |groups| && PackDigest(groups, k, sha) == h
  }

  lemma DroppedStep(groups: seq<seq<Item>>, h: int, sha: Digest)
    requires groups != []
    ensures var n := |groups| - 1;
            Dropped(groups, h, sha) <==>
            PackDigest(groups, n, sha) != h && (Has(groups[n], h) || Dropped(groups[..n], h, sha))
  {
    var n := |groups| - 1;
    var init := groups[..n];
    assert forall k: nat :: k < n ==> PackDigest(init, k, sha) == PackDigest(groups, k, sha);
    if Dropped(groups, h, sha) {
      var j :| 0 <= j < |groups| && Has(groups[j], h) && PackDigest(groups, j, sha) != h
               && forall m :: j < m < |groups| ==> PackDigest(groups, m, sha) != h;
      if j < n {
        assert Has(init[j], h) && PackDigest(init, j, sha) != h;
        assert PackDigest(groups, n, sha) != h;
      }
    }
    if PackDigest(groups, n, sha) != h && Dropped(init, h, sha) {
      var j :| 0 <= j < |init| && Has(init[j], h) && PackDigest(init, j, sha) != h
               && forall m :: j < m < |init| ==> PackDigest(init, m, sha) != h;
      assert Has(groups[j], h);
      forall m | j < m < |groups| ensures PackDigest(groups, m, sha) != h {
        assert m < n ==> PackDigest(init, m, sha) != h;
      }
    }
  }

  /** The store after a run: a content is there exactly when it was there or is a pack, and was not
      dropped; every content keeps its bytes. */
  lemma {:induction false} StoreAfter(st: State, groups: seq<seq<Item>>, sha: Digest)
    requires CollisionFree(sha) && Digested(st.cands, sha)
    ensures var cands := Run(st, groups, sha).cands;
            && Digested(cands, sha)
            && (forall h :: h in cands <==> (h in st.cands || Written(groups, h, sha)) && !Dropped(groups, h, sha))
    ensures forall h :: h in st.cands && h in Run(st, groups, sha).cands ==>
              Run(st, groups, sha).cands[h].raw == st.cands[h].raw
  {
    var after := Run(st, groups, sha).cands;
    if groups != [] {
      var n := |groups| - 1;
      var init, g := groups[..n], groups[n];
      StoreAfter(st, init, sha);
      var before, ph := Run(st, init, sha).cands, sha(Concat(g));
      assert after == Stored(before, g, Concat(g), ph);
      forall h ensures h in after <==> (h in st.cands || Written(groups, h, sha)) && !Dropped(groups, h, sha) {
        DroppedStep(groups, h, sha);
        WrittenStep(groups, h, sha);
        HasDigest(g, h);
      }
    }
  }

  lemma HasDigest(rows: seq<Item>, h: int)
    ensures Has(rows, h) <==> h in Digests(rows)
  {
  }

  lemma WrittenStep(groups: seq<seq<Item>>, h: int, sha: Digest)
    requires groups != []
    ensures Written(groups, h, sha) <==>
            PackDigest(groups, |groups| - 1, sha) == h || Written(groups[..|groups| - 1], h, sha)
  {
    var n := |groups| - 1;
    var init := groups[..n];
    assert forall k: nat :: k < n ==> PackDigest(init, k, sha) == PackDigest(groups, k, sha);
    if Written(init, h, sha) {
      var k :| 0 <= k < |init| && PackDigest(init, k, sha) == h;
      assert PackDigest(groups, k, sha) == h;
    }
    if Written(groups, h, sha) {
      var k :| 0 <= k < |groups| && PackDigest(groups, k, sha) == h;
      assert k == n || PackDigest(init, k, sha) == h;
    }
  }

  lemma RowStep(st: State, groups: seq<seq<Item>>, sha: Digest, i: nat)
    requires i < |st.files| && groups != []
    ensures var n := |groups| - 1;
            var before, after := Run(st, groups[..n], sha).files[i], Run(st, groups, sha).files[i];
            after == if Refers(st.files[i], groups[n]) then
                       var s := SlotIn(groups[n], st.files[i].ref.h);
                       FileRow(before.kind, PackRef(PackDigest(groups, n, sha), s.0, s.1))
                     else before
  {
    hide Has, SlotIn, Concat, Stored;
  }

  lemma InitFromStore(groups: seq<seq<Item>>, cands: Store)
    requires groups != [] && FromStore(groups, cands)
    ensures FromStore(groups[..|groups| - 1], cands)
  {
    hide Has;
    var init := groups[..|groups| - 1];
    assert forall g :: g in init ==> g in groups;
    assert forall a: nat :: a < |init| ==> init[a] == groups[a];
  }

  /** The rows after a run: a row of group `k` names its slice of that pack, all others are as before. */
  lemma {:induction false} FilesAfter(st: State, groups: seq<seq<Item>>, sha: Digest, i: nat)
    requires i < |st.files| && FromStore(groups, st.cands)
    ensures forall k :: 0 <= k < |groups| && Refers(st.files[i], groups[k]) ==>
              var s := SlotIn(groups[k], st.files[i].ref.h);
              Run(st, groups, sha).files[i] == FileRow(st.files[i].kind, PackRef(PackDigest(groups, k, sha), s.0, s.1))
    ensures (forall k :: 0 <= k < |groups| ==> !Refers(st.files[i], groups[k])) ==>
              Run(st, groups, sha).files[i] == st.files[i]
    ensures Run(st, groups, sha).files[i].kind == st.files[i].kind
  {
    hide Run, SlotIn, Concat, Has;
    if groups != [] {
      var n := |groups| - 1;
      var init := groups[..n];
      InitFromStore(groups, st.cands);
      FilesAfter(st, init, sha, i);
      RowStep(st, groups, sha, i);
      forall k | 0 <= k < n && Refers(st.files[i], groups[k])
        ensures PackDigest(init, k, sha) == PackDigest(groups, k, sha) && Refers(st.files[i], init[k])
        ensures !Refers(st.files[i], groups[n])
      {
        assert init[k] == groups[k] && !Has(groups[n], st.files[i].ref.h);
      }
      assert forall k :: 0 <= k < n ==> init[k] == groups[k];
    } else {
      RunNone(st, sha);
    }
  }

  lemma RunNone(st: State, sha: Digest)
    ensures Run(st, [], sha) == st
  {
  }

  // ----- Does every row still stand for the same bytes?

  ghost predicate InGroups(row: FileRow, groups: seq<seq<Item>>) {
    exists k :: 0 <= k < |groups| && Refers(row, groups[k])
  }

  /** A digest that a row's storage names once the packs are made: its pack, or what it names already. */
  ghost predicate Needs(row: FileRow, groups: seq<seq<Item>>, h: int, sha: Digest) {
    if InGroups(row, groups) then
      exists k :: 0 <= k < |groups| && Refers(row, groups[k]) && PackDigest(groups, k, sha) == h
    else h in Names(row.ref)
  }

  /** Something that a row needs was dropped. */
  ghost predicate Bereft(row: FileRow, groups: seq<seq<Item>>, sha: Digest) {
    exists h :: Needs(row, groups, h, sha) && Dropped(groups, h, sha)
  }

  /** What a row names after the run is what it needs. */
  lemma NamesAfter(st: State, groups: seq<seq<Item>>, sha: Digest, i: nat)
    requires i < |st.files| && FromStore(groups, st.cands)
    ensures forall h :: h in Names(Run(st, groups, sha).files[i].ref) <==> Needs(st.files[i], groups, h, sha)
  {
    hide Run, SlotIn, Refers;
    var row := st.files[i];
    FilesAfter(st, groups, sha, i);
    if InGroups(row, groups) {
      var k :| 0 <= k < |groups| && Refers(row, groups[k]);
      OneGroup(row, groups, st.cands, sha, PackDigest(groups, k, sha), k);
      assert Needs(row, groups, PackDigest(groups, k, sha), sha);
    }
  }

  /** A slice of a pack that is in the store reads back the member; of one that is not, nothing. */
  lemma PackedRowResolves(
    row: FileRow, rows: seq<Item>, before: Store, cands: Store, sha: Digest, deflate: Deflate)
    requires CollisionFree(sha) && Digested(cands, sha)
    requires Refers(row, rows) && forall it :: it in rows ==> it.digest in before && it.raw == before[it.digest].raw
    ensures var ph, s := sha(Concat(rows)), SlotIn(rows, row.ref.h);
            Resolve(FileRow(row.kind, PackRef(ph, s.0, s.1)), cands, deflate)
            == if ph in cands then Resolve(row, before, deflate) else None
  {
    hide SlotIn, Has, CollisionFree;
    var ph, s := sha(Concat(rows)), SlotIn(rows, row.ref.h);
    var it := SlotReadsBack(rows, row.ref.h);
    assert row.ref.h in [row.ref.h] && ph in [ph];
    if ph in cands {
      SameDigest(cands[ph].raw, Concat(rows), sha);
    }
  }

  /** What a row names is in the store, or something of it is missing. */
  ghost predicate Served(row: FileRow, groups: seq<seq<Item>>, sha: Digest, store: Store) {
    forall h :: Needs(row, groups, h, sha) ==> h in store
  }

  lemma DigestedAlike(before: Store, store: Store, sha: Digest)
    requires CollisionFree(sha) && Digested(before, sha) && Digested(store, sha)
    ensures forall h :: h in before && h in store ==> store[h].raw == before[h].raw
  {
    forall h | h in before && h in store ensures store[h].raw == before[h].raw {
      SameDigest(store[h].raw, before[h].raw, sha);
    }
  }

  /** A row with a storage of its own that stood for some bytes, read after the run out of any store of
      contents under their digests: the same bytes exactly when the store has all that the row needs, and
      else nothing. */
  lemma RunResolvesIn(st: State, groups: seq<seq<Item>>, sha: Digest, i: nat, store: Store, deflate: Deflate)
    requires i < |st.files| && CollisionFree(sha) && Digested(st.cands, sha) && FromStore(groups, st.cands)
    requires Resolve(st.files[i], st.cands, deflate).Some? && Digested(store, sha)
    ensures Resolve(Run(st, groups, sha).files[i], store, deflate) ==
            if Served(st.files[i], groups, sha, store) then Resolve(st.files[i], st.cands, deflate) else None
  {
    hide Run, Refers, Resolve, CollisionFree, Digested, SlotIn, Concat, Names;
    var row, out := st.files[i], Run(st, groups, sha);
    FilesAfter(st, groups, sha, i);
    if InGroups(row, groups) {
      var k :| 0 <= k < |groups| && Refers(row, groups[k]);
      var ph := PackDigest(groups, k, sha);
      PackedRowResolves(row, groups[k], st.cands, store, sha, deflate);
      OneGroup(row, groups, st.cands, sha, ph, k);
      assert Needs(row, groups, ph, sha);
    } else {
      assert out.files[i] == row;
      DigestedAlike(st.cands, store, sha);
      ResolveAfter(row, st.cands, store, deflate);
    }
  }

  /** Right after the run, with its own store, that is when nothing that the row needs was dropped. */
  lemma RunResolvesExact(st: State, groups: seq<seq<Item>>, sha: Digest, i: nat, deflate: Deflate)
    requires i < |st.files| && CollisionFree(sha) && Digested(st.cands, sha) && FromStore(groups, st.cands)
    requires Resolve(st.files[i], st.cands, deflate).Some?
    ensures var out := Run(st, groups, sha);
            Resolve(out.files[i], out.cands, deflate) ==
            if Bereft(st.files[i], groups, sha) then None else Resolve(st.files[i], st.cands, deflate)
  {
    hide Run, Resolve, Dropped, Written, CollisionFree, Digested, Names, Needs;
    StoreAfter(st, groups, sha);
    ReadableIsMapped(st.files[i], st.cands, deflate);
    NeededIsThere(st, groups, sha, i);
    RunResolvesIn(st, groups, sha, i, Run(st, groups, sha).cands, deflate);
  }

  lemma ReadableIsMapped(row: FileRow, cands: Store, deflate: Deflate)
    requires Resolve(row, cands, deflate).Some?
    ensures RowMapped(row, cands)
  {
    hide Names, Assemble;
  }

  /** What a row needs is a pack, or it is there already if all that it names is. */
  lemma NeededIsThere(st: State, groups: seq<seq<Item>>, sha: Digest, i: nat)
    requires i < |st.files| && RowMapped(st.files[i], st.cands)
    ensures forall h :: Needs(st.files[i], groups, h, sha) ==> h in st.cands || Written(groups, h, sha)
  {
    hide Names, Refers, Written;
    var row := st.files[i];
    forall h | Needs(row, groups, h, sha) ensures h in st.cands || Written(groups, h, sha) {
      if InGroups(row, groups) {
        var k :| 0 <= k < |groups| && Refers(row, groups[k]) && PackDigest(groups, k, sha) == h;
        PackIsWritten(groups, k, sha);
      }
    }
  }

  /** The same for every row that can be read, hard links through the row that they name. */
  lemma RunPreservesExact(st: State, groups: seq<seq<Item>>, sha: Digest, i: nat, deflate: Deflate)
    requires i < |st.files| && CollisionFree(sha) && Digested(st.cands, sha) && FromStore(groups, st.cands)
    requires Read(st.files, st.cands, i, deflate).Some?
    ensures var out := Run(st, groups, sha);
            Read(out.files, out.cands, i, deflate) ==
            if Bereft(st.files[Holder(st.files, i)], groups, sha) then None
            else Read(st.files, st.cands, i, deflate)
  {
    hide Run, Resolve, Bereft, Names;
    HolderAfter(st, groups, sha, i);
    RunResolvesExact(st, groups, sha, Holder(st.files, i), deflate);
  }

  lemma HolderAfter(st: State, groups: seq<seq<Item>>, sha: Digest, i: nat)
    requires i < |st.files| && FromStore(groups, st.cands)
    ensures Holder(Run(st, groups, sha).files, i) == Holder(st.files, i)
  {
    hide Run, SlotIn, Has;
    FilesAfter(st, groups, sha, i);
    if k :| 0 <= k < |groups| && Refers(st.files[i], groups[k]) {
      assert st.files[i].ref.BlobRef?;
    }
  }

  /** `build` can map every digest that the rows name exactly when no row needs a dropped content. */
  lemma RunMapsExact(st: State, groups: seq<seq<Item>>, sha: Digest)
    requires CollisionFree(sha) && Digested(st.cands, sha) && FromStore(groups, st.cands)
    requires Mapped(st.files, st.cands)
    ensures var out := Run(st, groups, sha);
            Mapped(out.files, out.cands) <==> forall row :: row in st.files ==> !Bereft(row, groups, sha)
  {
    hide Run, Refers, Dropped, CollisionFree, Digested, Names, Mapped, Bereft;
    var out := Run(st, groups, sha);
    forall i | 0 <= i < |st.files| ensures RowMapped(out.files[i], out.cands) <==> !Bereft(st.files[i], groups, sha) {
      assert st.files[i] in st.files;
      MappedRows(st.files, st.cands);
      RowMapsExact(st, groups, sha, i);
    }
    MappedRows(out.files, out.cands);
    if Mapped(out.files, out.cands) {
      forall row | row in st.files ensures !Bereft(row, groups, sha) {
        var i :| 0 <= i < |st.files| && st.files[i] == row;
        assert out.files[i] in out.files;
      }
    }
    if forall row :: row in st.files ==> !Bereft(row, groups, sha) {
      forall row | row in out.files ensures RowMapped(row, out.cands) {
        var i :| 0 <= i < |out.files| && out.files[i] == row;
        assert st.files[i] in st.files;
      }
    }
  }

  ghost predicate RowMapped(row: FileRow, cands: Store) {
    forall h :: h in Names(row.ref) ==> h in cands
  }

  lemma MappedRows(files: seq<FileRow>, cands: Store)
    ensures Mapped(files, cands) <==> forall row :: row in files ==> RowMapped(row, cands)
  {
  }

  lemma RowMapsExact(st: State, groups: seq<seq<Item>>, sha: Digest, i: nat)
    requires i < |st.files| && CollisionFree(sha) && Digested(st.cands, sha) && FromStore(groups, st.cands)
    requires RowMapped(st.files[i], st.cands)
    ensures var out := Run(st, groups, sha);
            RowMapped(out.files[i], out.cands) <==> !Bereft(st.files[i], groups, sha)
  {
    hide Run, Refers, Dropped, Written, CollisionFree, Digested, Names;
    var row := st.files[i];
    StoreAfter(st, groups, sha);
    NamesAfter(st, groups, sha, i);
    NeededIsThere(st, groups, sha, i);
  }

  lemma PackIsWritten(groups: seq<seq<Item>>, k: nat, sha: Digest)
    requires k < |groups|
    ensures Written(groups, PackDigest(groups, k, sha), sha)
  {
  }

  lemma OneGroup(row: FileRow, groups: seq<seq<Item>>, cands: Store, sha: Digest, ph: int, k: nat)
    requires FromStore(groups, cands) && k < |groups| && Refers(row, groups[k]) && PackDigest(groups, k, sha) == ph
    ensures forall h :: Needs(row, groups, h, sha) ==> h == ph
  {
    forall h | Needs(row, groups, h, sha) ensures h == ph {
      var m :| 0 <= m < |groups| && Refers(row, groups[m]) && PackDigest(groups, m, sha) == h;
      SoleGroup(groups, cands, m, k, row.ref.h);
    }
  }

  lemma SoleGroup(groups: seq<seq<Item>>, cands: Store, m: nat, k: nat, h: int)
    requires FromStore(groups, cands) && m < |groups| && k < |groups|
    requires Has(groups[m], h) && Has(groups[k], h)
    ensures m == k
  {
  }

  /** A safe input: members are named by regular file rows only, as their whole storage, and no pack
      spells out the content of a member of another pack. */
  ghost predicate Safe(st: State, groups: seq<seq<Item>>, sha: Digest) {
    && (forall row, h, k :: row in st.files && h in Names(row.ref) && 0 <= k < |groups| && Has(groups[k], h)
          ==> Refers(row, groups[k]))
    && (forall j, k :: 0 <= j < |groups| && 0 <= k < |groups| && j != k
          ==> !Has(groups[k], PackDigest(groups, j, sha)))
  }

  /** On safe input packing changes no file's bytes. */
  lemma SafeRunPreserves(st: State, groups: seq<seq<Item>>, sha: Digest, i: nat, deflate: Deflate)
    requires i < |st.files| && CollisionFree(sha) && Digested(st.cands, sha) && FromStore(groups, st.cands)
    requires Read(st.files, st.cands, i, deflate).Some? && Safe(st, groups, sha)
    ensures var out := Run(st, groups, sha);
            Read(out.files, out.cands, i, deflate) == Read(st.files, st.cands, i, deflate)
  {
    hide Read, Run, Names;
    var row := st.files[Holder(st.files, i)];
    RunPreservesExact(st, groups, sha, i, deflate);
    assert row in st.files;
    forall h | Needs(row, groups, h, sha) ensures !Dropped(groups, h, sha) {
      forall j | 0 <= j < |groups| ensures Has(groups[j], h) ==> PackDigest(groups, j, sha) == h {
        NeededMember(st, groups, sha, row, h, j);
      }
    }
  }

  /** On safe input a content that a row needs is a member only of the pack that it is itself. */
  lemma NeededMember(st: State, groups: seq<seq<Item>>, sha: Digest, row: FileRow, h: int, j: nat)
    requires row in st.files && Safe(st, groups, sha) && Needs(row, groups, h, sha) && j < |groups|
    ensures Has(groups[j], h) ==> PackDigest(groups, j, sha) == h
  {
    hide Names;
    if InGroups(row, groups) {
      var k :| 0 <= k < |groups| && Refers(row, groups[k]) && PackDigest(groups, k, sha) == h;
      assert j == k || !Has(groups[j], PackDigest(groups, k, sha));
    } else {
      assert !Refers(row, groups[j]);
    }
  }
}
