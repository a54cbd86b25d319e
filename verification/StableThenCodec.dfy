/** From the stable packer to the v4 codec: packs that follow the file table. */
module StableThenCodec {
  import opened Results
  import opened Sorting
  import opened GreedyCut
  import opened ControlRows
  import opened Descriptors
  import opened Acceptance
  import opened AcceptanceV4
  import opened MicroPackBuilder
  import opened PackLayout
  import opened PackThenCodec
  import opened PolicyThenCodec
  import LP = LocalityPack
  import PackRun
  import Storages
  import V4 = PackMapV4

  // ----- Packs in the order of the file table

  /** Each eligible content is the storage of exactly one row. */
  ghost predicate OneRowEach(items: seq<Item>, refs: Refs) {
    forall it :: it in items ==> |NamedBy(refs, it.digest)| == 1
  }

  ghost predicate RowsFollow(items: seq<Item>, refs: Refs) {
    forall i, j | 0 <= i < j < |items| :: RowOf(refs, items[i].digest) < RowOf(refs, items[j].digest)
  }

  lemma StableFollows(items: seq<Item>, files: seq<Storages.FileRow>)
    requires Ascending(items, StableKey(RefsOf(files)))
    requires PackRun.DistinctDigests(items) && OneRowEach(items, RefsOf(files))
    ensures RowsFollow(items, RefsOf(files))
  {
    hide RefsOf, RowOf, Lookup, NamedBy;
    var refs := RefsOf(files);
    forall i, j | 0 <= i < j < |items| ensures RowOf(refs, items[i].digest) < RowOf(refs, items[j].digest) {
      assert Le(StableKey(refs)(items[i]), StableKey(refs)(items[j]));
      assert items[i] in items && items[j] in items && items[i].digest != items[j].digest;
      NamedExact(files, items[i].digest);
      NamedExact(files, items[j].digest);
      StableKeyIsRow(refs, items[i]);
      StableKeyIsRow(refs, items[j]);
      OneRowIs(refs, items[i].digest);
      OneRowIs(refs, items[j].digest);
      assert RowOf(refs, items[i].digest) in NamedBy(refs, items[i].digest);
      assert RowOf(refs, items[j].digest) in NamedBy(refs, items[j].digest);
    }
  }

  lemma StableKeyIsRow(refs: Refs, it: Item)
    ensures StableKey(refs)(it) == (RowOf(refs, it.digest), it.digest, 0)
  {
  }

  lemma OneRowIs(refs: Refs, h: int)
    requires |NamedBy(refs, h)| == 1
    ensures NamedBy(refs, h) == [RowOf(refs, h)]
  {
  }

  /** Members of different groups, in the list of all of them. */
  lemma {:induction false} FlattenOrder(groups: seq<seq<Item>>, j: nat, a: nat, k: nat, b: nat) returns (p: nat, q: nat)
    requires j < |groups| && k < |groups| && a < |groups[j]| && b < |groups[k]| && (j < k || (j == k && a < b))
    ensures p < q < |Flatten(groups)| && Flatten(groups)[p] == groups[j][a] && Flatten(groups)[q] == groups[k][b]
  {
    var g, rest := groups[0], groups[1..];
    if j > 0 {
      p, q := FlattenOrder(rest, j - 1, a, k - 1, b);
      p, q := p + |g|, q + |g|;
    } else if k > 0 {
      q := FlattenAt(rest, k - 1, b);
      p, q := a, q + |g|;
    } else {
      p, q := a, b;
    }
  }

  lemma {:induction false} FlattenAt(groups: seq<seq<Item>>, k: nat, b: nat) returns (q: nat)
    requires k < |groups| && b < |groups[k]|
    ensures q < |Flatten(groups)| && Flatten(groups)[q] == groups[k][b]
  {
    if k == 0 {
      q := b;
    } else {
      q := FlattenAt(groups[1..], k - 1, b);
      q := q + |groups[0]|;
    }
  }

  lemma {:induction false} PackRowsSingle(rows: seq<Item>, refs: Refs)
    requires OneRowEach(rows, refs)
    ensures |PackRows(rows, refs)| == |rows|
    ensures forall i :: 0 <= i < |rows| ==> PackRows(rows, refs)[i] == RowOf(refs, rows[i].digest)
  {
    hide NamedBy, RowOf;
    if rows != [] {
      var init, last := rows[..|rows| - 1], rows[|rows| - 1];
      assert rows == init + [last] && last in rows;
      PackRowsSingle(init, refs);
      OneRowIs(refs, last.digest);
    }
  }

  /** Packs that follow the file table, one row for each content, are orderly and apart from each other. */
  lemma FollowingIsOrderly(groups: seq<seq<Item>>, refs: Refs)
    requires RowsFollow(Flatten(groups), refs) && forall g :: g in groups ==> g != [] && OneRowEach(g, refs)
    ensures AllOrderly(groups, refs) && Apart(NewRows(groups, refs))
  {
    hide NamedBy, RowOf, MinOf, LastOf, PackRows, Contiguous;
    forall g | g in groups ensures Orderly(g, refs) {
      var k :| 0 <= k < |groups| && groups[k] == g;
      FollowingPack(groups, refs, k);
    }
    var lists := NewRows(groups, refs);
    forall l, m | l in lists && m in lists && Contiguous(l) && MinOf(m) < MinOf(l) ensures LastOf(m) < MinOf(l) {
      var j :| 0 <= j < |lists| && lists[j] == l;
      var k :| 0 <= k < |lists| && lists[k] == m;
      assert groups[j] in groups && groups[k] in groups;
      FollowingApart(groups, refs, j, k);
    }
  }

  lemma FollowingPack(groups: seq<seq<Item>>, refs: Refs, k: nat)
    requires k < |groups| && RowsFollow(Flatten(groups), refs) && OneRowEach(groups[k], refs)
    ensures Orderly(groups[k], refs)
  {
    hide NamedBy, RowOf, RowsFollow;
    var g := groups[k];
    forall i | 0 <= i < |g| - 1
      ensures NamedBy(refs, g[i].digest) == [RowOf(refs, g[i].digest)]
      ensures RowOf(refs, g[i].digest) < RowOf(refs, g[i + 1].digest)
    {
      assert g[i] in g;
      OneRowIs(refs, g[i].digest);
      NextRow(groups, refs, k, i);
    }
  }

  lemma NextRow(groups: seq<seq<Item>>, refs: Refs, k: nat, i: nat)
    requires k < |groups| && i < |groups[k]| - 1 && RowsFollow(Flatten(groups), refs)
    ensures RowOf(refs, groups[k][i].digest) < RowOf(refs, groups[k][i + 1].digest)
  {
    hide RowOf;
    var p, q := FlattenOrder(groups, k, i, k, i + 1);
  }

  lemma FollowingApart(groups: seq<seq<Item>>, refs: Refs, j: nat, k: nat)
    requires j < |groups| && k < |groups| && RowsFollow(Flatten(groups), refs)
    requires groups[j] != [] && groups[k] != [] && OneRowEach(groups[j], refs) && OneRowEach(groups[k], refs)
    requires MinOf(PackRows(groups[k], refs)) < MinOf(PackRows(groups[j], refs))
    ensures LastOf(PackRows(groups[k], refs)) < MinOf(PackRows(groups[j], refs))
  {
    hide NamedBy, RowOf, MinOf, PackRows, RowsFollow;
    var l, m := PackRows(groups[j], refs), PackRows(groups[k], refs);
    PackRowsSingle(groups[j], refs);
    PackRowsSingle(groups[k], refs);
    MinOfExact(l);
    MinOfExact(m);
    MaxOfExact(m);
    var a :| 0 <= a < |l| && l[a] == MinOf(l);
    var b :| 0 <= b < |m| && m[b] == MinOf(m);
    var c :| 0 <= c < |m| && m[c] == V4.MaxOf(m);
    assert l[a] in l && m[b] in m;
    RowsCompare(groups, refs, j, a, k, b);
    RowsCompare(groups, refs, j, a, k, c);
  }

  lemma RowsCompare(groups: seq<seq<Item>>, refs: Refs, j: nat, a: nat, k: nat, b: nat)
    requires RowsFollow(Flatten(groups), refs)
    requires j < |groups| && k < |groups| && a < |groups[j]| && b < |groups[k]|
    ensures j < k ==> RowOf(refs, groups[j][a].digest) < RowOf(refs, groups[k][b].digest)
    ensures k < j ==> RowOf(refs, groups[k][b].digest) < RowOf(refs, groups[j][a].digest)
  {
    hide RowOf;
    if j < k {
      var p, q := FlattenOrder(groups, j, a, k, b);
    } else if k < j {
      var p, q := FlattenOrder(groups, k, b, j, a);
    }
  }

  /** Any packs that follow the file table, under any ids that tell them apart: v4 accepts the table exactly
      when what was packed before adds up and does not straddle; if there is no such thing, it does. */
  lemma PacksInFileOrder(
    st: PackRun.State, groups: seq<seq<Item>>, sha: Storages.Digest, blobOf: int -> int, f: seq<Row>)
    requires Site(st, groups, sha, blobOf, f) && DistinctIds(st.files, groups, sha, blobOf)
    requires RowsFollow(Flatten(groups), RefsOf(st.files))
    requires forall g :: g in groups ==> OneRowEach(g, RefsOf(st.files))
    ensures var lists := EarlierRows(st.files, blobOf) + NewRows(groups, RefsOf(st.files));
            AcceptedV4(f) <==> OffsetsAreSums(Earlier(st.files, blobOf)) && Apart(lists)
    ensures (forall row :: row in st.files ==> !row.ref.PackRef?) ==> AcceptedV4(f)
  {
    hide RefsOf, PackRun.Run, AcceptedV4, RowsFollow, OneRowEach, DistinctIds, Apart, NewRows, OffsetsAreSums, Earlier,
         EarlierRows, Renders;
    FollowingIsOrderly(groups, RefsOf(st.files));
    AcceptedExact(st, groups, sha, blobOf, f);
    if forall row :: row in st.files ==> !row.ref.PackRef? {
      NothingEarlier(st.files, blobOf);
      assert [] + NewRows(groups, RefsOf(st.files)) == NewRows(groups, RefsOf(st.files));
    }
  }

  lemma {:induction false} NothingEarlier(files: seq<Storages.FileRow>, blobOf: int -> int)
    requires forall row :: row in files ==> !row.ref.PackRef?
    ensures Earlier(files, blobOf) == [] && EarlierRows(files, blobOf) == []
    ensures OffsetsAreSums(Earlier(files, blobOf))
  {
    if files != [] {
      NothingEarlier(files[..|files| - 1], blobOf);
    }
  }

  // ----- The stable packer

  lemma StableBucket(st: PackRun.State, target: int, maxFile: int)
    requires |BucketsOf(st, maxFile)| <= 1
    ensures Ascending(Flatten(Packs(st, target, maxFile, Stable)), StableKey(RefsOf(st.files)))
  {
    hide RefsOf, BucketsOf, StableKey, LP.Law;
    var refs, buckets := RefsOf(st.files), BucketsOf(st, maxFile);
    var groups := Packs(st, target, maxFile, Stable);
    if buckets != [] {
      var ordered := Sort(buckets[0].members, StableKey(refs));
      assert |buckets| == 1 && buckets[..0] == [];
      assert PlanAll([], refs, target, Stable) == [];
      assert PlanAll(buckets, refs, target, Stable) == [] + Plan(buckets[0].members, refs, target, Stable);
      assert groups == Cut(ordered, LP.Law(target));
      CutPartitions([], ordered, LP.Law(target));
      assert [] + ordered == ordered;
      SortAscends(buckets[0].members, StableKey(refs));
    }
  }

  /** With one extension bucket the stable packer's packs follow the file table. */
  lemma StableInFileOrder(st: PackRun.State, target: int, maxFile: int)
    requires |BucketsOf(st, maxFile)| <= 1
    requires OneRowEach(EligibleItems(RefsOf(st.files), st.cands, maxFile), RefsOf(st.files))
    ensures var groups := Packs(st, target, maxFile, Stable);
            && RowsFollow(Flatten(groups), RefsOf(st.files))
            && forall g :: g in groups ==> OneRowEach(g, RefsOf(st.files))
  {
    hide RefsOf, BucketsOf, EligibleItems, Packs, StableKey, NamedBy;
    var refs, groups := RefsOf(st.files), Packs(st, target, maxFile, Stable);
    var items, all := EligibleItems(refs, st.cands, maxFile), Flatten(groups);
    PacksAreSound(st, target, maxFile, Stable);
    StableBucket(st, target, maxFile);
    EligibleExact(st, maxFile);
    SoundPermutes(items, all, st.cands);
    MembersMatch(items, all);
    StableFollows(all, st.files);
    forall g, it | g in groups && it in g ensures |NamedBy(refs, it.digest)| == 1 {
      FlattenMember(groups, it);
    }
  }

  /** With one extension bucket, whatever the target and however the ids are ordered: if each packed
      content is named by one row, the packs have ids of their own and nothing was packed before, the v4
      encoder accepts the table that the stable packer leaves behind, and if no content is empty, only then;
      decoding gives back every row's blob, offset and length. */
  lemma StablePackThenCodec(
    st: PackRun.State, target: int, maxFile: int, sha: Storages.Digest, blobOf: int -> int, c: Control)
    requires Storages.Digested(st.cands, sha) && |BucketsOf(st, maxFile)| <= 1
    requires Renders(c.f, Built(st, target, maxFile, Stable, sha).files, blobOf)
    ensures var groups := Packs(st, target, maxFile, Stable);
            var orderly := OneRowEach(EligibleItems(RefsOf(st.files), st.cands, maxFile), RefsOf(st.files))
                           && DistinctIds(st.files, groups, sha, blobOf);
            (forall row :: row in st.files ==> !row.ref.PackRef?) ==>
              && (orderly ==> V4.Compact(c).Ok?)
              && ((forall g, it :: g in groups && it in g ==> it.raw != []) ==> (V4.Compact(c).Ok? <==> orderly))
    ensures V4.Compact(c).Ok? && (forall h :: blobOf(h) >= 0) ==> V4.Decompact(V4.Compact(c).value) == Ok(c)
  {
    hide RefsOf, BucketsOf, EligibleItems, Packs, Built, V4.Encode, V4.Decompact, OneRowEach, V4.Ordered, NoStraddle,
         Packed, Renders, Site, RowsFollow, Earlier, EarlierRows, NewRows, Apart, DistinctIds, OffsetsAreSums;
    var refs, groups := RefsOf(st.files), Packs(st, target, maxFile, Stable);
    BuildSite(st, target, maxFile, Stable, sha, blobOf, c.f);
    if forall row :: row in st.files ==> !row.ref.PackRef? {
      if OneRowEach(EligibleItems(refs, st.cands, maxFile), refs) && DistinctIds(st.files, groups, sha, blobOf) {
        StableInFileOrder(st, target, maxFile);
        PacksInFileOrder(st, groups, sha, blobOf, c.f);
      } else if forall g, it :: g in groups && it in g ==> it.raw != [] {
        UntidyRefused(st, target, maxFile, Stable, sha, blobOf, c.f);
      }
    }
    if V4.Compact(c).Ok? && forall h :: blobOf(h) >= 0 {
      V4.RoundTrip(c);
      BlobsAreIds(c.f, Built(st, target, maxFile, Stable, sha).files, blobOf);
    }
  }

  lemma UntidyRefused(
    st: PackRun.State, target: int, maxFile: int, policy: Policy, sha: Storages.Digest, blobOf: int -> int,
    f: seq<Row>)
    requires Site(st, Packs(st, target, maxFile, policy), sha, blobOf, f)
    requires forall row :: row in st.files ==> !row.ref.PackRef?
    requires forall g, it :: g in Packs(st, target, maxFile, policy) && it in g ==> it.raw != []
    requires !OneRowEach(EligibleItems(RefsOf(st.files), st.cands, maxFile), RefsOf(st.files))
             || !DistinctIds(st.files, Packs(st, target, maxFile, policy), sha, blobOf)
    ensures !AcceptedV4(f)
  {
    hide RefsOf, EligibleItems, Packs, Packed, Renders, NoStraddle, OffsetsAreSums, NamedBy, AcceptedV4, Mentioned,
         AtMostOneEmpty;
    var refs, groups := RefsOf(st.files), Packs(st, target, maxFile, policy);
    forall g | g in groups ensures g != [] && HasBytes(g) {
      assert g[0] in g;
    }
    if !OneRowEach(EligibleItems(refs, st.cands, maxFile), refs) {
      var it :| it in EligibleItems(refs, st.cands, maxFile) && |NamedBy(refs, it.digest)| != 1;
      PacksAreSound(st, target, maxFile, policy);
      MembersMatch(EligibleItems(refs, st.cands, maxFile), Flatten(groups));
      FlattenMember(groups, it);
      var g :| g in groups && it in g;
      var k :| 0 <= k < |groups| && groups[k] == g;
      assert !Orderly(g, refs);
      DisorderRefused(st, groups, sha, blobOf, f, k);
    } else {
      var j, k :| 0 <= j < k < |groups| && BlobsOf(groups, sha, blobOf)[j] == BlobsOf(groups, sha, blobOf)[k];
      assert groups[j] in groups && groups[k] in groups;
      SharedIdRefused(st, groups, sha, blobOf, f, j, k);
    }
    AcceptedV4Exact(f);
  }

  lemma BlobsAreIds(f: seq<Row>, files: seq<Storages.FileRow>, blobOf: int -> int)
    requires Renders(f, files, blobOf) && forall h :: blobOf(h) >= 0
    ensures forall s :: s in Packed(f) ==> s.blob >= 0
  {
    PackedSound(f);
  }
}
