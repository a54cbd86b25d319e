/** From the packers to the codecs: the packed rows of the file table that a build leaves behind. */
module PackThenCodec {
  import opened Grouping
  import opened ControlRows
  import opened Descriptors
  import opened PackLayout
  import LP = LocalityPack
  import PackRun
  import Storages
  import opened MicroPackBuilder

  type Item = LP.Item

  /** The compact table of the builder's file rows: a packed row keeps its offset and length, and its
      pack is named by blob id instead of digest. */
  ghost predicate Renders(f: seq<Row>, files: seq<Storages.FileRow>, blobOf: int -> int) {
    && |f| == |files|
    && forall i :: 0 <= i < |f| ==>
         && (IsPacked(f[i]) <==> files[i].ref.PackRef?)
         && (IsPacked(f[i]) ==> f[i].field == Slice(blobOf(files[i].ref.h), files[i].ref.off, files[i].ref.len))
  }

  // ----- Rows that were packed before, and rows that name a member

  /** The slots of the rows that are packed already: `scan` packs eight or more nested archives. */
  function Earlier(files: seq<Storages.FileRow>, blobOf: int -> int): (r: seq<Slot>)
    ensures forall s :: s in r ==> s.len >= 0
  {
    if files == [] then []
    else
      var last := |files| - 1;
      var ref := files[last].ref;
      Earlier(files[..last], blobOf) + if ref.PackRef? then [Slot(last, blobOf(ref.h), ref.off, ref.len)] else []
  }

  predicate IsEarlier(files: seq<Storages.FileRow>, blobOf: int -> int, s: Slot) {
    && 0 <= s.fi < |files| && files[s.fi].ref.PackRef?
    && s == Slot(s.fi, blobOf(files[s.fi].ref.h), files[s.fi].ref.off, files[s.fi].ref.len)
  }

  lemma {:induction false} EarlierExact(files: seq<Storages.FileRow>, blobOf: int -> int)
    ensures forall s :: s in Earlier(files, blobOf) <==> IsEarlier(files, blobOf, s)
    ensures FileAscending(Earlier(files, blobOf))
  {
    if files != [] {
      var last := |files| - 1;
      var init, ref := files[..last], files[last].ref;
      var before, all := Earlier(init, blobOf), Earlier(files, blobOf);
      EarlierExact(init, blobOf);
      forall i | 0 <= i < |before| ensures before[i].fi < last {
        assert before[i] in before;
      }
      assert all == if ref.PackRef? then before + [Slot(last, blobOf(ref.h), ref.off, ref.len)] else before;
      forall s ensures s in all <==> IsEarlier(files, blobOf, s) {
        assert s in before <==> IsEarlier(init, blobOf, s);
        assert 0 <= s.fi < last ==> init[s.fi] == files[s.fi];
      }
    }
  }

  lemma NamedExact(files: seq<Storages.FileRow>, h: int)
    ensures forall fi :: fi in NamedBy(RefsOf(files), h) <==>
              0 <= fi < |files| && IsMention(files[fi]) && files[fi].ref.h == h
  {
    hide Lookup, RefsOf;
    LookupExact(files, h);
    var ms := Lookup(RefsOf(files), h);
    forall fi ensures fi in NamedBy(RefsOf(files), h) <==> Mention(fi, h) in ms {
      if fi in NamedBy(RefsOf(files), h) {
        var k :| 0 <= k < |ms| && ms[k].fi == fi;
        assert ms[k] in ms;
      }
      if Mention(fi, h) in ms {
        var k :| 0 <= k < |ms| && ms[k] == Mention(fi, h);
        assert RowsOf(ms)[k] == fi;
      }
    }
  }

  lemma RefsAscend(files: seq<Storages.FileRow>)
    ensures RowsAscending(RefsOf(files))
  {
    hide Lookup;
    GroupByGroups(Mentions(files), HashOf);
    MentionsExact(files);
    forall h ensures RowsAscend(Lookup(RefsOf(files), h)) {
      LookupIsWithKey(RefsOf(files), Mentions(files), h);
      WithKeyAscends(Mentions(files), h);
    }
  }

  lemma {:induction false} WithKeyAscends(ms: seq<Mention>, h: int)
    requires RowsAscend(ms)
    ensures RowsAscend(WithKey(ms, HashOf, h))
  {
    hide WithKey;
    if ms != [] {
      var init, last := ms[..|ms| - 1], ms[|ms| - 1];
      assert ms == init + [last];
      WithKeyAscends(init, h);
      WithKeyAppend(init, last, HashOf, h);
      forall m | m in init ensures m.fi < last.fi {
        var k :| 0 <= k < |init| && init[k] == m;
        assert ms[k] == m;
      }
      OneMoreMention(WithKey(init, HashOf, h), last);
    } else {
      WithKeyNone(ms, HashOf, h);
    }
  }

  lemma OneMoreMention(ms: seq<Mention>, m: Mention)
    requires RowsAscend(ms) && forall x :: x in ms ==> x.fi < m.fi
    ensures RowsAscend(ms + [m])
  {
    assert forall i :: 0 <= i < |ms| ==> ms[i] in ms;
  }

  // ----- The packed rows of the finished table

  /** A run of packs, rendered as a compact table. */
  ghost predicate Scene(
    st: PackRun.State, groups: seq<seq<Item>>, sha: Storages.Digest, blobOf: int -> int, f: seq<Row>)
  {
    && PackRun.FromStore(groups, st.cands)
    && (forall g :: g in groups ==> PackRun.DistinctDigests(g))
    && Renders(f, PackRun.Run(st, groups, sha).files, blobOf)
  }

  function BlobsOf(groups: seq<seq<Item>>, sha: Storages.Digest, blobOf: int -> int): (r: seq<int>)
    ensures |r| == |groups|
  {
    seq(|groups|, k requires 0 <= k < |groups| => blobOf(PackRun.PackDigest(groups, k, sha)))
  }

  /** Packs `groups`, the k-th one under the id `blobs[k]`. */
  function Labelled(groups: seq<seq<Item>>, refs: Refs, blobs: seq<int>): (r: seq<PackGroup>)
    requires |blobs| == |groups|
    ensures |r| == |groups|
  {
    seq(|groups|, k requires 0 <= k < |groups| => Bucket(blobs[k], PackSlots(groups[k], refs, blobs[k])))
  }

  /** A row that names a member has that member's slot, */
  lemma MemberIsPacked(
    st: PackRun.State, groups: seq<seq<Item>>, sha: Storages.Digest, blobOf: int -> int, f: seq<Row>, k: nat, i: nat)
    requires Scene(st, groups, sha, blobOf, f)
    requires k < |groups| && i < |st.files| && PackRun.Refers(st.files[i], groups[k])
    ensures SlotAt(i, groups[k], BlobsOf(groups, sha, blobOf)[k], st.files[i].ref.h) in Packed(f)
  {
    hide PackRun.Run, PackRun.SlotIn, PackRun.Has;
    PackRun.FilesAfter(st, groups, sha, i);
    PackedComplete(f, i);
  }

  /** a row that was packed before keeps its slot, */
  lemma EarlierIsPacked(
    st: PackRun.State, groups: seq<seq<Item>>, sha: Storages.Digest, blobOf: int -> int, f: seq<Row>, s: Slot)
    requires Scene(st, groups, sha, blobOf, f) && s in Earlier(st.files, blobOf)
    ensures s in Packed(f)
  {
    hide PackRun.Run, PackRun.SlotIn, PackRun.Has;
    EarlierExact(st.files, blobOf);
    PackRun.FilesAfter(st, groups, sha, s.fi);
    PackedComplete(f, s.fi);
  }

  /** and there are no other packed rows. */
  lemma PackedIsMember(
    st: PackRun.State, groups: seq<seq<Item>>, sha: Storages.Digest, blobOf: int -> int, f: seq<Row>, s: Slot)
    returns (k: nat)
    requires Scene(st, groups, sha, blobOf, f) && s in Packed(f) && s !in Earlier(st.files, blobOf)
    ensures k < |groups| && 0 <= s.fi < |st.files| && PackRun.Refers(st.files[s.fi], groups[k])
    ensures s == SlotAt(s.fi, groups[k], BlobsOf(groups, sha, blobOf)[k], st.files[s.fi].ref.h)
  {
    hide PackRun.Run, PackRun.SlotIn, PackRun.Has;
    PackedSound(f);
    EarlierExact(st.files, blobOf);
    PackRun.FilesAfter(st, groups, sha, s.fi);
    k :| 0 <= k < |groups| && PackRun.Refers(st.files[s.fi], groups[k]);
  }

  lemma SlotOfMember(files: seq<Storages.FileRow>, rows: seq<Item>, blob: int, s: Slot)
    requires PackRun.DistinctDigests(rows)
    ensures s in PackSlots(rows, RefsOf(files), blob) <==>
            && 0 <= s.fi < |files| && PackRun.Refers(files[s.fi], rows)
            && s == SlotAt(s.fi, rows, blob, files[s.fi].ref.h)
  {
    hide PackRun.SlotIn, RefsOf, NamedBy;
    PackSlotsExact(rows, RefsOf(files), blob, s);
    forall it | it in rows
      ensures s.fi in NamedBy(RefsOf(files), it.digest) <==>
              0 <= s.fi < |files| && IsMention(files[s.fi]) && files[s.fi].ref.h == it.digest
    {
      NamedExact(files, it.digest);
    }
  }

  /** The packed rows of the finished table are exactly those that were packed before and the slots of the
      packs. */
  lemma SameSlots(
    st: PackRun.State, groups: seq<seq<Item>>, sha: Storages.Digest, blobOf: int -> int, f: seq<Row>, s: Slot)
    requires Scene(st, groups, sha, blobOf, f)
    ensures var packs := Labelled(groups, RefsOf(st.files), BlobsOf(groups, sha, blobOf));
            s in Packed(f) <==> s in Earlier(st.files, blobOf) || exists g :: g in packs && s in g.members
  {
    hide RefsOf, PackRun.SlotIn, PackRun.Run, PackRun.Refers, Packed, Earlier, Renders, PackSlots;
    var refs, blobs := RefsOf(st.files), BlobsOf(groups, sha, blobOf);
    var packs := Labelled(groups, refs, blobs);
    if s in Earlier(st.files, blobOf) {
      EarlierIsPacked(st, groups, sha, blobOf, f, s);
    } else if s in Packed(f) {
      var k := PackedIsMember(st, groups, sha, blobOf, f, s);
      assert groups[k] in groups;
      SlotOfMember(st.files, groups[k], blobs[k], s);
      assert packs[k] in packs && s in packs[k].members;
    }
    if g :| g in packs && s in g.members {
      var k :| 0 <= k < |packs| && packs[k] == g;
      assert groups[k] in groups;
      SlotOfMember(st.files, groups[k], blobs[k], s);
      MemberIsPacked(st, groups, sha, blobOf, f, k, s.fi);
    }
  }

  lemma SceneLengths(
    st: PackRun.State, groups: seq<seq<Item>>, sha: Storages.Digest, blobOf: int -> int, f: seq<Row>)
    requires Scene(st, groups, sha, blobOf, f)
    ensures NonNegativeLengths(Packed(f))
  {
    hide Scene, Packed, Earlier, PackSlots;
    forall s | s in Packed(f) ensures s.len >= 0 {
      SameSlots(st, groups, sha, blobOf, f, s);
      var packs := Labelled(groups, RefsOf(st.files), BlobsOf(groups, sha, blobOf));
    }
  }
}
