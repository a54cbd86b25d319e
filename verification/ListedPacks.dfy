/** Layouts that list their packs one after another in the file table, each in its own row order: the
    v4 encoder accepts all of them. */
module ListedPacks {
  import opened Sorting
  import opened Grouping
  import opened ControlRows
  import opened Descriptors
  import opened Acceptance
  import opened AcceptanceV4
  import opened AcceptanceV3

  /** A pack laid out from offset 0 without gaps. */
  ghost predicate LaidOut(g: PackGroup) {
    && g.members != []
    && (forall s :: s in g.members ==> s.blob == g.key)
    && Tiles(g.members, 0)
    && NonNegativeLengths(g.members)
  }

  ghost predicate AllLaidOut(packs: seq<PackGroup>) {
    forall g :: g in packs ==> LaidOut(g)
  }

  lemma {:induction false} WithKeyConcat(a: seq<Slot>, b: seq<Slot>, key: int)
    ensures Of(a + b, key) == Of(a, key) + Of(b, key)
  {
    if b == [] {
      assert a + b == a;
    } else {
      var init, x := b[..|b| - 1], b[|b| - 1];
      assert b == init + [x] && a + b == (a + init) + [x];
      WithKeyConcat(a, init, key);
      WithKeyAppend(a + init, x, BlobOf, key);
      WithKeyAppend(init, x, BlobOf, key);
    }
  }

  lemma {:induction false} OfAll(a: seq<Slot>, key: int)
    requires forall s :: s in a ==> s.blob == key
    ensures Of(a, key) == a
  {
    if a != [] {
      var init, x := a[..|a| - 1], a[|a| - 1];
      assert a == init + [x];
      OfAll(init, key);
      WithKeyAppend(init, x, BlobOf, key);
    }
  }

  lemma OfNone(a: seq<Slot>, key: int)
    requires forall s :: s in a ==> s.blob != key
    ensures Of(a, key) == []
  {
    WithKeyNone(a, BlobOf, key);
  }

  lemma ListedBlobs(packs: seq<PackGroup>, s: Slot)
    requires AllLaidOut(packs) && s in Listed(packs)
    ensures HasKey(packs, s.blob)
  {
    ListedMember(packs, s);
  }

  lemma RestAvoids(packs: seq<PackGroup>)
    requires packs != [] && DistinctKeys(packs) && AllLaidOut(packs)
    ensures DistinctKeys(packs[1..]) && AllLaidOut(packs[1..])
    ensures forall s :: s in Listed(packs[1..]) ==> s.blob != packs[0].key
  {
    var rest := packs[1..];
    assert packs == [packs[0]] + rest;
    forall s: Slot | s in Listed(rest) ensures s.blob != packs[0].key {
      ListedBlobs(rest, s);
      var r :| r in rest && r.key == s.blob;
      var j :| 0 <= j < |rest| && rest[j] == r;
      assert packs[j + 1] == r;
    }
  }

  /** Filtering the listing by a pack's id gives that pack's members. */
  lemma {:induction false} OfListed(packs: seq<PackGroup>, k: nat)
    requires k < |packs| && DistinctKeys(packs) && AllLaidOut(packs)
    ensures Of(Listed(packs), packs[k].key) == packs[k].members
  {
    var g, rest := packs[0], packs[1..];
    assert packs == [g] + rest;
    assert LaidOut(g);
    RestAvoids(packs);
    WithKeyConcat(g.members, Listed(rest), packs[k].key);
    if k == 0 {
      OfAll(g.members, g.key);
      OfNone(Listed(rest), g.key);
    } else {
      assert packs[k] == rest[k - 1] && packs[0].key != packs[k].key;
      OfNone(g.members, packs[k].key);
      OfListed(rest, k - 1);
    }
  }

  lemma {:induction false} TilesAscend(members: seq<Slot>, offset: int)
    requires Tiles(members, offset) && NonNegativeLengths(members) && FileAscending(members)
    ensures Ascending(members, SlotKey)
    ensures forall s :: s in members ==> s.off >= offset
  {
    if members != [] {
      var m, rest := members[0], members[1..];
      assert members == [m] + rest && m in members;
      TilesAscend(rest, offset + m.len);
      forall i, j | 0 <= i < j < |members| ensures Le(SlotKey(members[i]), SlotKey(members[j])) {
        if i == 0 {
          assert members[j] in rest;
        } else {
          assert Le(SlotKey(rest[i - 1]), SlotKey(rest[j - 1]));
        }
      }
    }
  }

  lemma {:induction false} ListedBlocked(packs: seq<PackGroup>)
    requires DistinctKeys(packs) && AllLaidOut(packs)
    ensures Blocked(Listed(packs))
  {
    if packs != [] {
      var g, rest := packs[0], packs[1..];
      assert packs == [g] + rest && LaidOut(g);
      RestAvoids(packs);
      ListedBlocked(rest);
      BlockedAppend(g.members, Listed(rest), g.key);
    }
  }

  lemma BlockedAppend(a: seq<Slot>, b: seq<Slot>, key: int)
    requires forall s :: s in a ==> s.blob == key
    requires forall s :: s in b ==> s.blob != key
    requires Blocked(b)
    ensures Blocked(a + b)
  {
    var all := a + b;
    forall i, j, k | 0 <= i < j < k < |all| && BlobAt(all, i) == BlobAt(all, k)
      ensures BlobAt(all, j) == BlobAt(all, i)
    {
      if i < |a| {
        assert all[i] in a;
        assert forall x :: |a| <= x < |all| ==> all[x] in b;
        assert all[j] in a;
      } else {
        assert BlobAt(b, i - |a|) == BlobAt(b, k - |a|);
        assert BlobAt(b, j - |a|) == BlobAt(b, i - |a|);
      }
    }
  }

  /** Packs listed one after another are accepted, whatever their ids. */
  lemma ListedPacksAccepted(packs: seq<PackGroup>, f: seq<Row>)
    requires DistinctKeys(packs) && AllLaidOut(packs) && Listed(packs) == Packed(f)
    ensures AcceptedV4(f)
  {
    hide Tiles, Pack, Of, Blocked, NoStraddle, OffsetsAreSums;
    var slots := Packed(f);
    PackedSound(f);
    forall b ensures Tiles(Pack(slots, b), 0) {
      PackTiles(packs, slots, b);
    }
    TiledIsSums(slots);
    forall s | s in slots ensures s.len >= 0 {
      ListedMember(packs, s);
      var g :| g in packs && s in g.members;
      assert LaidOut(g);
    }
    ListedBlocked(packs);
    BlockedNoStraddle(slots);
    AcceptedV4Exact(f);
  }

  lemma PackTiles(packs: seq<PackGroup>, slots: seq<Slot>, b: int)
    requires DistinctKeys(packs) && AllLaidOut(packs) && Listed(packs) == slots && FileAscending(slots)
    ensures Tiles(Pack(slots, b), 0)
  {
    if HasKey(packs, b) {
      var k := PositionOf(packs, b);
      OfListed(packs, k);
      OfAscends(slots, b);
      assert packs[k] in packs && LaidOut(packs[k]);
      TilesAscend(packs[k].members, 0);
      SortKeepsOrder(packs[k].members, SlotKey);
    } else {
      forall s | s in slots ensures s.blob != b {
        ListedBlobs(packs, s);
      }
      OfNone(slots, b);
    }
  }
}
