/** The patched `_build_micro_packs`: which contents are eligible, how they are grouped, and the loops
    that rewrite the builder's rows and store. */
module MicroPackBuilder {
  import opened Results
  import opened Sorting
  import opened Grouping
  import opened ByteLayout
  import opened Numbers
  import opened GreedyCut
  import opened LocalityPack
  import opened PackStrategies
  import opened PackRun
  import opened Kinds
  import opened Storages

  // ----- Eligible contents

  /** File row `fi` is a regular file whose storage is the content `h`. */
  datatype Mention = Mention(fi: int, h: int)

  function HashOf(m: Mention): int { m.h }

  predicate IsMention(row: FileRow) {
    row.kind == K_FILE && row.ref.BlobRef?
  }

  function Mentions(files: seq<FileRow>): seq<Mention> {
    if files == [] then []
    else
      var last := |files| - 1;
      Mentions(files[..last]) + if IsMention(files[last]) then [Mention(last, files[last].ref.h)] else []
  }

  /** The dictionary `refs`. */
  type Refs = seq<Bucket<Mention>>

  function RefsOf(files: seq<FileRow>): Refs {
    GroupBy(Mentions(files), HashOf)
  }

  predicate Wanted(cands: Store, h: int, maxFile: int) {
    h in cands && cands[h].deflates == map[] && |cands[h].raw| <= maxFile && HasText(cands[h].hints)
  }

  function EligibleItems(refs: Refs, cands: Store, maxFile: int): seq<Item> {
    if refs == [] then []
    else
      var last := |refs| - 1;
      var h := refs[last].key;
      EligibleItems(refs[..last], cands, maxFile)
      + if Wanted(cands, h, maxFile) then [Item(h, cands[h].raw)] else []
  }

  function ExtOf(cands: Store): Item -> int {
    (it: Item) =>
      if it.digest in cands && HasText(cands[it.digest].hints) then FirstText(cands[it.digest].hints) else -1
  }

  /** The dictionary `buckets`, in order of the extensions. */
  function BucketsOf(st: State, maxFile: int): seq<Bucket<Item>> {
    Sort(GroupBy(EligibleItems(RefsOf(st.files), st.cands, maxFile), ExtOf(st.cands)), BucketKey)
  }

  // ----- Grouping policies

  /** One of the four strategies, or the stable packer, which follows the file table. */
  datatype Policy = By(strategy: Strategy) | Stable

  function MinOf(s: seq<int>): int {
    if s == [] then 0
    else if |s| == 1 then s[0]
    else
      var rest := MinOf(s[..|s| - 1]);
      if s[|s| - 1] < rest then s[|s| - 1] else rest
  }

  function RowsOf(ms: seq<Mention>): (r: seq<int>)
    ensures |r| == |ms|
  {
    seq(|ms|, k requires 0 <= k < |ms| => ms[k].fi)
  }

  function Lookup(refs: Refs, h: int): seq<Mention> {
    if refs == [] then []
    else if refs[0].key == h then refs[0].members
    else Lookup(refs[1..], h)
  }

  /** First row that names the content; ties, which do not occur, by digest. */
  function StableKey(refs: Refs): Item -> Key {
    (it: Item) => (MinOf(RowsOf(Lookup(refs, it.digest))), it.digest, 0)
  }

  function StableGroups(items: seq<Item>, refs: Refs, target: int): seq<seq<Item>> {
    Cut(Sort(items, StableKey(refs)), Law(target))
  }

  function Plan(items: seq<Item>, refs: Refs, target: int, policy: Policy): seq<seq<Item>> {
    match policy
    case By(strategy) => GroupsBy(items, target, strategy)
    case Stable => StableGroups(items, refs, target)
  }

  function PlanAll(buckets: seq<Bucket<Item>>, refs: Refs, target: int, policy: Policy): seq<seq<Item>> {
    if buckets == [] then []
    else PlanAll(buckets[..|buckets| - 1], refs, target, policy)
         + Plan(buckets[|buckets| - 1].members, refs, target, policy)
  }

  /** All packs of a build, in order. */
  function Packs(st: State, target: int, maxFile: int, policy: Policy): seq<seq<Item>> {
    PlanAll(BucketsOf(st, maxFile), RefsOf(st.files), target, policy)
  }

  /** `_build_micro_packs` as a function. */
  function Built(st: State, target: int, maxFile: int, policy: Policy, sha: Digest): State {
    Run(st, Packs(st, target, maxFile, policy), sha)
  }

  // ----- The packs hold every eligible content once

  lemma {:induction false} LookupIsWithKey(refs: Refs, ms: seq<Mention>, h: int)
    requires Grouped(refs, ms, HashOf)
    ensures Lookup(refs, h) == WithKey(ms, HashOf, h)
  {
    if HasKey(refs, h) {
      LookupFinds(refs, h);
    } else {
      LookupMisses(refs, h);
      WithKeyNone(ms, HashOf, h);
    }
  }

  lemma {:induction false} LookupFinds(refs: Refs, h: int)
    requires HasKey(refs, h)
    ensures exists g :: g in refs && g.key == h && g.members == Lookup(refs, h)
  {
    if refs[0].key == h {
      assert refs[0] in refs;
    } else {
      var g :| g in refs && g.key == h;
      assert refs == [refs[0]] + refs[1..];
      assert g in refs[1..];
      LookupFinds(refs[1..], h);
    }
  }

  lemma {:induction false} LookupMisses(refs: Refs, h: int)
    requires !HasKey(refs, h)
    ensures Lookup(refs, h) == []
  {
    if refs != [] {
      assert refs[0] in refs;
      assert forall g :: g in refs[1..] ==> g in refs;
      LookupMisses(refs[1..], h);
    }
  }

  ghost predicate RowsAscend(ms: seq<Mention>) {
    forall i, j | 0 <= i < j < |ms| :: ms[i].fi < ms[j].fi
  }

  lemma {:induction false} MentionsExact(files: seq<FileRow>)
    ensures forall m :: m in Mentions(files) <==>
              0 <= m.fi < |files| && IsMention(files[m.fi]) && files[m.fi].ref.h == m.h
    ensures RowsAscend(Mentions(files))
  {
    if files != [] {
      var last := |files| - 1;
      var ms := Mentions(files[..last]);
      MentionsExact(files[..last]);
      forall m ensures m in Mentions(files) <==>
        0 <= m.fi < |files| && IsMention(files[m.fi]) && files[m.fi].ref.h == m.h
      {
        assert m.fi == last && IsMention(files[last]) && files[last].ref.h == m.h ==>
                 m == Mention(last, files[last].ref.h);
      }
      forall i | 0 <= i < |ms| ensures ms[i].fi < last {
        assert ms[i] in ms;
      }
      if IsMention(files[last]) {
        var out := ms + [Mention(last, files[last].ref.h)];
        assert Mentions(files) == out;
        forall i, j | 0 <= i < j < |out| ensures out[i].fi < out[j].fi {
        }
      } else {
        assert Mentions(files) == ms;
      }
    }
  }

  /** Items whose digests tell them apart, all in the store. */
  ghost predicate Sound(items: seq<Item>, cands: Store) {
    && DistinctDigests(items)
    && forall it :: it in items ==> it.digest in cands && it.raw == cands[it.digest].raw
  }

  lemma {:induction false} EligibleSound(refs: Refs, cands: Store, maxFile: int)
    requires DistinctKeys(refs)
    ensures Sound(EligibleItems(refs, cands, maxFile), cands)
    ensures forall it :: it in EligibleItems(refs, cands, maxFile) ==>
              HasKey(refs, it.digest) && Wanted(cands, it.digest, maxFile)
    ensures forall h :: HasKey(refs, h) && Wanted(cands, h, maxFile) ==>
              Has(EligibleItems(refs, cands, maxFile), h)
  {
    if refs != [] {
      var init, g := refs[..|refs| - 1], refs[|refs| - 1];
      assert refs == init + [g];
      EligibleSound(init, cands, maxFile);
      var before := EligibleItems(init, cands, maxFile);
      forall it | it in before ensures it.digest != g.key {
        var b :| b in init && b.key == it.digest;
      }
      EligibleLast(init, g, cands, maxFile);
    }
  }

  /** The eligible contents, exactly: each wanted content that some regular row names, once. */
  lemma EligibleExact(st: State, maxFile: int)
    ensures var items := EligibleItems(RefsOf(st.files), st.cands, maxFile);
            && Sound(items, st.cands)
            && forall h :: Has(items, h) <==>
                 Wanted(st.cands, h, maxFile) && exists row :: row in st.files && IsMention(row) && row.ref.h == h
  {
    var refs, ms := RefsOf(st.files), Mentions(st.files);
    var items := EligibleItems(refs, st.cands, maxFile);
    GroupByGroups(ms, HashOf);
    EligibleSound(refs, st.cands, maxFile);
    forall h ensures HasKey(refs, h) <==> exists row :: row in st.files && IsMention(row) && row.ref.h == h {
      KeyIsMention(st.files, h);
    }
  }

  lemma KeyIsMention(files: seq<FileRow>, h: int)
    ensures HasKey(RefsOf(files), h) <==> exists row :: row in files && IsMention(row) && row.ref.h == h
  {
    hide GroupBy, Mentions, WithKey;
    var refs, ms := RefsOf(files), Mentions(files);
    GroupByGroups(ms, HashOf);
    MentionsExact(files);
    if HasKey(refs, h) {
      var g :| g in refs && g.key == h;
      var m := g.members[0];
      assert m in g.members && m in ms;
      assert files[m.fi] in files;
    }
    if row :| row in files && IsMention(row) && row.ref.h == h {
      var i :| 0 <= i < |files| && files[i] == row;
      assert Mention(i, h) in ms;
    }
  }

  lemma EligibleLast(init: Refs, g: Bucket<Mention>, cands: Store, maxFile: int)
    ensures forall h :: HasKey(init + [g], h) <==> HasKey(init, h) || h == g.key
    ensures forall h :: Has(EligibleItems(init + [g], cands, maxFile), h) <==>
              Has(EligibleItems(init, cands, maxFile), h) || (h == g.key && Wanted(cands, h, maxFile))
  {
    var refs := init + [g];
    assert refs[..|init|] == init && g in refs;
    var a, b := EligibleItems(init, cands, maxFile), EligibleItems(refs, cands, maxFile);
    forall h ensures Has(b, h) <==> Has(a, h) || (h == g.key && Wanted(cands, h, maxFile)) {
      if h == g.key && Wanted(cands, h, maxFile) {
        assert Item(h, cands[h].raw) in b;
      }
    }
    forall h ensures HasKey(refs, h) <==> HasKey(init, h) || h == g.key {
      if HasKey(init, h) {
        var x :| x in init && x.key == h;
        assert x in refs;
      }
    }
  }

  lemma SoundPermutes(a: seq<Item>, b: seq<Item>, cands: Store)
    requires multiset(a) == multiset(b) && Sound(a, cands)
    ensures Sound(b, cands) && NoDuplicates(b)
  {
    MembersMatch(a, b);
    assert NoDuplicates(a);
    NoDuplicatesPermutes(b, a);
    forall i, j | 0 <= i < j < |b| ensures b[i].digest != b[j].digest {
      assert b[i] in a && b[j] in a && b[i] != b[j];
    }
  }

  lemma {:induction false} FlattenSound(groups: seq<seq<Item>>, cands: Store)
    requires Sound(Flatten(groups), cands)
    ensures forall g :: g in groups ==> Sound(g, cands)
    ensures forall i, j, h | 0 <= i < j < |groups| && Has(groups[i], h) :: !Has(groups[j], h)
  {
    if groups != [] {
      var g, rest := groups[0], groups[1..];
      assert groups == [g] + rest;
      var all := g + Flatten(rest);
      assert all[..|g|] == g && all[|g|..] == Flatten(rest);
      SoundParts(g, Flatten(rest), cands);
      FlattenSound(rest, cands);
      forall i, j, h | 0 <= i < j < |groups| && Has(groups[i], h) ensures !Has(groups[j], h) {
        assert groups[j] == rest[j - 1] && (i > 0 ==> groups[i] == rest[i - 1]);
        HasFlatten(rest, j - 1, h);
      }
    }
  }

  lemma HasFlatten(groups: seq<seq<Item>>, k: nat, h: int)
    requires k < |groups|
    ensures Has(groups[k], h) ==> Has(Flatten(groups), h)
  {
    if Has(groups[k], h) {
      var it :| it in groups[k] && it.digest == h;
      FlattenMember(groups, it);
      assert groups[k] in groups;
    }
  }

  lemma SoundParts(a: seq<Item>, b: seq<Item>, cands: Store)
    requires Sound(a + b, cands)
    ensures Sound(a, cands) && Sound(b, cands)
    ensures forall h :: Has(a, h) ==> !Has(b, h)
  {
    var s := a + b;
    forall i, j | 0 <= i < j < |a| ensures a[i].digest != a[j].digest {
      assert s[i].digest != s[j].digest;
    }
    forall i, j | 0 <= i < j < |b| ensures b[i].digest != b[j].digest {
      assert s[|a| + i].digest != s[|a| + j].digest;
    }
    forall h | Has(a, h) ensures !Has(b, h) {
      var x :| x in a && x.digest == h;
      var i :| 0 <= i < |a| && a[i] == x;
      forall y | y in b ensures y.digest != h {
        var j :| 0 <= j < |b| && b[j] == y;
        assert s[i].digest != s[|a| + j].digest;
      }
    }
  }

  lemma PlanPacks(items: seq<Item>, refs: Refs, target: int, policy: Policy)
    ensures Packing(Plan(items, refs, target, policy), items, target)
  {
    match policy {
      case By(strategy) => EveryStrategyPacks(items, target, strategy);
      case Stable => CutIsPacking(Sort(items, StableKey(refs)), items, target);
    }
  }

  lemma PackingAppend(a: seq<seq<Item>>, b: seq<seq<Item>>, xs: seq<Item>, ys: seq<Item>, target: int)
    requires Packing(a, xs, target) && Packing(b, ys, target)
    ensures Packing(a + b, xs + ys, target)
  {
    hide Law;
    FlattenAppend(a, b);
  }

  lemma {:induction false} PlanAllPacks(buckets: seq<Bucket<Item>>, refs: Refs, target: int, policy: Policy)
    ensures Packing(PlanAll(buckets, refs, target, policy), Listed(buckets), target)
  {
    hide Plan, Law;
    if buckets != [] {
      var init, last := buckets[..|buckets| - 1], buckets[|buckets| - 1];
      assert buckets == init + [last] && [last][1..] == [];
      PlanAllPacks(init, refs, target, policy);
      PlanPacks(last.members, refs, target, policy);
      ListedAppend(init, [last]);
      assert Listed([last]) == last.members;
      PackingAppend(PlanAll(init, refs, target, policy), Plan(last.members, refs, target, policy),
                    Listed(init), last.members, target);
    }
  }

  /** What holds of the packs of every build, whatever the policy: they hold each eligible content
      exactly once, no pack is empty, and the builder's locality guard holds for each. */
  lemma PacksAreSound(st: State, target: int, maxFile: int, policy: Policy)
    ensures var groups := Packs(st, target, maxFile, policy);
            && FromStore(groups, st.cands)
            && (forall g :: g in groups ==> Sound(g, st.cands) && LocalityHolds(g))
            && multiset(Flatten(groups)) == multiset(EligibleItems(RefsOf(st.files), st.cands, maxFile))
  {
    var refs, buckets, groups := RefsOf(st.files), BucketsOf(st, maxFile), Packs(st, target, maxFile, policy);
    var items := EligibleItems(refs, st.cands, maxFile);
    GroupByGroups(Mentions(st.files), HashOf);
    EligibleSound(refs, st.cands, maxFile);
    ListedPermutes(items, ExtOf(st.cands));
    ListedSort(GroupBy(items, ExtOf(st.cands)), buckets);
    PlanAllPacks(buckets, refs, target, policy);
    SoundPermutes(items, Flatten(groups), st.cands);
    FlattenSound(groups, st.cands);
    forall g | g in groups ensures g != [] && LocalityHolds(g) {
      AdmissibleIsLocal(g, target);
    }
  }

  /** The whole build: a row that can be read, whatever its kind and storage, keeps its bytes exactly when
      nothing that its storage then needs was dropped; otherwise it reads as nothing, never as other
      bytes. */
  lemma BuildPreservesExact(
    st: State, target: int, maxFile: int, policy: Policy, sha: Digest, i: nat, deflate: Deflate)
    requires i < |st.files| && CollisionFree(sha) && Digested(st.cands, sha)
    requires Read(st.files, st.cands, i, deflate).Some?
    ensures var groups, out := Packs(st, target, maxFile, policy), Built(st, target, maxFile, policy, sha);
            Read(out.files, out.cands, i, deflate) ==
            if Bereft(st.files[Holder(st.files, i)], groups, sha) then None
            else Read(st.files, st.cands, i, deflate)
  {
    hide Read, Run, Packs, Bereft;
    PacksAreSound(st, target, maxFile, policy);
    RunPreservesExact(st, Packs(st, target, maxFile, policy), sha, i, deflate);
  }

  /** The archive can be written, every digest that a row or recipe names being mapped, exactly when no
      row needs a dropped content. */
  lemma BuildMapsExact(st: State, target: int, maxFile: int, policy: Policy, sha: Digest)
    requires CollisionFree(sha) && Digested(st.cands, sha) && Mapped(st.files, st.cands)
    ensures var groups, out := Packs(st, target, maxFile, policy), Built(st, target, maxFile, policy, sha);
            Mapped(out.files, out.cands) <==> forall row :: row in st.files ==> !Bereft(row, groups, sha)
  {
    hide Mapped, Run, Packs, Bereft;
    PacksAreSound(st, target, maxFile, policy);
    RunMapsExact(st, Packs(st, target, maxFile, policy), sha);
  }

  /** The stable packer has the fewest groups of all cuts of the file-table order into admissible groups. */
  lemma StableFewest(items: seq<Item>, refs: Refs, target: int, rival: seq<seq<Item>>)
    requires AllAdmissible(rival, Law(target)) && Flatten(rival) == Sort(items, StableKey(refs))
    ensures |StableGroups(items, refs, target)| <= |rival|
  {
    LawClosed(target);
    CutIsLeast(Sort(items, StableKey(refs)), Law(target), rival);
  }

  // ----- The procedures

  predicate SlotsMatch(slots: map<int, (nat, nat)>, rows: seq<Item>) {
    && (forall h :: h in slots ==> Has(rows, h) && slots[h] == SlotIn(rows, h))
    && forall it :: it in rows ==> it.digest in slots
  }

  lemma SlotsStep(slots: map<int, (nat, nat)>, rows: seq<Item>, it: Item)
    requires SlotsMatch(slots, rows)
    ensures SlotsMatch(slots[it.digest := (|Concat(rows)|, Size(it))], rows + [it])
    ensures Concat(rows + [it]) == Concat(rows) + it.raw
  {
    assert (rows + [it])[..|rows|] == rows;
    forall h ensures Has(rows + [it], h) <==> Has(rows, h) || it.digest == h {
      HasAppend(rows, it, h);
    }
    SlotsExtend(slots, rows, it);
  }

  lemma SlotsExtend(slots: map<int, (nat, nat)>, rows: seq<Item>, it: Item)
    requires SlotsMatch(slots, rows)
    requires forall h :: Has(rows + [it], h) <==> Has(rows, h) || it.digest == h
    ensures SlotsMatch(slots[it.digest := (|Concat(rows)|, Size(it))], rows + [it])
  {
    hide Concat, Has;
    var more := rows + [it];
    assert more[..|rows|] == rows;
    forall h ensures SlotIn(more, h) == if h == it.digest then (|Concat(rows)|, Size(it)) else SlotIn(rows, h) {
    }
  }

  lemma {:induction false} ConcatLength(rows: seq<Item>)
    ensures |Concat(rows)| == Total(Sizes(rows))
  {
    if rows != [] {
      var init, last := rows[..|rows| - 1], rows[|rows| - 1];
      ConcatLength(init);
      TotalAppend(Sizes(init), [Size(last)]);
      assert Sizes(rows) == Sizes(init) + [Size(last)];
      assert [Size(last)][1..] == [];
    }
  }

  /** What a dictionary entry of `refs` lists: every regular file row that names the content. */
  lemma LookupExact(origin: seq<FileRow>, h: int)
    ensures forall m :: m in Lookup(RefsOf(origin), h) <==>
              m.h == h && 0 <= m.fi < |origin| && IsMention(origin[m.fi]) && origin[m.fi].ref.h == h
  {
    GroupByGroups(Mentions(origin), HashOf);
    LookupIsWithKey(RefsOf(origin), Mentions(origin), h);
    MentionsExact(origin);
  }

  /** A row once the members `done`, of the pack `rows`, have been dealt with. */
  function RowAfter(origin: FileRow, before: FileRow, done: seq<Item>, rows: seq<Item>, ph: int): FileRow {
    if Refers(origin, done) then
      var s := SlotIn(rows, origin.ref.h);
      FileRow(before.kind, PackRef(ph, s.0, s.1))
    else before
  }

  ghost predicate RepointedTo(
    now: seq<FileRow>, before: seq<FileRow>, origin: seq<FileRow>, rows: seq<Item>, k: nat, ph: int)
    requires |origin| == |before| && k <= |rows|
  {
    |now| == |before| && forall i :: 0 <= i < |now| ==> now[i] == RowAfter(origin[i], before[i], rows[..k], rows, ph)
  }

  lemma RowAfterStep(origin: FileRow, before: FileRow, done: seq<Item>, it: Item, rows: seq<Item>, ph: int)
    ensures RowAfter(origin, before, done + [it], rows, ph) ==
            if IsMention(origin) && origin.ref.h == it.digest then
              var s := SlotIn(rows, it.digest); FileRow(before.kind, PackRef(ph, s.0, s.1))
            else RowAfter(origin, before, done, rows, ph)
    ensures RowAfter(origin, before, done, rows, ph).kind == before.kind
  {
    hide SlotIn, Has;
    if IsMention(origin) {
      HasAppend(done, it, origin.ref.h);
    }
  }

  lemma RepointedStep(
    next: seq<FileRow>, now: seq<FileRow>, before: seq<FileRow>, origin: seq<FileRow>, rows: seq<Item>, k: nat, ph: int)
    requires |origin| == |before| && k < |rows|
    requires RepointedTo(now, before, origin, rows, k, ph)
    requires |next| == |now|
    requires forall i :: 0 <= i < |now| ==>
               next[i] == if IsMention(origin[i]) && origin[i].ref.h == rows[k].digest
                          then FileRow(now[i].kind, PackRef(ph, SlotIn(rows, rows[k].digest).0,
                                                            SlotIn(rows, rows[k].digest).1))
                          else now[i]
    ensures RepointedTo(next, before, origin, rows, k + 1, ph)
  {
    hide SlotIn, RowAfter;
    assert rows[..k + 1] == rows[..k] + [rows[k]];
    forall i | 0 <= i < |next| ensures next[i] == RowAfter(origin[i], before[i], rows[..k + 1], rows, ph) {
      RowAfterStep(origin[i], before[i], rows[..k], rows[k], rows, ph);
    }
  }

  lemma HasAppend(rows: seq<Item>, it: Item, h: int)
    ensures Has(rows + [it], h) <==> Has(rows, h) || it.digest == h
  {
    assert it in rows + [it];
  }

  lemma PlannedAreLocal(items: seq<Item>, refs: Refs, target: int, policy: Policy)
    ensures forall g :: g in Plan(items, refs, target, policy) ==> g != [] && LocalityHolds(g)
  {
    PlanPacks(items, refs, target, policy);
    forall g | g in Plan(items, refs, target, policy) ensures g != [] && LocalityHolds(g) {
      AdmissibleIsLocal(g, target);
    }
  }

  lemma PlanNothing(buckets: seq<Bucket<Item>>, refs: Refs, target: int, policy: Policy)
    ensures PlanAll(buckets[..0], refs, target, policy) == []
  {
  }

  lemma PlanAllStep(buckets: seq<Bucket<Item>>, k: nat, refs: Refs, target: int, policy: Policy)
    requires k < |buckets|
    ensures PlanAll(buckets[..k + 1], refs, target, policy)
            == PlanAll(buckets[..k], refs, target, policy) + Plan(buckets[k].members, refs, target, policy)
  {
    hide Plan;
    assert buckets[..k + 1][..k] == buckets[..k];
  }

  lemma RunNothing(st: State, sha: Digest)
    ensures Run(st, [], sha) == st
  {
  }

  lemma RunStep(st: State, groups: seq<seq<Item>>, g: seq<Item>, sha: Digest)
    ensures Run(st, groups + [g], sha) == PackOne(Run(st, groups, sha), st.files, g, sha)
  {
    assert (groups + [g])[..|groups|] == groups;
  }

  /** A bound on every member's size that some member attains. */
  ghost predicate IsLeastMember(rows: seq<Item>, m: nat) {
    && (forall it :: it in rows ==> m <= AtLeastOne(Size(it)))
    && exists it :: it in rows && AtLeastOne(Size(it)) == m
  }

  lemma LeastMemberStep(rows: seq<Item>, m: nat, it: Item)
    requires rows == [] || IsLeastMember(rows, m)
    ensures var n := AtLeastOne(Size(it));
            IsLeastMember(rows + [it], if rows == [] || n < m then n else m)
  {
    assert it in rows + [it];
    if rows != [] {
      var x :| x in rows && AtLeastOne(Size(x)) == m;
      assert x in rows + [it];
    }
  }

  lemma LeastMemberDecides(rows: seq<Item>, m: nat)
    requires IsLeastMember(rows, m)
    ensures LocalityHolds(rows) <==> |Concat(rows)| <= LOCALITY * m
  {
    ConcatLength(rows);
    var x :| x in rows && AtLeastOne(Size(x)) == m;
    if |Concat(rows)| <= LOCALITY * m {
      forall it | it in rows ensures Total(Sizes(rows)) <= LOCALITY * AtLeastOne(Size(it)) {
      }
    }
  }

  lemma NothingLaidOut(slots: map<int, (nat, nat)>)
    requires slots == map[]
    ensures Concat([]) == [] && SlotsMatch(slots, [])
  {
  }

  /** Lay the members out, and take the smallest of them, but at least one. */
  method LayOut(rows: seq<Item>) returns (buf: Bytes, slots: map<int, (nat, nat)>, minMember: nat)
    requires rows != []
    ensures buf == Concat(rows) && SlotsMatch(slots, rows)
    ensures IsLeastMember(rows, minMember)
  {
    hide SlotsMatch, IsLeastMember, Concat;
    buf, slots, minMember := [], map[], 1;
    NothingLaidOut(slots);
    assert rows[..0] == [];
    for k := 0 to |rows|
      invariant buf == Concat(rows[..k]) && SlotsMatch(slots, rows[..k])
      invariant k > 0 ==> IsLeastMember(rows[..k], minMember)
    {
      SlotsStep(slots, rows[..k], rows[k]);
      LeastMemberStep(rows[..k], minMember, rows[k]);
      assert rows[..k + 1] == rows[..k] + [rows[k]];
      slots := slots[rows[k].digest := (|buf|, |rows[k].raw|)];
      buf := buf + rows[k].raw;
      if k == 0 || AtLeastOne(|rows[k].raw|) < minMember {
        minMember := AtLeastOne(|rows[k].raw|);
      }
    }
    assert rows[..|rows|] == rows;
  }

  class Builder {
    var files: seq<FileRow>
    var cands: Store
    const microPackTarget: int
    const microPackMaxFile: int

    constructor (files: seq<FileRow>, cands: Store, target: int, maxFile: int)
      ensures Snapshot() == State(files, cands)
      ensures microPackTarget == target && microPackMaxFile == maxFile
    {
      this.files, this.cands := files, cands;
      microPackTarget, microPackMaxFile := target, maxFile;
    }

    function Snapshot(): State
      reads this
    {
      State(files, cands)
    }

    /** `add_content`: a content that is in the store already keeps its bytes; its hints and the Deflate
        streams that it was met as accumulate. */
    method AddContent(raw: Bytes, hint: Option<int>, stream: Option<Bytes>, sha: Digest) returns (h: int)
      modifies `cands
      ensures h == sha(raw)
      ensures cands == Added(old(cands), h, raw, hint,
                             if stream.Some? then Some((sha(stream.value), stream.value)) else None)
    {
      h := sha(raw);
      var c: Candidate;
      if h !in cands {
        c := Candidate(raw, if hint.Some? then {hint.value} else {}, map[]);
        assert c.hints == WithHint({}, hint);
      } else {
        c := cands[h];
        if hint.Some? {
          c := c.(hints := c.hints + {hint.value});
        }
      }
      if stream.Some? {
        var sh := sha(stream.value);
        if sh !in c.deflates {
          c := c.(deflates := c.deflates[sh := (stream.value, 1)]);
        } else {
          c := c.(deflates := c.deflates[sh := (c.deflates[sh].0, c.deflates[sh].1 + 1)]);
        }
      }
      cands := cands[h := c];
    }

    method CollectRefs() returns (refs: Refs)
      ensures refs == RefsOf(files)
    {
      refs := [];
      ghost var ms: seq<Mention> := [];
      for fi := 0 to |files|
        invariant ms == Mentions(files[..fi]) && refs == GroupBy(ms, HashOf)
      {
        assert files[..fi + 1][..fi] == files[..fi];
        var row := files[fi];
        if row.kind == K_FILE && row.ref.BlobRef? {
          GroupByStep(ms, Mention(fi, row.ref.h), HashOf);
          refs := AddTo(refs, row.ref.h, Mention(fi, row.ref.h));
          ms := ms + [Mention(fi, row.ref.h)];
        }
      }
      assert files[..|files|] == files;
    }

    /** `_eligible` */
    method Eligible() returns (refs: Refs, buckets: seq<Bucket<Item>>)
      ensures refs == RefsOf(files)
      ensures Sort(buckets, BucketKey) == BucketsOf(Snapshot(), microPackMaxFile)
    {
      refs := CollectRefs();
      buckets := [];
      ghost var items: seq<Item> := [];
      for k := 0 to |refs|
        invariant items == EligibleItems(refs[..k], cands, microPackMaxFile)
        invariant buckets == GroupBy(items, ExtOf(cands))
      {
        assert refs[..k + 1][..k] == refs[..k];
        var h := refs[k].key;
        if h in cands && cands[h].deflates == map[] && |cands[h].raw| <= microPackMaxFile && HasText(cands[h].hints) {
          var it := Item(h, cands[h].raw);
          GroupByStep(items, it, ExtOf(cands));
          buckets := AddTo(buckets, FirstText(cands[h].hints), it);
          items := items + [it];
        }
      }
      assert refs[..|refs|] == refs;
    }

    /** `for row in refs[h]`: overwrite the storage of every row that names the content. */
    method Repoint(h: int, refs: Refs, ref: Ref, ghost origin: seq<FileRow>)
      requires |origin| == |files| && refs == RefsOf(origin)
      modifies `files
      ensures |files| == |origin|
      ensures forall i :: 0 <= i < |files| ==>
                files[i] == if IsMention(origin[i]) && origin[i].ref.h == h
                            then FileRow(old(files)[i].kind, ref) else old(files)[i]
    {
      hide RefsOf, Lookup;
      var ms := Lookup(refs, h);
      LookupExact(origin, h);
      for j := 0 to |ms|
        invariant |files| == |origin|
        invariant forall i :: 0 <= i < |files| ==> files[i].kind == old(files)[i].kind
        invariant forall i :: 0 <= i < |files| ==> files[i] == old(files)[i] || files[i].ref == ref
        invariant forall m :: m in ms[..j] ==> files[m.fi].ref == ref
        invariant forall i :: 0 <= i < |files| && Mention(i, h) !in ms ==> files[i] == old(files)[i]
      {
        assert ms[j] in ms && ms[j] == Mention(ms[j].fi, h);
        files := files[ms[j].fi := FileRow(files[ms[j].fi].kind, ref)];
      }
      assert ms[..|ms|] == ms;
      forall i | 0 <= i < |files| && IsMention(origin[i]) && origin[i].ref.h == h ensures files[i].ref == ref {
        assert Mention(i, h) in ms;
      }
    }

    /** `for h, (off, ln) in slots.items(): for row in refs[h]: ...` */
    method RepointMembers(
      rows: seq<Item>, slots: map<int, (nat, nat)>, refs: Refs, ph: int, ghost origin: seq<FileRow>)
      requires |origin| == |files| && refs == RefsOf(origin) && SlotsMatch(slots, rows)
      modifies `files
      ensures files == Repointed(old(files), origin, rows, ph)
    {
      hide SlotIn, RefsOf;
      for k := 0 to |rows|
        invariant RepointedTo(files, old(files), origin, rows, k, ph)
      {
        var h := rows[k].digest;
        assert rows[k] in rows;
        ghost var now := files;
        Repoint(h, refs, PackRef(ph, slots[h].0, slots[h].1), origin);
        RepointedStep(files, now, old(files), origin, rows, k, ph);
      }
      assert rows[..|rows|] == rows;
    }

    /** The members leave the store, except one whose bytes are those of the pack itself. */
    method DropMembers(rows: seq<Item>, ph: int)
      modifies `cands
      ensures cands == old(cands) - (Digests(rows) - {ph})
    {
      for k := 0 to |rows|
        invariant cands == old(cands) - (Digests(rows[..k]) - {ph})
      {
        assert rows[..k + 1] == rows[..k] + [rows[k]];
        assert Digests(rows[..k + 1]) == Digests(rows[..k]) + {rows[k].digest};
        if rows[k].digest != ph {
          cands := cands - {rows[k].digest};
        }
      }
      assert rows[..|rows|] == rows;
    }

    /** One pack: lay the members out, check the locality bound, store the pack, re-point the rows,
        drop the members. */
    method PackGroup(rows: seq<Item>, refs: Refs, sha: Digest, ghost origin: seq<FileRow>) returns (r: Result<int>)
      requires rows != [] && |origin| == |files| && refs == RefsOf(origin)
      modifies this
      ensures LocalityHolds(rows) ==>
                r == Ok(sha(Concat(rows))) && Snapshot() == PackOne(old(Snapshot()), origin, rows, sha)
      ensures !LocalityHolds(rows) ==> r == Raised(LocalityViolated) && Snapshot() == old(Snapshot())
    {
      var buf, slots, minMember := LayOut(rows);
      LeastMemberDecides(rows, minMember);
      if |buf| > LOCALITY * minMember {
        return Raised(LocalityViolated);
      }
      var ph := AddContent(buf, Some(PACK_HINT), None, sha);
      RepointMembers(rows, slots, refs, ph, origin);
      DropMembers(rows, ph);
      r := Ok(ph);
    }

    /** One pack after another. */
    method PackAll(groups: seq<seq<Item>>, refs: Refs, sha: Digest, ghost start: State, ghost done: seq<seq<Item>>)
      returns (r: Result<()>)
      requires refs == RefsOf(start.files) && Snapshot() == Run(start, done, sha)
      requires forall g :: g in groups ==> g != [] && LocalityHolds(g)
      modifies this
      ensures r.Ok? && Snapshot() == Run(start, done + groups, sha)
    {
      hide RefsOf, LocalityHolds, Repointed, Stored, PackOne;
      assert done + groups[..0] == done;
      for j := 0 to |groups|
        invariant Snapshot() == Run(start, done + groups[..j], sha)
      {
        assert groups[j] in groups && |files| == |Snapshot().files|;
        var packed := PackGroup(groups[j], refs, sha, start.files);
        assert packed.Ok?;
        assert done + groups[..j + 1] == (done + groups[..j]) + [groups[j]];
        RunStep(start, done + groups[..j], groups[j], sha);
      }
      assert groups[..|groups|] == groups;
      r := Ok(());
    }

    /** The whole `_build_micro_packs`. The locality guard never fires. */
    method BuildMicroPacks(policy: Policy, sha: Digest) returns (r: Result<()>)
      modifies this
      ensures r.Ok?
      ensures Snapshot() == Built(old(Snapshot()), microPackTarget, microPackMaxFile, policy, sha)
    {
      hide RefsOf, LocalityHolds, BucketsOf, Plan, PlanAll, Sort, Run, Sound, FromStore;
      ghost var start := Snapshot();
      var refs, unsorted := Eligible();
      var buckets := Sort(unsorted, BucketKey);
      ghost var done: seq<seq<Item>> := [];
      RunNothing(start, sha);
      PlanNothing(buckets, refs, microPackTarget, policy);
      for k := 0 to |buckets|
        invariant done == PlanAll(buckets[..k], refs, microPackTarget, policy)
        invariant Snapshot() == Run(start, done, sha)
      {
        PlanAllStep(buckets, k, refs, microPackTarget, policy);
        var groups := Groupings(buckets[k].members, refs, policy);
        PlannedAreLocal(buckets[k].members, refs, microPackTarget, policy);
        r := PackAll(groups, refs, sha, start, done);
        done := done + groups;
      }
      assert buckets[..|buckets|] == buckets;
      r := Ok(());
    }

    method Groupings(items: seq<Item>, refs: Refs, policy: Policy) returns (groups: seq<seq<Item>>)
      ensures groups == Plan(items, refs, microPackTarget, policy)
    {
      match policy {
        case By(strategy) => groups := Groups(items, microPackTarget, strategy);
        case Stable => groups := Segment(Sort(items, StableKey(refs)), microPackTarget);
      }
    }
  }
}
