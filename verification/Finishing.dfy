/** What `build` adds to the store between packing and mapping: retained Deflate streams and a trained
    dictionary, either of which may put back a content that packing dropped. */
module Finishing {
  import opened Results
  import opened ByteLayout
  import opened LocalityPack
  import opened MicroPackBuilder
  import opened PackRun
  import opened Storages

  // ----- Retained streams

  ghost predicate StreamsDigested(cands: Store, sha: Digest) {
    forall h, sh :: h in cands && sh in cands[h].deflates ==> sha(cands[h].deflates[sh].0) == sh
  }

  /** The stream that a content is stored as: met most often, then shortest. Ties are the dictionary's. */
  ghost predicate Chosen(deflates: map<int, (Bytes, nat)>, sh: int) {
    sh in deflates && forall t :: t in deflates ==>
      deflates[t].1 < deflates[sh].1 || (deflates[t].1 == deflates[sh].1 && |deflates[t].0| >= |deflates[sh].0|)
  }

  ghost predicate Choosing(cands: Store, chosen: int -> int) {
    forall h :: h in cands && cands[h].deflates != map[] ==> Chosen(cands[h].deflates, chosen(h))
  }

  /** `sh` is a stream of content `h` that is not the chosen one, and long enough to be kept. */
  predicate IsSecondary(cands: Store, chosen: int -> int, min: int, h: int, sh: int) {
    && h in cands && sh in cands[h].deflates
    && sh != chosen(h) && |cands[h].deflates[sh].0| >= min
  }

  function Secondary(cands: Store, chosen: int -> int, min: int): set<int> {
    set h, sh | h in cands && sh in cands[h].deflates && IsSecondary(cands, chosen, min, h, sh) :: sh
  }

  ghost function StreamOf(cands: Store, chosen: int -> int, min: int, sh: int): (stream: Bytes)
    requires sh in Secondary(cands, chosen, min)
    ensures exists h :: IsSecondary(cands, chosen, min, h, sh) && stream == cands[h].deflates[sh].0
  {
    var h :| IsSecondary(cands, chosen, min, h, sh);
    cands[h].deflates[sh].0
  }

  /** `_prepare_deflate_reuse` */
  ghost function Prepared(cands: Store, chosen: int -> int, min: int): Store {
    var more := Secondary(cands, chosen, min);
    map h | h in cands.Keys + more ::
      if h in cands then
        if h in more then cands[h].(hints := cands[h].hints + {OPAQUE_HINT}) else cands[h]
      else Candidate(StreamOf(cands, chosen, min, h), {OPAQUE_HINT}, map[])
  }

  // ----- The dictionary

  function Samples(cands: Store): set<int> {
    set h | h in cands && |cands[h].raw| >= 64 && PACK_HINT !in cands[h].hints && HasText(cands[h].hints) :: h
  }

  ghost function SampleBytes(cands: Store, hs: set<int>): nat
    requires hs <= cands.Keys
  {
    if exists h :: h in hs then
      var h :| h in hs;
      |cands[h].raw| + SampleBytes(cands, hs - {h})
    else 0
  }

  /** The trainer is another program: it returns a dictionary, or fails. */
  type Trainer = Store -> Option<Bytes>

  /** `_train_dictionary` */
  ghost function Trained(cands: Store, train: Trainer, sha: Digest): Store {
    if |Samples(cands)| < 16 || SampleBytes(cands, Samples(cands)) < 96 * 1024 || train(cands).None? then cands
    else Added(cands, sha(train(cands).value), train(cands).value, Some(DICTIONARY_HINT), None)
  }

  /** The store that `build` maps digests in. */
  ghost function Finished(cands: Store, chosen: int -> int, min: int, train: Trainer, sha: Digest): Store {
    Trained(Prepared(cands, chosen, min), train, sha)
  }

  lemma PreparedExact(cands: Store, chosen: int -> int, min: int, sha: Digest)
    requires Digested(cands, sha) && StreamsDigested(cands, sha)
    ensures var more := Prepared(cands, chosen, min);
            && Digested(more, sha)
            && (forall h :: h in more <==> h in cands || h in Secondary(cands, chosen, min))
            && (forall h :: h in cands ==> more[h].raw == cands[h].raw)
  {
    var more := Prepared(cands, chosen, min);
    forall h | h in more ensures sha(more[h].raw) == h {
      if h !in cands {
        assert h in Secondary(cands, chosen, min);
        var g :| IsSecondary(cands, chosen, min, g, h) && StreamOf(cands, chosen, min, h) == cands[g].deflates[h].0;
      }
    }
  }

  /** Finishing keeps every content and adds the retained streams and perhaps a dictionary, all under their
      digests. */
  lemma FinishedExact(cands: Store, chosen: int -> int, min: int, train: Trainer, sha: Digest)
    requires Digested(cands, sha) && StreamsDigested(cands, sha)
    ensures var fin := Finished(cands, chosen, min, train, sha);
            && Digested(fin, sha)
            && (forall h :: h in cands ==> h in fin && fin[h].raw == cands[h].raw)
            && forall h :: h in fin ==>
                 h in cands || h in Secondary(cands, chosen, min)
                 || (|Samples(Prepared(cands, chosen, min))| >= 16 && train(Prepared(cands, chosen, min)).Some?
                     && h == sha(train(Prepared(cands, chosen, min)).value))
    ensures forall h :: h in Secondary(cands, chosen, min) ==> h in Finished(cands, chosen, min, train, sha)
  {
    hide Secondary, Prepared, Samples, SampleBytes;
    PreparedExact(cands, chosen, min, sha);
  }

  /** Without text no dictionary is trained. */
  lemma NoTextNoSamples(cands: Store, chosen: int -> int, min: int)
    requires forall h :: h in cands ==> !HasText(cands[h].hints)
    ensures Samples(Prepared(cands, chosen, min)) == {}
  {
  }

  /** So a store without text gets nothing but streams. */
  lemma OnlyStreams(cands: Store, chosen: int -> int, min: int, train: Trainer, sha: Digest, a: int)
    requires Digested(cands, sha) && StreamsDigested(cands, sha) && a !in cands
    requires forall h :: h in cands ==> !HasText(cands[h].hints) && a !in cands[h].deflates
    ensures a !in Finished(cands, chosen, min, train, sha)
  {
    hide HasText, Prepared, Samples;
    NoTextNoSamples(cands, chosen, min);
    FinishedExact(cands, chosen, min, train, sha);
  }

  // ----- A whole build, finished

  lemma StreamsAfter(st: State, groups: seq<seq<Item>>, sha: Digest)
    requires StreamsDigested(st.cands, sha)
    ensures StreamsDigested(Run(st, groups, sha).cands, sha)
  {
    if groups != [] {
      var init, g := groups[..|groups| - 1], groups[|groups| - 1];
      StreamsAfter(st, init, sha);
      StreamsAfterOne(Run(st, init, sha).cands, g, Concat(g), sha);
    }
  }

  lemma StreamsAfterOne(cands: Store, rows: seq<Item>, buf: Bytes, sha: Digest)
    requires StreamsDigested(cands, sha)
    ensures StreamsDigested(Stored(cands, rows, buf, sha(buf)), sha)
  {
  }

  /** A row of any kind and storage that can be read before a build, under any policy, reads afterwards as
      the same bytes exactly when all that it needs is in the finished store, and else as nothing. */
  lemma FinishedPreservesExact(
    st: State, target: int, maxFile: int, policy: Policy, sha: Digest, chosen: int -> int, min: int, train: Trainer,
    i: nat, deflate: Deflate)
    requires i < |st.files| && CollisionFree(sha) && Digested(st.cands, sha) && StreamsDigested(st.cands, sha)
    requires Read(st.files, st.cands, i, deflate).Some?
    ensures var groups, out := Packs(st, target, maxFile, policy), Built(st, target, maxFile, policy, sha);
            var store := Finished(out.cands, chosen, min, train, sha);
            Read(out.files, store, i, deflate) ==
            if Served(st.files[Holder(st.files, i)], groups, sha, store) then Read(st.files, st.cands, i, deflate)
            else None
  {
    hide Resolve, Run, Packs, Served, Finished, Digested, StreamsDigested, CollisionFree;
    var groups := Packs(st, target, maxFile, policy);
    var cands := Run(st, groups, sha).cands;
    PacksAreSound(st, target, maxFile, policy);
    StoreAfter(st, groups, sha);
    StreamsAfter(st, groups, sha);
    FinishedExact(cands, chosen, min, train, sha);
    HolderAfter(st, groups, sha, i);
    RunResolvesIn(st, groups, sha, Holder(st.files, i), Finished(cands, chosen, min, train, sha), deflate);
  }

  /** What a row needs is missing from the finished store exactly when packing dropped it and neither a
      retained stream nor the dictionary put it back. */
  lemma ServedExact(
    st: State, target: int, maxFile: int, policy: Policy, sha: Digest, chosen: int -> int, min: int, train: Trainer,
    i: nat)
    requires i < |st.files| && CollisionFree(sha) && Digested(st.cands, sha) && StreamsDigested(st.cands, sha)
    requires RowMapped(st.files[i], st.cands)
    ensures var groups, out := Packs(st, target, maxFile, policy), Built(st, target, maxFile, policy, sha);
            var store := Finished(out.cands, chosen, min, train, sha);
            && (Served(st.files[i], groups, sha, store) <==>
                forall h :: Needs(st.files[i], groups, h, sha) && Dropped(groups, h, sha) ==> h in store)
            && (RowMapped(out.files[i], store) <==> Served(st.files[i], groups, sha, store))
  {
    hide Run, Packs, Finished, Digested, StreamsDigested, CollisionFree, Names, Needs, Dropped, Written;
    var groups := Packs(st, target, maxFile, policy);
    var cands := Run(st, groups, sha).cands;
    PacksAreSound(st, target, maxFile, policy);
    StoreAfter(st, groups, sha);
    StreamsAfter(st, groups, sha);
    FinishedExact(cands, chosen, min, train, sha);
    NamesAfter(st, groups, sha, i);
    NeededIsThere(st, groups, sha, i);
  }

  /** `build` can map every digest that the rows name, and write the archive, exactly when every dropped
      content that a row needs is put back. */
  lemma FinishedMapsExact(
    st: State, target: int, maxFile: int, policy: Policy, sha: Digest, chosen: int -> int, min: int, train: Trainer)
    requires CollisionFree(sha) && Digested(st.cands, sha) && StreamsDigested(st.cands, sha)
    requires Mapped(st.files, st.cands)
    ensures var groups, out := Packs(st, target, maxFile, policy), Built(st, target, maxFile, policy, sha);
            var store := Finished(out.cands, chosen, min, train, sha);
            Mapped(out.files, store) <==>
            forall row, h :: row in st.files && Needs(row, groups, h, sha) && Dropped(groups, h, sha) ==> h in store
  {
    hide Run, Packs, Finished, Digested, StreamsDigested, CollisionFree, Names, Needs, Dropped, Mapped, Served,
         RowMapped;
    var groups, out := Packs(st, target, maxFile, policy), Built(st, target, maxFile, policy, sha);
    var store := Finished(out.cands, chosen, min, train, sha);
    MappedRows(st.files, st.cands);
    MappedRows(out.files, store);
    forall i | 0 <= i < |st.files|
      ensures RowMapped(out.files[i], store) <==>
              forall h :: Needs(st.files[i], groups, h, sha) && Dropped(groups, h, sha) ==> h in store
    {
      assert st.files[i] in st.files;
      ServedExact(st, target, maxFile, policy, sha, chosen, min, train, i);
    }
    if Mapped(out.files, store) {
      forall row, h | row in st.files && Needs(row, groups, h, sha) && Dropped(groups, h, sha) ensures h in store {
        var i :| 0 <= i < |st.files| && st.files[i] == row;
        assert out.files[i] in out.files;
      }
    }
    if forall row, h :: row in st.files && Needs(row, groups, h, sha) && Dropped(groups, h, sha) ==> h in store {
      forall row | row in out.files ensures RowMapped(row, store) {
        var i :| 0 <= i < |out.files| && out.files[i] == row;
        assert st.files[i] in st.files;
      }
    }
  }
}
