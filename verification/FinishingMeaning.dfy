/** What finishing adds to a store, told by the store before it. */
module FinishingMeaning {
  import opened Results
  import opened ByteLayout
  import opened Numbers
  import opened Sorting
  import opened Storages
  import opened Finishing

  /** A Deflate stream of some content that is stored as another one, long enough to be kept. */
  ghost predicate Retained(cands: Store, chosen: int -> int, min: int, sh: int) {
    exists g :: g in cands && Secondarily(cands[g], chosen(g), min, sh)
  }

  ghost predicate Secondarily(c: Candidate, chosen: int, min: int, sh: int) {
    sh in c.deflates && sh != chosen && |c.deflates[sh].0| >= min
  }

  /** A text of 64 bytes or more that is not a pack. */
  ghost predicate IsSample(cands: Store, h: int) {
    && h in cands && |cands[h].raw| >= 64 && PACK_HINT !in cands[h].hints
    && exists x :: x in cands[h].hints && x >= 0
  }

  /** All samples of a store, each once. */
  ghost predicate ListsSamples(hs: seq<int>, cands: Store) {
    (forall i, j | 0 <= i < j < |hs| :: hs[i] != hs[j]) && forall h :: h in hs <==> IsSample(cands, h)
  }

  function SizesOf(hs: seq<int>, cands: Store): (r: seq<int>)
    requires forall h :: h in hs ==> h in cands
    ensures |r| == |hs|
  {
    seq(|hs|, k requires 0 <= k < |hs| => var h := hs[k]; assert h in hs; |cands[h].raw|)
  }

  // ----- Counting samples

  lemma {:induction false} ListOf(s: set<int>) returns (hs: seq<int>)
    ensures |hs| == |s| && (forall h :: h in hs <==> h in s)
    ensures forall i, j | 0 <= i < j < |hs| :: hs[i] != hs[j]
    decreases |s|
  {
    hs := [];
    if exists h :: h in s {
      var h :| h in s;
      var rest := ListOf(s - {h});
      hs := rest + [h];
      forall i, j | 0 <= i < j < |hs| ensures hs[i] != hs[j] {
        assert hs[i] in rest;
      }
    }
  }

  ghost predicate ListsSet(hs: seq<int>, s: set<int>) {
    (forall i, j | 0 <= i < j < |hs| :: hs[i] != hs[j]) && forall h :: h in hs <==> h in s
  }

  lemma {:induction false} ListedSize(hs: seq<int>, s: set<int>)
    requires ListsSet(hs, s)
    ensures |hs| == |s|
  {
    if hs == [] {
      NothingListed(hs, s);
    } else {
      var init, last := hs[..|hs| - 1], hs[|hs| - 1];
      ListsRest(hs, s, |hs| - 1);
      assert Without(hs, |hs| - 1) == init;
      ListedSize(init, s - {last});
    }
  }

  lemma NothingListed(hs: seq<int>, s: set<int>)
    requires ListsSet(hs, s)
    ensures hs == [] ==> |s| == 0
    ensures hs == [] <==> !exists h :: h in s
  {
    assert hs != [] ==> hs[0] in hs;
    if exists h :: h in s {
      var h :| h in s;
      assert h in hs;
    }
  }

  lemma ListsRest(hs: seq<int>, s: set<int>, k: nat)
    requires ListsSet(hs, s) && k < |hs|
    ensures hs[k] in s && ListsSet(Without(hs, k), s - {hs[k]})
  {
    var rest := Without(hs, k);
    assert hs[k] in hs;
    forall h ensures h in rest <==> h in s - {hs[k]} {
      if h in rest {
        var i :| 0 <= i < |rest| && rest[i] == h;
        assert hs[if i < k then i else i + 1] == h;
      }
      if h in s - {hs[k]} {
        var i :| 0 <= i < |hs| && hs[i] == h;
        assert rest[if i < k then i else i - 1] == h;
      }
    }
  }

  lemma SizesWithout(hs: seq<int>, cands: Store, k: nat)
    requires k < |hs| && forall h :: h in hs ==> h in cands
    ensures hs[k] in cands && forall h :: h in Without(hs, k) ==> h in cands
    ensures Total(SizesOf(hs, cands)) == |cands[hs[k]].raw| + Total(SizesOf(Without(hs, k), cands))
  {
    hide Total;
    assert hs[k] in hs;
    assert forall h :: h in Without(hs, k) ==> h in hs;
    var sizes := SizesOf(hs, cands);
    var a, b := sizes[..k], sizes[k + 1..];
    assert sizes == a + ([sizes[k]] + b) && SizesOf(Without(hs, k), cands) == a + b;
    TotalAppend(a, [sizes[k]] + b);
    TotalAppend([sizes[k]], b);
    TotalAppend(a, b);
    OneTotal(sizes[k]);
  }

  lemma OneTotal(n: int)
    ensures Total([n]) == n
  {
    assert [n][1..] == [];
  }

  /** The sum over a set is the sum over any list of it. */
  lemma {:induction false} SampleBytesExact(cands: Store, s: set<int>, hs: seq<int>)
    requires s <= cands.Keys && ListsSet(hs, s)
    ensures SampleBytes(cands, s) == Total(SizesOf(hs, cands))
    decreases |s|
  {
    hide Total, SizesOf, Without;
    if exists h :: h in s {
      var h := PickedFirst(cands, s);
      assert h in hs;
      var k :| 0 <= k < |hs| && hs[k] == h;
      ListsRest(hs, s, k);
      SizesWithout(hs, cands, k);
      SampleBytesExact(cands, s - {h}, Without(hs, k));
    } else {
      NothingListed(hs, s);
      NoSizes(cands);
    }
  }

  lemma NoSizes(cands: Store)
    ensures Total(SizesOf([], cands)) == 0
  {
  }

  lemma PickedFirst(cands: Store, s: set<int>) returns (h: int)
    requires s <= cands.Keys && exists h :: h in s
    ensures h in s && SampleBytes(cands, s) == |cands[h].raw| + SampleBytes(cands, s - {h})
  {
    h :| h in s && SampleBytes(cands, s) == |cands[h].raw| + SampleBytes(cands, s - {h});
  }

  // ----- What is added

  lemma SamplesKept(cands: Store, chosen: int -> int, min: int, h: int)
    ensures IsSample(Prepared(cands, chosen, min), h) <==> IsSample(cands, h)
  {
  }

  lemma SecondaryIsRetained(cands: Store, chosen: int -> int, min: int, sh: int)
    ensures sh in Secondary(cands, chosen, min) <==> Retained(cands, chosen, min, sh)
  {
    if Retained(cands, chosen, min, sh) {
      var g :| g in cands && Secondarily(cands[g], chosen(g), min, sh);
      assert IsSecondary(cands, chosen, min, g, sh);
    }
    if sh in Secondary(cands, chosen, min) {
      var g :| g in cands && sh in cands[g].deflates && IsSecondary(cands, chosen, min, g, sh);
      assert Secondarily(cands[g], chosen(g), min, sh);
    }
  }

  /** There are 16 samples, of 96 KiB in all. */
  ghost predicate Trainable(hs: seq<int>, cands: Store)
    requires forall h :: h in hs ==> h in cands
  {
    |hs| >= 16 && Total(SizesOf(hs, cands)) >= 98304
  }

  /** The finished store has the contents before, the retained streams, and the dictionary if the samples
      are enough to train one and the trainer makes one; nothing else. */
  lemma FinishedMeans(cands: Store, chosen: int -> int, min: int, train: Trainer, sha: Digest)
    returns (hs: seq<int>, trained: Option<Bytes>)
    requires Digested(cands, sha) && StreamsDigested(cands, sha)
    ensures ListsSamples(hs, cands)
    ensures trained == if Trainable(hs, cands) then train(Prepared(cands, chosen, min)) else None
    ensures forall h :: h in Finished(cands, chosen, min, train, sha) <==>
              h in cands || Retained(cands, chosen, min, h) || (trained.Some? && h == sha(trained.value))
  {
    hide Prepared, Total, SampleBytes, Retained, Secondary, IsSample;
    var more := Prepared(cands, chosen, min);
    PreparedExact(cands, chosen, min, sha);
    var samples := Samples(more);
    SamplesAre(more);
    hs := ListOf(samples);
    forall h ensures h in hs <==> IsSample(cands, h) {
      SamplesKept(cands, chosen, min, h);
    }
    forall h | h in hs ensures h in cands {
      SampleStored(cands, h);
    }
    assert ListsSet(hs, samples);
    SampleBytesExact(more, samples, hs);
    assert SizesOf(hs, more) == SizesOf(hs, cands);
    trained := if Trainable(hs, cands) then train(more) else None;
    forall h ensures h in Secondary(cands, chosen, min) <==> Retained(cands, chosen, min, h) {
      SecondaryIsRetained(cands, chosen, min, h);
    }
  }

  /** Retained streams are opaque contents; everything else is as it was. */
  lemma PreparedEntries(cands: Store, chosen: int -> int, min: int, sha: Digest, h: int)
    requires Digested(cands, sha) && StreamsDigested(cands, sha) && h in Prepared(cands, chosen, min)
    ensures var c := Prepared(cands, chosen, min)[h];
            && sha(c.raw) == h
            && (h in cands ==> c.raw == cands[h].raw && c.deflates == cands[h].deflates)
            && (h !in cands ==> c.deflates == map[])
            && forall x :: x in c.hints <==>
                 (h in cands && x in cands[h].hints) || (x == OPAQUE_HINT && Retained(cands, chosen, min, h))
  {
    hide Secondary, Retained;
    PreparedExact(cands, chosen, min, sha);
    SecondaryIsRetained(cands, chosen, min, h);
  }

  /** The dictionary has the hint of dictionaries; everything else is as it was. */
  lemma DictionaryEntry(cands: Store, train: Trainer, sha: Digest, h: int)
    requires Digested(cands, sha) && h in Trained(cands, train, sha)
    ensures var c := Trained(cands, train, sha)[h];
            var trained := |Samples(cands)| >= 16 && SampleBytes(cands, Samples(cands)) >= 98304 && train(cands).Some?;
            && sha(c.raw) == h
            && (h in cands ==> c.raw == cands[h].raw && c.deflates == cands[h].deflates)
            && forall x :: x in c.hints <==>
                 (h in cands && x in cands[h].hints)
                 || (x == DICTIONARY_HINT && trained && h == sha(train(cands).value))
  {
    hide Samples, SampleBytes;
  }

  lemma SamplesAre(cands: Store)
    ensures forall h :: h in Samples(cands) <==> IsSample(cands, h)
  {
  }

  lemma SampleStored(cands: Store, h: int)
    requires IsSample(cands, h)
    ensures h in cands
  {
  }
}
