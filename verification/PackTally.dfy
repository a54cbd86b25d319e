/** The statistics that the v3 and v4 encoders return beside the candidate. */
module PackTally {
  import opened Sorting
  import opened Grouping
  import opened ControlRows
  import opened Descriptors

  /** `pack_groups`, `packed_rows`, `uniform_length_groups` and `contiguous_groups`. */
  datatype Tally = Tally(packs: nat, rows: nat, uniform: nat, contiguous: nat)

  const NO_TALLY := Tally(0, 0, 0, 0)

  function Counted(t: Tally, g: PackGroup): Tally {
    Tally(t.packs + 1, t.rows + |g.members|,
          t.uniform + if Uniform(Lengths(g.members)) then 1 else 0,
          t.contiguous + if Contiguous(FileIndices(g.members)) then 1 else 0)
  }

  function TallyOf(groups: seq<PackGroup>): Tally {
    if groups == [] then NO_TALLY else Counted(TallyOf(groups[..|groups| - 1]), groups[|groups| - 1])
  }

  lemma TallyNothing()
    ensures TallyOf([]) == NO_TALLY
  {
  }

  lemma TallyStep(groups: seq<PackGroup>, k: nat)
    requires k < |groups|
    ensures TallyOf(groups[..k + 1]) == Counted(TallyOf(groups[..k]), groups[k])
  {
    assert groups[..k + 1][..k] == groups[..k];
  }

  lemma {:induction false} TallyRows(groups: seq<PackGroup>)
    ensures TallyOf(groups).packs == |groups| && TallyOf(groups).rows == |Listed(groups)|
  {
    if groups != [] {
      var init, g := groups[..|groups| - 1], groups[|groups| - 1];
      assert groups == init + [g];
      TallyRows(init);
      ListedAppend(init, [g]);
      assert [g][1..] == [] && Listed([g]) == g.members;
    }
  }

  /** The tally counts every packed row once. */
  lemma TallyIsComplete(groups: seq<PackGroup>, f: seq<Row>)
    requires Arranged(groups, Packed(f))
    ensures TallyOf(groups).packs == |groups| && TallyOf(groups).rows == |Packed(f)|
  {
    ArrangedPermutes(groups, f);
    MembersMatch(Listed(groups), Packed(f));
    TallyRows(groups);
  }

  // ----- Against the descriptors

  /** Number of descriptors of one mode. */
  function WithMode(q: seq<Descriptor>, modeOf: Descriptor -> int, mode: int): nat {
    if q == [] then 0
    else WithMode(q[..|q| - 1], modeOf, mode) + if modeOf(q[|q| - 1]) == mode then 1 else 0
  }

  /** Mode of the descriptor of a pack: uniform packs have even modes, runs have modes 0 and 1. */
  function ModeOfPack(g: PackGroup): int {
    (if Contiguous(FileIndices(g.members)) then 0 else 2) + (if Uniform(Lengths(g.members)) then 0 else 1)
  }

  /** If every descriptor has its pack's mode, the tally can be read off the descriptors. */
  lemma {:induction false} TallyIsModes(groups: seq<PackGroup>, q: seq<Descriptor>, modeOf: Descriptor -> int)
    requires |q| == |groups|
    requires forall k :: 0 <= k < |q| ==> modeOf(q[k]) == ModeOfPack(groups[k])
    ensures TallyOf(groups).uniform == WithMode(q, modeOf, 0) + WithMode(q, modeOf, 2)
    ensures TallyOf(groups).contiguous == WithMode(q, modeOf, 0) + WithMode(q, modeOf, 1)
  {
    if groups != [] {
      var n := |groups| - 1;
      TallyIsModes(groups[..n], q[..n], modeOf);
    }
  }
}
