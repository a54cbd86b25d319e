/** The exact 0/1 knapsack oracle: a sparse table from bytes given back to the most CPU removed. */
module Knapsack {
  import opened Numbers
  import opened Sorting

  /** `saving_bytes` and `median_l19_cpu_s` of one pack. */
  datatype Row = Row(saving: int, cpu: real)

  function Weight(r: Row): nat {
    NonNegative(r.saving)
  }

  function Value(r: Row): real {
    if r.cpu < 0.0 then 0.0 else r.cpu
  }

  /** Neither is negative, neither is below its column, and neither is anything else. */
  lemma RowExact(r: Row)
    ensures Weight(r) >= r.saving && (Weight(r) == 0 || Weight(r) == r.saving)
    ensures Value(r) >= r.cpu && Value(r) >= 0.0 && (Value(r) == 0.0 || Value(r) == r.cpu)
  {
  }

  /** CPU removed, and the rows that were taken: the source's bit mask, as a set of positions. */
  datatype Best = Best(cpu: real, mask: set<nat>)

  type States = map<nat, Best>

  datatype Outcome = Outcome(giveback: nat, cpuRemoved: real, selectedCount: nat, selected: seq<Row>)

  // ----- What any choice of rows weighs and removes

  function WeightOf(rows: seq<Row>, chosen: set<nat>): nat {
    if rows == [] then 0
    else
      var last := |rows| - 1;
      WeightOf(rows[..last], chosen) + if last in chosen then Weight(rows[last]) else 0
  }

  function ValueOf(rows: seq<Row>, chosen: set<nat>): real {
    if rows == [] then 0.0
    else
      var last := |rows| - 1;
      ValueOf(rows[..last], chosen) + if last in chosen then Value(rows[last]) else 0.0
  }

  function Selected(rows: seq<Row>, mask: set<nat>): seq<Row> {
    if rows == [] then []
    else
      var last := |rows| - 1;
      Selected(rows[..last], mask) + if last in mask then [rows[last]] else []
  }

  // ----- The table as a function

  /** The keys `used + weight`, within the budget, that the visited entries move to. */
  function Moved(done: set<nat>, w: nat, budget: int): set<nat> {
    set k: nat | k <= budget && MovesTo(done, w, k)
  }

  predicate MovesTo(done: set<nat>, w: nat, k: nat) {
    w <= k && k - w in done
  }

  /** The inner loop once it has visited the entries `done`. */
  function StepOn(states: States, done: set<nat>, r: Row, idx: nat, budget: int): States {
    map k | k in states.Keys + Moved(done, Weight(r), budget) ::
      if k in Moved(done, Weight(r), budget) && k - Weight(r) in states
         && (k !in states || states[k - Weight(r)].cpu + Value(r) > states[k].cpu)
      then Best(states[k - Weight(r)].cpu + Value(r), states[k - Weight(r)].mask + {idx})
      else if k in states then states[k]
      else Best(0.0, {})
  }

  function Step(states: States, r: Row, idx: nat, budget: int): States {
    StepOn(states, states.Keys, r, idx, budget)
  }

  function Table(rows: seq<Row>, budget: int): States {
    if rows == [] then map[0 := Best(0.0, {})]
    else
      var last := |rows| - 1;
      Step(Table(rows[..last], budget), rows[last], last, budget)
  }

  // ----- The table is sound and complete

  /** An entry stands for an actual choice of rows that weighs and removes exactly what it says. */
  ghost predicate Stands(rows: seq<Row>, budget: int, used: nat, best: Best) {
    && (forall i :: i in best.mask ==> i < |rows|)
    && WeightOf(rows, best.mask) == used
    && ValueOf(rows, best.mask) == best.cpu
    && (used <= budget || used == 0)
  }

  lemma {:induction false} UnchosenRow(rows: seq<Row>, a: set<nat>, b: set<nat>)
    requires forall i :: 0 <= i < |rows| ==> (i in a <==> i in b)
    ensures WeightOf(rows, a) == WeightOf(rows, b) && ValueOf(rows, a) == ValueOf(rows, b)
  {
    if rows != [] {
      UnchosenRow(rows[..|rows| - 1], a, b);
    }
  }

  lemma StandsKept(init: seq<Row>, r: Row, budget: int, used: nat, best: Best)
    requires Stands(init, budget, used, best)
    ensures Stands(init + [r], budget, used, best)
  {
    assert (init + [r])[..|init|] == init;
  }

  lemma StandsTaken(init: seq<Row>, r: Row, budget: int, used: nat, best: Best)
    requires Stands(init, budget, used, best) && used + Weight(r) <= budget
    ensures Stands(init + [r], budget, used + Weight(r), Best(best.cpu + Value(r), best.mask + {|init|}))
  {
    assert (init + [r])[..|init|] == init;
    UnchosenRow(init, best.mask, best.mask + {|init|});
  }

  /** Where an entry of the next table comes from. */
  lemma StepSource(states: States, r: Row, idx: nat, budget: int, k: nat)
    requires k in Step(states, r, idx, budget)
    ensures var u := k - Weight(r);
            var e := Step(states, r, idx, budget)[k];
            || (k in states && e == states[k])
            || (0 <= u && u in states && k <= budget && e == Best(states[u].cpu + Value(r), states[u].mask + {idx}))
  {
  }

  lemma StepSound(init: seq<Row>, r: Row, budget: int, before: States)
    requires forall used :: used in before ==> Stands(init, budget, used, before[used])
    ensures var after := Step(before, r, |init|, budget);
            forall used :: used in after ==> Stands(init + [r], budget, used, after[used])
  {
    hide Stands, Step;
    var after := Step(before, r, |init|, budget);
    forall used | used in after ensures Stands(init + [r], budget, used, after[used]) {
      StepSource(before, r, |init|, budget, used);
      if used in before && after[used] == before[used] {
        StandsKept(init, r, budget, used, before[used]);
      } else {
        StandsTaken(init, r, budget, used - Weight(r), before[used - Weight(r)]);
      }
    }
  }

  lemma {:induction false} TableSound(rows: seq<Row>, budget: int)
    ensures 0 in Table(rows, budget)
    ensures forall used :: used in Table(rows, budget) ==> Stands(rows, budget, used, Table(rows, budget)[used])
  {
    if rows != [] {
      hide Stands, Step;
      var last := |rows| - 1;
      var init, r := rows[..last], rows[last];
      assert rows == init + [r];
      TableSound(init, budget);
      StepKeeps(Table(init, budget), r, last, budget, 0);
      StepSound(init, r, budget, Table(init, budget));
    } else {
      assert WeightOf([], {}) == 0 && ValueOf([], {}) == 0.0;
    }
  }

  /** Every choice within the budget is matched by an entry of the same weight that removes no less. */
  lemma {:induction false} TableComplete(rows: seq<Row>, budget: int, chosen: set<nat>)
    requires WeightOf(rows, chosen) <= budget
    ensures WeightOf(rows, chosen) in Table(rows, budget)
    ensures ValueOf(rows, chosen) <= Table(rows, budget)[WeightOf(rows, chosen)].cpu
  {
    if rows != [] {
      var last := |rows| - 1;
      var init, r := rows[..last], rows[last];
      TableComplete(init, budget, chosen);
      var u := WeightOf(init, chosen);
      var before := Table(init, budget);
      if last in chosen {
        assert u in before && u + Weight(r) in Moved(before.Keys, Weight(r), budget);
        StepAtLeast(before, r, last, budget, u);
      } else {
        StepKeeps(before, r, last, budget, u);
      }
    }
  }

  lemma StepAtLeast(states: States, r: Row, idx: nat, budget: int, u: nat)
    requires u in states && u + Weight(r) <= budget
    ensures u + Weight(r) in Step(states, r, idx, budget)
    ensures Step(states, r, idx, budget)[u + Weight(r)].cpu >= states[u].cpu + Value(r)
  {
    var k := u + Weight(r);
    assert k in Moved(states.Keys, Weight(r), budget);
    assert k - Weight(r) == u;
  }

  lemma StepKeeps(states: States, r: Row, idx: nat, budget: int, u: nat)
    requires u in states
    ensures u in Step(states, r, idx, budget) && Step(states, r, idx, budget)[u].cpu >= states[u].cpu
  {
  }

  // ----- The result

  /** Entry `k` removes the most CPU, and of those that do it gives back the fewest bytes. */
  ghost predicate IsChoice(states: States, k: nat) {
    k in states && forall j :: j in states ==>
      states[j].cpu < states[k].cpu || (states[j].cpu == states[k].cpu && j >= k)
  }

  function OutcomeAt(rows: seq<Row>, states: States, k: nat): Outcome
    requires k in states
  {
    var selected := Selected(rows, states[k].mask);
    Outcome(k, states[k].cpu, |selected|, selected)
  }

  function TotalWeight(rows: seq<Row>): nat {
    if rows == [] then 0 else TotalWeight(rows[..|rows| - 1]) + Weight(rows[|rows| - 1])
  }

  function TotalValue(rows: seq<Row>): real {
    if rows == [] then 0.0 else TotalValue(rows[..|rows| - 1]) + Value(rows[|rows| - 1])
  }

  /** What the selected rows weigh and remove in all. */
  lemma {:induction false} SelectedTotals(rows: seq<Row>, mask: set<nat>)
    ensures TotalWeight(Selected(rows, mask)) == WeightOf(rows, mask)
    ensures TotalValue(Selected(rows, mask)) == ValueOf(rows, mask)
  {
    if rows != [] {
      var last := |rows| - 1;
      var init, all := Selected(rows[..last], mask), Selected(rows, mask);
      SelectedTotals(rows[..last], mask);
      if last in mask {
        assert all == init + [rows[last]] && all[..|init|] == init;
      } else {
        assert all == init;
      }
    }
  }

  /** The selected rows are those at the chosen positions, in their order. */
  lemma {:induction false} SelectedExact(rows: seq<Row>, mask: set<nat>) returns (at: seq<nat>)
    ensures IsPart(Selected(rows, mask), rows, at)
    ensures forall i :: 0 <= i < |rows| ==> (i in at <==> i in mask)
  {
    hide IsPart;
    at := [];
    if rows == [] {
      NoPart<Row>();
    } else {
      var last := |rows| - 1;
      at := SelectedExact(rows[..last], mask);
      PartGrows(Selected(rows[..last], mask), rows[..last], at, rows[last]);
      assert rows[..last] + [rows[last]] == rows;
      if last in mask {
        at := at + [last];
      } else {
        assert Selected(rows[..last], mask) + [] == Selected(rows[..last], mask);
      }
    }
  }

  /** What the selection weighs and removes, column by column. */
  lemma {:induction false} TotalsAreSums(rows: seq<Row>)
    ensures TotalWeight(rows) == Total(seq(|rows|, k requires 0 <= k < |rows| =>
              if rows[k].saving > 0 then rows[k].saving else 0))
    ensures TotalValue(rows) == RealTotal(seq(|rows|, k requires 0 <= k < |rows| =>
              if rows[k].cpu > 0.0 then rows[k].cpu else 0.0))
  {
    var weights := seq(|rows|, k requires 0 <= k < |rows| => if rows[k].saving > 0 then rows[k].saving else 0);
    var values := seq(|rows|, k requires 0 <= k < |rows| => if rows[k].cpu > 0.0 then rows[k].cpu else 0.0);
    if rows != [] {
      var init := rows[..|rows| - 1];
      TotalsAreSums(init);
      var before := seq(|init|, k requires 0 <= k < |init| => if init[k].saving > 0 then init[k].saving else 0);
      assert weights == before + [weights[|init|]];
      TotalAppend(before, [weights[|init|]]);
      assert [weights[|init|]][1..] == [];
      assert values[..|init|]
          == seq(|init|, k requires 0 <= k < |init| => if init[k].cpu > 0.0 then init[k].cpu else 0.0);
    }
  }

  function RealTotal(s: seq<real>): real {
    if s == [] then 0.0 else RealTotal(s[..|s| - 1]) + s[|s| - 1]
  }

  /** The oracle is exact: its rows weigh `giveback` and remove `cpuRemoved`; within a budget that is not
      negative it stays within the budget, no choice within the budget removes more, and none that
      removes as much gives back fewer bytes. With a negative budget it selects nothing. */
  lemma ChoiceIsOptimal(rows: seq<Row>, budget: int, k: nat)
    requires IsChoice(Table(rows, budget), k)
    ensures var r := OutcomeAt(rows, Table(rows, budget), k);
            && r.selectedCount == |r.selected|
            && TotalWeight(r.selected) == r.giveback
            && TotalValue(r.selected) == r.cpuRemoved
            && (budget >= 0 ==> r.giveback <= budget)
            && (budget < 0 ==> r.giveback == 0)
    ensures var r := OutcomeAt(rows, Table(rows, budget), k);
            forall chosen :: WeightOf(rows, chosen) <= budget ==>
              ValueOf(rows, chosen) < r.cpuRemoved
              || (ValueOf(rows, chosen) == r.cpuRemoved && r.giveback <= WeightOf(rows, chosen))
  {
    var states := Table(rows, budget);
    TableSound(rows, budget);
    SelectedTotals(rows, states[k].mask);
    forall chosen | WeightOf(rows, chosen) <= budget
      ensures ValueOf(rows, chosen) < states[k].cpu
              || (ValueOf(rows, chosen) == states[k].cpu && k <= WeightOf(rows, chosen))
    {
      TableComplete(rows, budget, chosen);
    }
  }

  // ----- The procedure

  lemma StepOnNothing(states: States, r: Row, idx: nat, budget: int)
    ensures StepOn(states, {}, r, idx, budget) == states
  {
  }

  /** One entry visited: it moves to a key that no other entry moves to. */
  lemma MovedExact(done: set<nat>, w: nat, budget: int)
    ensures forall k: nat :: k in Moved(done, w, budget) <==> k <= budget && MovesTo(done, w, k)
  {
  }

  lemma StepOnOne(states: States, done: set<nat>, u: nat, r: Row, idx: nat, budget: int)
    requires u in states && u !in done
    ensures var k, updated := u + Weight(r), StepOn(states, done, r, idx, budget);
            && (k in updated <==> k in states)
            && (k in states ==> updated[k] == states[k])
            && StepOn(states, done + {u}, r, idx, budget) ==
               if k <= budget && (k !in updated || states[u].cpu + Value(r) > updated[k].cpu)
               then updated[k := Best(states[u].cpu + Value(r), states[u].mask + {idx})]
               else updated
  {
    hide Moved;
    var w, k := Weight(r), u + Weight(r);
    MovedExact(done, w, budget);
    MovedExact(done + {u}, w, budget);
    var updated, after := StepOn(states, done, r, idx, budget), StepOn(states, done + {u}, r, idx, budget);
    var expected := if k <= budget && (k !in updated || states[u].cpu + Value(r) > updated[k].cpu)
                    then updated[k := Best(states[u].cpu + Value(r), states[u].mask + {idx})] else updated;
    assert after.Keys == expected.Keys;
    forall j | j in after ensures after[j] == expected[j] {
      assert j in Moved(done + {u}, w, budget) <==> j in Moved(done, w, budget) || (j == k && k <= budget);
    }
  }

  /** One row: every entry, in any order, offered this row on top. */
  method Offer(states: States, r: Row, idx: nat, budget: int) returns (updated: States)
    ensures updated == Step(states, r, idx, budget)
  {
    hide StepOn;
    updated := states;
    var todo := states.Keys;
    StepOnNothing(states, r, idx, budget);
    assert states.Keys - todo == {};
    while todo != {}
      invariant todo <= states.Keys
      invariant updated == StepOn(states, states.Keys - todo, r, idx, budget)
    {
      var used :| used in todo;
      StepOnOne(states, states.Keys - todo, used, r, idx, budget);
      assert states.Keys - (todo - {used}) == (states.Keys - todo) + {used};
      todo := todo - {used};
      var newUsed := used + Weight(r);
      if newUsed <= budget {
        var newCpu := states[used].cpu + Value(r);
        if newUsed !in updated || newCpu > updated[newUsed].cpu {
          updated := updated[newUsed := Best(newCpu, states[used].mask + {idx})];
        }
      }
    }
    assert states.Keys - {} == states.Keys;
  }

  /** `max(states.items(), key=...)` */
  method Choose(states: States) returns (best: nat)
    requires states != map[]
    ensures IsChoice(states, best)
  {
    best :| best in states;
    var todo := states.Keys - {best};
    while todo != {}
      invariant best in states && todo <= states.Keys
      invariant forall j :: j in states && j !in todo ==>
                  states[j].cpu < states[best].cpu || (states[j].cpu == states[best].cpu && j >= best)
    {
      var j :| j in todo;
      todo := todo - {j};
      if states[j].cpu > states[best].cpu || (states[j].cpu == states[best].cpu && j < best) {
        best := j;
      }
    }
  }

  method SolveExactKnapsack(rows: seq<Row>, budget: int) returns (r: Outcome)
    ensures exists k :: IsChoice(Table(rows, budget), k) && r == OutcomeAt(rows, Table(rows, budget), k)
    ensures TotalWeight(r.selected) == r.giveback
    ensures TotalValue(r.selected) == r.cpuRemoved
    ensures if budget >= 0 then r.giveback <= budget else r.giveback == 0
    ensures forall chosen :: WeightOf(rows, chosen) <= budget ==>
              ValueOf(rows, chosen) < r.cpuRemoved
              || (ValueOf(rows, chosen) == r.cpuRemoved && r.giveback <= WeightOf(rows, chosen))
  {
    hide Step, IsChoice, WeightOf, ValueOf;
    var states: States := map[0 := Best(0.0, {})];
    for idx := 0 to |rows|
      invariant states == Table(rows[..idx], budget)
    {
      assert rows[..idx + 1][..idx] == rows[..idx];
      states := Offer(states, rows[idx], idx, budget);
    }
    assert rows[..|rows|] == rows;
    TableSound(rows, budget);
    var used := Choose(states);
    ChoiceIsEntry(states, used);
    ChoiceIsOptimal(rows, budget, used);
    var selected := Selection(rows, states[used].mask);
    r := Outcome(used, states[used].cpu, |selected|, selected);
  }

  lemma ChoiceIsEntry(states: States, k: nat)
    requires IsChoice(states, k)
    ensures k in states
  {
  }

  /** `[rows[i] for i in range(len(rows)) if mask & (1 << i)]` */
  method Selection(rows: seq<Row>, mask: set<nat>) returns (selected: seq<Row>)
    ensures selected == Selected(rows, mask)
  {
    selected := [];
    for i := 0 to |rows|
      invariant selected == Selected(rows[..i], mask)
    {
      assert rows[..i + 1][..i] == rows[..i];
      if i in mask {
        selected := selected + [rows[i]];
      }
    }
    assert rows[..|rows|] == rows;
  }
}
