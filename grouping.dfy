/**
 * Grouping the cleaned table by state: the distinct states, each with the
 * rows that carry it.
 */
module Grouping {
  import opened Facilities

  predicate HasState(rows: seq<Facility>, s: string) {
    exists f :: f in rows && f.state == s
  }

  predicate Distinct(states: seq<string>) {
    forall i, j :: 0 <= i < j < |states| ==> states[i] != states[j]
  }

  /**
   * The distinct states of `rows`. The definition lists them in order of
   * first appearance; the contract fixes which states are listed, not their
   * order.
   */
  function States(rows: seq<Facility>): (states: seq<string>)
    ensures Distinct(states)
    ensures forall s :: s in states <==> HasState(rows, s)
  {
    if rows == [] then []
    else
      var last := rows[|rows| - 1];
      assert rows == rows[..|rows| - 1] + [last];
      var earlier := States(rows[..|rows| - 1]);
      if last.state in earlier then earlier else earlier + [last.state]
  }

  /** The rows of state `s`: each of them as often as it occurs in `rows`, and nothing else. */
  function Group(rows: seq<Facility>, s: string): (group: seq<Facility>)
    ensures forall f {:trigger multiset(group)[f]} :: multiset(group)[f] == if f.state == s then multiset(rows)[f] else 0
  {
    if rows == [] then []
    else
      var last := rows[|rows| - 1];
      assert rows == rows[..|rows| - 1] + [last];
      Group(rows[..|rows| - 1], s) + (if last.state == s then [last] else [])
  }

  /** All the rows of the groups of `states`, put together. */
  function GroupUnion(rows: seq<Facility>, states: seq<string>): multiset<Facility> {
    if states == [] then multiset{}
    else GroupUnion(rows, states[..|states| - 1]) + multiset(Group(rows, states[|states| - 1]))
  }

  /** The groups of distinct states hold exactly the rows of those states. */
  lemma {:induction false} GroupUnionOfDistinct(rows: seq<Facility>, states: seq<string>, f: Facility)
    requires Distinct(states)
    ensures GroupUnion(rows, states)[f] == if f.state in states then multiset(rows)[f] else 0
  {
    if states != [] {
      var earlier, s := states[..|states| - 1], states[|states| - 1];
      assert states == earlier + [s];
      GroupUnionOfDistinct(rows, earlier, f);
    }
  }

  /** Grouping partitions the table: every row lands in exactly one group. */
  lemma {:induction false} GroupsPartitionRows(rows: seq<Facility>)
    ensures GroupUnion(rows, States(rows)) == multiset(rows)
  {
    forall f ensures GroupUnion(rows, States(rows))[f] == multiset(rows)[f] {
      GroupUnionOfDistinct(rows, States(rows), f);
      if f in rows {
        assert HasState(rows, f.state);
      }
    }
  }
}
