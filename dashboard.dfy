/**
 * The dashboard of `src/pages/Dashboard.jsx`: three counts over the stored
 * list, zero until the mount effect computes them once.
 */
module Dashboard {
  import opened Records
  import Seqs

  datatype Stats = Stats(total: nat, active: nat, inactive: nat)

  /** The state before the effect runs. */
  const InitialStats: Stats := Stats(0, 0, 0)

  predicate IsActive(e: Employee)
  {
    e.status == "Active"
  }

  predicate IsInactive(e: Employee)
  {
    e.status == "Inactive"
  }

  /**
   * The counts the effect stores for the list `data`: the total is its length,
   * neither status count exceeds it, and an empty list gives the initial counts.
   */
  function ComputeStats(data: seq<Employee>): (s: Stats)
    ensures s.total == |data|
    ensures s.active <= s.total && s.inactive <= s.total
    ensures data == [] ==> s == InitialStats
  {
    Stats(|data|, Seqs.Count(data, IsActive), Seqs.Count(data, IsInactive))
  }

  /** Before loading, all counts are 0, which is also what an empty store yields. */
  lemma StatsBeforeLoad()
    ensures InitialStats.total == 0 && InitialStats.active == 0 && InitialStats.inactive == 0
    ensures ComputeStats([]) == InitialStats
  {
  }

  /**
   * `total` is the number of records and the other two count the exact
   * statuses; together they never exceed the total, and reach it exactly when
   * every status is 'Active' or 'Inactive'.
   */
  lemma StatsBounds(data: seq<Employee>)
    ensures ComputeStats(data).total == |data|
    ensures ComputeStats(data).active + ComputeStats(data).inactive <= ComputeStats(data).total
    ensures ComputeStats(data).active + ComputeStats(data).inactive == ComputeStats(data).total <==>
      forall e :: e in data ==> e.status == "Active" || e.status == "Inactive"
  {
    Seqs.CountDisjoint(data, IsActive, IsInactive);
  }

  /** The counts do not depend on the order of the stored list. */
  lemma StatsPermutationInvariant(data: seq<Employee>, other: seq<Employee>)
    requires multiset(data) == multiset(other)
    ensures ComputeStats(data) == ComputeStats(other)
  {
    assert |data| == |multiset(data)| == |multiset(other)| == |other|;
    Seqs.CountPermutation(data, other, IsActive);
    Seqs.CountPermutation(data, other, IsInactive);
  }

  /** Appending one record raises the total by one and its own status count by one. */
  lemma StatsAfterAppend(data: seq<Employee>, e: Employee)
    ensures ComputeStats(data + [e]).total == ComputeStats(data).total + 1
    ensures ComputeStats(data + [e]).active == ComputeStats(data).active + (if e.status == "Active" then 1 else 0)
    ensures ComputeStats(data + [e]).inactive == ComputeStats(data).inactive + (if e.status == "Inactive" then 1 else 0)
  {
    Seqs.FilterAppend(data, [e], IsActive);
    Seqs.FilterAppend(data, [e], IsInactive);
  }
}
