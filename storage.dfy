/**
 * The record store of `src/utils/storage.js`: `getEmployees`, `saveEmployee`
 * (an upsert keyed by `id`) and `deleteEmployee`, each a whole-list
 * read-modify-write of the `employee_data` key. The pure functions state what
 * the list becomes; the methods perform the steps on the browser storage.
 */
module Storage {
  import opened Wrappers
  import opened Records
  import opened Browser
  import Seqs
  import Text

  /** What `getEmployees` returns for the content of the `employee_data` key. */
  function Decode(slot: Option<EmployeeBlob>): (r: seq<Employee>)
    ensures slot == None || slot == Some(EmptyText) ==> r == []
    ensures slot.Some? && slot.value.Serialized? ==> r == slot.value.records
  {
    match slot
    case None => []
    case Some(EmptyText) => []
    case Some(Serialized(records)) => records
  }

  /** `employees.findIndex(e => e.id === id)`: the first position holding `id`, or -1. */
  function FindIndex(es: seq<Employee>, id: Option<string>): (r: int)
    ensures -1 <= r < |es|
    ensures r >= 0 ==> es[r].id == id && forall j :: 0 <= j < r ==> es[j].id != id
    ensures r == -1 ==> forall j :: 0 <= j < |es| ==> es[j].id != id
  {
    if es == [] then -1
    else if es[0].id == id then 0
    else
      var k := FindIndex(es[1..], id);
      if k == -1 then -1 else k + 1
  }

  /** The id `Date.now().toString()` produces when the clock reads `clock` milliseconds. */
  function GeneratedId(clock: nat): (r: Option<string>)
    ensures IsTruthyId(r)
  {
    Some(Text.DecimalString(clock))
  }

  /**
   * The record `saveEmployee` stores: a record whose id is not in the list and
   * is falsy gets the generated id; otherwise the record is stored as given.
   */
  function Stamped(es: seq<Employee>, e: Employee, clock: nat): (r: Employee)
    ensures FindIndex(es, e.id) == -1 && !IsTruthyId(e.id) ==> r == e.(id := GeneratedId(clock))
    ensures FindIndex(es, e.id) != -1 || IsTruthyId(e.id) ==> r == e
    ensures IsTruthyId(r.id) || FindIndex(es, e.id) != -1
  {
    if FindIndex(es, e.id) == -1 && !IsTruthyId(e.id) then e.(id := GeneratedId(clock)) else e
  }

  /** The list `saveEmployee` writes back. */
  function Upserted(es: seq<Employee>, e: Employee, clock: nat): (r: seq<Employee>)
    // an entry with the same id: the first one is replaced in place, nothing else moves
    ensures FindIndex(es, e.id) != -1 ==>
      |r| == |es| && r[FindIndex(es, e.id)] == e &&
      forall j :: 0 <= j < |es| && j != FindIndex(es, e.id) ==> r[j] == es[j]
    // no entry with that id: the stamped record is appended after the unchanged list
    ensures FindIndex(es, e.id) == -1 ==>
      |r| == |es| + 1 && r[..|es|] == es && r[|es|] == Stamped(es, e, clock)
  {
    var i := FindIndex(es, e.id);
    if i != -1 then es[i := e] else es + [Stamped(es, e, clock)]
  }

  /** The list `deleteEmployee(id)` writes back: `employees.filter(e => e.id !== id)`. */
  function Removed(es: seq<Employee>, id: Option<string>): (r: seq<Employee>)
    ensures forall k :: 0 <= k < |r| ==> r[k].id != id && r[k] in es
    ensures forall k :: 0 <= k < |es| && es[k].id != id ==> es[k] in r
  {
    Seqs.Filter(es, (e: Employee) => e.id != id)
  }

  /** Deleting keeps every copy of every entry with another id, and none with the id. */
  lemma RemovedMultiset(es: seq<Employee>, id: Option<string>)
    ensures forall e :: multiset(Removed(es, id))[e] == if e.id != id then multiset(es)[e] else 0
  {
    Seqs.FilterMultiset(es, (e: Employee) => e.id != id);
  }

  /** No two entries share an id. */
  predicate DistinctIds(es: seq<Employee>)
  {
    forall i, j :: 0 <= i < j < |es| ==> es[i].id != es[j].id
  }

  /** `id` is held by no entry. */
  predicate IdAbsent(es: seq<Employee>, id: Option<string>)
  {
    forall k :: 0 <= k < |es| ==> es[k].id != id
  }

  /** After a save, the stored record is in the list under its (possibly new) id. */
  lemma UpsertedContainsStamped(es: seq<Employee>, e: Employee, clock: nat)
    ensures Stamped(es, e, clock) in Upserted(es, e, clock)
  {
    var i := FindIndex(es, e.id);
    if i != -1 {
      assert Upserted(es, e, clock)[i] == Stamped(es, e, clock);
    } else {
      assert Upserted(es, e, clock)[|es|] == Stamped(es, e, clock);
    }
  }

  /**
   * Saving keeps ids pairwise distinct, provided the clock does not produce an
   * id the list already holds.
   */
  lemma UpsertedKeepsDistinct(es: seq<Employee>, e: Employee, clock: nat)
    requires DistinctIds(es)
    requires IdAbsent(es, GeneratedId(clock))
    ensures DistinctIds(Upserted(es, e, clock))
  {
    var r := Upserted(es, e, clock);
    var i := FindIndex(es, e.id);
    if i != -1 {
      forall a, b | 0 <= a < b < |r| ensures r[a].id != r[b].id {
        if a != i && b != i {
          assert r[a] == es[a] && r[b] == es[b];
        } else if a == i {
          assert r[b] == es[b];
        } else {
          assert r[a] == es[a];
        }
      }
    } else {
      var s := Stamped(es, e, clock);
      forall a, b | 0 <= a < b < |r| ensures r[a].id != r[b].id {
        assert r[a] == es[a];
        if b < |es| {
          assert r[b] == es[b];
        } else {
          assert r[b] == s;
        }
      }
    }
  }

  /**
   * With distinct ids, looking up the saved record's id after a save finds
   * exactly the saved record: the last save for an id is the one visible.
   */
  lemma UpsertedFindsStamped(es: seq<Employee>, e: Employee, clock: nat)
    requires DistinctIds(es)
    requires IdAbsent(es, GeneratedId(clock))
    ensures var r := Upserted(es, e, clock);
      FindIndex(r, Stamped(es, e, clock).id) != -1 &&
      r[FindIndex(r, Stamped(es, e, clock).id)] == Stamped(es, e, clock)
  {
    var r := Upserted(es, e, clock);
    var s := Stamped(es, e, clock);
    UpsertedContainsStamped(es, e, clock);
    UpsertedKeepsDistinct(es, e, clock);
    var k :| 0 <= k < |r| && r[k] == s;
  }

  /** Deleting an id that no entry holds leaves the list unchanged. */
  lemma RemovedAbsent(es: seq<Employee>, id: Option<string>)
    requires IdAbsent(es, id)
    ensures Removed(es, id) == es
  {
    Seqs.FilterAll(es, (e: Employee) => e.id != id);
  }

  /** Deleting twice is deleting once. */
  lemma RemovedIdempotent(es: seq<Employee>, id: Option<string>)
    ensures Removed(Removed(es, id), id) == Removed(es, id)
  {
    RemovedAbsent(Removed(es, id), id);
  }

  /** Deleting keeps the remaining entries in their original relative order. */
  lemma RemovedKeepsOrder(es: seq<Employee>, id: Option<string>)
    ensures Seqs.IsSubsequence(Removed(es, id), es)
  {
    Seqs.FilterIsSubsequence(es, (e: Employee) => e.id != id);
  }

  lemma DistinctTail(es: seq<Employee>)
    requires es != [] && DistinctIds(es)
    ensures DistinctIds(es[1..])
    ensures forall k :: 0 <= k < |es| - 1 ==> es[1..][k].id != es[0].id
  {
  }

  lemma DistinctCons(x: Employee, t: seq<Employee>)
    requires DistinctIds(t)
    requires forall k :: 0 <= k < |t| ==> t[k].id != x.id
    ensures DistinctIds([x] + t)
  {
  }

  /** Keeping only some entries, in order, keeps ids pairwise distinct. */
  lemma {:induction false} FilterKeepsDistinct(es: seq<Employee>, p: Employee -> bool)
    requires DistinctIds(es)
    ensures DistinctIds(Seqs.Filter(es, p))
    decreases |es|
  {
    if es != [] {
      var rest := es[1..];
      DistinctTail(es);
      FilterKeepsDistinct(rest, p);
      if p(es[0]) {
        var t := Seqs.Filter(rest, p);
        forall k | 0 <= k < |t| ensures t[k].id != es[0].id {
          var j :| 0 <= j < |rest| && rest[j] == t[k];
        }
        DistinctCons(es[0], t);
      }
    }
  }

  /** Deleting keeps ids pairwise distinct. */
  lemma RemovedKeepsDistinct(es: seq<Employee>, id: Option<string>)
    requires DistinctIds(es)
    ensures DistinctIds(Removed(es, id))
  {
    FilterKeepsDistinct(es, (e: Employee) => e.id != id);
  }

  /**
   * Starting from an empty store: add a record without an id, edit its status
   * under the id it was given, then delete that id; the list is empty again.
   */
  lemma AddEditDeleteLeavesEmpty(e: Employee, clock: nat, newStatus: string)
    requires e.id == None
    ensures var added := Upserted([], e, clock);
      var edited := Upserted(added, added[0].(status := newStatus), clock);
      |added| == 1 && added[0].id == GeneratedId(clock) &&
      |edited| == 1 && edited[0].status == newStatus &&
      Removed(edited, GeneratedId(clock)) == []
  {
    var added := Upserted([], e, clock);
    assert added == [e.(id := GeneratedId(clock))];
    var edited := Upserted(added, added[0].(status := newStatus), clock);
    assert FindIndex(added, added[0].id) == 0;
    assert edited == [added[0].(status := newStatus)];
  }

  /** `getEmployees()`: the current list, or [] when the key is absent or ''. */
  method GetEmployees(ls: LocalStorage) returns (employees: seq<Employee>)
    ensures employees == Decode(ls.employeeData)
    ensures ls.employeeData == None || ls.employeeData == Some(EmptyText) ==> employees == []
  {
    var data := ls.employeeData;
    match data {
      case None => employees := [];
      case Some(EmptyText) => employees := [];
      case Some(Serialized(records)) => employees := records;
    }
  }

  /**
   * `saveEmployee(employee)`: replace the first entry with the same id, or
   * append (stamping a falsy id with the clock reading), then write the whole
   * list back. Returns the record as stored, which is what the caller's object
   * holds afterwards since the source assigns `employee.id` in place.
   */
  method SaveEmployee(ls: LocalStorage, employee: Employee, clock: nat) returns (stored: Employee)
    modifies ls
    ensures ls.employeeData == Some(Serialized(Upserted(Decode(old(ls.employeeData)), employee, clock)))
    ensures stored == Stamped(Decode(old(ls.employeeData)), employee, clock)
    ensures ls.isAuthenticated == old(ls.isAuthenticated)
  {
    var employees := GetEmployees(ls);
    var index := FindIndex(employees, employee.id);
    stored := employee;
    if index != -1 {
      employees := employees[index := stored];
    } else {
      if !IsTruthyId(stored.id) {
        stored := stored.(id := GeneratedId(clock));
      }
      employees := employees + [stored];
    }
    ls.employeeData := Some(Serialized(employees));
  }

  /** `deleteEmployee(id)`: drop every entry with that id and write the rest back. */
  method DeleteEmployee(ls: LocalStorage, id: Option<string>)
    modifies ls
    ensures ls.employeeData == Some(Serialized(Removed(Decode(old(ls.employeeData)), id)))
    ensures ls.isAuthenticated == old(ls.isAuthenticated)
  {
    var employees := GetEmployees(ls);
    employees := Seqs.Filter(employees, (e: Employee) => e.id != id);
    ls.employeeData := Some(Serialized(employees));
  }
}
