/**
 * The employee list page of `src/pages/EmployeeList.jsx`: the loaded list, the
 * filter state edited by the search box and the two selects, the filter
 * predicate that decides which rows are shown, and the delete handler.
 */
module EmployeeList {
  import opened Wrappers
  import opened Records
  import opened Browser
  import Storage
  import Seqs
  import Text

  datatype FilterState = FilterState(search: string, gender: string, status: string)

  /** The filter state when the page mounts: no criterion set. */
  const InitialFilter: FilterState := FilterState("", "", "")

  /**
   * The row predicate: the lower-cased full name includes the lower-cased
   * search text, and each non-empty select equals the record's field. With
   * no criterion set every record matches, and a search text longer than the
   * name never does.
   */
  predicate Matches(f: FilterState, e: Employee)
    ensures f.search == "" && f.gender == "" && f.status == "" ==> Matches(f, e)
    ensures Matches(f, e) ==> |f.search| <= |e.fullName|
  {
    Text.Contains(Text.ToLower(e.fullName), Text.ToLower(f.search))
    && (if f.gender != "" then e.gender == f.gender else true)
    && (if f.status != "" then e.status == f.status else true)
  }

  /** `filteredData`: the loaded records that match the filter, in order. */
  function FilteredData(es: seq<Employee>, f: FilterState): (r: seq<Employee>)
    ensures forall k :: 0 <= k < |r| ==> r[k] in es && Matches(f, r[k])
    ensures forall k :: 0 <= k < |es| && Matches(f, es[k]) ==> es[k] in r
  {
    Seqs.Filter(es, (e: Employee) => Matches(f, e))
  }

  /** Every copy of a matching record is shown, and no copy of any other. */
  lemma FilteredMultiset(es: seq<Employee>, f: FilterState)
    ensures forall e :: multiset(FilteredData(es, f))[e] == if Matches(f, e) then multiset(es)[e] else 0
  {
    Seqs.FilterMultiset(es, (e: Employee) => Matches(f, e));
  }

  /** The shown rows are the loaded records in their loaded order, with some dropped. */
  lemma FilteredIsSubsequence(es: seq<Employee>, f: FilterState)
    ensures Seqs.IsSubsequence(FilteredData(es, f), es)
  {
    Seqs.FilterIsSubsequence(es, (e: Employee) => Matches(f, e));
  }

  /** With the initial filter state every loaded record is shown. */
  lemma InitialFilterShowsAll(es: seq<Employee>)
    ensures FilteredData(es, InitialFilter) == es
  {
    Seqs.FilterAll(es, (e: Employee) => Matches(InitialFilter, e));
  }

  /** The search is case-insensitive: lower-casing the search text changes no row's match. */
  lemma SearchIgnoresCase(f: FilterState, e: Employee)
    ensures Matches(f, e) <==> Matches(f.(search := Text.ToLower(f.search)), e)
  {
    Text.ToLowerIdempotent(f.search);
  }

  /** Filtering the shown rows again with the same filter changes nothing. */
  lemma FilteredIdempotent(es: seq<Employee>, f: FilterState)
    ensures FilteredData(FilteredData(es, f), f) == FilteredData(es, f)
  {
    Seqs.FilterIdempotent(es, (e: Employee) => Matches(f, e));
  }

  /**
   * `g` is at least as strict as `f` in every criterion: its search text
   * (lower-cased) includes that of `f`, and each select of `f` that is set is
   * set to the same value in `g`.
   */
  predicate AtLeastAsStrict(g: FilterState, f: FilterState)
  {
    Text.Contains(Text.ToLower(g.search), Text.ToLower(f.search))
    && (f.gender == "" || g.gender == f.gender)
    && (f.status == "" || g.status == f.status)
  }

  /** A stricter filter never shows a record that a weaker one hides. */
  lemma StricterFilterShowsFewer(es: seq<Employee>, g: FilterState, f: FilterState)
    requires AtLeastAsStrict(g, f)
    ensures Seqs.IsSubsequence(FilteredData(es, g), FilteredData(es, f))
  {
    forall e | e in es && Matches(g, e) ensures Matches(f, e) {
      Text.ContainsTransitive(Text.ToLower(e.fullName), Text.ToLower(g.search), Text.ToLower(f.search));
    }
    Seqs.FilterStricter(es, (e: Employee) => Matches(f, e), (e: Employee) => Matches(g, e));
  }

  /** The search reads `fullName` only: records that differ elsewhere match alike. */
  lemma SearchReadsNameOnly(f: FilterState, a: Employee, b: Employee)
    requires a.fullName == b.fullName && a.gender == b.gender && a.status == b.status
    ensures Matches(f, a) <==> Matches(f, b)
  {
  }

  /**
   * Two records, Alice (Female, Active) and Bob (Male, Inactive): searching "a"
   * shows Alice only, and selecting gender Male shows Bob only.
   */
  lemma AliceAndBob(alice: Employee, bob: Employee)
    requires alice.fullName == "Alice" && alice.gender == "Female" && alice.status == "Active"
    requires bob.fullName == "Bob" && bob.gender == "Male" && bob.status == "Inactive"
    ensures FilteredData([alice, bob], FilterState("a", "", "")) == [alice]
    ensures FilteredData([alice, bob], FilterState("", "Male", "")) == [bob]
  {
    assert Text.ToLower("Alice") == "alice";
    assert Text.ToLower("Bob") == "bob";
    assert Text.ToLower("a") == "a";
    assert Text.OccursAt("alice", "a", 0);
    assert !Text.Contains("bob", "a") by {
      forall i | 0 <= i <= 2 ensures !Text.OccursAt("bob", "a", i) {
        assert "bob"[i..i + 1] == ["bob"[i]];
      }
    }
    var byName, byGender := FilterState("a", "", ""), FilterState("", "Male", "");
    assert Matches(byName, alice) && !Matches(byName, bob);
    assert !Matches(byGender, alice) && Matches(byGender, bob);
    assert [alice, bob][1..] == [bob];
    assert [bob][1..] == [];
    var p1 := (e: Employee) => Matches(byName, e);
    var p2 := (e: Employee) => Matches(byGender, e);
    assert Seqs.Filter([bob], p1) == [];
    assert Seqs.Filter([alice, bob], p1) == [alice];
    assert Seqs.Filter([bob], p2) == [bob];
    assert Seqs.Filter([alice, bob], p2) == [bob];
  }

  class EmployeeListPage {
    var employees: seq<Employee>
    var filter: FilterState

    /** The page state before the mount effect runs. */
    constructor ()
      ensures employees == [] && filter == InitialFilter
    {
      employees := [];
      filter := InitialFilter;
    }

    /**
     * The rows the table shows: exactly the loaded records that match the
     * filter, every copy of each, in their loaded order.
     */
    function Shown(): (r: seq<Employee>)
      reads this
      ensures forall e :: e in r <==> e in employees && Matches(filter, e)
      ensures forall e :: multiset(r)[e] == if Matches(filter, e) then multiset(employees)[e] else 0
      ensures Seqs.IsSubsequence(r, employees)
    {
      FilteredIsSubsequence(employees, filter);
      FilteredMultiset(employees, filter);
      FilteredData(employees, filter)
    }

    /** `loadData`: replace the list with what the store holds now. */
    method LoadData(ls: LocalStorage)
      modifies this
      ensures employees == Storage.Decode(ls.employeeData)
      ensures filter == old(filter)
    {
      employees := Storage.GetEmployees(ls);
    }

    /** `handleDelete(id)`: when the user confirms, delete and reload; otherwise nothing. */
    method HandleDelete(ls: LocalStorage, id: Option<string>, confirmed: bool)
      modifies this, ls
      ensures confirmed ==>
        ls.employeeData == Some(Serialized(Storage.Removed(Storage.Decode(old(ls.employeeData)), id))) &&
        employees == Storage.Removed(Storage.Decode(old(ls.employeeData)), id)
      ensures !confirmed ==> ls.employeeData == old(ls.employeeData) && employees == old(employees)
      ensures ls.isAuthenticated == old(ls.isAuthenticated)
      ensures filter == old(filter)
    {
      if confirmed {
        Storage.DeleteEmployee(ls, id);
        LoadData(ls);
      }
    }

    /** The search box: `setFilter({ ...filter, search: value })`. */
    method SetSearch(value: string)
      modifies this
      ensures filter == old(filter).(search := value)
      ensures employees == old(employees)
    {
      filter := filter.(search := value);
    }

    /** The gender select: `setFilter({ ...filter, gender: value })`. */
    method SetGender(value: string)
      modifies this
      ensures filter == old(filter).(gender := value)
      ensures employees == old(employees)
    {
      filter := filter.(gender := value);
    }

    /** The status select: `setFilter({ ...filter, status: value })`. */
    method SetStatus(value: string)
      modifies this
      ensures filter == old(filter).(status := value)
      ensures employees == old(employees)
    {
      filter := filter.(status := value);
    }
  }
}
