/**
 * The browser's `localStorage` as the core sees it: two keys. `employee_data`
 * holds the JSON text of the employee list; `isAuthenticated` holds the session
 * flag. JSON encoding itself is not modelled: a stored list is kept as the list.
 */
module Browser {
  import opened Wrappers
  import opened Records

  /** What the `employee_data` key can hold: the empty string, or a serialized list. */
  datatype EmployeeBlob = EmptyText | Serialized(records: seq<Employee>)

  class LocalStorage {
    var employeeData: Option<EmployeeBlob>
    var isAuthenticated: Option<string>

    /** A fresh browser profile: neither key is set. */
    constructor ()
      ensures employeeData == None && isAuthenticated == None
    {
      employeeData := None;
      isAuthenticated := None;
    }
  }
}
