/**
 * The add/edit modal of `src/components/EmployeeModal.jsx`: its form and error
 * state, the open-time reset or populate, the change handlers, the validator
 * that also requires an image, and the submit handler that saves through the
 * record store.
 */
module EmployeeModal {
  import opened Wrappers
  import opened Records
  import opened Browser
  import Storage
  import Text

  /**
   * The modal's `mapObj`: the label `handleChange` puts in a required message.
   * For every field its message is the one `validateForm` stores.
   */
  function Label(f: Field): (text: string)
    ensures text + " is required" == RequiredMessage(f)
  {
    match f
    case FullName => var t := "Full Name"; assert t + " is required" == RequiredMessage(FullName); t
    case Email => var t := "Email"; assert t + " is required" == RequiredMessage(Email); t
    case Gender => var t := "Gender"; assert t + " is required" == RequiredMessage(Gender); t
    case Dob => var t := "Date of Birth"; assert t + " is required" == RequiredMessage(Dob); t
    case State => var t := "State"; assert t + " is required" == RequiredMessage(State); t
    case Status => var t := "Status"; assert t + " is required" == RequiredMessage(Status); t
    case Image => var t := "Image"; assert t + " is required" == RequiredMessage(Image); t
  }

  /**
   * `validateForm`'s error map for the current form data: one check per field,
   * in order; every entry holds its field's fixed message.
   */
  function Validate(d: Employee): (errs: map<Field, string>)
    ensures forall f :: f in errs ==> errs[f] == RequiredMessage(f)
  {
    var e0: map<Field, string> := map[];
    var e1 := Flag(e0, Text.Trim(d.fullName) == "", FullName);
    var e2 := Flag(e1, Text.Trim(d.email) == "", Email);
    var e3 := Flag(e2, d.dob == "", Dob);
    var e4 := Flag(e3, d.state == "", State);
    var e5 := Flag(e4, d.gender == "", Gender);
    var e6 := Flag(e5, d.status == "", Status);
    Flag(e6, d.image == "", Image)
  }

  /** The entry `validateForm` leaves for one field: present exactly when the field is missing. */
  lemma ValidateAt(d: Employee, f: Field)
    ensures f in Validate(d) <==> Missing(d, f)
    ensures f in Validate(d) ==> Validate(d)[f] == RequiredMessage(f)
  {
    match f
    case FullName =>
    case Email =>
    case Dob =>
    case State =>
    case Gender =>
    case Status =>
    case Image =>
  }

  /**
   * The error map holds exactly the missing fields, the image included, each
   * with its fixed message; a present date of birth is never flagged.
   */
  lemma ValidateFlagsMissing(d: Employee)
    ensures forall f :: f in Validate(d) <==> Missing(d, f)
    ensures forall f :: f in Validate(d) ==> Validate(d)[f] == RequiredMessage(f)
    ensures d.image == "" ==> Image in Validate(d)
    ensures d.dob != "" ==> Dob !in Validate(d)
  {
    forall f
      ensures f in Validate(d) <==> Missing(d, f)
      ensures f in Validate(d) ==> Validate(d)[f] == RequiredMessage(f)
    {
      ValidateAt(d, f);
    }
  }

  /** The form passes validation exactly when no field, the image included, is missing. */
  lemma ValidIffNothingMissing(d: Employee)
    ensures |Validate(d)| == 0 <==> forall f :: !Missing(d, f)
  {
    ValidateFlagsMissing(d);
    var errs := Validate(d);
    if |errs| != 0 {
      var f :| f in errs;
    } else {
      assert errs == map[];
    }
  }

  /** `handleChange`'s effect on the error map when field `name` changes to `value`. */
  function AfterChange(errors: map<Field, string>, name: Field, value: string): (r: map<Field, string>)
    // other fields' entries are untouched
    ensures forall g :: g != name ==> (g in r <==> g in errors) && (g in errors ==> r[g] == errors[g])
    // a shown error is cleared to '' whatever the new value, even an empty one
    ensures HasError(errors, name) ==> name in r && r[name] == ""
    // otherwise an empty value raises the required message, a non-empty one changes nothing
    ensures !HasError(errors, name) && value == "" ==> name in r && r[name] == Label(name) + " is required"
    ensures !HasError(errors, name) && value != "" ==> r == errors
  {
    if HasError(errors, name) then errors[name := ""]
    else if value == "" then errors[name := Label(name) + " is required"]
    else errors
  }

  /** `handleImageChange`'s effect on the error map once the file is read. */
  function AfterImageChange(errors: map<Field, string>): (r: map<Field, string>)
    ensures HasError(errors, Image) ==> r == errors[Image := ""]
    ensures !HasError(errors, Image) ==> r == errors
    ensures !HasError(r, Image)
  {
    if HasError(errors, Image) then errors[Image := ""] else errors
  }

  class EmployeeModalState {
    var formData: Employee
    var errors: map<Field, string>
    var preview: Option<string>

    /** The initial component state. */
    constructor ()
      ensures formData == BlankForm && errors == map[] && preview == None
    {
      formData := BlankForm;
      errors := map[];
      preview := None;
    }

    /**
     * The effect on `[isOpen, employeeToEdit]`: when open, edit mode copies the
     * record (id included), add mode resets every field to ''; errors reset in
     * both. A closed modal keeps its state.
     */
    method OnOpen(isOpen: bool, employeeToEdit: Option<Employee>)
      modifies this
      ensures !isOpen ==> formData == old(formData) && errors == old(errors) && preview == old(preview)
      ensures isOpen && employeeToEdit.Some? ==>
        formData == employeeToEdit.value && preview == Some(employeeToEdit.value.image)
      ensures isOpen && employeeToEdit.None? ==> formData == BlankForm && preview == None
      ensures isOpen ==> errors == map[]
    {
      if isOpen {
        if employeeToEdit.Some? {
          formData := employeeToEdit.value;
          preview := Some(employeeToEdit.value.image);
        } else {
          formData := BlankForm;
          preview := None;
        }
        errors := map[];
      }
    }

    /** `handleChange`: the named field always takes the new value. */
    method HandleChange(name: Field, value: string)
      modifies this
      ensures formData == Set(old(formData), name, value)
      ensures errors == AfterChange(old(errors), name, value)
      ensures preview == old(preview)
    {
      formData := Set(formData, name, value);
      errors := AfterChange(errors, name, value);
    }

    /**
     * `handleImageChange`: `file` is the data URL the reader produced for the
     * chosen file, or `None` when no file was chosen.
     */
    method HandleImageChange(file: Option<string>)
      modifies this
      ensures file.None? ==> formData == old(formData) && errors == old(errors) && preview == old(preview)
      ensures file.Some? ==>
        formData == old(formData).(image := file.value) && preview == file &&
        errors == AfterImageChange(old(errors))
    {
      if file.Some? {
        formData := formData.(image := file.value);
        preview := file;
        errors := AfterImageChange(errors);
      }
    }

    /** `validateForm`: record the error map and report whether it is empty. */
    method ValidateForm() returns (ok: bool)
      modifies this
      ensures errors == Validate(formData)
      ensures ok <==> forall f :: !Missing(formData, f)
      ensures formData == old(formData) && preview == old(preview)
    {
      errors := Validate(formData);
      ValidIffNothingMissing(formData);
      ok := |errors| == 0;
    }

    /**
     * `handleSubmit`: validate; only a valid form is saved, after which the
     * parent's `onSave` and `onClose` run (reported as `saved`).
     */
    method HandleSubmit(ls: LocalStorage, clock: nat) returns (saved: bool)
      modifies this, ls
      ensures errors == Validate(old(formData))
      ensures saved <==> forall f :: !Missing(old(formData), f)
      ensures saved ==>
        ls.employeeData == Some(Serialized(Storage.Upserted(Storage.Decode(old(ls.employeeData)), old(formData), clock))) &&
        formData == Storage.Stamped(Storage.Decode(old(ls.employeeData)), old(formData), clock)
      ensures !saved ==> ls.employeeData == old(ls.employeeData) && formData == old(formData)
      ensures preview == old(preview)
      ensures ls.isAuthenticated == old(ls.isAuthenticated)
    {
      saved := ValidateForm();
      if saved {
        formData := Storage.SaveEmployee(ls, formData, clock);
      }
    }
  }
}
