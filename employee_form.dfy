/**
 * The add/edit page of `src/pages/EmployeeForm.jsx`: the same form state as the
 * modal, but with its own change handlers, a validator that never requires an
 * image, an edit-mode lookup by the route's id, and the error banner.
 */
module EmployeeForm {
  import opened Wrappers
  import opened Records
  import opened Browser
  import Storage
  import EmployeeModal
  import Text

  /**
   * The page's `mapObj`: it has no image entry and spells the date label
   * 'Date Of Birth', so `handleChange`'s date message differs from the one
   * `validateForm` stores, while every other field's message agrees.
   */
  function Label(f: Field): (text: string)
    requires f != Image
    ensures f != Dob ==> text + " is required" == RequiredMessage(f)
    ensures f == Dob ==> text + " is required" != RequiredMessage(f)
  {
    match f
    case FullName => "Full Name"
    case Email => "Email"
    case Gender => "Gender"
    case Dob =>
      assert ("Date Of Birth" + " is required")[5] != RequiredMessage(Dob)[5];
      "Date Of Birth"
    case State => "State"
    case Status => "Status"
  }

  /** `validateForm`'s error map: the modal's checks without the image check. */
  function Validate(d: Employee): (errs: map<Field, string>)
    ensures forall f :: f in errs ==> errs[f] == RequiredMessage(f)
  {
    var e0: map<Field, string> := map[];
    var e1 := Flag(e0, Text.Trim(d.fullName) == "", FullName);
    var e2 := Flag(e1, Text.Trim(d.email) == "", Email);
    var e3 := Flag(e2, d.dob == "", Dob);
    var e4 := Flag(e3, d.state == "", State);
    var e5 := Flag(e4, d.gender == "", Gender);
    Flag(e5, d.status == "", Status)
  }

  /** The entry `validateForm` leaves for one field; the image is never flagged. */
  lemma ValidateAt(d: Employee, f: Field)
    ensures f in Validate(d) <==> f != Image && Missing(d, f)
    ensures f in Validate(d) ==> Validate(d)[f] == RequiredMessage(f)
  {
    match f
    case FullName =>
    case Email =>
    case Dob =>
    case State =>
    case Gender =>
    case Status =>
    case Image =>
  }

  /** The error map holds exactly the missing fields other than the image. */
  lemma ValidateFlagsMissing(d: Employee)
    ensures forall f :: f in Validate(d) <==> f != Image && Missing(d, f)
    ensures forall f :: f in Validate(d) ==> Validate(d)[f] == RequiredMessage(f)
    ensures Image !in Validate(d)
  {
    forall f
      ensures f in Validate(d) <==> f != Image && Missing(d, f)
      ensures f in Validate(d) ==> Validate(d)[f] == RequiredMessage(f)
    {
      ValidateAt(d, f);
    }
  }

  /** The form passes validation exactly when no field other than the image is missing. */
  lemma ValidIffNothingMissing(d: Employee)
    ensures |Validate(d)| == 0 <==> forall f :: f != Image ==> !Missing(d, f)
  {
    ValidateFlagsMissing(d);
    var errs := Validate(d);
    if |errs| != 0 {
      var f :| f in errs;
    } else {
      assert errs == map[];
    }
  }

  /** The page's validator is the modal's with the image entry taken out. */
  lemma ValidateIsModalWithoutImage(d: Employee)
    ensures Validate(d) == EmployeeModal.Validate(d) - {Image}
  {
    ValidateFlagsMissing(d);
    EmployeeModal.ValidateFlagsMissing(d);
  }

  /** `handleChange`'s effect on the error map when field `name` changes to `value`. */
  function AfterChange(errors: map<Field, string>, name: Field, value: string): (r: map<Field, string>)
    requires name != Image
    // other fields' entries are untouched
    ensures forall g :: g != name ==> (g in r <==> g in errors) && (g in errors ==> r[g] == errors[g])
    // an empty value always raises the required message
    ensures value == "" ==> name in r && r[name] == Label(name) + " is required"
    // a non-empty value clears a shown error and otherwise changes nothing
    ensures value != "" && HasError(errors, name) ==> name in r && r[name] == ""
    ensures value != "" && !HasError(errors, name) ==> r == errors
  {
    if HasError(errors, name) && value != "" then errors[name := ""]
    else if value == "" then errors[name := Label(name) + " is required"]
    else errors
  }

  /** `handleImageChange`'s effect on the error map: an `image: ''` entry is always written. */
  function AfterImageChange(errors: map<Field, string>): (r: map<Field, string>)
    ensures Image in r && r[Image] == ""
    ensures forall g :: g != Image ==> (g in r <==> g in errors) && (g in errors ==> r[g] == errors[g])
  {
    errors[Image := ""]
  }

  /** The general banner: shown whenever the error map has a key, even one mapped to ''. */
  predicate BannerShown(errors: map<Field, string>)
  {
    |errors| > 0
  }

  /** An image upload shows the banner, even on a page that had no errors at all. */
  lemma ImageUploadShowsBanner(errors: map<Field, string>)
    ensures BannerShown(AfterImageChange(errors))
    ensures errors == map[] ==> AfterImageChange(errors) == map[Image := ""]
  {
    assert Image in AfterImageChange(errors);
  }

  /**
   * The two change rules part ways on a field that shows an error and is
   * emptied: the modal clears the message, the page sets it again.
   */
  lemma ChangeRulesDiffer(errors: map<Field, string>, name: Field)
    requires name != Image && HasError(errors, name)
    ensures EmployeeModal.AfterChange(errors, name, "")[name] == ""
    ensures AfterChange(errors, name, "")[name] == Label(name) + " is required"
    ensures EmployeeModal.AfterChange(errors, name, "") != AfterChange(errors, name, "")
  {
    assert AfterChange(errors, name, "")[name] != "";
  }

  /**
   * The edit-mode lookup: when the route has a (truthy) id, the first stored
   * record with that id; otherwise, or when none matches, nothing.
   */
  function EditRecord(es: seq<Employee>, routeId: Option<string>): (r: Option<Employee>)
    ensures r.Some? ==> IsTruthyId(routeId)
    ensures r.Some? ==>
      exists k :: 0 <= k < |es| && es[k] == r.value && es[k].id == routeId &&
        forall j :: 0 <= j < k ==> es[j].id != routeId
    ensures r.None? ==> !IsTruthyId(routeId) || Storage.IdAbsent(es, routeId)
  {
    if IsTruthyId(routeId) then
      var i := Storage.FindIndex(es, routeId);
      if i == -1 then None else Some(es[i])
    else None
  }

  /**
   * With distinct ids, opening the edit page for a record just saved (under
   * its possibly new id) loads exactly that record.
   */
  lemma EditAfterSaveLoadsSaved(es: seq<Employee>, e: Employee, clock: nat)
    requires Storage.DistinctIds(es)
    requires Storage.IdAbsent(es, Storage.GeneratedId(clock))
    requires IsTruthyId(Storage.Stamped(es, e, clock).id)
    ensures EditRecord(Storage.Upserted(es, e, clock), Storage.Stamped(es, e, clock).id)
      == Some(Storage.Stamped(es, e, clock))
  {
    Storage.UpsertedFindsStamped(es, e, clock);
  }

  class EmployeeFormPage {
    const routeId: Option<string>
    var formData: Employee
    var errors: map<Field, string>
    var preview: Option<string>

    /** The page state on mount; `routeId` is the `:id` route parameter, absent on the add route. */
    constructor (routeId: Option<string>)
      ensures this.routeId == routeId
      ensures formData == BlankForm && errors == map[] && preview == None
    {
      this.routeId := routeId;
      formData := BlankForm;
      errors := map[];
      preview := None;
    }

    /** The effect on `[id]`: populate the form from the stored record, when there is one. */
    method LoadForEdit(ls: LocalStorage)
      modifies this
      ensures EditRecord(Storage.Decode(ls.employeeData), routeId).Some? ==>
        formData == EditRecord(Storage.Decode(ls.employeeData), routeId).value &&
        preview == Some(formData.image)
      ensures EditRecord(Storage.Decode(ls.employeeData), routeId).None? ==>
        formData == old(formData) && preview == old(preview)
      ensures errors == old(errors)
    {
      if IsTruthyId(routeId) {
        var es := Storage.GetEmployees(ls);
        var i := Storage.FindIndex(es, routeId);
        if i != -1 {
          formData := es[i];
          preview := Some(es[i].image);
        }
      }
    }

    /** `handleChange` for one of the six named inputs: the field always takes the new value. */
    method HandleChange(name: Field, value: string)
      requires name != Image
      modifies this
      ensures formData == Set(old(formData), name, value)
      ensures errors == AfterChange(old(errors), name, value)
      ensures preview == old(preview)
    {
      formData := Set(formData, name, value);
      errors := AfterChange(errors, name, value);
    }

    /** `handleImageChange`: `file` is the data URL read from the chosen file, or `None`. */
    method HandleImageChange(file: Option<string>)
      modifies this
      ensures file.None? ==> formData == old(formData) && errors == old(errors) && preview == old(preview)
      ensures file.Some? ==>
        formData == old(formData).(image := file.value) && preview == file &&
        errors == AfterImageChange(old(errors))
    {
      if file.Some? {
        formData := formData.(image := file.value);
        preview := file;
        errors := AfterImageChange(errors);
      }
    }

    /** `validateForm`: record the error map and report whether it is empty. */
    method ValidateForm() returns (ok: bool)
      modifies this
      ensures errors == Validate(formData)
      ensures ok <==> forall f :: f != Image ==> !Missing(formData, f)
      ensures formData == old(formData) && preview == old(preview)
    {
      errors := Validate(formData);
      ValidIffNothingMissing(formData);
      ok := |errors| == 0;
    }

    /** `handleSubmit`: only a valid form is saved, and then the page navigates to the list. */
    method HandleSubmit(ls: LocalStorage, clock: nat) returns (navigateTo: Option<string>)
      modifies this, ls
      ensures errors == Validate(old(formData))
      ensures navigateTo.Some? <==> forall f :: f != Image ==> !Missing(old(formData), f)
      ensures navigateTo.Some? ==> navigateTo.value == "/employees"
      ensures navigateTo.Some? ==>
        ls.employeeData == Some(Serialized(Storage.Upserted(Storage.Decode(old(ls.employeeData)), old(formData), clock))) &&
        formData == Storage.Stamped(Storage.Decode(old(ls.employeeData)), old(formData), clock)
      ensures navigateTo.None? ==> ls.employeeData == old(ls.employeeData) && formData == old(formData)
      ensures preview == old(preview)
      ensures ls.isAuthenticated == old(ls.isAuthenticated)
    {
      var ok := ValidateForm();
      if ok {
        formData := Storage.SaveEmployee(ls, formData, clock);
        navigateTo := Some("/employees");
      } else {
        navigateTo := None;
      }
    }

    /** Whether the general error banner is shown. */
    function Banner(): (shown: bool)
      reads this
      ensures shown <==> errors != map[]
    {
      BannerShown(errors)
    }
  }
}
