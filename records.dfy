/**
 * The employee record and the form fields shared by the add/edit modal and the
 * add/edit page. A record's `id` is `None` when the key is absent (a new form
 * has no `id` key); JavaScript treats both `undefined` and `''` as falsy.
 */
module Records {
  import opened Wrappers
  import Text

  datatype Employee = Employee(
    id: Option<string>,
    fullName: string,
    email: string,
    gender: string,
    dob: string,
    state: string,
    status: string,
    image: string  // a data URL, or '' when no picture was chosen
  )

  /** The form inputs; `Image` is the file input, the others carry a `name` attribute. */
  datatype Field = FullName | Email | Gender | Dob | State | Status | Image

  /** JavaScript truthiness of an id: present and not the empty string. */
  predicate IsTruthyId(id: Option<string>)
  {
    id.Some? && id.value != ""
  }

  /** The initial (and reset) form state: every field '' and no `id` key. */
  const BlankForm: Employee := Employee(None, "", "", "", "", "", "", "")

  /** `formData[name]`. */
  function Get(d: Employee, f: Field): string
  {
    match f
    case FullName => d.fullName
    case Email => d.email
    case Gender => d.gender
    case Dob => d.dob
    case State => d.state
    case Status => d.status
    case Image => d.image
  }

  /** `{ ...formData, [name]: value }`. */
  function Set(d: Employee, f: Field, v: string): (r: Employee)
    ensures Get(r, f) == v
    ensures forall g :: g != f ==> Get(r, g) == Get(d, g)
    ensures r.id == d.id
  {
    match f
    case FullName => d.(fullName := v)
    case Email => d.(email := v)
    case Gender => d.(gender := v)
    case Dob => d.(dob := v)
    case State => d.(state := v)
    case Status => d.(status := v)
    case Image => d.(image := v)
  }

  /**
   * The required-field test both validators share: `fullName` and `email` are
   * missing when blank after `trim()`, every other field when it is ''. An
   * empty field is always missing, and a missing name or email holds white
   * space only.
   */
  predicate Missing(d: Employee, f: Field)
    ensures Get(d, f) == "" ==> Missing(d, f)
    ensures f == FullName || f == Email ==>
      (Missing(d, f) <==> forall i :: 0 <= i < |Get(d, f)| ==> Text.IsJsSpace(Get(d, f)[i]))
  {
    if f == FullName || f == Email then Text.Trim(Get(d, f)) == "" else Get(d, f) == ""
  }

  /** The message `validateForm` stores for a missing field (the same text in both variants). */
  function RequiredMessage(f: Field): string
  {
    match f
    case FullName => "Full Name is required"
    case Email => "Email is required"
    case Dob => "Date of Birth is required"
    case State => "State is required"
    case Gender => "Gender is required"
    case Status => "Status is required"
    case Image => "Image is required"
  }

  /** One step of `validateForm`: `if (failed) newErrors[f] = '<label> is required'`. */
  function Flag(errs: map<Field, string>, failed: bool, f: Field): map<Field, string>
  {
    if failed then errs[f := RequiredMessage(f)] else errs
  }

  /** JavaScript truthiness of an error-map entry: present and not ''. */
  predicate HasError(errors: map<Field, string>, f: Field)
  {
    f in errors && errors[f] != ""
  }
}
