/** The applicant record and the vocabulary shared by the form card and the
    applicant collection: the editable fields and the requests a card or the
    "Add Applicant" button can raise. */
module ApplicantTypes {

  datatype Option<+T> = None | Some(value: T)

  /** Identifiers are opaque strings; how they are generated is not modelled. */
  type Id = string

  datatype Applicant = Applicant(
    id: Id,
    firstName: string,
    lastName: string,
    mobile: string,
    email: string,
    isPrimary: bool)

  /** The four editable text fields (every key of an applicant except id and isPrimary). */
  datatype ApplicantField = FirstName | LastName | Mobile | Email

  /** Reading one editable field by name. */
  function ValueOf(a: Applicant, f: ApplicantField): string
  {
    match f
    case FirstName => a.firstName
    case LastName => a.lastName
    case Mobile => a.mobile
    case Email => a.email
  }

  /** The object spread `{ ...a, [f]: v }`: a copy of `a` with field `f` set to `v`. */
  function WithField(a: Applicant, f: ApplicantField, v: string): (r: Applicant)
    ensures r.id == a.id && r.isPrimary == a.isPrimary
    ensures ValueOf(r, f) == v
    ensures forall g :: g != f ==> ValueOf(r, g) == ValueOf(a, g)
  {
    match f
    case FirstName => a.(firstName := v)
    case LastName => a.(lastName := v)
    case Mobile => a.(mobile := v)
    case Email => a.(email := v)
  }

  /** The requests that reach the collection: the add button, and the three
      callbacks a card is given (onUpdate, onDelete, onSetPrimary). */
  datatype Request =
    | OnAdd(newId: Id)
    | OnUpdate(id: Id, field: ApplicantField, value: string)
    | OnDelete(id: Id)
    | OnSetPrimary(id: Id)
}
