/** One applicant's card: the validation rule table that the card's form runs,
    the boolean its `validate()` handle returns, and the guards on the card's
    delete control and primary checkbox. */
module ApplicantForm {
  import opened ApplicantTypes

  /** The two predicates the rule table borrows from the form library: whether a
      value counts as non-empty, and whether it is a well-formed email address.
      Their definitions are not part of this model. */
  datatype Checks = Checks(notEmpty: string -> bool, isEmail: string -> bool)

  const FirstNameRequired := "First name is required"
  const LastNameRequired := "Last name is required"
  const EmailRequired := "Email is required"
  const InvalidEmail := "Invalid email address"
  const MobileRequired := "Mobile number is required"
  const MobileNotTenDigits := "Mobile number must be 10 digits"

  /** The values held by the card's form, one per editable field. */
  datatype FormValues = FormValues(firstName: string, lastName: string, mobile: string, email: string)
  {
    function Get(f: ApplicantField): string
    {
      match f
      case FirstName => firstName
      case LastName => lastName
      case Mobile => mobile
      case Email => email
    }
  }

  /** The form's values mirror the applicant's fields. */
  function ValuesOf(a: Applicant): (v: FormValues)
    ensures forall f :: v.Get(f) == ValueOf(a, f)
  {
    FormValues(a.firstName, a.lastName, a.mobile, a.email)
  }

  // ---------------------------------------------------------------------------
  // The mobile format: the regular expression /^\d{10}$/

  predicate IsDigit(ch: char)
  {
    '0' <= ch <= '9'
  }

  /** The anchored pattern `\d{n}` followed by end of input: `n` digits and nothing else. */
  predicate MatchesDigits(s: string, n: nat)
    decreases n
  {
    if n == 0 then s == []
    else |s| > 0 && IsDigit(s[0]) && MatchesDigits(s[1..], n - 1)
  }

  /** The anchored digit pattern accepts exactly the strings of `n` characters, each a decimal digit. */
  lemma {:induction false} MatchesDigitsMeans(s: string, n: nat)
    ensures MatchesDigits(s, n) <==> |s| == n && forall i :: 0 <= i < |s| ==> IsDigit(s[i])
    decreases n
  {
    if n > 0 && |s| > 0 {
      MatchesDigitsMeans(s[1..], n - 1);
      if |s| == n && forall i :: 0 <= i < |s| ==> IsDigit(s[i]) {
        assert forall i :: 0 <= i < |s[1..]| ==> IsDigit(s[1..][i]) by {
          forall i | 0 <= i < |s[1..]| ensures IsDigit(s[1..][i]) {
            assert s[1..][i] == s[i + 1];
          }
        }
      }
      if MatchesDigits(s, n) {
        forall i | 0 <= i < |s| ensures IsDigit(s[i]) {
          if i > 0 { assert s[i] == s[1..][i - 1]; }
        }
      }
    }
  }

  /** The mobile pattern: exactly ten characters, each '0'..'9'. */
  function TenDigits(s: string): (b: bool)
    ensures b <==> |s| == 10 && forall i :: 0 <= i < |s| ==> IsDigit(s[i])
  {
    MatchesDigitsMeans(s, 10);
    MatchesDigits(s, 10)
  }

  // ---------------------------------------------------------------------------
  // The rule table

  /** The library's "not empty" rule: the message when the value counts as empty, no error otherwise. */
  function Required(c: Checks, message: string, v: string): (r: Option<string>)
    ensures r.None? <==> c.notEmpty(v)
    ensures r.Some? ==> r.value == message
  {
    if c.notEmpty(v) then None else Some(message)
  }

  function FirstNameError(c: Checks, v: string): (r: Option<string>)
    ensures r == Some(FirstNameRequired) <==> !c.notEmpty(v)
    ensures r == None <==> c.notEmpty(v)
  {
    Required(c, FirstNameRequired, v)
  }

  function LastNameError(c: Checks, v: string): (r: Option<string>)
    ensures r == Some(LastNameRequired) <==> !c.notEmpty(v)
    ensures r == None <==> c.notEmpty(v)
  {
    Required(c, LastNameRequired, v)
  }

  /** Emptiness is checked before the format, so an empty email never reads as invalid. */
  function EmailError(c: Checks, v: string): (r: Option<string>)
    ensures r == Some(EmailRequired) <==> !c.notEmpty(v)
    ensures r == Some(InvalidEmail) <==> c.notEmpty(v) && !c.isEmail(v)
    ensures r == None <==> c.notEmpty(v) && c.isEmail(v)
  {
    var notEmptyError := Required(c, EmailRequired, v);
    if notEmptyError.Some? then notEmptyError
    else if !c.isEmail(v) then Some(InvalidEmail)
    else None
  }

  /** Emptiness is checked before the ten-digit format. */
  function MobileError(c: Checks, v: string): (r: Option<string>)
    ensures r == Some(MobileRequired) <==> !c.notEmpty(v)
    ensures r == Some(MobileNotTenDigits) <==>
              c.notEmpty(v) && !(|v| == 10 && forall i :: 0 <= i < |v| ==> IsDigit(v[i]))
    ensures r == None <==> c.notEmpty(v) && |v| == 10 && forall i :: 0 <= i < |v| ==> IsDigit(v[i])
  {
    var notEmptyError := Required(c, MobileRequired, v);
    if notEmptyError.Some? then notEmptyError
    else if !TenDigits(v) then Some(MobileNotTenDigits)
    else None
  }

  /** The rule for one field. */
  function FieldError(c: Checks, f: ApplicantField, v: string): Option<string>
  {
    match f
    case FirstName => FirstNameError(c, v)
    case LastName => LastNameError(c, v)
    case Mobile => MobileError(c, v)
    case Email => EmailError(c, v)
  }

  /** The error map the form's validation produces: one optional message per field. */
  datatype FormErrors = FormErrors(
    firstName: Option<string>,
    lastName: Option<string>,
    mobile: Option<string>,
    email: Option<string>)
  {
    function Get(f: ApplicantField): Option<string>
    {
      match f
      case FirstName => firstName
      case LastName => lastName
      case Mobile => mobile
      case Email => email
    }

    predicate HasErrors()
    {
      firstName.Some? || lastName.Some? || mobile.Some? || email.Some?
    }
  }

  /** Every field is checked against the current values, whether or not it was touched. */
  function Validate(c: Checks, v: FormValues): (e: FormErrors)
    ensures forall f :: e.Get(f) == FieldError(c, f, v.Get(f))
  {
    FormErrors(
      FirstNameError(c, v.firstName),
      LastNameError(c, v.lastName),
      MobileError(c, v.mobile),
      EmailError(c, v.email))
  }

  /** The card's `validate()` handle: true exactly when no field has an error. */
  function ValidateHandle(c: Checks, v: FormValues): (ok: bool)
    ensures ok <==> forall f :: FieldError(c, f, v.Get(f)).None?
  {
    var e := Validate(c, v);
    assert e.Get(FirstName) == e.firstName && e.Get(LastName) == e.lastName;
    assert e.Get(Mobile) == e.mobile && e.Get(Email) == e.email;
    !e.HasErrors()
  }

  /** What a valid form is, in terms of the two library predicates and the mobile format. */
  lemma ValidateHandleMeans(c: Checks, v: FormValues)
    ensures ValidateHandle(c, v) <==>
              c.notEmpty(v.firstName) && c.notEmpty(v.lastName) &&
              c.notEmpty(v.email) && c.isEmail(v.email) &&
              c.notEmpty(v.mobile) && TenDigits(v.mobile)
  {
  }

  // ---------------------------------------------------------------------------
  // Worked examples of the rule table

  /** An empty first name is the only error of an otherwise well-filled form. */
  lemma EmptyFirstNameExample(c: Checks)
    requires !c.notEmpty("") && c.notEmpty("Doe") && c.notEmpty("1234567890")
    requires c.notEmpty("a@b.com") && c.isEmail("a@b.com")
    ensures Validate(c, FormValues("", "Doe", "1234567890", "a@b.com"))
            == FormErrors(Some(FirstNameRequired), None, None, None)
  {
  }

  /** "12345" is too short, and ten characters with a space among them are not ten digits. */
  lemma MobileFormatExamples(c: Checks)
    requires c.notEmpty("12345") && c.notEmpty("12345 7890")
    ensures MobileError(c, "12345") == Some(MobileNotTenDigits)
    ensures MobileError(c, "12345 7890") == Some(MobileNotTenDigits)
  {
  }

  /** An empty email reports that it is required, never that it is malformed. */
  lemma EmptyEmailExample(c: Checks)
    requires !c.notEmpty("")
    ensures EmailError(c, "") == Some(EmailRequired)
    ensures EmailError(c, "") != Some(InvalidEmail)
  {
  }

  /** A fully and correctly filled form validates. */
  lemma ValidFormExample(c: Checks)
    requires c.notEmpty("Jane") && c.notEmpty("Doe") && c.notEmpty("1234567890")
    requires c.notEmpty("jane@doe.com") && c.isEmail("jane@doe.com")
    ensures ValidateHandle(c, FormValues("Jane", "Doe", "1234567890", "jane@doe.com"))
  {
  }

  // ---------------------------------------------------------------------------
  // The card's controls

  /** The primary checkbox is locked when it would leave no primary applicant:
      a non-primary card's checkbox is never locked, and none is locked while
      the primary can change hands. */
  function PrimaryCheckboxDisabled(isPrimary: bool, canChangePrimary: bool): (disabled: bool)
    ensures !isPrimary ==> !disabled
    ensures canChangePrimary ==> !disabled
    ensures isPrimary && !canChangePrimary ==> disabled
  {
    isPrimary && !canChangePrimary
  }

  /** The checkbox's change handler ignores the new checked state: it can only
      ever ask for this applicant to become primary, never to stop being primary. */
  function CheckboxChange(a: Applicant, checked: bool): (r: Request)
    ensures r == OnSetPrimary(a.id)
  {
    OnSetPrimary(a.id)
  }

  /** The requests a card for `a` can raise: edits of its own fields at any
      time, its own deletion only when the delete control is rendered, and its
      promotion only while the checkbox is enabled. */
  function CardRaises(a: Applicant, canDelete: bool, canChangePrimary: bool, r: Request): (raised: bool)
    ensures raised ==> !r.OnAdd? && r.id == a.id
  {
    match r
    case OnAdd(_) => false
    case OnUpdate(id, _, _) => id == a.id
    case OnDelete(id) => id == a.id && canDelete
    case OnSetPrimary(id) =>
      exists checked: bool {:trigger CheckboxChange(a, checked)} ::
        !PrimaryCheckboxDisabled(a.isPrimary, canChangePrimary) && r == CheckboxChange(a, checked)
  }

  /** The guards, read back: a delete is offered only when `canDelete`, and a
      promotion is offered exactly when the checkbox is enabled. */
  lemma CardGuards(a: Applicant, canDelete: bool, canChangePrimary: bool)
    ensures CardRaises(a, canDelete, canChangePrimary, OnDelete(a.id)) <==> canDelete
    ensures CardRaises(a, canDelete, canChangePrimary, OnSetPrimary(a.id))
            <==> !(a.isPrimary && !canChangePrimary)
    ensures forall id :: CardRaises(a, canDelete, canChangePrimary, OnSetPrimary(id)) ==> id == a.id
  {
    if !(a.isPrimary && !canChangePrimary) {
      assert OnSetPrimary(a.id) == CheckboxChange(a, true);
    }
  }
}
