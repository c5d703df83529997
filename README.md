# Applicant form: collection state and per-applicant validation

This project models the core of a small client-side form that collects one or more
applicants (first name, last name, mobile, email, primary flag):

- **the applicant collection** owned by the `ApplicantsManager` page: the initial
  state, the add, delete, update-field and set-primary handlers, the submit gate,
  and the `canDelete` / `canChangePrimary` guards handed to each card;
- **the per-applicant card** `ApplicantForm`: the validation rule table (first
  name, last name, email, mobile), the boolean its `validate()` handle returns, and
  the guards on its delete control and primary checkbox.

Modules, one per source file:

| file | module | models |
|---|---|---|
| `applicant.dfy` | `ApplicantTypes` | `src/types/applicant.ts`: the applicant record, the editable fields, the object spread that sets one field, and the requests a card or the add button raise |
| `applicant_form.dfy` | `ApplicantForm` | `src/components/ApplicantForm.tsx`: rule table, `validate()`, card guards (pure) |
| `applicant_list.dfy` | `ApplicantList` | `src/components/ApplicantsManager.tsx`, the handlers as functions on the list of values, and the collection invariant "non-empty, exactly one primary, distinct ids" with the lemmas that the guarded requests keep it |
| `applicants_manager.dfy` | `ApplicantsManager` | `src/components/ApplicantsManager.tsx`, the state as a class whose field is a sequence of applicant *objects*: add, update and set-primary build new arrays (with fresh copies where the source spreads), delete keeps the surviving objects and flips `isPrimary` in place; submit is a loop over the list |

The state is modelled on objects because the delete handler's in-place write
(`remaining[0].isPrimary = true`) lands on an object that the previous state's
array also holds. `DeleteApplicant` states this: its new array is the previous
array's objects, filtered, and every object of the previous array reads as before
except the promoted one, which now reads as primary in the previous array too.
`UpdateApplicant` states which entries are fresh copies and which are the same
objects as before.

Identifiers are opaque strings passed in by the caller. Freshness and distinctness
are preconditions where they matter. The form library's `isNotEmpty` and `isEmail`
are fields of a `Checks` value, so every result holds for any definition of them.
The mobile pattern `/^\d{10}$/` is modelled as an anchored matcher of ten ASCII
digits. JavaScript's `\d` without the `u` flag is `[0-9]`, and `$` without the `m`
flag is the end of input. `MatchesDigitsMeans` proves the matcher accepts exactly
ten characters, each `'0'..'9'`.

Points where the code's behaviour is narrower or looser than one might expect:

- The page text says at least one applicant is required
  (`src/components/ApplicantsManager.tsx:156-157`). The delete handler itself
  rejects nothing: deleting the sole entry leaves an empty list
  (`ApplicantList.DeletedLastEmpties`). Only the card's guard (`canDelete`, which is
  `applicants.length > 1`) keeps the collection non-empty. `ApplicantList.OfferedWellformed`
  and `ApplicantsManager.Manager.CardRequestKeepsWellformed` prove the guards are enough.
- The required-field rules are whatever the library's `isNotEmpty` decides. The
  model adds no trimming of its own.
- Unticking the primary's checkbox does not unset it. The change handler ignores
  the checked state and calls `onSetPrimary` with the card's own id. On a
  well-formed list this leaves the list unchanged (`ApplicantList.UntickPrimaryNoOp`).

## Model

| member | source | states |
|---|---|---|
| `ApplicantTypes.WithField` | src/components/ApplicantsManager.tsx:76 | the spread copy has the named field set to the value, every other field, the id and the primary flag as before |
| `ApplicantForm.ValuesOf` | src/components/ApplicantForm.tsx:45-50 | each form value is the corresponding applicant field |
| `ApplicantForm.MatchesDigitsMeans` | src/components/ApplicantForm.tsx:67 | the anchored pattern `\d{n}$` accepts a string iff it has exactly n characters, each a decimal digit |
| `ApplicantForm.TenDigits` | src/components/ApplicantForm.tsx:67 | the mobile pattern holds iff the value is exactly ten characters, each '0'..'9' |
| `ApplicantForm.Required` | src/components/ApplicantForm.tsx:52-53 | the not-empty rule gives no error iff the value counts as non-empty, and otherwise its own message |
| `ApplicantForm.FirstNameError` | src/components/ApplicantForm.tsx:52 | "First name is required" iff the not-empty check fails, no error otherwise |
| `ApplicantForm.LastNameError` | src/components/ApplicantForm.tsx:53 | "Last name is required" iff the not-empty check fails, no error otherwise |
| `ApplicantForm.EmailError` | src/components/ApplicantForm.tsx:54-62 | "Email is required" iff the value counts as empty; "Invalid email address" iff it is non-empty and fails the email check; no error iff it passes both |
| `ApplicantForm.MobileError` | src/components/ApplicantForm.tsx:63-70 | "Mobile number is required" iff empty; "Mobile number must be 10 digits" iff non-empty and not ten digits; no error iff non-empty and exactly ten digits |
| `ApplicantForm.Validate` | src/components/ApplicantForm.tsx:51-71 | the error map gives every field the result of its own rule on the current value |
| `ApplicantForm.ValidateHandle` | src/components/ApplicantForm.tsx:75 | `validate()` is true iff no field has an error |
| `ApplicantForm.ValidateHandleMeans` | src/components/ApplicantForm.tsx:51-75 | a form validates iff both names and the email are non-empty, the email passes the email check, and the mobile is non-empty and ten digits |
| `ApplicantForm.EmptyFirstNameExample` | src/components/ApplicantForm.tsx:51-71 | an empty first name with the other fields well filled yields only "First name is required" |
| `ApplicantForm.MobileFormatExamples` | src/components/ApplicantForm.tsx:67-69 | "12345" and a ten-character value containing a space both yield "Mobile number must be 10 digits" |
| `ApplicantForm.EmptyEmailExample` | src/components/ApplicantForm.tsx:54-57 | an empty email yields "Email is required" and never "Invalid email address" |
| `ApplicantForm.ValidFormExample` | src/components/ApplicantForm.tsx:51-75 | a fully and correctly filled form validates |
| `ApplicantForm.CheckboxChange` | src/components/ApplicantForm.tsx:175 | whatever the checked state, changing the checkbox asks only for this applicant to become primary |
| `ApplicantForm.PrimaryCheckboxDisabled` | src/components/ApplicantForm.tsx:176 | a non-primary card's checkbox is never locked, none is locked while `canChangePrimary`, and the primary's is locked when `canChangePrimary` is false |
| `ApplicantForm.CardRaises` | src/components/ApplicantForm.tsx:105-176 | a card never raises the add request, and every request it raises carries its own applicant's id |
| `ApplicantForm.CardGuards` | src/components/ApplicantForm.tsx:105-176 | the card offers its own deletion iff `canDelete`; it offers promotion iff not (primary and not `canChangePrimary`); it never raises a request for another id's promotion |
| `ApplicantList.IndexOf` | src/components/ApplicantsManager.tsx:58 | the result is the first position holding the id, or the length when none does |
| `ApplicantList.Find` | src/components/ApplicantsManager.tsx:58 | nothing is found iff no entry has the id; otherwise the first entry with that id is found |
| `ApplicantList.CreateEmptyApplicant` | src/components/ApplicantsManager.tsx:24-33 | the new applicant has the given id and flag and all four fields empty |
| `ApplicantList.Initial` | src/components/ApplicantsManager.tsx:36-38 | the initial collection is one applicant, all fields empty, marked primary |
| `ApplicantList.Added` | src/components/ApplicantsManager.tsx:52-54 | adding appends one blank non-primary applicant and keeps the earlier entries unchanged and in order |
| `ApplicantList.Remove` | src/components/ApplicantsManager.tsx:59 | the filtered list holds exactly the entries of the list whose id differs |
| `ApplicantList.RemoveAppend` | src/components/ApplicantsManager.tsx:59 | filtering distributes over concatenation, so the kept entries keep their relative order |
| `ApplicantList.RemoveAbsent` | src/components/ApplicantsManager.tsx:59 | filtering out an id no entry has changes nothing |
| `ApplicantList.RemoveUnique` | src/components/ApplicantsManager.tsx:59 | with distinct ids, filtering a present id removes exactly that one entry |
| `ApplicantList.RemoveKeepsOthers` | src/components/ApplicantsManager.tsx:59 | every entry carrying the id is removed, and only those |
| `ApplicantList.Deleted` | src/components/ApplicantsManager.tsx:56-67 | the result is as long as the filtered list and holds no entry with the deleted id |
| `ApplicantList.DeletedUnknown` | src/components/ApplicantsManager.tsx:56-67 | deleting an unknown id leaves the list unchanged |
| `ApplicantList.DeletedNonPrimary` | src/components/ApplicantsManager.tsx:58-63 | deleting a non-primary entry only filters; no primary flag changes |
| `ApplicantList.DeletedPrimary` | src/components/ApplicantsManager.tsx:58-63 | deleting the primary while others remain marks the first remaining entry primary and changes nothing else |
| `ApplicantList.DeletedLastEmpties` | src/components/ApplicantsManager.tsx:56-67 | the handler itself deletes a sole applicant, leaving an empty list |
| `ApplicantList.Updated` | src/components/ApplicantsManager.tsx:69-79 | only the named field of the entries with that id changes, to the raw value; ids, flags, other fields, length and order are kept |
| `ApplicantList.UpdatedUnknown` | src/components/ApplicantsManager.tsx:69-79 | updating an unknown id is a no-op |
| `ApplicantList.WithPrimary` | src/components/ApplicantsManager.tsx:81-88 | each entry's flag becomes "its id is the chosen one"; length, order and every other field are kept |
| `ApplicantList.WithPrimaryPresent` | src/components/ApplicantsManager.tsx:81-88 | with distinct ids and a present id, exactly one entry is primary |
| `ApplicantList.WithPrimaryAbsent` | src/components/ApplicantsManager.tsx:81-88 | with an absent id, no entry is primary |
| `ApplicantList.WithPrimaryCurrent` | src/components/ApplicantsManager.tsx:81-88 | re-choosing the current primary of a well-formed list changes nothing |
| `ApplicantList.InitialWellformed` | src/components/ApplicantsManager.tsx:36-38 | the initial collection satisfies the invariant |
| `ApplicantList.AddedWellformed` | src/components/ApplicantsManager.tsx:52-54 | adding with a fresh id keeps the invariant |
| `ApplicantList.DeletedWellformed` | src/components/ApplicantsManager.tsx:56-67 | deleting a present id from two or more applicants keeps the invariant |
| `ApplicantList.UpdatedWellformed` | src/components/ApplicantsManager.tsx:69-79 | editing a field keeps the invariant |
| `ApplicantList.WithPrimaryWellformed` | src/components/ApplicantsManager.tsx:81-88 | choosing a present id as primary keeps the invariant |
| `ApplicantList.Apply` | src/components/ApplicantsManager.tsx:52-88 | add lengthens the list by one, delete leaves the filtered list's length, update and set-primary keep the length |
| `ApplicantList.Offered` | src/components/ApplicantsManager.tsx:163-189 | the add button is offered with a fresh id; any other offered request names a listed id, and a delete is offered only while more than one applicant is listed |
| `ApplicantList.OfferedWellformed` | src/components/ApplicantsManager.tsx:185-189 | every request the add button or a card (given `canDelete` and `canChangePrimary` as "more than one applicant") can raise keeps the invariant |
| `ApplicantList.RunWellformed` | src/components/ApplicantsManager.tsx:52-88 | from any well-formed collection, after any run of offered requests the collection is non-empty, has exactly one primary and distinct ids |
| `ApplicantList.InitialRunWellformed` | src/components/ApplicantsManager.tsx:36-88 | from the initial state, after any run of offered requests the collection is non-empty, has exactly one primary and distinct ids |
| `ApplicantList.UntickPrimaryNoOp` | src/components/ApplicantForm.tsx:171-176 | unticking the primary's checkbox leaves a well-formed list unchanged |
| `ApplicantsManager.Kept` | src/components/ApplicantsManager.tsx:59 | the filtered array holds only objects of the previous array |
| `ApplicantsManager.ViewKept` | src/components/ApplicantsManager.tsx:59 | filtering the objects and reading them gives the filtered contents |
| `ApplicantsManager.FindRecord` | src/components/ApplicantsManager.tsx:58 | the object found is in the array and holds the first entry with that id, and none is found iff no entry has it |
| `ApplicantsManager.RegisteredIds` | src/components/ApplicantsManager.tsx:94-96 | the validated ids are exactly the ids of the entries with a registered form, none from outside |
| `ApplicantsManager.RegisteredIdsAppend` | src/components/ApplicantsManager.tsx:94-96 | the ids are collected in list order: a prefix's ids come first, then the rest's |
| `ApplicantsManager.RegisteredIdsSingle` | src/components/ApplicantsManager.tsx:95-96 | one entry contributes its id iff its form is registered |
| `ApplicantsManager.AllRegisteredValidMeans` | src/components/ApplicantsManager.tsx:93-103 | the gate holds iff no field of any entry with a registered form has an error |
| `ApplicantsManager.Manager.CanDelete` | src/components/ApplicantsManager.tsx:185 | `canDelete` is true iff more than one applicant is listed |
| `ApplicantsManager.Manager.CanChangePrimary` | src/components/ApplicantsManager.tsx:114 | `canChangePrimary` is true iff more than one applicant is listed |
| `ApplicantsManager.Manager.CardRequestKeepsWellformed` | src/components/ApplicantsManager.tsx:182-189 | any request a card raises under the guards the page hands it keeps the collection non-empty, with one primary and distinct ids |
| `ApplicantsManager.Manager.constructor` | src/components/ApplicantsManager.tsx:36-38 | the state starts as one fresh blank primary applicant |
| `ApplicantsManager.Manager.AddApplicant` | src/components/ApplicantsManager.tsx:52-54 | the new contents are the old ones with one blank non-primary applicant appended; the earlier objects are kept and the new one is fresh |
| `ApplicantsManager.Manager.DeleteApplicant` | src/components/ApplicantsManager.tsx:56-67 | the new array is the previous array's objects without the id, and its contents are `Deleted` of the old contents; the promoted object is shared, so the previous array now reads it as primary too, and no other object changes |
| `ApplicantsManager.Manager.UpdateApplicant` | src/components/ApplicantsManager.tsx:69-79 | the new contents are `Updated` of the old; the matching entries are fresh copies and every other entry is the same object |
| `ApplicantsManager.Manager.SetPrimary` | src/components/ApplicantsManager.tsx:81-88 | the new contents are `WithPrimary` of the old, built from fresh copies |
| `ApplicantsManager.Manager.Submit` | src/components/ApplicantsManager.tsx:90-103 | every registered form is validated in list order with no early stop, unregistered entries are skipped, and the page reports iff every registered form validates |

## Left out

- Rendering, layout, scroll area, media queries, colour scheme, the "Applicant N" and "Primary" badges, the checkbox's description text, and the files `App.tsx` and `ThemeToggle.tsx`. These are presentation and have no behaviour to state.
- `generateId`. It draws random floats. Ids are parameters, and freshness is a precondition of `AddedWellformed`.
- The `console.log` and `notifications.show` calls on a successful submit. These are output. `Submit` returns whether it would report.
- The internals of the library's `isNotEmpty` and `isEmail`. Their source is not part of this model, so they are parameters.
- `setFormRef` and the lifetime of the `formRefs` map, `useImperativeHandle`, the form library's uncontrolled mode, and the effect that resets a card's values when its id changes. These are framework plumbing. `Submit` takes the set of ids with a registered form as an input. It takes a registered form's values to be the applicant's fields, because each input's change handler updates both.
- The field errors a failed submit shows on each card. `Validate` computes them, but `Submit` returns only the gate and the ids it validated.
- React may run a state updater twice in development mode. Running the delete updater twice on the same previous array gives the same result. The model runs each handler once.
