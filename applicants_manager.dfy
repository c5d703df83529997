/** The page component that owns the applicant collection. Its state is an
    array of applicant objects: the handlers that use spread copies build new
    objects, while the delete handler keeps the surviving objects and flips the
    primary flag of the first one in place, on an object that the previous
    state's array shares. */
module ApplicantsManager {
  import opened ApplicantTypes
  import opened ApplicantForm
  import opened ApplicantList

  /** One applicant object of the state array. Its id never changes. */
  class ApplicantRecord {
    const id: Id
    var firstName: string
    var lastName: string
    var mobile: string
    var email: string
    var isPrimary: bool

    constructor (a: Applicant)
      ensures Value() == a
    {
      id := a.id;
      firstName := a.firstName;
      lastName := a.lastName;
      mobile := a.mobile;
      email := a.email;
      isPrimary := a.isPrimary;
    }

    /** The record's current contents as a value. */
    function Value(): Applicant
      reads this
    {
      Applicant(id, firstName, lastName, mobile, email, isPrimary)
    }
  }

  /** The contents of a list of objects, as read in the current heap. */
  function View(rs: seq<ApplicantRecord>): (v: seq<Applicant>)
    reads rs
    ensures |v| == |rs| && forall k :: 0 <= k < |rs| ==> v[k] == rs[k].Value()
  {
    seq(|rs|, k reads rs requires 0 <= k < |rs| => rs[k].Value())
  }

  /** No object occurs twice in the list. */
  predicate Distinct(rs: seq<ApplicantRecord>)
  {
    forall i, j :: 0 <= i < j < |rs| ==> rs[i] != rs[j]
  }

  /** `prev.filter(a => a.id !== id)` on the objects themselves: the kept
      entries are the very objects of the previous list. */
  function Kept(rs: seq<ApplicantRecord>, id: Id): (r: seq<ApplicantRecord>)
    ensures forall x :: x in r ==> x in rs
  {
    if rs == [] then []
    else if rs[0].id == id then Kept(rs[1..], id)
    else [rs[0]] + Kept(rs[1..], id)
  }

  /** Filtering the objects and then reading them is filtering the contents. */
  lemma {:induction false} ViewKept(rs: seq<ApplicantRecord>, id: Id)
    ensures View(Kept(rs, id)) == Remove(View(rs), id)
  {
    if rs != [] {
      ViewKept(rs[1..], id);
      assert View(rs)[0] == rs[0].Value();
      assert View(rs)[1..] == View(rs[1..]);
      if rs[0].id != id {
        assert View([rs[0]] + Kept(rs[1..], id)) == [rs[0].Value()] + View(Kept(rs[1..], id));
      }
    }
  }

  /** Filtering keeps the objects distinct. */
  lemma {:induction false} KeptDistinct(rs: seq<ApplicantRecord>, id: Id)
    requires Distinct(rs)
    ensures Distinct(Kept(rs, id))
  {
    if rs != [] {
      KeptDistinct(rs[1..], id);
      assert rs[0] !in rs[1..] by {
        forall k | 0 <= k < |rs[1..]| ensures rs[1..][k] != rs[0] {
          assert rs[1..][k] == rs[k + 1];
        }
      }
      if rs[0].id != id {
        var r := [rs[0]] + Kept(rs[1..], id);
        forall i, j | 0 <= i < j < |r| ensures r[i] != r[j] {
          if i == 0 {
            assert r[j] == Kept(rs[1..], id)[j - 1];
          } else {
            assert r[i] == Kept(rs[1..], id)[i - 1] && r[j] == Kept(rs[1..], id)[j - 1];
          }
        }
      }
    }
  }

  /** `prev.find(a => a.id === id)` on the objects: the object holding the first entry with that id. */
  function FindRecord(rs: seq<ApplicantRecord>, id: Id): (r: Option<ApplicantRecord>)
    reads rs
    ensures r.None? <==> Find(View(rs), id).None?
    ensures r.Some? ==> r.value in rs && r.value.Value() == Find(View(rs), id).value
  {
    var k := IndexOf(View(rs), id);
    if k < |rs| then Some(rs[k]) else None
  }

  /** The ids of the entries that have a registered form, in list order. */
  function RegisteredIds(s: seq<Applicant>, registered: set<Id>): (ids: seq<Id>)
    ensures |ids| <= |s|
    ensures forall x :: x in ids ==> x in registered
    ensures forall k :: 0 <= k < |s| && s[k].id in registered ==> s[k].id in ids
  {
    if s == [] then []
    else
      var last := s[|s| - 1];
      var front := RegisteredIds(s[..|s| - 1], registered);
      assert forall k :: 0 <= k < |s| - 1 ==> s[..|s| - 1][k] == s[k];
      front + (if last.id in registered then [last.id] else [])
  }

  /** The ids are collected in list order: those of a prefix come first, then
      those of the rest. */
  lemma {:induction false} RegisteredIdsAppend(a: seq<Applicant>, b: seq<Applicant>, registered: set<Id>)
    ensures RegisteredIds(a + b, registered) == RegisteredIds(a, registered) + RegisteredIds(b, registered)
    decreases |b|
  {
    if b == [] {
      assert a + b == a;
    } else {
      var b' := b[..|b| - 1];
      assert (a + b)[..|a + b| - 1] == a + b';
      RegisteredIdsAppend(a, b', registered);
    }
  }

  /** One entry contributes its id exactly when its form is registered. */
  lemma RegisteredIdsSingle(x: Applicant, registered: set<Id>)
    ensures RegisteredIds([x], registered) == if x.id in registered then [x.id] else []
  {
    assert [x][..0] == [];
  }

  /** The submit gate: every entry with a registered form validates. */
  predicate AllRegisteredValid(c: Checks, s: seq<Applicant>, registered: set<Id>)
  {
    forall k :: 0 <= k < |s| && s[k].id in registered ==> ValidateHandle(c, ValuesOf(s[k]))
  }

  /** The gate holds exactly when no field of any entry with a registered form has an error. */
  lemma AllRegisteredValidMeans(c: Checks, s: seq<Applicant>, registered: set<Id>)
    ensures AllRegisteredValid(c, s, registered) <==>
              forall k, f :: 0 <= k < |s| && s[k].id in registered ==> FieldError(c, f, ValueOf(s[k], f)).None?
  {
  }

  /** The gate on a list with one more entry: the gate on the front, and the
      new entry's form validates if it is registered. */
  lemma AllRegisteredValidSnoc(c: Checks, s: seq<Applicant>, x: Applicant, registered: set<Id>)
    ensures AllRegisteredValid(c, s + [x], registered) <==>
              AllRegisteredValid(c, s, registered) && (x.id in registered ==> ValidateHandle(c, ValuesOf(x)))
  {
    assert (s + [x])[|s|] == x;
    assert forall k :: 0 <= k < |s| ==> (s + [x])[k] == s[k];
  }

  class Manager {
    var applicants: seq<ApplicantRecord>

    /** No object occurs twice in the state array. */
    ghost predicate Valid()
      reads this
    {
      Distinct(applicants)
    }

    /** The state array's contents. */
    function Applicants(): seq<Applicant>
      reads this, applicants
    {
      View(applicants)
    }

    /** `canDelete`, given to every card: more than one applicant is listed. */
    function CanDelete(): (can: bool)
      reads this, applicants
      ensures can <==> |Applicants()| > 1
    {
      |applicants| > 1
    }

    /** `canChangePrimary`, given to every card: more than one applicant is listed. */
    function CanChangePrimary(): (can: bool)
      reads this, applicants
      ensures can <==> |Applicants()| > 1
    {
      |applicants| > 1
    }

    /** Whatever a card raises, under the guards this page hands it, keeps the
        list non-empty, with exactly one primary and distinct ids. */
    lemma CardRequestKeepsWellformed(k: nat, r: Request)
      requires Wellformed(Applicants()) && k < |applicants|
      requires CardRaises(Applicants()[k], CanDelete(), CanChangePrimary(), r)
      ensures Wellformed(Apply(Applicants(), r))
    {
      var s := Applicants();
      assert Offered(s, r);
      OfferedWellformed(s, r);
    }

    /** The initial state: one blank primary applicant. */
    constructor (firstId: Id)
      ensures Valid() && |applicants| == 1 && fresh(applicants[0])
      ensures Applicants() == Initial(firstId)
    {
      var first := new ApplicantRecord(CreateEmptyApplicant(firstId, true));
      applicants := [first];
    }

    /** `handleAddApplicant`: appends a new blank, non-primary applicant; the
        existing objects are kept as they are. */
    method AddApplicant(newId: Id)
      requires Valid()
      modifies this
      ensures Valid()
      ensures Applicants() == Added(old(Applicants()), newId)
      ensures applicants[..|old(applicants)|] == old(applicants) && fresh(applicants[|old(applicants)|])
    {
      var r := new ApplicantRecord(CreateEmptyApplicant(newId, false));
      applicants := applicants + [r];
      assert Applicants() == old(Applicants()) + [r.Value()];
    }

    /** `handleDeleteApplicant`: filters out the entries with that id and, when
        the deleted entry was primary and someone remains, marks the first
        remaining object primary in place. That object is shared with the
        previous array, so the previous state's contents change too. */
    method DeleteApplicant(id: Id)
      requires Valid()
      modifies this, applicants
      ensures Valid()
      ensures Applicants() == Deleted(old(Applicants()), id)
      ensures applicants == Kept(old(applicants), id)
      ensures forall r :: r in old(applicants) ==>
                r.Value() == if Promotes(old(Applicants()), id) && r == applicants[0]
                             then old(r.Value()).(isPrimary := true)
                             else old(r.Value())
    {
      var prev := applicants;
      ghost var before := View(prev);
      var toDelete := FindRecord(prev, id);
      var remaining := Kept(prev, id);
      ViewKept(prev, id);
      KeptDistinct(prev, id);
      assert View(remaining) == Remove(before, id);
      if toDelete.Some? && toDelete.value.isPrimary && |remaining| > 0 {
        assert Promotes(before, id);
        var head := remaining[0];
        ghost var promoted := Remove(before, id)[0 := Remove(before, id)[0].(isPrimary := true)];
        assert head in prev;
        head.isPrimary := true;
        forall k | 0 <= k < |remaining| ensures remaining[k].Value() == promoted[k] {
          if k > 0 { assert remaining[k] != head; }
        }
        assert View(remaining) == promoted;
      } else {
        assert !Promotes(before, id);
      }
      applicants := remaining;
    }

    /** `handleUpdateApplicant`: a new array in which the entries with that id
        are fresh copies with the field set to the raw value, and every other
        entry is the same object as before. */
    method UpdateApplicant(id: Id, field: ApplicantField, value: string)
      requires Valid()
      modifies this
      ensures Valid()
      ensures Applicants() == Updated(old(Applicants()), id, field, value)
      ensures |applicants| == |old(applicants)|
      ensures forall k :: 0 <= k < |applicants| ==>
                if old(applicants)[k].id == id then fresh(applicants[k]) else applicants[k] == old(applicants)[k]
    {
      var prev := applicants;
      ghost var before := View(prev);
      var next: seq<ApplicantRecord> := [];
      var i := 0;
      while i < |prev|
        invariant 0 <= i <= |prev| && |next| == i
        invariant View(prev) == before
        invariant forall k :: 0 <= k < i ==>
                    next[k].Value() == if before[k].id == id then WithField(before[k], field, value) else before[k]
        invariant forall k :: 0 <= k < i ==> if prev[k].id == id then fresh(next[k]) else next[k] == prev[k]
        invariant Distinct(next)
      {
        var r := prev[i];
        if r.id == id {
          var copy := new ApplicantRecord(WithField(r.Value(), field, value));
          next := next + [copy];
        } else {
          assert forall k :: 0 <= k < i ==> next[k] != r;
          next := next + [r];
        }
        i := i + 1;
      }
      applicants := next;
    }

    /** `handleSetPrimary`: a new array of fresh copies whose primary flag is
        "this is the chosen id". */
    method SetPrimary(id: Id)
      requires Valid()
      modifies this
      ensures Valid()
      ensures Applicants() == WithPrimary(old(Applicants()), id)
      ensures forall k :: 0 <= k < |applicants| ==> fresh(applicants[k])
    {
      var prev := applicants;
      ghost var before := View(prev);
      var next: seq<ApplicantRecord> := [];
      var i := 0;
      while i < |prev|
        invariant 0 <= i <= |prev| && |next| == i
        invariant View(prev) == before
        invariant forall k :: 0 <= k < i ==> next[k].Value() == before[k].(isPrimary := before[k].id == id)
        invariant forall k :: 0 <= k < i ==> fresh(next[k])
        invariant Distinct(next)
      {
        var r := prev[i];
        var copy := new ApplicantRecord(r.Value().(isPrimary := r.id == id));
        next := next + [copy];
        i := i + 1;
      }
      applicants := next;
    }

    /** `handleSubmit`'s gate: every registered form is validated, in list
        order and without stopping at the first failure; the page reports the
        list exactly when all of them validate. Entries with no registered form
        are skipped. */
    method Submit(c: Checks, registered: set<Id>) returns (report: bool, validated: seq<Id>)
      ensures report <==> AllRegisteredValid(c, Applicants(), registered)
      ensures validated == RegisteredIds(Applicants(), registered)
    {
      ghost var s := Applicants();
      report := true;
      validated := [];
      var i := 0;
      while i < |applicants|
        invariant 0 <= i <= |applicants|
        invariant validated == RegisteredIds(s[..i], registered)
        invariant report <==> AllRegisteredValid(c, s[..i], registered)
      {
        var a := applicants[i];
        assert s[..i + 1] == s[..i] + [a.Value()];
        RegisteredIdsAppend(s[..i], [a.Value()], registered);
        RegisteredIdsSingle(a.Value(), registered);
        AllRegisteredValidSnoc(c, s[..i], a.Value(), registered);
        if a.id in registered {
          var ok := ValidateHandle(c, ValuesOf(a.Value()));
          validated := validated + [a.id];
          if !ok {
            report := false;
          }
        }
        i := i + 1;
      }
      assert s[..i] == s;
    }
  }
}
