/** The applicant collection as a value: the ordered list of applicant records
    and the transitions the collection's handlers apply to it, with the
    collection invariant "non-empty, exactly one primary, distinct ids" and the
    lemmas that the guarded transitions keep it. */
module ApplicantList {
  import opened ApplicantTypes
  import opened ApplicantForm

  // ---------------------------------------------------------------------------
  // Observations on a list

  function Ids(s: seq<Applicant>): (ids: seq<Id>)
    ensures |ids| == |s| && forall k :: 0 <= k < |s| ==> ids[k] == s[k].id
  {
    seq(|s|, k requires 0 <= k < |s| => s[k].id)
  }

  predicate DistinctIds(s: seq<Applicant>)
  {
    forall i, j :: 0 <= i < j < |s| ==> s[i].id != s[j].id
  }

  /** How many entries are marked primary. */
  function CountPrimary(s: seq<Applicant>): (n: nat)
    ensures n <= |s|
  {
    if s == [] then 0 else (if s[0].isPrimary then 1 else 0) + CountPrimary(s[1..])
  }

  /** No primary is counted exactly when no entry is primary. */
  lemma {:induction false} CountPrimaryZero(s: seq<Applicant>)
    ensures CountPrimary(s) == 0 <==> forall k :: 0 <= k < |s| ==> !s[k].isPrimary
  {
    if s != [] {
      CountPrimaryZero(s[1..]);
      assert forall k :: 1 <= k < |s| ==> s[k] == s[1..][k - 1];
    }
  }

  /** The collection invariant. */
  predicate Wellformed(s: seq<Applicant>)
  {
    |s| > 0 && CountPrimary(s) == 1 && DistinctIds(s)
  }

  /** The position of the first entry with that id, or `|s|` when there is none. */
  function IndexOf(s: seq<Applicant>, id: Id): (k: nat)
    ensures k <= |s|
    ensures k < |s| ==> s[k].id == id
    ensures forall j :: 0 <= j < k ==> s[j].id != id
  {
    if s == [] then 0
    else if s[0].id == id then 0
    else
      var k := IndexOf(s[1..], id);
      assert forall j :: 1 <= j < k + 1 ==> s[j] == s[1..][j - 1];
      k + 1
  }

  /** `prev.find(a => a.id === id)`: the first entry with that id, if any. */
  function Find(s: seq<Applicant>, id: Id): (r: Option<Applicant>)
    ensures r.None? <==> id !in Ids(s)
    ensures r.Some? ==> r.value.id == id && r.value == s[IndexOf(s, id)]
  {
    var k := IndexOf(s, id);
    assert k < |s| ==> Ids(s)[k] == id;
    if k < |s| then Some(s[k]) else None
  }

  // ---------------------------------------------------------------------------
  // The transitions

  /** `createEmptyApplicant(isPrimary)`, with the generated id passed in. */
  function CreateEmptyApplicant(id: Id, isPrimary: bool): (a: Applicant)
    ensures a.id == id && a.isPrimary == isPrimary
    ensures forall f :: ValueOf(a, f) == ""
  {
    Applicant(id, "", "", "", "", isPrimary)
  }

  /** The initial state: one blank applicant, marked primary. */
  function Initial(id: Id): (s: seq<Applicant>)
    ensures |s| == 1 && s[0].id == id && s[0].isPrimary
    ensures forall f :: ValueOf(s[0], f) == ""
  {
    [CreateEmptyApplicant(id, true)]
  }

  /** `[...prev, createEmptyApplicant()]`. */
  function Added(s: seq<Applicant>, id: Id): (r: seq<Applicant>)
    ensures |r| == |s| + 1 && r[..|s|] == s
    ensures r[|s|].id == id && !r[|s|].isPrimary && forall f :: ValueOf(r[|s|], f) == ""
  {
    s + [CreateEmptyApplicant(id, false)]
  }

  /** `prev.filter(a => a.id !== id)`. */
  function Remove(s: seq<Applicant>, id: Id): (r: seq<Applicant>)
    ensures |r| <= |s|
    ensures forall x :: x in r <==> x in s && x.id != id
  {
    if s == [] then []
    else if s[0].id == id then Remove(s[1..], id)
    else [s[0]] + Remove(s[1..], id)
  }

  /** The deleted entry was primary and someone remains to take over. */
  predicate Promotes(s: seq<Applicant>, id: Id)
  {
    var gone := Find(s, id);
    gone.Some? && gone.value.isPrimary && |Remove(s, id)| > 0
  }

  /** `handleDeleteApplicant(id)`, as the resulting list: the filtered list,
      whose first entry is marked primary when the deleted entry was primary. */
  function Deleted(s: seq<Applicant>, id: Id): (r: seq<Applicant>)
    ensures |r| == |Remove(s, id)|
    ensures forall k :: 0 <= k < |r| ==> r[k].id != id
  {
    var remaining := Remove(s, id);
    if Promotes(s, id) then remaining[0 := remaining[0].(isPrimary := true)]
    else remaining
  }

  /** `prev.map(a => a.id === id ? { ...a, [field]: value } : a)`. */
  function Updated(s: seq<Applicant>, id: Id, f: ApplicantField, v: string): (r: seq<Applicant>)
    ensures |r| == |s|
    ensures forall k :: 0 <= k < |s| ==>
              r[k].id == s[k].id && r[k].isPrimary == s[k].isPrimary &&
              forall g :: ValueOf(r[k], g) == if s[k].id == id && g == f then v else ValueOf(s[k], g)
  {
    seq(|s|, k requires 0 <= k < |s| => if s[k].id == id then WithField(s[k], f, v) else s[k])
  }

  /** `prev.map(a => ({ ...a, isPrimary: a.id === id }))`. */
  function WithPrimary(s: seq<Applicant>, id: Id): (r: seq<Applicant>)
    ensures |r| == |s|
    ensures forall k :: 0 <= k < |s| ==>
              r[k].isPrimary == (s[k].id == id) && r[k].(isPrimary := s[k].isPrimary) == s[k]
  {
    seq(|s|, k requires 0 <= k < |s| => s[k].(isPrimary := s[k].id == id))
  }

  // ---------------------------------------------------------------------------
  // Filter laws

  /** The filter distributes over concatenation: the relative order of the kept entries is preserved. */
  lemma {:induction false} RemoveAppend(a: seq<Applicant>, b: seq<Applicant>, id: Id)
    ensures Remove(a + b, id) == Remove(a, id) + Remove(b, id)
  {
    if a == [] {
      assert a + b == b;
    } else {
      assert (a + b)[0] == a[0] && (a + b)[1..] == a[1..] + b;
      RemoveAppend(a[1..], b, id);
    }
  }

  /** Filtering out an id that no entry has changes nothing. */
  lemma {:induction false} RemoveAbsent(s: seq<Applicant>, id: Id)
    requires id !in Ids(s)
    ensures Remove(s, id) == s
  {
    if s != [] {
      assert Ids(s)[0] == s[0].id;
      assert forall x :: x in Ids(s[1..]) ==> x in Ids(s) by {
        forall x | x in Ids(s[1..]) ensures x in Ids(s) {
          var k :| 0 <= k < |s[1..]| && Ids(s[1..])[k] == x;
          assert Ids(s)[k + 1] == x;
        }
      }
      RemoveAbsent(s[1..], id);
    }
  }

  /** With distinct ids, deleting a present id removes exactly that one entry. */
  lemma RemoveUnique(s: seq<Applicant>, id: Id, k: nat)
    requires DistinctIds(s) && k < |s| && s[k].id == id
    ensures Remove(s, id) == s[..k] + s[k + 1..]
  {
    var a, b := s[..k], s[k + 1..];
    assert s == a + ([s[k]] + b);
    RemoveAppend(a, [s[k]] + b, id);
    assert ([s[k]] + b)[1..] == b;
    assert id !in Ids(a) by {
      forall j | 0 <= j < |a| ensures Ids(a)[j] != id {
        assert a[j] == s[j];
      }
    }
    assert id !in Ids(b) by {
      forall j | 0 <= j < |b| ensures Ids(b)[j] != id {
        assert b[j] == s[k + 1 + j];
      }
    }
    RemoveAbsent(a, id);
    RemoveAbsent(b, id);
  }

  /** Without distinct ids, every entry with that id goes: the filtered list
      is the list of entries with another id. */
  lemma {:induction false} RemoveKeepsOthers(s: seq<Applicant>, id: Id)
    ensures forall k :: 0 <= k < |Remove(s, id)| ==> Remove(s, id)[k].id != id
    ensures |Remove(s, id)| == |s| - CountId(s, id)
  {
    if s != [] {
      RemoveKeepsOthers(s[1..], id);
    }
  }

  /** How many entries carry the id. */
  function CountId(s: seq<Applicant>, id: Id): nat
  {
    if s == [] then 0 else (if s[0].id == id then 1 else 0) + CountId(s[1..], id)
  }

  // ---------------------------------------------------------------------------
  // Counting primaries

  lemma {:induction false} CountPrimaryAppend(a: seq<Applicant>, b: seq<Applicant>)
    ensures CountPrimary(a + b) == CountPrimary(a) + CountPrimary(b)
  {
    if a == [] {
      assert a + b == b;
    } else {
      assert (a + b)[0] == a[0] && (a + b)[1..] == a[1..] + b;
      CountPrimaryAppend(a[1..], b);
    }
  }

  /** Two lists that agree entry by entry on the primary flag count the same primaries. */
  lemma {:induction false} CountPrimarySameFlags(s: seq<Applicant>, t: seq<Applicant>)
    requires |s| == |t| && forall k :: 0 <= k < |s| ==> s[k].isPrimary == t[k].isPrimary
    ensures CountPrimary(s) == CountPrimary(t)
  {
    if s != [] {
      CountPrimarySameFlags(s[1..], t[1..]);
    }
  }

  /** Counting through a point update. */
  lemma CountPrimaryUpdate(s: seq<Applicant>, k: nat, x: Applicant)
    requires k < |s|
    ensures CountPrimary(s[k := x]) + (if s[k].isPrimary then 1 else 0)
            == CountPrimary(s) + (if x.isPrimary then 1 else 0)
  {
    assert s == s[..k] + [s[k]] + s[k + 1..];
    assert s[k := x] == s[..k] + [x] + s[k + 1..];
    CountPrimaryAppend(s[..k] + [s[k]], s[k + 1..]);
    CountPrimaryAppend(s[..k], [s[k]]);
    CountPrimaryAppend(s[..k] + [x], s[k + 1..]);
    CountPrimaryAppend(s[..k], [x]);
    assert [x][1..] == [] && [s[k]][1..] == [];
  }

  /** With a count of one, the primary entry is unique. */
  lemma {:induction false} CountPrimaryOne(s: seq<Applicant>, k: nat)
    requires k < |s| && s[k].isPrimary && CountPrimary(s) == 1
    ensures forall j :: 0 <= j < |s| && j != k ==> !s[j].isPrimary
  {
    CountPrimaryUpdate(s, k, s[k].(isPrimary := false));
    var t := s[k := s[k].(isPrimary := false)];
    CountPrimaryZero(t);
    forall j | 0 <= j < |s| && j != k ensures !s[j].isPrimary {
      assert t[j] == s[j];
    }
  }

  // ---------------------------------------------------------------------------
  // What each transition does

  /** Deleting an id that no entry has leaves the list as it was. */
  lemma DeletedUnknown(s: seq<Applicant>, id: Id)
    requires id !in Ids(s)
    ensures Deleted(s, id) == s
  {
    RemoveAbsent(s, id);
  }

  /** Deleting a non-primary entry only filters: no primary flag changes. */
  lemma DeletedNonPrimary(s: seq<Applicant>, id: Id)
    requires forall k :: 0 <= k < |s| && s[k].id == id ==> !s[k].isPrimary
    ensures Deleted(s, id) == Remove(s, id)
  {
  }

  /** Deleting the primary entry while others remain promotes the first remaining
      entry and changes nothing else. */
  lemma DeletedPrimary(s: seq<Applicant>, id: Id, k: nat)
    requires k < |s| && s[k].id == id && s[k].isPrimary && |s| > 1 && DistinctIds(s)
    ensures |Deleted(s, id)| == |s| - 1
    ensures Deleted(s, id)[0] == Remove(s, id)[0].(isPrimary := true)
    ensures Deleted(s, id)[1..] == Remove(s, id)[1..]
  {
    RemoveUnique(s, id, k);
    var gone := Find(s, id);
    var j :| 0 <= j < |s| && s[j] == gone.value && gone.value.id == id;
    assert j == k;
  }

  /** Deleting the only applicant empties the list: only the card's guard prevents it. */
  lemma DeletedLastEmpties(s: seq<Applicant>)
    requires |s| == 1
    ensures Deleted(s, s[0].id) == []
  {
  }

  /** Updating an id that no entry has is a no-op. */
  lemma UpdatedUnknown(s: seq<Applicant>, id: Id, f: ApplicantField, v: string)
    requires id !in Ids(s)
    ensures Updated(s, id, f, v) == s
  {
  }

  /** With distinct ids, choosing a present id leaves exactly that entry primary. */
  lemma WithPrimaryPresent(s: seq<Applicant>, id: Id)
    requires DistinctIds(s) && id in Ids(s)
    ensures CountPrimary(WithPrimary(s, id)) == 1
  {
    var k :| 0 <= k < |s| && Ids(s)[k] == id;
    var r := WithPrimary(s, id);
    var t := r[k := r[k].(isPrimary := false)];
    assert forall j :: 0 <= j < |t| ==> !t[j].isPrimary by {
      forall j | 0 <= j < |t| ensures !t[j].isPrimary {
        if j != k { assert Ids(s)[j] != Ids(s)[k]; }
      }
    }
    CountPrimaryZero(t);
    CountPrimaryUpdate(r, k, r[k].(isPrimary := false));
  }

  /** Choosing an id that no entry has leaves no entry primary. */
  lemma WithPrimaryAbsent(s: seq<Applicant>, id: Id)
    requires id !in Ids(s)
    ensures CountPrimary(WithPrimary(s, id)) == 0
  {
    assert forall k :: 0 <= k < |s| ==> Ids(s)[k] != id;
    CountPrimaryZero(WithPrimary(s, id));
  }

  /** Re-choosing the current primary of a well-formed list changes nothing. */
  lemma WithPrimaryCurrent(s: seq<Applicant>, k: nat)
    requires Wellformed(s) && k < |s| && s[k].isPrimary
    ensures WithPrimary(s, s[k].id) == s
  {
    CountPrimaryOne(s, k);
  }

  // ---------------------------------------------------------------------------
  // The collection invariant

  lemma InitialWellformed(id: Id)
    ensures Wellformed(Initial(id))
  {
  }

  /** Adding with a fresh id keeps the invariant. */
  lemma AddedWellformed(s: seq<Applicant>, id: Id)
    requires Wellformed(s) && id !in Ids(s)
    ensures Wellformed(Added(s, id))
  {
    var r := Added(s, id);
    assert r == s + [CreateEmptyApplicant(id, false)];
    CountPrimaryAppend(s, [CreateEmptyApplicant(id, false)]);
    assert forall k :: 0 <= k < |s| ==> Ids(s)[k] != id;
  }

  /** Taking one entry out of a list removes its primary flag from the count. */
  lemma {:induction false} CountPrimaryWithout(s: seq<Applicant>, k: nat)
    requires k < |s|
    ensures CountPrimary(s[..k] + s[k + 1..]) + (if s[k].isPrimary then 1 else 0) == CountPrimary(s)
  {
    var rest := s[..k] + s[k + 1..];
    if k == 0 {
      assert rest == s[1..];
    } else {
      var t := s[1..];
      CountPrimaryWithout(t, k - 1);
      assert rest[0] == s[0];
      assert rest[1..] == t[..k - 1] + t[k..];
      assert t[k - 1] == s[k];
    }
  }

  /** Taking one entry out of a list keeps the ids distinct. */
  lemma DistinctIdsWithout(s: seq<Applicant>, k: nat)
    requires k < |s| && DistinctIds(s)
    ensures DistinctIds(s[..k] + s[k + 1..])
  {
  }

  /** Deleting the primary entry: the promoted list is well-formed. */
  lemma DeletedPrimaryWellformed(s: seq<Applicant>, id: Id, k: nat)
    requires Wellformed(s) && |s| > 1 && k < |s| && s[k].id == id && s[k].isPrimary
    ensures Wellformed(Deleted(s, id))
  {
    var rest := s[..k] + s[k + 1..];
    RemoveUnique(s, id, k);
    CountPrimaryWithout(s, k);
    DistinctIdsWithout(s, k);
    DeletedPrimary(s, id, k);
    var d := Deleted(s, id);
    var promoted := rest[0 := rest[0].(isPrimary := true)];
    assert d == promoted by {
      forall i | 0 <= i < |d| ensures d[i] == promoted[i] {
        if i > 0 { assert d[i] == d[1..][i - 1]; }
      }
    }
    CountPrimaryUpdate(rest, 0, rest[0].(isPrimary := true));
    assert forall i :: 0 <= i < |d| ==> d[i].id == rest[i].id;
  }

  /** Deleting a non-primary entry: the filtered list is well-formed. */
  lemma DeletedOtherWellformed(s: seq<Applicant>, id: Id, k: nat)
    requires Wellformed(s) && |s| > 1 && k < |s| && s[k].id == id && !s[k].isPrimary
    ensures Wellformed(Deleted(s, id))
  {
    RemoveUnique(s, id, k);
    CountPrimaryWithout(s, k);
    DistinctIdsWithout(s, k);
    assert forall j :: 0 <= j < |s| && s[j].id == id ==> j == k;
    DeletedNonPrimary(s, id);
  }

  /** Deleting a present id from a list of two or more keeps the invariant. */
  lemma DeletedWellformed(s: seq<Applicant>, id: Id)
    requires Wellformed(s) && |s| > 1 && id in Ids(s)
    ensures Wellformed(Deleted(s, id))
  {
    var k :| 0 <= k < |s| && Ids(s)[k] == id;
    if s[k].isPrimary {
      DeletedPrimaryWellformed(s, id, k);
    } else {
      DeletedOtherWellformed(s, id, k);
    }
  }

  /** Editing a field keeps the invariant, whatever the id. */
  lemma UpdatedWellformed(s: seq<Applicant>, id: Id, f: ApplicantField, v: string)
    requires Wellformed(s)
    ensures Wellformed(Updated(s, id, f, v))
  {
    CountPrimarySameFlags(s, Updated(s, id, f, v));
  }

  /** Choosing a present id as primary keeps the invariant. */
  lemma WithPrimaryWellformed(s: seq<Applicant>, id: Id)
    requires Wellformed(s) && id in Ids(s)
    ensures Wellformed(WithPrimary(s, id))
  {
    WithPrimaryPresent(s, id);
  }

  // ---------------------------------------------------------------------------
  // Requests and the guards that keep the invariant

  /** The handler each request reaches. */
  function Apply(s: seq<Applicant>, r: Request): (out: seq<Applicant>)
    ensures r.OnAdd? ==> |out| == |s| + 1
    ensures r.OnDelete? ==> |out| == |Remove(s, r.id)|
    ensures r.OnUpdate? || r.OnSetPrimary? ==> |out| == |s|
  {
    match r
    case OnAdd(id) => Added(s, id)
    case OnUpdate(id, f, v) => Updated(s, id, f, v)
    case OnDelete(id) => Deleted(s, id)
    case OnSetPrimary(id) => WithPrimary(s, id)
  }

  /** A request the page can raise in state `s`: the add button with a fresh id,
      or a request raised by the card of some entry, whose guards get
      `canDelete` and `canChangePrimary` both as "more than one applicant". */
  function Offered(s: seq<Applicant>, r: Request): (offered: bool)
    ensures offered && r.OnAdd? ==> r.newId !in Ids(s)
    ensures offered && !r.OnAdd? ==> r.id in Ids(s)
    ensures offered && r.OnDelete? ==> |s| > 1
  {
    if r.OnAdd? then r.newId !in Ids(s)
    else exists k :: 0 <= k < |s| && CardRaises(s[k], |s| > 1, |s| > 1, r)
  }

  /** Every request the page offers keeps the collection invariant. */
  lemma OfferedWellformed(s: seq<Applicant>, r: Request)
    requires Wellformed(s) && Offered(s, r)
    ensures Wellformed(Apply(s, r))
  {
    match r
    case OnAdd(id) =>
      AddedWellformed(s, id);
    case OnUpdate(id, f, v) =>
      UpdatedWellformed(s, id, f, v);
    case OnDelete(id) =>
      var k :| 0 <= k < |s| && CardRaises(s[k], |s| > 1, |s| > 1, r);
      assert Ids(s)[k] == id;
      DeletedWellformed(s, id);
    case OnSetPrimary(id) =>
      var k :| 0 <= k < |s| && CardRaises(s[k], |s| > 1, |s| > 1, r);
      CardGuards(s[k], |s| > 1, |s| > 1);
      assert Ids(s)[k] == id;
      WithPrimaryWellformed(s, id);
  }

  /** A run of requests, each offered in the state it meets. */
  predicate OfferedRun(s: seq<Applicant>, rs: seq<Request>)
    decreases |rs|
  {
    rs == [] || (Offered(s, rs[0]) && OfferedRun(Apply(s, rs[0]), rs[1..]))
  }

  function Run(s: seq<Applicant>, rs: seq<Request>): seq<Applicant>
    decreases |rs|
  {
    if rs == [] then s else Run(Apply(s, rs[0]), rs[1..])
  }

  /** From any well-formed state, after any run of offered requests, the list
      is still non-empty, has exactly one primary and distinct ids. */
  lemma {:induction false} RunWellformed(s: seq<Applicant>, rs: seq<Request>)
    requires Wellformed(s) && OfferedRun(s, rs)
    ensures Wellformed(Run(s, rs))
    decreases |rs|
  {
    if rs != [] {
      OfferedWellformed(s, rs[0]);
      RunWellformed(Apply(s, rs[0]), rs[1..]);
    }
  }

  /** Unticking the primary's checkbox re-selects the same applicant: the list is unchanged. */
  lemma UntickPrimaryNoOp(s: seq<Applicant>, k: nat)
    requires Wellformed(s) && k < |s| && s[k].isPrimary
    ensures Apply(s, CheckboxChange(s[k], false)) == s
  {
    WithPrimaryCurrent(s, k);
  }

  /** From the initial state, after any run of offered requests, the list is
      non-empty, has exactly one primary and distinct ids. */
  lemma InitialRunWellformed(id: Id, rs: seq<Request>)
    requires OfferedRun(Initial(id), rs)
    ensures Wellformed(Run(Initial(id), rs))
  {
    InitialWellformed(id);
    RunWellformed(Initial(id), rs);
  }
}
