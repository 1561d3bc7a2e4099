/**
 * The page that owns the applicant list: id assignment, the "add more"
 * action, the seeded list and the validation schema.
 */
module Applicants {
  import opened ApplicantRecord

  /** INITIAL_DATA spread after an id: four empty fields and not primary. */
  function Blank(id: int): Applicant
  {
    Applicant(Some(id), "", "", "", "", false)
  }

  /** The list the form starts from, and the one a reset restores. */
  function Seed(): (r: seq<Applicant>)
    ensures |r| == 1 && r[0].id == Some(1) && r[0].isPrimary
    ensures r[0].firstname == "" && r[0].lastname == "" && r[0].email == "" && r[0].mobile == ""
    ensures UniqueIds(r) && PrimaryCount(r) == 1 && AtMostOnePrimary(r)
  {
    [Applicant(Some(1), "", "", "", "", true)]
  }

  /** The largest key of a non-empty list. */
  function MaxKey(s: seq<Applicant>): (m: int)
    requires s != []
    ensures forall k :: 0 <= k < |s| ==> Key(s[k]) <= m
    ensures exists k :: 0 <= k < |s| && Key(s[k]) == m
  {
    if |s| == 1 then Key(s[0])
    else
      var rest := MaxKey(s[1..]);
      assert forall k :: 1 <= k < |s| ==> s[k] == s[1..][k - 1];
      if Key(s[0]) >= rest then Key(s[0]) else rest
  }

  /**
   * The id `getNextId` hands out: one more than the largest key, and 1 for
   * an empty list.
   */
  function NextId(values: seq<Applicant>): (n: int)
    ensures values == [] ==> n == 1
    ensures forall k :: 0 <= k < |values| ==> Key(values[k]) < n
    ensures values != [] ==> exists k :: 0 <= k < |values| && Key(values[k]) == n - 1
  {
    if values == [] then 1 else MaxKey(values) + 1
  }

  ghost predicate SortedByKey(s: seq<Applicant>)
  {
    forall p, q :: 0 <= p < q < |s| ==> Key(s[p]) <= Key(s[q])
  }

  /** Exchanges two adjacent records of `a`. */
  method SwapAdjacent(a: array<Applicant>, j: int)
    requires 0 < j < a.Length
    modifies a
    ensures a[..] == old(a[..])[j - 1 := old(a[j])][j := old(a[j - 1])]
    ensures multiset(a[..]) == old(multiset(a[..]))
  {
    a[j - 1], a[j] := a[j], a[j - 1];
  }

  /** One pass of insertion: moves `a[i]` left past every record with a larger key. */
  method InsertAt(a: array<Applicant>, i: int)
    requires 0 <= i < a.Length
    requires forall p, q :: 0 <= p < q < i ==> Key(a[p]) <= Key(a[q])
    modifies a
    ensures forall p, q :: 0 <= p < q <= i ==> Key(a[p]) <= Key(a[q])
    ensures multiset(a[..]) == old(multiset(a[..]))
  {
    var j := i;
    while j > 0 && Key(a[j - 1]) > Key(a[j])
      invariant 0 <= j <= i
      invariant forall p, q :: 0 <= p < q < j ==> Key(a[p]) <= Key(a[q])
      invariant forall p, q :: j <= p < q <= i ==> Key(a[p]) <= Key(a[q])
      invariant forall p, q :: 0 <= p < j < q <= i ==> Key(a[p]) <= Key(a[q])
      invariant multiset(a[..]) == old(multiset(a[..]))
    {
      SwapAdjacent(a, j);
      j := j - 1;
    }
  }

  /** The array sort with the comparator `(a?.id || 0) - (b?.id || 0)`. */
  method SortByKey(a: array<Applicant>)
    modifies a
    ensures SortedByKey(a[..])
    ensures multiset(a[..]) == old(multiset(a[..]))
  {
    var i := 0;
    while i < a.Length
      invariant 0 <= i <= a.Length
      invariant forall p, q :: 0 <= p < q < i ==> Key(a[p]) <= Key(a[q])
      invariant multiset(a[..]) == old(multiset(a[..]))
    {
      InsertAt(a, i);
      i := i + 1;
    }
  }

  /**
   * `getNextId([...values])`: sort a fresh copy by key, pop its last record
   * and add one to that record's key. The caller's list is a value, so the
   * in-place sort of the copy cannot reach it.
   */
  method GetNextId(values: seq<Applicant>) returns (next: int)
    ensures next == NextId(values)
  {
    var copy := new Applicant[|values|](i requires 0 <= i < |values| => values[i]);
    assert copy[..] == values;
    SortByKey(copy);
    if copy.Length == 0 {
      next := 0 + 1;
    } else {
      // pop(): the last record of the sorted copy; the shortened copy is discarded
      var top := copy[copy.Length - 1];
      assert top in multiset(values) by {
        assert top in copy[..];
      }
      var k :| 0 <= k < |values| && Key(values[k]) == MaxKey(values);
      assert values[k] in multiset(copy[..]);
      var at :| 0 <= at < copy.Length && copy[at] == values[k];
      assert Key(values[k]) <= Key(top) by {
        if at < copy.Length - 1 {
          assert copy[..][at] == copy[at] && copy[..][copy.Length - 1] == top;
        }
      }
      next := Key(top) + 1;
    }
  }

  /**
   * `handleAddForm`: the old records unchanged and in order, then a blank,
   * non-primary record whose id is above every existing key.
   */
  function AddForm(values: seq<Applicant>): (r: seq<Applicant>)
    ensures |r| == |values| + 1 && r[..|values|] == values
    ensures r[|values|].id == Some(NextId(values))
    ensures forall k :: 0 <= k < |values| ==> Key(values[k]) < Key(r[|values|])
    ensures r[|values|].firstname == "" && r[|values|].lastname == ""
    ensures r[|values|].email == "" && r[|values|].mobile == ""
    ensures !r[|values|].isPrimary
  {
    values + [Blank(NextId(values))]
  }

  // ---------------------------------------------------------------------
  // Validation schema
  // ---------------------------------------------------------------------

  datatype Problem = Required(message: string) | InvalidEmail

  /**
   * A report shaped like the list: one error map per index, plus the
   * list-level error message, if any.
   */
  datatype Report = Report(recordErrors: seq<map<Field, Problem>>, listError: Option<string>)

  const NoPrimaryMessage := "At least one applicant must be marked as primary"

  function RequiredMessage(f: Field): string
  {
    match f
    case FirstName => "First name is required"
    case LastName => "Last name is required"
    case Email => "Email is required"
    case Mobile => "Mobile number is required"
  }

  /**
   * The error one string rule reports: `required` on the empty string, and,
   * for the email field only, `email` on a non-empty string that `isEmail`
   * rejects.
   */
  function FieldProblem(a: Applicant, f: Field, isEmail: string -> bool): (p: Option<Problem>)
    ensures p.Some? && p.value.Required? <==> FieldValue(a, f) == ""
    ensures p.Some? && p.value.Required? ==> p.value.message == RequiredMessage(f)
    ensures p == Some(InvalidEmail) <==> f == Email && a.email != "" && !isEmail(a.email)
  {
    if FieldValue(a, f) == "" then Some(Required(RequiredMessage(f)))
    else if f == Email && !isEmail(a.email) then Some(InvalidEmail)
    else None
  }

  /** All four fields filled in and the email accepted. */
  predicate Complete(a: Applicant, isEmail: string -> bool)
  {
    a.firstname != "" && a.lastname != "" && a.email != "" && a.mobile != "" && isEmail(a.email)
  }

  /** The errors of one record, keyed by field. */
  function RecordErrors(a: Applicant, isEmail: string -> bool): (errs: map<Field, Problem>)
    ensures errs == map[] <==> Complete(a, isEmail)
    ensures forall f :: f in errs <==> FieldProblem(a, f, isEmail).Some?
    ensures forall f :: f in errs ==> errs[f] == FieldProblem(a, f, isEmail).value
  {
    var fields := {FirstName, LastName, Email, Mobile};
    var errs := map f | f in fields && FieldProblem(a, f, isEmail).Some? :: FieldProblem(a, f, isEmail).value;
    assert !Complete(a, isEmail) ==> FirstName in errs || LastName in errs || Email in errs || Mobile in errs;
    errs
  }

  /** `value?.some((i) => i.isPrimary === true)`. */
  function AnyPrimary(s: seq<Applicant>): (b: bool)
    ensures b <==> !NoPrimary(s)
  {
    if s == [] then false
    else
      assert forall k :: 1 <= k < |s| ==> s[k] == s[1..][k - 1];
      s[0].isPrimary || AnyPrimary(s[1..])
  }

  /** VALIDATION_SCHEMA applied to the whole list. */
  function Validate(values: seq<Applicant>, isEmail: string -> bool): (r: Report)
    ensures |r.recordErrors| == |values|
    ensures forall k :: 0 <= k < |values| ==> (r.recordErrors[k] == map[] <==> Complete(values[k], isEmail))
    ensures forall k, f :: 0 <= k < |values| ==>
      (f in r.recordErrors[k] <==> FieldProblem(values[k], f, isEmail).Some?)
    ensures forall k, f :: 0 <= k < |values| && f in r.recordErrors[k] ==>
      r.recordErrors[k][f] == FieldProblem(values[k], f, isEmail).value
    ensures forall k, f :: 0 <= k < |values| && FieldValue(values[k], f) == "" ==>
      f in r.recordErrors[k] && r.recordErrors[k][f] == Required(RequiredMessage(f))
    ensures forall k :: 0 <= k < |values| && values[k].email != "" && !isEmail(values[k].email) ==>
      Email in r.recordErrors[k] && r.recordErrors[k][Email] == InvalidEmail
    ensures r.listError == Some(NoPrimaryMessage) <==> NoPrimary(values)
    ensures r.listError == None <==> !NoPrimary(values)
  {
    var errors := seq(|values|, k requires 0 <= k < |values| => RecordErrors(values[k], isEmail));
    Report(errors, if AnyPrimary(values) then None else Some(NoPrimaryMessage))
  }

  predicate Passes(r: Report)
  {
    r.listError == None && forall k :: 0 <= k < |r.recordErrors| ==> r.recordErrors[k] == map[]
  }

  /**
   * The list validates exactly when every record is complete and some record
   * is primary; on a list with at most one primary, the latter means exactly one.
   */
  lemma ValidationPassesIff(values: seq<Applicant>, isEmail: string -> bool)
    requires AtMostOnePrimary(values)
    ensures Passes(Validate(values, isEmail)) <==>
      (forall k :: 0 <= k < |values| ==> Complete(values[k], isEmail)) && PrimaryCount(values) == 1
  {
    NoPrimaryIffCountZero(values);
    AtMostOneIffCount(values);
  }

  /**
   * The seeded list fails validation: its record has every field empty, so
   * each field carries its own required message, and it is primary, so
   * there is no list-level error.
   */
  lemma SeedValidation(isEmail: string -> bool)
    ensures var r := Validate(Seed(), isEmail);
      && |r.recordErrors| == 1
      && r.recordErrors[0] == map[
        FirstName := Required("First name is required"),
        LastName := Required("Last name is required"),
        Email := Required("Email is required"),
        Mobile := Required("Mobile number is required")]
      && r.listError == None
      && !Passes(r)
  {
  }
}
