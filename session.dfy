/**
 * The form session: the list held by the form state, changed one user
 * action at a time. Storing the new list is what `setValues` and
 * `resetForm` do; here the new list is simply the next state.
 */
module ApplicantSession {
  import opened ApplicantRecord
  import opened Applicants
  import opened ApplicantForm

  /** One user action. An index names the editor the action comes from. */
  datatype Action =
    | AddMore
    | EditText(index: nat, field: Field, text: string)
    | SetPrimary(index: nat, on: bool)
    | ConfirmDelete(index: nat)
    | ConfirmReset

  /**
   * The list after one action. Only existing editors can act; a delete goes
   * through the guard, and the confirmed dialog deletes that editor's id.
   */
  function Step(values: seq<Applicant>, act: Action): (r: seq<Applicant>)
    ensures act.AddMore? ==> |r| == |values| + 1 && r[..|values|] == values
    ensures act.EditText? || act.SetPrimary? ==>
      |r| == |values| && forall k :: 0 <= k < |values| ==> r[k].id == values[k].id
    ensures act.ConfirmDelete? ==> |r| <= |values|
    ensures act.ConfirmDelete? && UniqueIds(values) ==>
      r == values || exists k :: 0 <= k < |values| && !values[k].isPrimary && r == values[..k] + values[k + 1..]
    ensures act.ConfirmDelete? && act.index < |values| && !CanDelete(values, values[act.index].id) ==> r == values
    ensures act.ConfirmDelete? && act.index < |values| && UniqueIds(values) && CanDelete(values, values[act.index].id) ==>
      !values[act.index].isPrimary && r == values[..act.index] + values[act.index + 1..]
    ensures act.ConfirmReset? ==> r == Seed()
  {
    match act
    case AddMore => AddForm(values)
    case EditText(i, f, text) => if i < |values| then ChangeTextInput(values, i, f, text) else values
    case SetPrimary(i, on) => if i < |values| then TogglePrimary(values, i, on) else values
    case ConfirmDelete(i) =>
      if i < |values| && CanDelete(values, values[i].id) then
        assert UniqueIds(values) ==>
          !values[i].isPrimary && Remove(values, values[i].id) == values[..i] + values[i + 1..] by {
          if UniqueIds(values) {
            assert FindIndex(values, values[i].id) == i;
            RemoveAt(values, i);
          }
        }
        Remove(values, values[i].id)
      else values
    case ConfirmReset => Seed()
  }

  function Run(values: seq<Applicant>, acts: seq<Action>): seq<Applicant>
    decreases |acts|
  {
    if acts == [] then values else Run(Step(values, acts[0]), acts[1..])
  }

  /** What every reachable list satisfies: non-empty, positive unique ids, at most one primary. */
  predicate Invariant(values: seq<Applicant>)
  {
    && |values| >= 1
    && UniqueIds(values)
    && AtMostOnePrimary(values)
    && forall k :: 0 <= k < |values| ==> values[k].id.Some? && values[k].id.value > 0
  }

  /** A list with the same ids and flags, position by position, keeps the invariant. */
  lemma SameIdsAndFlags(s: seq<Applicant>, t: seq<Applicant>)
    requires Invariant(s) && |s| == |t|
    requires forall k :: 0 <= k < |s| ==> t[k].id == s[k].id && t[k].isPrimary == s[k].isPrimary
    ensures Invariant(t)
  {
    assert forall j, k :: 0 <= j < |t| && 0 <= k < |t| && t[j].isPrimary && t[k].isPrimary ==>
      s[j].isPrimary && s[k].isPrimary;
  }

  /** "add more" keeps the invariant: the new id is positive and above every other. */
  lemma AddMoreKeepsInvariant(values: seq<Applicant>)
    requires Invariant(values)
    ensures Invariant(AddForm(values))
  {
    var r, n := AddForm(values), |values|;
    assert Key(values[0]) == values[0].id.value;
    forall k | 0 <= k < n ensures values[k].id != r[n].id {
      assert Key(values[k]) == values[k].id.value;
    }
    forall j, k | 0 <= j < k < |r| ensures r[j].id != r[k].id {
      assert r[j] == values[j];
      if k < n { assert r[k] == values[k]; }
    }
    forall j, k | 0 <= j < |r| && 0 <= k < |r| && r[j].isPrimary && r[k].isPrimary
      ensures j == k
    {
      assert j < n && k < n;
      assert r[j] == values[j] && r[k] == values[k];
    }
    forall k | 0 <= k < |r| ensures r[k].id.Some? && r[k].id.value > 0 {
      if k < n { assert r[k] == values[k]; }
    }
  }

  /** A confirmed delete keeps the invariant. */
  lemma DeleteKeepsInvariant(values: seq<Applicant>, i: nat)
    requires Invariant(values) && i < |values| && CanDelete(values, values[i].id)
    ensures Invariant(Remove(values, values[i].id))
  {
    var r := Remove(values, values[i].id);
    DeleteAfterGuard(values, values[i].id);
    var k :| 0 <= k < |values| && !values[k].isPrimary && r == values[..k] + values[k + 1..];
    forall j | 0 <= j < |r| ensures r[j].id.Some? && r[j].id.value > 0 {
      assert r[j] == values[if j < k then j else j + 1];
    }
  }

  /** Every action keeps the invariant. */
  lemma StepPreservesInvariant(values: seq<Applicant>, act: Action)
    requires Invariant(values)
    ensures Invariant(Step(values, act))
  {
    match act
    case AddMore =>
      AddMoreKeepsInvariant(values);
    case EditText(i, f, text) =>
      if i < |values| {
        ChangeTextInputIsLocal(values, i, f, text);
        SameIdsAndFlags(values, Step(values, act));
      }
    case SetPrimary(i, on) =>
      if i < |values| {
        ReplacePreservesInvariant(values, values[i].(isPrimary := on));
      }
    case ConfirmDelete(i) =>
      if i < |values| && CanDelete(values, values[i].id) {
        DeleteKeepsInvariant(values, i);
      }
    case ConfirmReset =>
  }

  /** The invariant holds after any sequence of actions from a list that has it. */
  lemma {:induction false} RunPreservesInvariant(values: seq<Applicant>, acts: seq<Action>)
    requires Invariant(values)
    ensures Invariant(Run(values, acts))
    decreases |acts|
  {
    if acts != [] {
      StepPreservesInvariant(values, acts[0]);
      RunPreservesInvariant(Step(values, acts[0]), acts[1..]);
    }
  }

  /**
   * Every list the page can reach from its seed is non-empty, has unique
   * positive ids and at most one primary; it validates exactly when every
   * record is complete and exactly one record is primary.
   */
  lemma ReachableLists(acts: seq<Action>, isEmail: string -> bool)
    ensures Invariant(Run(Seed(), acts))
    ensures var r := Run(Seed(), acts);
      Passes(Validate(r, isEmail)) <==>
        (forall k :: 0 <= k < |r| ==> Complete(r[k], isEmail)) && PrimaryCount(r) == 1
  {
    RunPreservesInvariant(Seed(), acts);
    ValidationPassesIff(Run(Seed(), acts), isEmail);
  }

  /**
   * "Exactly one primary" is not kept: switching the seeded primary off
   * leaves a list with none, which only validation then rejects.
   */
  lemma ToggleOffLeavesNoPrimary(isEmail: string -> bool)
    ensures var r := Step(Seed(), SetPrimary(0, false));
      Invariant(r) && PrimaryCount(r) == 0 && Validate(r, isEmail).listError == Some(NoPrimaryMessage)
  {
    var r := Step(Seed(), SetPrimary(0, false));
    TogglePrimaryEffect(Seed(), 0, false);
    StepPreservesInvariant(Seed(), SetPrimary(0, false));
    NoPrimaryIffCountZero(r);
  }

  /** The sole record cannot be deleted. */
  lemma SoleRecordDeleteIsRefused()
    ensures Step(Seed(), ConfirmDelete(0)) == Seed()
  {
  }

  /** Promoting the second of two records demotes the first. */
  lemma PromoteSecondDemotesFirst()
    ensures var values := [Applicant(Some(1), "", "", "", "", true), Applicant(Some(2), "", "", "", "", false)];
      Step(values, SetPrimary(1, true)) ==
        [Applicant(Some(1), "", "", "", "", false), Applicant(Some(2), "", "", "", "", true)]
  {
    var values := [Applicant(Some(1), "", "", "", "", true), Applicant(Some(2), "", "", "", "", false)];
    assert FindIndex(values, Some(2)) == 1;
  }

  /** After a list whose largest id is 3, "add more" appends a non-primary record with id 4. */
  lemma AddAfterThree()
    ensures var values := [Applicant(Some(3), "", "", "", "", true), Applicant(Some(1), "", "", "", "", false)];
      var r := Step(values, AddMore);
      |r| == 3 && r[2].id == Some(4) && !r[2].isPrimary
  {
    var values := [Applicant(Some(3), "", "", "", "", true), Applicant(Some(1), "", "", "", "", false)];
    assert NextId(values) == 4 by {
      assert values[1..] == [values[1]];
    }
  }
}
