/**
 * The editor of one applicant: full-record replacement with the primary
 * cascade, the two single-field edits routed through it, the delete guard
 * and the delete itself.
 */
module ApplicantForm {
  import opened ApplicantRecord

  /** What `values.map(...)` makes of one record: demoted when `data` is primary and the ids differ. */
  function Demoted(a: Applicant, data: Applicant): Applicant
  {
    if data.isPrimary && a.id != data.id then a.(isPrimary := false) else a
  }

  /** The `values.map(...)` step of handleChange. */
  function Cascade(values: seq<Applicant>, data: Applicant): (t: seq<Applicant>)
    ensures |t| == |values|
    ensures forall k :: 0 <= k < |values| ==> t[k] == values[k].(isPrimary := t[k].isPrimary)
    ensures forall k :: 0 <= k < |values| ==>
      (t[k].isPrimary <==> values[k].isPrimary && (!data.isPrimary || values[k].id == data.id))
  {
    seq(|values|, k requires 0 <= k < |values| => Demoted(values[k], data))
  }

  /** `findIndex((i) => i.id === id)`: the first position holding `id`, or -1. */
  function FindIndex(s: seq<Applicant>, id: Id): (i: int)
    ensures -1 <= i < |s|
    ensures i == -1 <==> forall k :: 0 <= k < |s| ==> s[k].id != id
    ensures 0 <= i ==> s[i].id == id && forall k :: 0 <= k < i ==> s[k].id != id
  {
    if s == [] then -1
    else if s[0].id == id then 0
    else
      var i := FindIndex(s[1..], id);
      assert forall k :: 1 <= k < |s| ==> s[k] == s[1..][k - 1];
      if i == -1 then -1 else i + 1
  }

  /** `findIndex` sees only ids, so two lists with the same ids in the same order agree. */
  lemma {:induction false} FindIndexSameIds(s: seq<Applicant>, t: seq<Applicant>, id: Id)
    requires |s| == |t| && forall k :: 0 <= k < |s| ==> s[k].id == t[k].id
    ensures FindIndex(s, id) == FindIndex(t, id)
  {
    if s != [] && s[0].id != id {
      FindIndexSameIds(s[1..], t[1..], id);
    }
  }

  /**
   * handleChange as a value: a falsy id changes nothing; otherwise the
   * cascade is applied and the first record with the id is overwritten by
   * `data`. An unknown id leaves only the cascade (`tempValues[-1] = …`
   * writes no element).
   */
  function Replace(values: seq<Applicant>, data: Applicant): (r: seq<Applicant>)
    ensures |r| == |values|
    ensures forall k :: 0 <= k < |values| ==> r[k].id == values[k].id
    ensures !Truthy(data.id) ==> r == values
    ensures Truthy(data.id) ==>
      forall k :: 0 <= k < |values| ==>
        r[k] == if k == FindIndex(values, data.id) then data else Demoted(values[k], data)
    ensures Truthy(data.id) && data.isPrimary ==>
      forall k :: 0 <= k < |values| && values[k].id != data.id ==> !r[k].isPrimary
    ensures !data.isPrimary ==>
      forall k :: 0 <= k < |values| && k != FindIndex(values, data.id) ==> r[k] == values[k]
  {
    if !Truthy(data.id) then values
    else
      var t := Cascade(values, data);
      FindIndexSameIds(values, t, data.id);
      var i := FindIndex(t, data.id);
      if i < 0 then t else t[i := data]
  }

  /**
   * handleChange itself: map into a new array, find the index, overwrite
   * that element in place. `{ ...data, id: data.id || 0 }` is `data`, the
   * id being truthy past the guard.
   */
  method HandleChange(values: seq<Applicant>, data: Applicant) returns (next: seq<Applicant>)
    ensures next == Replace(values, data)
  {
    if !Truthy(data.id) {
      return values;
    }
    var mapped := Cascade(values, data);
    var temp := new Applicant[|mapped|](k requires 0 <= k < |mapped| => mapped[k]);
    assert temp[..] == mapped;
    FindIndexSameIds(values, mapped, data.id);
    var index := FindIndex(temp[..], data.id);
    if index >= 0 {
      temp[index] := data;
    }
    // with index == -1 the assignment creates a property "-1", not an element
    next := temp[..];
  }

  /**
   * Promoting a known id leaves exactly one primary, the new record, when
   * ids are unique.
   */
  lemma ReplacePrimaryIsSole(values: seq<Applicant>, data: Applicant)
    requires UniqueIds(values) && Truthy(data.id) && data.isPrimary
    requires FindIndex(values, data.id) >= 0
    ensures var r := Replace(values, data);
      r[FindIndex(values, data.id)] == data && PrimaryCount(r) == 1
  {
    var r := Replace(values, data);
    var i := FindIndex(values, data.id);
    forall j | 0 <= j < |r| && j != i ensures !r[j].isPrimary {
      assert values[j].id != data.id;
    }
    SolePrimaryCount(r, i);
  }

  /**
   * An id that is truthy but absent: the cascade still runs, nothing is
   * substituted, so a primary `data` leaves no primary at all.
   */
  lemma ReplaceUnknownId(values: seq<Applicant>, data: Applicant)
    requires Truthy(data.id) && FindIndex(values, data.id) == -1
    ensures data.isPrimary ==> NoPrimary(Replace(values, data)) && PrimaryCount(Replace(values, data)) == 0
    ensures !data.isPrimary ==> Replace(values, data) == values
  {
    NoPrimaryIffCountZero(Replace(values, data));
  }

  /** Replacement keeps ids unique and at most one record primary. */
  lemma ReplacePreservesInvariant(values: seq<Applicant>, data: Applicant)
    requires UniqueIds(values) && AtMostOnePrimary(values)
    ensures UniqueIds(Replace(values, data)) && AtMostOnePrimary(Replace(values, data))
  {
    var r := Replace(values, data);
    if Truthy(data.id) {
      var i := FindIndex(values, data.id);
      if data.isPrimary {
        if i >= 0 {
          ReplacePrimaryIsSole(values, data);
          AtMostOneIffCount(r);
        } else {
          ReplaceUnknownId(values, data);
        }
      } else {
        forall j, k | 0 <= j < |r| && 0 <= k < |r| && r[j].isPrimary && r[k].isPrimary
          ensures j == k
        {
          assert j != i && k != i;
          assert values[j].isPrimary && values[k].isPrimary;
        }
      }
    }
  }

  /** handleChangeTextInput: the record at `index` with one text field set, through Replace. */
  function ChangeTextInput(values: seq<Applicant>, index: nat, f: Field, text: string): (r: seq<Applicant>)
    requires index < |values|
    ensures |r| == |values|
    ensures forall k :: 0 <= k < |values| ==> r[k].id == values[k].id
    ensures !Truthy(values[index].id) ==> r == values
    ensures Truthy(values[index].id) ==>
      var i := FindIndex(values, values[index].id);
      0 <= i <= index && FieldValue(r[i], f) == text && r[i].isPrimary == values[index].isPrimary &&
      forall g :: g != f ==> FieldValue(r[i], g) == FieldValue(values[index], g)
    ensures forall k, g :: 0 <= k < |values| && k != FindIndex(values, values[index].id) ==>
      FieldValue(r[k], g) == FieldValue(values[k], g)
  {
    Replace(values, WithField(values[index], f, text))
  }

  /** handleTogglePrimary: the record at `index` with `isPrimary` set, through Replace. */
  function TogglePrimary(values: seq<Applicant>, index: nat, on: bool): (r: seq<Applicant>)
    requires index < |values|
    ensures |r| == |values|
    ensures forall k :: 0 <= k < |values| ==> r[k].id == values[k].id
    ensures !Truthy(values[index].id) ==> r == values
    ensures Truthy(values[index].id) ==>
      var i := FindIndex(values, values[index].id);
      0 <= i <= index && r[i] == values[index].(isPrimary := on)
    ensures Truthy(values[index].id) && on ==>
      forall k :: 0 <= k < |values| && values[k].id != values[index].id ==> !r[k].isPrimary
    ensures !on ==>
      forall k :: 0 <= k < |values| && k != FindIndex(values, values[index].id) ==> r[k] == values[k]
  {
    Replace(values, values[index].(isPrimary := on))
  }

  /**
   * A text edit changes the named field of the record at `index` and
   * nothing else; with a falsy id it changes nothing.
   */
  lemma ChangeTextInputIsLocal(values: seq<Applicant>, index: nat, f: Field, text: string)
    requires index < |values| && UniqueIds(values) && AtMostOnePrimary(values)
    ensures Truthy(values[index].id) ==>
      ChangeTextInput(values, index, f, text) == values[index := WithField(values[index], f, text)]
    ensures !Truthy(values[index].id) ==> ChangeTextInput(values, index, f, text) == values
  {
    var data := WithField(values[index], f, text);
    assert data.id == values[index].id && data.isPrimary == values[index].isPrimary;
    if Truthy(data.id) {
      var r := ChangeTextInput(values, index, f, text);
      assert FindIndex(values, data.id) == index;
      forall k | 0 <= k < |values| ensures r[k] == values[index := data][k] {
        if k != index && data.isPrimary {
          assert values[k].id != data.id;
          assert !values[k].isPrimary;
        }
      }
    }
  }

  /**
   * Switching a record on makes it the only primary, demoting every other
   * record and touching nothing else; switching it off changes only its own
   * flag. A falsy id changes nothing.
   */
  lemma TogglePrimaryEffect(values: seq<Applicant>, index: nat, on: bool)
    requires index < |values| && UniqueIds(values)
    ensures var r := TogglePrimary(values, index, on);
      Truthy(values[index].id) && on ==>
        r[index] == values[index].(isPrimary := true) && PrimaryCount(r) == 1 &&
        forall k :: 0 <= k < |values| && k != index ==> r[k] == values[k].(isPrimary := false)
    ensures Truthy(values[index].id) && !on ==>
      TogglePrimary(values, index, on) == values[index := values[index].(isPrimary := false)]
    ensures !Truthy(values[index].id) ==> TogglePrimary(values, index, on) == values
  {
    var data := values[index].(isPrimary := on);
    if Truthy(data.id) {
      assert FindIndex(values, data.id) == index;
      var r := TogglePrimary(values, index, on);
      if on {
        ReplacePrimaryIsSole(values, data);
        forall k | 0 <= k < |values| && k != index ensures r[k] == values[k].(isPrimary := false) {
          assert values[k].id != data.id;
        }
      } else {
        forall k | 0 <= k < |values| ensures r[k] == values[index := data][k] {
        }
      }
    }
  }

  /**
   * handleConfirmDelete: whether the confirmation opens. It refuses a falsy
   * or unknown id, a one-record list, and a primary target (the first
   * record with the id, as `find` returns).
   */
  function CanDelete(values: seq<Applicant>, id: Id): (ok: bool)
    ensures ok <==>
      Truthy(id) && |values| >= 2 &&
      exists k :: 0 <= k < |values| && values[k].id == id && !values[k].isPrimary &&
        forall j :: 0 <= j < k ==> values[j].id != id
  {
    var i := FindIndex(values, id);
    Truthy(id) && i >= 0 && |values| != 1 && !values[i].isPrimary
  }

  /** handleDelete: `values.filter((i) => i.id !== id)`. */
  function Remove(values: seq<Applicant>, id: Id): (r: seq<Applicant>)
    ensures |r| <= |values|
    ensures forall k :: 0 <= k < |r| ==> r[k].id != id
  {
    if values == [] then []
    else (if values[0].id == id then [] else [values[0]]) + Remove(values[1..], id)
  }

  /** The survivors of a delete are exactly the records with another id. */
  lemma {:induction false} RemoveMembers(values: seq<Applicant>, id: Id, x: Applicant)
    ensures x in Remove(values, id) <==> x in values && x.id != id
  {
    if values != [] {
      RemoveMembers(values[1..], id, x);
      assert x in values <==> x == values[0] || x in values[1..];
    }
  }

  /** Filtering distributes over concatenation: the survivors keep their order. */
  lemma {:induction false} RemoveAppend(s: seq<Applicant>, t: seq<Applicant>, id: Id)
    ensures Remove(s + t, id) == Remove(s, id) + Remove(t, id)
  {
    if s == [] {
      assert s + t == t;
    } else {
      assert (s + t)[0] == s[0] && (s + t)[1..] == s[1..] + t;
      RemoveAppend(s[1..], t, id);
    }
  }

  /** A list without the id is kept whole. */
  lemma {:induction false} RemoveAbsent(s: seq<Applicant>, id: Id)
    requires forall k :: 0 <= k < |s| ==> s[k].id != id
    ensures Remove(s, id) == s
  {
    if s != [] {
      assert forall k :: 0 <= k < |s| - 1 ==> s[1..][k] == s[k + 1];
      RemoveAbsent(s[1..], id);
      assert s == [s[0]] + s[1..];
    }
  }

  /** Deleting the id of the one record between two stretches without it. */
  lemma {:induction false} RemoveSplit(before: seq<Applicant>, x: Applicant, after: seq<Applicant>)
    requires forall j :: 0 <= j < |before| ==> before[j].id != x.id
    requires forall j :: 0 <= j < |after| ==> after[j].id != x.id
    ensures Remove(before + [x] + after, x.id) == before + after
  {
    RemoveAbsent(before, x.id);
    RemoveAbsent(after, x.id);
    assert Remove([x], x.id) == [] by {
      assert [x][1..] == [];
    }
    RemoveAppend(before, [x], x.id);
    RemoveAppend(before + [x], after, x.id);
  }

  /** With unique ids, deleting the id at position `k` removes exactly that record. */
  lemma RemoveAt(values: seq<Applicant>, k: nat)
    requires k < |values| && UniqueIds(values)
    ensures Remove(values, values[k].id) == values[..k] + values[k + 1..]
  {
    var before, after := values[..k], values[k + 1..];
    assert forall j :: 0 <= j < |before| ==> before[j].id != values[k].id;
    assert forall j :: 0 <= j < |after| ==> after[j].id != values[k].id;
    assert values == before + [values[k]] + after;
    RemoveSplit(before, values[k], after);
  }

  /**
   * After an accepted guard, with unique ids, the delete drops exactly one
   * non-primary record: the list shrinks by one, stays non-empty, keeps its
   * order, its ids unique and its primary count.
   */
  lemma {:induction false} DeleteAfterGuard(values: seq<Applicant>, id: Id)
    requires UniqueIds(values) && CanDelete(values, id)
    ensures var r := Remove(values, id);
      |r| == |values| - 1 && r != [] &&
      PrimaryCount(r) == PrimaryCount(values) && UniqueIds(r) &&
      (AtMostOnePrimary(values) ==> AtMostOnePrimary(r))
    ensures exists k ::
      0 <= k < |values| && !values[k].isPrimary && Remove(values, id) == values[..k] + values[k + 1..]
  {
    var k := FindIndex(values, id);
    RemoveAt(values, k);
    var before, after := values[..k], values[k + 1..];
    assert values == before + [values[k]] + after;
    CountWithoutNonPrimary(before, values[k], after);
    DropKeepsUnique(values, k);
    AtMostOneIffCount(values);
    AtMostOneIffCount(before + after);
  }

  /** Dropping a non-primary record does not change the primary count. */
  lemma CountWithoutNonPrimary(before: seq<Applicant>, x: Applicant, after: seq<Applicant>)
    requires !x.isPrimary
    ensures PrimaryCount(before + [x] + after) == PrimaryCount(before + after)
  {
    PrimaryCountAppend(before + [x], after);
    PrimaryCountAppend(before, [x]);
    PrimaryCountAppend(before, after);
    assert [x][1..] == [];
  }

  /** Dropping one record keeps the ids unique. */
  lemma DropKeepsUnique(values: seq<Applicant>, k: nat)
    requires k < |values| && UniqueIds(values)
    ensures UniqueIds(values[..k] + values[k + 1..])
  {
    var r := values[..k] + values[k + 1..];
    forall p, q | 0 <= p < q < |r| ensures r[p].id != r[q].id {
      var p' := if p < k then p else p + 1;
      var q' := if q < k then q else q + 1;
      assert r[p] == values[p'] && r[q] == values[q'];
    }
  }
}
