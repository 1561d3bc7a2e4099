/** The applicant record and the list-level predicates every other module uses. */
module ApplicantRecord {

  datatype Option<T> = None | Some(value: T)

  /** A record id: the source's optional number (`id?: number`), as an unbounded integer. */
  type Id = Option<int>

  datatype Applicant = Applicant(
    id: Id,
    firstname: string,
    lastname: string,
    email: string,
    mobile: string,
    isPrimary: bool)

  /** The four text fields, the names a text input reports on change. */
  datatype Field = FirstName | LastName | Email | Mobile

  function FieldValue(a: Applicant, f: Field): string
  {
    match f
    case FirstName => a.firstname
    case LastName => a.lastname
    case Email => a.email
    case Mobile => a.mobile
  }

  /** `{ ...a, [name]: text }` for one of the four text fields. */
  function WithField(a: Applicant, f: Field, text: string): (b: Applicant)
    ensures b.id == a.id && b.isPrimary == a.isPrimary
    ensures FieldValue(b, f) == text
    ensures forall g :: g != f ==> FieldValue(b, g) == FieldValue(a, g)
  {
    match f
    case FirstName => a.(firstname := text)
    case LastName => a.(lastname := text)
    case Email => a.(email := text)
    case Mobile => a.(mobile := text)
  }

  /** `a?.id || 0`: a missing id and the id 0 both read as 0. */
  function Key(a: Applicant): int
  {
    if a.id.Some? then a.id.value else 0
  }

  /** The id is truthy in JavaScript terms: present and not 0. */
  predicate Truthy(id: Id)
  {
    id.Some? && id.value != 0
  }

  predicate UniqueIds(s: seq<Applicant>)
  {
    forall j, k :: 0 <= j < k < |s| ==> s[j].id != s[k].id
  }

  predicate AtMostOnePrimary(s: seq<Applicant>)
  {
    forall j, k :: 0 <= j < |s| && 0 <= k < |s| && s[j].isPrimary && s[k].isPrimary ==> j == k
  }

  predicate NoPrimary(s: seq<Applicant>)
  {
    forall k :: 0 <= k < |s| ==> !s[k].isPrimary
  }

  function PrimaryCount(s: seq<Applicant>): nat
  {
    if s == [] then 0 else (if s[0].isPrimary then 1 else 0) + PrimaryCount(s[1..])
  }

  /** Counting primaries is additive over concatenation. */
  lemma {:induction false} PrimaryCountAppend(s: seq<Applicant>, t: seq<Applicant>)
    ensures PrimaryCount(s + t) == PrimaryCount(s) + PrimaryCount(t)
  {
    if s != [] {
      assert (s + t)[1..] == s[1..] + t;
      PrimaryCountAppend(s[1..], t);
    } else {
      assert s + t == t;
    }
  }

  /** No record is primary exactly when the count of primaries is zero. */
  lemma {:induction false} NoPrimaryIffCountZero(s: seq<Applicant>)
    ensures NoPrimary(s) <==> PrimaryCount(s) == 0
  {
    if s != [] {
      NoPrimaryIffCountZero(s[1..]);
      assert NoPrimary(s) <==> !s[0].isPrimary && NoPrimary(s[1..]) by {
        if !s[0].isPrimary && NoPrimary(s[1..]) {
          forall k | 0 <= k < |s| ensures !s[k].isPrimary {
            if k > 0 { assert s[k] == s[1..][k - 1]; }
          }
        }
      }
    }
  }

  /** The pointwise invariant "at most one primary" and the count agree. */
  lemma {:induction false} AtMostOneIffCount(s: seq<Applicant>)
    ensures AtMostOnePrimary(s) <==> PrimaryCount(s) <= 1
  {
    if s != [] {
      var t := s[1..];
      AtMostOneIffCount(t);
      NoPrimaryIffCountZero(t);
      if AtMostOnePrimary(s) {
        assert AtMostOnePrimary(t) by {
          forall j, k | 0 <= j < |t| && 0 <= k < |t| && t[j].isPrimary && t[k].isPrimary
            ensures j == k
          {
            assert s[j + 1] == t[j] && s[k + 1] == t[k];
          }
        }
        if s[0].isPrimary {
          forall k | 0 <= k < |t| ensures !t[k].isPrimary {
            assert s[k + 1] == t[k];
          }
        }
      } else {
        var j, k :| 0 <= j < |s| && 0 <= k < |s| && s[j].isPrimary && s[k].isPrimary && j != k;
        if j > 0 && k > 0 {
          assert t[j - 1] == s[j] && t[k - 1] == s[k];
          assert !AtMostOnePrimary(t);
        } else {
          var other := if j == 0 then k else j;
          assert s[0].isPrimary && t[other - 1] == s[other];
          assert !NoPrimary(t);
        }
      }
    }
  }

  /** A list whose only primary is at index `k` has exactly one primary. */
  lemma {:induction false} SolePrimaryCount(s: seq<Applicant>, k: nat)
    requires k < |s| && s[k].isPrimary
    requires forall j :: 0 <= j < |s| && j != k ==> !s[j].isPrimary
    ensures PrimaryCount(s) == 1
    ensures AtMostOnePrimary(s)
  {
    assert s == s[..k] + ([s[k]] + s[k + 1..]);
    PrimaryCountAppend(s[..k], [s[k]] + s[k + 1..]);
    PrimaryCountAppend([s[k]], s[k + 1..]);
    assert NoPrimary(s[..k]) by {
      forall j | 0 <= j < k ensures !s[..k][j].isPrimary {
        assert s[..k][j] == s[j];
      }
    }
    assert NoPrimary(s[k + 1..]) by {
      var rest := s[k + 1..];
      forall j | 0 <= j < |rest| ensures !rest[j].isPrimary {
        assert rest[j] == s[k + 1 + j];
      }
    }
    NoPrimaryIffCountZero(s[..k]);
    NoPrimaryIffCountZero(s[k + 1..]);
    assert PrimaryCount([s[k]]) == 1 by {
      assert [s[k]][1..] == [];
    }
    AtMostOneIffCount(s);
  }
}
