# Applicant list engine

A Dafny model of the logic behind the applicant form. The form keeps an ordered
list of applicant records. Each record has an `id`, `firstname`, `lastname`,
`email`, `mobile` and `isPrimary`. The page (`src/modules/Applicants/index.tsx`)
does four things:

- it seeds the list with one primary record;
- it hands out ids (`getNextId`);
- it appends blank records ("add more");
- it validates the list against its schema.

Each record's editor (`src/modules/Applicants/Form.tsx`) does three:

- it replaces its record through `handleChange`; promoting a record to primary
  demotes every other record;
- it routes text edits and the primary switch through that replacement;
- it guards and performs deletion.

The model lifts these operations out of the components and states them as
operations on `seq<Applicant>`:

- `record.dfy` (module `ApplicantRecord`): the record and the list predicates
  (unique ids, at most one primary, primary count) with the lemmas linking them.
- `applicants.dfy` (module `Applicants`): the seed, id assignment, "add more"
  and validation.
  - `getNextId` sorts a fresh copy in place and pops its last element. It is
    modelled as the method `GetNextId`, over an array, and proved equal to the
    function `NextId`.
  - The email syntax rule is a parameter `isEmail: string -> bool`.
- `form.dfy` (module `ApplicantForm`): replacement with the primary cascade,
  the two single-field edits, the delete guard and the delete.
  - `handleChange` maps into a new array and overwrites one element in place. It
    is modelled as the method `HandleChange` and proved equal to the function
    `Replace`.
- `session.dfy` (module `ApplicantSession`): the list as the form holds it,
  changed one user action at a time. This module proves the invariant every
  reachable list keeps.

The page's rule text (`index.tsx:25-28`) says there must always be exactly one
primary applicant. The code does not keep that. Switching off the current
primary (`Form.tsx:75-77`) leaves no primary at all, and only the schema's
list-level test (`index.tsx:40-44`) then rejects the list. The model follows
the code:

- "at most one primary" is proved as an invariant;
- "exactly one primary" is proved only as the condition under which validation
  passes (`ReachableLists`);
- `ToggleOffLeavesNoPrimary` exhibits the list with no primary.

## Model

| member | source | states |
|---|---|---|
| `Applicants.Seed` | src/modules/Applicants/index.tsx:73 | the initial list is one record with id 1 that is primary and whose four text fields are empty; it has unique ids and exactly one primary |
| `Applicants.MaxKey` | src/modules/Applicants/index.tsx:51-54 | the key the sort leaves last: no key in the list exceeds it, and some record has it (`id \|\| 0`, so a missing id counts as 0) |
| `Applicants.NextId` | src/modules/Applicants/index.tsx:51-54 | the next id is 1 for an empty list, strictly greater than every key, and exactly one more than the largest key |
| `Applicants.SortByKey` | src/modules/Applicants/index.tsx:52-53 | the in-place sort leaves the array in ascending key order and is a permutation of its old contents |
| `Applicants.GetNextId` | src/modules/Applicants/index.tsx:51-54 | sorting a fresh copy and popping its last record gives exactly `NextId`; the caller's list is a value the sort cannot reach |
| `Applicants.AddForm` | src/modules/Applicants/index.tsx:94-99 | the list grows by one; the old records are an unchanged prefix; the new record is blank and not primary, and its id `NextId` exceeds every existing key |
| `Applicants.FieldProblem` | src/modules/Applicants/index.tsx:33-36 | a field gets the required error, with its own message, iff it is empty; the email field gets the format error iff it is non-empty and rejected by `isEmail` |
| `Applicants.RecordErrors` | src/modules/Applicants/index.tsx:32-38 | a record's error map is empty iff all four fields are non-empty and the email is accepted; it holds exactly the fields that have a problem, each mapped to that field's own problem (the required error with the field's message, or the email format error) |
| `Applicants.AnyPrimary` | src/modules/Applicants/index.tsx:43 | `some(i => i.isPrimary === true)` holds iff some record is primary |
| `Applicants.Validate` | src/modules/Applicants/index.tsx:30-44 | the report has one entry per index; entry k is empty iff record k is complete, and holds exactly record k's field problems; an empty field of record k carries the required error with its own message at index k, and a rejected non-empty email the format error; the list-level error, with its message, is raised iff no record is primary |
| `Applicants.SeedValidation` | src/modules/Applicants/index.tsx:30-44 | validating the seeded list reports the four required messages ("First name is required" and the rest) at index 0, no list-level error, and does not pass |
| `Applicants.ValidationPassesIff` | src/modules/Applicants/index.tsx:30-44 | on a list with at most one primary, validation passes iff every record is complete and exactly one record is primary |
| `ApplicantRecord.WithField` | src/modules/Applicants/Form.tsx:71-73 | `{ ...data, [name]: value }` sets the named text field to the new text and keeps the id, the flag and the other three fields |
| `ApplicantForm.Cascade` | src/modules/Applicants/Form.tsx:33-43 | the mapped list has the same length; each record keeps every field but its flag; a record stays primary iff it was primary and either `data` is not primary or the record has `data`'s id |
| `ApplicantForm.FindIndex` | src/modules/Applicants/Form.tsx:45 | `findIndex` returns -1 iff no record has the id, and otherwise the first position holding it |
| `ApplicantForm.Replace` | src/modules/Applicants/Form.tsx:30-52 | length and the id at every position are kept; a falsy id changes nothing; otherwise the first record with the id becomes `data` and every other record is kept, or demoted when `data` is primary; with a primary `data`, no record with another id stays primary; with a non-primary `data`, every other record is unchanged |
| `ApplicantForm.HandleChange` | src/modules/Applicants/Form.tsx:30-52 | mapping into a new array and overwriting the found element in place gives exactly `Replace`; index -1 writes no element |
| `ApplicantForm.ReplacePrimaryIsSole` | src/modules/Applicants/Form.tsx:33-49 | with unique ids, promoting a known id leaves exactly one primary, the new record at the id's position |
| `ApplicantForm.ReplaceUnknownId` | src/modules/Applicants/Form.tsx:33-49 | a truthy id that is not in the list still runs the cascade but substitutes nothing; a primary `data` then leaves no primary, and a non-primary one changes nothing |
| `ApplicantForm.ReplacePreservesInvariant` | src/modules/Applicants/Form.tsx:33-49 | replacement keeps ids unique and keeps at most one primary |
| `ApplicantForm.ChangeTextInput` | src/modules/Applicants/Form.tsx:71-73 | length and ids are kept; a falsy id changes nothing; otherwise the first record with this id (at or before the index) carries the new text in the named field, this record's other three text fields and its primary flag; no other position changes a text field |
| `ApplicantForm.ChangeTextInputIsLocal` | src/modules/Applicants/Form.tsx:71-73 | a text edit changes only the named field of the record at this index, and keeps its id; with a falsy id it changes nothing |
| `ApplicantForm.TogglePrimary` | src/modules/Applicants/Form.tsx:75-77 | length and ids are kept; a falsy id changes nothing; otherwise the first record with this id becomes this record with the new flag; switching on leaves no record with another id primary; switching off leaves every other position unchanged |
| `ApplicantForm.TogglePrimaryEffect` | src/modules/Applicants/Form.tsx:75-77 | switching on makes this record the sole primary and demotes every other record without touching its other fields; switching off changes only this record's flag; a falsy id changes nothing |
| `ApplicantForm.CanDelete` | src/modules/Applicants/Form.tsx:54-65 | the guard accepts iff the id is truthy, the list has at least two records, and the first record with the id exists and is not primary |
| `ApplicantForm.Remove` | src/modules/Applicants/Form.tsx:67-69 | its own contract says only that no survivor has the deleted id and that the list never grows; `RemoveMembers`, `RemoveAppend` and `RemoveAt` complete it (which records survive, in what order, and what a unique id drops) |
| `ApplicantForm.RemoveMembers` | src/modules/Applicants/Form.tsx:67-69 | a record survives the delete iff it was in the list and its id differs from the deleted id |
| `ApplicantForm.RemoveAppend` | src/modules/Applicants/Form.tsx:67-69 | the delete distributes over concatenation, so the survivors keep their original order |
| `ApplicantForm.RemoveAt` | src/modules/Applicants/Form.tsx:67-69 | with unique ids, deleting the id found at position k yields the list with exactly that position dropped |
| `ApplicantForm.DeleteAfterGuard` | src/modules/Applicants/Form.tsx:54-69 | with unique ids, after an accepted guard the list shrinks by exactly one non-primary record; it stays non-empty, keeps its order, its unique ids and its primary count |
| `ApplicantSession.Step` | src/modules/Applicants/Form.tsx:30-133 | one action, from the editor's handlers here and the page's "add more" and reset (`index.tsx:94-99`, `index.tsx:110-113`): "add more" appends one record after an unchanged prefix; a text edit or a primary switch keeps length and ids; a delete the guard refuses (falsy or unknown id, one record, primary target) changes nothing; a delete the guard accepts, on a list with unique ids, drops exactly the non-primary record at the editor's index; a delete never grows the list; a reset restores exactly the seeded list |
| `ApplicantSession.AddMoreKeepsInvariant` | src/modules/Applicants/index.tsx:94-99 | "add more" keeps the list non-empty, with unique positive ids and at most one primary |
| `ApplicantSession.DeleteKeepsInvariant` | src/modules/Applicants/Form.tsx:120-136 | a delete confirmed after the guard keeps the invariant |
| `ApplicantSession.StepPreservesInvariant` | src/modules/Applicants/Form.tsx:30-77 | every user action keeps the invariant: the editor's text edit, primary switch and confirmed delete here, and the page's "add more" and reset (`index.tsx:94-99`, `index.tsx:110-113`) |
| `ApplicantSession.RunPreservesInvariant` | src/modules/Applicants/index.tsx:72-78 | the invariant holds after any sequence of actions from a list that has it |
| `ApplicantSession.ReachableLists` | src/modules/Applicants/index.tsx:72-78 | every list reachable from the seed keeps the invariant; such a list validates iff every record is complete and exactly one is primary |
| `ApplicantSession.ToggleOffLeavesNoPrimary` | src/modules/Applicants/Form.tsx:75-77 | switching off the seeded primary gives a list that keeps the invariant but has no primary, and validation raises the list-level error |
| `ApplicantSession.SoleRecordDeleteIsRefused` | src/modules/Applicants/Form.tsx:58-59 | deleting the only record of the seeded list changes nothing |
| `ApplicantSession.PromoteSecondDemotesFirst` | src/modules/Applicants/Form.tsx:33-49 | promoting record 2 of `[1 primary, 2]` yields `[1, 2 primary]` |
| `ApplicantSession.AddAfterThree` | src/modules/Applicants/index.tsx:51-54 | after a list whose largest id is 3, "add more" appends a non-primary record with id 4 |

## Left out

- Rendering, JSX and the UI kit are left out: boxes, buttons, text inputs, the switch, confirmation dialogs, page, footer and text. So are the header text (`Form.tsx:92-97`) and the error banner condition (`index.tsx:140-145`). They are presentation only.
- The dialog open/close flags are left out. A confirmed delete and a confirmed reset are each one atomic action of the session. This assumes that the UI kit's `ConfirmDialog`, which is not part of this model, blocks every other edit while it is open. The assumption hides one behaviour: the dialog's `onConfirm` calls `handleDelete(values[index].id)` (`Form.tsx:131-133`) without running the guard again, while the model's `ConfirmDelete` runs the guard and the delete together on the same list. If the list could change between opening and confirming, the source would delete whatever record is then at the index, primary or not.
- The form-state container is not modelled: `dirty`, `isSubmitting`, `getFieldProps`, `validateOnBlur`/`validateOnChange` and the per-field error map it derives. Storing a new list (`setValues`, `resetForm`) is the next state of the session.
- `onSubmit` and `handleSaveChanges` are left out. They are a timer stub standing in for a network call.
- The validation library's internals are left out. The email regular expression is the parameter `isEmail`. The wording of its default invalid-email message is not modelled.
- The text fields are always strings. The schema's `ensure()` turns an undefined field into `''`, so the model gives the same verdicts.
- The `maxLength` limits of 30 and 320 are not modelled. The browser enforces them, not this code.
- Ids are unbounded integers. JavaScript numbers are doubles, so fractional, NaN or very large ids are not modelled.
- `SortByKey` is an insertion sort with the contract of the engine's array sort: ascending by the comparator, and a permutation. The engine's own algorithm is not modelled. Only the key of the popped record matters.
- `ChangeTextInputIsLocal`: stated only for lists with unique ids and at most one primary. Every reachable list has both. Without them, a text edit on a primary record also demotes other primaries, as `Replace`'s contract says.
- `TogglePrimaryEffect`: stated only for lists with unique ids. With duplicate ids, `findIndex` overwrites the first record with the id, which may not be the editor's own record. `Replace`'s contract covers that case.
- `DeleteAfterGuard`: stated only for lists with unique ids. With duplicate ids, the filter drops every record with the id, as `RemoveMembers` states.
- `handleChangeTextInput` is modelled only for the four text-field names. The page renders text inputs only for those four fields.
