/** The registration form's state and its four event handlers: change,
    submit, edit and delete. Each handler is one atomic transition from the
    state before the event to the state after it.
 */
module Registration {
  import opened Fields
  import opened Validation

  datatype Option<T> = None | Some(value: T)

  /** `formData`, `errors`, `submittedData` and `editIndex`. */
  datatype State = State(form: Form, errors: Errors, records: seq<Form>, editIndex: Option<nat>)

  /** The state when the form first appears. */
  const Initial: State := State(Blank, map[], [], None)

  /** The edit cursor, when set, names an existing record. */
  predicate EditInRange(s: State)
  {
    s.editIndex.None? || s.editIndex.value < |s.records|
  }

  /** Every stored record passed validation when it was stored. */
  predicate RecordsValid(s: State)
  {
    forall j :: 0 <= j < |s.records| ==> Passes(s.records[j])
  }

  /** `handleChange`: only the form changes. */
  function HandleChange(s: State, ev: ChangeEvent): (t: State)
    requires ev.name == Hobby ==> ev.isCheckbox
    ensures t.form == ApplyChange(s.form, ev)
    ensures t.errors == s.errors && t.records == s.records && t.editIndex == s.editIndex
  {
    s.(form := ApplyChange(s.form, ev))
  }

  /** A submit in edit mode writes `submittedData[editIndex]`. At the
      list's length that write appends the form; beyond it, it leaves holes.
      The model admits neither.
      A submit that fails validation never writes, so it needs nothing. */
  predicate CanSubmit(s: State)
  {
    s.editIndex.Some? && Passes(s.form) ==> s.editIndex.value < |s.records|
  }

  /** `handleSubmit`: validate; on failure only the errors change. On
      success the form is stored (appended, or written over the record being
      edited), then the form and errors are reset and the cursor cleared. */
  function HandleSubmit(s: State): (t: State)
    requires CanSubmit(s)
    ensures !Passes(s.form) ==> t.form == s.form && t.records == s.records && t.editIndex == s.editIndex
    ensures !Passes(s.form) ==> forall n :: n in t.errors <==> Fails(s.form, n)
    ensures !Passes(s.form) ==> forall n :: n in t.errors ==> t.errors[n] == Message(s.form, n)
    ensures Passes(s.form) ==> t.form == Blank && t.errors == map[] && t.editIndex.None?
    ensures Passes(s.form) && s.editIndex.None? ==>
      |t.records| == |s.records| + 1 && t.records[..|s.records|] == s.records && t.records[|s.records|] == s.form
    ensures Passes(s.form) && s.editIndex.Some? ==>
      && |t.records| == |s.records|
      && t.records[s.editIndex.value] == s.form
      && forall j :: 0 <= j < |s.records| && j != s.editIndex.value ==> t.records[j] == s.records[j]
  {
    var errs := Validate(s.form);
    NoErrorsIffPasses(s.form);
    if |errs| != 0 then
      s.(errors := errs)
    else
      var records := match s.editIndex
        case Some(i) => s.records[i := s.form]
        case None => s.records + [s.form];
      State(Blank, map[], records, None)
  }

  /** `handleEdit(i)`: load record `i` into the form and set the cursor.
      An index with no record would load `undefined`; it is excluded. */
  function HandleEdit(s: State, i: nat): (t: State)
    requires i < |s.records|
    ensures t.form == s.records[i] && t.editIndex == Some(i)
    ensures t.records == s.records && t.errors == s.errors
  {
    s.(form := s.records[i], editIndex := Some(i))
  }

  /** `submittedData.filter((_, i) => i !== index)` over the positions
      `from` onwards. */
  function KeepOthers(records: seq<Form>, index: int, from: nat): seq<Form>
    requires from <= |records|
    decreases |records| - from
  {
    if from == |records| then []
    else (if from == index then [] else [records[from]]) + KeepOthers(records, index, from + 1)
  }

  /** The filter, seen from position `from`, cuts out exactly position
      `index` when it lies ahead, and keeps everything otherwise. */
  lemma {:induction false} KeepOthersSplices(records: seq<Form>, index: int, from: nat)
    requires from <= |records|
    ensures from <= index < |records| ==>
      KeepOthers(records, index, from) == records[from..index] + records[index + 1..]
    ensures !(from <= index < |records|) ==> KeepOthers(records, index, from) == records[from..]
    decreases |records| - from
  {
    if from < |records| {
      KeepOthersSplices(records, index, from + 1);
      if from == index {
        assert records[from..index] == [];
      } else if from < index < |records| {
        assert records[from..index] == [records[from]] + records[from + 1..index];
      } else {
        assert records[from..] == [records[from]] + records[from + 1..];
      }
    }
  }

  /** The records after deleting position `index`: with `index` in range,
      one fewer, those before it in place and those after it shifted down
      by one; with `index` out of range, the same records. */
  function Delete(records: seq<Form>, index: int): (r: seq<Form>)
    ensures 0 <= index < |records| ==> |r| == |records| - 1
    ensures 0 <= index < |records| ==> forall j :: 0 <= j < index ==> r[j] == records[j]
    ensures 0 <= index < |records| ==> forall j :: index <= j < |r| ==> r[j] == records[j + 1]
    ensures !(0 <= index < |records|) ==> r == records
  {
    KeepOthersSplices(records, index, 0);
    KeepOthers(records, index, 0)
  }

  /** `handleDelete(i)`: only the records change. The cursor is left as it
      was, even when it now names a shifted or missing record. */
  function HandleDelete(s: State, index: int): (t: State)
    ensures t.records == Delete(s.records, index)
    ensures t.form == s.form && t.errors == s.errors && t.editIndex == s.editIndex
  {
    s.(records := Delete(s.records, index))
  }

  /** Every record the table can hold passed validation: only a passing
      submit stores the form, and deleting keeps the rest. */
  lemma RecordsStayValid(s: State, ev: ChangeEvent, i: nat, index: int)
    requires RecordsValid(s)
    ensures (ev.name == Hobby ==> ev.isCheckbox) ==> RecordsValid(HandleChange(s, ev))
    ensures CanSubmit(s) ==> RecordsValid(HandleSubmit(s))
    ensures i < |s.records| ==> RecordsValid(HandleEdit(s, i))
    ensures RecordsValid(HandleDelete(s, index))
  {
    if CanSubmit(s) && Passes(s.form) {
      var t := HandleSubmit(s);
      forall j | 0 <= j < |t.records| ensures Passes(t.records[j]) {
        if s.editIndex.None? && j == |s.records| {
        } else if s.editIndex.None? {
          assert t.records[j] == t.records[..|s.records|][j];
        }
      }
    }
    var d := HandleDelete(s, index);
    forall j | 0 <= j < |d.records| ensures Passes(d.records[j]) {
      if 0 <= index < |s.records| && index <= j {
        assert d.records[j] == s.records[j + 1];
      }
    }
  }

  /** No hobby list in the state, in the form or in a stored record, holds
      a value twice. */
  predicate HobbiesDistinct(s: State)
  {
    Distinct(s.form.hobby) && forall j :: 0 <= j < |s.records| ==> Distinct(s.records[j].hobby)
  }

  /** A change event the rendered form can send: a hobby checkbox reports
      `checked` exactly when its value is not yet in the list. */
  predicate FromMarkup(s: State, ev: ChangeEvent)
  {
    && (ev.name == Hobby ==> ev.isCheckbox)
    && (IsHobbyToggle(ev) ==> (ev.checked <==> ev.value !in s.form.hobby))
  }

  /** Through the form, hobby lists never hold duplicates: the controlled
      checkboxes keep the form's list duplicate-free, submit stores that list
      or resets it, edit loads a stored one, and delete keeps the rest. */
  lemma HobbiesStayDistinct(s: State, ev: ChangeEvent, i: nat, index: int)
    requires HobbiesDistinct(s)
    ensures FromMarkup(s, ev) ==> HobbiesDistinct(HandleChange(s, ev))
    ensures CanSubmit(s) ==> HobbiesDistinct(HandleSubmit(s))
    ensures i < |s.records| ==> HobbiesDistinct(HandleEdit(s, i))
    ensures HobbiesDistinct(HandleDelete(s, index))
  {
    if FromMarkup(s, ev) && IsHobbyToggle(ev) {
      ControlledToggleKeepsDistinct(s.form, ev.value, ev.checked);
    }
    if CanSubmit(s) && Passes(s.form) {
      var t := HandleSubmit(s);
      forall j | 0 <= j < |t.records| ensures Distinct(t.records[j].hobby) {
        if s.editIndex.None? && j < |s.records| {
          assert t.records[j] == t.records[..|s.records|][j];
        }
      }
    }
    var d := HandleDelete(s, index);
    forall j | 0 <= j < |d.records| ensures Distinct(d.records[j].hobby) {
      if 0 <= index < |s.records| && index <= j {
        assert d.records[j] == s.records[j + 1];
      }
    }
  }

  /** Change, submit and edit keep the cursor on an existing record, so a
      later submit always has a place to write. */
  lemma EditCursorStaysInRange(s: State, ev: ChangeEvent, i: nat)
    requires EditInRange(s)
    ensures (ev.name == Hobby ==> ev.isCheckbox) ==> EditInRange(HandleChange(s, ev))
    ensures CanSubmit(s) && EditInRange(HandleSubmit(s))
    ensures i < |s.records| ==> EditInRange(HandleEdit(s, i))
  {
  }

  /** Delete is the exception: deleting the record being edited, when it is
      the last one, leaves the cursor past the end of the list. */
  lemma DeleteCanStrandCursor(r: Form)
    ensures EditInRange(HandleEdit(State(Blank, map[], [r], None), 0))
    ensures !EditInRange(HandleDelete(HandleEdit(State(Blank, map[], [r], None), 0), 0))
  {
    var s := HandleEdit(State(Blank, map[], [r], None), 0);
    assert |HandleDelete(s, 0).records| == 0;
  }

  /** The more common effect: deleting an earlier record while editing a
      later one moves the cursor onto the record after it, so the next
      passing submit overwrites that record. Editing `b` in `[a, b, c]`,
      deleting `a` and submitting leaves `[b, b]`: `c` is gone. */
  lemma DeleteShiftsCursor(a: Form, b: Form, c: Form)
    requires Passes(b)
    ensures
      var edited := HandleEdit(State(Blank, map[], [a, b, c], None), 1);
      var t := HandleSubmit(HandleDelete(edited, 0));
      && t.records == [b, b]
      && (c != b ==> c !in t.records)
  {
    var edited := HandleEdit(State(Blank, map[], [a, b, c], None), 1);
    var d := HandleDelete(edited, 0);
    assert d.records == [b, c];
    assert d.records[1 := b] == [b, b];
  }

  /** Editing a stored record and submitting it unchanged stores the same
      records and leaves edit mode. */
  lemma EditThenSubmitUnchanged(s: State, i: nat)
    requires i < |s.records| && Passes(s.records[i])
    ensures HandleSubmit(HandleEdit(s, i)).records == s.records
    ensures HandleSubmit(HandleEdit(s, i)).editIndex.None?
  {
    var t := HandleSubmit(HandleEdit(s, i));
    assert t.records == s.records[i := s.records[i]];
  }

  /** Editing record `i`, changing one text field and submitting rewrites
      only that field of record `i`; every other record and the length stay. */
  lemma EditChangeSubmit(s: State, i: nat, n: Field, v: string)
    requires i < |s.records| && n != Hobby
    requires Passes(ApplyChange(s.records[i], ChangeEvent(n, v, false, false)))
    ensures
      var t := HandleSubmit(HandleChange(HandleEdit(s, i), ChangeEvent(n, v, false, false)));
      && |t.records| == |s.records|
      && Text(t.records[i], n) == v
      && t.records[i].hobby == s.records[i].hobby
      && (forall m :: m != Hobby && m != n ==> Text(t.records[i], m) == Text(s.records[i], m))
      && (forall j :: 0 <= j < |s.records| && j != i ==> t.records[j] == s.records[j])
      && t.editIndex.None? && t.form == Blank
  {
  }
}
