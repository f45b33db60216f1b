# Registration form: a Dafny model

This project models the logic of the `Form` component of localbox-miner. It is a
client-side user registration form. The form holds eight fields: username,
email, password, phone, gender, a list of checked hobbies, address and city.
On submit it validates them. It keeps an in-memory table of submitted
entries, and each entry can be loaded back for editing or deleted.

The component's state becomes one immutable `State` value. It holds the form,
the error map, the submitted records and an optional edit index. Each handler
becomes a pure transition from one `State` to the next:

- `fields.dfy` (`Fields`): the form record, the initial/reset form, and
  `handleChange` (text inputs, radio buttons, the city select and the hobby
  checkboxes).
- `password_rule.dfy` (`PasswordRule`): the password regular expression. It is
  stated once following the pattern's own structure (look-aheads whose `.*`
  stops at a line terminator, then the anchored body) and once as a plain
  character-class rule. The two are proved equal, and a one-pass `Test`
  method computes the verdict.
- `validation.dfy` (`Validation`): `validate`, which builds the error map from
  scratch, and the exact messages.
- `registration.dfy` (`Registration`): the state and the `handleChange`,
  `handleSubmit`, `handleEdit` and `handleDelete` transitions, plus the
  invariants they keep.
- `walkthrough.dfy` (`Walkthrough`): a complete session. It fills in the form,
  submits, edits the stored entry's city and submits again.

Three behaviours of the code worth stating:

- Hobbies are a list, not a set. The change handler appends a checked value
  without looking for a duplicate, so two `checked: true` events for one value
  store it twice (`Fields.CheckTwiceDuplicates`), and unchecking removes every
  copy. The markup never sends such an event: each box's `checked` is bound to
  whether its value is already in the list, so a click on a checked box
  unchecks it. Through the form every hobby list stays duplicate-free
  (`Fields.ControlledToggleKeepsDistinct`, `Registration.HobbiesStayDistinct`).
- A blank form fails all eight checks, including the hobby check, so it gets
  eight errors (`Validation.BlankHasEveryError`).
- Deleting an entry does not adjust the edit index. Deleting the entry being
  edited can leave the index pointing past the end of the list
  (`Registration.DeleteCanStrandCursor`). Deleting an earlier record while
  editing a later one moves the index onto the next record, which the next
  submit then overwrites (`Registration.DeleteShiftsCursor`). The model keeps
  this behaviour as written.

## Model

| member | source | states |
|---|---|---|
| `Fields.ApplyChange` | localbox-miner/src/components/Form.jsx:19-35 | A checkbox named "hobby" appends its value when checked and removes it when unchecked, and no other field changes. Any other input sets exactly the field it names to its value verbatim, and every other field, hobby included, stays the same |
| `Fields.Uncheck` | localbox-miner/src/components/Form.jsx:27 | After unchecking, the value no longer occurs in the list, and every remaining entry was already in the list |
| `Fields.UncheckKeepsOrder` | localbox-miner/src/components/Form.jsx:27 | Unchecking keeps the remaining hobbies in their original relative order |
| `Fields.UncheckCounts` | localbox-miner/src/components/Form.jsx:27 | Unchecking removes every copy of the value and keeps every copy of every other value |
| `Fields.UncheckAbsent` | localbox-miner/src/components/Form.jsx:27 | Unchecking a value that is not in the list leaves the list unchanged |
| `Fields.UncheckConcat` | localbox-miner/src/components/Form.jsx:27 | Unchecking filters element by element, so it distributes over concatenation |
| `Fields.CheckTwiceDuplicates` | localbox-miner/src/components/Form.jsx:25-26 | Checking the same hobby twice stores it twice; checking is not idempotent |
| `Fields.UncheckKeepsDistinct` | localbox-miner/src/components/Form.jsx:27 | Unchecking a duplicate-free list leaves it duplicate-free |
| `Fields.ControlledToggleKeepsDistinct` | localbox-miner/src/components/Form.jsx:195-208 | With the box's `checked` bound to "value not yet in the list", as the markup binds it, a hobby click keeps a duplicate-free list duplicate-free |
| `Fields.CheckThenUncheck` | localbox-miner/src/components/Form.jsx:25-27 | Checking a box whose value was not yet in the list and then unchecking it gives back the original form |
| `Fields.LastWriteWins` | localbox-miner/src/components/Form.jsx:30-33 | Two changes of the same text field leave only the second value |
| `PasswordRule.LookaheadIsContains` | localbox-miner/src/components/Form.jsx:39 | Once every character is in the body class, each look-ahead `(?=.*[k])` holds exactly when some character is in class k |
| `PasswordRule.PatternIsCharClassRule` | localbox-miner/src/components/Form.jsx:39 | The pattern, modelled by `PasswordRule.PatternMatches` (four look-aheads and the anchored body), accepts a string exactly when it has at least 8 characters, all from `[A-Za-z0-9@$!%*?&]`, including a lower-case letter, an upper-case letter, a digit and one of `@$!%*?&` |
| `PasswordRule.Test` | localbox-miner/src/components/Form.jsx:39 | A single scan of the password returns true exactly when `PasswordRule.PatternMatches`, the structural model of the pattern, holds of it |
| `PasswordRule.AcceptsExample` | localbox-miner/src/components/Form.jsx:39 | "Abcdef1!" matches the pattern |
| `PasswordRule.RejectsExample` | localbox-miner/src/components/Form.jsx:39 | "abc" does not match the pattern |
| `Validation.Validate` | localbox-miner/src/components/Form.jsx:37-55 | Username, email, phone, gender, address and city each get an error exactly when empty, and hobby exactly when no box is checked. Password gets one when it is empty or fails the pattern. Each error carries its fixed message, and "Password is required." is used only for an empty password |
| `Validation.NoErrorsIffPasses` | localbox-miner/src/components/Form.jsx:56 | The error map has no keys, so `validate` returns true, exactly when none of the eight field checks fails |
| `Validation.PassesIffComplete` | localbox-miner/src/components/Form.jsx:37-56 | No check fails exactly when every text field is non-empty, a hobby is checked and the password meets the character-class rule |
| `Validation.BlankHasEveryError` | localbox-miner/src/components/Form.jsx:37-56 | The initial form gets an error for all eight fields, and the password error is "Password is required." |
| `Registration.HandleChange` | localbox-miner/src/components/Form.jsx:19-35 | A change event changes only the form; the errors, records and edit index are untouched |
| `Registration.HandleSubmit` | localbox-miner/src/components/Form.jsx:59-86 | A failing submit changes only the errors, which then hold exactly the failing fields, each with the message `validate` gives it. A passing submit appends the form at the end when not editing, or overwrites only the edited position with the length kept. It then resets the form to blank, clears the errors and clears the edit index |
| `Registration.HandleEdit` | localbox-miner/src/components/Form.jsx:88-92 | Editing record i loads that record into the form and sets the edit index to i. The records and errors are not touched |
| `Registration.KeepOthersSplices` | localbox-miner/src/components/Form.jsx:95 | `Registration.KeepOthers`, the model of the `filter` on position, cuts out exactly position `index` when it is in range and keeps everything otherwise |
| `Registration.Delete` | localbox-miner/src/components/Form.jsx:95 | With the index in range, the list is one shorter, records before the index stay in place and later ones shift down by one. With the index out of range, the list is unchanged |
| `Registration.HandleDelete` | localbox-miner/src/components/Form.jsx:94-98 | Deleting changes only the records; the form, errors and edit index are untouched |
| `Registration.RecordsStayValid` | localbox-miner/src/components/Form.jsx:59-98 | Every handler keeps every stored record a form that passes validation |
| `Registration.HobbiesStayDistinct` | localbox-miner/src/components/Form.jsx:19-98 | For change events the markup can send, every handler keeps the form's hobby list and every stored record's hobby list duplicate-free |
| `Registration.EditCursorStaysInRange` | localbox-miner/src/components/Form.jsx:59-92 | Change, submit and edit keep the edit index on an existing record |
| `Registration.DeleteCanStrandCursor` | localbox-miner/src/components/Form.jsx:88-98 | Editing the only record and then deleting it leaves the edit index past the end of the list |
| `Registration.DeleteShiftsCursor` | localbox-miner/src/components/Form.jsx:59-98 | Editing the second of three records, deleting the first and submitting overwrites the record that was third: the list becomes two copies of the edited record |
| `Registration.EditThenSubmitUnchanged` | localbox-miner/src/components/Form.jsx:59-92 | Editing a stored record and submitting it unchanged keeps the records as they were and leaves edit mode |
| `Registration.EditChangeSubmit` | localbox-miner/src/components/Form.jsx:19-92 | Edit record i, change one text field, then submit: only that field of record i changes. The length and all other records stay, and the form resets |
| `Walkthrough.FillIn` | localbox-miner/src/components/Form.jsx:19-35 | Typing each field from the initial state and checking "Reading" produces the expected form |
| `Walkthrough.SubmitEditResubmit` | localbox-miner/src/components/Form.jsx:59-92 | The example form passes validation. Submitting it stores it as the only record and resets the form. Editing it to change the city to "New York" and submitting again leaves one record that differs only in its city |

## Left out

- Rendering: the JSX markup, the table and the "Submit"/"Update" button label are presentation only. One exception is modelled: each hobby box's `checked` is bound to whether its value is in the list, and that binding decides which hobby events the handler receives (`Registration.FromMarkup`).
- `Fields.ApplyChange`: it accepts any hobby event, including a `checked: true` event for a value already in the list. The markup never sends one, so the duplicates such an event would create cannot arise through the form.
- The `alert` calls and `e.preventDefault()` are browser side effects and have no effect on the state.
- React's `useState` and update batching: each handler is one atomic transition. In a passing submit, the errors set by `validate` and then cleared end up as `{}`.
- A general regular-expression engine: only this one pattern is modelled, as predicates over characters. Strings are sequences of Unicode code points, not UTF-16 units. The pattern accepts ASCII characters only, so the verdict is the same.
- Event names are the eight field names the markup uses. An arbitrary `name` would add a new key to `formData`.
- `Fields.ApplyChange`: a non-checkbox event named "hobby" is excluded by its precondition, because it would store a string where the list belongs. The form has no such input.
- `Registration.HandleSubmit`: a passing submit whose edit index lies past the end of the list is excluded by its precondition. At an edit index equal to the list's length JavaScript appends the form; beyond that it leaves holes in the array. Both are excluded. Either can only happen after a delete while editing.
- `Registration.HandleEdit`: an index with no record is excluded by its precondition. JavaScript would load `undefined` as the form.
- Email and phone formats, and the allowed gender and city values: the code only checks them for non-emptiness, so they are plain strings here.
