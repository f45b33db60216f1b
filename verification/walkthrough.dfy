/** A complete session: fill in the form, submit it, edit the stored record
    to change the city, and submit again. */
module Walkthrough {
  import opened Fields
  import opened Validation
  import opened Registration
  import PasswordRule

  /** Typing into a text input or choosing a radio button or city. */
  function Type(s: State, n: Field, v: string): State
    requires n != Hobby
  {
    HandleChange(s, ChangeEvent(n, v, false, false))
  }

  const Alice: Form := Form("alice", "a@b.com", "Abcdef1!", "555", "Female", ["Reading"], "1 Rd", "Chicago")

  /** Filling in every field from the initial state yields Alice's form. */
  lemma FillIn()
    ensures
      var s := Type(Type(Type(Type(Type(Type(Type(Initial,
        Username, "alice"), Email, "a@b.com"), Password, "Abcdef1!"), Phone, "555"),
        Gender, "Female"), Address, "1 Rd"), City, "Chicago");
      HandleChange(s, ChangeEvent(Hobby, "Reading", true, true)).form == Alice
  {
  }

  /** Alice's form passes validation; the first submit stores it as the only
      record and resets the form; editing record 0, changing the city and
      submitting again rewrites only the city of that one record. */
  lemma SubmitEditResubmit()
    ensures Passes(Alice)
    ensures HandleSubmit(State(Alice, map[], [], None)) == State(Blank, map[], [Alice], None)
    ensures
      var t := HandleSubmit(Type(HandleEdit(State(Blank, map[], [Alice], None), 0), City, "New York"));
      t == State(Blank, map[], [Alice.(city := "New York")], None)
  {
    PasswordRule.AcceptsExample();
    var edited := Alice.(city := "New York");
    forall n ensures !Fails(Alice, n) && !Fails(edited, n) {
      match n
      case Username => case Email => case Password => case Phone =>
      case Gender => case Hobby => case Address => case City =>
    }
  }
}
