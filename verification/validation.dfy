/** `validate`: the error map the form computes from scratch on each submit. */
module Validation {
  import opened Fields
  import PasswordRule

  /** Field name to message, holding only the fields that fail. */
  type Errors = map<Field, string>

  const UsernameRequired: string := "Username is required."
  const EmailRequired: string := "Email is required."
  const PasswordRequired: string := "Password is required."
  const PasswordWeak: string :=
    "Password must be at least 8 characters long, include an uppercase letter, a lowercase letter, a number, and a special character."
  const PhoneRequired: string := "Phone number is required."
  const GenderRequired: string := "Gender is required."
  const HobbyRequired: string := "Select at least one hobby."
  const AddressRequired: string := "Address is required."
  const CityRequired: string := "City is required."

  const AllFields: set<Field> := {Username, Email, Password, Phone, Gender, Hobby, Address, City}

  /** Whether the check for field `n` fails on `f` (one `if` of `validate`).
      JavaScript's `!s` on a string holds exactly when the string is empty. */
  predicate Fails(f: Form, n: Field)
  {
    match n
    case Username => f.username == ""
    case Email => f.email == ""
    case Password => f.password == "" || !PasswordRule.PatternMatches(f.password)
    case Phone => f.phone == ""
    case Gender => f.gender == ""
    case Hobby => |f.hobby| == 0
    case Address => f.address == ""
    case City => f.city == ""
  }

  /** The message `validate` stores for a failing field `n`. */
  function Message(f: Form, n: Field): string
  {
    match n
    case Username => UsernameRequired
    case Email => EmailRequired
    case Password => if f.password == "" then PasswordRequired else PasswordWeak
    case Phone => PhoneRequired
    case Gender => GenderRequired
    case Hobby => HobbyRequired
    case Address => AddressRequired
    case City => CityRequired
  }

  /** The errors for `f`. `validate` starts from an empty `tempErrors` and
      sets one key per failing check, so the result holds exactly the
      failing fields, each with its message, and nothing from earlier runs. */
  function Validate(f: Form): (errs: Errors)
    ensures Username in errs <==> f.username == ""
    ensures Email in errs <==> f.email == ""
    ensures Password in errs <==> f.password == "" || !PasswordRule.PatternMatches(f.password)
    ensures Phone in errs <==> f.phone == ""
    ensures Gender in errs <==> f.gender == ""
    ensures Hobby in errs <==> |f.hobby| == 0
    ensures Address in errs <==> f.address == ""
    ensures City in errs <==> f.city == ""
    ensures Username in errs ==> errs[Username] == UsernameRequired
    ensures Email in errs ==> errs[Email] == EmailRequired
    ensures f.password == "" ==> errs[Password] == PasswordRequired
    ensures f.password != "" && Password in errs ==> errs[Password] == PasswordWeak
    ensures Phone in errs ==> errs[Phone] == PhoneRequired
    ensures Gender in errs ==> errs[Gender] == GenderRequired
    ensures Hobby in errs ==> errs[Hobby] == HobbyRequired
    ensures Address in errs ==> errs[Address] == AddressRequired
    ensures City in errs ==> errs[City] == CityRequired
  {
    map n | n in AllFields && Fails(f, n) :: Message(f, n)
  }

  /** No check of `validate` fails on `f`. */
  predicate Passes(f: Form)
  {
    forall n :: !Fails(f, n)
  }

  /** `validate()` returns `Object.keys(tempErrors).length === 0`: it
      reports success exactly when no check fails. */
  lemma NoErrorsIffPasses(f: Form)
    ensures |Validate(f)| == 0 <==> Passes(f)
  {
    var errs := Validate(f);
    if Passes(f) {
      assert errs.Keys == {};
    } else {
      var n :| Fails(f, n);
      assert n in errs.Keys;
    }
  }

  /** What a complete form is, stated without the error map: every text
      field filled in, some hobby checked, and a strong password. */
  predicate Complete(f: Form)
  {
    && f.username != "" && f.email != "" && f.phone != "" && f.gender != ""
    && |f.hobby| > 0 && f.address != "" && f.city != ""
    && PasswordRule.StrongPassword(f.password)
  }

  /** Validation passes exactly for complete forms. */
  lemma PassesIffComplete(f: Form)
    ensures Passes(f) <==> Complete(f)
  {
    PasswordRule.PatternIsCharClassRule(f.password);
    if Complete(f) {
      forall n ensures !Fails(f, n) {
        match n
        case Username => case Email => case Password => case Phone =>
        case Gender => case Hobby => case Address => case City =>
      }
    } else if !PasswordRule.StrongPassword(f.password) {
      assert Fails(f, Password);
    } else if f.username == "" {
      assert Fails(f, Username);
    } else if f.email == "" {
      assert Fails(f, Email);
    } else if f.phone == "" {
      assert Fails(f, Phone);
    } else if f.gender == "" {
      assert Fails(f, Gender);
    } else if |f.hobby| == 0 {
      assert Fails(f, Hobby);
    } else if f.address == "" {
      assert Fails(f, Address);
    } else {
      assert Fails(f, City);
    }
  }

  /** The initial form fails on every field: eight errors, the password one
      being "Password is required.". */
  lemma BlankHasEveryError()
    ensures Validate(Blank).Keys == AllFields
    ensures |Validate(Blank)| == 8
    ensures Validate(Blank)[Password] == PasswordRequired
  {
    var errs := Validate(Blank);
    assert errs.Keys == AllFields by {
      forall n ensures n in errs <==> n in AllFields {
        match n
        case Username => case Email => case Password => case Phone =>
        case Gender => case Hobby => case Address => case City =>
      }
    }
  }
}
