/** The form's field record and the change handler that edits it.

    Every field except `hobby` is a string; the gender radio buttons and the
    city select also store plain strings, with "" meaning "not chosen".
    `hobby` is a list of the values of the checked hobby boxes, in the order
    they were checked.
 */
module Fields {

  datatype Field = Username | Email | Password | Phone | Gender | Hobby | Address | City

  datatype Form = Form(
    username: string,
    email: string,
    password: string,
    phone: string,
    gender: string,
    hobby: seq<string>,
    address: string,
    city: string)

  /** The initial form, and the one a successful submit resets to. */
  const Blank: Form := Form("", "", "", "", "", [], "", "")

  /** One change event from an input: its `name`, its `value`, whether its
      `type` is "checkbox", and its `checked` state. */
  datatype ChangeEvent = ChangeEvent(name: Field, value: string, isCheckbox: bool, checked: bool)

  /** The hobby branch of the handler is taken for checkbox events named "hobby". */
  predicate IsHobbyToggle(ev: ChangeEvent)
  {
    ev.isCheckbox && ev.name == Hobby
  }

  /** The string held by a text-valued field. */
  function Text(f: Form, n: Field): string
    requires n != Hobby
  {
    match n
    case Username => f.username
    case Email => f.email
    case Password => f.password
    case Phone => f.phone
    case Gender => f.gender
    case Address => f.address
    case City => f.city
  }

  /** Unchecking a hobby: the list without any occurrence of `v`. */
  function Uncheck(hobby: seq<string>, v: string): (r: seq<string>)
    ensures v !in r
    ensures forall h :: h in r ==> h in hobby
    ensures |r| <= |hobby|
  {
    if hobby == [] then []
    else if hobby[0] == v then Uncheck(hobby[1..], v)
    else [hobby[0]] + Uncheck(hobby[1..], v)
  }

  /** `a` is `b` with some elements left out and the rest in their order. */
  predicate IsSubsequence(a: seq<string>, b: seq<string>)
    decreases |b|
  {
    if a == [] then true
    else if b == [] then false
    else if a[0] == b[0] then IsSubsequence(a[1..], b[1..])
    else IsSubsequence(a, b[1..])
  }

  /** Unchecking keeps the other hobbies in their original order. */
  lemma {:induction false} UncheckKeepsOrder(hobby: seq<string>, v: string)
    ensures IsSubsequence(Uncheck(hobby, v), hobby)
    decreases |hobby|
  {
    if hobby != [] {
      UncheckKeepsOrder(hobby[1..], v);
      var rest := Uncheck(hobby[1..], v);
      if hobby[0] != v {
        assert ([hobby[0]] + rest)[1..] == rest;
      } else if rest != [] {
        assert rest[0] in hobby[1..];
      }
    }
  }

  /** Unchecking removes every copy of `v` and keeps every copy of every
      other value. */
  lemma {:induction false} UncheckCounts(hobby: seq<string>, v: string)
    ensures multiset(Uncheck(hobby, v))[v] == 0
    ensures forall x :: x != v ==> multiset(Uncheck(hobby, v))[x] == multiset(hobby)[x]
    decreases |hobby|
  {
    if hobby != [] {
      UncheckCounts(hobby[1..], v);
      assert hobby == [hobby[0]] + hobby[1..];
    }
  }

  /** Unchecking a value that is not in the list changes nothing. */
  lemma {:induction false} UncheckAbsent(hobby: seq<string>, v: string)
    requires v !in hobby
    ensures Uncheck(hobby, v) == hobby
    decreases |hobby|
  {
    if hobby != [] {
      assert v !in hobby[1..];
      UncheckAbsent(hobby[1..], v);
      assert hobby == [hobby[0]] + hobby[1..];
    }
  }

  /** Unchecking works element by element, so it distributes over `+`. */
  lemma {:induction false} UncheckConcat(a: seq<string>, b: seq<string>, v: string)
    ensures Uncheck(a + b, v) == Uncheck(a, v) + Uncheck(b, v)
    decreases |a|
  {
    if a != [] {
      assert (a + b)[0] == a[0];
      assert (a + b)[1..] == a[1..] + b;
      UncheckConcat(a[1..], b, v);
    } else {
      assert a + b == b;
    }
  }

  /** `handleChange`: a hobby checkbox appends or removes its value; any
      other input overwrites the field it names with its value verbatim.
      A non-checkbox input named "hobby" would store a string where the list
      belongs; the form has none, and the model excludes it. */
  function ApplyChange(f: Form, ev: ChangeEvent): (g: Form)
    requires ev.name == Hobby ==> ev.isCheckbox
    ensures IsHobbyToggle(ev) ==> forall n :: n != Hobby ==> Text(g, n) == Text(f, n)
    ensures IsHobbyToggle(ev) && ev.checked ==> g.hobby == f.hobby + [ev.value]
    ensures IsHobbyToggle(ev) && !ev.checked ==> g.hobby == Uncheck(f.hobby, ev.value)
    ensures !IsHobbyToggle(ev) ==> g.hobby == f.hobby && Text(g, ev.name) == ev.value
    ensures !IsHobbyToggle(ev) ==> forall n :: n != Hobby && n != ev.name ==> Text(g, n) == Text(f, n)
  {
    if IsHobbyToggle(ev) then
      f.(hobby := if ev.checked then f.hobby + [ev.value] else Uncheck(f.hobby, ev.value))
    else
      match ev.name
      case Username => f.(username := ev.value)
      case Email => f.(email := ev.value)
      case Password => f.(password := ev.value)
      case Phone => f.(phone := ev.value)
      case Gender => f.(gender := ev.value)
      case Address => f.(address := ev.value)
      case City => f.(city := ev.value)
  }

  /** No value occurs twice in `s`. */
  predicate Distinct(s: seq<string>)
  {
    forall i, j :: 0 <= i < j < |s| ==> s[i] != s[j]
  }

  /** Unchecking keeps a duplicate-free list duplicate-free. */
  lemma {:induction false} UncheckKeepsDistinct(hobby: seq<string>, v: string)
    requires Distinct(hobby)
    ensures Distinct(Uncheck(hobby, v))
    decreases |hobby|
  {
    if hobby != [] {
      var rest := hobby[1..];
      assert Distinct(rest) by {
        forall i, j | 0 <= i < j < |rest| ensures rest[i] != rest[j] {
          assert rest[i] == hobby[i + 1] && rest[j] == hobby[j + 1];
        }
      }
      UncheckKeepsDistinct(rest, v);
      if hobby[0] != v {
        assert hobby[0] !in rest by {
          forall k | 0 <= k < |rest| ensures rest[k] != hobby[0] {
            assert rest[k] == hobby[k + 1];
          }
        }
        var r := Uncheck(rest, v);
        assert hobby[0] !in r;
        var out := [hobby[0]] + r;
        forall i, j | 0 <= i < j < |out| ensures out[i] != out[j] {
          if i == 0 {
            assert out[j] == r[j - 1];
          } else {
            assert out[i] == r[i - 1] && out[j] == r[j - 1];
          }
        }
      }
    }
  }

  /** Each hobby box is rendered with `checked` bound to whether its value is
      already in the list, so a click sends `checked: true` only for an
      absent value and `checked: false` only for a present one. Such events
      keep the list duplicate-free. */
  lemma ControlledToggleKeepsDistinct(f: Form, v: string, checked: bool)
    requires Distinct(f.hobby)
    requires checked <==> v !in f.hobby
    ensures Distinct(ApplyChange(f, ChangeEvent(Hobby, v, true, checked)).hobby)
  {
    if !checked {
      UncheckKeepsDistinct(f.hobby, v);
    } else {
      var out := f.hobby + [v];
      forall i, j | 0 <= i < j < |out| ensures out[i] != out[j] {
        if j == |f.hobby| {
          assert out[i] == f.hobby[i];
        }
      }
    }
  }

  /** Checking a box that is already in the list adds a second copy: the
      handler does not deduplicate. The rendered checkbox never sends such
      an event (see `ControlledToggleKeepsDistinct`). */
  lemma CheckTwiceDuplicates(f: Form, v: string)
    ensures ApplyChange(ApplyChange(f, ChangeEvent(Hobby, v, true, true)), ChangeEvent(Hobby, v, true, true)).hobby
            == f.hobby + [v, v]
  {
    assert f.hobby + [v] + [v] == f.hobby + [v, v];
  }

  /** Checking a box that was unchecked and then unchecking it gives back
      the form it started from. */
  lemma {:induction false} CheckThenUncheck(f: Form, v: string)
    requires v !in f.hobby
    ensures ApplyChange(ApplyChange(f, ChangeEvent(Hobby, v, true, true)), ChangeEvent(Hobby, v, true, false)) == f
  {
    UncheckConcat(f.hobby, [v], v);
    UncheckAbsent(f.hobby, v);
    assert Uncheck([v], v) == [];
  }

  /** Changing a text field twice keeps only the second value. */
  lemma LastWriteWins(f: Form, n: Field, v: string, w: string)
    requires n != Hobby
    ensures ApplyChange(ApplyChange(f, ChangeEvent(n, v, false, false)), ChangeEvent(n, w, false, false))
            == ApplyChange(f, ChangeEvent(n, w, false, false))
  {
  }
}
