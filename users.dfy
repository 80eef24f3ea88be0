/**
 * The user record and its minimum-field validator.
 *
 * `ValidateUserMinimumFields` checks the password, the email and the name,
 * in that order, and lists every empty one in a single message whose empty
 * form means "no error". The message is specified twice: by the validator's
 * own straight-line body, and by a reference definition that filters the
 * list of required fields. A parser reads the message back, which shows
 * that the message names exactly the missing fields.
 */
module Users {

  datatype Option<T> = None | Some(value: T)

  /**
   * A user as the module passes it around. `currentPassword` holds the
   * plaintext on requests and the stored digest when read back for a login;
   * the dates are strings, as in the record being modelled.
   */
  datatype User = User(
    id: int,
    createdDate: string,
    currentPassword: string,
    email: string,
    name: string,
    updatedDate: string)

  /** The zero value of a user record, `User{}`. */
  const EmptyUser := User(0, "", "", "", "", "")

  /** A validation result: the empty code means that nothing is missing. */
  datatype Error = Error(code: string)

  const MissingFieldsPrefix := "Please provide all fields, including:"

  /** The required fields, in the order they are checked, with their values in `u`. */
  function RequiredFields(u: User): seq<(string, string)>
  {
    [("CurrentPassword", u.currentPassword), ("Email", u.email), ("Name", u.name)]
  }

  /** The names of the fields whose value is empty, in their order in `fields`. */
  function MissingNames(fields: seq<(string, string)>): seq<string>
  {
    if fields == [] then []
    else (if fields[0].1 == "" then [fields[0].0] else []) + MissingNames(fields[1..])
  }

  /** Each name preceded by one space, all concatenated. */
  function Spaced(names: seq<string>): string
  {
    if names == [] then "" else " " + names[0] + Spaced(names[1..])
  }

  /** The message that reports `names` as missing; empty when nothing is. */
  function MissingMessage(names: seq<string>): string
  {
    if names == [] then "" else MissingFieldsPrefix + Spaced(names)
  }

  /** True when the user carries every required field. */
  predicate HasMinimumFields(u: User)
  {
    u.currentPassword != "" && u.email != "" && u.name != ""
  }

  /**
   * ValidateUserMinimumFields: returns the user unchanged together with the
   * error whose code lists the empty required fields.
   */
  function ValidateUserMinimumFields(u: User): (r: (User, Error))
    ensures r.0 == u
    ensures r.1.code == "" <==> HasMinimumFields(u)
    ensures r.1.code == MissingMessage(MissingNames(RequiredFields(u)))
  {
    MissingNamesOfRequired(u);
    SpacedOfRequired(u);
    var afterPassword := if u.currentPassword == "" then " CurrentPassword" else "";
    var afterEmail := if u.email == "" then afterPassword + " Email" else afterPassword;
    var requiredFields := if u.name == "" then afterEmail + " Name" else afterEmail;
    (u, Error(if |requiredFields| > 0 then MissingFieldsPrefix + requiredFields else ""))
  }

  /** Spacing a concatenation spaces each part. */
  lemma {:induction false} SpacedAppend(a: seq<string>, b: seq<string>)
    ensures Spaced(a + b) == Spaced(a) + Spaced(b)
  {
    if a == [] {
      assert a + b == b;
    } else {
      assert (a + b)[0] == a[0];
      assert (a + b)[1..] == a[1..] + b;
      SpacedAppend(a[1..], b);
      calc {
        Spaced(a + b);
        " " + a[0] + Spaced(a[1..] + b);
        " " + a[0] + (Spaced(a[1..]) + Spaced(b));
        (" " + a[0] + Spaced(a[1..])) + Spaced(b);
      }
    }
  }

  /** Each required field contributes its name exactly when it is empty. */
  lemma MissingNamesOfRequired(u: User)
    ensures MissingNames(RequiredFields(u))
            == (if u.currentPassword == "" then ["CurrentPassword"] else [])
             + (if u.email == "" then ["Email"] else [])
             + (if u.name == "" then ["Name"] else [])
  {
    var fields := RequiredFields(u);
    var p: seq<string> := if u.currentPassword == "" then ["CurrentPassword"] else [];
    var e: seq<string> := if u.email == "" then ["Email"] else [];
    var n: seq<string> := if u.name == "" then ["Name"] else [];
    assert fields[1..][1..][1..] == [];
    assert MissingNames(fields[1..][1..]) == n + [];
    assert MissingNames(fields[1..]) == e + n;
    assert MissingNames(fields) == p + (e + n);
  }

  /** The spaced list of missing names is what the validator accumulates. */
  lemma SpacedOfRequired(u: User)
    ensures Spaced(MissingNames(RequiredFields(u)))
            == (if u.currentPassword == "" then " CurrentPassword" else "")
             + (if u.email == "" then " Email" else "")
             + (if u.name == "" then " Name" else "")
  {
    MissingNamesOfRequired(u);
    var p: seq<string> := if u.currentPassword == "" then ["CurrentPassword"] else [];
    var e: seq<string> := if u.email == "" then ["Email"] else [];
    var n: seq<string> := if u.name == "" then ["Name"] else [];
    SpacedAppend(p + e, n);
    SpacedAppend(p, e);
    SpacedOne("CurrentPassword");
    SpacedOne("Email");
    SpacedOne("Name");
    assert " " + "CurrentPassword" == " CurrentPassword";
    assert " " + "Email" == " Email";
    assert " " + "Name" == " Name";
  }

  lemma SpacedOne(name: string)
    ensures Spaced([name]) == " " + name
  {
    assert [name][1..] == [];
  }

  /** The longest prefix of `s` that holds no space. */
  function Word(s: string): (w: string)
    ensures w <= s && ' ' !in w
    ensures w == s || s[|w|] == ' '
  {
    if s == [] || s[0] == ' ' then [] else [s[0]] + Word(s[1..])
  }

  /** Reads back a string made of space-preceded words; None when it is not one. */
  function SplitSpaced(s: string): Option<seq<string>>
    decreases |s|
  {
    if s == [] then Some([])
    else if s[0] != ' ' then None
    else
      var w := Word(s[1..]);
      if w == [] then None
      else
        match SplitSpaced(s[1 + |w|..])
        case None => None
        case Some(rest) => Some([w] + rest)
  }

  /** Reads a validation code back into the list of missing field names. */
  function ParseMissingMessage(code: string): Option<seq<string>>
  {
    if code == [] then Some([])
    else if MissingFieldsPrefix <= code then
      match SplitSpaced(code[|MissingFieldsPrefix|..])
      case Some(names) => if names != [] then Some(names) else None
      case None => None
    else None
  }

  /** A word followed by a space or by nothing reads back as that word. */
  lemma {:induction false} WordStopsAtSpace(w: string, rest: string)
    requires ' ' !in w
    requires rest == [] || rest[0] == ' '
    ensures Word(w + rest) == w
  {
    if w != [] {
      assert (w + rest)[1..] == w[1..] + rest;
      WordStopsAtSpace(w[1..], rest);
    }
  }

  /** Words without spaces survive being joined by Spaced and split again. */
  lemma {:induction false} SplitSpacedInvertsSpaced(names: seq<string>)
    requires forall n :: n in names ==> n != [] && ' ' !in n
    ensures SplitSpaced(Spaced(names)) == Some(names)
  {
    if names != [] {
      var w, rest := names[0], Spaced(names[1..]);
      var s := Spaced(names);
      assert w in names;
      assert rest == [] || rest[0] == ' ' by {
        if names[1..] != [] { assert rest == " " + names[1..][0] + Spaced(names[1..][1..]); }
      }
      assert s == " " + w + rest;
      assert s[0] == ' ';
      assert s[1..] == w + rest;
      WordStopsAtSpace(w, rest);
      assert s[1 + |w|..] == rest;
      assert forall n :: n in names[1..] ==> n in names;
      SplitSpacedInvertsSpaced(names[1..]);
      assert [w] + names[1..] == names;
    }
  }

  /**
   * The validator's code can be read back, and what it reads back as is
   * exactly the list of empty required fields, in checking order.
   */
  lemma ValidatorCodeParses(u: User)
    ensures ParseMissingMessage(ValidateUserMinimumFields(u).1.code)
            == Some(MissingNames(RequiredFields(u)))
  {
    var names := MissingNames(RequiredFields(u));
    MissingNamesOfRequired(u);
    assert forall n :: n in names ==> n in ["CurrentPassword", "Email", "Name"];
    assert ' ' !in "CurrentPassword" && ' ' !in "Email" && ' ' !in "Name";
    SplitSpacedInvertsSpaced(names);
    if names != [] {
      var code := MissingMessage(names);
      assert code[|MissingFieldsPrefix|..] == Spaced(names);
    }
  }

  /**
   * The message names a field if and only if that field is empty, so two
   * users get the same code exactly when the same fields are missing.
   */
  lemma ValidatorNamesExactlyMissingFields(u: User, names: seq<string>)
    requires ParseMissingMessage(ValidateUserMinimumFields(u).1.code) == Some(names)
    ensures "CurrentPassword" in names <==> u.currentPassword == ""
    ensures "Email" in names <==> u.email == ""
    ensures "Name" in names <==> u.name == ""
  {
    ValidatorCodeParses(u);
    MissingNamesOfRequired(u);
    assert "CurrentPassword" != "Email" && "Email" != "Name" && "Name" != "CurrentPassword";
  }

  /** The code is determined by, and determines, which fields are empty. */
  lemma ValidatorCodeIsFaithful(u: User, v: User)
    ensures ValidateUserMinimumFields(u).1.code == ValidateUserMinimumFields(v).1.code
            <==> ((u.currentPassword == "") == (v.currentPassword == "")
                  && (u.email == "") == (v.email == "")
                  && (u.name == "") == (v.name == ""))
  {
    var cu, cv := ValidateUserMinimumFields(u).1.code, ValidateUserMinimumFields(v).1.code;
    if cu == cv {
      ValidatorCodeParses(u);
      ValidatorCodeParses(v);
      ValidatorNamesExactlyMissingFields(u, MissingNames(RequiredFields(u)));
      ValidatorNamesExactlyMissingFields(v, MissingNames(RequiredFields(v)));
    }
  }

  /** The user from the tests with its name blanked gets the message the tests expect. */
  lemma ValidatorMissingNameExample()
    ensures ValidateUserMinimumFields(User(0, "", "P0werpuff", "cinnamon@nice.com", "", "")).1.code
            == "Please provide all fields, including: Name"
  {
  }
}
