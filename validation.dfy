/** The per-field validator shared by the table's edit dialog and the entry form:
    both components carry the same `validateForm(name)`, a switch on the field
    name that looks at the value currently held in the component's record. */
module Validation {
  import opened Entries

  const NameRequired := "Name is required"
  const EmailRequired := "Email is required"
  const EmailInvalid := "Email is invalid"
  const PhoneRequired := "Phone number is required"
  const PhoneInvalid := "Phone number is invalid"
  const PictureNotPng := "Profile picture must be a PNG file"

  /** The field names the switch has a case for. */
  const ValidatedFields := {NameField, EmailField, PhoneField, PictureField}

  /** What `validateForm` returns (`isValid`) and the map it hands to `setErrors`. */
  datatype Verdict = Verdict(valid: bool, errors: map<string, string>)

  /** The characters JavaScript's `\s` matches; `\S` is every other character. */
  predicate IsJsSpace(c: char) {
    var n := c as int;
    n == 0x09 || n == 0x0A || n == 0x0B || n == 0x0C || n == 0x0D || n == 0x20
    || n == 0xA0 || n == 0x1680 || (0x2000 <= n <= 0x200A) || n == 0x2028 || n == 0x2029
    || n == 0x202F || n == 0x205F || n == 0x3000 || n == 0xFEFF
  }

  /** `^\S+$`: one or more characters, none of them white space. */
  predicate NonSpaceRun(s: string) {
    |s| > 0 && forall i :: 0 <= i < |s| ==> !IsJsSpace(s[i])
  }

  /** s[i..a] is a non-space run, s[a] is "@", s[a+1..d] a non-space run, s[d] is "."
      and s[d+1..j] a non-space run. */
  predicate EmailMatchAt(s: string, i: int, a: int, d: int, j: int) {
    0 <= i < a < d < j <= |s| &&
    NonSpaceRun(s[i..a]) && s[a] == '@' && NonSpaceRun(s[a + 1..d]) && s[d] == '.' && NonSpaceRun(s[d + 1..j])
  }

  /** `/\S+@\S+\.\S+/.test(s)`. The pattern is not anchored, so it holds when some
      slice of s matches it. */
  predicate EmailPattern(s: string)
    // Three non-empty runs around "@" and ".": at least five characters.
    ensures EmailPattern(s) ==> |s| >= 5
  {
    exists i, a, d, j | 0 <= i <= a <= d <= j <= |s| :: EmailMatchAt(s, i, a, d, j)
  }

  /** `/^\d{7,}$/.test(s)`: seven or more ASCII digits and nothing else. */
  predicate PhonePattern(s: string)
    // A phone number has no "@", so it is never an e-mail address.
    ensures PhonePattern(s) ==> !EmailPattern(s)
  {
    |s| >= 7 && forall i :: 0 <= i < |s| ==> '0' <= s[i] <= '9'
  }

  /** A failed check: the one message `m`, which is never empty, under key `f`. */
  function Failure(f: string, m: string): (r: Verdict)
    requires m != ""
    ensures !r.valid && r.errors == map[f := m]
    ensures f in r.errors && r.errors[f] != ""
  {
    Verdict(false, map[f := m])
  }

  /** `validateForm(name)` on the record `e` the component holds; `field` is `None`
      when it is called with no argument. The value passed alongside the name in
      the source is never read, so it is not a parameter. */
  function Validate(e: Entry, field: Option<string>): (r: Verdict)
    // Each call builds a fresh map that can hold at most the validated field's key.
    ensures field.Some? ==> r.errors.Keys <= {field.value}
    ensures field.None? ==> r.errors == map[]
    // The call reports failure exactly when it recorded a non-empty message.
    ensures r.valid <==> forall k :: k in r.errors ==> r.errors[k] == ""
    ensures field == Some(NameField) ==>
      (r.valid <==> Truthy(e, NameField))
    ensures field == Some(NameField) ==>
      r.errors == map[NameField := if r.valid then "" else NameRequired]
    ensures field == Some(EmailField) ==>
      (r.valid <==> Truthy(e, EmailField) && EmailPattern(ToText(e[EmailField])))
    ensures field == Some(EmailField) && r.valid ==> r.errors == map[EmailField := ""]
    ensures field == Some(EmailField) && !Truthy(e, EmailField) ==> r.errors == map[EmailField := EmailRequired]
    ensures field == Some(EmailField) && Truthy(e, EmailField) && !EmailPattern(ToText(e[EmailField])) ==>
      r.errors == map[EmailField := EmailInvalid]
    ensures field == Some(PhoneField) ==>
      (r.valid <==> Truthy(e, PhoneField) && PhonePattern(ToText(e[PhoneField])))
    ensures field == Some(PhoneField) && r.valid ==> r.errors == map[]
    ensures field == Some(PhoneField) && !Truthy(e, PhoneField) ==> r.errors == map[PhoneField := PhoneRequired]
    ensures field == Some(PhoneField) && Truthy(e, PhoneField) && !PhonePattern(ToText(e[PhoneField])) ==>
      r.errors == map[PhoneField := PhoneInvalid]
    // Any non-empty picture value is flagged, whatever it holds.
    ensures field == Some(PictureField) ==>
      (r.valid <==> !Truthy(e, PictureField)) && (!r.valid ==> r.errors == map[PictureField := PictureNotPng])
    ensures field == Some(PictureField) && r.valid ==> r.errors == map[]
    // Names without a case, and no name at all, are valid.
    ensures (field.None? || field.value !in ValidatedFields) ==> r == Verdict(true, map[])
  {
    if field.None? then Verdict(true, map[])
    else if field.value == NameField then
      if !Truthy(e, NameField) then Failure(NameField, NameRequired)
      else Verdict(true, map[NameField := ""])
    else if field.value == EmailField then
      if !Truthy(e, EmailField) then Failure(EmailField, EmailRequired)
      else if !EmailPattern(ToText(e[EmailField])) then Failure(EmailField, EmailInvalid)
      else Verdict(true, map[EmailField := ""])
    else if field.value == PhoneField then
      if !Truthy(e, PhoneField) then Failure(PhoneField, PhoneRequired)
      else if !PhonePattern(ToText(e[PhoneField])) then Failure(PhoneField, PhoneInvalid)
      else Verdict(true, map[])
    else if field.value == PictureField then
      if Truthy(e, PictureField) then Failure(PictureField, PictureNotPng)
      else Verdict(true, map[])
    else Verdict(true, map[])
  }

  /** The check of field f looks only at the value stored under f. */
  lemma ValidateReadsOnlyItsField(e: Entry, e': Entry, f: string)
    requires f in e <==> f in e'
    requires f in e ==> e[f] == e'[f]
    ensures Validate(e, Some(f)) == Validate(e', Some(f))
  {
  }

  /** A match of the e-mail pattern needs an "@" somewhere after the first character. */
  lemma EmailPatternNeedsAt(s: string)
    requires EmailPattern(s)
    ensures '@' in s[1..]
  {
    var i, a, d, j :| 0 <= i <= a <= d <= j <= |s| && EmailMatchAt(s, i, a, d, j);
    assert s[1..][a - 1] == '@';
  }

  lemma EmailExamples()
    ensures !EmailPattern("foo")
    ensures EmailPattern("foo@bar.com")
  {
    if EmailPattern("foo") {
      EmailPatternNeedsAt("foo");
      assert false;
    }
    var s := "foo@bar.com";
    assert NonSpaceRun(s[0..3]) && NonSpaceRun(s[4..7]) && NonSpaceRun(s[8..11]);
    assert EmailMatchAt(s, 0, 3, 7, 11);
  }

  lemma PhoneExamples()
    ensures !PhonePattern("12345")
    ensures PhonePattern("1234567")
  {
  }

  /** The validator's documented outcomes on concrete records. */
  lemma ValidatorExamples()
    ensures Validate(map[EmailField := Text("foo")], Some(EmailField)) == Verdict(false, map[EmailField := EmailInvalid])
    ensures Validate(map[EmailField := Text("foo@bar.com")], Some(EmailField)) == Verdict(true, map[EmailField := ""])
    ensures Validate(map[PhoneField := Text("12345")], Some(PhoneField)) == Verdict(false, map[PhoneField := PhoneInvalid])
    ensures Validate(map[PhoneField := Text("1234567")], Some(PhoneField)) == Verdict(true, map[])
    // Only the empty string is falsy, so white space passes as a name.
    ensures Validate(map[NameField := Text("   ")], Some(NameField)) == Verdict(true, map[NameField := ""])
    ensures Validate(map[], Some(NameField)) == Verdict(false, map[NameField := NameRequired])
  {
    EmailExamples();
    PhoneExamples();
  }
}
