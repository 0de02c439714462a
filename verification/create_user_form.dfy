/** The validation schema of the create-user form. Each field is checked by
    its rules in declaration order and reports the first rule it breaks; the
    form is accepted when no field reports anything. */
module CreateUserForm {
  import opened Wrappers
  import Seqs

  datatype Form = Form(
    name: string,
    nit: string,
    email: string,
    phone: string,
    profile: string,
    status: string)

  datatype Field = Name | Nit | Email | Phone | Profile | Status

  /** The kind of rule a field breaks. */
  datatype Violation =
    | Required    // the value is the empty string
    | TooShort    // fewer characters than the minimum
    | TooLong     // more characters than the maximum
    | BadFormat   // the pattern does not match
    | NotAllowed  // not one of the listed values

  const AllFields: set<Field> := {Name, Nit, Email, Phone, Profile, Status}

  const Profiles: seq<string> := ["administrador", "requirente", "coordinador"]
  const Statuses: seq<string> := ["activo", "inactivo"]

  // ---------------------------------------------------------------------
  // Character classes of the two patterns
  // ---------------------------------------------------------------------

  /** `\d`: an ASCII decimal digit. */
  predicate IsDigit(c: char)
  {
    '0' <= c <= '9'
  }

  /** `\s`: the white-space and line-terminator characters of ECMAScript
      (section 22.2.2.9 of ECMA-262): tab, line feed, vertical tab, form
      feed, carriage return, space, no-break space, ogham space mark, the
      en quad to hair space range, line and paragraph separators, narrow
      no-break space, medium mathematical space, ideographic space and the
      byte order mark. */
  predicate IsJsWhitespace(c: char)
  {
    var n := c as int;
    || 0x09 <= n <= 0x0D
    || n == 0x20
    || n == 0xA0
    || n == 0x1680
    || 0x2000 <= n <= 0x200A
    || n == 0x2028 || n == 0x2029
    || n == 0x202F || n == 0x205F
    || n == 0x3000 || n == 0xFEFF
  }

  /** A character the phone pattern allows: a digit, white space, a dash or
      a parenthesis (the dash that follows the white-space class in the
      pattern is a literal dash, not a range). */
  predicate IsPhoneChar(c: char)
  {
    IsDigit(c) || IsJsWhitespace(c) || c == '-' || c == '(' || c == ')'
  }

  /** `s` is `lo` to `hi` characters, all satisfying `ok`. */
  predicate RunOf(s: string, ok: char -> bool, lo: nat, hi: nat)
  {
    lo <= |s| <= hi && forall i :: 0 <= i < |s| ==> ok(s[i])
  }

  /** The NIT pattern: 8 to 12 digits and nothing else. */
  function NitPattern(s: string): (r: bool)
    ensures r ==> s != "" && '-' !in s
  {
    RunOf(s, IsDigit, 8, 12)
  }

  /** The phone pattern: an optional leading plus, then 8 to 15 phone
      characters and nothing else. Since `+` is not a phone character, the optional
      sign is present exactly when the text starts with `+`. */
  function PhonePattern(s: string): (r: bool)
    ensures r ==> 8 <= |s| <= 16
  {
    if |s| > 0 && s[0] == '+' then RunOf(s[1..], IsPhoneChar, 8, 15)
    else RunOf(s, IsPhoneChar, 8, 15)
  }

  /** The NIT transform, which deletes every dash and white-space character
      and runs before the NIT's rules are checked. */
  function StripNit(s: string): (r: string)
    ensures |r| <= |s|
    ensures forall i :: 0 <= i < |r| ==> r[i] != '-' && !IsJsWhitespace(r[i])
  {
    Seqs.Filter(s, (c: char) => c != '-' && !IsJsWhitespace(c))
  }

  /** Stripping removes the dashes and white space and nothing else: every
      other character keeps its multiplicity and the order is kept. */
  lemma StripNitRemovesOnlySeparators(s: string)
    ensures Seqs.IsSubsequence(StripNit(s), s)
    ensures forall c :: multiset(StripNit(s))[c] ==
                        if c == '-' || IsJsWhitespace(c) then 0 else multiset(s)[c]
  {
    Seqs.FilterIsSubsequence(s, (c: char) => c != '-' && !IsJsWhitespace(c));
    forall c
      ensures multiset(StripNit(s))[c] ==
              if c == '-' || IsJsWhitespace(c) then 0 else multiset(s)[c]
    {
      Seqs.FilterCount(s, (c: char) => c != '-' && !IsJsWhitespace(c), c);
    }
  }

  // ---------------------------------------------------------------------
  // The first broken rule of each field
  // ---------------------------------------------------------------------

  function NameViolation(s: string): Option<Violation>
  {
    if s == "" then Some(Required)
    else if |s| < 2 then Some(TooShort)
    else if |s| > 100 then Some(TooLong)
    else None
  }

  function NitViolation(raw: string): Option<Violation>
  {
    var s := StripNit(raw);
    if s == "" then Some(Required)
    else if !NitPattern(s) then Some(BadFormat)
    else None
  }

  /** The e-mail format rule is not modelled; see the README. */
  function EmailViolation(s: string): Option<Violation>
  {
    if s == "" then Some(Required)
    else if |s| > 100 then Some(TooLong)
    else None
  }

  function PhoneViolation(s: string): Option<Violation>
  {
    if s == "" then Some(Required)
    else if !PhonePattern(s) then Some(BadFormat)
    else None
  }

  /** Profile and status come from a drop-down; the empty string stands
      for "nothing chosen yet", which the form holds as an undefined value
      and which therefore fails the `required` rule first. */
  function OneOfViolation(s: string, allowed: seq<string>): Option<Violation>
  {
    if s == "" then Some(Required)
    else if s !in allowed then Some(NotAllowed)
    else None
  }

  function FieldViolation(f: Field, form: Form): Option<Violation>
  {
    match f
    case Name => NameViolation(form.name)
    case Nit => NitViolation(form.nit)
    case Email => EmailViolation(form.email)
    case Phone => PhoneViolation(form.phone)
    case Profile => OneOfViolation(form.profile, Profiles)
    case Status => OneOfViolation(form.status, Statuses)
  }

  /** The error object of the form: one entry per field that breaks a
      rule, holding the first rule it breaks. */
  function Errors(form: Form): (r: map<Field, Violation>)
    ensures forall f :: f in r <==> FieldViolation(f, form).Some?
    ensures forall f :: f in r ==> r[f] == FieldViolation(f, form).value
  {
    assert forall f: Field :: f.Name? || f.Nit? || f.Email? || f.Phone? || f.Profile? || f.Status?;
    map f | f in AllFields && FieldViolation(f, form).Some? :: FieldViolation(f, form).value
  }

  // ---------------------------------------------------------------------
  // The acceptance predicate, one conjunct per field
  // ---------------------------------------------------------------------

  function ValidForm(form: Form): (r: bool)
    ensures r ==> && form.name != "" && form.nit != "" && form.email != ""
                  && form.phone != "" && form.profile != "" && form.status != ""
  {
    && 2 <= |form.name| <= 100
    && NitPattern(StripNit(form.nit))
    && 1 <= |form.email| <= 100
    && PhonePattern(form.phone)
    && form.profile in Profiles
    && form.status in Statuses
  }

  /** A field reports no error exactly when its conjunct of `ValidForm`
      holds. */
  lemma FieldViolationIffRuleFails(form: Form)
    ensures NameViolation(form.name).None? <==> 2 <= |form.name| <= 100
    ensures NitViolation(form.nit).None? <==> NitPattern(StripNit(form.nit))
    ensures EmailViolation(form.email).None? <==> 1 <= |form.email| <= 100
    ensures PhoneViolation(form.phone).None? <==> PhonePattern(form.phone)
    ensures OneOfViolation(form.profile, Profiles).None? <==> form.profile in Profiles
    ensures OneOfViolation(form.status, Statuses).None? <==> form.status in Statuses
  {
    assert "" !in Profiles && "" !in Statuses;
  }

  /** The form is accepted exactly when the error object is empty. */
  lemma ValidIffNoErrors(form: Form)
    ensures ValidForm(form) <==> Errors(form) == map[]
  {
    FieldViolationIffRuleFails(form);
    if Errors(form) == map[] {
      forall f: Field
        ensures FieldViolation(f, form).None?
      {
        assert f !in Errors(form);
      }
      assert FieldViolation(Name, form).None? && FieldViolation(Nit, form).None?;
      assert FieldViolation(Email, form).None? && FieldViolation(Phone, form).None?;
      assert FieldViolation(Profile, form).None? && FieldViolation(Status, form).None?;
    }
  }

  /** Dashes and white space anywhere in the NIT are ignored: inserting
      one changes neither the stripped value nor the verdict. */
  lemma NitSeparatorsIgnored(a: string, b: string, sep: char)
    requires sep == '-' || IsJsWhitespace(sep)
    ensures StripNit(a + [sep] + b) == StripNit(a + b)
    ensures NitViolation(a + [sep] + b) == NitViolation(a + b)
  {
    var keep := (c: char) => c != '-' && !IsJsWhitespace(c);
    Seqs.FilterAppend(a + [sep], b, keep);
    Seqs.FilterAppend(a, [sep], keep);
    Seqs.FilterAppend(a, b, keep);
  }

  /** A NIT of digits only is checked as typed. */
  lemma NitDigitsUnchanged(s: string)
    requires forall i :: 0 <= i < |s| ==> IsDigit(s[i])
    ensures StripNit(s) == s
    ensures NitViolation(s) == if s == "" then Some(Required)
                               else if 8 <= |s| <= 12 then None
                               else Some(BadFormat)
  {
    Seqs.FilterKeepsAll(s, (c: char) => c != '-' && !IsJsWhitespace(c));
  }

  /** "1234-5678" has eight digits once the dash is stripped; "1234-567"
      has seven. */
  lemma NitExamples()
    ensures NitViolation("1234-5678") == None
    ensures NitViolation("1234-567") == Some(BadFormat)
  {
    assert "1234-5678" == "1234" + ['-'] + "5678";
    NitSeparatorsIgnored("1234", "5678", '-');
    NitDigitsUnchanged("1234" + "5678");
    assert "1234-567" == "1234" + ['-'] + "567";
    NitSeparatorsIgnored("1234", "567", '-');
    NitDigitsUnchanged("1234" + "567");
  }

  /** Characters other than separators survive the transform, so any
      other non-digit (a letter, say) makes the NIT badly formatted. */
  lemma NitNonDigitRejected(s: string, i: nat)
    requires i < |s| && !IsDigit(s[i]) && s[i] != '-' && !IsJsWhitespace(s[i])
    ensures NitViolation(s) == Some(BadFormat)
  {
    StripNitRemovesOnlySeparators(s);
    assert multiset(s)[s[i]] > 0;
    assert s[i] in StripNit(s);
  }

  /** The phone pattern: one optional leading plus, then 8 to 15 digits,
      spaces, dashes or parentheses. */
  lemma PhoneExamples()
    ensures PhonePattern("+502 5555-1234")
    ensures PhonePattern("(502)55551234")
    ensures !PhonePattern("++5025555123")
    ensures !PhonePattern("555-123")
    ensures !PhonePattern("+1234567")
  {
    assert !IsPhoneChar("++5025555123"[1..][0]);
  }
}
