/** Client-side validation of the registration form: the ordered three-rule
    check run on submit (`validateFormData`) and the per-field check run when
    a field loses focus (`validateField`). */
module Validation {
  import opened Wrappers
  import opened Strings
  import opened Email

  /** The submitted entries, as `Object.fromEntries(formData.entries())`
      builds them: field name to field value. */
  type FormEntries = map<string, string>

  /** The three submit rules, in the order they are checked. */
  datatype Rule = NameRule | EmailRule | CourseRule

  datatype Verdict = Accepted | Rejected(rule: Rule)

  /** The notification each rule raises when it fails. */
  function RuleMessage(rule: Rule): string {
    match rule
    case NameRule => "Please enter a valid name (at least 2 characters)."
    case EmailRule => "Please enter a valid email address."
    case CourseRule => "Please select a course."
  }

  /** Destructuring `data`: an absent key reads as `undefined`. */
  function Entry(data: FormEntries, key: string): (v: Option<string>)
    ensures v.Some? <==> key in data
    ensures v.Some? ==> v.value == data[key]
  {
    if key in data then Some(data[key]) else None
  }

  /** `!v` for a form entry: `undefined` and the empty string are falsy. */
  predicate Falsy(v: Option<string>) {
    v.None? || v.value == []
  }

  /** The name rule as the form states it: a name whose trimmed `length`
      (in UTF-16 code units) is at least 2. */
  predicate NameOk(data: FormEntries) {
    "name" in data && Utf16Length(Trim(data["name"])) >= 2
  }

  /** The e-mail rule: an address the e-mail pattern matches. */
  ghost predicate EmailOk(data: FormEntries) {
    "emailId" in data && MatchesEmailRegex(data["emailId"])
  }

  /** The course rule: a non-empty course selection. */
  predicate CourseOk(data: FormEntries) {
    "courseName" in data && data["courseName"] != []
  }

  /** `validateFormData(data)`: the name, e-mail and course checks, in that
      order, each on the entries as submitted. */
  function ValidateFormData(data: FormEntries): (v: Verdict)
    ensures v == Accepted ==> "name" in data && "emailId" in data && CourseOk(data)
    ensures v == Rejected(CourseRule) ==> !CourseOk(data)
  {
    var name := Entry(data, "name");
    if Falsy(name) || Utf16Length(Trim(name.value)) < 2 then Rejected(NameRule)
    else
      var email := Entry(data, "emailId");
      if Falsy(email) || !IsValidEmail(email.value) then Rejected(EmailRule)
      else if Falsy(Entry(data, "courseName")) then Rejected(CourseRule)
      else Accepted
  }

  /** The verdict is acceptance exactly when all three rules hold, and
      otherwise names the first rule, in the order name, e-mail, course,
      that fails. */
  lemma ValidateFormDataMeaning(data: FormEntries)
    ensures ValidateFormData(data) == Accepted <==> NameOk(data) && EmailOk(data) && CourseOk(data)
    ensures ValidateFormData(data) == Rejected(NameRule) <==> !NameOk(data)
    ensures ValidateFormData(data) == Rejected(EmailRule) <==> NameOk(data) && !EmailOk(data)
    ensures ValidateFormData(data) == Rejected(CourseRule) <==> NameOk(data) && EmailOk(data) && !CourseOk(data)
  {
    var v := ValidateFormData(data);
    if "emailId" in data {
      EmailMatchesRegex(data["emailId"]);
    }
    var emailOk := "emailId" in data && IsValidEmail(data["emailId"]);
    assert emailOk == EmailOk(data);
    if !NameOk(data) {
      assert v == Rejected(NameRule);
    } else if !emailOk {
      assert v == Rejected(EmailRule);
    } else if !CourseOk(data) {
      assert v == Rejected(CourseRule);
    } else {
      assert v == Accepted;
    }
  }

  /** First failure wins: once a rule fails, the entries read by later rules
      cannot change the verdict. */
  lemma FirstFailureWins(data: FormEntries, other: FormEntries)
    ensures Entry(other, "name") == Entry(data, "name") && !NameOk(data)
      ==> ValidateFormData(other) == Rejected(NameRule)
    ensures Entry(other, "name") == Entry(data, "name") && Entry(other, "emailId") == Entry(data, "emailId")
      && NameOk(data) && !EmailOk(data)
      ==> ValidateFormData(other) == Rejected(EmailRule)
  {
    ValidateFormDataMeaning(data);
    ValidateFormDataMeaning(other);
  }

  /** The name rule counts what JavaScript's `length` counts: surrounding
      whitespace is ignored and one letter is too short ... */
  lemma NameRuleRejects()
    ensures !NameOk(map[]) && !NameOk(map["name" := ""])
    ensures !NameOk(map["name" := " x\t"])
  {
    TrimSurrounded(" ", "x", "\t");
    assert " " + "x" + "\t" == " x\t";
  }

  /** ... while two letters pass, whatever surrounds them ... */
  lemma NameRuleAccepts()
    ensures NameOk(map["name" := "  Al "])
  {
    TrimSurrounded("  ", "Al", " ");
    assert "  " + "Al" + " " == "  Al ";
  }

  /** ... and so does a single character outside the Basic Multilingual
      Plane, which is two UTF-16 code units. */
  lemma NameRuleCountsCodeUnits()
    ensures NameOk(map["name" := "\U{1F600}"])
  {
    var smiley := "\U{1F600}";
    assert smiley[0] as int == 0x1F600;
    TrimOfTrimmed(smiley);
    assert smiley[1..] == [];
    assert Utf16Length(smiley) == 2 + Utf16Length([]);
  }

  /** A form control as `validateField` sees it: its `type`, its `name` and
      its current value. */
  datatype Field = Field(kind: string, name: string, value: string)

  /** What `validateField` reports and leaves on the page: the value it
      returns, and the error text it shows under the field (`None` when it
      clears the field's error). */
  datatype FieldReport = FieldReport(valid: bool, error: Option<string>)

  const NameFieldMessage := "Name must be at least 2 characters long"
  const EmailFieldMessage := "Please enter a valid email address"
  const CourseFieldMessage := "Please select a course"

  /** `validateField(field)`, on the trimmed value. */
  function ValidateField(field: Field): (r: FieldReport)
    ensures r.error.Some? <==> !r.valid && Trim(field.value) != []
  {
    var value := Trim(field.value);
    var (valid, message) :=
      if field.kind == "text" then
        if field.name == "name" then (Utf16Length(value) >= 2, NameFieldMessage) else (true, "")
      else if field.kind == "email" then (IsValidEmail(value), EmailFieldMessage)
      else if field.kind == "select-one" then (value != [], CourseFieldMessage)
      else (true, "");
    FieldReport(valid, if !valid && value != [] then Some(message) else None)
  }

  /** Only text fields named `name`, e-mail fields and single selects have a
      rule, each judged on the trimmed value; an error is shown exactly when
      the value breaks the rule and is not blank. */
  lemma ValidateFieldMeaning(field: Field)
    ensures var r := ValidateField(field);
      && (r.error.Some? <==> !r.valid && Trim(field.value) != [])
      && (field.kind != "text" && field.kind != "email" && field.kind != "select-one" ==> r.valid)
      && (field.kind == "text" ==> (r.valid <==> field.name != "name" || Utf16Length(Trim(field.value)) >= 2))
      && (field.kind == "email" ==> (r.valid <==> MatchesEmailRegex(Trim(field.value))))
      && (field.kind == "select-one" ==> (r.valid <==> Trim(field.value) != []))
  {
    EmailMatchesRegex(Trim(field.value));
  }

  /** A blank or whitespace-only value never shows a field error, whatever
      the rule. */
  lemma {:induction false} BlankFieldShowsNoError(field: Field)
    requires AllWhitespace(field.value)
    ensures ValidateField(field).error == None
  {
    ValidateFieldMeaning(field);
  }

  /** A single select never shows its message: it is invalid only when its
      value is empty, and an error is shown only for a non-empty value. */
  lemma SelectNeverShowsError(name: string, value: string)
    ensures ValidateField(Field("select-one", name, value)).error == None
  {
    ValidateFieldMeaning(Field("select-one", name, value));
  }

  /** On the name field the on-blur check and the submit rule agree: both
      trim before counting. */
  lemma NameFieldAgreesWithSubmit(value: string)
    ensures ValidateField(Field("text", "name", value)).valid <==> NameOk(map["name" := value])
  {
    ValidateFieldMeaning(Field("text", "name", value));
  }

  /** On an e-mail value without surrounding whitespace the on-blur check
      and the submit rule agree. */
  lemma EmailFieldAgreesWithSubmit(value: string)
    requires value == [] || (!IsWhitespace(value[0]) && !IsWhitespace(value[|value| - 1]))
    ensures ValidateField(Field("email", "emailId", value)).valid <==> EmailOk(map["emailId" := value])
  {
    EmailFieldRule(value);
    EmailOkOf(value);
    TrimOfTrimmed(value);
  }

  lemma EmailFieldRule(value: string)
    ensures ValidateField(Field("email", "emailId", value)).valid <==> MatchesEmailRegex(Trim(value))
  {
    ValidateFieldMeaning(Field("email", "emailId", value));
  }

  lemma EmailOkOf(value: string)
    ensures EmailOk(map["emailId" := value]) <==> MatchesEmailRegex(value)
  {
    assert map["emailId" := value]["emailId"] == value;
  }

  /** The e-mail field is trimmed on blur but not on submit: an address
      the pattern accepts, typed after some whitespace, passes the field
      check and fails the submit rule (a no-break space, U+00A0, before
      `a@b.co`, say). */
  lemma EmailTrimmedOnlyOnBlur(pre: string, address: string)
    requires pre != [] && AllWhitespace(pre)
    requires MatchesEmailRegex(address)
    ensures ValidateField(Field("email", "emailId", pre + address)).valid
    ensures !EmailOk(map["emailId" := pre + address])
  {
    var typed := pre + address;
    var p, q :| MatchesAt(address, p, q);
    assert !IsWhitespace(address[0]) by {
      assert address[0] == address[..p][0];
    }
    assert !IsWhitespace(address[|address| - 1]) by {
      assert address[|address| - 1] == address[q + 1..][|address| - q - 2];
    }
    TrimSurrounded(pre, address, []);
    assert pre + address + [] == typed;
    EmailFieldRule(typed);
    EmailOkOf(typed);
    assert typed[0] == pre[0];
    LeadingWhitespaceNeverMatches(typed);
  }
}
