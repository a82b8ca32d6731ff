/** Properties of the registration form that relate several calls or
    several inputs: rule order, the role of the comment box, completeness
    of the validator, and what a second submission sees. */
module FormularProperties {
  import opened Results
  import opened PyText
  import opened PyInt
  import opened Formular

  /** A blank required input is reported as missing whatever the e-mail,
      age and comment inputs hold, so the first rule is checked before the
      other two. */
  lemma MissingFieldComesFirst(f: FormState, email: string, ageText: string, comments: string)
    requires AllSpace(f.firstName) || AllSpace(f.lastName)
    ensures ParseFormData(f.(email := email, ageText := ageText, comments := comments))
         == Failure(MissingRequiredField)
  {}

  /** Once the required inputs are present, a failing e-mail check is
      reported whatever the age input holds: the second rule is checked
      before the third. */
  lemma EmailComesBeforeAge(f: FormState, ageText: string)
    requires !MissesRequiredField(f) && !AllSpace(ageText)
    requires !LooksLikeEmail(f.email)
    ensures ParseFormData(f.(ageText := ageText)) == Failure(InvalidEmailFormat)
  {}

  /** The comment box never decides whether a submission fails, nor which
      error it reports; on success it only sets the stored comment. */
  lemma CommentsNeverFail(f: FormState, comments: string)
    ensures ParseFormData(f.(comments := comments)).Failure? <==> ParseFormData(f).Failure?
    ensures ParseFormData(f).Failure? ==>
      ParseFormData(f.(comments := comments)).error == ParseFormData(f).error
    ensures ParseFormData(f).Success? ==>
      ParseFormData(f.(comments := comments)).value
        == ParseFormData(f).value.(comments := Strip(comments))
  {}

  /** A comment box holding only whitespace (the text box always yields at
      least a trailing newline) is stored as the empty comment, and only
      such a comment box is. */
  lemma BlankCommentsStoredEmpty(f: FormState)
    ensures ParseFormData(f).Success? ==>
      (ParseFormData(f).value.comments == "" <==> AllSpace(f.comments))
  {}

  /** Each error is shown with its own message, so the user can tell which
      rule rejected the input. */
  lemma MessagesDistinguishErrors(e1: ValidationError, e2: ValidationError)
    ensures e1.Message() == e2.Message() <==> e1 == e2
  {}

  /** Completeness: any inputs that are well-formed values, each typed with
      whitespace of its own before and after it, are accepted, and the record
      holds exactly those values. */
  lemma AcceptsPaddedValues(
    firstName: string, lastName: string, email: string, age: nat, comments: string,
    a1: string, b1: string, a2: string, b2: string, a3: string, b3: string,
    a4: string, b4: string, a5: string, b5: string)
    requires AllSpace(a1) && AllSpace(b1) && AllSpace(a2) && AllSpace(b2)
    requires AllSpace(a3) && AllSpace(b3) && AllSpace(a4) && AllSpace(b4)
    requires AllSpace(a5) && AllSpace(b5)
    requires firstName != [] && NoEdgeSpace(firstName)
    requires lastName != [] && NoEdgeSpace(lastName)
    requires NoEdgeSpace(email) && LooksLikeEmail(email)
    requires NoEdgeSpace(comments)
    requires 0 < age && |FormatNat(age)| <= MaxStrDigits
    ensures ParseFormData(FormState(
              a1 + firstName + b1, a2 + lastName + b2, a3 + email + b3,
              a4 + FormatInt(age) + b4, a5 + comments + b5))
         == Success(RegistrationData(firstName, lastName, email, age, comments))
  {
    var f := FormState(a1 + firstName + b1, a2 + lastName + b2, a3 + email + b3,
                       a4 + FormatInt(age) + b4, a5 + comments + b5);
    StripUnique(a1, firstName, b1);
    StripUnique(a2, lastName, b2);
    StripUnique(a3, email, b3);
    StripUnique(a5, comments, b5);
    PaddedAgeParses(age, a4, b4);
    Accepts(f, RegistrationData(firstName, lastName, email, age, comments));
  }

  /** `str(age)` typed with surrounding whitespace reads back as `age`. */
  lemma PaddedAgeParses(age: nat, pad1: string, pad2: string)
    requires AllSpace(pad1) && AllSpace(pad2)
    requires |FormatNat(age)| <= MaxStrDigits
    ensures ParseInt(Strip(pad1 + FormatInt(age) + pad2)) == Some(age)
  {
    var ageText := FormatInt(age);
    assert ageText != [] && !IsSpace(ageText[0]) && !IsSpace(ageText[|ageText| - 1]);
    StripUnique(pad1, ageText, pad2);
    ParseFormatRoundTrip(age);
  }

  /** The validator's success case, read off its contract. */
  lemma Accepts(f: FormState, d: RegistrationData)
    requires Strip(f.firstName) == d.firstName && d.firstName != []
    requires Strip(f.lastName) == d.lastName && d.lastName != []
    requires Strip(f.email) == d.email && LooksLikeEmail(d.email)
    requires Strip(f.comments) == d.comments
    requires ParseInt(Strip(f.ageText)) == Some(d.age) && d.age > 0
    ensures ParseFormData(f) == Success(d)
  {
    StripKeeps(f.email, '@');
    assert !MissesRequiredField(f);
  }

  /** The form with `d`'s values typed back in. */
  function Refill(d: RegistrationData): FormState {
    FormState(d.firstName, d.lastName, d.email, FormatInt(d.age), d.comments)
  }


  /** After a successful submission the form is empty, so pressing "submit"
      again at once reports a missing field and leaves the form empty. */
  lemma ResubmitAfterSuccess(f: FormState)
    ensures ParseFormData(f).Success? ==>
      && Submit(Submit(f).state).dialog == ErrorDialog("Fehler", MissingRequiredField.Message())
      && IsBlank(Submit(Submit(f).state).state)
  {}

  /** A rejected submission can be repeated without the form drifting. */
  lemma RejectedSubmitIsStable(f: FormState)
    requires ParseFormData(f).Failure?
    ensures Submit(Submit(f).state) == Submit(f)
  {}

  /** Validation is a fixed point on its own output: typing a validated
      record back into the form yields the same record. */
  lemma RevalidateRecord(f: FormState)
    ensures ParseFormData(f).Success? ==>
      ParseFormData(Refill(ParseFormData(f).value)) == ParseFormData(f)
  {
    if ParseFormData(f).Success? {
      var d := ParseFormData(f).value;
      RecordAgeReadsBack(f);
      StripIdempotent(f.firstName);
      StripIdempotent(f.lastName);
      StripIdempotent(f.email);
      StripIdempotent(f.comments);
      Accepts(Refill(d), d);
    }
  }

  /** The validated age, written in decimal, reads back as itself. */
  lemma RecordAgeReadsBack(f: FormState)
    ensures ParseFormData(f).Success? ==>
      ParseInt(Strip(FormatInt(ParseFormData(f).value.age))) == Some(ParseFormData(f).value.age)
  {
    if ParseFormData(f).Success? {
      var age := ParseFormData(f).value.age;
      ParsedValueFits(Strip(f.ageText));
      AgeReads(FormatInt(age), age);
    }
  }


  // ---------------------------------------------------------------------------
  // Worked examples
  // ---------------------------------------------------------------------------

  /** A correctly filled-in form. */
  function Anna(): FormState {
    FormState("Anna", "Muster", "anna@example.com", "30", "")
  }

  lemma AnnaStrips()
    ensures Strip("Anna") == "Anna" && Strip("Muster") == "Muster"
    ensures Strip("anna@example.com") == "anna@example.com" && Strip("") == ""
  {
    var first, last, email := "Anna", "Muster", "anna@example.com";
    assert NoEdgeSpace(first) && NoEdgeSpace(last) && NoEdgeSpace(email);
    StripKeepsUnpadded(first);
    StripKeepsUnpadded(last);
    StripKeepsUnpadded(email);
    StripKeepsUnpadded("");
  }

  lemma AnnaEmailPlausible()
    ensures LooksLikeEmail("anna@example.com")
  {
    var email := "anna@example.com";
    assert email[4] == '@' && email[12] == '.';
  }

  lemma AgeReads(text: string, age: int)
    requires text == FormatInt(age) && |FormatNat(if age < 0 then -age else age)| <= MaxStrDigits
    ensures ParseInt(Strip(text)) == Some(age)
  {
    assert text != [] && NoEdgeSpace(text);
    StripKeepsUnpadded(text);
    ParseFormatRoundTrip(age);
  }

  lemma AgeThirty()
    ensures ParseInt(Strip("30")) == Some(30)
  {
    AgeReads("30", 30);
  }

  lemma AgeMinusFive()
    ensures ParseInt(Strip("-5")) == Some(-5)
  {
    AgeReads("-5", -5);
  }

  lemma ScenarioAccepted()
    ensures ParseFormData(Anna()) == Success(RegistrationData("Anna", "Muster", "anna@example.com", 30, ""))
  {
    AnnaStrips();
    AnnaEmailPlausible();
    AgeThirty();
    Accepts(Anna(), RegistrationData("Anna", "Muster", "anna@example.com", 30, ""));
  }

  lemma StripsPaddedAnna()
    ensures Strip("  Anna  ") == "Anna"
  {
    assert "  Anna  " == "  " + "Anna" + "  ";
    StripUnique("  ", "Anna", "  ");
  }

  lemma ScenarioPaddedName()
    ensures ParseFormData(Anna().(firstName := "  Anna  "))
         == Success(RegistrationData("Anna", "Muster", "anna@example.com", 30, ""))
  {
    AnnaStrips();
    AnnaEmailPlausible();
    AgeThirty();
    StripsPaddedAnna();
    Accepts(Anna().(firstName := "  Anna  "), RegistrationData("Anna", "Muster", "anna@example.com", 30, ""));
  }

  lemma ScenarioNegativeAge()
    ensures ParseFormData(Anna().(ageText := "-5")) == Failure(InvalidAge)
  {
    AnnaStrips();
    AnnaEmailPlausible();
    AgeMinusFive();
    assert !MissesRequiredField(Anna().(ageText := "-5"));
  }

  lemma ScenarioEmailWithoutAt()
    ensures ParseFormData(Anna().(email := "annaexample.com")) == Failure(InvalidEmailFormat)
  {
    assert '@' !in "annaexample.com";
    assert !IsSpace("Anna"[0]) && !IsSpace("Muster"[0]) && !IsSpace("annaexample.com"[0]) && !IsSpace("30"[0]);
  }

  lemma ScenarioEmptyFirstName()
    ensures ParseFormData(Anna().(firstName := "")) == Failure(MissingRequiredField)
  {}
}
