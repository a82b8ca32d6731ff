/** The submit path of the registration form: the validator
    `parse_form_data`, and the two button actions `handle_submit` and
    `reset_form`, as pure functions over the form's contents. */
module Formular {
  import opened Results
  import opened PyText
  import opened PyInt

  /** A validated registration: what `parse_form_data` returns. */
  datatype RegistrationData = RegistrationData(
    firstName: string,
    lastName: string,
    email: string,
    age: int,
    comments: string)

  /** The three reasons a submission is rejected, one per validation rule,
      each with the text the error dialog shows. */
  datatype ValidationError = MissingRequiredField | InvalidEmailFormat | InvalidAge {
    function Message(): string {
      match this
      case MissingRequiredField => "Bitte f\U{00FC}llen Sie alle Pflichtfelder aus."
      case InvalidEmailFormat => "Bitte geben Sie eine g\U{00FC}ltige E-Mail-Adresse ein."
      case InvalidAge => "Alter muss eine positive Zahl sein."
    }
  }

  /** The raw text of the form's five inputs: the entries "Vorname",
      "Nachname", "E-Mail" and "Alter", and the "Kommentare" text box. */
  datatype FormState = FormState(
    firstName: string,
    lastName: string,
    email: string,
    ageText: string,
    comments: string)

  /** Every input is empty. */
  predicate IsBlank(f: FormState) {
    f.firstName == [] && f.lastName == [] && f.email == [] && f.ageText == [] && f.comments == []
  }

  /** Some required input holds nothing but whitespace. */
  predicate MissesRequiredField(f: FormState) {
    AllSpace(f.firstName) || AllSpace(f.lastName) || AllSpace(f.email) || AllSpace(f.ageText)
  }

  /** The deliberately weak e-mail heuristic: an `@` and a `.` somewhere. */
  predicate LooksLikeEmail(e: string) {
    '@' in e && '.' in e
  }

  /** `parse_form_data`: strip every input, then apply the three rules in
      order, the first failing rule deciding the error. */
  function ParseFormData(f: FormState): (r: Result<RegistrationData, ValidationError>)
    ensures r == Failure(MissingRequiredField) <==> MissesRequiredField(f)
    ensures r == Failure(InvalidEmailFormat)
        <==> !MissesRequiredField(f) && !LooksLikeEmail(f.email)
    ensures r == Failure(InvalidAge)
        <==> && !MissesRequiredField(f) && LooksLikeEmail(f.email)
             && !(ParseInt(Strip(f.ageText)).Some? && ParseInt(Strip(f.ageText)).value > 0)
    ensures r.Success? ==>
      && r.value.age > 0
      && ParseInt(Strip(f.ageText)) == Some(r.value.age)
      && r.value.firstName == Strip(f.firstName) && r.value.firstName != []
      && r.value.lastName == Strip(f.lastName) && r.value.lastName != []
      && r.value.email == Strip(f.email) && LooksLikeEmail(r.value.email)
      && r.value.comments == Strip(f.comments)
  {
    var firstName := Strip(f.firstName);
    var lastName := Strip(f.lastName);
    var email := Strip(f.email);
    var ageText := Strip(f.ageText);
    var comments := Strip(f.comments);
    StripKeeps(f.email, '@');
    StripKeeps(f.email, '.');
    if firstName == [] || lastName == [] || email == [] || ageText == [] then
      Failure(MissingRequiredField)
    else if '@' !in email || '.' !in email then
      Failure(InvalidEmailFormat)
    else
      match ParseInt(ageText)
      case None => Failure(InvalidAge)
      case Some(age) =>
        if age <= 0 then Failure(InvalidAge)
        else Success(RegistrationData(firstName, lastName, email, age, comments))
  }

  // ---------------------------------------------------------------------------
  // The two buttons
  // ---------------------------------------------------------------------------

  /** The modal dialog a submission opens. */
  datatype Dialog = ErrorDialog(title: string, message: string) | InfoDialog(title: string, message: string)

  /** The form after a submission, and the dialog it showed. */
  datatype SubmitOutcome = SubmitOutcome(state: FormState, dialog: Dialog)

  /** The confirmation text for a successful registration. */
  function SuccessMessage(d: RegistrationData): string {
    "Vielen Dank, " + d.firstName + " " + d.lastName + "!\n\n"
    + "Wir haben Ihre Daten erhalten und melden uns unter " + d.email + "."
  }

  /** `reset_form`: every entry and the comment box are cleared. */
  function Reset(f: FormState): (r: FormState)
    ensures IsBlank(r)
    ensures ParseFormData(r) == Failure(MissingRequiredField)
  {
    FormState("", "", "", "", "")
  }

  /** `handle_submit`: validate; on an error show it and keep the inputs so
      the user can correct them, on success confirm and clear the form. */
  function Submit(f: FormState): (r: SubmitOutcome)
    ensures r.dialog.ErrorDialog? <==> ParseFormData(f).Failure?
    ensures ParseFormData(f).Failure? ==>
      r.state == f && r.dialog == ErrorDialog("Fehler", ParseFormData(f).error.Message())
    ensures ParseFormData(f).Success? ==>
      IsBlank(r.state) && r.dialog == InfoDialog("Erfolg", SuccessMessage(ParseFormData(f).value))
  {
    match ParseFormData(f)
    case Failure(e) => SubmitOutcome(f, ErrorDialog("Fehler", e.Message()))
    case Success(d) => SubmitOutcome(Reset(f), InfoDialog("Erfolg", SuccessMessage(d)))
  }
}
