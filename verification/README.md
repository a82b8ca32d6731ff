# Registration form validator — Dafny model

This project models the one piece of logic in the Tkinter tutorial form
`Formular.py`: submitting the registration form. The form has four entries
("Vorname", "Nachname", "E-Mail", "Alter") and a "Kommentare" text box.
On "Absenden" the program reads the five texts and strips their whitespace.
It then applies three rules in order, and the first failing rule decides the
error:

1. every required entry is non-empty;
2. the e-mail contains an `@` and a `.`;
3. the age parses as an integer greater than zero.

A failure shows an error dialog and leaves the form as it was. A success
builds a `RegistrationData` record, shows a confirmation and clears the form,
which is what the "Zurücksetzen" button does on its own.

Everything is modelled as pure functions over immutable values:

- `results.dfy` (`Results`): `Option` and `Result`, standing in for the
  `ValueError` the validator raises and the submit handler catches.
- `text.dfy` (`PyText`): Python's `str.strip()`. The whitespace set is
  exactly the 29 code points for which Python 3's `str.isspace` holds.
- `integers.dfy` (`PyInt`): Python's `int(text)` in base 10. It accepts an
  optional sign, then digit groups joined by single underscores, with leading
  zeros allowed. It refuses literals of more than 4300 digits, which is
  CPython's default `int_max_str_digits`. The grammar is written twice: as a
  declarative predicate and as a one-pass scanner. A lemma proves that the
  two agree, and another proves that `int(str(n)) == n`.
- `formular.dfy` (`Formular`): `RegistrationData`, the error tags with their
  dialog texts, the form state, `ParseFormData` (`parse_form_data`), `Reset`
  (`reset_form`) and `Submit` (`handle_submit`).
- `formular_properties.dfy` (`FormularProperties`): lemmas relating several
  calls or inputs, and the worked examples.

How the source's collaborators appear in the model:

- The Tk variables and the text widget become the five fields of
  `FormState`.
- The dynamically attached `text_widget` attribute becomes the `comments`
  field.
- A dialog becomes a `Dialog` value that `Submit` returns. The model does not
  show anything.

`Formular.py` is more permissive than a plain "base-10 integer" reading of the
age rule. `int()` also accepts `+30`, `030` and `1_0`, and it rejects literals
longer than the digit limit. The model follows the code in these cases.

## Model

| member | source | states |
|---|---|---|
| PyText.SkipSpaces | Formular.py:206-209 | the index returned ends the longest run of whitespace starting at `i`: everything from `i` up to it is whitespace and the character at it is not |
| PyText.SkipSpacesBack | Formular.py:206-209 | the index returned starts the longest run of whitespace ending at `j`: everything from it up to `j` is whitespace and the character before it is not |
| PyText.Strip | Formular.py:206-216 | the stripped text neither starts nor ends with whitespace, and it is empty exactly when the input is whitespace only |
| PyText.StripSplits | Formular.py:206-216 | stripping removes only whitespace: the result is an infix of the input between an all-whitespace prefix and an all-whitespace suffix |
| PyText.NonSpaceIsKept | Formular.py:206-209 | every non-whitespace character of the input lies inside the part that stripping keeps |
| PyText.StripUnique | Formular.py:206-216 | stripping `a + m + b` gives back `m` whenever `a` and `b` are whitespace and `m` has no edge whitespace, so `Strip` is the unique such split |
| PyText.StripKeepsUnpadded | Formular.py:206-209 | text without leading or trailing whitespace is unchanged by stripping |
| PyText.StripIdempotent | Formular.py:206-216 | stripping twice is the same as stripping once |
| PyInt.ScanDigitsCorrect | Formular.py:235 | the left-to-right scan `int()` performs accepts exactly the unsigned literals (digits, with single underscores only between digits) and yields the decimal value of their digits |
| PyInt.ParseIntCorrect | Formular.py:232-242 | `int(text)` succeeds exactly on optionally signed literals of at most 4300 digits, with the value the literal denotes; every other text raises (`None`) |
| PyInt.ParseFormatRoundTrip | Formular.py:235 | `int(str(n)) == n` for every integer whose decimal form is within the digit limit |
| PyText.StripKeeps | Formular.py:208-230 | stripping neither adds nor removes any non-whitespace character such as `@` or `.`, so the e-mail rule may be read off the raw text |
| Formular.ParseFormData | Formular.py:191-253 | missing-field error iff some required entry is blank; invalid-e-mail error iff all are present and the e-mail lacks `@` or `.`; invalid-age error iff those pass and the stripped age is not an integer above 0; on success the record holds the stripped texts, the first three non-empty, the e-mail with `@` and `.`, and the age is the positive value of the stripped age text |
| Formular.Reset | Formular.py:286-296 | afterwards every entry and the comment box are empty, and such a form is rejected as missing a required field |
| Formular.Submit | Formular.py:256-283 | an error dialog is shown exactly when validation fails, and the form is then left unchanged; on success a confirmation is shown and the form is empty afterwards |
| FormularProperties.MissingFieldComesFirst | Formular.py:225-242 | a blank first or last name is reported as a missing field whatever the e-mail, age and comments hold |
| FormularProperties.EmailComesBeforeAge | Formular.py:229-242 | with the required entries present, a bad e-mail is reported whatever the age entry holds |
| FormularProperties.CommentsNeverFail | Formular.py:216-253 | changing the comment never changes whether validation fails or which error it reports; on success only the stored comment changes |
| FormularProperties.BlankCommentsStoredEmpty | Formular.py:214-252 | on success the stored comment is empty exactly when the comment box held only whitespace |
| FormularProperties.MessagesDistinguishErrors | Formular.py:225-242 | the three errors carry three different messages |
| FormularProperties.Accepts | Formular.py:225-253 | stripped, non-empty names, an e-mail with `@` and `.`, and an age text parsing to a positive value are accepted, and the record holds exactly those values |
| FormularProperties.AcceptsPaddedValues | Formular.py:206-253 | completeness: any well-formed names, e-mail, comment and positive age, each typed with its own surrounding whitespace, are accepted as exactly those values |
| FormularProperties.RevalidateRecord | Formular.py:235-253 | typing a validated record back into the form, with the age written in decimal, validates to the same record |
| FormularProperties.ResubmitAfterSuccess | Formular.py:259-296 | right after a successful submission, a second submission reports a missing field and the form stays empty |
| FormularProperties.RejectedSubmitIsStable | Formular.py:263-268 | resubmitting a rejected form rejects it the same way and keeps it unchanged |
| FormularProperties.ScenarioAccepted | Formular.py:191-253 | "Anna", "Muster", "anna@example.com", "30" and an empty comment give the record (Anna, Muster, anna@example.com, 30, "") |
| FormularProperties.ScenarioPaddedName | Formular.py:206-248 | the first name "  Anna  " is stored as "Anna" |
| FormularProperties.ScenarioNegativeAge | Formular.py:232-242 | age "-5" with otherwise valid entries is an invalid age |
| FormularProperties.ScenarioEmailWithoutAt | Formular.py:229-230 | e-mail "annaexample.com" with otherwise valid entries is an invalid e-mail |
| FormularProperties.ScenarioEmptyFirstName | Formular.py:225-226 | an empty first name with otherwise valid entries is a missing field |

## Left out

- Window, widget and button construction (`create_main_window`, `build_form_fields`, `build_comments_field`, `main`). This is layout and event-loop wiring with no logic.
- Showing the modal dialogs. `Submit` returns the dialog's title and text as a value; blocking, rendering and the event loop are not modelled.
- Reading the Tk variables and the text widget. These reads become the raw strings of `FormState`. The text widget also appends a trailing newline to what it returns; `strip()` removes it, so the model passes the comment text as typed.
- PyInt.ParseIntCorrect: does not cover `int()` on non-ASCII decimal digits (for example Arabic-Indic digits). Python accepts them; the model accepts only `0`-`9`, and rejects the rest as an invalid age.
- The digit limit is configurable at run time (`sys.set_int_max_str_digits`, `PYTHONINTMAXSTRDIGITS`); the model fixes it at the default of 4300. Python 3.10.0 to 3.10.6 have no limit at all.
- `int()` strips whitespace itself. The whitespace `int()` skips is a subset of the set `strip()` uses and the age text is already stripped, so this second strip changes nothing and is not modelled.
- The whitespace set follows the Unicode database of current Python 3 releases; older Unicode versions differ in a few code points.
