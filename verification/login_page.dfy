/** The login form: a text field, an error line, and a submit handler that
    trims the input and either shows one error or logs the user in. */
module LoginPage {
  import opened JsString

  const MinNameLength := 2
  const MaxNameLength := 20

  datatype NameError = Missing | TooShort | TooLong

  /** The text shown for each rejection. The third message says "less than
      20" although a 20-unit name is accepted. */
  function ErrorMessage(e: NameError): (msg: string)
    ensures msg != []
  {
    match e
    case Missing => "Please enter a username"
    case TooShort => "Username must be at least 2 characters"
    case TooLong => "Username must be less than 20 characters"
  }

  datatype Verdict = Rejected(error: NameError) | Accepted(name: string)

  /** The checks of the submit handler, in order, applied to the trimmed input. */
  function ValidateName(input: string): (v: Verdict)
    ensures v.Accepted? <==> MinNameLength <= Utf16Length(Trim(input)) <= MaxNameLength
    ensures v.Accepted? ==> v.name == Trim(input)
    ensures v == Rejected(Missing) <==> AllWhitespace(input)
    ensures v == Rejected(TooShort) <==> Utf16Length(Trim(input)) == 1
    ensures v == Rejected(TooLong) <==> Utf16Length(Trim(input)) > MaxNameLength
  {
    var name := Trim(input);
    if name == [] then Rejected(Missing)
    else if Utf16Length(name) < MinNameLength then Rejected(TooShort)
    else if Utf16Length(name) > MaxNameLength then Rejected(TooLong)
    else Accepted(name)
  }

  /** The form's state: the field's value and the error line ("" when hidden). */
  datatype Form = Form(field: string, error: string)

  /** One submit: either the error is set and nobody is logged in, or
      `onLogin` receives the name and the form is left as it was. */
  datatype Submitted = Submitted(form: Form, login: seq<string>)

  const InitialForm := Form("", "")

  function Submit(f: Form): (r: Submitted)
    ensures r.form.field == f.field
    ensures |r.login| <= 1
    ensures |r.login| == 1 <==> MinNameLength <= Utf16Length(Trim(f.field)) <= MaxNameLength
    ensures |r.login| == 1 ==> r.login[0] == Trim(f.field) && r.form == f
    ensures r.login == [] ==> r.form.error != []
  {
    match ValidateName(f.field)
    case Rejected(e) => Submitted(Form(f.field, ErrorMessage(e)), [])
    case Accepted(name) => Submitted(f, [name])
  }

  /** Typing in the field replaces its value and hides the error. */
  function Edit(f: Form, value: string): (g: Form)
    ensures g.field == value && g.error == []
  {
    Form(value, "")
  }

  /** The error line, when shown, is the verdict on the current field. */
  ghost predicate ErrorMatchesField(f: Form) {
    f.error == [] || (ValidateName(f.field).Rejected? && f.error == ErrorMessage(ValidateName(f.field).error))
  }

  lemma {:induction false} SubmitKeepsErrorMatching(f: Form)
    requires ErrorMatchesField(f)
    ensures ErrorMatchesField(Submit(f).form)
  {
  }

  /** The form starts empty with no error, which matches its field. */
  lemma InitialFormMatches()
    ensures InitialForm.field == [] && ErrorMatchesField(InitialForm)
  {
  }

  lemma EditKeepsErrorMatching(f: Form, value: string)
    ensures ErrorMatchesField(Edit(f, value))
  {
  }

  /** In every reachable form, a successful submit happens with no error
      showing: an error is only ever left behind by a rejected field. */
  lemma AcceptedFormShowsNoError(f: Form)
    requires ErrorMatchesField(f)
    requires ValidateName(f.field).Accepted?
    ensures Submit(f).form.error == []
  {
  }

  /** A 20-unit name passes although the message says "less than 20". */
  lemma TwentyUnitsAccepted()
    ensures ValidateName("abcdefghijklmnopqrst") == Accepted("abcdefghijklmnopqrst")
  {
    var s := "abcdefghijklmnopqrst";
    TrimOfTrimmed(s);
    assert Trim(s) == s;
    assert forall i :: 0 <= i < |s| ==> s[i] < '\U{10000}';
  }

  /** Lengths are counted in UTF-16 code units: one emoji is two units and
      passes the minimum-length check on its own. */
  lemma OneEmojiIsLongEnough()
    ensures ValidateName("\U{1F600}") == Accepted("\U{1F600}")
  {
    TrimOfTrimmed("\U{1F600}");
  }

  /** Surrounding whitespace is never part of the name handed to `onLogin`. */
  lemma {:induction false} LoginNameIsTrimmed(input: string)
    requires ValidateName(input).Accepted?
    ensures var n := ValidateName(input).name;
      n != [] && !IsWhitespace(n[0]) && !IsWhitespace(n[|n| - 1]) && Trim(n) == n
  {
    var n := Trim(input);
    assert ValidateName(input).name == n;
    assert n != [] by {
      assert Utf16Length(n) >= MinNameLength;
    }
    TrimIdempotent(input);
  }
}
