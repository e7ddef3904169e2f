/**
 * The validation gates of the two forms: the notification form
 * (handleNotificationFormSubmission) trims the email and validates it; the
 * contact form (handleContactFormSubmission) validates the email as
 * entered, then requires a name of at least two characters after trimming.
 */
module Forms {
  import opened Common
  import opened Text
  import opened Email

  datatype FieldError = InvalidEmail | NameTooShort

  /** What a submission handler ended in. `Rejected` carries the message
      shown beside the field, when that field exists. */
  datatype Outcome =
    | ElementsMissing
    | Rejected(error: FieldError, shown: Option<string>)
    | Succeeded
    | Failed(message: string)

  const NotificationEmailMessage := "Please enter a valid email address"
  const NotificationFailureMessage := "Something went wrong. Please try again."
  const ContactEmailMessage := "Valid email required"
  const ContactNameMessage := "Name must be at least 2 characters"
  const ContactFailureMessage := "Unable to submit. Please try again."
  const JoiningLabel := "Joining..."
  const SubmittingLabel := "Submitting..."
  const MinNameLength := 2

  /** The string a regular expression test sees for a FormData entry:
      a missing entry is null, which converts to "null". */
  function FormText(v: Option<string>): string {
    match v
    case None => "null"
    case Some(s) => s
  }

  /** The notification form's gate: the trimmed value must be a valid
      email, and the trimmed value is what is submitted. */
  function ValidateNotification(raw: string): (r: Result<string, FieldError>)
    ensures r.Success? ==> IsValidEmail(r.value) && |r.value| <= |raw|
    ensures r.Failure? ==> r.error == InvalidEmail
  {
    var email := Trim(raw);
    if IsValidEmail(email) then Success(email) else Failure(InvalidEmail)
  }

  /** The contact form's gate: email first (untrimmed), then the name. */
  function ValidateContact(email: Option<string>, name: Option<string>): (r: Option<FieldError>)
    ensures r != Some(InvalidEmail) ==> IsValidEmail(FormText(email))
    ensures r == None ==> name.Some? && |name.value| >= MinNameLength
  {
    if !IsValidEmail(FormText(email)) then Some(InvalidEmail)
    else if name.None? || |Trim(name.value)| < MinNameLength then Some(NameTooShort)
    else None
  }

  /** A valid address with whitespace around it passes the notification
      gate, and the address alone is submitted. */
  lemma NotificationAcceptsPadded(a: string, e: string, b: string)
    requires AllWhitespace(a) && AllWhitespace(b) && IsValidEmail(e)
    ensures ValidateNotification(a + e + b) == Success(e)
  {
    TrimPadded(a, e, b);
  }

  /** What the notification gate submits is a valid address that the input
      held with nothing but whitespace around it. */
  lemma NotificationSubmitsTrimmed(raw: string)
    requires ValidateNotification(raw).Success?
    ensures IsValidEmail(ValidateNotification(raw).value)
    ensures exists i, j :: 0 <= i <= j <= |raw| && raw[i..j] == ValidateNotification(raw).value
              && AllWhitespace(raw[..i]) && AllWhitespace(raw[j..])
  {
    TrimKeepsMiddle(raw);
  }

  /** Every email the contact form accepts, the notification form accepts
      unchanged. */
  lemma ContactEmailStricter(e: string, name: Option<string>)
    requires ValidateContact(Some(e), name) != Some(InvalidEmail)
    ensures ValidateNotification(e) == Success(e)
  {
    TrimNoWhitespace(e);
  }

  /** Leading whitespace that the notification form would trim away makes
      the contact form reject the email, whatever the name. */
  lemma ContactRejectsPadded(a: string, e: string, name: Option<string>)
    requires a != [] && AllWhitespace(a)
    ensures ValidateContact(Some(a + e), name) == Some(InvalidEmail)
  {
    assert IsWhitespace((a + e)[0]);
  }

  /** A contact form without an email field is rejected on the email. */
  lemma ContactMissingEmail(name: Option<string>)
    ensures ValidateContact(None, name) == Some(InvalidEmail)
  {
    assert multiset("null")['@'] == 0;
  }

  /** With a valid email the name decides: it must be present and keep at
      least two characters after trimming. */
  lemma ContactNameRule(e: string, name: Option<string>)
    requires IsValidEmail(e)
    ensures ValidateContact(Some(e), name) == None <==> name.Some? && |Trim(name.value)| >= MinNameLength
    ensures ValidateContact(Some(e), name) != Some(InvalidEmail)
  {
  }
}
