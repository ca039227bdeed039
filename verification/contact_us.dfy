/**
 * The contact page's form: its initial values and the `validate` function
 * that the form library calls with the current values and whose returned
 * object maps each offending field name to the message shown under it.
 */
module ContactUs {

  import opened RegExp
  import opened EmailSyntax

  /** The four text fields of the form. */
  datatype ContactValues = ContactValues(name: string, phone: string, email: string, message: string)

  /** Field name to error message; a field without an entry is accepted. */
  type Errors = map<string, string>

  const NameField := "name"
  const PhoneField := "phone"
  const EmailField := "email"
  const MessageField := "message"

  const NameRequired := "Name is required"
  const PhoneRequired := "Phone number is required"
  const EmailRequired := "Email is required"
  const InvalidEmail := "Invalid email address"
  const MessageRequired := "Message is required"

  /** Every field starts out empty. */
  const InitialValues := ContactValues("", "", "", "")

  /**
   * A field is missing when it is the empty string; nothing is trimmed, so a
   * field of blanks counts as filled in. Only a filled-in email is checked
   * against the email regular expression.
   */
  function Validate(values: ContactValues): (errors: Errors)
    ensures errors.Keys <= {NameField, PhoneField, EmailField, MessageField}
    ensures NameField in errors <==> values.name == ""
    ensures NameField in errors ==> errors[NameField] == NameRequired
    ensures PhoneField in errors <==> values.phone == ""
    ensures PhoneField in errors ==> errors[PhoneField] == PhoneRequired
    ensures EmailField in errors <==> values.email == "" || !MatchesEmailRegex(values.email)
    ensures values.email == "" ==> EmailField in errors && errors[EmailField] == EmailRequired
    ensures values.email != "" && EmailField in errors ==> errors[EmailField] == InvalidEmail
    ensures MessageField in errors <==> values.message == ""
    ensures MessageField in errors ==> errors[MessageField] == MessageRequired
  {
    EmailRegexCharacterisation(values.email);
    var errors: Errors := map[];
    var errors := if values.name == "" then errors[NameField := NameRequired] else errors;
    var errors := if values.phone == "" then errors[PhoneField := PhoneRequired] else errors;
    var errors :=
      if values.email == "" then errors[EmailField := EmailRequired]
      else if !IsWellFormedEmail(values.email) then errors[EmailField := InvalidEmail]
      else errors;
    var errors := if values.message == "" then errors[MessageField := MessageRequired] else errors;
    errors
  }

  /** The form is accepted exactly when every field is filled in and the email matches. */
  lemma ValidateAcceptsIff(values: ContactValues)
    ensures Validate(values) == map[] <==>
      values.name != "" && values.phone != "" && values.message != "" &&
      values.email != "" && MatchesEmailRegex(values.email)
  {
  }

  /** The untouched form reports every field as required. */
  lemma InitialValuesErrors()
    ensures Validate(InitialValues) == map[
      NameField := NameRequired, PhoneField := PhoneRequired,
      EmailField := EmailRequired, MessageField := MessageRequired]
  {
  }

  /** The verdict does not depend on the letter case of the email. */
  lemma ValidateIgnoresEmailCase(values: ContactValues, email: string)
    requires EqualIgnoringCase(values.email, email)
    ensures Validate(values.(email := email)) == Validate(values)
  {
    EmailRegexIgnoresCase(values.email, email);
    var a, b := Validate(values.(email := email)), Validate(values);
    assert a.Keys == b.Keys;
  }

  /** Each entry depends on its own field alone. */
  lemma ValidateFieldsIndependent(values: ContactValues, other: ContactValues, field: string)
    requires field in {NameField, PhoneField, EmailField, MessageField}
    requires field == NameField ==> values.name == other.name
    requires field == PhoneField ==> values.phone == other.phone
    requires field == EmailField ==> values.email == other.email
    requires field == MessageField ==> values.message == other.message
    ensures field in Validate(values) <==> field in Validate(other)
    ensures field in Validate(values) ==> Validate(values)[field] == Validate(other)[field]
  {
  }
}
