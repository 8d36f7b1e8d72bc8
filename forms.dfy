/**
 * The submit handlers of the contact, login and register forms. Each clears
 * the previous errors, checks the fields one after the other, writes an error
 * text for each field that fails and keeps going, and acts only when every
 * check passed. What a handler writes into the page is returned as an outcome:
 * the error text of each field (`None` when the field shows none and its
 * input keeps its normal border), the form message, and whether the form was
 * sent or reset.
 */
module Forms {

  import opened Wrappers
  import opened Strings
  import opened Patterns

  /** The text and the class attribute of a form's message area. */
  datatype FormMessage = FormMessage(text: string, className: string)

  /** The required-then-minimum-length check on a trimmed value: missing when empty,
      too short when under `min` characters, and no error otherwise. */
  function LengthError(value: string, min: nat, missing: string, short: string): (r: Option<string>)
    ensures r.None? <==> value != "" && |value| >= min
    ensures r.Some? ==> r.value == if value == "" then missing else short
  {
    if value == "" then Some(missing)
    else if |value| < min then Some(short)
    else None
  }

  /** The required-then-e-mail-shape check on a trimmed value. */
  function EmailError(value: string, missing: string, invalid: string): (r: Option<string>)
    ensures r.None? <==> EmailPattern(value)
    ensures r.Some? ==> r.value == if value == "" then missing else invalid
  {
    EmailTestMatchesPattern(value);
    if value == "" then Some(missing)
    else if !IsEmail(value) then Some(invalid)
    else None
  }

  // ---------------------------------------------------------------
  // Contact form
  // ---------------------------------------------------------------

  datatype ContactInput = ContactInput(
    name: string, email: string, phone: string, message: string,
    spamChecked: bool)                     // the hidden honeypot checkbox

  datatype ContactErrors = ContactErrors(
    name: Option<string>, email: Option<string>, phone: Option<string>, message: Option<string>)
  {
    predicate NoneShown() {
      name.None? && email.None? && phone.None? && message.None?
    }
  }

  datatype ContactOutcome = ContactOutcome(
    errors: ContactErrors,
    shown: Option<FormMessage>,            // `showFormMessage`, if called
    submitted: bool)                       // `submitForm` called with the trimmed values

  const NoContactErrors := ContactErrors(None, None, None, None)
  const SpamNotice := FormMessage("Spam detected. Please try again.", "form-message error")
  const SendingNotice := FormMessage("Sending message...", "form-message success")

  /** When the contact form is sent, stated with the regular expression itself. */
  ghost predicate ContactAcceptable(f: ContactInput) {
    && !f.spamChecked
    && |Trim(f.name)| >= 2
    && EmailPattern(Trim(f.email))
    && (Trim(f.phone) == "" || IsPhone(Trim(f.phone)))
    && |Trim(f.message)| >= 10
  }

  method ValidateContact(f: ContactInput) returns (out: ContactOutcome)
    // the honeypot stops everything before any field is looked at
    ensures f.spamChecked ==> out == ContactOutcome(NoContactErrors, Some(SpamNotice), false)
    // sent exactly when every rule holds, and then with no error shown
    ensures out.submitted <==> ContactAcceptable(f)
    ensures out.submitted ==> out.errors.NoneShown() && out.shown == Some(SendingNotice)
    ensures !f.spamChecked && !out.submitted ==> !out.errors.NoneShown() && out.shown == None
    // one error per failing field
    ensures !f.spamChecked ==>
      && (out.errors.name.Some? <==> |Trim(f.name)| < 2)
      && (out.errors.email.Some? <==> !EmailPattern(Trim(f.email)))
      && (out.errors.phone.Some? <==> Trim(f.phone) != "" && !IsPhone(Trim(f.phone)))
      && (out.errors.message.Some? <==> |Trim(f.message)| < 10)
    // an empty field is reported as missing rather than as malformed
    ensures !f.spamChecked ==>
      && out.errors.name == LengthError(Trim(f.name), 2, "Name is required", "Name must be at least 2 characters")
      && out.errors.email == EmailError(Trim(f.email), "Email is required", "Please enter a valid email address")
      && out.errors.message == LengthError(Trim(f.message), 10, "Message is required", "Message must be at least 10 characters")
    ensures out.errors.phone.Some? ==> out.errors.phone.value == "Please enter a valid phone number"
  {
    if f.spamChecked {
      return ContactOutcome(NoContactErrors, Some(SpamNotice), false);
    }
    var name, email, phone, message := Trim(f.name), Trim(f.email), Trim(f.phone), Trim(f.message);
    var isValid := true;

    var nameError := LengthError(name, 2, "Name is required", "Name must be at least 2 characters");
    isValid := isValid && nameError.None?;

    var emailError := EmailError(email, "Email is required", "Please enter a valid email address");
    isValid := isValid && emailError.None?;

    // optional, but checked when given
    var phoneError := None;
    if phone != "" {
      if !IsPhone(phone) {
        phoneError := Some("Please enter a valid phone number");
        isValid := false;
      }
    }

    var messageError := LengthError(message, 10, "Message is required", "Message must be at least 10 characters");
    isValid := isValid && messageError.None?;

    var errors := ContactErrors(nameError, emailError, phoneError, messageError);
    if isValid {
      out := ContactOutcome(errors, Some(SendingNotice), true);
    } else {
      out := ContactOutcome(errors, None, false);
    }
  }

  // ---------------------------------------------------------------
  // Login form
  // ---------------------------------------------------------------

  datatype LoginInput = LoginInput(email: string, password: string)

  datatype LoginOutcome = LoginOutcome(emailError: Option<string>, passwordError: Option<string>, message: FormMessage)

  const ClearedMessage := FormMessage("", "form-message")
  const LoginSuccess := FormMessage("Login successful (demo only).", "form-message success")

  method ValidateLogin(f: LoginInput) returns (out: LoginOutcome)
    ensures out.emailError.Some? <==> !EmailPattern(Trim(f.email))
    ensures out.passwordError.Some? <==> |Trim(f.password)| < 6
    ensures out.emailError.Some? ==>
      out.emailError.value == if Trim(f.email) == "" then "Email is required" else "Enter a valid email address"
    ensures out.passwordError.Some? ==>
      out.passwordError.value == if Trim(f.password) == "" then "Password is required" else "Password must be at least 6 characters"
    // success is announced exactly when no error is shown; otherwise the message area is cleared
    ensures out.message == if out.emailError.None? && out.passwordError.None? then LoginSuccess else ClearedMessage
  {
    var email, password := Trim(f.email), Trim(f.password);
    var message := ClearedMessage;
    var isValid := true;

    var emailError := EmailError(email, "Email is required", "Enter a valid email address");
    isValid := isValid && emailError.None?;

    var passwordError := LengthError(password, 6, "Password is required", "Password must be at least 6 characters");
    isValid := isValid && passwordError.None?;

    if isValid {
      message := LoginSuccess;
    }
    out := LoginOutcome(emailError, passwordError, message);
  }

  // ---------------------------------------------------------------
  // Register form
  // ---------------------------------------------------------------

  datatype RegisterInput = RegisterInput(
    name: string, email: string, password: string, confirm: string,
    terms: Option<bool>,                   // the terms checkbox, when the page has one
    hasTermsError: bool)                   // whether the page has an element for its error

  datatype RegisterErrors = RegisterErrors(
    name: Option<string>, email: Option<string>, password: Option<string>,
    confirm: Option<string>, terms: Option<string>)
  {
    predicate NoneShown() {
      name.None? && email.None? && password.None? && confirm.None? && terms.None?
    }
  }

  datatype RegisterOutcome = RegisterOutcome(errors: RegisterErrors, message: FormMessage, reset: bool)

  const RegisterSuccess := FormMessage("Account created successfully (demo only).", "form-message success")

  /** When an account is created, stated with the regular expression itself. */
  ghost predicate RegisterAcceptable(f: RegisterInput) {
    FieldsAcceptable(f) && f.terms != Some(false)
  }

  /** The rules on the four text fields of the register form. */
  ghost predicate FieldsAcceptable(f: RegisterInput) {
    && |Trim(f.name)| >= 2
    && EmailPattern(Trim(f.email))
    && |Trim(f.password)| >= 6
    && Trim(f.confirm) == Trim(f.password)
  }

  /** The confirmation check on trimmed values: missing when empty, otherwise it must equal the password. */
  function ConfirmError(confirm: string, password: string): (r: Option<string>)
    ensures r.None? <==> confirm != "" && confirm == password
    ensures r.Some? ==> r.value == if confirm == "" then "Please confirm your password" else "Passwords do not match"
  {
    if confirm == "" then Some("Please confirm your password")
    else if confirm != password then Some("Passwords do not match")
    else None
  }

  method ValidateRegister(f: RegisterInput) returns (out: RegisterOutcome)
    ensures out.reset <==> RegisterAcceptable(f)
    ensures out.message == if out.reset then RegisterSuccess else ClearedMessage
    ensures out.reset ==> out.errors.NoneShown()
    ensures out.errors.name.Some? <==> |Trim(f.name)| < 2
    ensures out.errors.email.Some? <==> !EmailPattern(Trim(f.email))
    ensures out.errors.password.Some? <==> |Trim(f.password)| < 6
    ensures out.errors.terms.Some? <==> f.terms == Some(false) && f.hasTermsError
    // the one failure that shows nothing: an unticked box with no place for its error
    ensures !out.reset && out.errors.NoneShown() <==> f.terms == Some(false) && !f.hasTermsError && FieldsAcceptable(f)
    // an empty field is reported as missing rather than as too short or mismatched
    ensures out.errors.name == LengthError(Trim(f.name), 2, "Full name is required", "Name must be at least 2 characters")
    ensures out.errors.email == EmailError(Trim(f.email), "Email is required", "Enter a valid email address")
    ensures out.errors.password == LengthError(Trim(f.password), 6, "Password is required", "Password must be at least 6 characters")
    ensures out.errors.confirm == ConfirmError(Trim(f.confirm), Trim(f.password))
    ensures out.errors.terms.Some? ==> out.errors.terms.value == "You must agree to the Terms and Conditions"
  {
    var name, email, password, confirm := Trim(f.name), Trim(f.email), Trim(f.password), Trim(f.confirm);
    var message := ClearedMessage;
    var isValid := true;

    var nameError := LengthError(name, 2, "Full name is required", "Name must be at least 2 characters");
    isValid := isValid && nameError.None?;

    var emailError := EmailError(email, "Email is required", "Enter a valid email address");
    isValid := isValid && emailError.None?;

    var passwordError := LengthError(password, 6, "Password is required", "Password must be at least 6 characters");
    isValid := isValid && passwordError.None?;

    var confirmError := ConfirmError(confirm, password);
    isValid := isValid && confirmError.None?;

    // an unticked box fails the form even where there is no element to show why
    var termsError := None;
    if f.terms == Some(false) {
      if f.hasTermsError {
        termsError := Some("You must agree to the Terms and Conditions");
      }
      isValid := false;
    }

    if isValid {
      message := RegisterSuccess;
    }
    out := RegisterOutcome(RegisterErrors(nameError, emailError, passwordError, confirmError, termsError), message, isValid);
  }
}
