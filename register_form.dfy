/** The registration form (src/components/Auth/RegisterForm.tsx): its field
    rules and what a submission writes. It calls the authentication provider
    directly, stores the token under `token` and navigates; it does not go
    through the session hook, so it writes no `user` entry. The e-mail format
    check is a parameter. */
module RegisterForm {
  import opened Wrappers
  import opened Types
  import opened BrowserStorage
  import UseAuth

  datatype RegisterValues = RegisterValues(email: string, password: string, confirmPassword: string)

  const TokenKey: string := "token"
  const TasksRoute: string := "/tasks"

  /** Required and of e-mail form. */
  predicate EmailValid(email: string, isEmail: string -> bool) {
    email != "" && isEmail(email)
  }

  /** Required and at least 6 characters. */
  predicate PasswordValid(password: string) {
    password != "" && |password| >= 6
  }

  /** Required and equal to the password. */
  predicate ConfirmValid(v: RegisterValues) {
    v.confirmPassword != "" && v.confirmPassword == v.password
  }

  predicate RegisterValid(v: RegisterValues, isEmail: string -> bool) {
    EmailValid(v.email, isEmail) && PasswordValid(v.password) && ConfirmValid(v)
  }

  /** What the schema accepts, field by field; `required` is implied by the
      length rule for both passwords. */
  lemma RegisterRules(v: RegisterValues, isEmail: string -> bool)
    ensures RegisterValid(v, isEmail) <==>
              && v.email != "" && isEmail(v.email)
              && |v.password| >= 6
              && v.confirmPassword == v.password
  {
  }

  function InitialValues(): (v: RegisterValues)
    ensures v.email == "" && v.password == "" && v.confirmPassword == ""
  {
    RegisterValues("", "", "")
  }

  /** `error.message || 'Registration failed'` */
  function FailureMessage(message: string): (shown: string)
    ensures shown != ""
    ensures message != "" ==> shown == message
    ensures message == "" ==> shown == "Registration failed"
  {
    if message != "" then message else "Registration failed"
  }

  class RegisterFormState {
    var values: RegisterValues
    var error: string
    var location: Option<string>

    constructor ()
      ensures values == InitialValues() && error == "" && location == None
    {
      values := InitialValues();
      error := "";
      location := None;
    }

    method Edit(v: RegisterValues)
      modifies this
      ensures values == v && error == old(error) && location == old(location)
    {
      values := v;
    }

    /** A submission: an invalid form calls nothing. A valid one clears the
        error, then on success stores the token and navigates to the task
        page, or on failure shows the message. */
    method Submit(storage: LocalStorage, isEmail: string -> bool, reply: Result<AuthResponse, string>) returns (called: bool)
      modifies this, storage
      ensures called <==> RegisterValid(old(values), isEmail)
      ensures values == old(values)
      ensures !called ==> error == old(error) && location == old(location) && storage.entries == old(storage.entries)
      ensures called && reply.Ok? ==> error == "" && location == Some(TasksRoute)
      ensures called && reply.Ok? ==> storage.entries == old(storage.entries)[TokenKey := StoredText(reply.value.token)]
      ensures called && reply.Err? ==> error == FailureMessage(reply.error) && location == old(location)
      ensures called && reply.Err? ==> storage.entries == old(storage.entries)
    {
      called := RegisterValid(values, isEmail);
      if called {
        error := "";
        match reply
        case Ok(response) =>
          storage.SetItem(TokenKey, StoredText(response.token));
          location := Some(TasksRoute);
        case Err(message) =>
          error := FailureMessage(message);
      }
    }
  }

  /** Writing the token leaves the session a reload restores as it was: a
      registration through this form does not sign the user in. */
  lemma TokenWriteKeepsSavedUser(entries: map<string, Stored>, token: string)
    ensures UseAuth.SavedUser(entries[TokenKey := StoredText(token)]) == UseAuth.SavedUser(entries)
  {
  }
}
