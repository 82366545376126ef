/**
 * The registration page script: the category field that follows the chosen
 * role, and the checks made before the form is sent.  Field values are the
 * strings the form controls hold; a select with nothing chosen holds "".
 */
module RegisterPage {
  import opened Wrappers
  import opened JsStrings
  import PasswordPolicy
  import AuthRoutes

  datatype RegisterForm = RegisterForm(
    firstName: string, lastName: string, email: string, password: string,
    userType: string, category: string)

  /** The request body: names and email trimmed, the password as typed, `category || null`. */
  function FormData(f: RegisterForm): (r: AuthRoutes.RegisterRequest)
    ensures r.category == None <==> f.category == ""
    ensures r.category != None ==> r.category.value == f.category
    ensures r.password == f.password && r.userType == f.userType
  {
    AuthRoutes.RegisterRequest(Trim(f.firstName), Trim(f.lastName), Trim(f.email), f.password, f.userType,
                               if f.category == "" then None else Some(f.category))
  }

  datatype Outcome = PasswordRejected | CategoryRejected | Send(body: AuthRoutes.RegisterRequest)
  {
    /** The error shown when the form is refused before any request. */
    function Message(): string
    {
      match this
      case PasswordRejected => "Password must be at least 8 characters with uppercase, lowercase, number, and special character"
      case CategoryRejected => "Please select a blogging category"
      case Send(_) => ""
    }
  }

  /**
   * The submit handler up to the request: the password is checked first,
   * by the same expression the server uses; then a creator must have chosen
   * a category.
   */
  function Validate(f: RegisterForm): (r: Outcome)
    ensures r.PasswordRejected? <==> !PasswordPolicy.Matches(f.password)
    ensures r.CategoryRejected? <==> PasswordPolicy.Matches(f.password) && f.userType == "creator" && f.category == ""
    ensures r.Send? ==> r.body == FormData(f)
  {
    var data := FormData(f);
    if !PasswordPolicy.Matches(data.password) then PasswordRejected
    else if data.userType == "creator" && data.category.None? then CategoryRejected
    else Send(data)
  }

  /** A request is sent only with a password that meets the policy, so the server never answers it with the weak-password error. */
  lemma SentPasswordMeetsPolicy(f: RegisterForm)
    requires Validate(f).Send?
    ensures PasswordPolicy.MeetsPolicy(Validate(f).body.password)
    ensures PasswordPolicy.Matches(Validate(f).body.password)
  {
    PasswordPolicy.RegexIsPolicy(f.password);
  }

  /** A non-creator with an acceptable password is never refused, whatever the category field holds. */
  lemma NonCreatorNotRefusedForCategory(f: RegisterForm)
    requires f.userType != "creator" && PasswordPolicy.Matches(f.password)
    ensures Validate(f).Send?
  {
  }

  /**
   * The server stores the category the page sent, since `|| null` already
   * turned "" into null; and a creator's request always carries one.
   */
  lemma SentCategoryStoredAsSent(f: RegisterForm)
    requires Validate(f).Send?
    ensures AuthRoutes.StoredCategory(Validate(f).body.category) == Validate(f).body.category
    ensures f.userType == "creator" ==> Validate(f).body.category.Some? && Validate(f).body.category.value != ""
  {
  }

  /** The category control of the form. */
  class CategoryField {
    var visible: bool
    var required: bool
    var value: string

    constructor (visible: bool, required: bool, value: string)
      ensures this.visible == visible && this.required == required && this.value == value
    {
      this.visible, this.required, this.value := visible, required, value;
    }

    /**
     * The role select's change handler: choosing "creator" shows the field
     * and makes it required; any other choice hides it, makes it optional
     * and clears it.
     */
    method OnUserTypeChange(userType: string)
      modifies this
      ensures userType == "creator" ==> visible && required && value == old(value)
      ensures userType != "creator" ==> !visible && !required && value == ""
    {
      if userType == "creator" {
        visible := true;
        required := true;
      } else {
        visible := false;
        required := false;
        value := "";
      }
    }
  }
}
