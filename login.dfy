/** Configuration loading and the login handshake of login_and_get_session, with the HTTP
    exchanges given as their outcomes. */
module PortalLogin {
  import opened Wrappers
  import opened PyStr
  import opened Seqs

  datatype ConfigError = MissingEnvironmentVariable(name: string)

  /** get_env_var: the variable's value, or an error when it is unset or empty. */
  function GetEnvVar(env: map<string, string>, name: string): (r: Result<string, ConfigError>)
    ensures r.Ok? <==> name in env && env[name] != ""
    ensures r.Ok? ==> r.value == env[name]
    ensures r.Err? ==> r.error == MissingEnvironmentVariable(name)
  {
    if name in env && env[name] != "" then Ok(env[name])
    else Err(MissingEnvironmentVariable(name))
  }

  datatype Credentials = Credentials(rollNo: string, password: string, session: string, program: string)

  /** The four required variables, read in this order at start-up. */
  const RequiredVariables: seq<string> := ["ROLL_NO", "PASSWORD", "SESSION", "PROGRAM"]

  /** Set and non-empty. */
  predicate Configured(env: map<string, string>, name: string) {
    name in env && env[name] != ""
  }

  /** The module-level start-up reads: the first missing variable aborts, so no credential
      is ever empty. */
  function LoadCredentials(env: map<string, string>): (r: Result<Credentials, ConfigError>)
    ensures r.Ok? ==>
      r.value.rollNo != "" && r.value.password != "" && r.value.session != "" && r.value.program != ""
  {
    var rollNo :- GetEnvVar(env, "ROLL_NO");
    var password :- GetEnvVar(env, "PASSWORD");
    var session :- GetEnvVar(env, "SESSION");
    var program :- GetEnvVar(env, "PROGRAM");
    Ok(Credentials(rollNo, password, session, program))
  }

  /** Start-up succeeds exactly when all four variables are set and non-empty, and then
      the credentials are their values; otherwise it fails on the first missing one. */
  lemma LoadCredentialsSpec(env: map<string, string>)
    ensures LoadCredentials(env).Ok? <==> forall k :: 0 <= k < 4 ==> Configured(env, RequiredVariables[k])
    ensures LoadCredentials(env).Ok? ==>
      LoadCredentials(env).value ==
        Credentials(env["ROLL_NO"], env["PASSWORD"], env["SESSION"], env["PROGRAM"])
    ensures LoadCredentials(env).Err? ==>
      exists k :: 0 <= k < 4 && !Configured(env, RequiredVariables[k]) &&
        LoadCredentials(env).error == MissingEnvironmentVariable(RequiredVariables[k]) &&
        forall m :: 0 <= m < k ==> Configured(env, RequiredVariables[m])
  {
    if !Configured(env, "ROLL_NO") {
      assert RequiredVariables[0] == "ROLL_NO";
    } else if !Configured(env, "PASSWORD") {
      assert RequiredVariables[1] == "PASSWORD";
    } else if !Configured(env, "SESSION") {
      assert RequiredVariables[2] == "SESSION";
    } else if !Configured(env, "PROGRAM") {
      assert RequiredVariables[3] == "PROGRAM";
    }
  }

  /** An `<input>` element of the login page: its `name` and its `value` attribute. */
  datatype FormInput = FormInput(name: string, value: Option<string>)

  type Form = map<string, string>

  /** The three ASP.NET hidden fields echoed back with the login form. */
  const ViewState: string := "__VIEWSTATE"
  const ViewStateGenerator: string := "__VIEWSTATEGENERATOR"
  const EventValidation: string := "__EVENTVALIDATION"

  const SignInButton: string := "Sign In"
  const LoginSuccessMarker: string := "DashBoard.aspx"

  /** `soup.find("input", {"name": name})["value"] if soup.find(...) else ""`: the value of
      the first input with that name, `""` when there is none, and a KeyError when that
      input has no `value` attribute. */
  function HiddenField(inputs: seq<FormInput>, name: string): (r: Attempt<string>)
    ensures (forall i :: 0 <= i < |inputs| ==> inputs[i].name != name) ==> r == Completed("")
    ensures forall k ::
      (0 <= k < |inputs| && inputs[k].name == name && forall i :: 0 <= i < k ==> inputs[i].name != name) ==>
        r == (if inputs[k].value.Some? then Completed(inputs[k].value.value) else Raised)
  {
    match FirstWhere(inputs, (f: FormInput) => f.name == name)
    case None => Completed("")
    case Some(k) => if inputs[k].value.Some? then Completed(inputs[k].value.value) else Raised
  }

  /** The form posted to the login page: the three hidden fields, the credentials and the
      sign-in button. */
  function LoginForm(inputs: seq<FormInput>, creds: Credentials): (r: Attempt<Form>)
    ensures r.Completed? <==>
      HiddenField(inputs, ViewState).Completed? &&
      HiddenField(inputs, ViewStateGenerator).Completed? &&
      HiddenField(inputs, EventValidation).Completed?
    ensures r.Completed? ==>
      r.value.Keys == {ViewState, ViewStateGenerator, EventValidation,
                       "ddl_Session", "ddl_Program", "txt_RollNo", "txt_Password", "btn_StudentSignIn"} &&
      r.value[ViewState] == HiddenField(inputs, ViewState).value &&
      r.value[ViewStateGenerator] == HiddenField(inputs, ViewStateGenerator).value &&
      r.value[EventValidation] == HiddenField(inputs, EventValidation).value &&
      r.value["ddl_Session"] == creds.session && r.value["ddl_Program"] == creds.program &&
      r.value["txt_RollNo"] == creds.rollNo && r.value["txt_Password"] == creds.password &&
      r.value["btn_StudentSignIn"] == SignInButton
  {
    match (HiddenField(inputs, ViewState), HiddenField(inputs, ViewStateGenerator), HiddenField(inputs, EventValidation))
    case (Completed(viewState), Completed(generator), Completed(validation)) =>
      Completed(map[
        ViewState := viewState,
        ViewStateGenerator := generator,
        EventValidation := validation,
        "ddl_Session" := creds.session,
        "ddl_Program" := creds.program,
        "txt_RollNo" := creds.rollNo,
        "txt_Password" := creds.password,
        "btn_StudentSignIn" := SignInButton])
    case _ => Raised
  }

  /** A login page without any of the three hidden fields still yields a form, with each
      token sent as the empty string. */
  lemma MissingTokensDefaultToEmpty(inputs: seq<FormInput>, creds: Credentials)
    requires forall i :: 0 <= i < |inputs| ==>
      inputs[i].name !in {ViewState, ViewStateGenerator, EventValidation}
    ensures LoginForm(inputs, creds).Completed?
    ensures var form := LoginForm(inputs, creds).value;
      form[ViewState] == "" && form[ViewStateGenerator] == "" && form[EventValidation] == ""
  {
  }

  /** An HTTP response: its status code and its body text. */
  datatype HttpResponse = HttpResponse(status: int, text: string)

  /** The test on the reply to the login post. */
  predicate LoginAccepted(reply: HttpResponse) {
    reply.status == 200 && Contains(reply.text, LoginSuccessMarker)
  }

  /** `bool(response)` for a requests response, that is `response.ok`: false exactly for
      the client- and server-error statuses 400 to 599. */
  predicate ResponseOk(response: HttpResponse) {
    !(400 <= response.status < 600)
  }

  /** What the portal does during one refresh: the login page (as the inputs the parser
      finds in it), the reply to the posted login form, and the reply to the request for
      the assignments page. Each exchange may raise instead. */
  datatype Portal = Portal(
    loginPage: Attempt<seq<FormInput>>,
    post: Form -> Attempt<HttpResponse>,
    assignmentsPage: Attempt<HttpResponse>)

  /** login_and_get_session: `Completed(true)` for an authenticated session,
      `Completed(false)` for a rejected login, `Raised` for an exception. */
  function LoginAndGetSession(portal: Portal, creds: Credentials): (r: Attempt<bool>)
    ensures r == Completed(true) ==>
      portal.loginPage.Completed? && LoginForm(portal.loginPage.value, creds).Completed? &&
      portal.post(LoginForm(portal.loginPage.value, creds).value).Completed? &&
      LoginAccepted(portal.post(LoginForm(portal.loginPage.value, creds).value).value)
  {
    match portal.loginPage
    case Raised => Raised
    case Completed(inputs) =>
      match LoginForm(inputs, creds)
      case Raised => Raised
      case Completed(form) =>
        match portal.post(form)
        case Raised => Raised
        case Completed(reply) => Completed(LoginAccepted(reply))
  }

  /** A reply to the login post is accepted only with status 200 and a body that mentions
      `DashBoard.aspx`; any such reply is accepted. */
  lemma LoginDecision(portal: Portal, creds: Credentials, reply: HttpResponse)
    requires portal.loginPage.Completed?
    requires LoginForm(portal.loginPage.value, creds).Completed?
    requires portal.post(LoginForm(portal.loginPage.value, creds).value) == Completed(reply)
    ensures LoginAndGetSession(portal, creds) == Completed(true) <==>
      reply.status == 200 && Find(reply.text, LoginSuccessMarker, 0) != -1
  {
    FindFromStartIsContains(reply.text, LoginSuccessMarker);
  }

  /** check_assignments: the assignments page after a successful login, `None` after a
      rejected one, `Raised` when any exchange raised. */
  function CheckAssignments(portal: Portal, creds: Credentials): (r: Attempt<Option<HttpResponse>>)
    ensures r.Completed? && r.value.Some? <==>
      LoginAndGetSession(portal, creds) == Completed(true) && portal.assignmentsPage.Completed?
    ensures r.Completed? && r.value.Some? ==> r.value.value == portal.assignmentsPage.value
  {
    match LoginAndGetSession(portal, creds)
    case Raised => Raised
    case Completed(false) => Completed(None)
    case Completed(true) =>
      match portal.assignmentsPage
      case Raised => Raised
      case Completed(page) => Completed(Some(page))
  }
}
