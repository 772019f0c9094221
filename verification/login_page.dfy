/** The login page: the checks before the request and the message shown for
    a failed login. */
module LoginPage {
  import opened Common
  import opened Text
  import opened Tables
  import opened Forms
  import Users
  import Auth

  /** The outcome of the checks of `handleSubmit`, one message each. */
  datatype Prompt = NoEmail | NoPassword | BadEmail | Submit
  {
    function Message(): string
    {
      match this
      case NoEmail => "Por favor, informe seu email"
      case NoPassword => "Por favor, informe sua senha"
      case BadEmail => "Por favor, insira um email válido"
      case Submit => ""
    }
  }

  /** `handleSubmit` before the request: a blank email, then a blank
      password, then the email regex; the first that fails is reported. */
  function Check(email: string, password: string): (p: Prompt)
    ensures p == NoEmail <==> JsBlank(email)
    ensures p == NoPassword <==> !JsBlank(email) && JsBlank(password)
    ensures p == BadEmail <==> !JsBlank(email) && !JsBlank(password) && !EmailShape(email)
    ensures p == Submit <==> !JsBlank(email) && !JsBlank(password) && EmailShape(email)
  {
    EmailRegexIffShape(email);
    if JsBlank(email) then NoEmail
    else if JsBlank(password) then NoPassword
    else if !EmailRegex(email) then BadEmail
    else Submit
  }

  /** The request carries the texts as typed: the trimming only decides
      whether to send. */
  function Credentials(email: string, password: string): (r: Option<(string, string)>)
    ensures r.Some? <==> Check(email, password) == Submit
    ensures r.Some? ==> r.value == (email, password)
  {
    if Check(email, password) == Submit then Some((email, password)) else None
  }

  const WrongCredentials := "Email ou senha incorretos. Verifique suas credenciais e tente novamente."
  const InactiveAccount := "Sua conta está inativa. Entre em contato com o administrador."
  const NoConnection := "Erro de conexão. Verifique sua internet e tente novamente."
  const LoginFallback := "Erro ao fazer login. Tente novamente."

  /** The status branches of the `catch`: 401, 403, 500. */
  function LoginRules(): seq<(int, Shown)>
  {
    [(401, Fixed(WrongCredentials)), (403, Fixed(InactiveAccount)), (500, Fixed(ServerTrouble))]
  }

  /** The `catch` of `handleSubmit`: the status branches, then a request
      that never reached the server, then the server's message or the
      fallback. */
  function LoginBanner(f: Failure): (r: string)
    ensures f.NoResponse? && f.network ==> r == NoConnection
    ensures f.NoResponse? && !f.network ==> r == LoginFallback
  {
    if f.NoResponse? && f.network then NoConnection
    else Banner(f, LoginRules(), ServerOr(LoginFallback))
  }

  lemma LoginBannerCases(f: Failure)
    ensures f.Status() == Some(401) ==> LoginBanner(f) == WrongCredentials
    ensures f.Status() == Some(403) ==> LoginBanner(f) == InactiveAccount
    ensures f.Status() == Some(500) ==> LoginBanner(f) == ServerTrouble
    ensures f.Response? && f.status !in {401, 403, 500} ==> LoginBanner(f) == OrElse(f.message, LoginFallback)
  {
    var rules := LoginRules();
    if f.Status() == Some(403) {
      BannerFirstMatch(f, rules, ServerOr(LoginFallback), 1);
    } else if f.Status() == Some(500) {
      BannerFirstMatch(f, rules, ServerOr(LoginFallback), 2);
    }
  }

  /** What a failed login leaves on screen: the interceptor's reload of
      `/login` on a 401 replaces the page, banner included, with a fresh
      one; any other failure leaves the banner the `catch` computed. */
  datatype Screen = FreshLogin | ShowsBanner(text: string)

  function AfterFailedLogin(f: Failure): (s: Screen)
    ensures s == FreshLogin <==> ReloadsToLogin(f)
    ensures s.ShowsBanner? ==> s.text == LoginBanner(f)
  {
    if ReloadsToLogin(f) then FreshLogin else ShowsBanner(LoginBanner(f))
  }

  /** The wrong-credentials branch of the `catch` never survives the
      reload: that text stays on screen only when some other status carries
      it as the server's own message. */
  lemma WrongCredentialsNeverStays(f: Failure)
    ensures AfterFailedLogin(f) == ShowsBanner(WrongCredentials) ==>
      f.Response? && f.status != 401 && f.message == Some(WrongCredentials)
  {
    LoginBannerCases(f);
    assert |WrongCredentials| != |InactiveAccount|;
    assert |WrongCredentials| != |ServerTrouble|;
    assert |WrongCredentials| != |NoConnection|;
    assert |WrongCredentials| != |LoginFallback|;
  }

  /** How the controller's refusal reaches the page: a 401 whose body
      carries the controller's message. */
  function Refusal(e: ApiError): Failure
    requires e.Unauthorized?
  {
    Response(401, Some(e.message))
  }

  /** Every refused login, an unknown email, a wrong password and an
      inactive account alike, is a 401: the banner the `catch` computes is
      the page's own wrong-credentials text, never the controller's message
      nor the inactive-account text, and the interceptor's reload then
      leaves a fresh login page. */
  lemma RefusedLoginBanner(t: Table<Users.User>, email: string, password: string,
                           verify: (string, string) -> bool, token: Users.User -> string)
    requires ValidIds(t)
    ensures var r := Auth.Login(t, email, password, verify, token);
      r.Failure? ==> r.error.Unauthorized? && LoginBanner(Refusal(r.error)) == WrongCredentials
    ensures var r := Auth.Login(t, email, password, verify, token);
      r.Failure? ==> LoginBanner(Refusal(r.error)) != InactiveAccount
    ensures var r := Auth.Login(t, email, password, verify, token);
      r.Failure? ==> AfterFailedLogin(Refusal(r.error)) == FreshLogin
  {
    LoginBannerCases(Response(401, Some(Auth.InvalidCredentials)));
    assert |WrongCredentials| != |InactiveAccount|;
  }

  /** A deactivated user whose password is right is refused like a
      stranger: the `catch` computes the wrong-credentials text, not the
      inactive-account one, and the reload leaves a fresh login page. */
  lemma DeactivatedUserRefusedLikeStranger(t: Table<Users.User>, id: int, password: string,
                                            verify: (string, string) -> bool, token: Users.User -> string)
    requires ValidIds(t) && id in t.rows && UniqueEmails(t, Users.EmailOf)
    ensures var u := Users.DeleteUser(Users.Signed(Users.AdminRole), t, id).value;
      var r := Auth.Login(u, t.rows[id].email, password, verify, token);
      r.Failure? && LoginBanner(Refusal(r.error)) == WrongCredentials
      && AfterFailedLogin(Refusal(r.error)) == FreshLogin
  {
    Auth.NoLoginAfterDelete(t, id, password, verify, token);
    LoginBannerCases(Response(401, Some(Auth.InvalidCredentials)));
  }
}
