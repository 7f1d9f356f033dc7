/** The account-activation page (`verify-email.ts`): it checks the token
    from the route, classifies the server's answer into a view status and
    message, validates the address typed for a new activation email, and
    guards the resend and retry actions. Server calls appear as effects the
    page asks for; their answers come back as inputs. */
module VerifyEmail {
  import opened Wrappers
  import Text

  datatype Status = Loading | Success | Error | Expired

  /** The page's signals and its route token. `message` is `None` when the
      server's answer carried no message. */
  datatype Page = Page(
    status: Status,
    message: Option<string>,
    email: string,
    resendEmail: string,
    isResending: bool,
    emailError: string,
    token: Option<string>)

  /** A server call the page starts. */
  datatype Effect = NoCall | VerifyCall(token: string) | ResendCall(email: string)

  const InitialMessage: string := "Vérification de votre email en cours..."
  const MissingTokenMessage: string := "Token d'activation manquant"
  const InvalidTokenMessage: string := "Le lien d'activation est invalide ou a déjà été utilisé."
  const UnexpectedMessage: string := "Une erreur inattendue s'est produite."
  const RetryMessage: string := "Nouvelle tentative de vérification..."
  const InvalidEmailMessage: string := "Format d'email invalide"
  const LoginRoute: string := "/authentification"

  /** A text value read as JavaScript truthiness. */
  predicate Truthy(v: Option<string>)
  {
    v.Some? && v.value != ""
  }

  /** `value || ''` */
  function OrEmpty(v: Option<string>): (r: string)
    ensures Truthy(v) ==> r == v.value
    ensures !Truthy(v) ==> r == ""
  {
    if Truthy(v) then v.value else ""
  }

  /** The page before `ngOnInit`. */
  function Blank(): Page
  {
    Page(Loading, Some(InitialMessage), "", "", false, "", None)
  }

  /** `handleError`: status error with the given message. */
  function HandleError(p: Page, message: Option<string>): (r: Page)
    ensures r == p.(status := Error, message := message)
  {
    p.(status := Error, message := message)
  }

  /** `ngOnInit`: a missing or empty route token is an error without any
      server call; otherwise the token is sent for verification. */
  function Init(routeToken: Option<string>): (r: (Page, Effect))
    ensures !Truthy(routeToken) ==> r.0.status == Error && r.0.message == Some(MissingTokenMessage) && r.1 == NoCall
    ensures Truthy(routeToken) ==> r.0.status == Loading && r.0.message == Some(InitialMessage)
                                   && r.1 == VerifyCall(routeToken.value)
    ensures r.0.token == routeToken
  {
    var p := Blank().(token := routeToken);
    if !Truthy(routeToken) then (HandleError(p, Some(MissingTokenMessage)), NoCall)
    else (p, VerifyCall(routeToken.value))
  }

  /** The `errors` object of a failed verification. */
  datatype ErrorDetail = ErrorDetail(errorCode: Option<string>, message: Option<string>, email: Option<string>)

  /** The answer to a verification request: a response (whose `data` may
      carry an email), or an HTTP error whose body may or may not hold an
      `errors` object. */
  datatype VerifyOutcome =
    | Answered(success: bool, message: Option<string>, dataEmail: Option<string>)
    | Failed(errors: Option<ErrorDetail>)

  /** `handleSuccess`: status success, the server's message, and the email
      from the response data or the empty string. */
  function HandleSuccess(p: Page, message: Option<string>, dataEmail: Option<string>): (r: Page)
    ensures r.status == Success && r.message == message && r.email == OrEmpty(dataEmail)
    ensures r == p.(status := r.status, message := r.message, email := r.email)
  {
    p.(status := Success, message := message, email := OrEmpty(dataEmail))
  }

  /** `handleErrorResponse`: an expired token shows the expired view and
      pre-fills both addresses; every other code is an error, with the
      server's message for an already activated account, a fixed message for
      an invalid token, and the server's message or a generic one otherwise. */
  function HandleErrorResponse(p: Page, e: ErrorDetail): (r: Page)
    ensures r.status == Expired <==> e.errorCode == Some("TOKEN_EXPIRED")
    ensures r.status != Expired ==> r.status == Error && r.email == p.email && r.resendEmail == p.resendEmail
    ensures r.status == Expired ==> r.message == e.message && r.email == OrEmpty(e.email) && r.resendEmail == OrEmpty(e.email)
    ensures e.errorCode == Some("ALREADY_ACTIVATED") ==> r.message == e.message
    ensures e.errorCode == Some("INVALID_TOKEN") ==> r.message == Some(InvalidTokenMessage)
    ensures e.errorCode !in {Some("TOKEN_EXPIRED"), Some("ALREADY_ACTIVATED"), Some("INVALID_TOKEN")} ==>
              r.message == Some(if Truthy(e.message) then e.message.value else UnexpectedMessage)
    ensures r == p.(status := r.status, message := r.message, email := r.email, resendEmail := r.resendEmail)
  {
    match e.errorCode
    case Some("TOKEN_EXPIRED") =>
      p.(status := Expired, message := e.message, email := OrEmpty(e.email), resendEmail := OrEmpty(e.email))
    case Some("ALREADY_ACTIVATED") => HandleError(p, e.message)
    case Some("INVALID_TOKEN") => HandleError(p, Some(InvalidTokenMessage))
    case _ => HandleError(p, Some(if Truthy(e.message) then e.message.value else UnexpectedMessage))
  }

  /** The verification subscription: a successful response is handled, an
      unsuccessful one leaves the page loading; an error without an `errors`
      object throws inside the handler and leaves the page as it was. */
  function OnVerifyResult(p: Page, outcome: VerifyOutcome): (r: Page)
    ensures outcome.Answered? && outcome.success ==> r.status == Success
    ensures outcome.Answered? && !outcome.success ==> r == p
    ensures outcome.Failed? && outcome.errors.None? ==> r == p
    ensures outcome.Failed? && outcome.errors.Some? ==> r.status in {Error, Expired}
    ensures outcome.Answered? && outcome.success ==> r == HandleSuccess(p, outcome.message, outcome.dataEmail)
    ensures outcome.Failed? && outcome.errors.Some? ==> r == HandleErrorResponse(p, outcome.errors.value)
  {
    match outcome
    case Answered(success, message, dataEmail) =>
      if success then HandleSuccess(p, message, dataEmail) else p
    case Failed(errors) =>
      match errors
      case None => p
      case Some(e) => HandleErrorResponse(p, e)
  }

  // ---------------------------------------------------------------------------
  // The email shape check
  // ---------------------------------------------------------------------------

  /** A character allowed in each part of the pattern: neither `\s` nor `@`. */
  predicate Plain(c: char)
  {
    !Text.IsWhitespace(c) && c != '@'
  }

  /** One `[^\s@]+` run. */
  predicate Part(x: string)
  {
    |x| >= 1 && forall k :: 0 <= k < |x| ==> Plain(x[k])
  }

  /** The pattern `^[^\s@]+@[^\s@]+\.[^\s@]+$` read as a decomposition: some
      local part, an `@`, a domain part, a dot and a last part. */
  ghost predicate MatchesEmailPattern(s: string)
  {
    exists a: string, b: string, c: string :: Part(a) && Part(b) && Part(c) && s == a + "@" + b + "." + c
  }

  /** The position of the first `@`, or the length when there is none. */
  function FirstAt(s: string): (i: nat)
    ensures i <= |s|
    ensures forall k :: 0 <= k < i ==> s[k] != '@'
    ensures i < |s| ==> s[i] == '@'
  {
    if s == [] || s[0] == '@' then 0 else 1 + FirstAt(s[1..])
  }

  /** A dot with at least one character on each side. */
  predicate InnerDot(d: string)
  {
    exists k :: 1 <= k < |d| - 1 && d[k] == '.'
  }

  /** The check as the page runs it: no whitespace, a first `@` that is not
      the first character, no second `@`, and an inner dot after the `@`. */
  predicate EmailShape(s: string)
  {
    var i := FirstAt(s);
    (forall k :: 0 <= k < |s| ==> !Text.IsWhitespace(s[k]))
    && 1 <= i < |s| && '@' !in s[i + 1..] && InnerDot(s[i + 1..])
  }

  /** The scan accepts exactly the texts the pattern matches. */
  lemma EmailShapeMatchesPattern(s: string)
    ensures EmailShape(s) <==> MatchesEmailPattern(s)
  {
    if EmailShape(s) {
      ShapeGivesPattern(s);
    }
    if MatchesEmailPattern(s) {
      var a: string, b: string, c: string :| Part(a) && Part(b) && Part(c) && s == a + "@" + b + "." + c;
      PatternGivesShape(a, b, c);
    }
  }

  /** Cutting at the first `@` and at an inner dot after it gives the three parts. */
  lemma ShapeGivesPattern(s: string)
    requires EmailShape(s)
    ensures MatchesEmailPattern(s)
  {
    var i := FirstAt(s);
    var d := s[i + 1..];
    var k :| 1 <= k < |d| - 1 && d[k] == '.';
    forall j | 0 <= j < |d|
      ensures Plain(d[j])
    {
      assert d[j] == s[i + 1 + j] && d[j] in d;
    }
    PlainSlice(d, 0, k);
    PlainSlice(d, k + 1, |d|);
    CutTwice(s, i, k);
    assert Part(s[..i]);
    assert s == s[..i] + "@" + d[..k] + "." + d[k + 1..];
  }

  /** Any non-empty slice of a text of plain characters is a part. */
  lemma PlainSlice(x: string, lo: nat, hi: nat)
    requires lo < hi <= |x|
    requires forall j :: 0 <= j < |x| ==> Plain(x[j])
    ensures Part(x[lo..hi])
  {
    forall j | 0 <= j < hi - lo
      ensures Plain(x[lo..hi][j])
    {
      assert x[lo..hi][j] == x[lo + j];
    }
  }

  /** A text cut at an `@` and, after it, at a dot is the three pieces glued back. */
  lemma CutTwice(s: string, i: nat, k: nat)
    requires i < |s| && s[i] == '@' && k < |s[i + 1..]| && s[i + 1..][k] == '.'
    ensures s == s[..i] + "@" + s[i + 1..][..k] + "." + s[i + 1..][k + 1..]
  {
    var d := s[i + 1..];
    assert d == d[..k] + "." + d[k + 1..];
    assert s == s[..i] + [s[i]] + d;
  }

  /** Gluing three parts around an `@` and a dot passes the scan. */
  lemma PatternGivesShape(a: string, b: string, c: string)
    requires Part(a) && Part(b) && Part(c)
    ensures EmailShape(a + "@" + b + "." + c)
  {
    var d := b + "." + c;
    Glue(b, '.', c);
    assert forall k :: 0 <= k < |d| ==> Plain(d[k]);
    Glue(a, '@', d);
    AtAfterPlain(a, d);
    assert a + "@" + b + "." + c == a + "@" + d;
    assert InnerDot(d) by {
      assert 1 <= |b| < |d| - 1 && d[|b|] == '.';
    }
  }

  /** Plain text on both sides of a non-space character: no whitespace
      anywhere, and only the middle character may be an `@`. */
  lemma Glue(x: string, m: char, y: string)
    requires forall k :: 0 <= k < |x| ==> Plain(x[k])
    requires forall k :: 0 <= k < |y| ==> Plain(y[k])
    requires !Text.IsWhitespace(m)
    ensures forall k :: 0 <= k < |x + [m] + y| ==> !Text.IsWhitespace((x + [m] + y)[k])
    ensures forall k :: 0 <= k < |x + [m] + y| && k != |x| ==> Plain((x + [m] + y)[k])
    ensures (x + [m] + y)[|x|] == m && (x + [m] + y)[|x| + 1..] == y
  {
    var g := x + [m] + y;
    forall k | 0 <= k < |g| && k != |x|
      ensures Plain(g[k])
    {
      if k < |x| {
        assert g[k] == x[k];
      } else {
        assert g[k] == y[k - |x| - 1];
      }
    }
  }

  /** The first `@` of `a + "@" + d` sits right after an `@`-free `a`. */
  lemma {:induction false} AtAfterPlain(a: string, d: string)
    requires forall k :: 0 <= k < |a| ==> a[k] != '@'
    ensures FirstAt(a + "@" + d) == |a|
    decreases |a|
  {
    if a != [] {
      assert (a + "@" + d)[1..] == a[1..] + "@" + d;
      AtAfterPlain(a[1..], d);
    }
  }

  /** `validateEmail`: an empty address clears the error; otherwise the error
      is set exactly when the address fails the pattern. */
  function ValidateEmail(p: Page): (r: Page)
    ensures p.resendEmail == "" ==> r.emailError == ""
    ensures p.resendEmail != "" ==> (r.emailError == InvalidEmailMessage <==> !MatchesEmailPattern(p.resendEmail))
    ensures r.emailError in {"", InvalidEmailMessage}
    ensures r == p.(emailError := r.emailError)
  {
    EmailShapeMatchesPattern(p.resendEmail);
    if p.resendEmail == "" then p.(emailError := "")
    else if !EmailShape(p.resendEmail) then p.(emailError := InvalidEmailMessage)
    else p.(emailError := "")
  }

  // ---------------------------------------------------------------------------
  // Actions
  // ---------------------------------------------------------------------------

  /** `resendActivationEmail`: nothing happens for an empty address, while a
      resend is in flight, or while an address error is shown; otherwise the
      page marks itself resending and sends the address. */
  function Resend(p: Page): (r: (Page, Effect))
    ensures p.resendEmail == "" || p.isResending || p.emailError != "" ==> r == (p, NoCall)
    ensures !(p.resendEmail == "" || p.isResending || p.emailError != "") ==>
              r == (p.(isResending := true), ResendCall(p.resendEmail))
  {
    if p.resendEmail == "" || p.isResending || p.emailError != "" then (p, NoCall)
    else (p.(isResending := true), ResendCall(p.resendEmail))
  }

  /** The resend subscription: success and failure both clear `isResending`;
      success also schedules the return to the login page. */
  function OnResendResult(p: Page, succeeded: bool): (r: (Page, bool))
    ensures !r.0.isResending && r.0 == p.(isResending := false)
    ensures r.1 == succeeded
  {
    (p.(isResending := false), succeeded)
  }

  /** A resend never leaves the page stuck: whatever the outcome, another
      resend of the same address is allowed afterwards. */
  lemma ResendNotStuck(p: Page, succeeded: bool)
    requires Resend(p).1.ResendCall?
    ensures var q := OnResendResult(Resend(p).0, succeeded).0;
            Resend(q).1 == ResendCall(p.resendEmail)
  {
  }

  /** A malformed address blocks the resend once it has been validated. */
  lemma MalformedAddressBlocksResend(p: Page)
    requires p.resendEmail != "" && !MatchesEmailPattern(p.resendEmail)
    ensures Resend(ValidateEmail(p)).1 == NoCall
  {
  }

  /** `retry`: with a token, back to loading with the retry message and a new
      verification call; without one, nothing. */
  function Retry(p: Page): (r: (Page, Effect))
    ensures !Truthy(p.token) ==> r == (p, NoCall)
    ensures Truthy(p.token) ==> r == (p.(status := Loading, message := Some(RetryMessage)), VerifyCall(p.token.value))
  {
    if Truthy(p.token) then (p.(status := Loading, message := Some(RetryMessage)), VerifyCall(p.token.value))
    else (p, NoCall)
  }

  /** `goToLogin`: the login route, with `activated=true` only after success
      (an undefined query value is dropped by the router). */
  function GoToLogin(p: Page): (r: (string, seq<(string, string)>))
    ensures r.0 == LoginRoute
    ensures p.status == Success ==> r.1 == [("activated", "true")]
    ensures p.status != Success ==> r.1 == []
  {
    (LoginRoute, if p.status == Success then [("activated", "true")] else [])
  }

  /** A page opened without a token never reaches the server, and retrying it
      does nothing either. */
  lemma MissingTokenIsFinal(routeToken: Option<string>)
    requires !Truthy(routeToken)
    ensures Init(routeToken).1 == NoCall
    ensures Retry(Init(routeToken).0) == (Init(routeToken).0, NoCall)
  {
  }

  /** Only a successful verification sends `activated=true` to the login page. */
  lemma ActivatedOnlyAfterSuccess(p: Page, outcome: VerifyOutcome)
    ensures GoToLogin(OnVerifyResult(p, outcome)).1 == [("activated", "true")] <==>
              (outcome.Answered? && outcome.success) || (OnVerifyResult(p, outcome) == p && p.status == Success)
  {
  }
}
