/**
 * The login action: a first-match search of the roster by e-mail address (ASCII case
 * ignored) and password (exact). Nothing is stored; there is no session or token.
 */
module Auth {
  import opened Wrappers
  import opened Text
  import opened Sequences
  import opened Models

  datatype LoginRequest = LoginRequest(email: Option<string>, password: Option<string>)

  /** The success body. Its fields carry the agent's id (as decimal text) under the name
      Email and the agent's e-mail address under the name Password. */
  datatype LoginResponse = LoginResponse(email: string, password: string)

  const CredentialsRequired: string := "Email and password are required."
  const InvalidCredentials: string := "Invalid email or password."

  /** The roster agent has this e-mail address, ignoring case, and exactly this password. */
  predicate IsMatch(a: Agent, email: string, password: string) {
    EqualsIgnoreCase(a.email, email) && a.password == password
  }

  function Matches(email: string, password: string): Agent -> bool {
    (a: Agent) => IsMatch(a, email, password)
  }

  /** POST login. */
  function Login(roster: seq<Agent>, req: LoginRequest): (r: Response<LoginResponse>)
    ensures r.Ok? || r.BadRequest? || r.Unauthorized?
    ensures r.BadRequest? <==> IsNullOrWhiteSpace(req.email) || IsNullOrWhiteSpace(req.password)
    ensures r.BadRequest? ==> r.error == CredentialsRequired
    ensures r.Unauthorized? <==>
      !r.BadRequest? && forall i :: 0 <= i < |roster| ==> !IsMatch(roster[i], req.email.value, req.password.value)
    ensures r.Unauthorized? ==> r.error == InvalidCredentials
    ensures r.Ok? ==>
      exists i :: 0 <= i < |roster| && IsMatch(roster[i], req.email.value, req.password.value) &&
        (forall j :: 0 <= j < i ==> !IsMatch(roster[j], req.email.value, req.password.value)) &&
        r.value == LoginResponse(IntToDecimal(roster[i].id), roster[i].email)
  {
    if IsNullOrWhiteSpace(req.email) || IsNullOrWhiteSpace(req.password) then
      BadRequest(CredentialsRequired)
    else
      match FirstIndex(roster, Matches(req.email.value, req.password.value))
      case None => Unauthorized(InvalidCredentials)
      case Some(i) => Ok(LoginResponse(IntToDecimal(roster[i].id), roster[i].email))
  }

  /** Two addresses equal up to ASCII case are blank together: case folding never turns a
      white-space character into anything else. */
  lemma {:induction false} EqualsIgnoreCaseKeepsBlank(e1: string, e2: string)
    requires EqualsIgnoreCase(e1, e2)
    ensures AllWhiteSpace(DotNet, e1) <==> AllWhiteSpace(DotNet, e2)
  {
    forall k | 0 <= k < |e1| ensures IsWhiteSpace(DotNet, e1[k]) <==> IsWhiteSpace(DotNet, e2[k]) {
      assert ToUpperAscii(e1[k]) == ToUpperAscii(e2[k]);
    }
  }

  /** The e-mail comparison ignores case: logging in with any casing of an address gives the
      same answer. */
  lemma {:induction false} LoginIgnoresEmailCase(roster: seq<Agent>, e1: string, e2: string, password: Option<string>)
    requires EqualsIgnoreCase(e1, e2)
    ensures Login(roster, LoginRequest(Some(e1), password)) == Login(roster, LoginRequest(Some(e2), password))
  {
    EqualsIgnoreCaseKeepsBlank(e1, e2);
    if password.Some? {
      forall i | 0 <= i < |roster|
        ensures IsMatch(roster[i], e1, password.value) <==> IsMatch(roster[i], e2, password.value)
      {
        if |roster[i].email| == |e1| {
          forall k | 0 <= k < |e1| ensures ToUpperAscii(roster[i].email[k]) == ToUpperAscii(e1[k]) <==> ToUpperAscii(roster[i].email[k]) == ToUpperAscii(e2[k]) {
            assert ToUpperAscii(e1[k]) == ToUpperAscii(e2[k]);
          }
        }
      }
      var f1 := FirstIndex(roster, Matches(e1, password.value));
      var f2 := FirstIndex(roster, Matches(e2, password.value));
      if f1.Some? && f2.Some? {
        assert !(f1.value < f2.value) && !(f2.value < f1.value);
      }
    }
  }

  /** Every roster agent with a non-blank address and password can log in with them; when no
      other agent has the same address (ignoring case) the answer names that agent. */
  lemma {:induction false} RosterAgentCanLogIn(roster: seq<Agent>, k: int)
    requires 0 <= k < |roster|
    requires !AllWhiteSpace(DotNet, roster[k].email) && !AllWhiteSpace(DotNet, roster[k].password)
    ensures Login(roster, LoginRequest(Some(roster[k].email), Some(roster[k].password))).Ok?
    ensures (forall j :: 0 <= j < |roster| && j != k ==> !EqualsIgnoreCase(roster[j].email, roster[k].email)) ==>
      Login(roster, LoginRequest(Some(roster[k].email), Some(roster[k].password))).value
        == LoginResponse(IntToDecimal(roster[k].id), roster[k].email)
  {
    assert IsMatch(roster[k], roster[k].email, roster[k].password);
  }

  /** The request fields are compared as sent: an address with a leading space does not match. */
  lemma LoginDoesNotTrim()
    ensures Login([Agent(1, "ana@example.com", "pw", "Ana")], LoginRequest(Some(" ana@example.com"), Some("pw")))
         == Unauthorized(InvalidCredentials)
  {
    var email, password := " ana@example.com", "pw";
    assert !IsWhiteSpace(DotNet, email[1]) && !IsWhiteSpace(DotNet, password[0]);
    assert !IsMatch(Agent(1, "ana@example.com", "pw", "Ana"), email, password);
  }
}
