/** The authorization rules of the service's filter chain and the mapping
    from token claims to granted authorities, as pure functions. Verifying
    the token itself is outside this module: it starts from verified claims. */
module Security {
  import opened Wrappers

  datatype HttpMethod = GET | HEAD | POST | PUT | PATCH | DELETE | OPTIONS | TRACE

  /** A request path split at '/': "/" is [], "/books/123" is ["books", "123"]. */
  type Path = seq<string>

  datatype Request = Request(httpMethod: HttpMethod, path: Path)

  /** A decoded, verified JWT: its `sub` claim (None when the token has
      none, which verification does not reject) and its list-valued claims. */
  datatype Jwt = Jwt(subject: Option<string>, claims: map<string, seq<string>>)

  /** The authentication a request carries: a principal name (None for
      Java's null) and the authorities granted to it. */
  datatype JwtAuthentication = JwtAuthentication(name: Option<string>, authorities: seq<string>)

  datatype Decision = Allow | Unauthenticated | Forbidden

  // ---------------------------------------------------------------------
  // Claims to authorities

  /** The prefix the converter puts before every role. */
  const AuthorityPrefix := "ROLE_"

  /** The claim the converter reads the roles from. */
  const AuthoritiesClaimName := "roles"

  /** One authority per role, prefixed, in the order of the roles. */
  function Prefixed(roles: seq<string>): (authorities: seq<string>)
    ensures |authorities| == |roles|
    ensures forall i | 0 <= i < |roles| :: authorities[i] == AuthorityPrefix + roles[i]
  {
    if roles == [] then [] else [AuthorityPrefix + roles[0]] + Prefixed(roles[1..])
  }

  /** The authorities granted by a token: its prefixed roles, none when it
      has no roles claim. */
  function GrantedAuthorities(jwt: Jwt): (authorities: seq<string>)
    ensures AuthoritiesClaimName !in jwt.claims ==> authorities == []
    ensures AuthoritiesClaimName in jwt.claims ==>
      |authorities| == |jwt.claims[AuthoritiesClaimName]| &&
      forall i | 0 <= i < |authorities| :: authorities[i] == AuthorityPrefix + jwt.claims[AuthoritiesClaimName][i]
  {
    if AuthoritiesClaimName in jwt.claims then Prefixed(jwt.claims[AuthoritiesClaimName]) else []
  }

  /** The authentication built from a token: named after its subject, so
      nameless when the token has no `sub` claim. */
  function Convert(jwt: Jwt): (auth: JwtAuthentication)
    ensures auth.name == jwt.subject
    ensures auth.authorities == GrantedAuthorities(jwt)
  {
    JwtAuthentication(jwt.subject, GrantedAuthorities(jwt))
  }

  /** The authorities of a token are exactly the prefixed roles of its roles
      claim, in order; a prefixed authority is granted exactly when the bare
      role is in the claim. */
  lemma {:induction false} AuthoritiesAreTheRoles(jwt: Jwt, role: string)
    ensures AuthoritiesClaimName !in jwt.claims ==> Convert(jwt).authorities == []
    ensures AuthoritiesClaimName in jwt.claims ==>
      var roles := jwt.claims[AuthoritiesClaimName];
      |Convert(jwt).authorities| == |roles| &&
      forall i | 0 <= i < |roles| :: Convert(jwt).authorities[i] == AuthorityPrefix + roles[i]
    ensures AuthorityPrefix + role in Convert(jwt).authorities <==>
      AuthoritiesClaimName in jwt.claims && role in jwt.claims[AuthoritiesClaimName]
  {
    if AuthoritiesClaimName in jwt.claims {
      var roles := jwt.claims[AuthoritiesClaimName];
      var granted := Prefixed(roles);
      if AuthorityPrefix + role in granted {
        var i :| 0 <= i < |granted| && granted[i] == AuthorityPrefix + role;
        PrefixCancels(roles[i], role);
      }
      if role in roles {
        var i :| 0 <= i < |roles| && roles[i] == role;
        assert granted[i] == AuthorityPrefix + role;
      }
    }
  }

  lemma PrefixCancels(a: string, b: string)
    requires AuthorityPrefix + a == AuthorityPrefix + b
    ensures a == b
  {
    assert a == (AuthorityPrefix + a)[|AuthorityPrefix|..];
    assert b == (AuthorityPrefix + b)[|AuthorityPrefix|..];
  }

  // ---------------------------------------------------------------------
  // The rule table

  /** An exact pattern matches the one path it names; a pattern ending in
      a double star matches every path that starts with its segments,
      the bare prefix itself included.  */
  datatype PathPattern = Exact(segments: Path) | Prefix(segments: Path)

  predicate PatternMatches(p: PathPattern, path: Path) {
    match p
    case Exact(s) => path == s
    case Prefix(s) => s <= path
  }

  /** A request matcher: any request, or an optional method with a list
      of path patterns of which one must match. */
  datatype RequestMatcher = AnyRequest | Matcher(httpMethod: Option<HttpMethod>, patterns: seq<PathPattern>)

  predicate Matches(m: RequestMatcher, req: Request) {
    match m
    case AnyRequest => true
    case Matcher(httpMethod, patterns) =>
      (httpMethod.None? || httpMethod.value == req.httpMethod) &&
      exists i | 0 <= i < |patterns| :: PatternMatches(patterns[i], req.path)
  }

  /** What a rule demands of the request's authentication. */
  datatype Access = PermitAll | DenyAll | HasAuthority(authority: string)

  /** The prefix a role-based rule puts before its role name. */
  const RolePrefix := "ROLE_"

  function HasRole(role: string): Access {
    HasAuthority(RolePrefix + role)
  }

  datatype Rule = Rule(matcher: RequestMatcher, access: Access)

  /** The service's rules, in the order they are tried. */
  const FilterChain: seq<Rule> := [
    Rule(Matcher(None, [Prefix(["actuator"])]), PermitAll),
    Rule(Matcher(Some(GET), [Exact([]), Prefix(["books"])]), PermitAll),
    Rule(AnyRequest, HasRole("employee"))
  ]

  /** Rule `i` is the first in `rules` that matches `req`. */
  predicate FirstMatching(rules: seq<Rule>, req: Request, i: nat)
    requires i < |rules|
  {
    Matches(rules[i].matcher, req) && forall j | 0 <= j < i :: !Matches(rules[j].matcher, req)
  }

  /** The access of the first rule that matches, if any does. */
  function FirstMatch(rules: seq<Rule>, req: Request): (access: Option<Access>)
    ensures access.None? <==> forall i | 0 <= i < |rules| :: !Matches(rules[i].matcher, req)
    ensures access.Some? ==> exists i: nat | i < |rules| :: FirstMatching(rules, req, i) && access.value == rules[i].access
  {
    if rules == [] then None
    else if Matches(rules[0].matcher, req) then
      assert FirstMatching(rules, req, 0);
      Some(rules[0].access)
    else
      var rest := FirstMatch(rules[1..], req);
      if rest.Some? then
        var k: nat :| k < |rules| - 1 && FirstMatching(rules[1..], req, k) && rest.value == rules[1..][k].access;
        assert FirstMatching(rules, req, k + 1);
        rest
      else
        rest
  }

  /** The first matching rule is the one whose access applies. */
  lemma {:induction false} FirstMatchIsFirstMatching(rules: seq<Rule>, req: Request, i: nat)
    requires i < |rules| && FirstMatching(rules, req, i)
    ensures FirstMatch(rules, req) == Some(rules[i].access)
  {
    if i > 0 {
      assert !Matches(rules[0].matcher, req);
      assert FirstMatching(rules[1..], req, i - 1) by {
        forall j | 0 <= j < i - 1 ensures !Matches(rules[1..][j].matcher, req) {
          assert rules[1..][j] == rules[j + 1];
        }
      }
      FirstMatchIsFirstMatching(rules[1..], req, i - 1);
    }
  }

  /** What a rule's access demand makes of the request's authentication.
      A denied request without authentication is asked to authenticate. */
  function Authorize(access: Access, auth: Option<JwtAuthentication>): (d: Decision)
    ensures d == Allow <==>
      access.PermitAll? || (access.HasAuthority? && auth.Some? && access.authority in auth.value.authorities)
    ensures d == Unauthenticated <==> d != Allow && auth.None?
    ensures d == Forbidden <==> d != Allow && auth.Some?
  {
    match access
    case PermitAll => Allow
    case DenyAll => if auth.None? then Unauthenticated else Forbidden
    case HasAuthority(a) =>
      if auth.None? then Unauthenticated
      else if a in auth.value.authorities then Allow
      else Forbidden
  }

  /** First-match evaluation of a rule table; a request no rule matches is denied. */
  function Evaluate(rules: seq<Rule>, req: Request, auth: Option<JwtAuthentication>): (d: Decision)
    ensures auth.None? ==> (d == Allow <==> FirstMatch(rules, req) == Some(PermitAll))
    ensures auth.None? ==> d != Forbidden
    ensures auth.Some? ==> d != Unauthenticated
    ensures (forall i | 0 <= i < |rules| :: !Matches(rules[i].matcher, req)) ==> d != Allow
  {
    match FirstMatch(rules, req)
    case Some(access) => Authorize(access, auth)
    case None => Authorize(DenyAll, auth)
  }

  /** The service's decision for one request: the first-match evaluation
      of its rule table, which is the policy stated below. */
  function Decide(req: Request, auth: Option<JwtAuthentication>): (d: Decision)
    ensures d == Policy(req, auth)
  {
    DecideFollowsPolicy(req, auth);
    Evaluate(FilterChain, req, auth)
  }

  /** The decision for a request carrying a verified token, or none: the
      token is converted to an authentication and the table decides. A
      request with a token is never turned away as unauthenticated, and
      one without is let through exactly when it is public. */
  function DecideForToken(req: Request, token: Option<Jwt>): (d: Decision)
    ensures d == Policy(req, token.Map(Convert))
    ensures token.Some? ==> d != Unauthenticated
    ensures token.None? ==> (d == Allow <==> IsPublic(req))
  {
    Decide(req, token.Map(Convert))
  }

  // ---------------------------------------------------------------------
  // The policy the table encodes

  /** Operational endpoints, the root page and reads of books are public. */
  predicate IsPublic(req: Request) {
    (|req.path| > 0 && req.path[0] == "actuator") ||
    (req.httpMethod == GET && (req.path == [] || req.path[0] == "books"))
  }

  /** The access policy, stated directly. */
  function Policy(req: Request, auth: Option<JwtAuthentication>): Decision {
    if IsPublic(req) then Allow
    else if auth.None? then Unauthenticated
    else if "ROLE_employee" in auth.value.authorities then Allow
    else Forbidden
  }

  /** The table never falls through: its last rule matches every request. */
  lemma FilterChainIsTotal(req: Request)
    ensures FirstMatch(FilterChain, req).Some?
  {
    assert Matches(FilterChain[2].matcher, req);
  }

  /** A one-segment prefix pattern matches the paths that start with that segment. */
  lemma PrefixOfOneSegment(segment: string, path: Path)
    ensures PatternMatches(Prefix([segment]), path) <==> |path| > 0 && path[0] == segment
  {
    if |path| > 0 && path[0] == segment {
      assert [segment] == path[..1];
    }
  }

  /** The first rule matches exactly the paths under /actuator. */
  lemma FirstRuleMatches(req: Request)
    ensures Matches(FilterChain[0].matcher, req) <==> |req.path| > 0 && req.path[0] == "actuator"
  {
    var m := FilterChain[0].matcher;
    PrefixOfOneSegment("actuator", req.path);
    assert Matches(m, req) <==> PatternMatches(m.patterns[0], req.path);
  }

  /** The second rule matches exactly GET on / and under /books. */
  lemma SecondRuleMatches(req: Request)
    ensures Matches(FilterChain[1].matcher, req) <==>
      req.httpMethod == GET && (req.path == [] || req.path[0] == "books")
  {
    var m := FilterChain[1].matcher;
    PrefixOfOneSegment("books", req.path);
    assert Matches(m, req) <==>
      req.httpMethod == GET && (PatternMatches(m.patterns[0], req.path) || PatternMatches(m.patterns[1], req.path));
  }

  /** First-match evaluation of the table decides as the policy says. */
  lemma DecideFollowsPolicy(req: Request, auth: Option<JwtAuthentication>)
    ensures Evaluate(FilterChain, req, auth) == Policy(req, auth)
  {
    FirstRuleMatches(req);
    SecondRuleMatches(req);
    if Matches(FilterChain[0].matcher, req) {
      FirstMatchIsFirstMatching(FilterChain, req, 0);
    } else if Matches(FilterChain[1].matcher, req) {
      FirstMatchIsFirstMatching(FilterChain, req, 1);
    } else {
      assert Matches(FilterChain[2].matcher, req);
      FirstMatchIsFirstMatching(FilterChain, req, 2);
      assert HasRole("employee") == HasAuthority("ROLE_employee");
    }
  }

  /** Any request under /actuator/ is allowed, whatever its method and authentication. */
  lemma ActuatorIsOpen(httpMethod: HttpMethod, rest: Path, auth: Option<JwtAuthentication>)
    ensures Decide(Request(httpMethod, ["actuator"] + rest), auth) == Allow
  {
    DecideFollowsPolicy(Request(httpMethod, ["actuator"] + rest), auth);
  }

  /** GET on / and under /books/ is allowed with or without a token. */
  lemma BookReadsArePublic(rest: Path, auth: Option<JwtAuthentication>)
    ensures Decide(Request(GET, []), auth) == Allow
    ensures Decide(Request(GET, ["books"] + rest), auth) == Allow
  {
    DecideFollowsPolicy(Request(GET, []), auth);
    DecideFollowsPolicy(Request(GET, ["books"] + rest), auth);
  }

  /** Every other request is allowed exactly when ROLE_employee is granted;
      without authentication it is Unauthenticated, with authentication but
      without the role it is Forbidden. */
  lemma OtherRequestsNeedEmployee(req: Request, auth: Option<JwtAuthentication>)
    requires !IsPublic(req)
    ensures Decide(req, auth) == Allow <==> auth.Some? && "ROLE_employee" in auth.value.authorities
    ensures auth.None? ==> Decide(req, auth) == Unauthenticated
    ensures auth.Some? && "ROLE_employee" !in auth.value.authorities ==> Decide(req, auth) == Forbidden
  {
    DecideFollowsPolicy(req, auth);
  }

  /** For a token, the employee role in its roles claim is what opens the
      protected requests. */
  lemma ProtectedRequestNeedsEmployeeRole(req: Request, jwt: Jwt)
    requires !IsPublic(req)
    ensures DecideForToken(req, Some(jwt)) == Allow <==>
      AuthoritiesClaimName in jwt.claims && "employee" in jwt.claims[AuthoritiesClaimName]
    ensures DecideForToken(req, Some(jwt)) != Unauthenticated
  {
    assert Some(jwt).Map(Convert) == Some(Convert(jwt));
    DecideFollowsPolicy(req, Some(Convert(jwt)));
    AuthoritiesAreTheRoles(jwt, "employee");
    assert AuthorityPrefix + "employee" == "ROLE_employee";
  }

  /** The outcomes the controller's web tests expect, for ISBN 7373731394. */
  lemma ControllerDecisions()
    ensures var book := ["books", "7373731394"];
      var employee := Some(JwtAuthentication(Some("user"), ["ROLE_employee"]));
      var customer := Some(JwtAuthentication(Some("user"), ["ROLE_customer"]));
      var scoped := Some(JwtAuthentication(Some("user"), ["SCOPE_read"]));
      Decide(Request(GET, book), scoped) == Allow &&
      Decide(Request(GET, book), None) == Allow &&
      Decide(Request(DELETE, book), employee) == Allow &&
      Decide(Request(DELETE, book), customer) == Forbidden &&
      Decide(Request(DELETE, book), None) == Unauthenticated &&
      Decide(Request(POST, ["books"]), employee) == Allow &&
      Decide(Request(POST, ["books"]), customer) == Forbidden &&
      Decide(Request(POST, ["books"]), None) == Unauthenticated &&
      Decide(Request(PUT, book), employee) == Allow &&
      Decide(Request(PUT, book), customer) == Forbidden &&
      Decide(Request(PUT, book), None) == Unauthenticated
  {
    var book := ["books", "7373731394"];
    var employee := Some(JwtAuthentication(Some("user"), ["ROLE_employee"]));
    var customer := Some(JwtAuthentication(Some("user"), ["ROLE_customer"]));
    var scoped := Some(JwtAuthentication(Some("user"), ["SCOPE_read"]));
    assert "ROLE_employee" != "ROLE_customer";
    assert !IsPublic(Request(DELETE, book)) && !IsPublic(Request(PUT, book)) && !IsPublic(Request(POST, ["books"]));
    assert IsPublic(Request(GET, book));
  }

  // ---------------------------------------------------------------------
  // Sessions

  /** The four session creation policies by name. Only `Stateless`, the
      service's own, is modelled as the framework applies it (no session
      is read or written). For the other three, HandleRequest below uses a
      simplified session-keeping model that serves only as the contrast
      against which statelessness is stated; it is not the framework's
      exact behaviour for those policies. */
  datatype SessionCreationPolicy = Always | IfRequired | Never | Stateless

  /** The service's policy: no session is created or used. */
  const SessionPolicy := Stateless

  /** Handles one request given the authentication its session holds
      (`kept`, None when there is none) and returns the decision and what
      the session holds afterwards. Under `Stateless` the session is
      neither read nor written. The other policies follow an illustrative
      session-keeping model, not the framework's own rules: the request's
      own token wins, a request without one is decided with the kept
      authentication, and `Always` and `IfRequired` keep the
      authentication a request was decided with. */
  function HandleRequest(
    policy: SessionCreationPolicy, kept: Option<JwtAuthentication>,
    req: Request, token: Option<JwtAuthentication>): (handled: (Decision, Option<JwtAuthentication>))
    ensures token.Some? ==> handled.0 == Decide(req, token)
    ensures policy == Stateless ==> handled == (Decide(req, token), kept)
    ensures policy == Never ==> handled.1 == kept
  {
    var auth := if token.Some? || policy == Stateless then token else kept;
    var keptAfter := if (policy == Always || policy == IfRequired) && auth.Some? then auth else kept;
    (Decide(req, auth), keptAfter)
  }

  /** The decisions for a stream of requests, each with its own token or
      none, handled one after the other on one session. */
  function Serve(
    policy: SessionCreationPolicy, kept: Option<JwtAuthentication>,
    requests: seq<(Request, Option<JwtAuthentication>)>): (decisions: seq<Decision>)
    ensures |decisions| == |requests|
    decreases |requests|
  {
    if requests == [] then []
    else
      var (d, keptAfter) := HandleRequest(policy, kept, requests[0].0, requests[0].1);
      [d] + Serve(policy, keptAfter, requests[1..])
  }

  /** Stateless handling neither reads nor writes the session: the decision
      is the request's own, and the session holds what it held before. */
  lemma StatelessHandlingIgnoresSession(kept: Option<JwtAuthentication>, req: Request, token: Option<JwtAuthentication>)
    ensures HandleRequest(SessionPolicy, kept, req, token) == (Decide(req, token), kept)
  {
  }

  /** Under the service's policy every decision in a stream is that
      request's own decision, whatever the session held at the start. */
  lemma {:induction false} StatelessServeDecidesEachAlone(
    kept: Option<JwtAuthentication>, requests: seq<(Request, Option<JwtAuthentication>)>, i: nat)
    requires i < |requests|
    ensures Serve(SessionPolicy, kept, requests)[i] == Decide(requests[i].0, requests[i].1)
  {
    StatelessHandlingIgnoresSession(kept, requests[0].0, requests[0].1);
    if i > 0 {
      StatelessServeDecidesEachAlone(kept, requests[1..], i - 1);
    }
  }

  /** Under the service's policy, whatever two histories and sessions came
      before it, a request gets the same decision. */
  lemma StatelessIgnoresHistory(
    earlier: seq<(Request, Option<JwtAuthentication>)>, kept: Option<JwtAuthentication>,
    other: seq<(Request, Option<JwtAuthentication>)>, otherKept: Option<JwtAuthentication>,
    req: Request, token: Option<JwtAuthentication>)
    ensures Serve(SessionPolicy, kept, earlier + [(req, token)])[|earlier|] ==
            Serve(SessionPolicy, otherKept, other + [(req, token)])[|other|]
  {
    StatelessServeDecidesEachAlone(kept, earlier + [(req, token)], |earlier|);
    StatelessServeDecidesEachAlone(otherKept, other + [(req, token)], |other|);
  }

  /** The policy matters: in the illustrative session-keeping model, a
      session kept after an employee's request would let a later request
      without a token through; stateless, that request is asked to
      authenticate. */
  lemma SessionWouldCarryAuthentication()
    ensures var delete := Request(DELETE, ["books", "7373731394"]);
      var employee := Some(JwtAuthentication(Some("user"), ["ROLE_employee"]));
      Serve(IfRequired, None, [(delete, employee), (delete, None)]) == [Allow, Allow] &&
      Serve(SessionPolicy, None, [(delete, employee), (delete, None)]) == [Allow, Unauthenticated]
  {
    var delete := Request(DELETE, ["books", "7373731394"]);
    var employee := Some(JwtAuthentication(Some("user"), ["ROLE_employee"]));
    var requests := [(delete, employee), (delete, None)];
    assert requests[1..] == [(delete, None)];
    assert requests[1..][1..] == [];
  }
}
