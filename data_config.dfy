/** The auditor: the name that auditing stamps on created and modified
    books, taken from the security context of the current request. */
module Auditing {
  import opened Wrappers
  import Security

  /** An authentication as auditing sees it: a principal name (None for
      Java's null) and whether it is authenticated. */
  datatype Authentication = Authentication(name: Option<string>, authenticated: bool)

  /** A security context, which may hold no authentication. */
  datatype SecurityContext = SecurityContext(authentication: Option<Authentication>)

  /** The current auditor, given the current security context (None when
      there is none): the context's authentication, kept only when it is
      authenticated, reduced to its name; a null name empties the result. */
  function CurrentAuditor(context: Option<SecurityContext>): (auditor: Option<string>)
    ensures context.None? ==> auditor.None?
    ensures context.Some? && context.value.authentication.None? ==> auditor.None?
    ensures context.Some? && context.value.authentication.Some? && !context.value.authentication.value.authenticated
      ==> auditor.None?
    ensures context.Some? && context.value.authentication.Some? && context.value.authentication.value.authenticated
      ==> auditor == context.value.authentication.value.name
  {
    context
      .MapNullable((c: SecurityContext) => c.authentication)
      .Filter((a: Authentication) => a.authenticated)
      .MapNullable((a: Authentication) => a.name)
  }

  /** The security context of a request that passed the filter chain: the
      authentication built from its token, or none without a token. */
  function ContextOf(auth: Option<Security.JwtAuthentication>): (context: SecurityContext)
    ensures context.authentication.Some? <==> auth.Some?
    ensures auth.Some? ==> context.authentication.value == Authentication(auth.value.name, true)
  {
    SecurityContext(auth.Map((a: Security.JwtAuthentication) => Authentication(a.name, true)))
  }

  /** A request that changes books gets through only with an authentication,
      so the auditor of an admitted write is the principal's name: present
      whenever the authentication is named. */
  lemma AdmittedWriteHasAuditor(req: Security.Request, auth: Option<Security.JwtAuthentication>)
    requires !Security.IsPublic(req)
    requires Security.Decide(req, auth) == Security.Allow
    ensures auth.Some?
    ensures CurrentAuditor(Some(ContextOf(auth))) == auth.value.name
  {
    Security.DecideFollowsPolicy(req, auth);
  }

  /** For a verified token, the auditor of an admitted write is the token's
      `sub` claim: a token without one, but with the employee role, is let
      through and its write is audited with no name. */
  lemma AdmittedTokenWriteAuditedBySubject(req: Security.Request, jwt: Security.Jwt)
    requires !Security.IsPublic(req)
    requires Security.DecideForToken(req, Some(jwt)) == Security.Allow
    ensures CurrentAuditor(Some(ContextOf(Some(jwt).Map(Security.Convert)))) == jwt.subject
  {
    AdmittedWriteHasAuditor(req, Some(jwt).Map(Security.Convert));
  }

  /** A concrete case: an employee token with no `sub` claim is admitted to
      delete a book, and the auditor is empty. */
  lemma NamelessEmployeeWriteHasNoAuditor()
    ensures var jwt := Security.Jwt(None, map[Security.AuthoritiesClaimName := ["employee"]]);
      var req := Security.Request(Security.DELETE, ["books", "7373731394"]);
      Security.DecideForToken(req, Some(jwt)) == Security.Allow &&
      CurrentAuditor(Some(ContextOf(Some(jwt).Map(Security.Convert)))) == None
  {
    var jwt := Security.Jwt(None, map[Security.AuthoritiesClaimName := ["employee"]]);
    var req := Security.Request(Security.DELETE, ["books", "7373731394"]);
    Security.ProtectedRequestNeedsEmployeeRole(req, jwt);
  }
}
