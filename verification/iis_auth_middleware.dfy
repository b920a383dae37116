/**
 * QuickIISAuthMiddleware: hands the request on only when IIS has
 * authenticated the user (AUTH_TYPE Negotiate or NTLM, a non-empty AUTH_USER)
 * and the configuration accepts that user; otherwise answers 401.
 * The server variables are parameters; `None` is an unset variable.
 */
module IISAuthMiddleware {
  import opened Wrappers
  import opened IISAuthConfig

  /** The gate's answer: the handler's response (the handler was invoked), or the fixed 401 response. */
  datatype Response<R> = Handled(response: R) | Unauthorized(status: int, body: string)

  const StatusUnauthorized := 401
  const NotAuthorizedBody := "401 - Not Authorized"

  /** The constructor's `$config ?? new QuickIISAuthConfig()`: no config means no domain restriction. */
  function ConfiguredDomain(config: Option<Domain>): Domain
  {
    if config.Some? then config.value else Unset
  }

  predicate IsIntegratedAuthType(authType: Option<string>)
  {
    authType.Some? && authType.value in ["Negotiate", "NTLM"]
  }

  /** process: the nested tests of AUTH_TYPE, AUTH_USER and hasValidDomain. */
  function Process<R>(config: Option<Domain>, authType: Option<string>, authUser: Option<string>, handler: R): (r: Response<R>)
    ensures r.Handled? <==>
      && IsIntegratedAuthType(authType)
      && authUser.Some? && |authUser.value| > 0
      && HasValidDomain(ConfiguredDomain(config), authUser.value, authUser)
    ensures r.Handled? ==> r.response == handler
    ensures r.Unauthorized? ==> r.status == StatusUnauthorized && r.body == NotAuthorizedBody
  {
    if authType.Some? && authType.value in ["Negotiate", "NTLM"] then
      if authUser.Some? && |authUser.value| > 0 then
        if HasValidDomain(ConfiguredDomain(config), authUser.value, authUser) then Handled(handler)
        else Unauthorized(StatusUnauthorized, NotAuthorizedBody)
      else Unauthorized(StatusUnauthorized, NotAuthorizedBody)
    else Unauthorized(StatusUnauthorized, NotAuthorizedBody)
  }

  /** The handler is reached exactly for an integrated-auth request whose non-empty user the domain admits. */
  lemma ProcessAdmitsExactly<R>(config: Option<Domain>, authType: Option<string>, authUser: Option<string>, handler: R)
    ensures Process(config, authType, authUser, handler).Handled? <==>
      && IsIntegratedAuthType(authType)
      && authUser.Some? && |authUser.value| > 0
      && var d := ConfiguredDomain(config);
         d.Unset? || d == Name(authUser.value) || (d.Names? && authUser.value in d.names)
  {
    if authUser.Some? {
      HasValidDomainForServerUser(ConfiguredDomain(config), authUser.value);
    }
  }

  /** With the default configuration every non-empty user under Negotiate or NTLM passes. */
  lemma DefaultConfigAdmitsAuthenticatedUsers<R>(authType: string, user: string, handler: R)
    requires authType == "Negotiate" || authType == "NTLM"
    requires |user| > 0
    ensures Process(None, Some(authType), Some(user), handler) == Handled(handler)
  {
  }
}
