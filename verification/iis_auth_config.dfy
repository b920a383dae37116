/**
 * QuickIISAuthConfig: the optional domain restriction of the Windows
 * authentication gate and its acceptance test `hasValidDomain`.
 * The server variable AUTH_USER, which the test also reads, is a parameter.
 */
module IISAuthConfig {
  import opened Wrappers

  /** The configured domain: none (`null`), one string, or a list of strings. */
  datatype Domain = Unset | Name(name: string) | Names(names: seq<string>)

  /** `explode('\\', s)[0]`: the part of `s` before its first backslash. */
  function BeforeBackslash(s: string): (p: string)
    ensures p <= s && '\\' !in p
    ensures p == s || s[|p|] == '\\'
  {
    if s == [] || s[0] == '\\' then [] else [s[0]] + BeforeBackslash(s[1..])
  }

  /**
   * Reading an unset AUTH_USER yields null, which `explode` treats as the
   * empty string.
   */
  function ServerUser(serverAuthUser: Option<string>): string
  {
    if serverAuthUser.Some? then serverAuthUser.value else ""
  }

  /** The third test of hasValidDomain: a backslash in the argument, and the server user's prefix equal to it. */
  predicate BackslashClause(authUser: string, serverAuthUser: Option<string>)
  {
    '\\' in authUser && BeforeBackslash(ServerUser(serverAuthUser)) == authUser
  }

  /**
   * hasValidDomain: accepted when no domain is configured, when the domain
   * string equals the user exactly, when the backslash clause holds, or when
   * the domain list holds the user; otherwise rejected.
   */
  function HasValidDomain(domain: Domain, authUser: string, serverAuthUser: Option<string>): (ok: bool)
    ensures domain.Unset? ==> ok
    ensures domain == Name(authUser) ==> ok
    ensures domain.Names? && authUser in domain.names ==> ok
    ensures BackslashClause(authUser, serverAuthUser) ==> ok
    ensures ok ==> domain.Unset? || domain == Name(authUser)
                   || (domain.Names? && authUser in domain.names)
                   || BackslashClause(authUser, serverAuthUser)
  {
    if domain.Unset? then true
    else if domain == Name(authUser) then true
    else if BackslashClause(authUser, serverAuthUser) then true
    else if domain.Names? && authUser in domain.names then true
    else false
  }

  /**
   * When the argument is the server's own AUTH_USER, the backslash clause
   * never holds: the prefix has no backslash and the argument has one.
   */
  lemma BackslashClauseDeadForServerUser(user: string)
    ensures !BackslashClause(user, Some(user))
  {
  }

  /** Called with the server's AUTH_USER, as the middleware does, the test accepts exactly the configured users. */
  lemma HasValidDomainForServerUser(domain: Domain, user: string)
    ensures HasValidDomain(domain, user, Some(user)) <==>
      domain.Unset? || domain == Name(user) || (domain.Names? && user in domain.names)
  {
    BackslashClauseDeadForServerUser(user);
  }
}
