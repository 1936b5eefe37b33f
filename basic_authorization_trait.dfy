/** The `Basic` authorization header the two Fitbit flows send. */
module BasicAuthorizationTrait {
  import opened PhpArrays

  const HeaderPrefix := "Basic "

  /** `getAuthorizationHeaders`: one `Authorization` header whose value is
      `Basic ` followed by the token's string form. The token is neither
      base64-encoded nor joined with a client secret here. */
  function GetAuthorizationHeaders(token: Value): (headers: map<string, string>)
    ensures headers.Keys == {"Authorization"}
    ensures |headers["Authorization"]| == 6 + |PhpString(token)|
    ensures headers["Authorization"][..6] == "Basic "
    ensures headers["Authorization"][6..] == PhpString(token)
  {
    map["Authorization" := HeaderPrefix + PhpString(token)]
  }

  /** With no token (the default) the value is the bare prefix. */
  lemma NullTokenHeader()
    ensures GetAuthorizationHeaders(Null)["Authorization"] == "Basic "
  {
  }

  /** The header keeps the token verbatim: two string tokens that give the
      same header are the same token. */
  lemma HeaderDeterminesToken(token: string, token': string)
    requires GetAuthorizationHeaders(Str(token)) == GetAuthorizationHeaders(Str(token'))
    ensures token == token'
  {
  }

  /** Integer tokens are kept verbatim too: two integer tokens that give the
      same header are the same integer. */
  lemma IntHeaderDeterminesToken(token: int, token': int)
    requires GetAuthorizationHeaders(Int(token)) == GetAuthorizationHeaders(Int(token'))
    ensures token == token'
  {
    var h, h' := GetAuthorizationHeaders(Int(token)), GetAuthorizationHeaders(Int(token'));
    assert h["Authorization"][6..] == h'["Authorization"][6..];
    IntStringInjective(token, token');
  }
}
