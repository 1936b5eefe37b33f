/** The provider base shared by both Fitbit flows: its constants, the two
    scope lists, the fixed endpoint table merged in by the constructor, the
    token-response error check and the option handling of the token request. */
module AbstractFitBit {
  import opened PhpArrays

  const PromptNone := "none"
  const PromptLogin := "login"
  const PromptConsent := "consent"

  const ResponseTypeCode := "code"
  const ResponseTypeToken := "token"

  const GrantTypeRefresh := "refresh_token"
  const GrantTypeAuth := "authorization_code"

  /** Token lifetimes, in seconds, written as the source writes them. */
  const ExpiresInDay: int := 60 * 60 * 24
  const ExpiresInWeek: int := 60 * 60 * 24 * 7
  const ExpiresInMonth: int := 60 * 60 * 24 * 30

  /** The scopes every authorization request must carry. */
  const DefaultScopes: seq<string> :=
    ["activity", "nutrition", "profile", "settings", "sleep", "social", "weight"]

  /** Every scope the API knows. */
  const AllScopes: seq<string> :=
    ["activity", "heartrate", "location", "nutrition", "profile", "settings",
     "sleep", "social", "weight"]

  const UrlApiBase := "https://api.fitbit.com/1/"
  const UrlAuthorize := "https://www.fitbit.com/oauth2/authorize"
  const UrlAccessToken := "https://api.fitbit.com/oauth2/token"
  const UrlResourceOwnerDetails := "https://api.fitbit.com/1/users/-/profile.json"

  /** The option keys under which the constructor installs the endpoint table. */
  const UrlKeys: set<string> := {"urlApiBase", "urlAuthorize", "urlAccessToken", "urlResourceOwnerDetails"}

  lemma ExpiryConstants()
    ensures ExpiresInDay == 86400
    ensures ExpiresInWeek == 7 * ExpiresInDay == 604800
    ensures ExpiresInMonth == 30 * ExpiresInDay == 2592000
  {
  }

  /** The required list lies inside the full list, neither repeats a scope,
      and the full list adds exactly `heartrate` and `location`. */
  lemma ScopeCatalog()
    ensures |DefaultScopes| == 7 && |AllScopes| == 9
    ensures Distinct(DefaultScopes) && Distinct(AllScopes)
    ensures forall i :: 0 <= i < |DefaultScopes| ==> DefaultScopes[i] in AllScopes
    ensures Elements(AllScopes) - Elements(DefaultScopes) == {"heartrate", "location"}
  {
  }

  function GetScopeSeparator(): string
  {
    " "
  }

  function GetDefaultScopes(): seq<string>
  {
    DefaultScopes
  }

  function GetRequiredScope(): seq<string>
  {
    DefaultScopes
  }

  function GetAllScope(): seq<string>
  {
    AllScopes
  }

  /** The defaults the base library falls back on are the required list,
      the full list is the catalog's, and scopes are joined by one space. */
  lemma DefaultScopesAreRequired()
    ensures GetDefaultScopes() == GetRequiredScope() == DefaultScopes
    ensures GetAllScope() == AllScopes
    ensures GetScopeSeparator() == " "
  {
  }

  /** The options the constructor hands to the base constructor: `array_merge`
      of the caller's options with the endpoint table, so the table wins. */
  function ConstructorOptions(options: map<string, Value>): (merged: map<string, Value>)
    ensures merged.Keys == options.Keys + UrlKeys
    ensures merged["urlApiBase"] == Str(UrlApiBase)
    ensures merged["urlAuthorize"] == Str(UrlAuthorize)
    ensures merged["urlAccessToken"] == Str(UrlAccessToken)
    ensures merged["urlResourceOwnerDetails"] == Str(UrlResourceOwnerDetails)
    ensures forall k :: k !in UrlKeys ==> SameAt(merged, options, k)
  {
    options + map[
      "urlApiBase" := Str(UrlApiBase),
      "urlAuthorize" := Str(UrlAuthorize),
      "urlAccessToken" := Str(UrlAccessToken),
      "urlResourceOwnerDetails" := Str(UrlResourceOwnerDetails)]
  }

  /** A caller cannot redirect the provider: whatever it passes under an
      endpoint key, the merged options are those it would get without it,
      and merging twice changes nothing. */
  lemma EndpointsNotOverridable(options: map<string, Value>, k: string, v: Value)
    requires k in UrlKeys
    ensures ConstructorOptions(options[k := v]) == ConstructorOptions(options)
    ensures ConstructorOptions(ConstructorOptions(options)) == ConstructorOptions(options)
  {
  }

  /** The provider's configuration as the base constructor leaves it. Only
      the properties the core reads are kept. */
  datatype Provider = Provider(
    clientId: Value,
    redirectUri: Value,
    responseError: string,
    responseCode: Value)

  /** A provider whose response keys keep their declared defaults:
      `error` for the error and no error-code key. */
  function DefaultProvider(clientId: Value, redirectUri: Value): (p: Provider)
    ensures p.responseError == "error" && p.responseCode == Null
    ensures p.clientId == clientId && p.redirectUri == redirectUri
  {
    Provider(clientId, redirectUri, "error", Null)
  }

  datatype Option<T> = None | Some(value: T)

  /** The exception raised for an error reported by the token endpoint,
      holding the arguments its constructor is called with. */
  datatype IdentityProviderException = IdentityProviderException(message: Value, code: Value, response: map<string, Value>)

  /** The error-code key is consulted only when it is truthy. */
  predicate CodeKeyConfigured(p: Provider)
  {
    !Empty(p.responseCode)
  }

  /** `checkResponse`: `Some(e)` is the exception the source throws, `None`
      means it returns normally. The code argument is read under the string
      form of the configured key, and is 0 when no key is configured. */
  function CheckResponse(p: Provider, data: map<string, Value>): (raised: Option<IdentityProviderException>)
    ensures raised.Some? <==> p.responseError in data && !Empty(data[p.responseError])
    ensures raised.Some? ==> raised.value.message == data[p.responseError] && raised.value.response == data
    ensures raised.Some? && !CodeKeyConfigured(p) ==> raised.value.code == Int(0)
    ensures raised.Some? && CodeKeyConfigured(p) ==>
      raised.value.code == Lookup(data, PhpString(p.responseCode))
  {
    if !EmptyAt(data, p.responseError) then
      var error := data[p.responseError];
      var code := if !Empty(p.responseCode) then Lookup(data, PhpString(p.responseCode)) else Int(0);
      Some(IdentityProviderException(error, code, data))
    else
      None
  }

  /** With the default configuration an error is raised exactly when the
      response carries a non-empty `error`, always with code 0; `"0"`, `""`,
      `false` and `null` are not errors. */
  lemma DefaultCheckResponse(clientId: Value, redirectUri: Value, data: map<string, Value>, message: Value)
    ensures var p := DefaultProvider(clientId, redirectUri);
      && (CheckResponse(p, data).Some? ==> CheckResponse(p, data).value.code == Int(0))
      && CheckResponse(p, map["error" := message]) ==
           (if Empty(message) then None else Some(IdentityProviderException(message, Int(0), map["error" := message])))
      && ("error" !in data ==> CheckResponse(p, data) == None)
  {
  }

  /** A response carrying an error and a code, read with the code key configured. */
  lemma ErrorWithConfiguredCode(p: Provider)
    requires p.responseError == "error" && p.responseCode == Str("errorCode")
    ensures var data := map["error" := Str("invalid_grant"), "errorCode" := Int(1045)];
      CheckResponse(p, data) == Some(IdentityProviderException(Str("invalid_grant"), Int(1045), data))
  {
  }

  /** The parameters `getAccessToken` starts from, before the grant adds its own. */
  function TokenBaseParams(p: Provider): (params: map<string, Value>)
    ensures params.Keys == {"client_id", "redirect_uri"}
    ensures params["client_id"] == p.clientId && params["redirect_uri"] == p.redirectUri
  {
    map["client_id" := p.clientId, "redirect_uri" := p.redirectUri]
  }

  /** The local part of `getAccessToken`, up to the point where the request
      is built: a non-empty `token` option is taken out of the options and
      becomes the credential of the request; the grant then prepares the
      parameters from the base parameters and the remaining options.
      `prepareRequestParameters` stands for the grant's own step. Returned are
      the credential, the options the grant saw, and the parameters it made. */
  method GetAccessToken(
    p: Provider,
    options: map<string, Value>,
    prepareRequestParameters: (map<string, Value>, map<string, Value>) -> map<string, Value>)
    returns (token: Value, grantOptions: map<string, Value>, params: map<string, Value>)
    ensures !Empty(token) <==> !EmptyAt(options, "token")
    ensures !Empty(token) ==> token == options["token"] && "token" !in grantOptions
    ensures Empty(token) ==> token == Null && grantOptions == options
    ensures forall k :: k != "token" ==> SameAt(grantOptions, options, k)
    ensures params == prepareRequestParameters(TokenBaseParams(p), grantOptions)
  {
    var base := TokenBaseParams(p);
    var opts := options;
    token := Null;
    if !EmptyAt(opts, "token") {
      token := opts["token"];
      opts := opts - {"token"};
    }
    grantOptions := opts;
    params := prepareRequestParameters(base, opts);
  }
}
