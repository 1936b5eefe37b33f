/** The implicit flow: the same scope validation and prompt remapping as the
    authorization-code flow, and an `expires_in` parameter that is always sent. */
module FitBitImplicit {
  import opened PhpArrays
  import opened AbstractFitBit
  import opened ScopePolicy

  /** `getAuthorizationParameters` of the implicit flow. `expires_in` is the
      caller's value when set, taken as is, and one day otherwise. Nothing
      else is added: in particular `response_type` is whatever the base step
      produced. */
  method GetAuthorizationParameters(
    options: map<string, Value>,
    parent: map<string, Value> -> map<string, Value>)
    returns (r: Result<map<string, Value>>)
    ensures r.Err? <==> ScopeVerdict(ScopeOf(options)).Reject?
    ensures r.Err? ==> r.exception.message == ScopeVerdict(ScopeOf(options)).message
    ensures r.Ok? ==> "approval_prompt" !in r.value
    ensures r.Ok? && IsSet(options, "prompt") ==> "prompt" in r.value && r.value["prompt"] == options["prompt"]
    ensures r.Ok? && !IsSet(options, "prompt") ==> SameAt(r.value, parent(options), "prompt")
    ensures r.Ok? ==> "expires_in" in r.value
    ensures r.Ok? && IsSet(options, "expires_in") ==> r.value["expires_in"] == options["expires_in"]
    ensures r.Ok? && !IsSet(options, "expires_in") ==> r.value["expires_in"] == Int(86400)
    ensures r.Ok? ==> forall k :: k != "approval_prompt" && k != "prompt" && k != "expires_in" ==>
      SameAt(r.value, parent(options), k)
  {
    var scope := ScopeOf(options);
    GuardsDecideVerdict(scope, !EmptyAt(options, "scope"));
    if !EmptyAt(options, "scope") && |scope| < |DefaultScopes| {
      return Err(InvalidArgumentException(MissingRequiredScopes));
    }
    if |Intersect(scope, DefaultScopes)| != |DefaultScopes| {
      return Err(InvalidArgumentException(MissingRequiredScopes));
    }
    if |scope| - |Intersect(scope, AllScopes)| != 0 {
      return Err(InvalidArgumentException(InvalidScopesProvided));
    }
    var opts := options;
    if EmptyAt(opts, "scope") {
      opts := opts["scope" := List(DefaultScopes)];
    }
    AcceptedIsLong(scope);
    assert opts == options;
    var poptions := parent(opts);
    poptions := poptions - {"approval_prompt"};
    if IsSet(options, "prompt") {
      poptions := poptions["prompt" := options["prompt"]];
    }
    poptions := poptions["expires_in" := if IsSet(options, "expires_in") then options["expires_in"] else Int(ExpiresInDay)];
    return Ok(poptions);
  }
}
