/** The authorization-code flow: validation of the caller's scope list and
    the shaping of the parameters of the authorization redirect. */
module FitBitAuthorization {
  import opened PhpArrays
  import opened AbstractFitBit
  import opened ScopePolicy

  /** `getAuthorizationParameters`. The three guards run in the source's
      order; the default-scope substitution and the base library's
      parameter step follow; `approval_prompt` is dropped and a set `prompt`
      option is copied over. `parent` stands for the base library's
      `getAuthorizationParameters`. */
  method GetAuthorizationParameters(
    options: map<string, Value>,
    parent: map<string, Value> -> map<string, Value>)
    returns (r: Result<map<string, Value>>)
    ensures r.Err? <==> ScopeVerdict(ScopeOf(options)).Reject?
    ensures r.Err? ==> r.exception.message == ScopeVerdict(ScopeOf(options)).message
    ensures r.Ok? ==> "approval_prompt" !in r.value
    ensures r.Ok? && IsSet(options, "prompt") ==> "prompt" in r.value && r.value["prompt"] == options["prompt"]
    ensures r.Ok? && !IsSet(options, "prompt") ==> SameAt(r.value, parent(options), "prompt")
    ensures r.Ok? ==> forall k :: k != "approval_prompt" && k != "prompt" ==> SameAt(r.value, parent(options), k)
  {
    var scope := ScopeOf(options);
    GuardsDecideVerdict(scope, !EmptyAt(options, "scope"));
    if !EmptyAt(options, "scope") && |scope| < |DefaultScopes| {
      return Err(InvalidArgumentException(MissingRequiredScopes));
    }
    if |Intersect(scope, DefaultScopes)| != |DefaultScopes| {
      return Err(InvalidArgumentException(MissingRequiredScopes));
    }
    if |scope| - |Intersect(scope, AllScopes)| != 0 {
      return Err(InvalidArgumentException(InvalidScopesProvided));
    }
    var opts := options;
    if EmptyAt(opts, "scope") {
      opts := opts["scope" := List(DefaultScopes)];
    }
    AcceptedIsLong(scope);
    assert opts == options;
    var poptions := parent(opts);
    poptions := poptions - {"approval_prompt"};
    if IsSet(options, "prompt") {
      poptions := poptions["prompt" := options["prompt"]];
    }
    return Ok(poptions);
  }
}
