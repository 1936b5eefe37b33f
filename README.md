# Fitbit OAuth 2.0 provider: local request shaping, verified

This project models the part of the Fitbit provider for the League OAuth 2.0
client that runs before any network call:

- the two scope lists and the provider constants;
- the constructor's merge of the fixed Fitbit endpoint table into the caller's options;
- `checkResponse`, the token-endpoint error check (the `error` member of section 5.2 of RFC 6749);
- the option handling at the start of `getAccessToken`;
- `getAuthorizationParameters` of the authorization-code flow and of the implicit flow.
  These are the request parameters of sections 4.1.1 and 4.2.1 of RFC 6749. Each runs
  three ordered guards on the caller's scope list, drops `approval_prompt`, copies
  `prompt` and, in the implicit flow, sets `expires_in`;
- the `Basic` authorization header of `BasicAuthorizationTrait`.

Modules:

- `PhpArrays` holds the PHP semantics the code relies on: `empty`, `isset`, string
  conversion, and `array_intersect` on lists of strings, which keeps multiplicity.
- `AbstractFitBit` holds the base provider.
- `ScopePolicy` is a declarative statement of what the scope guards decide. It carries
  the lemmas about which lists pass.
- `FitBitAuthorization` and `FitBitImplicit` hold the two flows. Each
  `GetAuthorizationParameters` is a method that updates its local parameter array
  step by step, as the source does. Its contract ties the outcome to
  `ScopePolicy.ScopeVerdict` and to the base library's result.
- `BasicAuthorizationTrait` holds the header.

The base library's `getAuthorizationParameters` and the grant's
`prepareRequestParameters` are not part of this model. They are passed in as
uninterpreted functions, and the contracts state what the Fitbit code does
around them.

The model states what the code does. In five places that is not what a reader
of the source's comments would expect:

- An empty or absent scope list is rejected with "missing required scopes".
  The comment at src/Provider/FitBitAuthorization.php:27 ("If scopes provided
  but not all required are provided") suggests the check applies only when
  scopes are given, and lines 37-39 substitute the default scopes for an empty
  list. That substitution can never fire, because every accepted list has at
  least seven entries.
- The required-scope check counts entries with multiplicity. So seven copies of
  `activity` are accepted, and the required list with one scope repeated is
  rejected. The same comment at src/Provider/FitBitAuthorization.php:27 speaks
  of "all required" scopes being provided, which is not what the count tests.
- The `Basic` header carries the token verbatim
  (src/Tool/BasicAuthorizationTrait.php:18). The trait's comment at line 6
  promises `Basic` header authorization, but no base64 of `clientId:secret` is
  done, as section 2 of RFC 7617 describes for that scheme.
- The implicit flow, described at src/Provider/FitBitImplicit.php:8-11 as the
  Implicit Grant Flow, does not set `response_type` to `token`, which section
  4.2.1 of RFC 6749 requires for that flow. It sends what the base step produced.
- The comment at src/Provider/FitBitAuthorization.php:43 says `approval_prompt`
  "needs to be remapped to [prompt]". The code drops `approval_prompt` and copies
  only the caller's own `prompt` option. When none is set, `prompt` is left as
  the base step produced it.

## Model

| member | source | states |
|---|---|---|
| `AbstractFitBit.ExpiryConstants` | src/Provider/AbstractFitBit.php:30-32 | a day is 86400 s, a week is 7 days (604800 s), a month is 30 days (2592000 s) |
| `AbstractFitBit.ScopeCatalog` | src/Provider/AbstractFitBit.php:40-52 | 7 required scopes and 9 permitted scopes, neither list repeats a scope, every required scope is permitted, and the only extras are `heartrate` and `location` |
| `AbstractFitBit.DefaultScopesAreRequired` | src/Provider/AbstractFitBit.php:181-202 | the default scopes and the required scopes are the same list; the full list is the 9-scope catalog; the scope separator is a single space |
| `AbstractFitBit.ConstructorOptions` | src/Provider/AbstractFitBit.php:114-124 | the four endpoint keys always hold the literal Fitbit URLs, whatever the caller passed; every other caller key is kept unchanged and no other key is added |
| `AbstractFitBit.EndpointsNotOverridable` | src/Provider/AbstractFitBit.php:116-121 | a caller-supplied endpoint value has no effect on the merged options, and merging twice changes nothing |
| `AbstractFitBit.DefaultProvider` | src/Provider/AbstractFitBit.php:95-108 | by default the error key is `error` and no error-code key is configured (null) |
| `AbstractFitBit.CheckResponse` | src/Provider/AbstractFitBit.php:129-136 | raises exactly when the error entry is present and not empty (null, false, 0, "", "0" and [] are empty); the message argument is the error value and the response argument is the whole response; the code argument is 0 when the code key is falsy, otherwise the entry under that key (null if absent) |
| `AbstractFitBit.DefaultCheckResponse` | src/Provider/AbstractFitBit.php:98-135 | with the default configuration every raised exception gets the code argument 0; a response holding only `error` raises exactly when that value is non-empty; a response without `error` never raises |
| `AbstractFitBit.ErrorWithConfiguredCode` | src/Provider/AbstractFitBit.php:131-134 | with the code key configured as `errorCode`, `{"error": "invalid_grant", "errorCode": 1045}` raises with the message argument `invalid_grant` and the code argument 1045 |
| `AbstractFitBit.TokenBaseParams` | src/Provider/AbstractFitBit.php:223-226 | the token-request parameters before the grant's step are exactly `client_id` and `redirect_uri`, holding the provider's values |
| `AbstractFitBit.GetAccessToken` | src/Provider/AbstractFitBit.php:219-234 | a non-empty `token` option becomes the request credential and is absent from the options the grant sees; an absent or empty one gives a null credential and the options pass through unchanged, the empty `token` entry included; no other option changes; the parameters are the grant's step applied to the base parameters and those options |
| `ScopePolicy.ScopeOf` | src/Provider/FitBitAuthorization.php:23 | when a list is stored under `scope`, the list the guards see is exactly that list; when `scope` is absent or holds anything other than a list, they see the empty list |
| `ScopePolicy.GuardsDecideVerdict` | src/Provider/FitBitAuthorization.php:22-35 | the three guards, in the source's order and with the source's messages, give exactly the verdict "7 required entries counted with multiplicity, and every entry permitted"; the length guard never decides a different outcome |
| `ScopePolicy.AcceptedIsLong` | src/Provider/FitBitAuthorization.php:37-39 | an accepted list has at least 7 entries, so the default-scope substitution is dead code |
| `ScopePolicy.EmptyRejected` | src/Provider/FitBitAuthorization.php:27-30 | the empty list is rejected with "missing required scopes" |
| `ScopePolicy.ShortRejected` | src/Provider/FitBitAuthorization.php:22-25 | every list shorter than 7 is rejected with "missing required scopes" |
| `ScopePolicy.RequiredWithOptionalAccepted` | src/Provider/FitBitAuthorization.php:27-35 | the required list, followed by any number of `heartrate`/`location` entries, is accepted |
| `ScopePolicy.VerdictOrderFree` | src/Provider/FitBitAuthorization.php:28-33 | the verdict depends only on the multiset of entries, not on their order |
| `ScopePolicy.DistinctCountMeansAllRequired` | src/Provider/FitBitAuthorization.php:27-30 | for a list without repeats, the count guard passes exactly when every required scope is present |
| `ScopePolicy.DistinctAccepted` | src/Provider/FitBitAuthorization.php:27-35 | for a list without repeats, it is accepted exactly when it holds every required scope and only permitted scopes |
| `ScopePolicy.RepeatsAreCounted` | src/Provider/FitBitAuthorization.php:28-30 | the required list plus a repeated `activity` is rejected, the required list twice is rejected, and seven copies of `activity` are accepted |
| `ScopePolicy.SwapRejected` | src/Provider/FitBitAuthorization.php:27-30 | a 7-entry list with `weight` replaced by `location` is rejected with "missing required scopes" |
| `ScopePolicy.UnknownRejected` | src/Provider/FitBitAuthorization.php:32-35 | the required list plus an unknown scope is rejected with "invalid scope(s) provided" |
| `FitBitAuthorization.GetAuthorizationParameters` | src/Provider/FitBitAuthorization.php:20-50 | fails exactly when the scope verdict rejects, with its message; on success, `approval_prompt` is absent, `prompt` is the caller's value when set (non-null) and otherwise as the base step left it, every other key equals the base step's result, and the base step sees the caller's options unchanged |
| `FitBitImplicit.GetAuthorizationParameters` | src/Provider/FitBitImplicit.php:20-53 | the same verdict and messages as the authorization flow; on success, `approval_prompt` is absent and `prompt` is handled as in that flow; `expires_in` is always present, holding the caller's value when set (unchecked) and 86400 otherwise; every other key, `response_type` included, equals the base step's result |
| `BasicAuthorizationTrait.GetAuthorizationHeaders` | src/Tool/BasicAuthorizationTrait.php:16-19 | exactly one header, `Authorization`; its value is `Basic ` followed by the token's string form, so its length is 6 plus the token's |
| `BasicAuthorizationTrait.NullTokenHeader` | src/Tool/BasicAuthorizationTrait.php:16-18 | with the default null token the value is exactly `Basic ` |
| `BasicAuthorizationTrait.HeaderDeterminesToken` | src/Tool/BasicAuthorizationTrait.php:18 | the token is kept verbatim: two string tokens that give the same header are equal |
| `PhpArrays.Intersect` | src/Provider/FitBitAuthorization.php:28 | `array_intersect` keeps only entries of the first list that lie in the second, and never more entries than the first list has |
| `PhpArrays.IntersectMultiplicity` | src/Provider/FitBitAuthorization.php:28 | `array_intersect` keeps every value of the second list exactly as often as it occurs in the first, and drops every other value |
| `PhpArrays.NatString` | src/Tool/BasicAuthorizationTrait.php:18 | the decimal string PHP's `.` gives a non-negative integer is a non-empty run of digits with no leading zero (except for 0 itself) |
| `PhpArrays.NatStringValue` | src/Tool/BasicAuthorizationTrait.php:18 | the decimal string PHP's `.` gives a non-negative integer token denotes that integer: its digits read back to it |
| `PhpArrays.IntStringValue` | src/Tool/BasicAuthorizationTrait.php:18 | the string PHP's `.` gives any integer token denotes it: a non-negative one reads back from its digits, a negative one is `-` followed by the digits of its magnitude |
| `BasicAuthorizationTrait.IntHeaderDeterminesToken` | src/Tool/BasicAuthorizationTrait.php:18 | integer tokens are kept verbatim too: two integer tokens that give the same header are equal |
| `PhpArrays.IntersectKeepsAll` | src/Provider/FitBitAuthorization.php:33 | the intersection with the permitted list is as long as the list exactly when every entry is permitted |

## Left out

- The base library's `getAuthorizationParameters` is a function parameter. It generates `state`, joins the scopes and fills in `response_type`, `approval_prompt`, `client_id` and `redirect_uri`. So the round trip from the joined `scope` string back to the list is not modelled.
- The base constructor, `verifyGrant`, `getAccessTokenRequest` (src/Provider/AbstractFitBit.php:207-214), `getAuthenticatedRequest`, `getResponse`, `prepareAccessTokenResponse` and `createAccessToken` are not modelled. They are library code or HTTP I/O. `AbstractFitBit.GetAccessToken` stops once the grant has prepared the parameters.
- The duplicate `getAccessToken` at src/Provider/FitBitAuthorization.php:55-77 is the same code as the abstract one and is modelled once.
- `createResourceOwner` and the URL getters (src/Provider/AbstractFitBit.php:141-176) only return fields. src/Provider/FitBit.php only passes the constructor through.
- The unused `FORMAT_JSON`/`FORMAT_XML` constants are not modelled.
- `PhpArrays.Value` has no floats, objects or nested arrays. The only array it represents is a list of strings.
- An `AccessToken` object passed as the header token is represented by its string.
- `checkResponse` assumes the response data is an array.
- AbstractFitBit.CheckResponse: the message and code of the raised exception are the arguments the source passes to `IdentityProviderException` (src/Provider/AbstractFitBit.php:134), before the base `\Exception` constructor coerces them to a string and an int. That coercion belongs to the League library and to PHP, and is version-dependent: a null code becomes 0, a numeric string becomes its integer, and a non-numeric string code or a list message throws a `TypeError` instead. A list configured as the code key is read under the key "Array" (its string form), where PHP reports an illegal offset instead.
- A `scope` option that is absent or not a list reads as the empty list. That list is rejected with "missing required scopes", which is what PHP 7 does: `count` of a non-empty scalar is 1 (with a warning), so the length guard rejects it, and `array_intersect` of a non-array gives null (with a warning), whose count is 0, so the count guard rejects an absent or empty one. On PHP 8 any non-list value throws a `TypeError` instead: a non-empty one, such as a space-joined scope string, at the `count` of src/Provider/FitBitAuthorization.php:23, and an absent or empty one at `array_intersect`.
- `AbstractFitBit.ConstructorOptions` treats option keys as strings. PHP's `array_merge` renumbers integer-like keys, and those are not modelled.
