/** What both authorization flows decide about a caller's scope list before
    anything else happens, stated without the redundant length guard and with
    "every entry is permitted" written as a quantifier rather than a count. */
module ScopePolicy {
  import opened PhpArrays
  import opened AbstractFitBit

  const MissingRequiredScopes := "Could not configure provider, missing required scopes"
  const InvalidScopesProvided := "Could not configure provider, invalid scope(s) provided"

  /** The exception both flows throw on a rejected scope list. */
  datatype InvalidArgumentException = InvalidArgumentException(message: string)

  /** What `getAuthorizationParameters` yields: parameters, or the exception it throws. */
  datatype Result<T> = Ok(value: T) | Err(exception: InvalidArgumentException)

  datatype Verdict = Accept | Reject(message: string)

  /** The scope list read from the options. An absent or non-list `scope`
      entry reads as the empty list. */
  function ScopeOf(options: map<string, Value>): (scope: seq<string>)
    ensures "scope" in options && options["scope"].List? ==> scope == options["scope"].items
    ensures !("scope" in options && options["scope"].List?) ==> scope == []
    ensures scope != [] ==> "scope" in options && options["scope"] == List(scope)
  {
    if "scope" in options && options["scope"].List? then options["scope"].items else []
  }

  /** A list passes when exactly seven of its entries, counted with
      multiplicity, are required scopes, and no entry lies outside the
      permitted vocabulary. */
  function ScopeVerdict(scope: seq<string>): Verdict
  {
    if |Intersect(scope, DefaultScopes)| != |DefaultScopes| then Reject(MissingRequiredScopes)
    else if exists i :: 0 <= i < |scope| && scope[i] !in AllScopes then Reject(InvalidScopesProvided)
    else Accept
  }

  /** The source's three guards, in order, reach exactly the verdict above:
      the length guard never rejects a list the count guard would pass, and
      "count minus count of the intersection with the permitted list is zero"
      means every entry is permitted. */
  lemma {:induction false} GuardsDecideVerdict(scope: seq<string>, nonEmpty: bool)
    requires nonEmpty <== scope != []
    ensures var tooShort := nonEmpty && |scope| < |DefaultScopes|;
      var missing := |Intersect(scope, DefaultScopes)| != |DefaultScopes|;
      var invalid := |scope| - |Intersect(scope, AllScopes)| != 0;
      && (tooShort ==> ScopeVerdict(scope) == Reject(MissingRequiredScopes))
      && (!tooShort && missing ==> ScopeVerdict(scope) == Reject(MissingRequiredScopes))
      && (!tooShort && !missing && invalid ==> ScopeVerdict(scope) == Reject(InvalidScopesProvided))
      && (!tooShort && !missing && !invalid ==> ScopeVerdict(scope) == Accept)
  {
    IntersectKeepsAll(scope, AllScopes);
  }

  /** An accepted list has at least seven entries, so it is never empty and
      the default-scope substitution that follows the guards never fires. */
  lemma AcceptedIsLong(scope: seq<string>)
    requires ScopeVerdict(scope) == Accept
    ensures |scope| >= |DefaultScopes| && scope != []
  {
  }

  /** The empty list is rejected: there is no fallback to the defaults. */
  lemma EmptyRejected()
    ensures ScopeVerdict([]) == Reject(MissingRequiredScopes)
  {
  }

  /** Any non-empty list shorter than the required list is rejected. */
  lemma ShortRejected(scope: seq<string>)
    requires |scope| < |DefaultScopes|
    ensures ScopeVerdict(scope) == Reject(MissingRequiredScopes)
  {
  }

  /** The required list is accepted, alone or followed by any number of
      the two optional scopes. */
  lemma {:induction false} RequiredWithOptionalAccepted(extra: seq<string>)
    requires forall i :: 0 <= i < |extra| ==> extra[i] == "heartrate" || extra[i] == "location"
    ensures ScopeVerdict(DefaultScopes + extra) == Accept
  {
    var s := DefaultScopes + extra;
    RequiredPlusOptionalCount(extra);
    OptionalNotRequired();
    forall i | 0 <= i < |s|
      ensures s[i] in AllScopes
    {
      if i >= |DefaultScopes| {
        assert s[i] == extra[i - |DefaultScopes|];
      }
    }
    AcceptedWhen(s);
  }

  /** Optional scopes after the required list do not change the count. */
  lemma {:induction false} RequiredPlusOptionalCount(extra: seq<string>)
    requires forall i :: 0 <= i < |extra| ==> extra[i] == "heartrate" || extra[i] == "location"
    ensures |Intersect(DefaultScopes + extra, DefaultScopes)| == |DefaultScopes|
  {
    OptionalNotRequired();
    IntersectWithOutsiders(DefaultScopes, extra, DefaultScopes);
  }

  /** The two conditions of the verdict suffice for acceptance. */
  lemma AcceptedWhen(scope: seq<string>)
    requires |Intersect(scope, DefaultScopes)| == |DefaultScopes|
    requires forall i :: 0 <= i < |scope| ==> scope[i] in AllScopes
    ensures ScopeVerdict(scope) == Accept
  {
  }

  /** The two optional scopes are permitted but not required. */
  lemma OptionalNotRequired()
    ensures "heartrate" !in DefaultScopes && "location" !in DefaultScopes
    ensures "heartrate" in AllScopes && "location" in AllScopes
  {
    ScopeCatalog();
  }

  /** The verdict depends only on which entries occur how often, not on their order. */
  lemma {:induction false} VerdictOrderFree(scope: seq<string>, scope': seq<string>)
    requires multiset(scope) == multiset(scope')
    ensures ScopeVerdict(scope) == ScopeVerdict(scope')
  {
    IntersectSizeOrderFree(scope, scope', DefaultScopes);
    assert forall x :: x in scope <==> x in multiset(scope);
    assert forall x :: x in scope' <==> x in multiset(scope');
    if exists i :: 0 <= i < |scope| && scope[i] !in AllScopes {
      var i :| 0 <= i < |scope| && scope[i] !in AllScopes;
      assert scope[i] in multiset(scope');
      var j :| 0 <= j < |scope'| && scope'[j] == scope[i];
    }
    if exists j :: 0 <= j < |scope'| && scope'[j] !in AllScopes {
      var j :| 0 <= j < |scope'| && scope'[j] !in AllScopes;
      assert scope'[j] in multiset(scope);
      var i :| 0 <= i < |scope| && scope[i] == scope'[j];
    }
  }

  /** For a list without repeated entries the count guard means what its
      comment says: seven required entries are counted exactly when every
      required scope is present. */
  lemma {:induction false} DistinctCountMeansAllRequired(scope: seq<string>)
    requires Distinct(scope)
    ensures |Intersect(scope, DefaultScopes)| == |DefaultScopes| <==>
      forall i :: 0 <= i < |DefaultScopes| ==> DefaultScopes[i] in scope
  {
    var common := Intersect(scope, DefaultScopes);
    ScopeCatalog();
    IntersectDistinct(scope, DefaultScopes);
    DistinctElements(common);
    DistinctElements(DefaultScopes);
    assert Elements(common) <= Elements(DefaultScopes);
    SubsetSize(Elements(common), Elements(DefaultScopes));
    if forall i :: 0 <= i < |DefaultScopes| ==> DefaultScopes[i] in scope {
      forall x | x in Elements(DefaultScopes)
        ensures x in Elements(common)
      {
        IntersectMember(scope, DefaultScopes, x);
      }
      assert Elements(common) == Elements(DefaultScopes);
    }
    if |common| == |DefaultScopes| {
      forall i | 0 <= i < |DefaultScopes|
        ensures DefaultScopes[i] in scope
      {
        assert DefaultScopes[i] in Elements(common);
      }
    }
  }

  /** Hence, for a list without repeated entries, acceptance is "every
      required scope present and every entry permitted". */
  lemma DistinctAccepted(scope: seq<string>)
    requires Distinct(scope)
    ensures ScopeVerdict(scope) == Accept <==>
      (forall i :: 0 <= i < |DefaultScopes| ==> DefaultScopes[i] in scope) &&
      (forall i :: 0 <= i < |scope| ==> scope[i] in AllScopes)
  {
    DistinctCountMeansAllRequired(scope);
  }

  /** Entries are counted with multiplicity: the required list with one of
      its scopes repeated is rejected, while seven copies of `activity`,
      which lack six required scopes, are accepted. */
  lemma RepeatsAreCounted()
    ensures ScopeVerdict(DefaultScopes + ["activity"]) == Reject(MissingRequiredScopes)
    ensures ScopeVerdict(DefaultScopes + DefaultScopes) == Reject(MissingRequiredScopes)
    ensures ScopeVerdict(seq(7, _ => "activity")) == Accept
  {
    IntersectAppend(DefaultScopes, ["activity"], DefaultScopes);
    IntersectAppend(DefaultScopes, DefaultScopes, DefaultScopes);
    IntersectKeepsAll(DefaultScopes, DefaultScopes);
    var sevens := seq(7, _ => "activity");
    IntersectKeepsAll(sevens, DefaultScopes);
  }

  /** One required scope swapped for an optional one is rejected as missing,
      although the list has the required length. */
  lemma SwapRejected()
    ensures ScopeVerdict(["activity", "nutrition", "profile", "settings", "sleep", "social", "location"])
      == Reject(MissingRequiredScopes)
  {
    var s := ["activity", "nutrition", "profile", "settings", "sleep", "social", "location"];
    assert s == DefaultScopes[..6] + ["location"];
    OptionalNotRequired();
    IntersectWithOutsiders(DefaultScopes[..6], ["location"], DefaultScopes);
  }

  /** An unknown scope added to the required list is rejected as invalid. */
  lemma UnknownRejected()
    ensures ScopeVerdict(DefaultScopes + ["friends"]) == Reject(InvalidScopesProvided)
  {
    var s := DefaultScopes + ["friends"];
    assert "friends" !in DefaultScopes && "friends" !in AllScopes;
    IntersectWithOutsiders(DefaultScopes, ["friends"], DefaultScopes);
    assert s[7] !in AllScopes;
  }
}
