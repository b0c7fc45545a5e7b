/** Validation of a pull-request title that the conventional-commits parser has
    already broken into its header parts (src/validatePrTitle.ts). */
module TitleValidation {
  import opened Wrappers
  import opened JsStrings
  import Seqs

  /** What the parser yields for a title: each part may be missing. `scope` is the raw
      text between the parentheses, commas and white space included. */
  datatype ParsedTitle = ParsedTitle(releaseType: Option<string>, scope: Option<string>, subject: Option<string>)

  /** An accepted title. The source returns no `breaking` field. */
  datatype ValidatedTitle = ValidatedTitle(releaseType: string, scopes: seq<string>, subject: string)

  /** The errors `validatePrTitle` throws, one per guard. `noun` is the word the
      unknown-scope message uses ("scope" or "scopes"). */
  datatype TitleError =
    | NoReleaseType
    | NoSubject
    | UnknownReleaseType(releaseType: string)
    | NoScope
    | UnknownScope(noun: string, unknown: seq<string>)

  /** The scopes a title declares: the raw scope split on `,`, each piece trimmed. */
  function GivenScopes(raw: string): (r: seq<string>)
    ensures |r| == Count(raw, ',') + 1
    ensures forall k :: 0 <= k < |r| ==> ',' !in r[k] && IsTrimmed(r[k])
  {
    var parts := Split(raw, ',');
    seq(|parts|, k requires 0 <= k < |parts| => Trim(parts[k]))
  }

  /** `isUnknownScope`: with an allowlist, a scope it does not contain; without one, nothing. */
  predicate IsUnknownScope(allowedScopes: Option<set<string>>, s: string)
    ensures allowedScopes.None? ==> !IsUnknownScope(allowedScopes, s)
    ensures allowedScopes.Some? ==> (IsUnknownScope(allowedScopes, s) <==> s !in allowedScopes.value)
  {
    allowedScopes.Some? && s !in allowedScopes.value
  }

  /** The declared scopes the allowlist rejects, in declaration order. */
  function UnknownScopes(given: seq<string>, allowedScopes: Option<set<string>>): (r: seq<string>)
    ensures allowedScopes.None? ==> r == []
    ensures forall k :: 0 <= k < |r| ==> allowedScopes.Some? && r[k] in given && r[k] !in allowedScopes.value
    ensures allowedScopes.Some? ==> forall k :: 0 <= k < |given| && given[k] !in allowedScopes.value ==> given[k] in r
  {
    var r := Seqs.Filter(s => IsUnknownScope(allowedScopes, s), given);
    assert |r| > 0 ==> IsUnknownScope(allowedScopes, r[0]);
    r
  }

  /** The last stage of `validatePrTitle`, once a scope is present: split and trim it, and
      fail naming every declared scope the allowlist rejects, in order, with "scopes" when
      there is more than one and "scope" otherwise. */
  function CheckScopes(raw: string, allowedScopes: Option<set<string>>): (r: Result<seq<string>, TitleError>)
    ensures r.Success? <==> allowedScopes.Some? ==> forall k :: 0 <= k < |GivenScopes(raw)| ==> GivenScopes(raw)[k] in allowedScopes.value
    ensures r.Success? ==> r.value == GivenScopes(raw)
    ensures r.Failure? ==>
              && allowedScopes.Some?
              && r.error.UnknownScope?
              && |r.error.unknown| > 0
              && r.error.unknown == UnknownScopes(GivenScopes(raw), allowedScopes)
              && (r.error.noun == "scopes" <==> |r.error.unknown| > 1)
              && (r.error.noun == "scope" <==> |r.error.unknown| == 1)
  {
    var given := GivenScopes(raw);
    var unknown := UnknownScopes(given, allowedScopes);
    if allowedScopes.Some? && |unknown| > 0 then
      assert unknown[0] in given && unknown[0] !in allowedScopes.value;
      Failure(UnknownScope(if |unknown| > 1 then "scopes" else "scope", unknown))
    else
      Success(given)
  }

  /** The guard chain of `validatePrTitle`: missing type, missing subject, unknown type,
      missing scope, unknown scopes, in that order; otherwise the parser's type and
      subject unchanged together with the split and trimmed scopes. */
  function ValidatePrTitle(parsed: ParsedTitle, releaseTypes: set<string>, allowedScopes: Option<set<string>>)
    : (r: Result<ValidatedTitle, TitleError>)
    // guard precedence: each guard fires whatever the later parts of the title are
    ensures !Truthy(parsed.releaseType) ==> r == Failure(NoReleaseType)
    ensures Truthy(parsed.releaseType) && !Truthy(parsed.subject) ==> r == Failure(NoSubject)
    ensures Truthy(parsed.releaseType) && Truthy(parsed.subject) && parsed.releaseType.value !in releaseTypes
            ==> r == Failure(UnknownReleaseType(parsed.releaseType.value))
    ensures (Truthy(parsed.releaseType) && Truthy(parsed.subject) && parsed.releaseType.value in releaseTypes
             && !Truthy(parsed.scope)) ==> r == Failure(NoScope)
    // an unknown-scope error comes only from the last guard, with an allowlist
    ensures r.Failure? && r.error.UnknownScope? ==>
              && allowedScopes.Some? && Truthy(parsed.scope)
              && CheckScopes(parsed.scope.value, allowedScopes) == Failure(r.error)
    ensures (Truthy(parsed.releaseType) && Truthy(parsed.subject) && parsed.releaseType.value in releaseTypes
             && Truthy(parsed.scope) && CheckScopes(parsed.scope.value, allowedScopes).Failure?)
            ==> r == Failure(CheckScopes(parsed.scope.value, allowedScopes).error)
    // success exactly when every guard passes, and then the parser's values come back
    ensures r.Success? <==>
              && Truthy(parsed.releaseType) && Truthy(parsed.subject) && parsed.releaseType.value in releaseTypes
              && Truthy(parsed.scope)
              && (allowedScopes.Some? ==>
                    var given := GivenScopes(parsed.scope.value);
                    forall k :: 0 <= k < |given| ==> given[k] in allowedScopes.value)
    ensures r.Success? ==>
              && r.value.releaseType == parsed.releaseType.value && r.value.releaseType in releaseTypes
              && r.value.subject == parsed.subject.value && r.value.subject != ""
              && r.value.scopes == GivenScopes(parsed.scope.value)
  {
    if !Truthy(parsed.releaseType) then
      Failure(NoReleaseType)
    else if !Truthy(parsed.subject) then
      Failure(NoSubject)
    else if parsed.releaseType.value !in releaseTypes then
      Failure(UnknownReleaseType(parsed.releaseType.value))
    else if !Truthy(parsed.scope) then
      // thrown with or without an allowlist (without one, `scopes.join` throws instead)
      Failure(NoScope)
    else
      match CheckScopes(parsed.scope.value, allowedScopes)
      case Failure(e) => Failure(e)
      case Success(given) => Success(ValidatedTitle(parsed.releaseType.value, given, parsed.subject.value))
  }

  /** Without an allowlist a title never fails on its scopes' names. */
  lemma NoAllowlistNoUnknownScope(parsed: ParsedTitle, releaseTypes: set<string>)
    ensures !(ValidatePrTitle(parsed, releaseTypes, None).Failure?
              && ValidatePrTitle(parsed, releaseTypes, None).error.UnknownScope?)
  {
  }

  /** White space around the comma-separated entries is ignored and their order kept:
      the scopes of `a , b,c` are `a`, `b`, `c`. */
  lemma GivenScopesOfJoin(entries: seq<string>)
    requires |entries| > 0
    requires forall k :: 0 <= k < |entries| ==> ',' !in entries[k]
    ensures GivenScopes(Join(entries, ',')) == seq(|entries|, k requires 0 <= k < |entries| => Trim(entries[k]))
  {
    SplitJoin(entries, ',');
  }

  /** Writing already-trimmed scopes separated by commas gives them back unchanged. */
  lemma GivenScopesRoundTrip(scopes: seq<string>)
    requires |scopes| > 0
    requires forall k :: 0 <= k < |scopes| ==> ',' !in scopes[k] && IsTrimmed(scopes[k])
    ensures GivenScopes(Join(scopes, ',')) == scopes
  {
    GivenScopesOfJoin(scopes);
    forall k | 0 <= k < |scopes| ensures Trim(scopes[k]) == scopes[k] {
      TrimIdempotent(scopes[k]);
    }
  }

  /** Only the entries the allowlist rejects are reported, in order: with `api` and `web`
      allowed, `feat(api,cli): add x` fails naming `cli` alone, in the singular. */
  lemma OneUnknownScopeIsSingular(releaseTypes: set<string>)
    requires "feat" in releaseTypes
    ensures ValidatePrTitle(ParsedTitle(Some("feat"), Some("api,cli"), Some("add x")), releaseTypes, Some({"api", "web"}))
            == Failure(UnknownScope("scope", ["cli"]))
  {
    CliIsTheUnknownScope();
  }

  lemma CliIsTheUnknownScope()
    ensures CheckScopes("api,cli", Some({"api", "web"})) == Failure(UnknownScope("scope", ["cli"]))
  {
    ApiCliScopes();
    CliUnknown();
  }

  lemma CliUnknown()
    ensures UnknownScopes(["api", "cli"], Some({"api", "web"})) == ["cli"]
  {
  }

  lemma ApiCliScopes()
    ensures GivenScopes("api,cli") == ["api", "cli"]
  {
    assert Join(["api", "cli"], ',') == "api" + [','] + Join(["cli"], ',');
    assert "api,cli" == Join(["api", "cli"], ',');
    GivenScopesRoundTrip(["api", "cli"]);
  }
}
