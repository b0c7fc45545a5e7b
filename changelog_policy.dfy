/** The decision part of the action's `run` (src/main.ts): whether the pull request
    counts as breaking, the preconditions on the commit comparison, and the check that
    the changelog was modified in every mapped scope, or at the repository root. */
module ChangelogPolicy {
  import opened Wrappers
  import opened JsStrings
  import Seqs
  import opened TitleValidation

  /** One changed file of the comparison, with its status (`added`, `modified`, `removed`, ...). */
  datatype FileEntry = FileEntry(filename: string, status: string)

  /** What the compare-two-commits call answers: the HTTP status, the relation of head to
      base (`ahead`, `behind`, ...), and the changed files, which may be missing. */
  datatype CompareResponse = CompareResponse(httpStatus: int, status: string, files: Option<seq<FileEntry>>)

  /** The errors `run` reports through its failure signal. */
  datatype RunError =
    | InvalidTitle(titleError: TitleError)
    | MissingCommits
    | CompareFailed(httpStatus: int)
    | NotAhead
    | ChangelogNotUpdated(fileName: string, scope: string)

  /** What a successful run went through: no check (not breaking, or no file list), the
      mapped scopes it verified, or the repository root. */
  datatype Checked = NotBreaking | NoFileList | Scopes(verified: seq<string>) | Root

  datatype Verdict = Pass(checked: Checked) | Fail(error: RunError)

  /** The scope named in the failure of the unscoped check. */
  const RootScope := "repo"

  /** `prBreaking || types.includes(prType)`; an undefined `prBreaking` is falsy. */
  predicate IsBreaking(prBreaking: Option<bool>, types: seq<string>, prType: string)
    ensures IsBreaking(prBreaking, types, prType) <==>
              (prBreaking.Some? && prBreaking.value) || exists k :: 0 <= k < |types| && types[k] == prType
    ensures prBreaking.None? ==> (IsBreaking(prBreaking, types, prType) <==> prType in types)
  {
    prBreaking == Some(true) || prType in types
  }

  /** The changed files whose status is exactly `modified`, in their original order. */
  function ModifiedFiles(files: seq<FileEntry>): (r: seq<FileEntry>)
    ensures forall k :: 0 <= k < |r| ==> r[k] in files && r[k].status == "modified"
    ensures forall k :: 0 <= k < |files| && files[k].status == "modified" ==> files[k] in r
  {
    Seqs.Filter(HasModifiedStatus, files)
  }

  predicate HasModifiedStatus(f: FileEntry)
  {
    f.status == "modified"
  }

  /** Some entry of `modified` carries the name `fileName`. */
  predicate IsModified(modified: seq<FileEntry>, fileName: string)
  {
    exists k :: 0 <= k < |modified| && modified[k].filename == fileName
  }

  /** `modifiedFiles.some(file => file.filename === fileName)`, entry by entry. */
  function SomeNamed(modified: seq<FileEntry>, fileName: string): (r: bool)
    ensures r <==> IsModified(modified, fileName)
  {
    if modified == [] then
      false
    else
      var r := modified[0].filename == fileName || SomeNamed(modified[1..], fileName);
      assert IsModified(modified[1..], fileName) ==> IsModified(modified, fileName);
      assert IsModified(modified, fileName) && modified[0].filename != fileName ==> IsModified(modified[1..], fileName);
      r
  }

  /** `verifyChangelogModified`: nothing when the file is among the modified ones, otherwise
      the error naming the file and the scope it was required for. */
  function VerifyChangelogModified(modified: seq<FileEntry>, fileName: string, scope: string): (r: Option<RunError>)
    ensures r.None? <==> IsModified(modified, fileName)
    ensures r.Some? ==> r.value == ChangelogNotUpdated(fileName, scope)
  {
    if SomeNamed(modified, fileName) then None else Some(ChangelogNotUpdated(fileName, scope))
  }

  /** The changelog a scope must touch: `filePath` itself when the scope maps to the
      repository root (`""` or `"."`), otherwise `filePath` inside the mapped directory. */
  function ExpectedPath(scopeMap: map<string, string>, scope: string, filePath: string): (r: string)
    requires scope in scopeMap
    ensures r == filePath <==> scopeMap[scope] == "" || scopeMap[scope] == "."
  {
    var dir := scopeMap[scope];
    if dir == "" || dir == "." then filePath else (assert |dir + "/" + filePath| > |filePath|; dir + "/" + filePath)
  }

  /** The expected path always ends in `filePath`; it is `filePath` itself exactly when the
      scope maps to `""` or `"."`, and otherwise the mapped directory and a `/` come first. */
  lemma ExpectedPathShape(scopeMap: map<string, string>, scope: string, filePath: string)
    requires scope in scopeMap
    ensures var r := ExpectedPath(scopeMap, scope, filePath);
            && |r| >= |filePath| && r[|r| - |filePath|..] == filePath
            && (r == filePath <==> scopeMap[scope] == "" || scopeMap[scope] == ".")
            && (r != filePath ==> r[..|r| - |filePath|] == scopeMap[scope] + "/")
  {
  }

  /** `verifiableScopes`: the pull request's scopes that the scope map has a directory for, in order. */
  function VerifiableScopes(prScopes: seq<string>, scopeMap: map<string, string>): (r: seq<string>)
    ensures forall k :: 0 <= k < |r| ==> r[k] in prScopes && r[k] in scopeMap
    ensures forall k :: 0 <= k < |prScopes| && prScopes[k] in scopeMap ==> prScopes[k] in r
  {
    Seqs.Filter(s => s in scopeMap, prScopes)
  }

  /** The position of the first scope whose expected changelog is not modified, or
      `|scopes|` when there is none: where the per-scope loop stops. */
  function FirstMissingIndex(scopes: seq<string>, scopeMap: map<string, string>, filePath: string, modified: seq<FileEntry>)
    : (k: nat)
    requires forall j :: 0 <= j < |scopes| ==> scopes[j] in scopeMap
    ensures k <= |scopes|
    ensures forall j :: 0 <= j < k ==> IsModified(modified, ExpectedPath(scopeMap, scopes[j], filePath))
    ensures k < |scopes| ==> !IsModified(modified, ExpectedPath(scopeMap, scopes[k], filePath))
  {
    if scopes == [] then
      0
    else if !IsModified(modified, ExpectedPath(scopeMap, scopes[0], filePath)) then
      0
    else
      var k := FirstMissingIndex(scopes[1..], scopeMap, filePath, modified);
      assert forall j :: 1 <= j <= k ==> scopes[j] == scopes[1..][j - 1];
      1 + k
  }

  /** The changelog policy over the comparison's file list: with a scope map, every
      verifiable scope's expected changelog must be modified and the first one that is not
      is reported; without one, the changelog at the repository root must be modified. */
  function Policy(scopeMap: Option<map<string, string>>, prScopes: seq<string>, filePath: string, files: seq<FileEntry>)
    : (v: Verdict)
    ensures v.Fail? ==> v.error.ChangelogNotUpdated?
    ensures v.Pass? ==> v.checked == if scopeMap.Some? then Scopes(VerifiableScopes(prScopes, scopeMap.value)) else Root
    // scoped branch: pass exactly when every verifiable scope's changelog is modified ...
    ensures scopeMap.Some? ==>
              var vs := VerifiableScopes(prScopes, scopeMap.value);
              (v.Pass? <==> forall j :: 0 <= j < |vs| ==> IsModified(ModifiedFiles(files), ExpectedPath(scopeMap.value, vs[j], filePath)))
    // ... and otherwise fail on the first scope, in order, that misses it
    ensures scopeMap.Some? && v.Fail? ==>
              var vs := VerifiableScopes(prScopes, scopeMap.value);
              exists k :: 0 <= k < |vs| && v.error == ChangelogNotUpdated(ExpectedPath(scopeMap.value, vs[k], filePath), vs[k])
                          && !IsModified(ModifiedFiles(files), ExpectedPath(scopeMap.value, vs[k], filePath))
                          && forall j :: 0 <= j < k ==> IsModified(ModifiedFiles(files), ExpectedPath(scopeMap.value, vs[j], filePath))
    // root branch: pass exactly when `filePath` itself is a modified file
    ensures scopeMap.None? ==>
              (v.Pass? <==> exists k :: 0 <= k < |files| && files[k].filename == filePath && files[k].status == "modified")
    ensures scopeMap.None? && v.Fail? ==> v.error == ChangelogNotUpdated(filePath, RootScope)
  {
    var modified := ModifiedFiles(files);
    if scopeMap.Some? then
      var vs := VerifiableScopes(prScopes, scopeMap.value);
      var k := FirstMissingIndex(vs, scopeMap.value, filePath, modified);
      if k == |vs| then Pass(Scopes(vs))
      else Fail(ChangelogNotUpdated(ExpectedPath(scopeMap.value, vs[k], filePath), vs[k]))
    else
      ModifiedNamed(files, filePath);
      match VerifyChangelogModified(modified, filePath, RootScope)
      case None => Pass(Root)
      case Some(e) => Fail(e)
  }

  /** A name is among the modified files exactly when some changed file of that name has status `modified`. */
  lemma ModifiedNamed(files: seq<FileEntry>, fileName: string)
    ensures IsModified(ModifiedFiles(files), fileName)
            <==> exists k :: 0 <= k < |files| && files[k].filename == fileName && files[k].status == "modified"
  {
  }

  /** The decision `run` takes once the title is validated (src/main.ts lines 73-158):
      nothing is checked unless the pull request is breaking; then a missing base or head
      commit, a failed comparison and a head not ahead of base fail in that order; a
      missing file list passes; otherwise the changelog policy decides. */
  function Decision(prBreaking: Option<bool>, types: seq<string>, prType: string,
                    base: Option<string>, head: Option<string>, compare: CompareResponse,
                    scopeMap: Option<map<string, string>>, prScopes: seq<string>, filePath: string): (v: Verdict)
    ensures v == Pass(NotBreaking) <==> !IsBreaking(prBreaking, types, prType)
    ensures v == Fail(MissingCommits) <==> IsBreaking(prBreaking, types, prType) && !(Truthy(base) && Truthy(head))
    ensures v.Fail? && v.error.CompareFailed? <==>
              IsBreaking(prBreaking, types, prType) && Truthy(base) && Truthy(head) && compare.httpStatus != 200
    ensures v.Fail? && v.error.CompareFailed? ==> v.error.httpStatus == compare.httpStatus
    ensures v == Fail(NotAhead) <==>
              IsBreaking(prBreaking, types, prType) && Truthy(base) && Truthy(head) && compare.httpStatus == 200
              && compare.status != "ahead"
    ensures v == Pass(NoFileList) <==>
              IsBreaking(prBreaking, types, prType) && Truthy(base) && Truthy(head) && compare.httpStatus == 200
              && compare.status == "ahead" && compare.files.None?
    ensures v.Fail? && v.error.ChangelogNotUpdated? ==>
              IsBreaking(prBreaking, types, prType) && Truthy(base) && Truthy(head) && compare.httpStatus == 200
              && compare.status == "ahead" && compare.files.Some?
              && v == Policy(scopeMap, prScopes, filePath, compare.files.value)
    ensures IsBreaking(prBreaking, types, prType) && Truthy(base) && Truthy(head) && compare.httpStatus == 200
            && compare.status == "ahead" && compare.files.Some?
            ==> v == Policy(scopeMap, prScopes, filePath, compare.files.value)
    ensures !v.Fail? || v.error.MissingCommits? || v.error.CompareFailed? || v.error.NotAhead? || v.error.ChangelogNotUpdated?
  {
    if !IsBreaking(prBreaking, types, prType) then
      Pass(NotBreaking)
    else if !Truthy(base) || !Truthy(head) then
      Fail(MissingCommits)
    else if compare.httpStatus != 200 then
      Fail(CompareFailed(compare.httpStatus))
    else if compare.status != "ahead" then
      Fail(NotAhead)
    else if compare.files.None? then
      Pass(NoFileList)
    else
      Policy(scopeMap, prScopes, filePath, compare.files.value)
  }

  /** The per-scope loop of `run` (src/main.ts lines 141-148): builds each verifiable
      scope's path and stops at the first one whose changelog is not modified. */
  method VerifyScopes(verifiable: seq<string>, scopeMap: map<string, string>, filePath: string, modified: seq<FileEntry>)
    returns (err: Option<RunError>)
    requires forall j :: 0 <= j < |verifiable| ==> verifiable[j] in scopeMap
    ensures err.None? <==> forall j :: 0 <= j < |verifiable| ==> IsModified(modified, ExpectedPath(scopeMap, verifiable[j], filePath))
    ensures err.Some? ==>
              var k := FirstMissingIndex(verifiable, scopeMap, filePath, modified);
              k < |verifiable| && err.value == ChangelogNotUpdated(ExpectedPath(scopeMap, verifiable[k], filePath), verifiable[k])
  {
    var i := 0;
    while i < |verifiable|
      invariant 0 <= i <= |verifiable|
      invariant forall j :: 0 <= j < i ==> IsModified(modified, ExpectedPath(scopeMap, verifiable[j], filePath))
    {
      var scope := verifiable[i];
      var path := filePath;
      var scopePath := scopeMap[scope];
      if scopePath != "" && scopePath != "." {
        path := scopePath + "/" + filePath;
      }
      assert path == ExpectedPath(scopeMap, scope, filePath);
      err := VerifyChangelogModified(modified, path, scope);
      if err.Some? {
        assert i == FirstMissingIndex(verifiable, scopeMap, filePath, modified);
        return;
      }
      i := i + 1;
    }
    err := None;
  }

  /** `run` from the breaking flag on, step by step as the source sequences it; the
      comparison's answer is an input (the source fetches it after the commit check). */
  method CheckChangelog(prBreaking: Option<bool>, types: seq<string>, prType: string,
                        base: Option<string>, head: Option<string>, compare: CompareResponse,
                        scopeMap: Option<map<string, string>>, prScopes: seq<string>, filePath: string)
    returns (v: Verdict)
    ensures v == Decision(prBreaking, types, prType, base, head, compare, scopeMap, prScopes, filePath)
  {
    if !IsBreaking(prBreaking, types, prType) {
      return Pass(NotBreaking);
    }
    if !Truthy(base) || !Truthy(head) {
      return Fail(MissingCommits);
    }
    if compare.httpStatus != 200 {
      return Fail(CompareFailed(compare.httpStatus));
    }
    if compare.status != "ahead" {
      return Fail(NotAhead);
    }
    if compare.files.None? {
      return Pass(NoFileList);
    }
    var modified := ModifiedFiles(compare.files.value);
    if scopeMap.Some? {
      var verifiable := VerifiableScopes(prScopes, scopeMap.value);
      var err := VerifyScopes(verifiable, scopeMap.value, filePath, modified);
      if err.Some? {
        return Fail(err.value);
      }
      return Pass(Scopes(verifiable));
    } else {
      var err := VerifyChangelogModified(modified, filePath, RootScope);
      if err.Some? {
        return Fail(err.value);
      }
      return Pass(Root);
    }
  }

  /** `run` from the title on (src/main.ts lines 64-158): the title is validated against the
      scope map's keys, and the `breaking` field it does not return is undefined. */
  function RunAction(parsed: ParsedTitle, releaseTypes: set<string>, types: seq<string>,
                     base: Option<string>, head: Option<string>, compare: CompareResponse,
                     scopeMap: Option<map<string, string>>, filePath: string): (v: Verdict)
    ensures v.Fail? && v.error.InvalidTitle? <==>
              ValidatePrTitle(parsed, releaseTypes, if scopeMap.Some? then Some(scopeMap.value.Keys) else None).Failure?
    ensures v.Fail? && v.error.InvalidTitle? ==>
              ValidatePrTitle(parsed, releaseTypes, if scopeMap.Some? then Some(scopeMap.value.Keys) else None)
              == Failure(v.error.titleError)
    ensures v == Pass(NotBreaking) <==>
              var t := ValidatePrTitle(parsed, releaseTypes, if scopeMap.Some? then Some(scopeMap.value.Keys) else None);
              t.Success? && t.value.releaseType !in types
    ensures var t := ValidatePrTitle(parsed, releaseTypes, if scopeMap.Some? then Some(scopeMap.value.Keys) else None);
            t.Success? ==> v == Decision(None, types, t.value.releaseType, base, head, compare, scopeMap, t.value.scopes, filePath)
  {
    var allowed := if scopeMap.Some? then Some(scopeMap.value.Keys) else None;
    match ValidatePrTitle(parsed, releaseTypes, allowed)
    case Failure(e) => Fail(InvalidTitle(e))
    case Success(t) => Decision(None, types, t.releaseType, base, head, compare, scopeMap, t.scopes, filePath)
  }

  /** In a whole run no declared scope is skipped: a title that passes validation against
      the scope map's keys has only mapped scopes, so every one of them is verified. */
  lemma ValidatedScopesAllVerifiable(parsed: ParsedTitle, releaseTypes: set<string>, scopeMap: map<string, string>)
    requires ValidatePrTitle(parsed, releaseTypes, Some(scopeMap.Keys)).Success?
    ensures var t := ValidatePrTitle(parsed, releaseTypes, Some(scopeMap.Keys)).value;
            VerifiableScopes(t.scopes, scopeMap) == t.scopes
  {
    var t := ValidatePrTitle(parsed, releaseTypes, Some(scopeMap.Keys)).value;
    Seqs.FilterKeepsAll(s => s in scopeMap, t.scopes);
  }

  /** End to end with a scope map: a valid title whose type is in `types`, with a usable
      comparison, fails exactly when one of the title's own scopes has its expected changelog
      unmodified, and the failure names the first such scope with its path. */
  lemma ScopedRunFailsOnTitleScopes(parsed: ParsedTitle, releaseTypes: set<string>, types: seq<string>,
                                    base: string, head: string, httpStatus: int, files: seq<FileEntry>,
                                    scopeMap: map<string, string>, filePath: string)
    requires ValidatePrTitle(parsed, releaseTypes, Some(scopeMap.Keys)).Success?
    requires ValidatePrTitle(parsed, releaseTypes, Some(scopeMap.Keys)).value.releaseType in types
    requires base != "" && head != "" && httpStatus == 200
    ensures var t := ValidatePrTitle(parsed, releaseTypes, Some(scopeMap.Keys)).value;
            var v := RunAction(parsed, releaseTypes, types, Some(base), Some(head),
                               CompareResponse(httpStatus, "ahead", Some(files)), Some(scopeMap), filePath);
            && (forall k :: 0 <= k < |t.scopes| ==> t.scopes[k] in scopeMap)
            && (v.Fail? <==> exists k :: 0 <= k < |t.scopes| && !IsModified(ModifiedFiles(files), ExpectedPath(scopeMap, t.scopes[k], filePath)))
            && (v.Fail? ==> exists k :: 0 <= k < |t.scopes|
                               && v.error == ChangelogNotUpdated(ExpectedPath(scopeMap, t.scopes[k], filePath), t.scopes[k])
                               && forall j :: 0 <= j < k ==> IsModified(ModifiedFiles(files), ExpectedPath(scopeMap, t.scopes[j], filePath)))
            && (v.Pass? ==> v == Pass(Scopes(t.scopes)))
  {
    var t := ValidatePrTitle(parsed, releaseTypes, Some(scopeMap.Keys)).value;
    var compare := CompareResponse(httpStatus, "ahead", Some(files));
    ValidatedScopesAllVerifiable(parsed, releaseTypes, scopeMap);
    assert RunAction(parsed, releaseTypes, types, Some(base), Some(head), compare, Some(scopeMap), filePath)
        == Policy(Some(scopeMap), t.scopes, filePath, files);
  }

  /** A declared scope the map has no directory for changes nothing. */
  lemma UnmappedScopeSkipped(scopeMap: map<string, string>, before: seq<string>, scope: string, after: seq<string>,
                             filePath: string, files: seq<FileEntry>)
    requires scope !in scopeMap
    ensures Policy(Some(scopeMap), before + [scope] + after, filePath, files)
            == Policy(Some(scopeMap), before + after, filePath, files)
  {
    DropUnmapped(scopeMap, before, scope, after);
  }

  lemma DropUnmapped(scopeMap: map<string, string>, before: seq<string>, scope: string, after: seq<string>)
    requires scope !in scopeMap
    ensures VerifiableScopes(before + [scope] + after, scopeMap) == VerifiableScopes(before + after, scopeMap)
  {
    var p := s => s in scopeMap;
    Seqs.FilterConcat(p, before + [scope], after);
    Seqs.FilterConcat(p, before, [scope]);
    Seqs.FilterConcat(p, before, after);
    assert Seqs.Filter(p, [scope]) == [];
  }

  /** When no declared scope is mapped the scoped check passes with nothing to verify,
      whatever the comparison lists. */
  lemma NoMappedScopePasses(scopeMap: map<string, string>, prScopes: seq<string>,
                            filePath: string, files: seq<FileEntry>)
    requires forall k :: 0 <= k < |prScopes| ==> prScopes[k] !in scopeMap
    ensures Policy(Some(scopeMap), prScopes, filePath, files) == Pass(Scopes([]))
  {
  }

  /** Only files whose status is exactly `modified` count: inserting a changed file with
      any other status never changes the verdict. */
  lemma OtherStatusesIgnored(scopeMap: Option<map<string, string>>, prScopes: seq<string>, filePath: string,
                             before: seq<FileEntry>, entry: FileEntry, after: seq<FileEntry>)
    requires entry.status != "modified"
    ensures Policy(scopeMap, prScopes, filePath, before + [entry] + after)
            == Policy(scopeMap, prScopes, filePath, before + after)
  {
    DropUnmodified(before, entry, after);
  }

  lemma DropUnmodified(before: seq<FileEntry>, entry: FileEntry, after: seq<FileEntry>)
    requires entry.status != "modified"
    ensures ModifiedFiles(before + [entry] + after) == ModifiedFiles(before + after)
  {
    var p := HasModifiedStatus;
    Seqs.FilterConcat(p, before + [entry], after);
    Seqs.FilterConcat(p, before, [entry]);
    Seqs.FilterConcat(p, before, after);
    assert Seqs.Filter(p, [entry]) == [];
    assert Seqs.Filter(p, before + [entry]) == Seqs.Filter(p, before);
    assert Seqs.Filter(p, before + [entry] + after) == Seqs.Filter(p, before + after);
  }

  /** With `api` mapped to `services/api` and `web` to `apps/web`, a diff that modifies only
      the api changelog fails on `web`, naming `apps/web/CHANGELOG.md`. */
  lemma MissingWebChangelogFails()
    ensures Policy(Some(ApiWebMap()), ["api", "web"], "CHANGELOG.md", [FileEntry("services/api/CHANGELOG.md", "modified")])
            == Fail(ChangelogNotUpdated("apps/web/CHANGELOG.md", "web"))
  {
    var m := ApiWebMap();
    var files := [FileEntry("services/api/CHANGELOG.md", "modified")];
    ApiWebVerifiable();
    Seqs.FilterKeepsAll(HasModifiedStatus, files);
    ApiWebPaths();
    assert IsModified(files, "services/api/CHANGELOG.md") by {
      assert files[0].filename == "services/api/CHANGELOG.md";
    }
    assert !IsModified(files, "apps/web/CHANGELOG.md") by {
      assert files[0].filename[0] != "apps/web/CHANGELOG.md"[0];
    }
    assert FirstMissingIndex(["api", "web"], m, "CHANGELOG.md", files) == 1;
  }

  /** With both expected changelogs modified the same pull request passes, having verified `api` and `web`. */
  lemma BothChangelogsPass()
    ensures Policy(Some(ApiWebMap()), ["api", "web"], "CHANGELOG.md",
                   [FileEntry("services/api/CHANGELOG.md", "modified"), FileEntry("apps/web/CHANGELOG.md", "modified")])
            == Pass(Scopes(["api", "web"]))
  {
    var files := [FileEntry("services/api/CHANGELOG.md", "modified"), FileEntry("apps/web/CHANGELOG.md", "modified")];
    ApiWebVerifiable();
    Seqs.FilterKeepsAll(HasModifiedStatus, files);
    ApiWebPaths();
    assert IsModified(files, "services/api/CHANGELOG.md") by {
      assert files[0].filename == "services/api/CHANGELOG.md";
    }
    assert IsModified(files, "apps/web/CHANGELOG.md") by {
      assert files[1].filename == "apps/web/CHANGELOG.md";
    }
    assert FirstMissingIndex(["api", "web"], ApiWebMap(), "CHANGELOG.md", files) == 2;
  }

  /** The example scope map used by the two lemmas above. */
  function ApiWebMap(): map<string, string>
  {
    map["api" := "services/api", "web" := "apps/web"]
  }

  lemma ApiWebVerifiable()
    ensures VerifiableScopes(["api", "web"], ApiWebMap()) == ["api", "web"]
  {
  }

  lemma ApiWebPaths()
    ensures ExpectedPath(ApiWebMap(), "api", "CHANGELOG.md") == "services/api/CHANGELOG.md"
    ensures ExpectedPath(ApiWebMap(), "web", "CHANGELOG.md") == "apps/web/CHANGELOG.md"
  {
  }

  /** Without a scope map a diff that modifies `CHANGELOG.md` at the root passes, and one that
      only adds it fails naming the scope `repo`. */
  lemma RootChangelogExamples()
    ensures Policy(None, ["core"], "CHANGELOG.md", [FileEntry("CHANGELOG.md", "modified")]) == Pass(Root)
    ensures Policy(None, ["core"], "CHANGELOG.md", [FileEntry("CHANGELOG.md", "added")])
            == Fail(ChangelogNotUpdated("CHANGELOG.md", "repo"))
  {
  }
}
