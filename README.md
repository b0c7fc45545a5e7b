# verify-semantic-changelog-update: title validation and changelog policy in Dafny

The action gates a pull request in two stages. First it validates the pull-request
title as a conventional-commit header (`type(scope): subject`). Then, if the change is
breaking, it requires that a changelog file was modified for every declared scope that
has a directory mapping. Without a scope map, the changelog at the repository root must
be modified instead. This project models both stages as Dafny functions over plain data
and proves what they promise.

- `wrappers.dfy` (`Wrappers`): `Option` for JavaScript's `undefined`, `Result` for a value-or-throw.
- `js_strings.dfy` (`JsStrings`): the JavaScript string behaviour the code relies on. This covers
  truthiness of an optional string, `String.prototype.trim` (ECMAScript WhiteSpace and
  LineTerminator characters) and `split`/`join` on `,`.
- `seqs.dfy` (`Seqs`): `Array.prototype.filter`.
- `title_validation.dfy` (`TitleValidation`): `validatePrTitle`. It takes the parser's record
  (optional type, scope and subject), the release-type vocabulary and an optional scope allowlist.
- `changelog_policy.dfy` (`ChangelogPolicy`): the decision part of `run`. This covers the
  breaking flag, the compare-response guards, the `modified` filter, `verifiableScopes`, path
  construction, `verifyChangelogModified`, and the scoped and root branches. The per-scope
  `for` loop is a method (`VerifyScopes`), and so is the whole sequence (`CheckChangelog`).
  Each is proved equal to its specification function (`FirstMissingIndex`, `Decision`).
  `RunAction` composes title validation with the decision, as `run` does.

In these places the code behaves differently from what its purpose suggests, and the model follows the code:
- `validatePrTitle` returns no `breaking` field. So `prBreaking` in `run` is always undefined.
  `Decision` takes it as an optional boolean. `RunAction` passes `None`, so only the `types`
  input makes a change breaking. No `BREAKING CHANGE` note or `!` marker is detected.
- A title with no scope fails whether or not an allowlist is given. The guard is unconditional,
  and without an allowlist `scopes.join` throws. Both cases are the single error `NoScope`.
- The title's scopes are always an array, and an empty array is truthy in JavaScript. So the
  scoped branch of `run` is taken exactly when a scope map is configured. An empty scope map
  `{}` is also truthy, so it gives an empty allowlist that rejects every scope.
- A compare response without a file list skips the changelog check and passes (`NoFileList`).

## Model

| member | source | states |
|---|---|---|
| JsStrings.Trim | src/validatePrTitle.ts:60 | the trimmed scope has no white space at either end and is what remains of the input once white space is stripped from both ends |
| JsStrings.TrimUnique | src/validatePrTitle.ts:60 | any way of stripping outer white space that leaves none at either end gives exactly `Trim(s)` |
| JsStrings.TrimIdempotent | src/validatePrTitle.ts:60 | a trimmed string is its own trim, and trimming twice equals trimming once |
| JsStrings.Split | src/validatePrTitle.ts:59 | `split(',')` yields one more piece than there are commas, and no piece contains a comma |
| JsStrings.JoinSplit | src/validatePrTitle.ts:59 | joining the pieces of a split with the separator gives back the original string |
| JsStrings.SplitJoin | src/validatePrTitle.ts:59 | splitting a join of comma-free pieces gives back the pieces |
| Seqs.Filter | src/validatePrTitle.ts:61 | `filter` keeps exactly the elements that pass the test, and never grows the sequence |
| Seqs.FilterConcat | src/main.ts:138-140 | filtering commutes with concatenation, so the kept elements stay in input order |
| Seqs.FilterKeepsAll | src/main.ts:138-140 | a filter that every element passes returns the whole sequence |
| TitleValidation.GivenScopes | src/validatePrTitle.ts:58-60 | the given scopes number the commas of the raw scope plus one, and each is comma-free and trimmed |
| TitleValidation.GivenScopesOfJoin | src/validatePrTitle.ts:58-60 | the scopes of `e1,e2,...` are the trimmed entries in order, so white space around commas is ignored |
| TitleValidation.GivenScopesRoundTrip | src/validatePrTitle.ts:58-60 | splitting and trimming a comma-join of trimmed, comma-free scopes gives them back unchanged |
| TitleValidation.UnknownScopes | src/validatePrTitle.ts:61 | the unknown scopes are exactly the given scopes outside the allowlist, and there are none without an allowlist |
| TitleValidation.CheckScopes | src/validatePrTitle.ts:58-73 | the scope stage passes exactly when every given scope is allowed (or there is no allowlist); otherwise it fails listing the unknown scopes, using "scopes" if and only if more than one is unknown |
| TitleValidation.ValidatePrTitle | src/validatePrTitle.ts:32-74 | the guards apply in the source's order (no type, no subject, unknown type, no scope with or without an allowlist, unknown scopes); success holds exactly when all guards pass, and it returns the parser's type and subject unchanged, a type in the vocabulary, and the split and trimmed scopes; when every earlier guard passes and the scope check fails, the error is exactly the scope check's error |
| TitleValidation.NoAllowlistNoUnknownScope | src/validatePrTitle.ts:28-30 | without an allowlist no title fails with an unknown-scope error |
| TitleValidation.OneUnknownScopeIsSingular | src/validatePrTitle.ts:63-73 | with `api` and `web` allowed, `feat(api,cli): add x` fails naming only `cli`, with the singular "scope" |
| ChangelogPolicy.ModifiedFiles | src/main.ts:119-121 | the kept files are exactly the changed files whose status is `modified` |
| ChangelogPolicy.SomeNamed | src/main.ts:127-129 | the `some` scan finds the name exactly when some modified file carries it |
| ChangelogPolicy.VerifyChangelogModified | src/main.ts:123-135 | no error exactly when the file is among the modified files; otherwise the error names the file and the scope |
| ChangelogPolicy.ExpectedPathShape | src/main.ts:142-146 | the expected path ends in the file path; it is the file path itself exactly when the scope maps to `""` or `"."`, and otherwise starts with the directory and `/` |
| ChangelogPolicy.VerifiableScopes | src/main.ts:138-140 | the verifiable scopes are exactly the PR scopes that are keys of the scope map |
| ChangelogPolicy.FirstMissingIndex | src/main.ts:141-148 | every scope before the returned position has its changelog modified, and the scope at that position (if any) does not |
| ChangelogPolicy.Policy | src/main.ts:123-158 | with a scope map, it passes exactly when every verifiable scope's expected path is modified, and otherwise fails on the first such scope, in order, with its path; without one, it passes exactly when the file path itself is a modified file, and otherwise fails naming scope `repo` |
| ChangelogPolicy.ModifiedNamed | src/main.ts:119-129 | a name is among the modified files exactly when some changed file of that name has status `modified` |
| ChangelogPolicy.Decision | src/main.ts:73-158 | nothing is checked exactly when the PR is not breaking (`prBreaking` true or type in `types`); otherwise a missing base or head fails first, then a non-200 status, then a status other than `ahead`; a missing file list passes; a changelog failure comes only from the policy, and whenever the PR is breaking and the comparison is usable (base and head present, status 200, `ahead`, file list present) the verdict is exactly the policy's |
| ChangelogPolicy.VerifyScopes | src/main.ts:141-148 | the loop returns no error exactly when every verifiable scope's changelog is modified, and otherwise returns the error for the first scope that is not |
| ChangelogPolicy.CheckChangelog | src/main.ts:73-158 | the step-by-step run returns the verdict of `Decision` |
| ChangelogPolicy.RunAction | src/main.ts:64-73 | the run fails on the title exactly when validation against the scope map's keys fails, and it skips the check exactly when the title is valid and its type is not in `types`; a title failure carries exactly the error validation returned; for a valid title the verdict is `Decision`'s on the validated type and scopes with `prBreaking` undefined, so the guard chain and the scoped or root policy apply to every valid breaking title |
| ChangelogPolicy.ScopedRunFailsOnTitleScopes | src/main.ts:64-158 | end to end with a scope map: for a valid title whose type is in `types` and a usable comparison, the run fails exactly when one of the title's own scopes has its expected changelog unmodified; the failure names the first such scope and its path, and a pass reports all the title's scopes as verified |
| ChangelogPolicy.IsBreaking | src/main.ts:73 | a PR is breaking exactly when `prBreaking` is true or its type is listed in `types`; with no `prBreaking` it is list membership alone |
| TitleValidation.IsUnknownScope | src/validatePrTitle.ts:28-30 | with no allowlist no scope is unknown; with one, a scope is unknown exactly when it is not in the allowlist |
| ChangelogPolicy.ExpectedPath | src/main.ts:142-146 | the expected changelog path is the bare file path exactly when the scope's directory is empty or `.`; otherwise the path differs from the bare file path (`ExpectedPathShape` gives its form) |
| ChangelogPolicy.ValidatedScopesAllVerifiable | src/main.ts:138-140 | after validation against the scope map's keys, every scope of the title is verifiable, so no scope is skipped in a whole run |
| ChangelogPolicy.UnmappedScopeSkipped | src/main.ts:138-141 | a declared scope with no mapping leaves the verdict unchanged |
| ChangelogPolicy.NoMappedScopePasses | src/main.ts:138-148 | when no declared scope is mapped, the scoped check passes without checking anything |
| ChangelogPolicy.OtherStatusesIgnored | src/main.ts:119-121 | a changed file whose status is not `modified` never changes the verdict |
| ChangelogPolicy.MissingWebChangelogFails | src/main.ts:141-148 | with `api` and `web` mapped, modifying only the api changelog fails on `web` with `apps/web/CHANGELOG.md` |
| ChangelogPolicy.BothChangelogsPass | src/main.ts:141-151 | with both expected changelogs modified, the run passes having verified `api` and `web` |
| ChangelogPolicy.RootChangelogExamples | src/main.ts:152-153 | without a scope map, a modified root changelog passes, and an added one fails naming scope `repo` |

## Left out

- The conventional-commits grammar and parser options (src/validatePrTitle.ts:1-3, 15-16) are foreign libraries. The parser's output is an input record with optional fields.
- The contents of the release-type vocabulary and its descriptions (src/validatePrTitle.ts:13) are static data, so the vocabulary is a set parameter. The allowlist is a set as well, because the code only tests membership.
- Error message text, including `printAvailableTypes` (src/validatePrTitle.ts:18-26), is not modelled. Each error carries only its kind and the data that distinguishes it. For unknown scopes that is the list of scopes and the noun "scope"/"scopes".
- ValidatePrTitle: when there is no allowlist, the source's `TypeError` from `scopes.join` and the "No scope found" error are one error, `NoScope`.
- The GitHub API calls (`pulls.get`, `repos.compareCommits`) are network I/O. The title, the compare HTTP status, the compare status and the file list are inputs. Decision: the compare response is a parameter even though the source fetches it only after the base/head check. Its contract shows that the response does not matter in that case.
- Reading inputs and the environment (`core.getInput`, `getMultilineInput`, `GITHUB_TOKEN` and its `assert`), `JSON.parse` of the scope map, and the missing pull-request context error (src/main.ts:14-48) are process I/O and configuration. The scope map is taken as already parsed into a map from strings to strings.
- Logging (`core.info`, `core.debug`) and `core.setFailed` are output side effects. Failures are the `Fail` verdict.
- JavaScript strings are sequences of UTF-16 code units, and here a string is a sequence of Unicode scalar values. A lone surrogate cannot be represented. On well-formed text, `split(',')` and `trim` give the same pieces either way, because the comma and every white-space character are single code units outside the surrogate range.
- `async`/`await` is plumbing with no effect on the decision.
