# PageAssessments in Dafny

A model of the core of the MediaWiki PageAssessments extension, with proofs about it.
Wiki pages declare, through a parser function, which WikiProjects assess them and with what
quality class and importance. The extension stores those declarations in two tables:

- `page_assessments_projects`: project title → project id, with an optional parent id;
- `page_assessments`: (page id, project id) → (class, importance, revision).

The model covers four things.

1. **The reconciliation engine.** `PageAssessmentsDAO::doUpdates` brings the stored rows of one
   page in line with the declarations collected during the parse. The older engine in
   `PageAssessmentsBody.php` is modelled beside it.
2. **The row operations and caches.** The engines use them: get-or-create of project ids, the
   subproject parent, `insertRecord`, `updateRecord`, `deleteRecord`, `deleteRecordsForPage`,
   `getAllProjects`, `cacheAssessment` and the `getProjectName` cache.
3. **The continuation codec and the limit+1 paging loop.** The API modules `list=projectpages`
   (current and older version) and `prop=pageassessments` share them. A token is written
   `"a|b"`, is accepted only when it splits into exactly two canonical 64-bit integers, and
   becomes a lexicographic `>=` resume condition.
4. **`inproject:`.** The search keyword's `parseValue` splits on `|` and keeps at most 32
   project names.

## Layout

- **Shared pieces.**
  - `wrappers.dfy`: the Option type.
  - `bytes.dfy`: byte strings and PHP's `explode`, `implode`, `str_replace` and `substr`.
  - `php_int.dfy`: PHP's `(int)` and `(string)` casts on 64-bit integers, and loose `==` on
    strings.
  - `storage.dfy`: the two tables, held in a `Database` class, and the pure effect of each row
    statement.
- **The current engine.**
  - `project_title.dfy`: `cleanProjectTitle`.
  - `reconcile.dfy`: what `doUpdates` computes, as functions of the old tables.
  - `reconcile_props.dfy` and `reconcile_runs.dfy`: the properties proved about those
    functions.
  - `dao.dfy`: the DAO's methods, written imperatively. `DoUpdates` is proved to leave the
    tables exactly as `Reconcile.ReconcileAll` says.
- **The legacy engine.**
  - `legacy.dfy`: the functional model of the older engine and its properties.
  - `legacy_body.dfy`: its imperative methods.
  - The older file's `getProjectId`, `getProjectName`, `updateRecord`, `deleteRecord`,
    `deleteRecordsForPage`, `getAllProjects` and `cacheAssessment` act on the tables exactly as
    the DAO's do. They are modelled once, in `dao.dfy`.
- **The API modules.**
  - `continuation.dfy`: the cursor codec.
  - `paging.dfy`: the list and generator loops.
  - `api_query.dfy`: name-to-id conversion, the WHERE clause, the ORDER BY choice and the
    continuation theorem shared by the modules.
  - `project_pages_api.dfy`, `legacy_project_pages_api.dfy` and `page_assessments_api.dfy`:
    the three modules.
- **Search.** `in_project.dfy`: `parseValue`.

## How the model is stated

- **Strings.** Strings are byte sequences (`seq<byte>`), because `substr` truncates by bytes.
- **Project ids.** `ProjectTable.nextId` stands for the auto-increment sequence behind
  `nextSequenceValue`/`insertId`.
- **Absent values.** A PHP `false` result ("not found") is `None`.
- **Grade comparison.** `updateRecord` compares the stored class and importance with PHP's
  loose `==` (`PhpInt.LooseEq`, `Storage.SameGrade`). Two numeric strings compare by value,
  so a stored `"01"` matches a declared `"1"`; other strings compare byte by byte.
- **Declarations.** Each is a `Declaration(project, quality, importance)`; `quality` is the
  `pa_class` column.
- **Proof strategy for `doUpdates`.**
  1. `doUpdates` is specified by `Reconcile.ReconcileAll`: a resolution pass, the three diff
     sets, a write pass and a delete pass.
  2. Every property about the tables after a run is proved on that function.
  3. `PageAssessmentsDAO.DoUpdates` carries it out with the three loops of the source and is
     proved equal to it.
- **The API modules.**
  - Their SQL `SELECT` is modelled by a sequence `all` of candidate rows: the join, in the
    order the database returns it.
  - The WHERE clause is `Filter`; `LIMIT limit+1` is `FirstRows`.
  - `$result->addValue` answers whether a value still fits the result's size limit. That
    answer is an oracle `fits`.
  - The theorems that paging loses and repeats nothing (`ContinuationLosesNothing`) take one
    hypothesis: the database returns rows in the order the chosen ORDER BY asks for.

## Model

| member | source | states |
|---|---|---|
| Bytes.Split | src/PageAssessmentsDAO.php:170 | `explode` always yields at least one piece |
| Bytes.SplitLimit | src/CirrusSearchInProjectFeature.php:25 | `explode` with a limit yields between one and `limit` pieces |
| Bytes.IndexOf | src/PageAssessmentsDAO.php:170-171 | the first separator's position: it holds the separator and none comes before it |
| Bytes.SplitPiecesAreSeparatorFree | src/CirrusSearchInProjectFeature.php:25 | no piece of an `explode` contains the separator |
| Bytes.JoinSplit | src/CirrusSearchInProjectFeature.php:25 | `implode` of an `explode` gives the string back |
| Bytes.SplitJoin | src/Api/ApiQueryProjectPages.php:168 | `explode` of an `implode` of separator-free pieces gives the pieces back |
| Bytes.SplitLimitIsSplit | src/CirrusSearchInProjectFeature.php:25 | the limited `explode` is the full split with every piece from position `limit-1` on joined back into the last one |
| Bytes.SplitLimitShort | src/CirrusSearchInProjectFeature.php:25 | with at most `limit` pieces the limited `explode` equals the full one |
| Bytes.SplitLimitLong | src/CirrusSearchInProjectFeature.php:25 | with more pieces, the last limited piece is the remaining full pieces joined with the separator |
| Bytes.ReplaceAllShrinks | src/PageAssessmentsDAO.php:223-227 | `str_replace` with a replacement no longer than the pattern never lengthens the string |
| Bytes.ReplaceAllAbsent | src/PageAssessmentsDAO.php:223-227 | `str_replace` leaves a string without the pattern unchanged |
| Bytes.Prefix | src/PageAssessmentsDAO.php:229 | `substr($s, 0, $n)` is the prefix of exactly `n` bytes, or the whole string when it is shorter |
| PhpInt.Digits | src/Api/ApiQueryProjectPages.php:174 | decimal digits of a natural number: non-empty, all digits, no leading zero |
| PhpInt.IntToString | src/Api/ApiQueryProjectPages.php:174 | `(string)$n` is never empty |
| PhpInt.StringToInt | src/Api/ApiQueryProjectPages.php:171-172 | `(int)$s` always yields a 64-bit integer: the value of the leading sign and digits when it fits, saturated otherwise |
| PhpInt.DigitValueOfDigits | src/Api/ApiQueryProjectPages.php:171-175 | the value of the decimal digits of `n` is `n` |
| PhpInt.StringToIntOfIntToString | src/Api/ApiQueryProjectPages.php:171-175 | `(int)(string)$n == $n` for every 64-bit `n` |
| PhpInt.CanonicalIntIff | src/Api/ApiQueryProjectPages.php:174-175 | `$s === (string)(int)$s` holds exactly for the decimal strings of 64-bit integers |
| PhpInt.CanonicalIntValue | src/Api/ApiQueryProjectPages.php:171-175 | a part passes the check and reads as `n` exactly when it is the string of `n` |
| PhpInt.RejectsLeadingZeros | src/Api/ApiQueryProjectPages.php:173-174 | "007" fails the check |
| PhpInt.RejectsLetters | src/Api/ApiQueryProjectPages.php:173-174 | "x" fails the check |
| PhpInt.RejectsEmpty | src/Api/ApiQueryProjectPages.php:173-174 | "" fails the check |
| PhpInt.LooseEqEquivalence | src/PageAssessmentsDAO.php:251-252 | PHP's loose `==` on strings is reflexive, symmetric and transitive |
| PhpInt.LooseEqOfNonNumeric | src/PageAssessmentsDAO.php:251-252 | equal bytes are loosely equal; a string that is not numeric is loosely equal only to itself |
| PhpInt.LooseEqOfIntegers | src/PageAssessmentsDAO.php:251-252 | two 64-bit integer strings are loosely equal exactly when their `(int)` casts agree |
| PhpInt.IntToStringIsInt64String | src/PageAssessmentsDAO.php:251-252 | `(string)$n` is a numeric string whose value is `n` |
| PhpInt.LooseEqZeroPadded | src/PageAssessmentsDAO.php:251-252 | "0" followed by the digits of `n` is loosely equal to the digits of `n`, though the bytes differ |
| Continuation.FormatCursor | src/Api/ApiQueryProjectPages.php:61 | the token written for a key holds the pipe separator |
| Continuation.ParseCursor | src/Api/ApiQueryProjectPages.php:167-176 | an accepted token holds two 64-bit integers and is exactly the token written for them |
| Continuation.SplitFormatCursor | src/Api/ApiQueryProjectPages.php:168 | a written token explodes into the two decimal strings |
| Continuation.ParseFormatCursor | src/Api/ApiQueryProjectPages.php:168-175 | the token written for a 64-bit key parses back to that key |
| Continuation.ParseCursorIff | src/Api/ApiQueryProjectPages.php:167-176 | the accepted tokens are exactly the tokens of 64-bit keys, each read as its own key |
| Continuation.ParseRejectsWrongArity | src/Api/ApiQueryProjectPages.php:168-169 | a token that does not explode into exactly two parts is rejected |
| Continuation.ParseRejectsNonCanonical | src/Api/ApiQueryProjectPages.php:171-175 | a token with a non-canonical part is rejected |
| Continuation.RejectsZeroPaddedProject | src/Api/ApiQueryProjectPages.php:173-174 | a token whose first part is "007" is rejected |
| Continuation.RejectsEmptyPart | src/Api/ApiQueryProjectPages.php:173-174 | a token whose first part is empty is rejected |
| Continuation.ResumesIsLexOrder | src/Api/ApiQueryProjectPages.php:177-178 | the resume condition keeps exactly the keys lexicographically at or after the cursor |
| Paging.StopFrom | src/Api/ApiQueryProjectPages.php:58-85 | the list loop leaves at the first row that is the (limit+1)-th or does not fit, and at no earlier row |
| Paging.Shown | src/Api/ApiQueryProjectPages.php:66-69 | the rows with a truthy name, all of them and only them |
| Paging.FirstRows | src/Api/ApiQueryProjectPages.php:153 | `LIMIT n`: a prefix of at most `n` rows, all rows when there are no more |
| Paging.ListRows | src/Api/ApiQueryProjectPages.php:58-85 | the list loop (count, break at limit+1, skip falsy names, break when a value does not fit) computes `ListPage` |
| Paging.GenerateRows | src/Api/ApiQueryProjectPages.php:90-98 | the generator loop processes the first `limit` rows and sets the token of row `limit` when there is one |
| Paging.StopWhenAllFit | src/Api/ApiQueryProjectPages.php:59-62 | when every value fits, the loop leaves exactly at the limit or at the end |
| Paging.StopWithinLimit | src/Api/ApiQueryProjectPages.php:59-62 | the loop never goes through more than `limit` rows |
| Paging.ListPageBound | src/Api/ApiQueryProjectPages.php:58-85 | a list page shows the named rows before the stop, at most `limit` of them |
| Paging.ListPageAllFit | src/Api/ApiQueryProjectPages.php:59-62 | when everything fits, a token is set exactly when there are more than `limit` rows, and it is row `limit`'s |
| Paging.NamelessRowsStillCount | api/ApiQueryPageAssessments.php:28-44 | rows without a project name still count toward the limit |
| Paging.ListIsGeneratorWhenAllShown | src/Api/ApiQueryProjectPages.php:56-99 | with every name truthy and every value fitting, list mode shows what generator mode processes |
| Paging.ResumeAtRow | src/Api/ApiQueryProjectPages.php:177-178 | on sorted rows, resuming at row `j`'s key gives exactly the rows from `j` on |
| Paging.ResumeKeepsAll | src/Api/ApiQueryProjectPages.php:177-178 | resuming at the first row's key keeps every sorted row |
| Paging.ResumeAfterFirst | src/Api/ApiQueryProjectPages.php:177-178 | rows that all pass the resume condition are all kept |
| Paging.NextPageResumesAtStop | src/Api/ApiQueryProjectPages.php:58-85 | a page's token parses back to its stop row's key, and the counted rows plus the rows resumed from there are all the rows |
| Paging.StopRowToken | src/Api/ApiQueryProjectPages.php:58-85 | the list page sets a token exactly when the loop stops at a row, and then it is that row's token |
| ApiQuery.ResolvedIds | src/Api/ApiQueryProjectPages.php:140-148 | the resolved ids, in request order, never more than the names |
| ApiQuery.Unresolved | src/Api/ApiQueryProjectPages.php:144-147 | the unresolved names, in request order |
| ApiQuery.ResolvedIdsIff | src/Api/ApiQueryProjectPages.php:140-148 | an id enters the IN-list exactly when a requested name is a project with that non-zero id |
| ApiQuery.UnresolvedIff | src/Api/ApiQueryProjectPages.php:144-147 | a name gets a badproject warning exactly when it is requested and does not resolve |
| ApiQuery.ResolvedCount | src/Api/ApiQueryProjectPages.php:140-148 | each requested name adds either an id or a warning, never both |
| ApiQuery.NoneResolved | src/Api/ApiQueryProjectPages.php:49-54 | no id resolves exactly when no requested name is a project |
| ApiQuery.ConvertNames | src/Api/ApiQueryProjectPages.php:138-149 | the conversion loop yields exactly `ResolvedIds` and `Unresolved` |
| ApiQuery.OrderAgreesWithKey | src/Api/ApiQueryProjectPages.php:159-164 | ORDER BY on the second column alone is key order when one id is in the IN-list; on both columns it is key order |
| ApiQuery.Filter | src/Api/ApiQueryProjectPages.php:152 | the WHERE clause never adds rows |
| ApiQuery.FilterMembers | src/Api/ApiQueryProjectPages.php:152-157 | the WHERE clause keeps exactly the candidate rows that match it |
| ApiQuery.Select | src/Api/ApiQueryProjectPages.php:152-153 | the SELECT returns at most `limit+1` rows, each a candidate that matches |
| ApiQuery.RunLoop | src/Api/ApiQueryProjectPages.php:56-99 | the loop of the chosen mode computes `PageOf` |
| ApiQuery.PageRows | src/Api/ApiQueryProjectPages.php:56-99 | a page shows at most `limit` of its rows, and its token is the token of one of them |
| ApiQuery.PageOfSelect | src/Api/ApiQueryProjectPages.php:49-99 | a page over the SELECT shows at most `limit` matching rows, and its token parses back to a matching row's key |
| ApiQuery.ShownRowsMatch | src/Api/ApiQueryProjectPages.php:49-99 | a page shows at most `limit` matching rows, all named in list mode |
| ApiQuery.FilterResume | src/Api/ApiQueryProjectPages.php:177-178 | the resume condition in the WHERE clause is `ResumeFrom` on the rows the IN-list keeps |
| ApiQuery.ResumeIsSuffix | src/Api/ApiQueryProjectPages.php:177-178 | on sorted rows the resume condition keeps a suffix |
| ApiQuery.MatchedSuffix | src/Api/ApiQueryProjectPages.php:155-157 | a request with any cursor matches a suffix of the rows the IN-list keeps |
| ApiQuery.StopKeyResumes | src/Api/ApiQueryProjectPages.php:171-178 | row `j`'s token parses back, and resuming there gives the rows from `j` on |
| ApiQuery.ContinueResumesAtStop | src/Api/ApiQueryProjectPages.php:58-85 | list mode: the next request matches exactly the rows from the stop row on, and the page showed the named rows before it |
| ApiQuery.GeneratorContinues | src/Api/ApiQueryProjectPages.php:90-98 | generator mode: the next request matches exactly the rows from row `limit` on, and the page processed the rows before it |
| ApiQuery.ListLastPage | src/Api/ApiQueryProjectPages.php:58-85 | a list page without a token went through every matched row |
| ApiQuery.PageContinues | src/Api/ApiQueryProjectPages.php:56-99 | in either mode, paging neither loses nor repeats a matched row |
| ApiQuery.OrderedRowsAreSorted | src/Api/ApiQueryProjectPages.php:159-164 | rows in the chosen ORDER BY are in key order |
| ProjectPagesApi.ApiQueryProjectPages.constructor | src/Api/ApiQueryProjectPages.php:21 | no project ids, no warnings, no conditions |
| ProjectPagesApi.ApiQueryProjectPages.BuildDbQuery | src/Api/ApiQueryProjectPages.php:102-165 | appends the resolved ids and one warning per unresolved name; fails exactly on a bad token; otherwise sets the resume condition and the ORDER BY for the ids |
| ProjectPagesApi.ApiQueryProjectPages.Run | src/Api/ApiQueryProjectPages.php:39-100 | warns about assessments in generator mode, then answers `Response`: the usage error, or the page over the matched rows (none without a resolved id) |
| ProjectPagesApi.ResponseRows | src/Api/ApiQueryProjectPages.php:46-54 | fails exactly on a bad token; at most `limit` rows, each of a resolved project; empty page without a token when nothing resolved |
| ProjectPagesApi.ContinuationLosesNothing | src/Api/ApiQueryProjectPages.php:155-178 | under the chosen ORDER BY, the next request matches exactly the rows from the stop row on, and the page put out the rows before it |
| LegacyProjectPagesApi.ApiQueryProjectPages.constructor | api/ApiQueryProjectPages.php:13 | no project ids, no warnings, no conditions |
| LegacyProjectPagesApi.ApiQueryProjectPages.BuildDbQuery | api/ApiQueryProjectPages.php:94-157 | as in the current module, with ORDER BY on both columns unless exactly one id |
| LegacyProjectPagesApi.ApiQueryProjectPages.Run | api/ApiQueryProjectPages.php:31-92 | the SELECT runs when an id resolved or no project was requested |
| LegacyProjectPagesApi.ResponseRows | api/ApiQueryProjectPages.php:41-46 | no requested project means no IN-list; requested projects with none resolved give an empty page |
| LegacyProjectPagesApi.ContinuationLosesNothing | api/ApiQueryProjectPages.php:146-168 | paging loses and repeats nothing, the request for every project included |
| PageAssessmentsApi.Execute | api/ApiQueryPageAssessments.php:13-65 | returns at once without pages; else the usage error on a bad token, or the list page over the selected rows; the ORDER BY is set only when the query is built |
| PageAssessmentsApi.ResponseRows | api/ApiQueryPageAssessments.php:13-65 | no pages give nothing whatever the token; otherwise at most `limit` named rows of requested pages |
| PageAssessmentsApi.ContinuationLosesNothing | api/ApiQueryPageAssessments.php:94-118 | under the chosen ORDER BY, the page-then-project token resumes exactly at the stop row, and the page showed the named rows before it |
| InProject.ParseValue | src/CirrusSearchInProjectFeature.php:22-39 | never more than 32 project names |
| InProject.ParseValueWarnsIff | src/CirrusSearchInProjectFeature.php:25-31 | the warning is added exactly when the value has more than 32 pipe-separated pieces |
| InProject.ParseValueKeepsAll | src/CirrusSearchInProjectFeature.php:25-38 | up to 32 pieces: the answer is the whole split, and joining it gives the value back |
| InProject.ParseValueTruncates | src/CirrusSearchInProjectFeature.php:25-37 | more pieces: the first 32 are kept, and the 33rd limited piece holding the rest is dropped |
| InProject.ParseValueNamesHaveNoPipe | src/CirrusSearchInProjectFeature.php:25-38 | no returned name contains the pipe separator |
| Storage.LookupId | src/PageAssessmentsDAO.php:182-190 | found exactly when the title has a row, with that row's id |
| Storage.LookupIdPositive | src/PageAssessmentsDAO.php:182-190 | under the row invariants a found id is positive, hence truthy |
| Storage.AddProject | src/PageAssessmentsDAO.php:198-210 | one new row, with the next id, and the parent only when it is truthy; other rows are unchanged |
| Storage.AddProjectValid | src/PageAssessmentsDAO.php:198-210 | inserting a project with an earlier parent keeps the row invariants |
| Storage.PageProjects | src/PageAssessmentsDAO.php:284-301 | exactly the project ids stored for the page |
| Storage.InsertIgnore | src/PageAssessmentsDAO.php:269-275 | INSERT IGNORE writes only an absent key; no other row changes |
| Storage.UpdateIfChanged | src/PageAssessmentsDAO.php:237-262 | no write when class and importance are equal under PHP's loose `==`; otherwise that one row gets the new class, importance and revision |
| Storage.UpdateKeepsZeroPaddedImportance | src/PageAssessmentsDAO.php:250-256 | a stored importance "0n" meets a declared "n" with the same class: nothing is written, and the stored spelling and revision stay |
| Storage.DeleteKey | src/PageAssessmentsDAO.php:308-316 | the row under the key is gone; no other row changes |
| Storage.DeletePage | src/PageAssessmentsDAO.php:325-332 | every row of the page is gone; no other row changes |
| Storage.DeleteProjects | src/PageAssessmentsDAO.php:120-131 | the page's rows for the given projects are gone; no other row changes |
| Storage.DeleteProjectsStep | src/PageAssessmentsDAO.php:120-131 | one more deleteRecord deletes one more project |
| ProjectTitle.CleanProjectTitle | src/PageAssessmentsDAO.php:221-230 | the cleaned title has at most 255 bytes |
| ProjectTitle.StripBoldRemovesBold | src/PageAssessmentsDAO.php:223 | no `'''` remains after the first replacement |
| ProjectTitle.StripSlashTheKeepsBoldFree | src/PageAssessmentsDAO.php:227 | the second replacement cannot create `'''` |
| ProjectTitle.CleanTitleHasNoBold | src/PageAssessmentsDAO.php:221-230 | a cleaned title never contains bold markup |
| ProjectTitle.CleanTitleKeepsCleanInput | src/PageAssessmentsDAO.php:221-230 | a short title without `'''` or `/the ` is unchanged |
| ProjectTitle.CleanTitleIsTruncation | src/PageAssessmentsDAO.php:221-230 | the result is the first min(255, length) bytes of the replaced title |
| ProjectTitle.CleanTitleOfBoldSubproject | src/PageAssessmentsDAO.php:223-229 | `a/the '''b'''` cleans to `a/b` |
| ProjectTitle.CleanTitleExample | tests/phpunit/PageAssessmentsDAOTest.php:103-108 | "Drinks/the '''Coffee task force'''" cleans to "Drinks/Coffee task force" |
| ProjectTitle.CleanTitleOfSlashThe | src/PageAssessmentsDAO.php:227 | a leading `/the ` becomes `/` |
| ProjectTitle.CleanTitleTwiceDiffers | src/PageAssessmentsDAO.php:221-230 | `/the the x` cleans to `/the x`, and that cleans to `/x` |
| ProjectTitle.CleanTitleNotIdempotent | src/PageAssessmentsDAO.php:221-230 | cleaning twice differs from cleaning once |
| Reconcile.ExtractParentProjectId | src/PageAssessmentsDAO.php:169-175 | a parent exactly when there is a `/`, the text before the first one is non-empty, and it names a project; the parent is that project's id |
| Reconcile.ParentIsEarlierProject | src/PageAssessmentsDAO.php:169-175 | an inferred parent is an existing, positive, earlier id |
| Reconcile.ParentOfNovelsTaskForce | src/PageAssessmentsDAO.php:161-164 | "Novels/…" has the parent "Novels" |
| Reconcile.EnsureProject | src/PageAssessmentsDAO.php:64-75 | get-or-create: an existing id is returned unchanged; otherwise one new row with the next id and, with subprojects on, the inferred parent; old rows are kept |
| Reconcile.CleanDeclaration | src/PageAssessmentsDAO.php:57-62 | a non-empty name is cleaned; class and importance are kept |
| Reconcile.CleanAll | src/PageAssessmentsDAO.php:55-62 | every declaration is cleaned in place, in order |
| Reconcile.ResolveStep | src/PageAssessmentsDAO.php:56-78 | one iteration adds the declared name to `$projects`, keeps old rows and adds only that name |
| Reconcile.ResolveAll | src/PageAssessmentsDAO.php:54-79 | `$projects` holds exactly the cleaned non-empty names, each with its row's id; only declared names are added |
| Reconcile.ResolveAllFreshIds | src/PageAssessmentsDAO.php:66-75 | a created project gets an id never handed out before |
| Reconcile.Diff | src/PageAssessmentsDAO.php:83-85 | toInsert and toUpdate partition the declared ids; toUpdate and toDelete partition the stored ones |
| ReconcileProps.Hits | src/PageAssessmentsDAO.php:90-96 | exactly the declarations that resolve to the project |
| ReconcileProps.UpdateFold | src/PageAssessmentsDAO.php:237-262 | repeated updateRecord: the row ends loosely equal (PHP `==`) to the last class and importance; it is untouched when every declaration was loosely equal to it, and its revision is bumped otherwise |
| ReconcileProps.WritePassUntouched | src/PageAssessmentsDAO.php:89-117 | a row the write pass never routes to keeps its value |
| ReconcileProps.WritePassInserted | src/PageAssessmentsDAO.php:106-107 | a project to insert holds the first declaration's values |
| ReconcileProps.WritePassUpdated | src/PageAssessmentsDAO.php:108-109 | a project to update has had updateRecord run for each declaration, in order |
| ReconcileProps.HitsIffNamed | src/PageAssessmentsDAO.php:90-96 | some declaration resolves to `p` exactly when `p` is a non-empty declared name's id |
| ReconcileProps.DeclaredIdsPositive | src/PageAssessmentsDAO.php:96 | no declared id is 0 |
| ReconcileProps.ReconcileOtherPagesUnchanged | src/PageAssessmentsDAO.php:44-132 | rows of other pages are unchanged |
| ReconcileProps.WriteAndDeleteProjects | src/PageAssessmentsDAO.php:89-131 | after both passes the page holds the ids some declaration reaches, and the kept stored ids |
| ReconcileProps.ReconcilePageProjects | src/PageAssessmentsDAO.php:44-132 | for a non-zero page, the page's project set is the named declared ids plus any stored id of a name cleaned to "" |
| ReconcileProps.ReconcileDeclaredSet | src/PageAssessmentsDAO.php:44-132 | when no name cleans to "", the page's project set equals the declared set |
| ReconcileProps.ReconcileNewProjectRow | src/PageAssessmentsDAO.php:104-107 | a project new to the page gets one row with the first declaration's values and the revision |
| ReconcileProps.NamesInjective | src/PageAssessmentsDAO.php:54-79 | distinct declared names have distinct ids |
| ReconcileProps.ReconcileStoredProjectRow | src/PageAssessmentsDAO.php:108-109 | a stored project's row is its stored row after updateRecord for each of its declarations in order (UpdateFold) |
| ReconcileProps.ReconcilePageZero | src/PageAssessmentsDAO.php:96 | page id 0 gets no writes; only undeclared stored ids are deleted |
| ReconcileRuns.ResolveAllSkipsUnnamed | src/PageAssessmentsDAO.php:57 | an empty-named declaration changes neither the project table nor `$projects` |
| ReconcileRuns.WritePassSkipsUnnamed | src/PageAssessmentsDAO.php:92-94 | the write pass skips an empty-named declaration |
| ReconcileRuns.ReconcileIgnoresUnnamed | src/PageAssessmentsDAO.php:55-94 | inserting an empty-named declaration anywhere changes neither table |
| ReconcileRuns.WritePassNoop | src/PageAssessmentsDAO.php:89-117 | the write pass changes nothing when every routed row already holds values loosely equal to the declared ones |
| ReconcileRuns.ResolveAgain | src/PageAssessmentsDAO.php:64-75 | a second resolution finds every project and creates none |
| ReconcileRuns.FirstRunGrades | src/PageAssessmentsDAO.php:89-117 | with declarations that agree up to loose `==`, each declared row holds a class and importance loosely equal to every declaration of it |
| ReconcileRuns.WriteAndDeleteNoop | src/PageAssessmentsDAO.php:89-131 | both passes change nothing on rows that are already up to date |
| ReconcileRuns.ReconcileIdempotent | src/PageAssessmentsDAO.php:44-132 | when repeated declarations agree up to loose `==`, a second run leaves both tables as the first left them |
| ReconcileRuns.NotIdempotentWhenDeclarationsDisagree | src/PageAssessmentsDAO.php:104-109 | a new project declared twice with classes that differ under loose `==` keeps the first class after one run and the last after a second |
| ReconcileRuns.PairFirstRun | src/PageAssessmentsDAO.php:106-107 | the first run inserts the first declaration of the pair |
| ReconcileRuns.PairStoredRun | src/PageAssessmentsDAO.php:108-109 | when the two classes differ under loose `==`, the next run updates the row to the last declaration of the pair |
| PageAssessmentsDAO.GetProjectId | src/PageAssessmentsDAO.php:182-190 | the id exactly when the title has a row |
| PageAssessmentsDAO.InsertProject | src/PageAssessmentsDAO.php:198-210 | returns the new id and adds the row; a duplicate title is an error that changes nothing; the table stays valid when the parent is an earlier id |
| PageAssessmentsDAO.UpdateRecord | src/PageAssessmentsDAO.php:237-262 | `UpdateIfChanged` on the assessments; the result is true on both paths |
| PageAssessmentsDAO.InsertRecord | src/PageAssessmentsDAO.php:269-275 | `InsertIgnore` on the assessments; true |
| PageAssessmentsDAO.GetAllProjects | src/PageAssessmentsDAO.php:284-301 | every project id stored for the page, each once |
| PageAssessmentsDAO.DeleteRecord | src/PageAssessmentsDAO.php:308-316 | `DeleteKey`; the project table is untouched |
| PageAssessmentsDAO.DeleteRecordsForPage | src/PageAssessmentsDAO.php:325-332 | `DeletePage`; the project table is untouched |
| PageAssessmentsDAO.CacheAssessment | src/PageAssessmentsDAO.php:341-353 | appends `[project, class, importance]` to the list, starting one if there is none |
| PageAssessmentsDAO.SelectTitle | src/PageAssessmentsDAO.php:147-152 | the title with that id, or None when no row has it |
| PageAssessmentsDAO.ProjectNameCache.GetProjectName | PageAssessmentsBody.php:111-130 | false for an id ≤ 0; a cached entry (a cached miss too) without a read; otherwise the looked-up title, which is then cached |
| PageAssessmentsDAO.GetOrInsertProject | src/PageAssessmentsDAO.php:64-75 | equals `EnsureProject`, and keeps the project table valid |
| PageAssessmentsDAO.ResolveProjects | src/PageAssessmentsDAO.php:54-79 | names cleaned in place (`CleanAll`), and `$projects` and the table as `ResolveAll` says; the table stays valid |
| PageAssessmentsDAO.WriteAssessments | src/PageAssessmentsDAO.php:89-117 | the assessments as `WritePass` says |
| PageAssessmentsDAO.DeleteStale | src/PageAssessmentsDAO.php:119-131 | `DeleteProjects` of toDelete, each deleted exactly once |
| PageAssessmentsDAO.DoUpdates | src/PageAssessmentsDAO.php:44-132 | both tables as `ReconcileAll` says; every stale project gets exactly one deleteRecord; the project table stays valid |
| LegacyReconcile.LegacyResolveStep | PageAssessmentsBody.php:48-55 | the raw name, the empty one included, gets an id |
| LegacyReconcile.LegacyResolveAll | PageAssessmentsBody.php:48-55 | `$projects` holds every raw name, with its row's id; new rows have fresh ids and no parent |
| LegacyReconcile.InsertStrict | PageAssessmentsBody.php:202-206 | a plain INSERT succeeds exactly on an absent key; a duplicate is an error that writes nothing |
| LegacyReconcile.LegacyHits | PageAssessmentsBody.php:64-66 | exactly the declarations routed to the project |
| LegacyReconcile.LegacyPassRow | PageAssessmentsBody.php:64-87 | after a write pass that got through, each row is as the routing says |
| LegacyReconcile.LegacyFailureSticks | PageAssessmentsBody.php:64-87 | once an insert fails, later declarations change nothing |
| LegacyReconcile.LegacyPassUntouched | PageAssessmentsBody.php:64-87 | the write pass touches no other page and no project 0 |
| LegacyReconcile.LegacyPassOk | PageAssessmentsBody.php:64-87 | the write pass gets through exactly when no project to insert is declared twice |
| LegacyReconcile.LegacyIdsInjective | PageAssessmentsBody.php:48-55 | ids are positive, and distinct names have distinct ids |
| LegacyReconcile.LegacyHitsIffDeclared | PageAssessmentsBody.php:64-66 | a declaration is routed to `p` exactly when `p` is a declared id |
| LegacyReconcile.LegacyOtherPagesUnchanged | PageAssessmentsBody.php:38-104 | other pages are unchanged, whether or not the run got through |
| LegacyReconcile.LegacyOkIff | PageAssessmentsBody.php:38-104 | the run gets through exactly when no project new to the page is declared twice |
| LegacyReconcile.LegacyDistinctNamesOk | PageAssessmentsBody.php:38-104 | distinct names always get through |
| LegacyReconcile.LegacyPageProjects | PageAssessmentsBody.php:38-104 | after a run that got through, on any page (0 included), the page's project set equals the declared raw names' ids |
| LegacyReconcile.LegacyWriteAndDeleteProjects | PageAssessmentsBody.php:56-101 | the same, for any `$projects` map without id 0 |
| LegacyReconcile.LegacyDeclaredRow | PageAssessmentsBody.php:64-87 | a new project holds its one declaration; a stored one has had updateRecord run for each declaration |
| PageAssessmentsBody.InsertRecord | PageAssessmentsBody.php:202-206 | `InsertStrict` on the assessments |
| PageAssessmentsBody.ResolveProjects | PageAssessmentsBody.php:48-55 | the table and `$projects` as `LegacyResolveAll` says; the table stays valid |
| PageAssessmentsBody.WriteAssessments | PageAssessmentsBody.php:64-88 | the assessments and success as `LegacyWritePass` says |
| PageAssessmentsBody.DoUpdates | PageAssessmentsBody.php:38-104 | both tables as `LegacyReconcileAll` says; stale projects are deleted once each when the run got through, and none are deleted otherwise; the project table stays valid |

## Left out

- **Database access and replication.** Database handles and the choice of replica or primary
  for each read are left out, together with replica staleness. A read from a lagging replica
  can miss a recent write, for example a project row `getProjectId` would otherwise find; the
  model reads the one `Database` object, which is always current.
  `commitAndWaitForReplication` with the `$i` counter (src/PageAssessmentsDAO.php:112-114,
  127-129) only paces writes and is left out as well.
- **Concurrency.** The race that IGNORE guards against is left out; INSERT IGNORE is modelled
  as a sequential "insert if absent".
- **Project-row uniqueness.** The project title is taken as a unique key of
  `page_assessments_projects`. A second insert of the same title is a database error
  (`InsertProject` returns None); `doUpdates` never issues one.
- **Failed inserts in the legacy engine.** A PHP exception is modelled as `ok == false`. Writes
  made before the failure are kept, and no delete runs afterwards.
- **Iteration order.** PHP keeps arrays in insertion order; the sets that model `$toDelete` and
  the `getAllProjects` result have no order. `PickOne` picks any element, so the order of the
  deletes is not modelled; their effect does not depend on it.
- PhpInt.StringToInt: only whitespace, sign and digits are modelled. PHP's exponent and
  hexadecimal forms (for example `"1e3"`) are left out. They cannot make a part pass the
  canonical check, because the check compares the part with `(string)` of the value.
- Storage.UpdateIfChanged: PHP's loose `==` is modelled for numeric strings of integer form
  whose value fits in 64 bits. Float forms (`"1.0"`, `"1e1"`, `".5"`) and integer strings
  beyond 64 bits, which PHP compares as floating-point values, compare byte by byte in the
  model. So for such values `PageAssessmentsDAO.UpdateRecord`, `ReconcileProps.UpdateFold`,
  `ReconcileProps.ReconcileStoredProjectRow`, `ReconcileRuns.FirstRunGrades`,
  `ReconcileRuns.ReconcileIdempotent`, `ReconcileRuns.PairStoredRun` and
  `ReconcileRuns.NotIdempotentWhenDeclarationsDisagree` can treat as different two grades
  that PHP finds equal. Numeric strings follow PHP 8, which allows trailing whitespace; under
  PHP 7 `"1 "` is not numeric.
- **Title truncation by the database.** The legacy engine does not truncate titles. Column-width
  truncation by the database is left out.
- **SQL assembly and the joins.** `all` stands for the join in the order the database returns
  it. The `pap_parent_id IS NULL` filter (api/ApiQueryPageAssessments.php:88-90) is a property of
  the candidate rows, so it is folded into `all`.
- **Result formatting.** `generateResultVals`, `addIndexedTagName`, `addArrayType` and the
  generator's `processDbRow` are left out. What a page puts out is modelled as a sequence of
  rows.
- **The result size limit.** Whether `addValue` fits is the oracle `fits`.
- **Database ordering.** That the database honours ORDER BY is a hypothesis of the
  `ContinuationLosesNothing` lemmas, not something the model proves.
- **src/Api/ApiQueryPageAssessments.php.** Its cursor parse and resume condition are delegated
  to `parseContinueParamOrDie` and `buildComparison`, which are not part of this model. Its
  loop is the one modelled for api/ApiQueryPageAssessments.php.
- **Other parts of the extension.** Hooks, the special page and pager, the job, the
  maintenance scripts, api/ApiQueryProjects.php, the Lua resolver and
  `CirrusSearchInProjectFeature::doApply` are not part of this model.
- **Warning texts and escaping.** Warnings are modelled by kind and project name; the message
  text and `wfEscapeWikiText` are left out.
- **`isset($parserData[0])`.** It is always true for the three-element lists that
  `cacheAssessment` builds, so a missing name is the empty byte string.
- PageAssessmentsDAO.ProjectNameCache.GetProjectName: the instance cache is a field of one
  object rather than a process-wide static. The cache can go stale if a project row changes.
  The contract states agreement with the table only for an unchanged table.

## Where the code departs from its documented behaviour

The model follows the code in each case below.

- **`cleanProjectTitle` is not idempotent.** `/the the x` cleans to `/the x` and then to `/x`
  (`ProjectTitle.CleanTitleNotIdempotent`).
- **`doUpdates` is idempotent only when repeated declarations of a project agree.** Here
  "agree" means equal under PHP's loose `==`. A project new to the page keeps the first
  declaration's values, because INSERT IGNORE keeps the first row written. A stored project
  takes the last declaration's values through `updateRecord`, unless they are loosely equal
  to what is stored.
  Running the same update twice can therefore change a row
  (`ReconcileRuns.NotIdempotentWhenDeclarationsDisagree`). Under agreement it is idempotent
  (`ReconcileRuns.ReconcileIdempotent`).
- **An empty cleaned name.** A non-empty name that cleans to the empty title (for example
  `'''`) still creates a project row with an empty title. Its stored assessment is neither
  written nor deleted (`ReconcileProps.ReconcilePageProjects`). The declared set and the stored
  set are equal only without such names (`ReconcileProps.ReconcileDeclaredSet`).
- **`updateRecord` returns true on both paths.** tests/phpunit/PageAssessmentsDAOTest.php:52-54
  expects false for an update that changes nothing. The model returns true.
- **The legacy engine fails on a duplicate insert.** A project that is new to the page and
  declared twice makes the plain INSERT fail on the second declaration
  (`LegacyReconcile.LegacyOkIff`).
