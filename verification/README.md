# sygsy syllabus workflow — a Dafny model

sygsy manages university course syllabi ("sílabos").

- **Coordinators** create a syllabus for an academic period. They create it from a fixed template, from a spreadsheet, or in bulk from a sheet of many rows. They then assign it to a professor, and approve it or return it.
- **Professors** fill in the text sections, the units and the evaluations, and send the syllabus for review.

This project models the core of that workflow as pure functions over immutable datatypes. It covers:

- the backend service rules;
- the authorization done in the syllabus controller;
- the spreadsheet row mapping;
- the user, academic-period and career registries;
- the pure client logic built on top of them: the list filter, action buttons, status labels, dashboard counters, the editor's state updates and the role display names.

Repositories are sequences of records. A fresh id is larger than every stored id. Every operation that can fail returns a `Result` and, on failure, no new store, so a failed request changes nothing.

| module (file) | models |
|---|---|
| `Base` (base.dfy) | `Option`, `Result` and the error cases the services raise |
| `Text` (text.dfy) | Java `trim`, ASCII `equalsIgnoreCase`, decimal rendering, JavaScript `parseInt`, `toRoman` |
| `Domain` (domain.dfy) | status enum, roles, user, syllabus and its parts, builder/constructor defaults, `onCreate` |
| `Stores` (stores.dfy) | the repositories as sequences, filters, look-ups, fresh ids, well-formedness (`Wf`) |
| `Excel` (excel.dfy) | `ExcelService.parseAllSyllabi` |
| `SyllabusRules` (syllabus_rules.dfy) | `SyllabusService` |
| `SyllabusEndpoints` (endpoints.dfy) | `SyllabusController` role guards, list routing, status endpoint |
| `Accounts` (accounts.dfy) | `UserController` and `AuthController.register`/`registerBatch` |
| `Periods` (periods.dfy) | `AcademicPeriodService` |
| `Careers` (careers.dfy) | `CareerService` |
| `SyllabiView` (syllabi_view.dfy) | `SyllabiPage.tsx` |
| `Editor` (editor.dfy) | `SyllabusEditPage.tsx` |
| `Dashboard` (dashboard.dfy) | `Dashboard.tsx` statistics |
| `RoleNames` (role_names.dfy) | `roleUtils.ts` |

Several behaviours of the code are easy to miss when reading it, and the model keeps each of them as the code has it:

- **Status changes.** The server never checks the current workflow status when a status change is requested. The CREATED → ASSIGNED → SUBMITTED → APPROVED/RETURNED order exists only in which buttons the list page shows. `SyllabusEndpoints.CoordinatorReopensApproved` states that a coordinator can move an APPROVED syllabus back to CREATED.
- **List scoping.** `listSyllabi` in the controller does not call `getSyllabi`, so a coordinator who has a career still receives every syllabus. `SyllabusEndpoints.ListShowsOtherCareers` exhibits this.
- **Excel upload signature.** The controller calls a two-argument `updateSyllabusFromExcel`. The three-argument service method, which also takes the acting username, is the one modelled.
- **Career of a user.** `User.java` has no career field, yet the services read and write one. The modelled user carries an optional career.
- **Career of a new syllabus.** The creation request's career is read the way the service reads it (`dto.getCareer()`). It is an optional field of `CreateRequest`.

## Model

| member | source | states |
|---|---|---|
| Domain.Ordinal | src/main/java/com/sygsy/backend/domain/Syllabus.java:398-404 | every status sits at a position of the five-value list CREATED, ASSIGNED, SUBMITTED, APPROVED, RETURNED: the enum is closed |
| Domain.StatusName | src/main/java/com/sygsy/backend/domain/Syllabus.java:398-404 | `valueOf(name())` is the identity: the name of a status parses back to it and to no other status |
| Domain.ParseStatusOnlyNames | src/main/java/com/sygsy/backend/domain/Syllabus.java:398-404 | `valueOf` accepts exactly the five names; any accepted string is the name of the status it yields |
| Domain.Build | src/main/java/com/sygsy/backend/domain/Syllabus.java:100-132 | the constructor turns null units and evaluations into empty lists, a null workflow status into CREATED, and copies every other modelled field, the id included |
| Domain.WorkflowStatusDefaults | src/main/java/com/sygsy/backend/domain/Syllabus.java:79-79 | the field initialiser, the builder default and the constructor's null mapping all yield CREATED |
| Domain.OnCreate | src/main/java/com/sygsy/backend/domain/Syllabus.java:134-141 | after the persist hook the audit status is never null: a null one becomes ACTIVE, a present one is kept, nothing else changes |
| Domain.SetWorkflowStatus | src/main/java/com/sygsy/backend/domain/Syllabus.java:354-356 | the setter sets the workflow status to the given value and leaves every other field as it was |
| Text.Trim | src/main/java/com/sygsy/backend/service/SyllabusService.java:130-132 | Java `trim`: the result is an infix of the input with only trimmable characters cut on either side, it neither starts nor ends with a character at or below space, and it is empty exactly when every character is trimmable |
| Text.ParseIntString | frontend/src/pages/SyllabusEditPage.tsx:156-160 | `parseInt` reads back every integer the page renders into a section id |
| Text.ToRoman | src/main/java/com/sygsy/backend/service/SyllabusService.java:278-286 | 1–4 become I, II, III and IV; any other number becomes its decimal text, which parses back to it |
| Excel.StringValue | src/main/java/com/sygsy/backend/service/ExcelService.java:86-89 | a missing cell reads as the empty string; only a cell whose formatting fails reads as nothing |
| Excel.NumericValue | src/main/java/com/sygsy/backend/service/ExcelService.java:91-105 | a cell reads as its parsed number when it is present, non-empty and parseable, and as 0 otherwise |
| Excel.ReadTexts | src/main/java/com/sygsy/backend/service/ExcelService.java:47-60 | reading a set of text columns fails exactly when one of them cannot be formatted, and otherwise yields the cell texts in column order |
| Excel.MapRow | src/main/java/com/sygsy/backend/service/ExcelService.java:37-71 | a row maps to a syllabus exactly when its first cell is present and not blank and no text cell fails; the result is a CREATED syllabus carrying columns 0, 1, 3–13 in their fixed fields and nothing else |
| Excel.PeriodColumnIgnored | src/main/java/com/sygsy/backend/service/ExcelService.java:47-60 | whatever column 2 holds does not change the mapped syllabus |
| Excel.MapRowsCreated | src/main/java/com/sygsy/backend/service/ExcelService.java:63-63 | every syllabus produced from a sheet is CREATED |
| Excel.MapRowsEmpty | src/main/java/com/sygsy/backend/service/ExcelService.java:74-76 | no syllabus results exactly when no row maps |
| Excel.MapRowsAppend | src/main/java/com/sygsy/backend/service/ExcelService.java:37-72 | rows are mapped independently and in order: the result for two blocks of rows is the concatenation of their results |
| Excel.MapRowsSkip | src/main/java/com/sygsy/backend/service/ExcelService.java:39-41 | a row that does not map contributes nothing: removing it leaves the output unchanged |
| Excel.ParseAllSyllabi | src/main/java/com/sygsy/backend/service/ExcelService.java:21-82 | the parse fails with "no valid rows" exactly when no row after the header maps; otherwise it yields the mapping of every row after the header that maps, in row order: between one and (rows − 1) CREATED syllabi |
| Excel.HeaderIgnored | src/main/java/com/sygsy/backend/service/ExcelService.java:32-35 | the content of the first row never affects the result |
| Excel.BadRowDropped | src/main/java/com/sygsy/backend/service/ExcelService.java:67-71 | a data row that fails to map is dropped, not fatal: deleting it from the sheet gives the same result |
| SyllabusRules.ActingCoordinator | src/main/java/com/sygsy/backend/service/SyllabusService.java:38-44 | succeeds only with a stored user of that username whose role is COORDINATOR; "user not found" exactly when no user has that username |
| SyllabusRules.ActingCoordinatorIff | src/main/java/com/sygsy/backend/service/SyllabusService.java:38-44 | with unique usernames, the guard passes if and only if a coordinator with that username is stored |
| SyllabusRules.ResolvePeriod | src/main/java/com/sygsy/backend/service/SyllabusService.java:46-56 | the period is found by id when an id is given, else by name; it fails exactly when the chosen lookup finds nothing or neither is given, with the matching error |
| SyllabusRules.ResolveProfessor | src/main/java/com/sygsy/backend/service/SyllabusService.java:59-67 | a professor email resolves only to a stored user of that username with role PROFESSOR; "not found" exactly when no such username exists |
| SyllabusRules.ResolveProfessorIff | src/main/java/com/sygsy/backend/service/SyllabusService.java:59-67 | with unique usernames, resolution succeeds if and only if a PROFESSOR with that username is stored |
| SyllabusRules.TargetCareer | src/main/java/com/sygsy/backend/service/SyllabusService.java:70-79 | a coordinator with a career always creates in that career; one without must supply a non-empty career, or creation fails with "career required" |
| SyllabusRules.UnitTemplate | src/main/java/com/sygsy/backend/service/SyllabusService.java:93-103 | the template has four units, the i-th numbered i+1 and titled "UNIDAD " followed by the roman numeral |
| SyllabusRules.UnitTemplateTitles | src/main/java/com/sygsy/backend/service/SyllabusService.java:93-103 | the template units are numbered 1–4 in increasing order and titled UNIDAD I … UNIDAD IV |
| SyllabusRules.EvaluationTemplate | src/main/java/com/sygsy/backend/service/SyllabusService.java:105-113 | six evaluations named EVIDENCIA 1, EVIDENCIA 2, EXAMEN PARCIAL, EVIDENCIA 3, EVIDENCIA 4, EXAMEN FINAL, weighted 10/10/30/10/10/30, without id |
| SyllabusRules.TemplateWeightsTotal | src/main/java/com/sygsy/backend/service/SyllabusService.java:105-113 | the template's weights add up to 100 % |
| SyllabusRules.TemplateSyllabus | src/main/java/com/sygsy/backend/service/SyllabusService.java:81-113 | a syllabus built from the template is CREATED and ACTIVE, has no text content, the four template units and six template evaluations, and the coordinator as owner and creator |
| SyllabusRules.RequestedProfessor | src/main/java/com/sygsy/backend/service/SyllabusService.java:59-67 | no email means no professor; a given email succeeds exactly when it resolves to a professor, and fails with that resolution's error |
| SyllabusRules.InsertTemplateSyllabus | src/main/java/com/sygsy/backend/service/SyllabusService.java:81-115 | saving a template syllabus keeps it a template syllabus with the same general data and professor, and gives each of its evaluations a distinct id above every stored one |
| Stores.NumberEvaluations | src/main/java/com/sygsy/backend/domain/Evaluation.java:12-14 | the cascade gives every evaluation an id: present ids are kept, missing ones become distinct ids at or above the given start, and no other field changes |
| Stores.InsertSyllabus | src/main/java/com/sygsy/backend/domain/Syllabus.java:73-74 | saving a new syllabus appends it with an id above every stored one, runs the persist hook, and gives each id-less evaluation an id above every stored evaluation id, so distinct present ids become distinct ids throughout |
| SyllabusRules.CreateSyllabus | src/main/java/com/sygsy/backend/service/SyllabusService.java:36-116 | on success exactly one new syllabus is appended, with a fresh id, built from the template for the resolved period, whose general data hold exactly the target career and the requested course name, code and email, linked to a stored PROFESSOR iff an email was given, and with six evaluations whose ids are distinct and above every stored evaluation id; the guards run in the order coordinator, period, professor, career, and the first failing guard's error is returned unchanged |
| SyllabusRules.CreateSyllabusSteps | src/main/java/com/sygsy/backend/service/SyllabusService.java:36-116 | creation succeeds if and only if all four checks pass: coordinator, period, professor, career |
| SyllabusRules.CreateSyllabusSucceedsIff | src/main/java/com/sygsy/backend/service/SyllabusService.java:36-116 | with unique usernames, creation succeeds exactly when the stored data permits it, stated directly over the stores |
| SyllabusRules.CreateSyllabusWf | src/main/java/com/sygsy/backend/service/SyllabusService.java:115-115 | saving a created syllabus keeps every id and name unique |
| SyllabusRules.LocateSyllabus | src/main/java/com/sygsy/backend/service/SyllabusService.java:123-123 | finds a stored syllabus with that id, and fails with "syllabus not found" exactly when there is none |
| SyllabusRules.PreferFilled | src/main/java/com/sygsy/backend/service/SyllabusService.java:162-163 | the sheet's value wins only when it is present and non-empty; otherwise the stored value is kept |
| SyllabusRules.MergeGeneral | src/main/java/com/sygsy/backend/service/SyllabusService.java:152-166 | the merge takes every general field from the sheet except course code and name, which are taken only when non-empty, and keeps the stored professor email |
| SyllabusRules.MergeGeneralIdempotent | src/main/java/com/sygsy/backend/service/SyllabusService.java:152-166 | uploading the same sheet twice gives the same general data as uploading it once |
| SyllabusRules.MergeGeneralReads | src/main/java/com/sygsy/backend/service/SyllabusService.java:152-166 | the merge depends on the stored data only through course code, course name and professor email |
| SyllabusRules.UpdateSyllabusFromExcel | src/main/java/com/sygsy/backend/service/SyllabusService.java:119-169 | errors in the source's order: unknown user, unknown syllabus, no valid rows; then it fails exactly on a career-scope violation or on two different professor emails; on success only the general data of that syllabus changes, to the merge of the first row |
| SyllabusRules.UpdateFromExcelRespectsScope | src/main/java/com/sygsy/backend/service/SyllabusService.java:130-149 | after a successful upload, a career-scoped coordinator's syllabus carries that career (trimmed, ignoring case), and the professor email is unchanged |
| SyllabusRules.UpdateFromExcelWf | src/main/java/com/sygsy/backend/service/SyllabusService.java:152-168 | the spreadsheet merge keeps the store well formed |
| SyllabusRules.FirstOutOfScope | src/main/java/com/sygsy/backend/service/SyllabusService.java:187-196 | finds the first row whose career is outside the coordinator's, and finds nothing exactly when every row is in scope |
| SyllabusRules.RowProfessor | src/main/java/com/sygsy/backend/service/SyllabusService.java:204-211 | a row's professor lookup fails exactly when it has a non-empty email that does not resolve to a professor; otherwise the row is linked to that professor, or to none when the email is missing or empty |
| SyllabusRules.ImportRows | src/main/java/com/sygsy/backend/service/SyllabusService.java:200-264 | when every row imports, one template syllabus per row is appended in row order, carrying that row's general data, with its evaluations given distinct ids |
| SyllabusRules.FirstFailingRow | src/main/java/com/sygsy/backend/service/SyllabusService.java:204-211 | finds the first row whose professor lookup fails, and finds nothing exactly when every lookup succeeds |
| SyllabusRules.ImportRowsFailure | src/main/java/com/sygsy/backend/service/SyllabusService.java:200-264 | the import of rows fails if and only if some row's professor lookup fails, and the error is the first such row's |
| SyllabusRules.ImportRowsWf | src/main/java/com/sygsy/backend/service/SyllabusService.java:200-264 | appending imported rows keeps syllabus ids present and unique |
| SyllabusRules.LookupPeriod | src/main/java/com/sygsy/backend/service/SyllabusService.java:180-181 | finds the stored period with that id; "period not found" exactly when there is none |
| SyllabusRules.ScopeCheck | src/main/java/com/sygsy/backend/service/SyllabusService.java:187-196 | the scope check passes exactly when the coordinator has no career scope or every row is in that scope |
| SyllabusRules.ImportParsedRows | src/main/java/com/sygsy/backend/service/SyllabusService.java:185-266 | once the rows are parsed, the import succeeds exactly when every row is in the coordinator's scope and no row's professor fails; otherwise it fails with the scope error, checked first, or with the first failing row's error; on success the store gains one template syllabus per row, in row order, carrying that row's general data, and all in the coordinator's career when it is scoped |
| SyllabusRules.ImportSyllabiFromExcel | src/main/java/com/sygsy/backend/service/SyllabusService.java:172-267 | the coordinator guard's error, then "period not found", then "no valid rows", in the service's order; once the coordinator, period and sheet are valid, the outcome is that of the row import, all or nothing: it succeeds iff every row is in scope and every row's professor resolves; then it appends one template syllabus per row, in order, and all are in the coordinator's career |
| SyllabusRules.ImportWf | src/main/java/com/sygsy/backend/service/SyllabusService.java:172-267 | the bulk import keeps the store well formed |
| SyllabusRules.GetSyllabi | src/main/java/com/sygsy/backend/service/SyllabusService.java:296-323 | fails only for an unknown user; otherwise returns exactly the stored syllabi visible to the user: a professor's own, a scoped coordinator's career (ignoring case), all for an unscoped coordinator |
| SyllabusRules.GetSyllabiOrdered | src/main/java/com/sygsy/backend/service/SyllabusService.java:296-323 | the visible list keeps the store's order |
| SyllabusRules.NoCareerHiddenFromScopedCoordinator | src/main/java/com/sygsy/backend/service/SyllabusService.java:305-313 | a syllabus without a career is never shown to a coordinator who has one |
| SyllabusRules.GetSyllabiByProfessor | src/main/java/com/sygsy/backend/service/SyllabusService.java:325-329 | fails only for an unknown user; otherwise returns exactly the syllabi assigned to that user |
| SyllabusRules.GetSyllabiByStatus | src/main/java/com/sygsy/backend/service/SyllabusService.java:292-294 | returns exactly the stored syllabi in the given workflow status |
| SyllabusRules.StatusListsPartition | src/main/java/com/sygsy/backend/service/SyllabusService.java:292-294 | the five per-status lists together have as many entries as the store |
| SyllabusRules.GetSyllabus | src/main/java/com/sygsy/backend/service/SyllabusService.java:331-334 | returns a stored syllabus with that id; "not found" exactly when there is none |
| SyllabusRules.ApplyContent | src/main/java/com/sygsy/backend/service/SyllabusService.java:341-364 | the six text sections are overwritten, units and evaluations only when supplied, and nothing else changes |
| SyllabusRules.ApplyContentIdempotent | src/main/java/com/sygsy/backend/service/SyllabusService.java:341-364 | applying the same update twice is the same as applying it once |
| SyllabusRules.UpdateSyllabus | src/main/java/com/sygsy/backend/service/SyllabusService.java:337-367 | fails exactly for an unknown id; otherwise only that syllabus changes, by the content merge, keeping its general data and workflow status |
| SyllabusRules.UpdateStatus | src/main/java/com/sygsy/backend/service/SyllabusService.java:370-374 | fails exactly for an unknown id; otherwise only that syllabus changes, and only its workflow status, to the requested one |
| SyllabusRules.UpdateStatusIgnoresCurrent | src/main/java/com/sygsy/backend/service/SyllabusService.java:370-374 | the outcome of a status change does not depend on the syllabus's current status |
| SyllabusRules.UpdatesWf | src/main/java/com/sygsy/backend/service/SyllabusService.java:337-374 | both updates keep the store well formed |
| SyllabusRules.DeleteSyllabus | src/main/java/com/sygsy/backend/service/SyllabusService.java:376-378 | removes exactly the syllabi with that id, keeps the others in order, and leaves users, periods and careers alone |
| SyllabusRules.DeleteUnknownIsNoOp | src/main/java/com/sygsy/backend/service/SyllabusService.java:376-378 | deleting an id that is not stored changes nothing |
| SyllabusEndpoints.CreateEndpoint | src/main/java/com/sygsy/backend/controller/SyllabusController.java:27-34 | without COORDINATOR authority the call is denied; with it, it is the service's creation |
| SyllabusEndpoints.UploadExcelEndpoint | src/main/java/com/sygsy/backend/controller/SyllabusController.java:36-43 | without COORDINATOR authority the call is denied; with it, it is the service's spreadsheet merge |
| SyllabusEndpoints.UploadBulkEndpoint | src/main/java/com/sygsy/backend/controller/SyllabusController.java:45-54 | without COORDINATOR authority the call is denied; with it, it is the service's bulk import |
| SyllabusEndpoints.GuardedEndpointsNeedCoordinator | src/main/java/com/sygsy/backend/controller/SyllabusController.java:27-54 | none of the three guarded endpoints ever succeeds for a caller without COORDINATOR authority |
| SyllabusEndpoints.ListSyllabi | src/main/java/com/sygsy/backend/controller/SyllabusController.java:67-84 | a coordinator with a status filter gets exactly the syllabi in that status, without a filter the whole store; anyone else gets exactly the syllabi assigned to them, or an error when unknown |
| SyllabusEndpoints.ListIgnoresCareer | src/main/java/com/sygsy/backend/controller/SyllabusController.java:67-84 | a coordinator's list does not depend on any user record, so not on the coordinator's career |
| SyllabusEndpoints.ListShowsOtherCareers | src/main/java/com/sygsy/backend/controller/SyllabusController.java:67-84 | every stored syllabus that the service's visibility rule hides from a career-scoped coordinator is still listed to that coordinator |
| SyllabusEndpoints.ListShowsOtherCareersExample | src/main/java/com/sygsy/backend/controller/SyllabusController.java:67-84 | one instance: a coordinator of career A is listed a syllabus of career B, while `getSyllabi` gives that coordinator nothing |
| SyllabusEndpoints.UpdateStatusEndpoint | src/main/java/com/sygsy/backend/controller/SyllabusController.java:96-115 | a professor asking for anything but SUBMITTED is rejected, a caller with neither role is rejected; otherwise the service sets exactly the requested status; success iff permitted and the syllabus exists |
| SyllabusEndpoints.CoordinatorReopensApproved | src/main/java/com/sygsy/backend/controller/SyllabusController.java:96-115 | a coordinator can move an APPROVED syllabus back to CREATED: the server enforces no workflow order |
| SyllabusEndpoints.ProfessorSubmitsAnySyllabus | src/main/java/com/sygsy/backend/controller/SyllabusController.java:96-115 | a professor can submit any existing syllabus, including one not assigned to them |
| SyllabusEndpoints.StatusEndpointIgnoresCurrent | src/main/java/com/sygsy/backend/controller/SyllabusController.java:96-115 | the endpoint's outcome does not depend on the current workflow status |
| Accounts.ListProfessors | src/main/java/com/sygsy/backend/controller/UserController.java:28-31 | returns exactly the stored PROFESSOR users |
| Accounts.ListCoordinators | src/main/java/com/sygsy/backend/controller/UserController.java:33-36 | returns exactly the stored COORDINATOR users |
| Accounts.RoleListsPartition | src/main/java/com/sygsy/backend/controller/UserController.java:28-36 | every user is in exactly one of the two lists |
| Accounts.PatchUser | src/main/java/com/sygsy/backend/controller/UserController.java:41-45 | career and full name are overwritten only when supplied; role, username, password and status never change |
| Accounts.PatchUserIdempotent | src/main/java/com/sygsy/backend/controller/UserController.java:41-45 | applying the same patch twice equals applying it once |
| Accounts.EmptyPatchKeepsUser | src/main/java/com/sygsy/backend/controller/UserController.java:41-45 | a patch that supplies nothing leaves the user unchanged |
| Accounts.UpdateUser | src/main/java/com/sygsy/backend/controller/UserController.java:38-47 | fails with "not found" exactly for an unknown id; otherwise only that user is replaced, by its patched version |
| Accounts.UpdateUserWf | src/main/java/com/sygsy/backend/controller/UserController.java:38-47 | updating a user keeps ids and usernames unique |
| Accounts.NewAccount | src/main/java/com/sygsy/backend/controller/AuthController.java:72-74 | the stored user has the request's username, full name, role and career, the encoded password, status ACTIVE, and a fresh id |
| Accounts.Register | src/main/java/com/sygsy/backend/controller/AuthController.java:64-75 | fails with "username taken" exactly when the username is stored; otherwise appends one user built from the request |
| Accounts.RegisterWf | src/main/java/com/sygsy/backend/controller/AuthController.java:64-75 | registering keeps ids and usernames unique |
| Accounts.RegisterEndpoint | src/main/java/com/sygsy/backend/controller/AuthController.java:64-66 | without COORDINATOR authority the call is denied; with it, it is registration |
| Accounts.BatchOutcome | src/main/java/com/sygsy/backend/controller/AuthController.java:76-98 | a batch only appends to the store, and saves at most one user per request |
| Accounts.BatchSkipsTaken | src/main/java/com/sygsy/backend/controller/AuthController.java:83-90 | no saved user reuses a username that was already stored |
| Accounts.BatchSavesOnce | src/main/java/com/sygsy/backend/controller/AuthController.java:83-94 | a username repeated within a batch is saved once |
| Accounts.BatchKeepsUnique | src/main/java/com/sygsy/backend/controller/AuthController.java:76-98 | a batch keeps stored ids and usernames unique |
| Accounts.BatchCoversRequests | src/main/java/com/sygsy/backend/controller/AuthController.java:83-94 | after a batch, every requested username is stored, either from before or newly saved |
| Accounts.UnseenNameIsFirst | src/main/java/com/sygsy/backend/controller/AuthController.java:83-90 | a request whose username the store does not yet hold is the first request of that name in the batch |
| Accounts.BatchOutcomeNext | src/main/java/com/sygsy/backend/controller/AuthController.java:83-94 | one more request either leaves the outcome as it was, when its username is taken, or appends exactly one new account to both the store and the saved list |
| Accounts.BatchSavesFirstRequests | src/main/java/com/sygsy/backend/controller/AuthController.java:83-94 | every saved user is built from the first request in the batch with that username |
| Accounts.BatchKeepsOrder | src/main/java/com/sygsy/backend/controller/AuthController.java:94-97 | the saved users come in request order |
| Accounts.RegisterBatch | src/main/java/com/sygsy/backend/controller/AuthController.java:76-98 | the loop returns exactly the saved users: it appends them to the store, never reuses a stored name, saves each name once from its first request, keeps request order and uniqueness, and every requested name ends up stored |
| Periods.NewPeriod | src/main/java/com/sygsy/backend/service/AcademicPeriodService.java:39-47 | the new period has the requested name and dates, the creator as coordinator and createdBy, and a fresh id |
| Periods.CreatePeriod | src/main/java/com/sygsy/backend/service/AcademicPeriodService.java:24-48 | an unknown user or a non-coordinator is rejected with the guard's error, a taken name with "name taken"; success appends exactly one period with the given name and dates owned by the acting coordinator |
| Periods.CreatePeriodSucceedsIff | src/main/java/com/sygsy/backend/service/AcademicPeriodService.java:24-48 | with unique usernames, creation succeeds iff a coordinator of that username is stored and the name is free |
| Periods.CreatePeriodWf | src/main/java/com/sygsy/backend/service/AcademicPeriodService.java:24-48 | creating a period keeps the store well formed |
| Periods.PeriodsByCoordinator | src/main/java/com/sygsy/backend/service/AcademicPeriodService.java:54-58 | fails exactly for an unknown user; otherwise returns, in store order, exactly the periods that user coordinates |
| Periods.GetPeriod | src/main/java/com/sygsy/backend/service/AcademicPeriodService.java:60-63 | returns the stored period with that id; "not found" exactly when there is none |
| Periods.CreatedPeriodFound | src/main/java/com/sygsy/backend/service/AcademicPeriodService.java:24-63 | a newly created period is found by id and appears among its creator's periods |
| Careers.CreateCareer | src/main/java/com/sygsy/backend/service/CareerService.java:28-33 | fails with "name taken" exactly when the name is stored; otherwise appends one career with that name and a new id |
| Careers.CreateCareerWf | src/main/java/com/sygsy/backend/service/CareerService.java:28-33 | creation keeps ids and names unique, and exactly one career then has that name |
| Careers.DeleteCareer | src/main/java/com/sygsy/backend/service/CareerService.java:35-37 | the careers with that id are gone, every other career stays, in order, and nothing is added |
| Careers.DeleteUnknownCareer | src/main/java/com/sygsy/backend/service/CareerService.java:35-37 | deleting an id that is not stored changes nothing |
| Careers.DeleteCareerRemovesOne | src/main/java/com/sygsy/backend/service/CareerService.java:35-37 | with unique ids, deleting the k-th career's id removes exactly that entry |
| SyllabiView.FilterSyllabi | frontend/src/pages/SyllabiPage.tsx:171-175 | the shown list is an order-preserving subsequence of the fetched one: only the selected period, never CREATED for a professor, and every syllabus meeting both conditions is shown |
| SyllabiView.NonProfessorSeesAll | frontend/src/pages/SyllabiPage.tsx:171-175 | without a period selection, anyone but a professor sees the whole fetched list |
| SyllabiView.ProfessorSeesAllButCreated | frontend/src/pages/SyllabiPage.tsx:171-175 | without a period selection, a professor sees exactly the non-CREATED syllabi |
| SyllabiView.StatusLabel | frontend/src/pages/SyllabiPage.tsx:177-199 | an empty status shows "---"; a known status a role-specific label; an unknown status, an unknown role, or CREATED for a professor shows the raw string |
| SyllabiView.CoordinatorLabelsDistinct | frontend/src/pages/SyllabiPage.tsx:177-199 | a coordinator sees five different labels for the five statuses |
| SyllabiView.ProfessorSeesRawCreated | frontend/src/pages/SyllabiPage.tsx:177-199 | a professor sees CREATED as the raw word "CREATED" |
| SyllabiView.RowButtons | frontend/src/pages/SyllabiPage.tsx:308-380 | assign only for a coordinator on CREATED, approve and return only for a coordinator on SUBMITTED, upload and delete for any coordinator, edit only for a professor, PDF always, each at most once |
| SyllabiView.ConfirmAction | frontend/src/pages/SyllabiPage.tsx:104-130 | DELETE and only DELETE sends a deletion; assign requests ASSIGNED, approve APPROVED and return RETURNED |
| SyllabiView.ConfirmActionInjective | frontend/src/pages/SyllabiPage.tsx:109-120 | different actions send different requests |
| SyllabiView.OfferedChangesFollowWorkflow | frontend/src/pages/SyllabiPage.tsx:310-337 | every status change a button offers is a workflow step (CREATED→ASSIGNED, SUBMITTED→APPROVED/RETURNED) that the status endpoint accepts from a coordinator |
| SyllabiView.CreateMenuMatchesBackend | frontend/src/pages/SyllabiPage.tsx:243-243 | the creation menu appears exactly for a coordinator who has a career |
| Editor.InsertUnit | frontend/src/pages/SyllabusEditPage.tsx:63-63 | inserting into a list sorted by unit number keeps it sorted and adds exactly that unit |
| Editor.SortUnits | frontend/src/pages/SyllabusEditPage.tsx:63-63 | the loaded units are sorted ascending by unit number and are a permutation of the fetched ones |
| Editor.SortSortedUnits | frontend/src/pages/SyllabusEditPage.tsx:63-63 | sorting an already sorted unit list leaves it unchanged |
| Editor.DefaultEvaluations | frontend/src/pages/SyllabusEditPage.tsx:66-73 | four default evaluations, Consolidado 1, Examen Parcial, Consolidado 2, Examen Final, the k-th with id (k-th clock reading + k), empty date and description, and no weight |
| Editor.DefaultIdsDistinct | frontend/src/pages/SyllabusEditPage.tsx:67-72 | the four default ids are distinct whenever the clock does not step backwards between its four readings |
| Editor.ClockStepBackCollides | frontend/src/pages/SyllabusEditPage.tsx:67-72 | a clock that steps back one millisecond between the first two readings gives the first two evaluations the same id |
| Editor.LoadSyllabus | frontend/src/pages/SyllabusEditPage.tsx:60-81 | loading sorts the units (a permutation), keeps a non-empty evaluation list as is, replaces an empty one by exactly the four defaults, whose ids are distinct under a clock that does not step back, and changes nothing else |
| Editor.InputChange | frontend/src/pages/SyllabusEditPage.tsx:138-141 | typing into a text section sets that section and leaves the other sections and every other field unchanged |
| Editor.InputChangesCompose | frontend/src/pages/SyllabusEditPage.tsx:138-141 | the last edit to a section wins, and edits to different sections commute |
| Editor.WriteUnit | frontend/src/pages/SyllabusEditPage.tsx:143-148 | writing one unit field sets it and keeps every other field, the unit number and title |
| Editor.UnitChange | frontend/src/pages/SyllabusEditPage.tsx:143-148 | only the unit at the index changes, in one field; the other units, the list length and the rest of the syllabus stay |
| Editor.UnitChangeKeepsOrder | frontend/src/pages/SyllabusEditPage.tsx:143-148 | editing a unit keeps the list sorted by unit number |
| Editor.WriteEval | frontend/src/pages/SyllabusEditPage.tsx:150-154 | writing one evaluation field sets it and keeps the others, the id and the weight |
| Editor.EvalChange | frontend/src/pages/SyllabusEditPage.tsx:150-154 | every evaluation with the id gets the field written, every other one is kept, and length, order and ids stay |
| Editor.EvalChangeUnknownId | frontend/src/pages/SyllabusEditPage.tsx:150-154 | an edit addressed to an absent id changes nothing |
| Editor.BeforeUnderscore | frontend/src/pages/SyllabusEditPage.tsx:158-158 | the part before the first underscore: a prefix without underscore, ending at the end or at an underscore |
| Editor.FindEvaluation | frontend/src/pages/SyllabusEditPage.tsx:159-159 | finds the first evaluation with that id, and nothing exactly when no evaluation has it |
| Editor.ActiveEvaluation | frontend/src/pages/SyllabusEditPage.tsx:156-160 | no evaluation unless the section starts with "eval_"; any evaluation found is in the list and has an id |
| Editor.EvalSectionRoundTrip | frontend/src/pages/SyllabusEditPage.tsx:156-160 | opening the section id the menu builds for an evaluation finds the first evaluation with that id; an evaluation without id opens nothing |
| Editor.EvalSectionOpensItself | frontend/src/pages/SyllabusEditPage.tsx:201-204 | with distinct ids, every menu entry opens its own evaluation |
| Editor.CreatedEvaluationsOpen | frontend/src/pages/SyllabusEditPage.tsx:201-204 | each of the six evaluations of a newly created syllabus opens its own editor entry |
| Editor.UnitIndex | frontend/src/pages/SyllabusEditPage.tsx:351-352 | the unit editor opens exactly for unit_1 … unit_4, on an index 0–3 whose section is that one |
| Editor.UnitSectionNumber | frontend/src/pages/SyllabusEditPage.tsx:351-352 | the number parsed from "unit_k" is k, between 1 and 4 |
| Editor.RomanLabelMatchesTemplate | frontend/src/pages/SyllabusEditPage.tsx:452-454 | the editor's numeral for unit k is the server's `toRoman(k)` and matches the template title |
| Editor.ConfirmSend | frontend/src/pages/SyllabusEditPage.tsx:102-121 | a failed save changes nothing and sends no status request; a failed status request keeps the save; success leaves that syllabus SUBMITTED with the edited content, units and evaluations |
| Editor.ProfessorSendSucceeds | frontend/src/pages/SyllabusEditPage.tsx:102-121 | a professor's send of an existing syllabus always succeeds |
| Dashboard.StatusCountIsMultiplicity | frontend/src/pages/Dashboard.tsx:30-36 | each counter is the number of syllabi in that status |
| Dashboard.CountersSum | frontend/src/pages/Dashboard.tsx:30-36 | the five counters add up to the list length |
| Dashboard.StatCards | frontend/src/pages/Dashboard.tsx:38-79 | five cards in enum order, each showing the count of its status under the role's title |
| Dashboard.CardsIgnoreRole | frontend/src/pages/Dashboard.tsx:38-79 | card values do not depend on the role; the APPROVED card is titled "Aprobados" for everyone |
| Dashboard.CardsTotal | frontend/src/pages/Dashboard.tsx:38-79 | the cards' values add up to the list length |
| RoleNames.RoleDisplayName | frontend/src/utils/roleUtils.ts:1-17 | a missing role shows "", a coordinator without career "Administrador/a", with one "Coordinador/a", a professor "Docente", any other role its own text |
| RoleNames.DisplayNameNamesKind | frontend/src/utils/roleUtils.ts:1-17 | a stored user is shown as administrator, coordinator or teacher by kind; "Administrador/a" exactly for a coordinator who gets no creation menu |
| RoleNames.DisplayNamesDistinct | frontend/src/utils/roleUtils.ts:1-17 | users of different kinds get different display names |

## Left out

- PDF generation is not modelled. It is rendering through a foreign library, with floating-point weights, and its `toRoman` duplicates the service's.
- Persistence, JPA mapping, transactions and timestamps are not modelled:
  - the audit `status` of units and evaluations, every entity's `modifiedBy`, and the back-references from units and evaluations to their syllabus are dropped;
  - an evaluation's weight is an integer percentage where the entity holds a `Double` fraction (0.10 is 10);
  - repositories are sequences;
  - `@Transactional` is modelled as "no new store on failure";
  - creation and modification times are dropped;
  - dates are opaque.
- Spreadsheet I/O is out.
  - A sheet is a sequence of rows of cells.
  - A cell is absent, text, or unreadable. Unreadable stands for a cell whose formatting throws.
  - Number parsing is a function parameter.
- Login, JWT and password hashing are out. The password encoder is a function parameter.
- The HTTP client, routing, presentational components and the API-only pages and modals are out. Those pages are periods, careers, coordinators, login and the create/upload modals.
- The seeding initialiser and the Python sheet generators are out. They are not part of the request-handling core.
- `getAllCareers`, `getAllSyllabi`, `listUsers` and `getAllAcademicPeriods` have no member. Each returns its repository's contents unchanged, which is the store itself in the model.
- Excel.NumericValue: abstracts POI's numeric cells. A number is whatever the parser parameter accepts on the cell text, and the `(int)` truncation of a double is inside that parser.
- Text.EqualsIgnoreCase: folds only ASCII letters. Java's case-insensitive comparison also folds non-ASCII letters.
- Text.ParseInt: models `parseInt` on strings without leading whitespace and without radix prefixes. The page only passes section ids it built itself.
- Editor.SortUnits: states that the result is sorted and a permutation, but not that the sort is stable. The order of two units with the same number is left open.
- Editor.UnitChange: requires an index inside the unit list. For a unit entry past the end of a shorter list, the page passes an undefined unit to the unit editor, whose render throws on `unit.content`; the handler is never reached, and that crash is not modelled.
- Stores.InsertSyllabus: units carry no id in the model, so the ids the cascade generates for them are not modelled; the editor addresses a unit by its position. Generated evaluation ids are one above every id in use, not the database's identity sequence, and updates save evaluations with whatever ids they carry.
- Editor.UnitIndex: does not model the `parseInt(...) - 1` arithmetic for sections other than `unit_1`–`unit_4`. The editor is not rendered for them.
- Editor.ConfirmSend: a request fails only for the modelled reasons (an unknown id). Network errors are not modelled, and neither is the navigation after success.
- Editor.DefaultEvaluations: the four `Date.now()` calls are the four readings of the parameter `clock`; nothing about the browser clock is assumed.
- Editor.LoadSyllabus: distinct default ids are promised only for a clock that does not step backwards between readings, since the source takes four independent readings.
- SyllabusRules.UpdateSyllabusFromExcel: the controller's two-argument call is not modelled. The service's three-argument method is modelled instead.
- SyllabusRules.DeleteSyllabus: deleting an absent id is modelled as a no-op.
- Careers.DeleteCareer: deleting an absent id is modelled as a no-op, as above.
- SyllabusRules.UpdateSyllabusFromExcel: the `parsedList.isEmpty()` check after parsing is not a separate branch. The parser already fails when no row survives, so the check cannot trigger.
- SyllabusRules.GetSyllabi: the fallback for a role other than PROFESSOR and COORDINATOR is not a separate branch. The role type is closed, so that path cannot be reached.
- Accounts.Register: assumes the request carries no id, so registration always inserts and never updates.
