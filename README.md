# Question-paper backend: verified model of its decision logic

This project models the logic inside an Express backend for teachers. The
backend stores questions, question papers, assessments, annexures and
users in Supabase. Almost every handler passes data straight to the store.
The model covers the code that decides something:

- the assessment statistics and the rows written when a paper is assigned;
- how a question paper is composed: its required fields, its
  `question_paper_questions` rows on create and update, the replace rule,
  the read-back shape and the PDF export;
- how questions are normalised: the table-to-HTML serialiser, the
  per-record table parsing, the `content_types` flags, grouping
  sub-questions under their parents, the `topic_id` / `parent_id` filters,
  and the validation and sub-question stamping of `createQuestion`;
- the bearer-token middleware and the `authorize(roles)` guard;
- the upload rules (MIME allow-list, size limit, `pdf`/`document`/`image`
  classification, thumbnail) and the annexure upload and delete;
- the account decisions: register, login, the profile update and the
  password reset.

The database, the storage bucket and the foreign libraries are parameters
of the model:

- a failed or successful store call is a boolean;
- a new row id, a public URL and the clock are plain values;
- `JSON.parse` is a partial function `string -> Option<Json>`;
- `jwt.verify` is `string -> Option<Caller>`;
- `bcrypt.compare` is `(string, string) -> bool`.

The question-paper tables are the fields of a class, `PaperStore`, whose
methods change them as the handlers do. The loops of the source become
methods with loop invariants, each proved against a specification
function:

- the statistics loop;
- the PDF walk;
- the HTML serialiser;
- the grouping of sub-questions.

The patch that `updateUser` builds by successive field writes is a method
too.

Modules, one per file:

| file | module | covers |
|---|---|---|
| common.dfy | Common | `Option`, the caller taken from the token, the creator-or-admin guard |
| strings.dfy | Strings | JavaScript `split`, `trim`, `includes`, `lastIndexOf`, `String(n)` and `parseInt` |
| assessments.dfy | Assessments | `getAssessmentResults`, `createAssessment` |
| pagination.dfy | Pagination | the `page`/`limit` window and page count |
| questionpapers.dfy | QuestionPapers | paper create, update, delete, read-back, addendum upload |
| paperpdf.dfy | PaperPdf | `generatePDF`: file name, layout, total |
| questioncontent.dfy | QuestionContent | `formatTableToHTML` and the per-question normalisation |
| questionhierarchy.dfy | QuestionHierarchy | sub-question grouping and attachment |
| questionqueries.dfy | QuestionQueries | `topic_id`/`parent_id` filters, `createQuestion` |
| authmiddleware.dfy | AuthMiddleware | `authMiddleware`, `authorize` |
| uploads.dfy | Uploads | multer filter and limit, file kind, thumbnail, addendum upload |
| annexures.dfy | Annexures | `uploadAnnexure`, `deleteAnnexure` |
| accounts.dfy | Accounts | `register`, `login`, `updateUser`, `resetPassword` |

## Model

| member | source | states |
|---|---|---|
| Common.OwnerGuard | src/controllers/questionPaperController.js:238-245 | A missing row gives 404. The caller is permitted exactly when they created the row or are an admin, and is refused with 403 otherwise. The same guard appears at assessmentController.js:156-163, questionController.js:436 and 491, and annexureController.js:221-228. |
| Assessments.GetAssessmentResults | src/controllers/assessmentController.js:236-271 | A failed results fetch gives 500 and no statistics. Otherwise the answer is 200, and the `forEach` accumulation, the `Infinity` sentinel reset and the rate give exactly the declarative statistics of the records. |
| Assessments.CompletionBounds | src/controllers/assessmentController.js:242-250 | `totalStudents` is the number of records and `completedCount` is at most that. The completion rate lies in [0, 100] and is 0 when there are no records. |
| Assessments.CountedScoresShape | src/controllers/assessmentController.js:249-255 | A score is counted exactly when its record is completed or marked and the score is not null. So there are at most `completedCount` counted scores. |
| Assessments.ScoreBounds | src/controllers/assessmentController.js:245-264 | The highest score is non-negative and bounds every counted score from above. The lowest score bounds them from below and is one of them. When no score is counted, both are 0, never the sentinel. |
| Assessments.AverageScoreMeaning | src/controllers/assessmentController.js:259 | The average times `completedCount` is the sum of the counted scores. It is 0 when nothing is completed. |
| Assessments.UnscoredCompletedRowInDivisor | src/controllers/assessmentController.js:259 | A marked record without a score halves the average of a single score of 80, to 40. |
| Assessments.EmptyStatistics | src/controllers/assessmentController.js:259-271 | With no records every statistic is 0. |
| Assessments.StatisticsExample | src/controllers/assessmentController.js:242-271 | Scores 80 and 60 plus one assigned record give 3 students, 2 completed, a rate of 200/3, an average of 70, a highest of 80 and a lowest of 60. |
| Assessments.OrderIndependent | src/controllers/assessmentController.js:248-257 | Two orderings of the same records (equal multisets) give the same statistics. |
| Assessments.Max0Characterised | src/controllers/assessmentController.js:244-252 | Starting from 0, the running maximum is ≥ 0 and ≥ every score, and is 0 or one of the scores. |
| Assessments.MinCharacterised | src/controllers/assessmentController.js:245-253 | The running minimum of a non-empty score list is one of the scores and ≤ all of them. |
| Assessments.AssignmentRows | src/controllers/assessmentController.js:121-125 | One row per student id, in input order, each 'assigned' with the new assessment id. |
| Assessments.CreateAssessment | src/controllers/assessmentController.js:98-138 | A falsy paper id or a non-array `student_ids` gives 400 and writes nothing. Otherwise the result is 201 exactly when the insert yields an id, with one assigned row per student. |
| Pagination.PageWindowsTile | src/controllers/questionPaperController.js:56-58 | With integer page and limit, each window holds `limit` rows. Page 1 starts at row 0, and consecutive pages meet with no gap or overlap. |
| Pagination.RowOnItsPage | src/controllers/questionPaperController.js:56-58 | Row k lies in the window of page k div limit + 1. |
| Pagination.PageCountCovers | src/controllers/questionPaperController.js:92 | `ceil(count / limit)` pages cover all rows, and one page fewer does not. |
| Pagination.QueryStringWindowEndValue | src/controllers/questionPaperController.js:57-58 | With `limit` as query text, `to` is the number read from the digits of `from` followed by the digits of `limit`, minus 1. |
| Pagination.QueryStringFirstPageAgrees | src/controllers/questionPaperController.js:57-58 | On page 1 the text concatenation agrees with the integer window. |
| Pagination.QueryStringSecondPageExample | src/controllers/questionPaperController.js:57-58 | On page 2 with limit "20", `to` is 2019 where the integer window ends at 39. |
| QuestionPapers.CreateEntries | src/controllers/questionPaperController.js:193-198 | Entry k has question id `questions[k]` and position k + 1. There is one entry per id, and none when the list is absent or empty. |
| QuestionPapers.CreateEntriesSorted | src/controllers/questionPaperController.js:193-198 | Create positions strictly increase, so the rows are already in read-back order. |
| QuestionPapers.UpdateEntries | src/controllers/questionPaperController.js:280-284 | Entry k carries item k's question id, and the item's order when truthy, else k + 1. |
| QuestionPapers.UpdateWithoutOrdersNumbersLikeCreate | src/controllers/questionPaperController.js:280-284 | Without truthy orders, an update numbers its entries exactly as a create does. |
| QuestionPapers.UpdateOrdersMayCollide | src/controllers/questionPaperController.js:283 | An explicit order 2 followed by an item without one gives two entries at position 2. |
| QuestionPapers.EntriesOf | src/controllers/questionPaperController.js:124-131 | The rows of one paper are exactly the table rows carrying its id. |
| QuestionPapers.EntriesWithout | src/controllers/questionPaperController.js:271-274 | After the delete, exactly the other papers' rows remain. |
| QuestionPapers.EntriesOfWithout | src/controllers/questionPaperController.js:271-274 | Deleting one paper's rows leaves every other paper's rows unchanged, in order. |
| QuestionPapers.ReplaceResult | src/controllers/questionPaperController.js:269-294 | After a successful delete and insert, the paper holds exactly the new entries (none for an empty array). Every other paper keeps its rows. |
| QuestionPapers.ReplaceFailures | src/controllers/questionPaperController.js:276-292 | A failed delete leaves the table as it was. A failed insert after the delete leaves the paper with no entries. |
| QuestionPapers.MergeProperties | src/controllers/questionPaperController.js:248-258 | Absent fields keep their values. A body sending every field replaces every field, nulls included. A field sent as `null` is cleared. Applying the same body twice equals applying it once. |
| QuestionPapers.PaperQuestions | src/controllers/questionPaperController.js:138-144 | Each fetched entry becomes its question plus its `question_order`, in fetched order. A failed fetch gives an empty list. |
| QuestionPapers.Joined | src/controllers/questionPaperController.js:124-131 | The join pairs each entry, in order, with its question. |
| QuestionPapers.ReadBackAfterCreate | src/controllers/questionPaperController.js:124-144 | Reading a freshly created paper back gives its questions in listed order at positions 1, 2, 3 and so on. |
| QuestionPapers.PaperStore.Create | src/controllers/questionPaperController.js:166-210 | Missing title, subject or grade gives 400 with no write, and a failed insert gives 500. Otherwise the paper is stored with the caller as creator and owner, and its entries are exactly the create entries. A failed entry insert gives 500 and leaves the paper without entries. |
| QuestionPapers.PaperStore.Update | src/controllers/questionPaperController.js:232-296 | The guard comes first (404, then 403), and a failed field update gives 500. In all three cases nothing changes. Otherwise the fields are merged and the entries follow the replace rule. |
| QuestionPapers.PaperStore.Delete | src/controllers/questionPaperController.js:309-335 | The same guard. A successful delete removes the paper and, through the cascade, its entries. Otherwise nothing changes. |
| QuestionPapers.PaperStore.UploadAddendum | src/controllers/questionPaperController.js:499-594 | An addendum is stored only for an existing paper that the caller created, or when the caller is an admin. An accepted file gives 404 for a missing paper and 403 for a paper the caller may not modify. With a truthy title it goes on to the store-and-record step. |
| PaperPdf.FileNameProperties | src/controllers/questionPaperController.js:382 | The attachment name has no white space. A title without white space gets just ".pdf" appended, and the renaming is idempotent. |
| PaperPdf.FileNameExample | src/controllers/questionPaperController.js:382 | A run of mixed blanks and tabs becomes one underscore: "A \t B" gives "A_B.pdf". |
| PaperPdf.ReplaceSpaceRuns | src/controllers/questionPaperController.js:382 | The result is no longer than the input and contains no white space. |
| PaperPdf.RunBecomesUnderscore | src/controllers/questionPaperController.js:382 | For all texts: a maximal run of white space becomes exactly one `_`, and the text on either side of the run is renamed on its own. |
| PaperPdf.ReplaceSpaceRunsSplits | src/controllers/questionPaperController.js:382 | Renaming a text that ends in a character other than white space, followed by any text, renames the two parts separately. |
| PaperPdf.GeneratePdf | src/controllers/questionPaperController.js:388-442 | The walk emits exactly the layout: the heading, one block per question in entry order, then the total line. The running total is the sum of marks with null as 0. |
| PaperPdf.WriteQuestions | src/controllers/questionPaperController.js:413-438 | The `forEach` appends each question's block in order and sums the marks, a missing mark counting as 0. |
| PaperPdf.LayoutEnds | src/controllers/questionPaperController.js:388-442 | The document opens with the title at 18 pt, centred. Its last line is the right-aligned "Total: N marks" with N the total. |
| PaperPdf.QuestionBlockAt | src/controllers/questionPaperController.js:415-437 | Question k's header sits right after the blocks of the questions before it. |
| PaperPdf.TotalMarksConcat | src/controllers/questionPaperController.js:413-417 | The total of two lists of questions is the sum of their totals. |
| PaperPdf.TotalMarksBounds | src/controllers/questionPaperController.js:417 | With non-negative marks, the total is at least the marks of any one question. |
| PaperPdf.UnnumberedQuestionLabel | src/controllers/questionPaperController.js:419 | For every row and position: without a number the label reads back as the 1-based position, and a set number is used as is. A mark reads back as itself, and a missing one prints as "null". |
| QuestionContent.FormatTable | src/controllers/questionController.js:245-276 | The result is null exactly when the data is falsy, when headers or rows are missing, or when one `forEach` would throw. Otherwise it is the fixed prefix, one `<th>` per header, one `<tr>` per row with one `<td>` per cell, then the fixed suffix. |
| QuestionContent.FormatTableToHtml | src/controllers/questionController.js:245-276 | The string the nested `html +=` loops build equals that serialisation. |
| QuestionContent.LinesAt | src/controllers/questionController.js:255-268 | Element k's line sits between the lines of the elements before it and those after it. |
| QuestionContent.LinesConcat | src/controllers/questionController.js:255-268 | Serialising a concatenation is concatenating the serialisations. |
| QuestionContent.NoEscaping | src/controllers/questionController.js:256 | Headers are not escaped. For any `a` and `b`, the one header `a</th>\n      <th>b` serialises exactly like the two headers `a` and `b`. |
| QuestionContent.Normalize | src/controllers/questionController.js:120-154 | Only `table_data` of the row may change, and no `sub_questions` is added. |
| QuestionContent.TableOutcomes | src/controllers/questionController.js:124-138 | There are four cases. Falsy data stays without `table_html`. A string that fails to parse nulls both fields. A parsed string is replaced by its value and serialised. Other data is serialised as is. |
| QuestionContent.ContentFlags | src/controllers/questionController.js:141-151 | `has_text`, `has_latex` and `has_image` are the truthiness of the raw fields, and `has_latex` equals the separate latex flag. `has_table` is the truthiness of the processed data. |
| QuestionContent.TableWithoutHtml | src/controllers/questionController.js:132-149 | A table whose headers are not an array reports `has_table` while its `table_html` is null. |
| QuestionContent.NormalizeAll | src/controllers/questionController.js:120-173 | Each record is normalised on its own, in order. |
| QuestionContent.FailureIsolated | src/controllers/questionController.js:133-137 | A parse failure in one record leaves every other record's result unchanged. |
| QuestionHierarchy.GroupByParent | src/controllers/questionController.js:207-213 | The dictionary has a key exactly for each parent id that occurs. Its group is that parent's sub-questions in fetched order. |
| QuestionHierarchy.SubsOfMembers | src/controllers/questionController.js:207-213 | A group holds only fetched sub-questions of its own parent, and every sub-question is in its parent's group. |
| QuestionHierarchy.SubsOfSplit | src/controllers/questionController.js:207-213 | The sizes of one group and of the rest add up to the batch, so no sub-question is counted twice. |
| QuestionHierarchy.SubsOfConcat | src/controllers/questionController.js:208-212 | Grouping keeps the fetched order: grouping a concatenation concatenates the groups. |
| QuestionHierarchy.AttachShape | src/controllers/questionController.js:216-224 | `sub_questions` is added exactly to top-level questions with at least one fetched child. It holds only those children, and nothing else about the question changes. |
| QuestionHierarchy.IncludeSubQuestions | src/controllers/questionController.js:157-227 | The parents are attached only when `include_subquestions` is "true", some question is top-level, and the fetch succeeded and returned rows. Otherwise the page is returned unchanged. |
| QuestionHierarchy.ParentIds | src/controllers/questionController.js:158-162 | The list of top-level ids is empty exactly when every question has a parent. |
| QuestionQueries.TopicIds | src/controllers/questionController.js:86 | There are as many ids as commas plus one. Id k is `parseInt` of the trimmed k-th piece. |
| QuestionQueries.TopicFilterOf | src/controllers/questionController.js:82-91 | An array is used as is. Text with a comma is split and parsed, other non-empty text is matched exactly, and an absent or empty value sets no filter. |
| QuestionQueries.TopicIdsRoundTrip | src/controllers/questionController.js:85-87 | Two or more integers joined with commas select exactly those topics, in order. |
| QuestionQueries.TopicIdsExample | src/controllers/questionController.js:86 | Blanks around the pieces are ignored: " 4 , 7" gives ids 4 and 7. |
| QuestionQueries.ParentFilterOf | src/controllers/questionController.js:100-106 | Absent sets no filter. "null" selects top-level questions, and any other text is matched as is. |
| QuestionQueries.StampSubs | src/controllers/questionController.js:378-383 | Each sub-question keeps its fields, but its `parent_id` becomes the new question and its `created_by` the caller. |
| QuestionQueries.CreateQuestion | src/controllers/questionController.js:343-398 | Falsy marks, type or difficulty give 400, and a failed insert gives 500; neither writes anything. Otherwise the result is 201 with the question created by the caller. The stamped sub-questions are written and returned only when an array was sent and its insert succeeded. |
| QuestionQueries.ZeroMarksRejected | src/controllers/questionController.js:343 | Zero marks count as missing. |
| QuestionQueries.SubsAreChildren | src/controllers/questionController.js:378-383 | Every written sub-question is a child of the new question and has the same creator. |
| AuthMiddleware.Authenticate | src/middleware/auth.js:6-28 | A missing header or one without "Bearer " gives 401. An empty `split(' ')[1]` gives 401, and so does a token that does not verify. Otherwise `req.user` is the verified claims. |
| AuthMiddleware.BearerTokenRoundTrip | src/middleware/auth.js:14-15 | The token read back is exactly a non-empty, space-free token, also when more words follow after a space. |
| AuthMiddleware.EmptyTokenRejected | src/middleware/auth.js:16-18 | "Bearer " alone, or followed by a second space, is refused. |
| AuthMiddleware.Authorize | src/middleware/auth.js:31-47 | Without a user the answer is 401, before any role test. With a non-empty list it is 403 exactly when the role is not in it. Otherwise `next()` is called, which includes every user when the list is empty. |
| AuthMiddleware.OneRoleIsList | src/middleware/auth.js:32-34 | A role given as text behaves exactly like the list holding it. |
| AuthMiddleware.TeacherOrAdminGuard | src/routes/questionRoutes.js:19 | The routes' `['teacher', 'admin']` guard admits exactly those two roles. |
| AuthMiddleware.GuardedAdmits | src/middleware/auth.js:6-47 | A request reaches the handler only with a verified bearer token whose role is admitted. A 403 needs a verified token. |
| Uploads.Receive | src/controllers/annexureController.js:22-41 | Exactly the six listed MIME types pass the filter, which runs before the 10 MB limit. A file is accepted iff its type is listed and its size is within the limit. |
| Uploads.FileTypeCharacterised | src/controllers/annexureController.js:137-139 | The kind is 'pdf' iff the type is application/… and mentions "pdf", 'document' for any other application/… type, and 'image' otherwise. |
| Uploads.PdfTypeIsPdf | src/controllers/annexureController.js:137-139 | application/pdf is classified 'pdf'. |
| Uploads.WordTypesAreDocuments | src/controllers/annexureController.js:137-139 | Both Word types are classified 'document'. |
| Uploads.ImageTypesAreImages | src/controllers/annexureController.js:137-139 | jpeg, png and gif are classified 'image'. |
| Uploads.ThumbnailForAcceptedTypes | src/controllers/annexureController.js:164-169 | Over the allow-list, the thumbnail is the public URL exactly for the image/… types. |
| Uploads.StoreAndRecord | src/controllers/annexureController.js:146-193 | A storage failure gives 500 with no write. A failed insert gives 500 and leaves the stored object behind. Otherwise the row has the file's kind and the URL, and a thumbnail exactly for images. |
| Uploads.AddendumUpload | src/controllers/questionController.js:524-609 | The checks run in order: 400 for a missing file, 404 for a missing question, 403 for a non-owner and non-admin, then 400 for a missing title. Nothing is stored unless all pass. Once all pass, the outcome is the shared store-and-record step. The paper addendum shares this at questionPaperController.js:509-594. |
| Uploads.UploadedThumbnail | src/controllers/annexureController.js:164-179 | A stored row has a thumbnail exactly when the accepted type is an image/… type. |
| Annexures.AnnexureUpload | src/controllers/annexureController.js:117-193 | A missing file or a falsy name gives 400 with no storage write. The result is 201 exactly when both store calls succeed, and past the checks the outcome is the shared store-and-record step. The handler has no ownership check; the route admits teachers and admins only (annexureRoutes.js:22). |
| Annexures.StorageFileName | src/controllers/annexureController.js:232 | The name is the suffix after the last '/', which contains no '/'; a URL without '/' gives the whole text. |
| Annexures.StorageFileNameOfPublicUrl | src/controllers/annexureController.js:232 | The object name taken from a public URL (base, '/', stored name) is the stored name. |
| Annexures.StorageFileNameWithoutSlash | src/controllers/annexureController.js:232 | A URL without '/' names itself. |
| Annexures.DeleteAnnexure | src/controllers/annexureController.js:215-255 | 404, then 403 unless creator or admin. After that the object is removed if storage allows, and the row is deleted whenever its delete succeeds. |
| Annexures.StorageFailureDoesNotBlockDelete | src/controllers/annexureController.js:239-248 | The row's fate and the status do not depend on the storage removal. |
| Accounts.StripKeepsAllButHash | src/controllers/authController.js:118 | Stripping drops the hash and nothing else: putting it back gives the row. |
| Accounts.Register | src/controllers/authController.js:15-71 | 400 unless email, password and name are truthy; 409 when the email is taken; 201 exactly when the insert succeeds. The stored role defaults to "teacher", the response is the stripped row, and the token claims are its id and role. |
| Accounts.RegisterRole | src/controllers/authController.js:42 | The stored role is "teacher" exactly when no role, or "teacher", is sent. Any other role, "admin" included, is stored as sent. |
| Accounts.Login | src/controllers/authController.js:84-118 | 400 without email and password. The login succeeds iff the row exists and the password matches, and then returns the stripped row. Every other failure is 401 'Invalid credentials'. |
| Accounts.LoginHidesUnknownEmail | src/controllers/authController.js:95-104 | An unknown email and a wrong password give the identical response. |
| Accounts.UpdateUser | src/controllers/authController.js:191-213 | The checks run in order: 404, a 403 for a non-admin sending a role (even on their own profile), then a 403 for a non-admin on another id. The patch holds name and email only when truthy, a role only from an admin, and always `updated_at`. |
| Accounts.PatchKeepsRole | src/controllers/authController.js:201-213 | Applying a non-admin's patch never changes the role. The id, the hash and the creation time never change. |
| Accounts.ResetPassword | src/controllers/authController.js:303-350 | 400 without token and password, for an unknown token, or when `expires_at` < now. Otherwise the password is written. The token is deleted only after that write succeeds. |
| Accounts.ResetTokenLifetime | src/controllers/authController.js:325-348 | A token works up to and including its expiry instant. A failed password write keeps the token. |

## Left out

- Supabase queries, storage calls and the joins are not modelled as I/O. Each call's outcome (success, new id, fetched rows, public URL) is a parameter. Where a handler tests a fetch's error together with the missing row (`if (fetchError || !row)`), a failed fetch is modelled as a missing row. `getAssessmentResults` tests the error alone and answers 500, and `Assessments.GetAssessmentResults` models that.
- Only the question-paper tables have state (`PaperStore`). Assessments, questions, annexures and users are modelled request by request, with the fetched row and the write outcomes as parameters.
- Concurrency between requests is not modelled, including the race between the delete and the insert of a paper update.
- Floating point is not modelled: `averageScore` and `completionRate` are exact reals, without IEEE rounding.
- The order the store returns rows in (`.order('score')`, `.order('number')`, `.order('question_order')`) is an input. Postgres text ordering of sub-question numbers is not numeric-aware, and this is not modelled.
- pdfkit is an append-only list of layout operations. Page breaks, fonts as glyphs and the response stream are not modelled, and neither are the two fetches of `generatePDF` (their 404 and 500).
- multer's disk storage, the uuid file name, `path.extname`, the temporary-file clean-up with `fs` and the error texts of multer are not modelled. The filter and the size limit are.
- `JSON.parse` is a partial function parameter. JavaScript coercion of non-string header and cell values inside the template literal is not modelled: headers and cells are text.
- bcrypt, SHA-256, jsonwebtoken signing and expiry are parameters. The 24-hour token lifetime belongs to the library call and is not modelled.
- `requestPasswordReset`, the e-mail utilities, `getCurrentUser` and `getUsers` are not modelled. They are store reads, I/O and an admin check.
- The remaining list and read endpoints are not modelled beyond their shared parts (pagination, the guard): the other `eq` filters of `getQuestions`, `getQuestionById`, the addendum lists, `updateQuestion`, `deleteQuestion`, and the assessment update and delete.
- Accounts.UpdateUser: the route id is text and the token id a number, so `id !== req.user.id` holds for every non-admin whose token carries a numeric id. The model treats both as integers and so lets an owner through; the source refuses everyone but admins here.
- QuestionQueries.CreateQuestion: only the fields the handler reads (marks, type, difficulty, parent id, creator) are modelled. The other body fields are copied unread and are left out.
- Pagination: the model computes the window over integers. JavaScript's text-to-number coercion is modelled only for the end of the window (see Findings). `parseInt(page)` in the response is left out.
- QuestionPapers.PaperStore.UploadAddendum: the question-addendum and paper-addendum handlers share one function, `Uploads.AddendumUpload`. The store method only supplies the paper's owner.

## Findings

| source | as written | input that shows it | evidently intended | confidence | as-written member | corrected member |
|---|---|---|---|---|---|---|
| src/controllers/questionPaperController.js:57-58 | `limit` arrives as query text, so `from + limit - 1` concatenates the digits of `from` with `limit` before subtracting 1 (the same lines are at questionController.js:59-60) | `page=2&limit=20` gives `.range(20, 2019)` | `.range(20, 39)`: pages of `limit` rows that tile the table | high, not executed | Pagination.QueryStringWindowEnd | Pagination.PageWindow |

Notes on behaviour that is modelled as written:

- The average divides by the number of completed or marked records, so a record without a score lowers it (`Assessments.UnscoredCompletedRowInDivisor`).
- The highest score starts at 0, so with only negative scores it stays 0.
- Explicit update positions and fallback positions can collide (`QuestionPapers.UpdateOrdersMayCollide`).
- A paper create with a failing entry insert answers 500 but keeps the new paper; there is no transaction.
- Table headers and cells are not escaped (`QuestionContent.NoEscaping`). A table with non-array headers reports `has_table` with a null `table_html` (`QuestionContent.TableWithoutHtml`).
- `register` stores whatever role the body sends, "admin" included (`Accounts.RegisterRole`).
- The join of a paper with its questions never has a missing question: `question_paper_questions.question_id` cascades on delete (src/config/database.js:68).
