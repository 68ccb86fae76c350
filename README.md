# Academia: council sessions and the course enrollment tool

This project models two pieces of the Academia app in Dafny and proves properties of them.

**Council sessions.** A council `Session` holds topic rows. Each row is a "Session Topic Assignment". It points at a "Topic Assignment" record, can carry a decision and a decision type, and can carry a forward assignment.
- Change detection compares the session's rows with those of the revision saved before. It returns the edited, added and deleted rows, or no lists at all for a session that was never saved.
- Before every save, each changed row whose decision type is "Transferred" puts its forward assignment back to "Pending Review", unless the record already has that status.
- On submission, every row's decision and decision type are copied onto its Topic Assignment, which is then saved and submitted. A "Postponed" row first gets a new, accepted Topic Assignment copied from the row, and the row forwards to it.

The Topic Assignment records live in a `Store` class. It holds a map from record name to record and a counter that names new records. A field write, an insert, a save and a submit each update the map in place. `Session` is a class whose `assignments` field the submit hook rewrites. Each hook is a method with the source's loop, and it is proved equal to a specification function (`DetectChanges`, `MarkPendingReview`, `Process`). The lemmas next to those functions state what the hooks promise.

**Course enrollment tool.** `get_courses` checks the tool's mandatory filter fields in a fixed order. Only the "All Programs" / "All Levels" combination lists courses: every Course Study record. An empty result is an error. `Courses` is the nested cascade as written. `Checklist` is an independent flat definition of the same thing. `GetCourses` is the imperative form with the appending loop.

Files:
- `wrappers.dfy`: `Option` and `Result`.
- `session_rows.dfy`: rows, the dictionaries the source builds from them, and change detection.
- `topic_assignments.dfy`: Topic Assignment records and the record store.
- `session.dfy`: the save and submit hooks of a session.
- `course_enrollment_tool.dfy`: `get_courses`.

Timestamps are a `now: nat` parameter of each hook. Every write stamps the record with it, so "a record is not written" can be observed and stated.

## Model

| member | source | states |
|---|---|---|
| SessionRows.ByName | academia/councils/doctype/session/session.py:46-50 | The row dictionary keyed by name has exactly the rows' names as keys, and each key maps to a row of that name. |
| SessionRows.KeyOrder | academia/councils/doctype/session/session.py:50 | The dictionary's iteration order lists every row name once, and nothing else. |
| SessionRows.Select | academia/councils/doctype/session/session.py:53-57 | A list comprehension keeps exactly the rows that satisfy its condition and never grows the list. |
| SessionRows.SelectKeepsOrder | academia/councils/doctype/session/session.py:53-57 | A comprehension keeps the selected rows in their original order: its k-th element is the row at the k-th selected position. |
| SessionRows.DetectChanges | academia/councils/doctype/session/session.py:40-75 | Returns no lists exactly when the session is new. Otherwise it returns the edited, added and deleted lists. It requires the saved revision once the session has been saved. |
| SessionRows.ItemsAreLastRows | academia/councils/doctype/session/session.py:50-63 | The current-rows dictionary yields exactly the rows that are the last of their name. |
| SessionRows.ChangesMembership | academia/councils/doctype/session/session.py:52-72 | Deleted: the previous rows whose name no current row has. Added: the current rows flagged new. Edited: the non-new current rows that exist in the previous revision with a different modification timestamp. No row is both added and edited. |
| SessionRows.ItemsOfUniqueNames | academia/councils/doctype/session/session.py:50-63 | With unique row names, iterating the dictionary visits the rows themselves, in order. |
| SessionRows.EditedInCurrentOrder | academia/councils/doctype/session/session.py:60-72 | With unique row names, the edited list is the qualifying current rows in their current order. |
| Session.CollectEdited | academia/councils/doctype/session/session.py:60-72 | The loop over the dictionary's items collects the edited rows in iteration order. |
| Session.Session.DetectAssignmentsChanges | academia/councils/doctype/session/session.py:31-75 | The method returns what `DetectChanges` specifies for the session's state. |
| Session.MarkRow | academia/councils/doctype/session/session.py:99-108 | One changed row affects at most its forward assignment. A transferred row leaves an existing forward assignment reading "Pending Review". A row that is not transferred, or whose target already reads "Pending Review", changes nothing. No record is created or removed. |
| Session.MarkPendingReview | academia/councils/doctype/session/session.py:97-108 | Visiting the changed rows in order never creates or removes a record. What it writes is characterised by the lemmas below. |
| Session.MarkPendingReviewPointwise | academia/councils/doctype/session/session.py:91-108 | Visiting the changed rows in order gives the same store as a record-by-record rule. A forward target of a transferred row that does not read "Pending Review" is set to it. Every other record is unchanged. |
| Session.MarkPendingReviewEffect | academia/councils/doctype/session/session.py:98-108 | Every forward assignment of a transferred changed row that exists reads "Pending Review" afterwards. Records that are no such target, and records already "Pending Review", are not written. No record appears or disappears, and only the status and timestamp can change. |
| Session.MarkPendingReviewIdempotent | academia/councils/doctype/session/session.py:106-108 | Running the status update a second time writes nothing, at any later time. |
| Session.MarkForwardAssignment | academia/councils/doctype/session/session.py:100-108 | One changed row: a transferred row's forward assignment is set to "Pending Review" only when its status differs. |
| Session.MarkForwardAssignments | academia/councils/doctype/session/session.py:98-108 | The loop leaves the store as `MarkPendingReview` specifies for the rows in order. |
| Session.Session.UpdateForwardAssignmentsStatus | academia/councils/doctype/session/session.py:80-108 | The store afterwards is `MarkPendingReview` over the edited rows followed by the added rows of this session, and it stays valid. |
| TopicAssignments.WithStatus | academia/councils/doctype/session/session.py:107-108 | A direct status write changes only the named record's status and timestamp. Every other field of that record, and every other record, stays as it was. A name with no record changes nothing. |
| TopicAssignments.Store.SetStatus | academia/councils/doctype/session/session.py:107-108 | The store's map is updated as `WithStatus` describes, and the counter stays ahead of every record name. |
| TopicAssignments.NameForInjective | academia/councils/doctype/session/session.py:125 | Different counter values give different names for new records. |
| TopicAssignments.FreshAfterInsert | academia/councils/doctype/session/session.py:125 | The name an insert takes is free, and every later name stays free. |
| TopicAssignments.Store.Insert | academia/councils/doctype/session/session.py:118-125 | An insert adds exactly one record, under a name no record had, and keeps all later names free. |
| TopicAssignments.Store.Save | academia/councils/doctype/session/session.py:156 | Saving writes the fetched document back under its name, stamped. A submitted record cannot be saved. The store stays valid. |
| TopicAssignments.Store.Submit | academia/councils/doctype/session/session.py:157 | Submitting marks a draft record submitted and changes nothing else in the store. The store stays valid. |
| Session.NewPostponed | academia/councils/doctype/session/session.py:118-124 | The record created for a postponed row is an unsubmitted "Accepted" draft. It has the row's title, description, council and topic, no decision yet, and the current timestamp. |
| Session.Session.CreatePostponedAssignment | academia/councils/doctype/session/session.py:110-126 | A new record is inserted under a fresh name. It is an unsubmitted "Accepted" record with the row's title, description, council and topic. Nothing else changes. |
| Session.ProcessRow | academia/councils/doctype/session/session.py:141-157 | One iteration yields one row. That row differs from the input row at most in its forward assignment. A row that is not postponed comes out unchanged and does not advance the counter. |
| Session.Process | academia/councils/doctype/session/session.py:141-157 | The submit loop returns one row per input row. Its effect on the store is characterised by the `Process*` lemmas. |
| Session.StoreCallsMatchProcessRow | academia/councils/doctype/session/session.py:143-157 | Fetching, the optional insert, the save and the submit together give the store that one iteration of the submit loop specifies. The fetched document is read before the insert. |
| Session.Session.ProcessSessionAssignment | academia/councils/doctype/session/session.py:141-157 | One iteration of the loop changes the store, the counter and that row as `ProcessRow` specifies. The store stays valid. |
| Session.Session.ProcessSessionAssignments | academia/councils/doctype/session/session.py:132-157 | The store, the counter and the rows afterwards are `Process` over the rows in order. It requires every row to refer to its own existing draft record. |
| Session.ProcessRows | academia/councils/doctype/session/session.py:147-151 | Submitting keeps the number of rows. Only a postponed row changes, and only in its forward assignment. |
| Session.ProcessAddsOnePerPostponed | academia/councils/doctype/session/session.py:146-151 | Exactly one new record is created per postponed row. No record is removed, and the counter stays ahead of every record name. |
| Session.ProcessLeavesOthers | academia/councils/doctype/session/session.py:141-157 | A Topic Assignment that no row refers to is left as it was. |
| Session.ProcessRecordsDecisions | academia/councils/doctype/session/session.py:153-157 | Each row's Topic Assignment ends with the row's decision and decision type and is submitted. All its other fields are as they were before. |
| Session.ProcessCreatesPostponed | academia/councils/doctype/session/session.py:146-151 | Each postponed row forwards to a record that did not exist before. That record is the row's accepted copy. |
| Session.ProcessForwardsDistinct | academia/councils/doctype/session/session.py:146-151 | Two different postponed rows always forward to two different new records. |
| CourseEnrollmentTool.Message | academia/academia/doctype/course_enrollment_tool/course_enrollment_tool.py:40-98 | Every error except the empty result is raised as a "Mandatory field - " message. |
| CourseEnrollmentTool.Collected | academia/academia/doctype/course_enrollment_tool/course_enrollment_tool.py:40-91 | The cascade never reports the empty-result error. It collects either every Course Study record or nothing. Records are collected only under "All Programs" / "All Levels", and always there once the year and term are given. |
| CourseEnrollmentTool.Courses | academia/academia/doctype/course_enrollment_tool/course_enrollment_tool.py:35-98 | A missing year is reported first. With the year given, a missing term is reported next. A list is returned exactly for "All Programs" / "All Levels" with at least one Course Study record. That list is never empty, and it is exactly the records in listing order. |
| CourseEnrollmentTool.FirstFailure | academia/academia/doctype/course_enrollment_tool/course_enrollment_tool.py:40-91 | No error exactly when no check fails. Otherwise the error is that of the first failing check: every earlier check passes. |
| CourseEnrollmentTool.CoursesFollowsChecklist | academia/academia/doctype/course_enrollment_tool/course_enrollment_tool.py:40-98 | The nested cascade equals the flat definition on every input. The flat definition has year, term, program scope, specific program, level and specific level checks in that order, then "No courses Found" unless all courses are listed. |
| CourseEnrollmentTool.ProgramScopeRequired | academia/academia/doctype/course_enrollment_tool/course_enrollment_tool.py:90-91 | With year and term given, a program scope that is neither option is an error, whatever the level fields hold. |
| CourseEnrollmentTool.SpecificProgramBeforeLevel | academia/academia/doctype/course_enrollment_tool/course_enrollment_tool.py:71-89 | Under "Specific Program", a missing specific program is reported before anything about the level. |
| CourseEnrollmentTool.LevelChecksUnderEitherScope | academia/academia/doctype/course_enrollment_tool/course_enrollment_tool.py:60-87 | Under either accepted program scope, an unset level is reported as "Level". A "Specific Level" without a specific level is reported as "Specific Level". |
| CourseEnrollmentTool.StubBranchesFindNothing | academia/academia/doctype/course_enrollment_tool/course_enrollment_tool.py:60-98 | The three accepted combinations other than All/All always end in "No courses Found". |
| CourseEnrollmentTool.ErrorIsFirstFailure | academia/academia/doctype/course_enrollment_tool/course_enrollment_tool.py:40-98 | A mandatory-field error comes back exactly when some check fails. |
| CourseEnrollmentTool.GetCourses | academia/academia/doctype/course_enrollment_tool/course_enrollment_tool.py:35-98 | The method, with its appending loop, returns what `Courses` specifies. |

## Left out

- Framework machinery is not modelled. This covers document classes, the whitelist decorator, message translation and `msgprint` output. Raising an error is the `Err` side of a `Result`.
- `frappe.get_list('Course Study', fields='*')` is a parameter: a sequence of records of any type. The model passes them through untouched and inspects none of their fields.
- Database reads and writes are operations on the `Store` map. Transactions, rollback on a raised error, permissions and other users' concurrent writes are not modelled.
- The naming series of new Topic Assignments is modelled as `"TA-"` followed by a counter. Only the fact that the name is fresh matters here.
- `assignment_date = nowdate(),` (session.py:121) is left out. The trailing comma makes the stored value a one-element tuple. The model has no date field.
- The clock is one `now` reading per hook call. The timestamp that each write stamps is the only time-dependent state.
- The source reads `self.assignments`, but the declared child table is `topics` (session.py:28). The model's `Session.assignments` is the table the code reads.
- `DetectChanges` and `Session.Session.DetectAssignmentsChanges` require the previous revision for a saved session. Line 54 dereferences it even when it is absent, which raises.
- `Session.Session.UpdateForwardAssignmentsStatus` requires a session that has been saved before. For a new session, change detection returns no lists, and line 95 then adds `None + None`, which raises.
- `Session.Session.ProcessSessionAssignments` requires that every row's Topic Assignment exists, is a draft, and is referred to by one row only. Fetching a missing record raises. Saving or submitting a submitted record raises. A second row for the same record would find it already submitted. The raising paths themselves are not modelled.
- The `if session_assignment_doc:` test (session.py:149) is always true in the model, because a fetch either returns a document or raises.
- Writing a status to a name with no record changes nothing (`WithStatus`). The hook has no other error path for it.
- The model does not state the order in which postponed rows receive their new names. It proves that each postponed row forwards to a record that did not exist before, and that different postponed rows forward to different records.
- `before_save` and `on_submit` only call the modelled hooks, so they have no members of their own.
- The course enrollment tool's other fields (faculty, courses, students) and the commented-out code are not modelled. The unused class attribute `child_table_data1` is not modelled either.
- `academia/academia/doctype/course_hours/course_hours.py` declares fields only and has no logic.
