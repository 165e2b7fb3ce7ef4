# Classroom attendance tracker — verified model

This project models the logic of a small classroom attendance tracker in
Dafny and proves properties of it. Three parts are modelled:

- **The student routes** (`StudentRoutes`, `StudentSchema`). The backend
  keeps two collections: students and attendance records. The routes list,
  create, partially update, delete and bulk-create students. Deleting a
  student also deletes its attendance records. `StudentStore` is a class
  that holds both collections as sequences. Each route handler is a method
  on it, and each method returns the HTTP status and JSON body it would
  send. The schema's rules hold for every state of the store
  (`StoreInvariant`): `name`, `rollNumber` and `id` are non-empty, and
  `rollNumber` and `id` are unique. Every method keeps them.
- **The dashboard** (`Dashboard`, `StudentSearch`). This covers the
  summary statistics for a date and period, the 56-seat grid cut into rows
  of eight, the binary seat toggle, single and bulk marking, and the roster
  search.
- **The roster management page** (`StudentManagement`). This covers the
  add/edit form, the CSV import checks (non-empty, at least one valid row,
  at most 56 valid rows), the 56-row CSV template and the capacity guard
  on the submit button.

Request bodies, CSV rows and form fields are strings. The source tests
every optional field for truthiness (`!name`, `email || ''`,
`req.body.name || student.name`), so the empty string stands for any
absent or falsy value. The attendance provider, the student provider and
the CSV parser are not part of this model. What they return is a
parameter; a call made on them is returned or recorded as a value.
Generated ids (`Date.now()`, `Math.random()`) are also parameters. They
are assumed to be non-empty strings.

Some consequences of the code that a reader might not expect:

- `handleImport` caps the batch alone, whatever the roster size. With 56
  students already listed, a file of up to 56 valid rows is still handed
  to the bulk insert (`ImportCheck` takes no roster).
- A uniqueness clash answers 400. It comes from the `catch` of each
  handler (Backend/routes/studentRoutes.js:24, 39 and 73).
- An id freed by a delete can be taken again by a later create. The
  unique index covers only the documents stored at the time.
- The truthy fallback of the PUT merge means an update can never set a
  field to the empty string (`MergeCannotClear`).
- `editingId` is never set to a non-null value in
  project/src/pages/StudentManagement.jsx. Only lines 9, 24 and 33 set it,
  each to null. So the update branch of `handleSubmit` and the Cancel button cannot
  be reached in that file. The model still states both branches, as the
  code is written.

## Model

| member | source | states |
|---|---|---|
| `StudentSchema.WellFormed` | Backend/models/Student.js:5-11 | One document meets the schema exactly when name, rollNumber and id are non-empty strings. Email is not required. |
| `StudentSchema.StoreInvariant` | Backend/models/Student.js:5-11 | In a valid collection every document meets the schema, and rollNumber and id are each a key: two positions with the same id, or the same rollNumber, are the same position. |
| `StudentSchema.AppendOneIff` | Backend/models/Student.js:5-11 | Adding one well-formed document (non-empty name, rollNumber and id) keeps the schema invariant exactly when its rollNumber and its id are both not taken yet. |
| `StudentRoutes.HasRequired` | Backend/routes/studentRoutes.js:18 | The required-fields guard of create (the bulk route at line 60 applies the same test) accepts exactly the bodies whose fields meet the schema once any non-empty id is supplied. |
| `StudentRoutes.NewStudent` | Backend/routes/studentRoutes.js:20 | The created document has the given name and rollNumber. Its email is the given email, or `""` when that is falsy. Its id is the given id, or the fresh id when that is falsy. With the required fields and a non-empty fresh id, the document meets the schema. |
| `StudentRoutes.FindById` | Backend/routes/studentRoutes.js:30 | The lookup finds nothing exactly when no student carries that id. Otherwise it gives the first position holding that id. |
| `StudentRoutes.Merge` | Backend/routes/studentRoutes.js:33-35 | Each of name, rollNumber and email takes the supplied value when that is non-empty, and keeps the old value otherwise. The id never changes. A well-formed student stays well-formed. |
| `StudentRoutes.MergeIdempotent` | Backend/routes/studentRoutes.js:33-35 | Applying the same update twice gives the same student as applying it once. |
| `StudentRoutes.MergeEmptyBody` | Backend/routes/studentRoutes.js:33-35 | An update with every field missing leaves the student unchanged. |
| `StudentRoutes.MergeCannotClear` | Backend/routes/studentRoutes.js:35 | An update can never clear a non-empty email; an empty supplied email keeps the old one. |
| `StudentRoutes.ReplaceAtIff` | Backend/routes/studentRoutes.js:36 | Saving a merged student back in place, id unchanged, keeps the schema invariant exactly when no other student holds its rollNumber. |
| `StudentRoutes.RemoveAt` | Backend/routes/studentRoutes.js:49 | deleteOne gives a collection one shorter, with the documents before and after the removed position in their old order. |
| `StudentRoutes.RemoveAtProperties` | Backend/routes/studentRoutes.js:49 | Removing from a valid collection keeps it valid, leaves no student with the removed id, and keeps every other student. |
| `StudentRoutes.WithoutAttendanceOf` | Backend/routes/studentRoutes.js:50 | deleteMany leaves no record with that studentId. A record remains exactly when it was there and belongs to another student. |
| `StudentRoutes.CascadeKeepsOthers` | Backend/routes/studentRoutes.js:50 | For every other student id, the records of that student are the same after the cascade: same records, order and multiplicity. |
| `StudentRoutes.CascadeRemovesExactly` | Backend/routes/studentRoutes.js:50 | The cascade removes exactly the deleted student's records: the remaining count plus that student's count is the old count, and none of its records remain. |
| `StudentRoutes.CascadeIdempotent` | Backend/routes/studentRoutes.js:50 | Running the cascade a second time removes nothing more. |
| `StudentRoutes.PrepareBulk` | Backend/routes/studentRoutes.js:59-69 | The batch fails exactly when some candidate lacks name or rollNumber, and that happens before anything is inserted. On success there is one document per candidate, in input order, each built with the same defaults as a single create. |
| `StudentRoutes.PreparedWellFormed` | Backend/routes/studentRoutes.js:63-68 | With non-empty generated ids, every prepared document meets the schema's required-field rules. |
| `StudentRoutes.BatchInsertableIff` | Backend/routes/studentRoutes.js:70 | A batch of well-formed documents can be inserted into a valid store exactly when the batch has no duplicate rollNumber or id and none of its keys is already taken. |
| `StudentRoutes.StudentStore.List` | Backend/routes/studentRoutes.js:6-9 | GET answers 200 with exactly the stored students, in stored order, and changes nothing. |
| `StudentRoutes.StudentStore.Create` | Backend/routes/studentRoutes.js:15-26 | A missing name or rollNumber gives 400 and no change. A rollNumber or id collision gives 400 and no change. Otherwise the store gains exactly the new document at the end and the answer is 201 with it. No stored student held the created id or its rollNumber. Attendance is untouched and the invariant is kept. |
| `StudentRoutes.StudentStore.Update` | Backend/routes/studentRoutes.js:28-41 | An unknown id gives 404 and no change. A merged rollNumber held by another student gives 400 and no change. Otherwise only that student's position changes, to the merged document, and the answer is 200 with it. |
| `StudentRoutes.StudentStore.Delete` | Backend/routes/studentRoutes.js:43-55 | An unknown id gives 404 and no change to either collection. Otherwise the student is removed, then every attendance record with that studentId. No student with that id and no record for it remain, and every other student is kept. |
| `StudentRoutes.StudentStore.BulkCreate` | Backend/routes/studentRoutes.js:57-75 | An invalid candidate gives 400 and no change. A batch the unique indexes refuse gives 400 and no change. Otherwise the batch is appended in input order and returned with 201. |
| `Text.OrElse` | Backend/routes/studentRoutes.js:20 | The truthy fallback on strings gives the value when it is non-empty, and the fallback otherwise. |
| `Text.Lower` | project/src/pages/Dashboard.jsx:81-83 | `toLowerCase` keeps the length and lowercases each character on its own. |
| `Text.Includes` | project/src/pages/Dashboard.jsx:81-83 | Every string includes the empty string, and any prefix of itself. A string never includes a longer needle. |
| `Text.IncludesIff` | project/src/pages/Dashboard.jsx:81-83 | The `includes` test holds exactly when the needle occurs at some position of the haystack. |
| `Text.NatToString` | project/src/pages/StudentManagement.jsx:78-80 | The decimal text of a number is non-empty and all digits. It is one character long exactly when the number is below 10, and its last digit is the number modulo 10. |
| `Text.NatToStringInjective` | project/src/pages/StudentManagement.jsx:78-80 | Different numbers render as different decimal texts. |
| `StudentSearch.FilteredStudents` | project/src/pages/Dashboard.jsx:80-84 | The filtered roster is no longer than the roster. A student is in it exactly when it is in the roster and the search matches it. |
| `StudentSearch.Matches` | project/src/pages/Dashboard.jsx:81-83 | A student matches exactly when the lowercased term occurs in its lowercased name, rollNumber or email. |
| `StudentSearch.MatchesIgnoresTermCase` | project/src/pages/StudentManagement.jsx:86-88 | Lowercasing the search term first does not change the result. |
| `StudentSearch.FilterAppend` | project/src/pages/StudentManagement.jsx:85-89 | Filtering distributes over concatenation, so the kept students stay in roster order. |
| `StudentSearch.EmptyTermKeepsAll` | project/src/pages/Dashboard.jsx:80-84 | An empty search term keeps the whole roster. |
| `Dashboard.AttendanceStatus` | project/src/pages/Dashboard.jsx:40-42 | A student without a record reads as status `""`; otherwise its recorded status is read. |
| `Dashboard.StudentHours` | project/src/pages/Dashboard.jsx:86-88 | A student without a record reads as 0 hours; otherwise its recorded hours are read. |
| `Dashboard.AttendanceChange` | project/src/pages/Dashboard.jsx:34-35 | A mark carries the given date, period, student and status. It carries the time range exactly when the status is `"present"`, and null otherwise. |
| `Dashboard.SeatClick` | project/src/pages/Dashboard.jsx:90-95 | An empty seat gives no mark. An occupied seat gives a mark that is always `"present"` or `"absent"`. It is `"absent"` exactly when the current status is `"present"`, so an unmarked student becomes present. |
| `Dashboard.SeatClickTwice` | project/src/pages/Dashboard.jsx:90-94 | If the provider records the first click's status, a second click restores a marked seat's original status. |
| `Dashboard.KeysWithStatus` | project/src/pages/Dashboard.jsx:46-47 | The ids selected for a status are lookup-table keys, and exactly those whose record has that status. |
| `Dashboard.RoundedPercentage` | project/src/pages/Dashboard.jsx:53 | The integer formula is the floor of 100·present/total + 1/2, the exact rounding that `Math.round` would give without float error. |
| `Dashboard.RoundedPercentageNearest` | project/src/pages/Dashboard.jsx:53 | The percentage is within one half of the exact real value, rounding halves up. |
| `Dashboard.RoundedPercentageBounds` | project/src/pages/Dashboard.jsx:53 | A part no larger than the total gives at most 100. All of it gives 100, and none gives 0. |
| `Dashboard.CountPartial` | project/src/pages/Dashboard.jsx:48-51 | The partial count is at most the roster length. |
| `Dashboard.CountPartialIsSize` | project/src/pages/Dashboard.jsx:48-51 | The partial count equals the number of roster positions whose day total lies strictly between 0 and 8. |
| `Dashboard.CalculateStats` | project/src/pages/Dashboard.jsx:44-55 | With no students every stat is 0. Otherwise: total is the roster length; present and absent count the records with those statuses; partialPresent counts students whose day total is strictly between 0 and 8; the percentage is the rounded share of present. |
| `Dashboard.StatsBounds` | project/src/pages/Dashboard.jsx:46-52 | present + absent never exceeds the number of records, and partialPresent never exceeds total. |
| `Dashboard.Padded` | project/src/pages/Dashboard.jsx:62-63 | The padded roster has max(n, 56) entries: the n students in roster order, then empty seats. |
| `Dashboard.GetStudentRows` | project/src/pages/Dashboard.jsx:59-68 | Row r is entries 8r up to 8r+8 of the padded roster. Seat k is column k%8 of row k/8. Every row has 8 entries except possibly the last. With at most 56 students there are exactly 7 full rows. |
| `Dashboard.HandleBulkAttendance` | project/src/pages/Dashboard.jsx:70-75 | The status map's keys are exactly the ids of the filtered students, each mapped to the selected status. The time range is sent only with `"present"`. |
| `Dashboard.BulkReachesExactlyMatches` | project/src/pages/Dashboard.jsx:70-84 | On a roster with unique ids, a roster student's id is in the bulk map exactly when the search matches it, so no other student is touched. |
| `Dashboard.BulkAgreesWithSingle` | project/src/pages/Dashboard.jsx:70-75 | Each entry of a bulk mark carries the same date, period, status and time range as a single mark of that student. |
| `StudentManagement.ImportFailureMessage` | project/src/pages/StudentManagement.jsx:70 | The error banner is "Error importing CSV: " followed by the error's message, or by "Unknown error" when that message is empty. |
| `StudentManagement.ImportSuccessMessage` | project/src/pages/StudentManagement.jsx:67 | The success banner is "Successfully imported ", then the decimal text of the count, then " student records.". |
| `StudentManagement.ImportSuccessMessageInjective` | project/src/pages/StudentManagement.jsx:67 | The success banner names the imported count: different counts give different texts. |
| `StudentManagement.ValidRows` | project/src/pages/StudentManagement.jsx:55 | The valid subset is no longer than the file. A row is in it exactly when it is in the file and has a non-empty name and rollNumber. |
| `StudentManagement.ValidRowsAppend` | project/src/pages/StudentManagement.jsx:55 | The filter distributes over concatenation, so valid rows keep their file order. |
| `StudentManagement.ImportCheck` | project/src/pages/StudentManagement.jsx:50-64 | An empty file fails with "No valid data…". A file without valid rows fails with "No valid student records…". More than 56 valid rows fail with "Cannot import more than 56…". The check passes exactly when there are 1 to 56 valid rows, and then yields the valid subset. |
| `StudentManagement.TemplateRow` | project/src/pages/StudentManagement.jsx:78-80 | Template row i is valid for import. Its rollNumber is the decimal text of 101 + i, its name is "Student " followed by the text of i + 1, and its email is "student", that text, then "@example.com". |
| `StudentManagement.CsvTemplate` | project/src/pages/StudentManagement.jsx:76-81 | The template has exactly 56 rows, and row i is the placeholder row for i. |
| `StudentManagement.TemplateEnds` | project/src/pages/StudentManagement.jsx:77-81 | The first row is ("Student 1", "101", "student1@example.com"). The last is ("Student 56", "156", "student56@example.com"). |
| `StudentManagement.TemplateRowsDistinct` | project/src/pages/StudentManagement.jsx:78-80 | Different template positions give different rollNumbers, names and emails. |
| `StudentManagement.TemplateDistinct` | project/src/pages/StudentManagement.jsx:76-81 | No two rows of the template share a rollNumber, a name or an email. |
| `StudentManagement.TemplateImports` | project/src/pages/StudentManagement.jsx:55-64 | Every template row is valid, so importing the template passes and takes all 56 rows: exactly 56 are accepted. |
| `StudentManagement.TemplatePlusOneRefused` | project/src/pages/StudentManagement.jsx:61-64 | The template plus one more valid row has 57 valid rows and is refused as a whole. |
| `StudentManagement.StudentManagementPage.constructor` | project/src/pages/StudentManagement.jsx:7-13 | The page starts with the provider's roster, an empty form, no editing id, no error or success banner, not importing, and no provider calls. |
| `StudentManagement.StudentManagementPage.SubmitDisabled` | project/src/pages/StudentManagement.jsx:112-121 | The button is disabled, and the capacity notice shown, only at 56 students or more. While it is enabled, one more add keeps the roster within 56. |
| `StudentManagement.StudentManagementPage.HandleSubmit` | project/src/pages/StudentManagement.jsx:20-29 | When editing, it issues an update carrying the form and the editing id; otherwise it issues an add of the form. Then it clears the editing id and resets the form to empty fields. |
| `StudentManagement.StudentManagementPage.FormFilled` | project/src/pages/StudentManagement.jsx:107-108 | The `required` name and roll number inputs let the form submit exactly when the form would pass the import's row test: both fields non-empty. |
| `StudentManagement.StudentManagementPage.Submit` | project/src/pages/StudentManagement.jsx:105-121 | With 56 or more students the button is disabled (the capacity notice shows under the same condition), and with an empty name or roll number the browser refuses the submit; in both cases nothing changes. Otherwise it behaves as HandleSubmit. |
| `StudentManagement.StudentManagementPage.HandleCancel` | project/src/pages/StudentManagement.jsx:31-34 | Cancelling clears the form and the editing id and calls nothing. |
| `StudentManagement.StudentManagementPage.HandleImport` | project/src/pages/StudentManagement.jsx:40-74 | With no file, nothing changes. A parser failure or a failed check sets its error banner and calls nothing. Otherwise the valid subset is handed to the bulk insert exactly once. Then the banner reports the count, or the insert's error. The importing flag ends false. |

## Left out

- Storage failures: the 500 answers of GET and DELETE, and save errors other than a unique-index clash, are not modelled. The store only refuses a duplicate rollNumber or id.
- The schema's `timestamps` option (createdAt, updatedAt) is not modelled.
- Id generation from `Date.now()` and `Math.random()` is not modelled. Ids are parameters assumed to be non-empty, and a collision of a generated id appears as a duplicate-key refusal.
- StudentRoutes.StudentStore.BulkCreate: does not model `insertMany` keeping the documents inserted before the first duplicate. A refused batch is taken to insert nothing.
- StudentRoutes.StudentStore.Delete: does not model a failure between the primary delete and the cascade (orphaned records). The two steps run one after the other with nothing in between.
- Non-string request values (numbers, booleans, objects) are not modelled. Every field is a string, and `""` stands for every falsy value.
- Attendance records keep only date, period, studentId and status. Hours and time ranges are not stored, since no core route reads them.
- The attendance provider (`markAttendance`, `bulkMarkAttendance`, `getAttendanceForDate`, `getTotalHoursForDate`, `fetchAttendance`) is not part of this model. Its lookup table and hour totals are parameters, its calls are returned values, and the fetch that `useEffect` triggers is not modelled.
- The dashboard's lookup table is a map from student id to a mark. Null entries among `Object.values` are not modelled.
- Dashboard.RoundedPercentage: does not model floating-point error. It is the exact rounding of 100·present/total. In IEEE doubles `(23 / 40) * 100` is 57.49999999999999, so with 23 present out of 40 the page shows 57 where the model gives 58.
- StudentManagement.StudentManagementPage.Submit: does not model the browser's email-format check of the `type="email"` input (StudentManagement.jsx:109). A malformed non-empty email still reaches HandleSubmit in the model, while the browser refuses it.
- toLowerCase: only ASCII letters are lowercased; no other Unicode case mapping is modelled.
- The CSV parser and exporter are not part of this model, nor is the `exportToCSV` of the template. Parsed rows are an input; the template is modelled up to the rows it exports.
- UI-only state is not modelled: field edits (`handleChange`, `handleTimeChange`), the "saved" banners and their `setTimeout` dismissal, the reset of the file input, loading flags, hover state and rendering.
- Date formatting with date-fns is not modelled.
