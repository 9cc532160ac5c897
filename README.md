# Elective recommender: a verified model

This project models the core of a small elective-course recommender for
students. It covers two programs.

- **The catalog builder** (`create_knowledge_base.py`). It renames the columns
  of three course tables to canonical labels. It left-merges the
  semester-wise table with the slot table on `CourseNo`, then with the
  category table on `Category`. It keeps the first row of every `CourseNo`.
  Finally it left-merges an embedded prerequisite table.
- **The web service** (`app.py`). A grade card's text is read into a student
  profile: roll number, name, department, CGPA and the course rows. The
  current semester is derived from the roll number, and the profile is stored
  in a session store keyed by roll number. The slots of the student's
  mandatory courses are attached to the session, and three suggested
  questions are returned. A recommendation request then runs a pipeline over
  the catalog:
  1. keep the electives;
  2. drop technical courses for a student with a poor coding grade outside
     the exempt departments;
  3. apply the student's preference search;
  4. drop courses in occupied slots;
  5. return the first five.

Modules, one per file:

- `Wrappers`: `Option` and `Result`.
- `Seqs`: boolean-mask selection (`Filter`), `head(n)` (`Take`), keep-first
  deduplication (`KeepFirstBy`), order-preserving `unique` (`Unique`), and the
  subsequence order that all of them respect.
- `Frames`: tables as a set of column labels plus a sequence of rows. A row is
  a map from label to `Cell` (`Null`, text or number), and a label a row lacks
  reads as `Null`. The module has column renaming, pandas' left merge (one
  output row per matching right row, one `Null`-filled row when none) and
  `drop_duplicates(keep='first')`.
- `Text`: character classes, greedy runs, `strip()`, ASCII lower-casing and a
  literal, case-insensitive substring test.
- `Calendar`: the entry year and the `(semester, year)` computation.
- `KnowledgeBase`: the catalog builder.
- `GradeCard`: the field extractors, the course-row `findall` scan, the
  `courses_taken` loop and the profile.
- `Recommender`: the department code, the occupied slots, the elective
  pipeline and the suggested questions.
- `Sessions`: loading the catalog, the two endpoints as functions of the
  session store, and the `SessionStore` class whose methods are proved
  against those functions.

Inputs that come from the environment are parameters:

- the text extracted from the PDF;
- the clock's year and month;
- the CSV tables, each an `Option<Table>` where `None` means the file could
  not be read;
- the request fields, each an `Option` where `None` means absent.

## Model

| member | source | states |
|---|---|---|
| Calendar.EntryYear | app.py:65-67 | There is no entry year exactly when the roll number has no two-capitals-two-digits token. Otherwise it is 2000 plus the two digits of the leftmost token, so it lies in 2000..2099. |
| Calendar.SemesterAndYear | app.py:63-72 | Without a token the result is `(1, 1)`. The semester is always at least 1. The year is the calendar-year difference plus one. |
| Calendar.SemesterIsTermNumber | app.py:70-72 | For any month 1..12, the semester is the number of the six-month term (July–December, January–June) running since July of the entry year, or 1 before the first term. This is an independent reference definition. |
| Calendar.Examples | app.py:63-72 | `CE21B001` gives `(6, 4)` in March 2024 and `(7, 4)` in August 2024. |
| Calendar.NoTokenIsFirstSemester | app.py:66 | A roll number with no letter-letter-digit-digit window gives `(1, 1)`. |
| Calendar.NextYearAddsTwoSemesters | app.py:70-72 | Past the first year, a year later adds two semesters and one year. |
| Calendar.SemesterParity | app.py:71 | Past the first year, the semester is odd exactly from July on. |
| Calendar.FutureEntryYear | app.py:72 | The year is not clamped: entry year 2099 seen in 2024 gives year -74 while the semester is 1. |
| KnowledgeBase.CreateKnowledgeBase | create_knowledge_base.py:24-70 | A catalog is produced exactly when all three tables are read, no renaming gives a merge key a second column of the same label, and the tables have the columns the merges use. The prerequisites merged are always the embedded table. Its columns are the semester-wise columns plus `Slot`, `CourseType` and `Prerequisite`. Its rows are merge, merge, first-row-per-course, merge. |
| KnowledgeBase.RenamingIsFixed | create_knowledge_base.py:34-36 | Each canonical label carries the cell of its fixed source label. |
| KnowledgeBase.MergeKeepsSemesterRows | create_knowledge_base.py:41-42 | No semester-wise row is lost by the two left merges. Each survives in order, extended by its first matches. |
| KnowledgeBase.DedupOfMerged | create_knowledge_base.py:41-47 | Merging and then keeping the first row per course equals keeping the first semester-wise row per course and looking up its first slot and first type. |
| KnowledgeBase.CatalogIsFirstRowPerCourse | create_knowledge_base.py:41-53 | With unique prerequisite keys, catalog row `i` is the first semester-wise row of its course, plus its first slot, first type and prerequisite. There are as many catalog rows as kept first rows. |
| KnowledgeBase.FirstRowPerCourse | create_knowledge_base.py:47 | Each kept row is the first row of its course. |
| KnowledgeBase.CatalogKeysAreFirstKeys | create_knowledge_base.py:47-53 | Catalog row `i` has the course of the `i`-th kept semester-wise row. |
| KnowledgeBase.CatalogCourseNosUnique | create_knowledge_base.py:47-53 | `CourseNo` is unique in the catalog. |
| KnowledgeBase.DedupKeepsCourses | create_knowledge_base.py:47 | Deduplication loses no course. The courses before and after are the same. |
| KnowledgeBase.CatalogCourseSet | create_knowledge_base.py:41-53 | The catalog's courses are exactly the semester-wise table's courses. |
| KnowledgeBase.CatalogNullFilling | create_knowledge_base.py:41-53 | A course with no slot row has a missing `Slot`. A category with no type row has a missing `CourseType`. A course with no prerequisite row has a missing `Prerequisite`. |
| KnowledgeBase.CatalogRowKeepsSemesterCells | create_knowledge_base.py:41-53 | Every semester-wise cell is kept, and only the three merged labels are added. |
| KnowledgeBase.PrerequisiteKeysUnique | create_knowledge_base.py:6-17 | The embedded prerequisite table has one row per `CourseNo`, so its merge adds no rows. |
| KnowledgeBase.PrerequisiteCoursesDistinct | create_knowledge_base.py:7-16 | The embedded lines have distinct course numbers, the comment line included. |
| Frames.RenameRow | create_knowledge_base.py:34-36 | The new label carries the old label's cell. The old label is gone. Every other label is untouched. |
| Frames.RenameColumn | create_knowledge_base.py:34-36 | Renaming changes the column set accordingly and renames every row. |
| Frames.JoinRow | create_knowledge_base.py:41 | A left row yields at least one output row. The first output row carries the first match, or `Null` when there is none. |
| Frames.LeftJoinRows | create_knowledge_base.py:41-42 | A left merge never has fewer rows than its left side. |
| Frames.LookupJoin | create_knowledge_base.py:41-42 | A first-match lookup extends each left row, in order, by the cell of its first match. |
| Frames.DropDuplicates | create_knowledge_base.py:47 | The kept rows have pairwise distinct keys. |
| Frames.NoMatchGetsNull | create_knowledge_base.py:41-42 | With no matching right row, the merged cell is missing. |
| Frames.FirstMatchIsFirst | create_knowledge_base.py:41-42 | The merged cell comes from the first matching right row. |
| Frames.UniqueKeysSingleMatch | create_knowledge_base.py:53 | Under unique right keys, at most one right row matches. |
| Frames.LeftJoinUniqueIsLookup | create_knowledge_base.py:53 | Under unique right keys, the left merge is the first-match lookup. |
| Frames.LookupIsSubseqOfLeftJoin | create_knowledge_base.py:41-42 | The first-match lookup is a subsequence of the left merge. |
| Frames.LeftJoinMonotone | create_knowledge_base.py:41-42 | The left merge respects the subsequence order of its left side. |
| Frames.KeepFirstBlock | create_knowledge_base.py:47 | From a block of rows sharing one key, deduplication keeps only the block's first row. |
| Frames.DedupAfterJoin | create_knowledge_base.py:41-47 | When the merged column is not the key, keeping the first row per key after a merge equals a first-match lookup after keeping the first row per key. |
| Seqs.Filter | app.py:135 | Boolean-mask selection keeps exactly the elements that satisfy the mask, in their original order. |
| Seqs.FilterCounts | app.py:135 | Selection keeps every copy of an element that satisfies the mask and no copy of any other. |
| Seqs.Take | app.py:163 | `head(n)` is the prefix of length `min(n, len)`. |
| Seqs.KeepFirstBy | create_knowledge_base.py:47 | No kept element has an already-seen key, and kept keys are pairwise distinct. |
| Seqs.KeepFirstByIsFirst | create_knowledge_base.py:47 | Each kept element is the first element of the input with its key. |
| Seqs.KeepFirstByCovers | create_knowledge_base.py:47 | Every key of the input is kept. |
| Seqs.KeepFirstBySubseq | create_knowledge_base.py:47 | The kept elements are a subsequence of the input. |
| Seqs.KeepFirstByOrder | create_knowledge_base.py:47 | The kept elements come in the order in which their keys first appear in the input. |
| Seqs.Unique | app.py:109 | `unique()` has no repeats, has the same members as its input, lists them in the order of their first occurrences, and is a subsequence of it. |
| Seqs.FilterFilter | app.py:135-162 | Two selections in a row are one selection by the conjunction. |
| Seqs.FilterStronger | app.py:154-159 | Selecting by a stronger mask yields a subsequence of selecting by a weaker one. |
| Seqs.SubseqFilter | app.py:79 | Selection respects the subsequence order. |
| Seqs.SubseqLength | app.py:79 | A subsequence is no longer than its source. |
| Seqs.TakeSubseq | app.py:163 | `head(n)` is a subsequence of the input. |
| Seqs.FilterAll | app.py:162 | A mask that every element satisfies keeps everything. |
| Seqs.FilterNone | app.py:162 | A mask no element satisfies keeps nothing. |
| Text.Run | app.py:37-40 | A greedy class run stays inside the text and stops at a character outside the class. |
| Text.RunChars | app.py:37-40 | Every character of a run is in the class. |
| Text.Lower | app.py:125 | Lower-casing keeps the length and lower-cases each character. |
| Text.Strip | app.py:38-39 | `strip()` yields the middle slice. It does not start or end with whitespace, and everything cut off is whitespace. |
| Text.StripPadded | app.py:38-39 | Stripping whitespace padding returns the padded text. |
| Text.DigitsValue | app.py:53 | On a non-empty digit string it is `int()`: one digit gives its value, and any digits give a non-negative number. The empty text gives 0, but `ToCourse` never converts empty credits, just as the code does not. |
| Text.DigitsValueAppend | app.py:53 | `int()` is positional: the digits in front are worth ten to the number of digits behind them, plus the value of those. |
| Text.DigitsValueBound | app.py:53 | A digit string is worth less than ten to its length. |
| Text.DigitsValueOfDecimal | app.py:53 | `int()` of the decimal rendering of a natural number gives that number back. |
| Text.Leftmost | app.py:37-40 | The search reports a candidate position only where the pattern matches, and no earlier candidate matches. `None` means no candidate matches. |
| GradeCard.TokenAfter | app.py:37 | The roll-number capture is a non-empty run of capitals and digits. |
| GradeCard.StrippedRunAfter | app.py:38-39 | The name and department captures are stripped runs of their class. |
| GradeCard.MarkerTokenShape | app.py:40 | The CGPA capture is a non-empty run of digits and dots. |
| GradeCard.FieldPosMatches | app.py:37-40 | The field search stops only where the pattern matches. |
| GradeCard.FieldPosLeftmost | app.py:37-40 | The field search stops at or before every position where the pattern matches. |
| GradeCard.SearchIsLeftmostMatch | app.py:37-40 | A field is found exactly when its pattern matches somewhere. Then it is the capture at the leftmost match. |
| GradeCard.FieldShape | app.py:37-40 | Every field that is found has the shape of its capture group. |
| GradeCard.RollNoOfLine | app.py:37 | `Roll No:`, a space and a roll number read back that roll number. |
| GradeCard.NameOfLine | app.py:38 | `Name:`, a space and a padded name read back that name. |
| GradeCard.DepartmentOfLine | app.py:39 | `Department:`, a space and a padded department read back that department. |
| GradeCard.CgpaOfLine | app.py:40 | `average secured is` followed by a number reads back that number. |
| GradeCard.NameRunsIntoNextLine | app.py:38 | The name class includes line breaks: a name line followed by the department line reads as the name, a line break and `D`. |
| GradeCard.DepartmentStopsAtAmpersand | app.py:39 | The department class has no `&`: `AI & DS` reads as `AI`. |
| GradeCard.CourseNoEnd | app.py:45 | The course-number group is at least six characters long and lies inside the text. |
| GradeCard.CourseNoEndSound | app.py:45 | The course-number group is two capitals, at least three digits and capitals. A further capital cannot extend it. |
| GradeCard.TailAt | app.py:45 | The credits and grade groups lie in order inside the text. |
| GradeCard.TailAtSound | app.py:45 | The credits are digits and the grade is at most two capitals. |
| GradeCard.TitleEnd | app.py:45 | The lazy title ends on the line where it starts. |
| GradeCard.RowAt | app.py:45 | A row match starts where it is tried, and its group spans lie in order inside the text. |
| GradeCard.RowAtSound | app.py:45 | The groups of every row match have the shape of a course row. |
| GradeCard.NextRowSound | app.py:46 | Every row the scan reports has the shape of a course row. |
| GradeCard.NextRowLeftmost | app.py:46 | The scan reports the leftmost row match: no row matches at a skipped position. |
| GradeCard.NextMatch | app.py:46 | A scan step finds a match exactly when a row matches at or after its start. It reports the groups of the leftmost row and resumes just past that row's closing quote, strictly after where it started. |
| GradeCard.NextMatchSound | app.py:46 | Every match a scan step reports has the shape of a course row. |
| GradeCard.FindAllRowsWellFormed | app.py:45-46 | Every match `findall` collects has the shape of a course row. |
| GradeCard.FindAllRendered | app.py:45-46 | Scanning well-formed rows written one after the other (titles without quotes) finds exactly those rows, in order. |
| GradeCard.ToCourse | app.py:49-54 | The course number is kept. Every quote is removed from the title, and every other character keeps its number of occurrences. Empty credits become 0, other credits their `int()`. An empty grade becomes `N/A`. |
| GradeCard.Courses | app.py:46-54 | One entry per match, in match order. |
| GradeCard.CoursesTaken | app.py:46-54 | The append loop produces `Courses` of the matches. |
| GradeCard.ProfileFromText | app.py:35-58 | A profile is produced exactly when all four fields are found and the CGPA is a valid float literal. Otherwise the failure is that of the first field, in the order roll number, name, department, CGPA, that is not found, or else `NotANumber` for the CGPA. The profile carries the captured fields, the courses of all row matches, the derived semester (at least 1) and no slots. |
| GradeCard.ExtractProfile | app.py:35-58 | Reading the fields, then the rows one by one, then the semester, gives `ProfileFromText`. |
| Recommender.DepartmentCode | app.py:101-102 | `CE` exactly for Civil Engineering, `AE` exactly for Aerospace Engineering, `XX` otherwise. |
| Recommender.SlotColumn | app.py:109 | The `Slot` cell of each row, in order. |
| Recommender.OccupiedSlots | app.py:104-109 | The occupied slots have no repeats. |
| Recommender.OccupiedSlotsSound | app.py:104-109 | Every occupied slot is a non-missing slot of a mandatory course: same department code, same semester, not an elective. |
| Recommender.OccupiedSlotsComplete | app.py:104-109 | The non-missing slot of every mandatory course is occupied. |
| Recommender.Recommend | app.py:162-163 | At most five recommendations, forming a prefix of the candidates. With fewer than five, they are all the candidates. |
| Recommender.CandidatesAreSelection | app.py:135-162 | The four stages in a row equal one selection by the reference predicate `Selected`, in catalog order. |
| Recommender.CandidateIff | app.py:135-162 | A course is a candidate exactly when it is in the catalog and passes every stage. |
| Recommender.RecommendSound | app.py:135-163 | Every recommendation is a catalog elective outside the occupied slots, without a coding keyword when the gate fires, matching the query when there is one. Recommendations keep catalog order. |
| Recommender.QueryNarrows | app.py:154-159 | The candidates with a query are a subsequence of the candidates without one. |
| Recommender.GateNarrows | app.py:144-151 | The candidates with the gate firing are a subsequence of the candidates without it. |
| Recommender.RecommendAvoidsMandatorySlots | app.py:104-162 | With the computed occupied slots, no recommendation shares a slot with a mandatory course. |
| Recommender.HumanitiesCount | app.py:79 | The count is at most the number of courses. |
| Recommender.HumanitiesCountIsFilter | app.py:79 | The count equals the number of courses whose number starts with `HS`. |
| Recommender.SuggestedQuestions | app.py:74-86 | Three questions: the 9-credit one first and the management one last. The middle one asks for more humanities exactly when at least two `HS` courses were taken. |
| Recommender.MoreHumanitiesStays | app.py:79-81 | Taking more courses never withdraws the question about more humanities. |
| Sessions.LoadRow | app.py:19-21 | A missing description becomes the empty text. Every other cell is unchanged. |
| Sessions.LoadCatalog | app.py:17-21 | The loaded catalog always has a `Description` column, and every row is loaded. |
| Sessions.EmptyContainsNothing | app.py:149-158 | An empty description contains no non-empty needle. |
| Sessions.LoadingKeepsSelection | app.py:19-21 | Filling missing descriptions changes no stage's verdict on any row. |
| Sessions.Admit | app.py:101-117 | Only the profile's roll number is added or replaced in the store. When the catalog lacks a column or was not loaded, the profile is stored without slots and the result is `CatalogUnavailable`. Otherwise the stored and returned profile carries the occupied slots, together with the suggested questions. |
| Sessions.ColumnsRead | app.py:135-162 | A request always reads `Category` and `Slot`. It reads `Course Name` and `Description` exactly when the gate fires or there is a query, and `CourseType` exactly when there is a query. It reads nothing else. |
| Sessions.Init | app.py:93-119 | A missing file gives `NoFile` and an unreadable grade card gives `InvalidGradeCard` with the reading failure; both leave the store as it was. A readable grade card is admitted (`Admit`). |
| Sessions.RecommendFor | app.py:122-164 | `SessionNotFound` exactly when the roll number is absent, empty or not stored. For a stored session, `CatalogUnavailable` exactly when the catalog is missing or lacks a column the request reads. Otherwise the response is the first five candidates for the session's gate, the lower-cased preference and its occupied slots. |
| Sessions.SessionStore.constructor | app.py:11 | The store starts empty. |
| Sessions.SessionStore.Save | app.py:59 | Saving stores the profile under its roll number. The last write wins. |
| Sessions.SessionStore.AttachOccupiedSlots | app.py:112 | Only the session's occupied slots change. |
| Sessions.SessionStore.AdmitProfile | app.py:99-117 | The new store and the response are `Admit` of the old store. |
| Sessions.SessionStore.InitFromGradeCard | app.py:93-119 | The new store and the response are `Init` of the old store. |
| Sessions.SessionStore.RecommendElectives | app.py:121-164 | The response is `RecommendFor` of the store, and the store is unchanged. |
| Sessions.ParsedRollNoNonEmpty | app.py:37 | A grade card that is read has a non-empty roll number. |
| Sessions.AdmitThenRecommend | app.py:112-162 | After admission the session is found. When the slots were attached, no recommendation shares a slot with a mandatory course. |
| Sessions.InitThenRecommend | app.py:99-131 | After an upload whose grade card is read, a request for its roll number finds the session. |
| Sessions.NoSlotsMeansAnySlot | app.py:132-162 | A session without occupied slots keeps electives in every slot. |
| Sessions.RecommendForSound | app.py:131-163 | Every returned row is a catalog row that passes every stage for the stored session. |
| Sessions.AdmitIdempotent | app.py:59-112 | Admitting the same parsed profile twice gives the same store and response as admitting it once. |
| Sessions.InitIdempotent | app.py:93-119 | Uploading the same grade card twice gives the same store and response as uploading it once. |

## Left out

- PDF text extraction is out: the grade card arrives as its extracted text. The Flask routing, the JSON encoding and the HTTP status codes (400 for a missing file or session, 500 otherwise) are left out too. The failures are the `Failure` values.
- Reading and writing CSV files is left out: each source table is a parameter, and `None` stands for a file that could not be read. The progress and error messages printed by both programs are left out.
- `datetime.now()` is out: the reference year and month are parameters.
- Floating point is out: the CGPA keeps its captured text, checked to be a literal that `float()` accepts, at least one digit and at most one dot. Its numeric value is not modelled.
- The regular-expression engine is out. Each pattern is modelled by its meaning: leftmost search, greedy runs, and the lazy title and CGPA gaps bounded by the line. The preference is searched as a literal, case-insensitive substring; a preference holding regex syntax is searched literally here, while pandas would interpret it. A JSON `null` preference is not modelled: an absent preference reads as empty.
- Concurrency on the session store is out. Each endpoint call is one atomic update.
- The `index` route and the HTML page are out.
- The tables' column dtypes are out. Cells are missing, text or integer. The `.str` accessor error on a column with no text is not modelled.
- KnowledgeBase.CreateKnowledgeBase: pandas' `_x`/`_y` suffixing is not modelled. When the semester-wise table already has a `Slot`, `CourseType` or `Prerequisite` column, pandas keeps both copies under suffixed labels (and the catalog then has no plain `Slot`), while the model overwrites the semester-wise cell. A category table with both `Course Category` and `CourseType` is likewise read here as one `CourseType` column.
- Frames.LeftJoin and Frames.RenameRow: a row is a map, so a table cannot hold two columns with one label. The only duplicates that make the code fail, a second `CourseNo` or `Category` column created by a renaming, are recognised before merging (`KnowledgeBase.KeyLabelClash`).
- Text.Lower, Text.IsDigit and the grade-card fields: lower-casing, `case=False` and `\d` are ASCII here, while Python's are Unicode-aware. A non-ASCII capital is not lowered and a non-ASCII decimal digit is not a digit in the model. Whitespace (`\s`, `strip()`) is the full `str.isspace` set.
- GradeCard.IsDecimalLiteral accepts what `float()` accepts among strings of digits and dots. Other forms `float()` accepts (signs, exponents, `inf`) cannot occur in that capture class.

## Behaviour of the code worth knowing

The model follows the code in each of these points.

- The academic year is not clamped: an entry year later than the current one gives a year below 1 (`Calendar.FutureEntryYear`).
- The CGPA is required like the other fields: a grade card without it is rejected (`FieldNotFound("cgpa")`).
- The name pattern's class includes line breaks, so a name can run into the next line (`GradeCard.NameRunsIntoNextLine`).
- The department class has no `&`, so a department read from a grade card is never `AI & DS`. That exemption of the performance gate cannot fire (`GradeCard.DepartmentStopsAtAmpersand`).
- A preference of `any` is searched like any other text. The code skips only the empty preference.
- The prerequisite of a course without a prerequisite row, or with an empty field, is a missing cell. Missing descriptions are filled with the empty text when the service loads the catalog (`Sessions.LoadCatalog`), not when the builder runs.
- A missing catalog or column is the `CatalogUnavailable` failure. In the code it is an exception: caught during upload, uncaught during a recommendation request.
