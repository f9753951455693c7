# cs440 course projects — a verified model of their data logic

This Dafny project models the data-handling core of five pieces of the
cs440 repository and proves properties of that model.

- **In-memory relational algebra** (`final.py`, classes `Relation` and
  `GroupWrap`). A relation is a list or a tuple of column names plus rows.
  `join` builds a list of columns; every other operator builds a tuple or
  passes its operand's kind on. A list never equals a tuple, and adding one
  to the other raises TypeError. The rows are a frozenset for most
  operators, and a tuple after `union` and `sort`. Column names must be
  names `namedtuple` accepts: identifiers that are not keywords and do not
  begin with an underscore.
  Modules `Relations`, `SingleTable` (project, rename, select, query,
  head), `MultiTable` (product, union, join, semijoin, antijoin,
  outerjoin), `RowSorting` (sort) and `Grouping` (groupby, count, sum).
  Iteration over a frozenset is an arbitrary enumeration of its members
  (`Relations.Enumerate`). Every result that depends on that order is
  stated for the enumeration the method visited.
- **Luther database loader** (`luther/DBWriter.java`), module
  `LutherDBWriter`: the department-file block reader, the faculty-line
  normaliser and layout classifier, the course-table cell walk, the
  section and enrollment comma readers, and the values the location and
  course writers bind.
- **TinyCollege document store** (`tinycollege/TinyCollege.java`), module
  `TinyCollege`: a class `CollegeDB` whose five collections are sequences
  of records, the loaders that drop and refill them from CSV rows, and the
  query methods, whose printed documents are returned as sequences.
  The nested-loop filters and de-duplicating scans they use are in
  `NestedScan`.
- **MLB loader** (`mlb/DatabaseWriter.java`), module `MlbDatabaseWriter`:
  the tab-separated address reader, the CSV roster reader and the logo
  file name of each team row.
- **MLB viewer** (`mlb/DatabaseReader.java`), module `MlbDatabaseReader`:
  the "conference | division" label and its parse, which splits on the
  regular expression `" | "` — the alternation of a single space with a
  single space — and so splits at every space.

Shared modules: `Wrappers` (Option, Result, the Java exceptions as
`Thrown`), `JavaText` (Java's `trim`, `split` with trailing empty fields
dropped, `replaceAll` of a literal, `toLowerCase`, `Integer.parseInt`),
`Decimal` (Python's `int()` on a string in base 10, with whitespace at
either end, underscores between digits and the decimal digits of every
script, and `str()` on integers) and `CsvRows` (the
header-skipping positional row mapping both Java loaders share).

Inputs the programs read from files, PDF text, HTML pages, CSV readers or
database result sets are parameters: a sequence of lines, of table-cell
texts, of CSV rows or of result rows. A file that cannot be opened is
`None` where the program catches the `IOException` and goes on with an
empty result. The operator of `select` and the comparison of the joins,
which the program gets by `eval` of a string, are function parameters.

## Model

| member | source | states |
|---|---|---|
| SingleTable.Project | src/main/python/final/final.py:330-357 | the result has exactly the requested columns in the given order and its rows are the input rows restricted to them; a name namedtuple refuses (not an identifier, a keyword, a leading underscore, a repeat) fails with ValueError, and a missing column fails only when there is a row to read it from |
| SingleTable.ProjectOwnColumns | src/main/python/final/final.py:351-357 | projecting on a relation's own columns gives back its rows as a frozenset |
| SingleTable.ProjectSize | src/main/python/final/final.py:351-357 | a projection never has more rows than its input |
| SingleTable.ProjectTwice | src/main/python/final/final.py:351-357 | projecting on c1 and then on a subset c2 is the same as projecting on c2 at once |
| SingleTable.ProjectEmpty | src/main/python/final/final.py:351-357 | projecting an empty relation on any distinct names namedtuple accepts, columns of it or not, succeeds with no rows (namedtuple runs before any row is read) |
| SingleTable.RenamedColumns | src/main/python/final/final.py:385-390 | only the columns named oldName change, in place, to newName |
| SingleTable.RenamedColumnsNoDup | src/main/python/final/final.py:385-390 | for distinct column names, the renamed names are distinct exactly unless the old name is a column and the new name is a different existing column |
| SingleTable.RenamedColumnsFieldNames | src/main/python/final/final.py:385-386 | the renamed columns are names namedtuple accepts exactly unless the old name is a column and the new one is another column or a refused name |
| SingleTable.Rename | src/main/python/final/final.py:360-398 | success keeps every row value and renames the column in place; it fails with ValueError exactly when the old name is a column and the new one is another column or a name namedtuple refuses, and with the attribute error when the old name is missing, the new one is a column and there are rows |
| SingleTable.RenameBack | src/main/python/final/final.py:385-398 | renaming to a fresh name and back restores the relation |
| SingleTable.Select | src/main/python/final/final.py:442-466 | the result holds exactly the rows for which the operator holds once column-name operands are replaced by the row's values, so it is a subset of the input; the columns are the input's, list or tuple as they were |
| SingleTable.Query | src/main/python/final/final.py:290-327 | a query of fewer than three space-separated tokens fails with an index error; otherwise the rows whose first-token column equals the third token's column when that is a column and the third token itself when not, whatever the middle token; a missing first column fails only when there are rows |
| SingleTable.QueryLoop | src/main/python/final/final.py:313-320 | the loop collects exactly the visited rows whose column value equals the operand |
| SingleTable.QueryIsSelectEq | src/main/python/final/final.py:308-327 | a query is a select with equality on the column and the literal |
| SingleTable.HeadCount | src/main/python/final/final.py:805-808 | the number of rows head keeps: min(n, size) for n >= 0, and Python's slice rule for a negative n |
| SingleTable.Head | src/main/python/final/final.py:805-808 | the result is the first HeadCount rows of an enumeration of the input, a subset of it, and all of it when n is at least the size; the columns are the input's, of the same kind |
| MultiTable.Product | src/main/python/final/final.py:553-585 | fails with TypeError exactly when one column list is a list and the other a tuple, and otherwise with ValueError exactly on a repeated column name; the columns are self's followed by other's, of self's kind; every pair of rows gives its concatenation and every result row splits into a self row and an other row |
| MultiTable.ProductSize | src/main/python/final/final.py:573-585 | the product has exactly the product of the two sizes as rows |
| MultiTable.Union | src/main/python/final/final.py:588-626 | fails with ValueError exactly when the column names differ or one side's columns are a list and the other's a tuple; otherwise a tuple of all self rows followed by all other rows, duplicates kept, under a tuple of columns |
| MultiTable.UnionMembers | src/main/python/final/final.py:612-626 | the union's rows are the rows of both inputs, and it is a valid relation |
| MultiTable.ConditionMentions | src/main/python/final/final.py:650-654 | the condition text "row.A op row2.B" contains both column names, so join drops both |
| MultiTable.KeptColumns | src/main/python/final/final.py:650-654 | a column survives the join exactly when its name is not a substring of the condition text |
| MultiTable.Join | src/main/python/final/final.py:629-677 | the nested loops compute exactly the join specification: an index error below three tokens, TypeError when one side's columns are a list and the other's a tuple, ValueError on repeated kept names, the attribute error of a missing compared column when both sides have rows, and otherwise for every pair satisfying the comparison the kept values of both rows, under a list of columns |
| MultiTable.JoinLoop | src/main/python/final/final.py:657-676 | the outer loop over self rows gives the joined rows of all of them |
| MultiTable.JoinColumns | src/main/python/final/final.py:650-654 | the join's columns are a list of those of both inputs whose name does not occur in the condition text, so neither compared column survives |
| MultiTable.JoinValid | src/main/python/final/final.py:650-677 | a successful join is a valid relation whose columns are a list |
| MultiTable.JoinSpecMissing | src/main/python/final/final.py:657-666 | with rows on both sides, a missing left column or right column fails with the attribute error for that name |
| MultiTable.SemiJoin | src/main/python/final/final.py:680-706 | the loops compute exactly the self rows that have at least one matching other row, under self's columns of self's kind; an index error below three tokens and the attribute error of a missing compared column when both sides have rows |
| MultiTable.SemiJoinSubset | src/main/python/final/final.py:699-706 | the semijoin keeps self's columns and its rows are a subset of self's |
| MultiTable.AntiJoin | src/main/python/final/final.py:709-745 | the loops compute exactly the self rows for which no other row has an equal value, ignoring the operator token; a missing left column fails whenever self has rows, a missing right column only when other has rows too |
| MultiTable.AntiJoinSpecAll | src/main/python/final/final.py:729-745 | against an empty relation the antijoin keeps every self row |
| MultiTable.SemiAntiPartition | src/main/python/final/final.py:699-745 | for an equality comparison the semijoin and the antijoin are disjoint and together give all self rows |
| MultiTable.Nulls | src/main/python/final/final.py:795-800 | the padding is one "NULL" per column of other |
| MultiTable.OuterJoin | src/main/python/final/final.py:748-803 | the loops compute exactly one concatenated row per match and one padded row for a self row without a match; TypeError when one side's columns are a list and the other's a tuple, ValueError on a repeated column name, and the attribute error of a missing compared column when both sides have rows |
| MultiTable.OuterJoinNoRight | src/main/python/final/final.py:774-803 | against an empty relation every self row is padded |
| MultiTable.OuterJoinKeepsLeft | src/main/python/final/final.py:774-803 | every result row starts with a self row and ends with an other row or padding, and every self row starts some result row |
| MultiTable.OuterJoinedShape | src/main/python/final/final.py:774-803 | every outer-joined row is a self row followed by an other row or the padding |
| MultiTable.OuterJoinedCovers | src/main/python/final/final.py:774-803 | every self row begins some outer-joined row |
| RowSorting.StrLtTransitive | src/main/python/final/final.py:494-505 | Python's string less-than, which sort compares values with, is transitive |
| RowSorting.StrLtTotal | src/main/python/final/final.py:494-505 | two different strings are always ordered one way or the other |
| RowSorting.SortBySorted | src/main/python/final/final.py:497-503 | a stable sort on key k of rows sorted on the later keys leaves them sorted on k and then the later keys |
| RowSorting.SortByTies | src/main/python/final/final.py:497-503 | the sort is stable: rows that agree on the key keep their order |
| RowSorting.ReverseInPlace | src/main/python/final/final.py:494 | the caller's key list ends up reversed, element by element |
| RowSorting.SortLoop | src/main/python/final/final.py:495-505 | the repeated stable sorts compute exactly the sort specification of the visited rows |
| RowSorting.SortRowsMissing | src/main/python/final/final.py:495-503 | the first reversed key that is not a column fails the sort with its attribute error |
| RowSorting.SortRowsAll | src/main/python/final/final.py:495-505 | when every key is a column, the sort gives the repeated stable sorts as a tuple under the input's columns |
| RowSorting.SortRowsKeeps | src/main/python/final/final.py:469-505 | the sorted tuple is a permutation of the input rows, as many as the input's size, with the same members |
| RowSorting.SortRowsOrdered | src/main/python/final/final.py:469-505 | sorting on the reversed key list (what the caller's list holds after the in-place reverse) gives rows in lexicographic order of the original keys, descending when asked |
| RowSorting.Sort | src/main/python/final/final.py:469-505 | reverses the key array in place and returns the sort of an enumeration of the rows by the reversed keys, as a tuple of rows under the input's columns |
| Grouping.GroupBy | src/main/python/final/final.py:508-550 | the wrapper holds the same rows as a frozenset and the grouping columns |
| Grouping.CountLoop | src/main/python/final/final.py:47-50 | the dictionary's keys are exactly the first grouping column's values and each maps to the number of rows with it |
| Grouping.Count | src/main/python/final/final.py:25-52 | the result is exactly one (key, decimal count) row per distinct key of the first grouping column; no grouping column is an index error, a first column or `count_` name namedtuple refuses is ValueError, and a missing first column fails only when there are rows |
| Grouping.CountIgnoresColumn | src/main/python/final/final.py:44-52 | the counts do not depend on the counted column |
| Grouping.CountsAddUp | src/main/python/final/final.py:44-52 | the group sizes add up to the number of rows |
| Grouping.CountRowOf | src/main/python/final/final.py:44-52 | every input row's key appears with the size of its group |
| Grouping.CountValid | src/main/python/final/final.py:44-52 | a successful count is a valid relation with the columns (first grouping column, `count_` name) |
| Grouping.SumLoop | src/main/python/final/final.py:76-79 | for an integer reader `read` (Sum passes int()), the sums per key are the totals of the column as read, or the ValueError of the first value visited that it refuses |
| Grouping.Sum | src/main/python/final/final.py:54-81 | the result is the sum specification of the enumeration the loop visited: with int() as Python reads a string, one (key, decimal total) row per key, the ValueError of the first value int() refuses, and ValueError for a `sum_` name namedtuple refuses |
| Grouping.SumOfOnesIsCount | src/main/python/final/final.py:54-81 | summing a column of ones gives the same rows as counting |
| LutherDBWriter.ReadDepartmentFile | src/main/java/luther/DBWriter.java:198-244 | the loop over the lines computes exactly the department-block specification after the two header lines |
| LutherDBWriter.FillHead | src/main/java/luther/DBWriter.java:223-226 | the head slot keeps the text before the first comma, and a head line of commas only throws |
| LutherDBWriter.OnlyHeadThrows | src/main/java/luther/DBWriter.java:219-235 | only filling the head slot can throw |
| LutherDBWriter.DepartmentsNamed | src/main/java/luther/DBWriter.java:212-241 | every record emitted has a trimmed name, and the slots are filled in order, so an unset slot is followed only by unset ones |
| LutherDBWriter.BlankLinesIgnored | src/main/java/luther/DBWriter.java:212-217 | blank lines before a block emit nothing |
| LutherDBWriter.OneDepartment | src/main/java/luther/DBWriter.java:212-235 | five trimmed lines and a blank give one record of them, followed by what the rest gives |
| LutherDBWriter.LocationRows | src/main/java/luther/DBWriter.java:280-300 | rooms 1, 2 and 3 of every building, building by building |
| LutherDBWriter.ReadFacultyPDF | src/main/java/luther/DBWriter.java:328-375 | the list is the faculty members of the lines that read as one, in line order |
| LutherDBWriter.FacultyFromLines | src/main/java/luther/DBWriter.java:338-374 | at most one member per line, and a member is in the list exactly when some line reads as it |
| LutherDBWriter.FacultyFromAppend | src/main/java/luther/DBWriter.java:338-374 | the lines are read independently of each other |
| LutherDBWriter.LayoutIff | src/main/java/luther/DBWriter.java:353-372 | a line gives a member exactly when it has 6 or 7 tokens and does not start with "Fall", "new" or "parttime" |
| LutherDBWriter.LayoutLastTwo | src/main/java/luther/DBWriter.java:353-372 | in every layout the extension and user name are the last two tokens |
| LutherDBWriter.TokensShape | src/main/java/luther/DBWriter.java:339-352 | after the character filter and the split no token holds a space or a character outside [a-zA-Z0-9 ], and the last is non-empty |
| LutherDBWriter.ReadCourseHTML | src/main/java/luther/DBWriter.java:395-449 | the cell walk computes exactly the course list specification of the flattened cells |
| LutherDBWriter.ReadCell | src/main/java/luther/DBWriter.java:414-445 | one cell: at count 20 the course is emitted and the count restarts at 5, otherwise the count goes up by one and the slots hold the cells read so far |
| LutherDBWriter.CoursesOfAt | src/main/java/luther/DBWriter.java:410-446 | the k-th course comes from cells 6+16k to 20+16k, and a trailing partial course is never emitted |
| LutherDBWriter.WriteCourseTable | src/main/java/luther/DBWriter.java:451-471 | one row of bound values per course, in the getter order of the insert |
| LutherDBWriter.CourseColumnsFromCells | src/main/java/luther/DBWriter.java:436-465 | the constructor's argument shuffle and the writer's getter shuffle cancel: every column gets the page's own cell for it |
| LutherDBWriter.ReadSectionFromTxt | src/main/java/luther/DBWriter.java:473-488 | one section per line from its first three comma fields, in order; a line with fewer than three fields throws the uncaught index exception; an unopenable file gives an empty list |
| LutherDBWriter.ReadEnrollmentFromTxt | src/main/java/luther/DBWriter.java:514-529 | the same for enrollments |
| LutherDBWriter.FieldsOfTwoCommas | src/main/java/luther/DBWriter.java:479-481 | a line of three comma-free fields splits back into them |
| LutherDBWriter.EmptyThirdField | src/main/java/luther/DBWriter.java:479-481 | such a line has three fields exactly when the third is non-empty, since split drops trailing empty fields |
| CsvRows.LoadRows | src/main/java/tinycollege/TinyCollege.java:30-36 | after the header, one record per row in order from its columns, or the index exception of a short row |
| CsvRows.Reload | src/main/java/tinycollege/TinyCollege.java:18-55 | an unreadable file gives nothing, and an exception leaves the list empty |
| TinyCollege.CollegeDB.InitializeCourses | src/main/java/tinycollege/TinyCollege.java:18-55 | the collection is dropped and then holds exactly the records of the rows after the header; the other collections are unchanged |
| TinyCollege.CollegeDB.InitializeDepartments | src/main/java/tinycollege/TinyCollege.java:57-93 | the same for departments |
| TinyCollege.CollegeDB.InitializeEnrollments | src/main/java/tinycollege/TinyCollege.java:95-133 | the same for enrollments |
| TinyCollege.CollegeDB.InitializeSections | src/main/java/tinycollege/TinyCollege.java:135-173 | the same for sections |
| TinyCollege.CollegeDB.InitializeStudents | src/main/java/tinycollege/TinyCollege.java:175-213 | the same for students |
| TinyCollege.LoadedCourses | src/main/java/tinycollege/TinyCollege.java:30-36 | a course takes CId, Title and DeptId from columns 0, 1 and 2 of each row after the header |
| TinyCollege.LoadedStudents | src/main/java/tinycollege/TinyCollege.java:188-190 | a student takes its four fields from columns 0 to 3 |
| TinyCollege.CollegeDB.QueryStudentMajors | src/main/java/tinycollege/TinyCollege.java:227-238 | for the Students table, the students whose MajorId equals the argument, in collection order; another non-empty table throws NullPointerException on its first document, which has no MajorId, and an unknown table prints nothing |
| TinyCollege.StudentMajorsCounts | src/main/java/tinycollege/TinyCollege.java:231-235 | each matching student is printed as often as it is stored and no other is printed |
| TinyCollege.CollegeDB.QueryCourseTitle | src/main/java/tinycollege/TinyCollege.java:241-252 | the courses whose Title equals the argument, in collection order |
| TinyCollege.CourseTitleCounts | src/main/java/tinycollege/TinyCollege.java:245-249 | exactly the matching courses, each as often as stored |
| TinyCollege.CollegeDB.QueryEnrollmentGrade | src/main/java/tinycollege/TinyCollege.java:255-266 | the enrollments whose Grade equals the argument, in collection order |
| TinyCollege.EnrollmentGradeCounts | src/main/java/tinycollege/TinyCollege.java:259-263 | exactly the matching enrollments, each as often as stored |
| TinyCollege.CollegeDB.QueryStudentGradYear | src/main/java/tinycollege/TinyCollege.java:269-283 | the students before the first GradYear that parseInt refuses whose year is below the argument; that year ends the query with NumberFormatException |
| TinyCollege.GradYearMembers | src/main/java/tinycollege/TinyCollege.java:273-279 | a student is printed exactly when its parsed GradYear is strictly less than the argument |
| TinyCollege.CollegeDB.QueryEnrollmentGradeForStudent | src/main/java/tinycollege/TinyCollege.java:286-300 | for each enrollment with the grade, every student with its StudentId |
| TinyCollege.GradeForStudentCounts | src/main/java/tinycollege/TinyCollege.java:291-297 | a student is printed once per enrollment of theirs with the grade |
| TinyCollege.CollegeDB.QueryCoursesNotTaught | src/main/java/tinycollege/TinyCollege.java:303-320 | the courses the de-duplicating scan picks, in the order they are first found |
| TinyCollege.CoursesTaught | src/main/java/tinycollege/TinyCollege.java:305-316 | each course at most once, and exactly the courses some section teaches, despite the method's name |
| TinyCollege.CollegeDB.QueryStudentsBySection | src/main/java/tinycollege/TinyCollege.java:323-348 | the students of each collected enrollment of the section |
| TinyCollege.SectionEnrollments | src/main/java/tinycollege/TinyCollege.java:325-345 | the enrollments collected are those of the section, and none unless some section document has that SectId |
| TinyCollege.CollegeDB.QueryProfsByDepartment | src/main/java/tinycollege/TinyCollege.java:351-368 | one printed line per course the de-duplicating scan picks |
| TinyCollege.ProfsByDepartment | src/main/java/tinycollege/TinyCollege.java:353-364 | one line per taught course of the department, naming the professor of its first section |
| TinyCollege.CollegeDB.QueryStudentsByProfessor | src/main/java/tinycollege/TinyCollege.java:371-396 | the names of the students of each enrollment in a section of the professor |
| TinyCollege.ProfessorEnrollments | src/main/java/tinycollege/TinyCollege.java:371-396 | each enrollment is collected at most once, exactly when some section of the professor has its SectionId |
| NestedScan.FilterCounts | src/main/java/tinycollege/TinyCollege.java:231-235 | the filter keeps exactly the elements that satisfy it, each as often as it occurs |
| NestedScan.NestedFilterCounts | src/main/java/tinycollege/TinyCollege.java:291-297 | the nested filter prints each inner element once per outer element it matches |
| NestedScan.CollectSeparable | src/main/java/tinycollege/TinyCollege.java:325-345 | when the pairing condition splits into a test on each side, the scan collects every matching inner element if any outer element passes and nothing otherwise |
| NestedScan.SelectPositions | src/main/java/tinycollege/TinyCollege.java:325-345 | the elements at the collected positions are the filter of the inner collection |
| MlbDatabaseWriter.ReadAddressFromTxt | src/main/java/mlb/DatabaseWriter.java:68-84 | one address per line, in file order, or the uncaught index exception of a short line; an unopenable file gives an empty book |
| MlbDatabaseWriter.AddressesInOrder | src/main/java/mlb/DatabaseWriter.java:74-78 | the book succeeds exactly when every line has eight tab fields, and then holds one address per line |
| MlbDatabaseWriter.AddressOfJoin | src/main/java/mlb/DatabaseWriter.java:75-76 | fields 0 to 7 go into the constructor in order and later fields are ignored |
| MlbDatabaseWriter.EmptyEighthField | src/main/java/mlb/DatabaseWriter.java:75-79 | a line whose eighth and later fields are empty throws, since split drops trailing empty fields |
| MlbDatabaseWriter.ReadPlayerFromCsv | src/main/java/mlb/DatabaseWriter.java:86-112 | one player per row after the header, in order, or the index exception of a short row |
| MlbDatabaseWriter.RosterColumns | src/main/java/mlb/DatabaseWriter.java:93-100 | a player is built from columns 0, 1, 4 and 2 as id, name, team and position, column 3 is unused, and an empty or header-only file gives no players |
| MlbDatabaseWriter.LogoFileName | src/main/java/mlb/DatabaseWriter.java:198 | the name is the prefix "./images/mlb/logo_", the lower-cased abbreviation and ".jpg" |
| MlbDatabaseWriter.LogoFileNameIff | src/main/java/mlb/DatabaseWriter.java:198 | two abbreviations share a logo file exactly when they agree once lower-cased |
| MlbDatabaseWriter.TeamBindings | src/main/java/mlb/DatabaseWriter.java:190-212 | one binding per team in league order, with its logo file name |
| MlbDatabaseReader.ParseConfDiv | src/main/java/mlb/DatabaseReader.java:81-82 | tokens 0 and 2 of the split at every space, or the index exception for fewer than three tokens |
| MlbDatabaseReader.LabelRoundTrip | src/main/java/mlb/DatabaseReader.java:62-82 | the label of a space-free conference and a non-empty space-free division parses back to the pair |
| MlbDatabaseReader.EmptyDivisionThrows | src/main/java/mlb/DatabaseReader.java:62-82 | the label of an empty division does not parse: the trailing empty token is dropped |
| MlbDatabaseReader.SpacedConferenceMisread | src/main/java/mlb/DatabaseReader.java:62-82 | a two-word conference parses as its first word with "|" as the division |
| MlbDatabaseReader.LabelsRoundTrip | src/main/java/mlb/DatabaseReader.java:61-82 | every label getDivisions adds parses back to its row |
| MlbDatabaseReader.DatabaseReader.GetDivisions | src/main/java/mlb/DatabaseReader.java:50-70 | appends one label per result row to the caller's list, keeping what it held, and closes the connection it opened |
| MlbDatabaseReader.DatabaseReader.GetTeams | src/main/java/mlb/DatabaseReader.java:78-100 | a label of fewer than three tokens throws before any connection is opened and changes nothing; otherwise queries the parsed pair and appends one name per result row |
| MlbDatabaseReader.DatabaseReader.Connect | src/main/java/mlb/DatabaseReader.java:26-32 | opens a connection |
| MlbDatabaseReader.DatabaseReader.Disconnect | src/main/java/mlb/DatabaseReader.java:37-43 | closes the connection of a reader that has connected; on a reader that never connected, throws NullPointerException (the field is still null and only SQLException is caught) and changes nothing |
| JavaText.Trim | src/main/java/luther/DBWriter.java:212 | the trimmed text is empty exactly for a blank line, and otherwise starts and ends with a non-blank character |
| JavaText.FieldsOfJoin | src/main/java/mlb/DatabaseWriter.java:75 | splitting the join of delimiter-free parts gives the parts back |
| JavaText.SplitEmptyIff | src/main/java/luther/DBWriter.java:224-225 | Java's split gives no fields exactly for a non-empty text made only of delimiters |
| JavaText.ToLowerIdempotent | src/main/java/mlb/DatabaseWriter.java:198 | lower-casing twice is lower-casing once |
| JavaText.ParseInt | src/main/java/tinycollege/TinyCollege.java:276 | succeeds exactly on an optional sign and decimal digits of any script in the Basic Multilingual Plane denoting a 32-bit value, and then gives that value |
| JavaText.ParseIntRoundTrip | src/main/java/tinycollege/TinyCollege.java:276 | parseInt reads back the decimal text of every 32-bit integer |
| Decimal.IntTextRoundTrip | src/main/python/final/final.py:51 | the decimal text str() writes for an integer reads back as that integer, as a sign and digits |
| Decimal.SignedDecimal | src/main/python/final/final.py:78 | succeeds exactly on an optional sign followed by one or more decimal digits of any script |
| Decimal.TrimStart | src/main/python/final/final.py:78 | removes exactly the leading whitespace str.isspace() holds for |
| Decimal.TrimEnd | src/main/python/final/final.py:78 | removes exactly the trailing whitespace str.isspace() holds for |
| Decimal.PyIntPlain | src/main/python/final/final.py:78 | on a string without underscores or whitespace, int() reads exactly an optional sign and decimal digits |
| Decimal.PyIntSpaces | src/main/python/final/final.py:78 | whitespace at either end does not change what int() reads |
| Decimal.PyIntRoundTrip | src/main/python/final/final.py:78-80 | int() reads back every integer str() writes, so a count or sum printed by the grouping operators parses as itself |

## Left out

- JDBC and SQLite work is not modelled: table creation, inserts, commits, the reference lookups and the `findSeniors` view. `LocationRows`, `WriteCourseTable` and `TeamBindings` model only the values bound to each statement.
- `writeStudentTable` is not modelled, because its data comes from a random-name generator.
- PDF text extraction, HTML fetching and selection, CSV tokenising, JSON reading (`readTeamFromJson`) and the document store's open, drop, insert and find are not modelled. Their outputs are parameters.
- The document store's `find()` is taken to return documents in insertion order.
- `readLogoFile` is not modelled: it only copies bytes from a file.
- `queryCollection` is not modelled: it prints documents through `toString`.
- Printing in Python is not modelled: the `print` methods and the stray print in `antijoin`.
- `eval` in Python is not modelled: the `select` operator and the join comparison are function parameters.
- `create_relation` (CSV loading) and `extend` are not modelled.
- `mean`, `median`, `max` and `min` are not modelled, because they use floating point.
- `ToLower` maps only the ASCII letters. Java's `toLowerCase` also lower-cases other scripts, which this model does not. The model also assumes a default locale that is not Turkic: Java's no-argument `toLowerCase` follows the default locale, and in a Turkish or Azeri one it maps "I" to the dotless "ı".
- The SQLException path of `connect` is not modelled, since the driver is not part of this model.
- `getTeams` takes its SQL result rows as a parameter. The query text it would send is returned.
- Address.java, Player.java and Team.java are not part of this model. Their records take the field order their constructor calls use.
- TinyCollege.CollegeDB.QueryStudentGradYear requires its argument to be a 32-bit value, as Java's `int` parameter is.
- A table name other than the five known ones gives an empty collection in `QueryStudentMajors`, as opening such a collection does.
- A namedtuple row also has the attributes of a tuple (`count`, `index`, `_fields`, the dunder names), which getattr, attrgetter and eval reach for a name that is not a column. The model treats every name that is not a column as missing, so the operators below report an attribute error where Python reads that attribute.
- SingleTable.Project: a requested name `count` or `index` on a relation with rows fails in the model; Python fills the field with the row's bound method.
- SingleTable.Rename: an old name that is a tuple attribute fails in the model when the new name is a column; Python reads the bound method.
- SingleTable.Head: the default `n = 10` of `head` is not modelled, so the caller always passes `n`. The only call in the repository passes 5.
- SingleTable.Query: a first token that is a tuple attribute fails in the model; Python compares that attribute's value with the operand.
- MultiTable.Join: a compared name that is a tuple attribute fails in the model; Python's eval compares the attribute's value.
- MultiTable.SemiJoin: the same as Join.
- MultiTable.AntiJoin: the same as Join, for the left and the right name.
- MultiTable.OuterJoin: the same as Join.
- RowSorting.Sort: the aliased call that passes the relation's own column list as the keys (`j.sort(j.cols, …)` on a join result, whose columns are a list) is not modelled. The model takes the relation as a value and the keys as a separate array. In Python, `cols.reverse()` then also reverses `self.cols`, so the input relation is changed, the result's columns are the reversed list, and each result row holds its values in reversed order under the namedtuple field names of the original order. No caller in the repository makes this call.
- RowSorting.Sort: a key that is a tuple attribute fails in the model; Python sorts by the bound methods, which raises TypeError once two rows are compared.
- Grouping.Count: a first grouping column that is a tuple attribute fails in the model; Python groups by the bound methods.
- Grouping.Sum: a grouping column or summed column that is a tuple attribute fails with an attribute error in the model; Python groups by the bound methods, or raises TypeError from int() of one.
- SingleTable.Project: every character outside ASCII is taken as an identifier character. Python's namedtuple applies Unicode's XID_Start and XID_Continue classes after normalising the name. The same holds for every operator that builds a namedtuple.
- SingleTable.Rename: a non-ASCII new name is taken as valid, as in Project.
- Grouping.Count: a non-ASCII `count_` name is taken as valid, as in Project.
- Grouping.Sum: a non-ASCII `sum_` name is taken as valid, as in Project.
- Decimal.PyInt: the digit and whitespace tables are those of Unicode 15.0, and each Python release uses its own Unicode version. The limit of recent CPython releases on the length of a decimal string (4300 digits by default) is not modelled, in int() or in str().
- JavaText.ParseInt: the digit table is that of Unicode 15.0, which the Java runtime may not match.
