# Student queries and fetch loops, modelled in Dafny

This project models two parts of a C# exercise repository.

**The student query library (`StudentAnalyzer`).**
- A `Student` is an immutable record: id, first name, last name, age, group and grades. `ToString` renders it on one line.
- `StudentFilters` answers queries over a sequence of students with LINQ. It filters, projects, sorts stably, groups by group name, flattens grades, pages and looks up by id.
- `StudentRepository` builds a fixed roster of fifteen students. Their grades are drawn from one `Random` seeded with 42.

**The asynchronous download demo (`AsyncDemo`, `ConsoleAppAsync`).**
- `GitHubService.DownloadWebPageAsync` fetches a page. It turns every failure into an `HttpRequestException` that names the URL, except that it rethrows a plain `OperationCanceledException`.
- The console program downloads URLs one after the other and prints a speed-up figure (Task3).
- It runs a loop that can be cancelled and skips rate-limit errors (Task4).
- It races three APIs and keeps the first that answers successfully (Task5).

Modules, in dependency order:
- `Wrappers`: `Option` and `Result`.
- `Text`: int-to-string rendering, `string.Join(", ", …)` of integers, substring search and ASCII ignore-case comparison. Each renderer comes with a parser and a round-trip lemma.
- `Linq`: the query operators, each with its contract.
  - `Where`, `Select`, `SelectMany`.
  - A stable `OrderBy` over a total preorder.
  - `GroupBy`, built the way a lookup is built.
  - `Skip`, `Take`, `Single`, `FirstOrDefault`.
- `Students`, `StudentFilters`, `StudentRepository`: the student library.
- `GitHubService` and `ConsoleAppAsync`: the download demo.

How the model stands in for things it cannot run:
- The HTTP exchange is an input: what the client and the server did for one request.
- The cancellation timer is the index of the first token check that finds the token cancelled.
- `Task.WhenAny` is a nondeterministic choice among the pending tasks.
- `Random.Next(lo, hi)` is a method of a `Random` class. It returns some value in `[lo, hi)` and counts its draws.

## Model

| member | source | states |
|---|---|---|
| Text.NatToStringRoundTrip | StudentAnalyzer/Student.cs:20 | the decimal digits of a natural number read back to the same number |
| Text.IntToString | StudentAnalyzer/Student.cs:19-20 | an int renders as a non-empty run of digits and '-', with no ',' to clash with the grade separator |
| Text.IntToStringRoundTrip | StudentAnalyzer/Student.cs:20 | an int rendered as an optional '-' and digits parses back to the same int |
| Text.JoinInts | StudentAnalyzer/Student.cs:19 | the joined grade text is empty exactly when there are no grades, and holds only digits, '-', ',' and ' ' |
| Text.JoinIntsRoundTrip | StudentAnalyzer/Student.cs:19 | splitting the ", "-joined grades gives back the same list: nothing lost, nothing reordered |
| Text.FoldCase | StudentAnalyzer/StudentFilters.cs:11 | the folded character is never an ASCII lower-case letter, and is an upper-case letter exactly when the input is an ASCII letter of either case |
| Text.FoldCaseMatches | StudentAnalyzer/StudentFilters.cs:11 | two characters compare equal ignoring case exactly when they are equal or are one ASCII letter in its two cases |
| Text.EqualsIgnoreCaseIsEquivalence | StudentAnalyzer/StudentFilters.cs:11 | comparing group names ignoring case is reflexive, symmetric and transitive |
| Text.ContainsMiddle | ConsoleAppAsync/Program.cs:163-164 | a string contains, ordinally and ignoring case, any piece it was built around |
| Linq.WhereMembers | StudentAnalyzer/StudentFilters.cs:5 | an element is in the result exactly when it is in the input and satisfies the predicate |
| Linq.WhereMultiset | StudentAnalyzer/StudentFilters.cs:5 | every occurrence of a matching element is kept and no other element is |
| Linq.WhereIsSubsequence | StudentAnalyzer/StudentFilters.cs:5 | the kept elements stay in input order |
| Linq.Select | StudentAnalyzer/StudentFilters.cs:16-17 | same length as the input; element i is computed from input element i alone |
| Linq.AverageAbove | StudentAnalyzer/StudentFilters.cs:8 | an average exceeds a threshold exactly when the sum exceeds threshold times count |
| Linq.AverageAboveWhole | StudentAnalyzer/StudentFilters.cs:8 | for a whole-number threshold the same comparison holds in integers |
| Linq.SelectMany | StudentAnalyzer/StudentFilters.cs:47 | the length is the sum of the part lengths, and every element comes from some input element's part |
| Linq.SelectManyIsFlattenSelect | StudentAnalyzer/StudentFilters.cs:47 | the result is the concatenation of f(x) over the input, in input order |
| Linq.SelectManyConcat | StudentAnalyzer/StudentFilters.cs:47 | flattening splits where the input splits |
| Linq.InsertSorted | StudentAnalyzer/StudentFilters.cs:32 | inserting before the first element the new one does not follow keeps a sorted sequence sorted |
| Linq.InsertStable | StudentAnalyzer/StudentFilters.cs:32 | insertion puts the new element ahead of every element that compares equal to it |
| Linq.OrderBy | StudentAnalyzer/StudentFilters.cs:32 | the result is a permutation of the input, sorted by the comparer, and elements that compare equal keep their input order |
| Linq.GroupByIsGrouping | StudentAnalyzer/StudentFilters.cs:40-41 | groups have distinct keys, hold exactly the elements with their key in input order, are never empty, cover every element and come in order of first appearance |
| Linq.GroupByPartition | StudentAnalyzer/StudentFilters.cs:40-41 | the groups together hold every element exactly once |
| Linq.AddToLookupStep | StudentAnalyzer/StudentFilters.cs:40-41 | adding one element to a lookup keeps it a grouping of the extended input |
| Linq.Take | StudentAnalyzer/StudentFilters.cs:53 | a prefix of length min(n, count), empty for n <= 0 |
| Linq.Skip | StudentAnalyzer/StudentFilters.cs:53 | the suffix after the first n elements; a count of zero or less skips nothing |
| Linq.FirstOrDefault | StudentAnalyzer/StudentFilters.cs:58-59 | None exactly when nothing matches; otherwise the match with no match before it |
| Linq.Single | StudentAnalyzer/StudentFilters.cs:55-56 | success exactly when one element matches, with that element; distinct errors for none and for several |
| Linq.SingleAgreesWithFirst | StudentAnalyzer/StudentFilters.cs:55-59 | when Single succeeds, FirstOrDefault finds the same student; both report a missing id together |
| Students.ToString | StudentAnalyzer/Student.cs:17-21 | the text starts with "Id: " and ends with ']'; with no grades it ends with ", Grades: []" |
| Students.ToStringShowsId | StudentAnalyzer/Student.cs:20 | the id can be read back from the front of the rendering, whatever the names hold |
| Students.ToStringShowsGrades | StudentAnalyzer/Student.cs:19-20 | the grades can be read back, in order, from between the last '[' and the final ']' |
| StudentFilters.OlderThan | StudentAnalyzer/StudentFilters.cs:5 | exactly the students with Age > age, each occurrence kept, in input order |
| StudentFilters.TopStudents | StudentAnalyzer/StudentFilters.cs:7-8 | exactly the students with grades whose average exceeds minAverage, each occurrence kept, in input order; none without grades |
| StudentFilters.TopStudentsByIntegerThreshold | StudentAnalyzer/StudentFilters.cs:7-8 | for a whole threshold m a student is kept exactly when it has grades and sum > m * count |
| StudentFilters.FromGroup | StudentAnalyzer/StudentFilters.cs:10-11 | exactly the students whose group equals the name ignoring case, each occurrence kept, in order |
| StudentFilters.FailingGrades | StudentAnalyzer/StudentFilters.cs:13-14 | a student is kept exactly when some grade is below 60, each occurrence kept, in input order; students without grades never are |
| StudentFilters.FullNames | StudentAnalyzer/StudentFilters.cs:16-17 | one name per student, in order, built from that student's first and last names |
| StudentFilters.AverageOrZero | StudentAnalyzer/StudentFilters.cs:25 | the average times the count is the sum; 0.0 when there are no grades |
| StudentFilters.Summaries | StudentAnalyzer/StudentFilters.cs:19-28 | one summary per student, in order, with its id, full name, grade count, and an average whose product with the count is the grade sum |
| StudentFilters.Ages | StudentAnalyzer/StudentFilters.cs:30 | one age per student, in order |
| StudentFilters.ByAge | StudentAnalyzer/StudentFilters.cs:32 | a permutation of the input with ages non-decreasing |
| StudentFilters.ByAgeStable | StudentAnalyzer/StudentFilters.cs:32 | students of one age keep their input order |
| StudentFilters.ByAverage | StudentAnalyzer/StudentFilters.cs:34-35 | a permutation of the input with averages non-increasing, no grades counting as 0.0 |
| StudentFilters.ByAverageStable | StudentAnalyzer/StudentFilters.cs:34-35 | students with one average keep their input order |
| StudentFilters.GroupThenNameIsPreorder | StudentAnalyzer/StudentFilters.cs:37-38 | ordering by group then by last name is a total preorder whenever the string comparer is one |
| StudentFilters.ByGroupThenName | StudentAnalyzer/StudentFilters.cs:37-38 | a permutation sorted by group, by last name among equal groups, ties kept in input order |
| StudentFilters.GroupStudentsByGroup | StudentAnalyzer/StudentFilters.cs:40-41 | the groups form a grouping of the students by group name, and together hold every student exactly once |
| StudentFilters.AllGrades | StudentAnalyzer/StudentFilters.cs:47 | every grade in the result belongs to some student of the input |
| StudentFilters.AllGradesShape | StudentAnalyzer/StudentFilters.cs:47 | the length is the total number of grades; the first student's grades come first, then the rest |
| StudentFilters.AllGradesMembers | StudentAnalyzer/StudentFilters.cs:47 | a grade occurs exactly when some student has it |
| StudentFilters.PairsOf | StudentAnalyzer/StudentFilters.cs:50 | one pair per grade of the student, in order, each carrying the student's id |
| StudentFilters.GradePairs | StudentAnalyzer/StudentFilters.cs:49-50 | the first student's pairs come first, then the pairs of the rest; no students give no pairs; every pair carries the id of a student who has that grade |
| StudentFilters.GradePairsProjectToAllGrades | StudentAnalyzer/StudentFilters.cs:47-50 | dropping the ids from the pairs gives exactly the list of all grades |
| StudentFilters.Wrap32 | StudentAnalyzer/StudentFilters.cs:53 | the 32-bit result is congruent to the true value mod 2^32 and equals it when it fits |
| StudentFilters.PageAsWritten | StudentAnalyzer/StudentFilters.cs:52-53 | the slice of at most pageSize students that starts at the offset (pageNumber - 1) * pageSize computed in wrapping 32-bit arithmetic, clamped to the input |
| StudentFilters.Page | StudentAnalyzer/StudentFilters.cs:52-53 | the slice that starts at the clamped offset (pageNumber - 1) * pageSize and holds at most pageSize students |
| StudentFilters.SliceAt | StudentAnalyzer/StudentFilters.cs:53 | Skip then Take is the slice between the clamped offsets; a negative offset skips nothing |
| StudentFilters.PagesAdjacent | StudentAnalyzer/StudentFilters.cs:52-53 | consecutive pages sit side by side: no student is on both, none between them is missed |
| StudentFilters.PageAsWrittenAgrees | StudentAnalyzer/StudentFilters.cs:52-53 | when the offset fits in 32 bits the compiled page is the intended one |
| StudentFilters.PageOffsetOverflows | StudentAnalyzer/StudentFilters.cs:53 | page 1073741825 of size 4 returns the first four students where the intended page is empty |
| StudentFilters.FindById | StudentAnalyzer/StudentFilters.cs:55-56 | success exactly when one student has the id, and then it is that student; no match is its own error |
| StudentFilters.TryFind | StudentAnalyzer/StudentFilters.cs:58-59 | None exactly when no student has the id; otherwise the first that does |
| StudentFilters.FindByDistinctId | StudentAnalyzer/StudentFilters.cs:55-59 | with distinct ids both lookups find the student with that id |
| StudentRepository.Random.constructor | StudentAnalyzer/StudentRepository.cs:7 | a generator made from a seed keeps that seed and has taken no draws |
| StudentRepository.Random.Next | StudentAnalyzer/StudentRepository.cs:31 | a value in [lo, hi), or lo when the bounds are equal; one more draw taken |
| StudentRepository.GenerateGrades | StudentAnalyzer/StudentRepository.cs:29-35 | five to eight grades, each in [min, max]; the generator advances once per draw |
| StudentRepository.RosterShape | StudentAnalyzer/StudentRepository.cs:11-25 | fifteen roster lines with ids 1 to 15, groups among the three known, and non-empty grade ranges |
| StudentRepository.GetTestStudents | StudentAnalyzer/StudentRepository.cs:5-27 | fifteen students with ids 1 to 15 in order, each matching its roster line, in a known group, with five to eight grades in its range |
| StudentRepository.TestRosterLookup | StudentAnalyzer/StudentRepository.cs:11-25 | in the roster every id from 1 to 15 is found by both lookups; any other id by neither |
| GitHubService.StatusError | AsyncDemo/GitHubService.cs:10 | a failure status raises an HttpRequestException that carries the status code |
| GitHubService.Attempt | AsyncDemo/GitHubService.cs:9-11 | a body only for a success status whose content was read; a failure status gives the status error |
| GitHubService.Translate | AsyncDemo/GitHubService.cs:13-27 | clause by clause: what escapes is never a TaskCanceledException. It is an HttpRequestException naming the URL and holding the original, or the OperationCanceledException itself. A 403 message says "rate limit"; other errors keep their message |
| GitHubService.DownloadWebPage | AsyncDemo/GitHubService.cs:5-29 | returns the body exactly when the status check passed and the content was read; otherwise an HttpRequestException or OperationCanceledException |
| GitHubService.ForbiddenIsRateLimit | AsyncDemo/GitHubService.cs:17-19 | a 403 response surfaces as an HttpRequestException saying "rate limit", with the status error inside |
| GitHubService.CancelledRequestIsHttpError | AsyncDemo/GitHubService.cs:13-15 | a cancelled or timed-out request surfaces as an HttpRequestException, not a cancellation |
| ConsoleAppAsync.CancellationTokenSource.constructor | ConsoleAppAsync/Program.cs:202 | a new source starts out not cancelled |
| ConsoleAppAsync.CancellationTokenSource.Cancel | ConsoleAppAsync/Program.cs:239 | after Cancel the source is cancelled |
| ConsoleAppAsync.SequentialDownload | ConsoleAppAsync/Program.cs:95-108 | the URLs are requested in order until the first failure, whose exception reaches the handler; all are requested when none fails |
| ConsoleAppAsync.SpeedUp | ConsoleAppAsync/Program.cs:125 | the quotient of sequential by max(1, parallel) milliseconds, never dividing by zero |
| ConsoleAppAsync.IsSkippable | ConsoleAppAsync/Program.cs:162-164 | only an HttpRequestException is skipped, never a cancellation; one whose message contains "403" or "rate limit" always is |
| ConsoleAppAsync.StepOf | ConsoleAppAsync/Program.cs:157-167 | the loop goes on exactly after a success or a skippable error; it leaves by the cancellation handler exactly on an OperationCanceledException |
| ConsoleAppAsync.Cancellable | ConsoleAppAsync/Program.cs:150-184 | never more steps than URLs; the run reaches the end of the loop only when every URL was requested before the token was seen cancelled |
| ConsoleAppAsync.CancellableDownload | ConsoleAppAsync/Program.cs:148-184 | the loop produces exactly the run Cancellable describes |
| ConsoleAppAsync.CancellableInOrder | ConsoleAppAsync/Program.cs:152-159 | URLs are requested in input order, none once the token is seen cancelled |
| ConsoleAppAsync.CancellationReachesHandler | ConsoleAppAsync/Program.cs:155 | when the check sees the token cancelled, no further URL is requested and the run ends in the cancellation handler |
| ConsoleAppAsync.ErrorIsLastStep | ConsoleAppAsync/Program.cs:152-184 | only the last requested URL can have failed; a general error ends the run there |
| ConsoleAppAsync.ForbiddenIsSkipped | ConsoleAppAsync/Program.cs:162-167 | a 403 response is skipped and the loop goes on |
| ConsoleAppAsync.CancelledRequestAvoidsCancelHandler | ConsoleAppAsync/Program.cs:174-184 | a request cancelled inside the client never reaches the cancellation handler: it is skipped or ends in the general handler |
| ConsoleAppAsync.RaceTask | ConsoleAppAsync/Program.cs:207-222 | success exactly when the download returned, and then it carries the API's name; otherwise (null, false), with no exception escaping |
| ConsoleAppAsync.RemoveAt | ConsoleAppAsync/Program.cs:245 | removing the completed task leaves the other pending tasks, one fewer |
| ConsoleAppAsync.TaskRace | ConsoleAppAsync/Program.cs:226-248 | each task is taken at most once. There is a winner exactly when some API succeeds: it is the last task taken, every earlier one failed, and cancellation is requested. Otherwise every task was taken and none won |

## Left out

- Real HTTP, `HttpClient`, headers and response reading: each request's outcome is an input.
- Task scheduling, `Task.Yield`, `Stopwatch` timings and the `CancellationTokenSource(1000)` timer. Timing becomes the `cancelAt` index and nondeterministic choice.
- The cancellation index and a request cancelled mid-flight are independent inputs. The model does not tie them together.
- The parallel `Task.WhenAll` variant of Task3 (ConsoleAppAsync/Program.cs:114-131), Task1 and Task2: they only show how tasks are awaited. Of the parallel variant, only the speed-up division (ConsoleAppAsync/Program.cs:125) is modelled.
- StudentFilters.GetAverageGradeByGroup (StudentAnalyzer/StudentFilters.cs:43-45): it averages double-precision averages.
- Floating point: averages are exact reals, so `double` rounding in `Average()` and in comparisons is not modelled.
- Culture-sensitive string ordering: `ByGroupThenName` takes the comparer as a parameter that must be a total preorder.
- `StringComparison.OrdinalIgnoreCase`: the model folds ASCII letters only. Other Unicode case pairs are not modelled.
- The interpolation in `Student.ToString` formats numbers with the current culture. The model renders them with the ASCII hyphen-minus as the negative sign and no group separators.
- The exact sequence `new Random(42)` produces: only the range contract of `Next` and the count of draws are modelled.
- StudentRepository.GetTestStudents: does not state that later students' grades depend on earlier draws; the generator is local to the method.
- StudentRepository.GetTestStudents: the fifteen constructor calls of the list literal are a loop over a roster table, in the same order.
- Students.Student: `Grades` is the caller's `List<int>` behind a read-only view, so the caller could still change it. The model's grades are a value and cannot change.
- The exact message text of `EnsureSuccessStatusCode` comes from the framework. The model uses its English format; only the status code it carries matters to the translation.
- Console output and colours throughout both programs, StudentAnalyzer/StudentConsole.cs, and the ConsoleAppStudents driver. ConsoleAppStudents/Program.cs:13 names a `StudentConsolePresenter` class that does not exist; the class is `StudentConsole`.
- 32-bit integer limits elsewhere (ages, ids, grade sums): they are unbounded integers, since the roster stays far from them.

## Findings

| source | as written | input that shows it | evidently intended | confidence | as-written member | corrected member |
|---|---|---|---|---|---|---|
| StudentAnalyzer/StudentFilters.cs:53 | `(pageNumber - 1) * pageSize` is computed in unchecked 32-bit int arithmetic and wraps around | pageNumber = 1073741825, pageSize = 4 over four or more students: the offset 2^32 wraps to 0 and the first page is returned | the offset (pageNumber - 1) * pageSize without overflow, so that page is empty | not executed; follows from C#'s default unchecked arithmetic | StudentFilters.PageOffsetOverflows | StudentFilters.PagesAdjacent |
