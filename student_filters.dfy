/** StudentFilters: queries over a sequence of students (filter, project,
    sort, group, flatten, page and look up), each a composition of the
    query operators in Linq. */
module StudentFilters {
  import opened Wrappers
  import opened Text
  import opened Linq
  import opened Students

  // ---------------------------------------------------------------------
  // Filters

  /** GetStudentsOlderThan: the students older than age, in input order. */
  function OlderThan(students: seq<Student>, age: int): (r: seq<Student>)
    ensures forall s :: s in r <==> s in students && s.age > age
    ensures forall s :: multiset(r)[s] == if s.age > age then multiset(students)[s] else 0
    ensures IsSubsequence(r, students)
  {
    var p := (s: Student) => s.age > age;
    WhereMembers(students, p);
    WhereMultiset(students, p);
    WhereIsSubsequence(students, p);
    Where(students, p)
  }

  /** The student has at least one grade and its exact average is above minAverage. */
  predicate IsTopStudent(s: Student, minAverage: real) {
    |s.grades| != 0 && Average(s.grades) > minAverage
  }

  /** GetTopStudents: students with grades whose average exceeds minAverage. */
  function TopStudents(students: seq<Student>, minAverage: real): (r: seq<Student>)
    ensures forall s :: s in r <==> s in students && IsTopStudent(s, minAverage)
    ensures forall s :: multiset(r)[s] == if IsTopStudent(s, minAverage) then multiset(students)[s] else 0
    ensures forall s :: s in r ==> |s.grades| > 0
    ensures IsSubsequence(r, students)
  {
    var p := (s: Student) => IsTopStudent(s, minAverage);
    WhereMembers(students, p);
    WhereMultiset(students, p);
    WhereIsSubsequence(students, p);
    Where(students, p)
  }

  /** For a whole-number threshold m, the average test is the integer test sum > m * count. */
  lemma TopStudentsByIntegerThreshold(students: seq<Student>, m: int, s: Student)
    ensures s in TopStudents(students, m as real)
        <==> s in students && |s.grades| > 0 && Sum(s.grades) > m * |s.grades|
  {
    if |s.grades| > 0 {
      AverageAboveWhole(s.grades, m);
    }
  }

  /** GetStudentsFromGroup: students whose group equals groupName, ignoring case. */
  function FromGroup(students: seq<Student>, groupName: string): (r: seq<Student>)
    ensures forall s :: s in r <==> s in students && EqualsIgnoreCase(s.group, groupName)
    ensures forall s :: multiset(r)[s] == if EqualsIgnoreCase(s.group, groupName) then multiset(students)[s] else 0
    ensures IsSubsequence(r, students)
  {
    var p := (s: Student) => EqualsIgnoreCase(s.group, groupName);
    WhereMembers(students, p);
    WhereMultiset(students, p);
    WhereIsSubsequence(students, p);
    Where(students, p)
  }

  predicate HasFailingGrade(s: Student) {
    exists i :: 0 <= i < |s.grades| && s.grades[i] < 60
  }

  /** GetStudentsWithFailingGrades: students with some grade below 60. */
  function FailingGrades(students: seq<Student>): (r: seq<Student>)
    ensures forall s :: s in r <==> s in students && exists g :: g in s.grades && g < 60
    ensures forall s :: multiset(r)[s] == if HasFailingGrade(s) then multiset(students)[s] else 0
    ensures forall s :: s in r ==> s.grades != []
    ensures IsSubsequence(r, students)
  {
    WhereMembers(students, HasFailingGrade);
    WhereMultiset(students, HasFailingGrade);
    WhereIsSubsequence(students, HasFailingGrade);
    var r := Where(students, HasFailingGrade);
    assert forall s :: HasFailingGrade(s) <==> exists g :: g in s.grades && g < 60 by {
      forall s ensures HasFailingGrade(s) <==> exists g :: g in s.grades && g < 60 {
        if exists g :: g in s.grades && g < 60 {
          var g :| g in s.grades && g < 60;
          var i :| 0 <= i < |s.grades| && s.grades[i] == g;
        }
        if HasFailingGrade(s) {
          var i :| 0 <= i < |s.grades| && s.grades[i] < 60;
          assert s.grades[i] in s.grades;
        }
      }
    }
    r
  }

  // ---------------------------------------------------------------------
  // Projections

  /** GetFullNames: one "{FirstName} {LastName}" per student, in input order. */
  function FullNames(students: seq<Student>): (r: seq<string>)
    ensures |r| == |students|
    ensures forall i :: 0 <= i < |r| ==> r[i] == FullName(students[i])
  {
    Select(students, FullName)
  }

  /** GetAges: one age per student, in input order. */
  function Ages(students: seq<Student>): (r: seq<int>)
    ensures |r| == |students|
    ensures forall i :: 0 <= i < |r| ==> r[i] == students[i].age
  {
    Select(students, (s: Student) => s.age)
  }

  /** The exact average of the grades, or 0.0 when there are none. */
  function AverageOrZero(grades: seq<int>): (a: real)
    ensures a * |grades| as real == Sum(grades) as real
    ensures grades == [] ==> a == 0.0
  {
    if |grades| > 0 then Average(grades) else 0.0
  }

  /** The anonymous record of GetStudentSummaries. */
  datatype Summary = Summary(id: int, fullName: string, averageGrade: real, gradeCount: nat)

  function SummaryOf(s: Student): Summary {
    Summary(s.id, FullName(s), AverageOrZero(s.grades), |s.grades|)
  }

  /** GetStudentSummaries: one summary per student, in input order, whose
      average times its count is the sum of that student's grades. */
  function Summaries(students: seq<Student>): (r: seq<Summary>)
    ensures |r| == |students|
    ensures forall i :: 0 <= i < |r| ==>
      && r[i].id == students[i].id
      && r[i].fullName == FullName(students[i])
      && r[i].gradeCount == |students[i].grades|
      && r[i].averageGrade * r[i].gradeCount as real == Sum(students[i].grades) as real
      && (r[i].gradeCount == 0 ==> r[i].averageGrade == 0.0)
  {
    Select(students, SummaryOf)
  }

  // ---------------------------------------------------------------------
  // Sorting

  function AgeLe(a: Student, b: Student): bool {
    a.age <= b.age
  }

  lemma AgeLeIsPreorder()
    ensures TotalPreorder(AgeLe)
  {
  }

  predicate AgeIs(s: Student, age: int) {
    s.age == age
  }

  /** GetStudentsByAge: the students ordered by age. */
  function ByAge(students: seq<Student>): (r: seq<Student>)
    ensures multiset(r) == multiset(students)
    ensures forall i, j :: 0 <= i < j < |r| ==> r[i].age <= r[j].age
  {
    AgeLeIsPreorder();
    OrderBy(students, AgeLe)
  }

  /** The sort is stable: students of one age keep their input order. */
  lemma ByAgeStable(students: seq<Student>, age: int)
    ensures Where(ByAge(students), (s: Student) => AgeIs(s, age))
         == Where(students, (s: Student) => AgeIs(s, age))
  {
    AgeLeIsPreorder();
    var c := Student(0, "", "", age, "", []);
    var r := ByAge(students);
    assert EquivClass(r, AgeLe, c) == EquivClass(students, AgeLe, c);
    WhereExt(r, EquivTo(AgeLe, c), (s: Student) => AgeIs(s, age));
    WhereExt(students, EquivTo(AgeLe, c), (s: Student) => AgeIs(s, age));
  }

  /** OrderByDescending on the average: a student comes before every student with a lower average. */
  function AverageDescLe(a: Student, b: Student): bool {
    AverageOrZero(b.grades) <= AverageOrZero(a.grades)
  }

  lemma AverageDescLeIsPreorder()
    ensures TotalPreorder(AverageDescLe)
  {
  }

  predicate AverageIs(s: Student, avg: real) {
    AverageOrZero(s.grades) == avg
  }

  /** GetStudentsByAverage: highest average first; no grades counts as 0.0. */
  function ByAverage(students: seq<Student>): (r: seq<Student>)
    ensures multiset(r) == multiset(students)
    ensures forall i, j :: 0 <= i < j < |r| ==> AverageOrZero(r[i].grades) >= AverageOrZero(r[j].grades)
  {
    AverageDescLeIsPreorder();
    OrderBy(students, AverageDescLe)
  }

  /** The sort is stable: students with one average keep their input order. */
  lemma ByAverageStable(students: seq<Student>, avg: real)
    ensures Where(ByAverage(students), (s: Student) => AverageIs(s, avg))
         == Where(students, (s: Student) => AverageIs(s, avg))
  {
    AverageDescLeIsPreorder();
    var r := ByAverage(students);
    forall x | x in r ensures x in students {
      assert multiset(r)[x] > 0;
    }
    if exists x :: x in students && AverageIs(x, avg) {
      var w :| w in students && AverageIs(w, avg);
      assert EquivClass(r, AverageDescLe, w) == EquivClass(students, AverageDescLe, w);
      WhereExt(r, EquivTo(AverageDescLe, w), (s: Student) => AverageIs(s, avg));
      WhereExt(students, EquivTo(AverageDescLe, w), (s: Student) => AverageIs(s, avg));
    } else {
      WhereNone(students, (s: Student) => AverageIs(s, avg));
      WhereNone(r, (s: Student) => AverageIs(s, avg));
    }
  }

  /** ThenBy over OrderBy: a is before b when its group is strictly smaller,
      or the groups compare equal and its last name is not greater. */
  predicate GroupThenNameBefore(stringLe: (string, string) -> bool, a: Student, b: Student) {
    !stringLe(b.group, a.group) || (stringLe(a.group, b.group) && stringLe(a.lastName, b.lastName))
  }

  function GroupThenNameLe(stringLe: (string, string) -> bool): (Student, Student) -> bool {
    (a: Student, b: Student) => GroupThenNameBefore(stringLe, a, b)
  }

  lemma GroupThenNameTransitive(stringLe: (string, string) -> bool, x: Student, y: Student, z: Student)
    requires TotalPreorder(stringLe)
    requires GroupThenNameBefore(stringLe, x, y) && GroupThenNameBefore(stringLe, y, z)
    ensures GroupThenNameBefore(stringLe, x, z)
  {
    var S := stringLe;
    if S(z.group, x.group) {
      if !S(y.group, x.group) {
        assert S(z.group, y.group) || S(y.group, z.group);
        Transitive(S, y.group, z.group, x.group);
        assert false;
      } else if !S(z.group, y.group) {
        Transitive(S, z.group, x.group, y.group);
        assert false;
      } else {
        Transitive(S, x.group, y.group, z.group);
        Transitive(S, x.lastName, y.lastName, z.lastName);
      }
    }
  }

  lemma GroupThenNameIsPreorder(stringLe: (string, string) -> bool)
    requires TotalPreorder(stringLe)
    ensures TotalPreorder(GroupThenNameLe(stringLe))
  {
    var le := GroupThenNameLe(stringLe);
    forall x, y ensures le(x, y) || le(y, x) {
      assert stringLe(x.group, y.group) || stringLe(y.group, x.group);
      assert stringLe(x.lastName, y.lastName) || stringLe(y.lastName, x.lastName);
    }
    forall x, y, z | Chained(le, x, y, z) ensures le(x, z) {
      GroupThenNameTransitive(stringLe, x, y, z);
    }
  }

  /** GetStudentsByGroupThenName, with stringLe the comparer of the current culture:
      ordered by group, and by last name among students of one group. */
  function ByGroupThenName(students: seq<Student>, stringLe: (string, string) -> bool): (r: seq<Student>)
    requires TotalPreorder(stringLe)
    ensures multiset(r) == multiset(students)
    ensures forall i, j :: 0 <= i < j < |r| ==> stringLe(r[i].group, r[j].group)
    ensures forall i, j :: 0 <= i < j < |r| && Equiv(stringLe, r[i].group, r[j].group)
              ==> stringLe(r[i].lastName, r[j].lastName)
    ensures forall c :: EquivClass(r, GroupThenNameLe(stringLe), c)
                     == EquivClass(students, GroupThenNameLe(stringLe), c)
  {
    GroupThenNameIsPreorder(stringLe);
    OrderBy(students, GroupThenNameLe(stringLe))
  }

  // ---------------------------------------------------------------------
  // Grouping

  function GroupKey(s: Student): string {
    s.group
  }

  /** GroupStudentsByGroup: one group per distinct group name, in order of first
      appearance; each holds its students in input order; together they hold
      every student exactly once. */
  function GroupStudentsByGroup(students: seq<Student>): (r: seq<Grouping<string, Student>>)
    ensures IsGroupingOf(r, students, GroupKey)
    ensures multiset(Flatten(Elements(r))) == multiset(students)
  {
    GroupByIsGrouping(students, GroupKey);
    GroupByPartition(students, GroupKey);
    GroupBy(students, GroupKey)
  }

  // ---------------------------------------------------------------------
  // Flattening

  function Grades(s: Student): seq<int> {
    s.grades
  }

  function GradeCountTotal(students: seq<Student>): nat {
    if students == [] then 0 else |students[0].grades| + GradeCountTotal(students[1..])
  }

  /** GetAllGrades: every student's grades, student after student. */
  function AllGrades(students: seq<Student>): (r: seq<int>)
    ensures forall g :: g in r ==> exists i :: 0 <= i < |students| && g in students[i].grades
  {
    SelectMany(students, Grades)
  }

  /** AllGrades holds each student's grades in turn: its length is the total count,
      and it splits where the input splits. */
  lemma {:induction false} AllGradesShape(students: seq<Student>)
    ensures |AllGrades(students)| == GradeCountTotal(students)
    ensures students != [] ==> AllGrades(students) == students[0].grades + AllGrades(students[1..])
  {
    if students != [] {
      AllGradesShape(students[1..]);
    }
  }

  lemma {:induction false} AllGradesMembers(students: seq<Student>, g: int)
    ensures g in AllGrades(students) <==> exists i :: 0 <= i < |students| && g in students[i].grades
  {
    if students != [] {
      AllGradesMembers(students[1..], g);
      if g in students[0].grades {
        assert g in AllGrades(students);
      }
      if exists i :: 1 <= i < |students| && g in students[i].grades {
        var i :| 1 <= i < |students| && g in students[i].grades;
        assert students[1..][i - 1] == students[i];
      }
      if g in AllGrades(students[1..]) {
        var i :| 0 <= i < |students[1..]| && g in students[1..][i].grades;
        assert students[i + 1] == students[1..][i];
      }
    }
  }

  /** The (StudentId, Grade) tuple of GetStudentGradePairs. */
  datatype GradePair = GradePair(studentId: int, grade: int)

  function PairsOf(s: Student): (r: seq<GradePair>)
    ensures |r| == |s.grades|
    ensures forall i :: 0 <= i < |r| ==> r[i] == GradePair(s.id, s.grades[i])
  {
    Select(s.grades, (g: int) => GradePair(s.id, g))
  }

  function PairGrade(p: GradePair): int {
    p.grade
  }

  /** GetStudentGradePairs: each grade paired with its student's id. */
  function GradePairs(students: seq<Student>): (r: seq<GradePair>)
    ensures students == [] ==> r == []
    ensures students != [] ==> r == PairsOf(students[0]) + GradePairs(students[1..])
    ensures forall p :: p in r ==> exists i :: 0 <= i < |students| && p.studentId == students[i].id
                                              && p.grade in students[i].grades
  {
    var r := SelectMany(students, PairsOf);
    forall p | p in r
      ensures exists i :: 0 <= i < |students| && p.studentId == students[i].id && p.grade in students[i].grades
    {
      var i :| 0 <= i < |students| && p in PairsOf(students[i]);
      var k :| 0 <= k < |PairsOf(students[i])| && PairsOf(students[i])[k] == p;
      assert students[i].grades[k] == p.grade;
    }
    r
  }

  /** Dropping the ids from the pairs gives exactly the list of all grades. */
  lemma {:induction false} GradePairsProjectToAllGrades(students: seq<Student>)
    ensures Select(GradePairs(students), PairGrade) == AllGrades(students)
  {
    if students != [] {
      var s := students[0];
      GradePairsProjectToAllGrades(students[1..]);
      assert GradePairs(students) == PairsOf(s) + GradePairs(students[1..]);
      SelectConcat(PairsOf(s), GradePairs(students[1..]), PairGrade);
      assert Select(PairsOf(s), PairGrade) == s.grades;
      AllGradesShape(students);
    }
  }

  // ---------------------------------------------------------------------
  // Paging

  const Int32Min := -0x8000_0000
  const Int32Max := 0x7fff_ffff

  predicate IsInt32(x: int) {
    Int32Min <= x <= Int32Max
  }

  /** C# unchecked int arithmetic: the value modulo 2^32, read back as a signed 32-bit integer. */
  function Wrap32(x: int): (r: int)
    ensures IsInt32(r)
    ensures (r - x) % 0x1_0000_0000 == 0
    ensures IsInt32(x) ==> r == x
  {
    (x - Int32Min) % 0x1_0000_0000 + Int32Min
  }

  /** Where Skip leaves off: the offset clamped to 0..len. */
  function Clamp(n: int, len: nat): (c: nat)
    ensures c <= len
  {
    if n <= 0 then 0 else if n < len then n else len
  }

  /** GetStudentsPage as compiled: the offset (pageNumber - 1) * pageSize is computed in
      unchecked 32-bit arithmetic, so it wraps around for large page numbers. */
  function PageAsWritten(students: seq<Student>, pageNumber: int, pageSize: int): (r: seq<Student>)
    requires IsInt32(pageNumber) && IsInt32(pageSize)
    ensures |r| <= Clamp(pageSize, |students|)
    ensures var start := Clamp(Wrap32((pageNumber - 1) * pageSize), |students|);
      && |r| == Clamp(pageSize, |students| - start)
      && r == students[start..start + |r|]
  {
    Take(Skip(students, Wrap32((pageNumber - 1) * pageSize)), pageSize)
  }

  /** GetStudentsPage with the offset computed without overflow: the slice of at most
      pageSize students starting at (pageNumber - 1) * pageSize. */
  function Page(students: seq<Student>, pageNumber: int, pageSize: int): (r: seq<Student>)
    ensures var start := Clamp((pageNumber - 1) * pageSize, |students|);
      && |r| == Clamp(pageSize, |students| - start)
      && r == students[start..start + |r|]
  {
    Take(Skip(students, (pageNumber - 1) * pageSize), pageSize)
  }

  /** Skip then Take is the slice between the two clamped offsets; a negative offset skips nothing. */
  lemma SliceAt(students: seq<Student>, a: int, size: nat)
    ensures var lo := Clamp(a, |students|);
            Take(Skip(students, a), size) == students[lo..Clamp(lo + size, |students|)]
  {
    var lo := Clamp(a, |students|);
    var sk := Skip(students, a);
    assert sk == students[lo..];
  }

  /** Two slices of size students, the second starting where the first would end (b = a + size),
      together cover the range from a to a + 2 * size. */
  lemma AdjacentSlices(students: seq<Student>, a: nat, size: nat, b: int, first: seq<Student>, second: seq<Student>)
    requires b == a + size
    requires first == Take(Skip(students, a), size) && second == Take(Skip(students, b), size)
    ensures var lo := Clamp(a, |students|);
            var hi := Clamp(a + 2 * size, |students|);
            lo <= hi && first + second == students[lo..hi]
  {
    SliceAt(students, a, size);
    SliceAt(students, a + size, size);
  }

  /** Consecutive pages sit side by side: no student is on both, none between them is skipped. */
  lemma PagesAdjacent(students: seq<Student>, pageNumber: int, pageSize: int)
    requires pageNumber >= 1 && pageSize >= 0
    ensures var start := (pageNumber - 1) * pageSize;
            var lo := Clamp(start, |students|);
            var hi := Clamp(start + 2 * pageSize, |students|);
            lo <= hi && Page(students, pageNumber, pageSize) + Page(students, pageNumber + 1, pageSize)
                        == students[lo..hi]
  {
    NextOffsets(pageNumber, pageSize);
    AdjacentSlices(students, (pageNumber - 1) * pageSize, pageSize, (pageNumber + 1 - 1) * pageSize,
      Page(students, pageNumber, pageSize), Page(students, pageNumber + 1, pageSize));
  }

  /** For a first page number and a non-negative size the offset is non-negative; the next page
      starts pageSize further on and ends 2 * pageSize further on. */
  lemma NextOffsets(pageNumber: int, pageSize: int)
    requires pageNumber >= 1 && pageSize >= 0
    ensures (pageNumber - 1) * pageSize >= 0
    ensures (pageNumber + 1 - 1) * pageSize == (pageNumber - 1) * pageSize + pageSize
  {
  }

  /** When the offset fits in 32 bits, the compiled page is the intended one. */
  lemma PageAsWrittenAgrees(students: seq<Student>, pageNumber: int, pageSize: int)
    requires IsInt32(pageNumber) && IsInt32(pageSize) && IsInt32((pageNumber - 1) * pageSize)
    ensures PageAsWritten(students, pageNumber, pageSize) == Page(students, pageNumber, pageSize)
  {
  }

  /** Page 1073741825 of size 4 starts at 2^32, which wraps to 0: the compiled query
      returns the first page where the intended one is empty. */
  lemma PageOffsetOverflows(students: seq<Student>)
    requires 4 <= |students| < 0x1_0000_0000
    ensures PageAsWritten(students, 1073741825, 4) == students[..4]
    ensures Page(students, 1073741825, 4) == []
  {
    assert Wrap32(1073741824 * 4) == 0;
  }

  // ---------------------------------------------------------------------
  // Lookup

  function IdIs(id: int): Student -> bool {
    (s: Student) => s.id == id
  }

  /** FindStudentById: the one student with that id; no match or several matches is an error. */
  function FindById(students: seq<Student>, id: int): (r: Result<Student, SingleError>)
    ensures r.Success? <==> |Where(students, IdIs(id))| == 1
    ensures r.Success? ==> r.value in students && r.value.id == id
    ensures r == Failure(NoMatchingElement) <==> forall s :: s in students ==> s.id != id
  {
    var r := Single(students, IdIs(id));
    if r.Success? then
      assert r.value in Where(students, IdIs(id));
      r
    else
      r
  }

  /** TryFindStudent: the first student with that id, or null (None). */
  function TryFind(students: seq<Student>, id: int): (r: Option<Student>)
    ensures r.None? <==> forall s :: s in students ==> s.id != id
    ensures r.Some? ==> exists i :: 0 <= i < |students| && students[i] == r.value && r.value.id == id
                                  && forall j :: 0 <= j < i ==> students[j].id != id
  {
    FirstOrDefault(students, IdIs(id))
  }

  predicate DistinctIds(students: seq<Student>) {
    forall i, j :: 0 <= i < j < |students| ==> students[i].id != students[j].id
  }

  /** With distinct ids, looking up the id of a student finds that student, and both lookups agree. */
  lemma FindByDistinctId(students: seq<Student>, k: nat)
    requires DistinctIds(students) && k < |students|
    ensures FindById(students, students[k].id) == Success(students[k])
    ensures TryFind(students, students[k].id) == Some(students[k])
  {
    var p := IdIs(students[k].id);
    var after := students[k + 1..];
    forall j | 0 <= j < |after| ensures !p(after[j]) {
      assert after[j] == students[k + 1 + j];
    }
    WhereNone(after, p);
    WhereFromFirst(students, p, k);
    SingleAgreesWithFirst(students, p);
  }
}
