/** StudentRepository: the fixed roster of fifteen test students, whose
    grades are drawn from one pseudo-random generator seeded with 42. */
module StudentRepository {
  import opened Wrappers
  import opened Students
  import opened Linq
  import opened StudentFilters

  /** System.Random reduced to what the repository relies on: Next(lo, hi)
      returns some value in [lo, hi), and every call advances the generator.
      The values themselves are not modelled. */
  class Random {
    const seed: int
    var draws: nat

    constructor (seed: int)
      ensures this.seed == seed && draws == 0
    {
      this.seed := seed;
      draws := 0;
    }

    /** Random.Next(minValue, maxValue): the upper bound is exclusive; equal bounds give minValue. */
    method Next(lo: int, hi: int) returns (v: int)
      requires lo <= hi
      modifies this
      ensures lo == hi ==> v == lo
      ensures lo < hi ==> lo <= v < hi
      ensures draws == old(draws) + 1
    {
      v :| lo <= v <= hi && (lo == hi || v < hi);
      draws := draws + 1;
    }
  }

  /** A grade drawn by Next(min, max + 1): in [min, max], or min itself when max + 1 == min. */
  predicate GradeInRange(g: int, min: int, max: int) {
    if min <= max then min <= g <= max else g == min
  }

  /** GenerateGrades: draws a count with Next(5, 9), then that many grades with Next(min, max + 1). */
  method GenerateGrades(random: Random, min: int, max: int) returns (grades: seq<int>)
    requires min <= max + 1
    modifies random
    ensures 5 <= |grades| <= 8
    ensures forall i :: 0 <= i < |grades| ==> GradeInRange(grades[i], min, max)
    ensures random.draws == old(random.draws) + 1 + |grades|
  {
    var gradeCount := random.Next(5, 9);
    grades := [];
    var i := 0;
    while i < gradeCount
      invariant 0 <= i <= gradeCount && |grades| == i
      invariant forall k :: 0 <= k < i ==> GradeInRange(grades[k], min, max)
      invariant random.draws == old(random.draws) + 1 + i
    {
      var g := random.Next(min, max + 1);
      grades := grades + [g];
      i := i + 1;
    }
  }

  /** One line of the roster: everything but the grades, and the range they are drawn from. */
  datatype RosterEntry = RosterEntry(
    id: int, firstName: string, lastName: string, age: int, group: string,
    minGrade: int, maxGrade: int)

  const Roster: seq<RosterEntry> := [
    RosterEntry(1, "Иван", "Петров", 20, "CS-101", 85, 95),
    RosterEntry(2, "Мария", "Сидорова", 19, "CS-101", 90, 98),
    RosterEntry(3, "Алексей", "Иванов", 22, "MATH-201", 50, 65),
    RosterEntry(4, "Елена", "Смирнова", 21, "MATH-201", 75, 85),
    RosterEntry(5, "Дмитрий", "Козлов", 23, "PHYS-301", 60, 70),
    RosterEntry(6, "Анна", "Новикова", 18, "CS-101", 95, 100),
    RosterEntry(7, "Сергей", "Морозов", 24, "PHYS-301", 45, 58),
    RosterEntry(8, "Ольга", "Волкова", 20, "MATH-201", 80, 90),
    RosterEntry(9, "Павел", "Соколов", 25, "PHYS-301", 70, 80),
    RosterEntry(10, "Наталья", "Лебедева", 19, "CS-101", 88, 95),
    RosterEntry(11, "Андрей", "Козлов", 21, "MATH-201", 55, 65),
    RosterEntry(12, "Татьяна", "Новикова", 22, "PHYS-301", 92, 98),
    RosterEntry(13, "Михаил", "Федоров", 20, "CS-101", 65, 75),
    RosterEntry(14, "Екатерина", "Павлова", 23, "MATH-201", 50, 60),
    RosterEntry(15, "Николай", "Семенов", 18, "PHYS-301", 85, 95)
  ]

  predicate IsKnownGroup(g: string) {
    g == "CS-101" || g == "MATH-201" || g == "PHYS-301"
  }

  /** The student built from roster line e with the grades drawn for it. */
  predicate MatchesEntry(s: Student, e: RosterEntry) {
    && s.id == e.id && s.firstName == e.firstName && s.lastName == e.lastName
    && s.age == e.age && s.group == e.group
    && 5 <= |s.grades| <= 8
    && forall k :: 0 <= k < |s.grades| ==> e.minGrade <= s.grades[k] <= e.maxGrade
  }

  /** What GetTestStudents promises: fifteen students, ids 1 to 15 in order,
      each in one of the three groups, with five to eight grades in its range. */
  predicate IsTestRoster(students: seq<Student>) {
    && |students| == 15
    && (forall i :: 0 <= i < 15 ==> students[i].id == i + 1)
    && (forall i :: 0 <= i < 15 ==> IsKnownGroup(students[i].group))
    && (forall i :: 0 <= i < 15 ==> MatchesEntry(students[i], Roster[i]))
  }

  lemma RosterShape()
    ensures |Roster| == 15
    ensures forall i :: 0 <= i < 15 ==> Roster[i].id == i + 1 && IsKnownGroup(Roster[i].group)
    ensures forall i :: 0 <= i < 15 ==> Roster[i].minGrade <= Roster[i].maxGrade
  {
  }

  /** GetTestStudents: the roster, in order, each student's grades drawn in turn from one Random(42). */
  method GetTestStudents() returns (students: seq<Student>)
    ensures IsTestRoster(students)
  {
    RosterShape();
    var random := new Random(42);
    students := [];
    var i := 0;
    while i < |Roster|
      invariant 0 <= i <= |Roster| && |students| == i
      invariant forall k :: 0 <= k < i ==> MatchesEntry(students[k], Roster[k])
    {
      var e := Roster[i];
      var grades := GenerateGrades(random, e.minGrade, e.maxGrade);
      students := students + [Student(e.id, e.firstName, e.lastName, e.age, e.group, grades)];
      i := i + 1;
    }
  }

  /** In the test roster every id from 1 to 15 finds its student, by either lookup, and any other id finds none. */
  lemma TestRosterLookup(students: seq<Student>, id: int)
    requires IsTestRoster(students)
    ensures 1 <= id <= 15 ==>
      FindById(students, id) == Success(students[id - 1]) && TryFind(students, id) == Some(students[id - 1])
    ensures !(1 <= id <= 15) ==>
      FindById(students, id) == Failure(NoMatchingElement) && TryFind(students, id) == None
  {
    assert DistinctIds(students);
    if 1 <= id <= 15 {
      FindByDistinctId(students, id - 1);
    } else {
      assert forall s :: s in students ==> s.id != id;
    }
  }
}
