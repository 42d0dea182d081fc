/** The student record: six values fixed when the record is made, and its
    one-line rendering. */
module Students {
  import opened Wrappers
  import opened Text

  /** A student; a datatype value, so every field keeps the value it was built with. */
  datatype Student = Student(
    id: int,
    firstName: string,
    lastName: string,
    age: int,
    group: string,
    grades: seq<int>)

  /** "{FirstName} {LastName}", as the filters build it. */
  function FullName(s: Student): string {
    s.firstName + " " + s.lastName
  }

  const IdLabel := "Id: "
  const GradesLabel := ", Grades: ["

  /** The part between the id and the grades: name, age and group. */
  function Middle(s: Student): (m: string)
    ensures |m| > 0 && m[0] == ','
  {
    ", Name: " + s.firstName + " " + s.lastName + ", Age: " + IntToString(s.age) + ", Group: " + s.group
  }

  /** Student.ToString(): id, name, age, group, then the grades joined by ", " in brackets. */
  function ToString(s: Student): (r: string)
    ensures |r| > |IdLabel| + |GradesLabel| && r[..|IdLabel|] == IdLabel
    ensures r[|r| - 1] == ']'
    ensures s.grades == [] ==> r[|r| - |GradesLabel| - 1..] == GradesLabel + "]"
  {
    IdLabel + IntToString(s.id) + Middle(s) + GradesLabel + JoinInts(s.grades) + "]"
  }

  /** The id read back from the front of a rendering: the integer up to the first ','. */
  function IdField(r: string): Option<int> {
    if |r| >= |IdLabel| && r[..|IdLabel|] == IdLabel then
      var rest := r[|IdLabel|..];
      ParseInt(rest[..IndexOf(rest, ',')])
    else None
  }

  /** The grades read back from the end of a rendering: the list between the last '[' and the final ']'. */
  function GradesField(r: string): Option<seq<int>> {
    if |r| > 0 && r[|r| - 1] == ']' then
      match LastIndexOf(r, '[')
      case Some(k) => ParseIntList(r[k + 1..|r| - 1])
      case None => None
    else None
  }

  /** An id rendered after IdLabel and followed by text that starts with ',' reads back. */
  lemma IdFieldReads(id: int, tail: string)
    requires |tail| > 0 && tail[0] == ','
    ensures IdField(IdLabel + IntToString(id) + tail) == Some(id)
  {
    var r := IdLabel + IntToString(id) + tail;
    var idText := IntToString(id);
    var rest := r[|IdLabel|..];
    assert rest == idText + tail;
    IndexOfAfter(idText, tail, ',');
    assert rest[..|idText|] == idText;
    IntToStringRoundTrip(id);
  }

  /** Grades joined between a '[' and a final ']' read back, whatever comes before the '['. */
  lemma GradesFieldReads(head: string, grades: seq<int>)
    ensures GradesField(head + "[" + JoinInts(grades) + "]") == Some(grades)
  {
    var joined := JoinInts(grades);
    var r := head + "[" + joined + "]";
    assert '[' !in joined + "]" by {
      forall k | 0 <= k < |joined| ensures joined[k] != '[' {
        assert IsNumberChar(joined[k]) || joined[k] == ',' || joined[k] == ' ';
      }
    }
    assert r == head + ['['] + (joined + "]");
    LastIndexOfBefore(head, '[', joined + "]");
    assert r[|head| + 1..|r| - 1] == joined;
    JoinIntsRoundTrip(grades);
  }

  /** The rendering starts with the id, whatever the names contain. */
  lemma ToStringShowsId(s: Student)
    ensures IdField(ToString(s)) == Some(s.id)
  {
    var tail := Middle(s) + GradesLabel + JoinInts(s.grades) + "]";
    assert ToString(s) == IdLabel + IntToString(s.id) + tail;
    IdFieldReads(s.id, tail);
  }

  /** The rendering ends with every grade, in order, whatever the names and group contain. */
  lemma ToStringShowsGrades(s: Student)
    ensures GradesField(ToString(s)) == Some(s.grades)
  {
    var head := IdLabel + IntToString(s.id) + Middle(s) + ", Grades: ";
    assert ToString(s) == head + "[" + JoinInts(s.grades) + "]";
    GradesFieldReads(head, s.grades);
  }
}
