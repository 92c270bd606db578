/** The student list page (app/students/page.tsx): the search-and-class filter and the
    face-data counts of its stats cards, over the page's list of students. */
module StudentsPage {
  import opened Text
  import Seqs

  /** One entry of the page's `students` array; `className` is the `class` field. */
  datatype Student = Student(
    id: int, name: string, email: string, studentId: string, className: string,
    faceData: bool, lastSeen: string, attendance: int)

  /** The class selector's value that lets every class through. */
  const AllClasses: string := "all"

  /** The lower-cased name, email or student id contains the lower-cased search term. */
  predicate MatchesSearch(s: Student, searchTerm: string) {
    var term := ToLower(searchTerm);
    Contains(ToLower(s.name), term) || Contains(ToLower(s.email), term) || Contains(ToLower(s.studentId), term)
  }

  /** `selectedClass === "all" || student.class === selectedClass`. */
  predicate MatchesClass(s: Student, selectedClass: string) {
    selectedClass == AllClasses || s.className == selectedClass
  }

  /** The `filter` callback. */
  function Shown(searchTerm: string, selectedClass: string): Student -> bool {
    (s: Student) => MatchesSearch(s, searchTerm) && MatchesClass(s, selectedClass)
  }

  /** `filteredStudents`: the students matching both the search and the class, in the
      page's order. */
  function FilteredStudents(students: seq<Student>, searchTerm: string, selectedClass: string): (r: seq<Student>)
    ensures forall s :: s in r <==> s in students && MatchesSearch(s, searchTerm) && MatchesClass(s, selectedClass)
    ensures Seqs.IsSubsequence(r, students)
  {
    Seqs.FilterIsSubsequence(students, Shown(searchTerm, selectedClass));
    Seqs.Filter(students, Shown(searchTerm, selectedClass))
  }

  /** With an empty search and every class selected, every student is listed. */
  lemma EmptySearchShowsAll(students: seq<Student>)
    ensures FilteredStudents(students, "", AllClasses) == students
  {
    forall s | s in students ensures Shown("", AllClasses)(s) {
      ContainsEmpty(ToLower(s.name));
    }
    Seqs.FilterKeepsAll(students, Shown("", AllClasses));
  }

  /** The search ignores the case of the term: a lower-cased term lists the same students. */
  lemma SearchIgnoresTermCase(students: seq<Student>, searchTerm: string, selectedClass: string)
    ensures FilteredStudents(students, ToLower(searchTerm), selectedClass) == FilteredStudents(students, searchTerm, selectedClass)
  {
    ToLowerIdempotent(searchTerm);
    Seqs.FilterCongruent(students, Shown(ToLower(searchTerm), selectedClass), Shown(searchTerm, selectedClass));
  }

  /** Narrowing to one class lists no more than all classes with the same search. */
  lemma ClassNarrowsList(students: seq<Student>, searchTerm: string, selectedClass: string)
    ensures |FilteredStudents(students, searchTerm, selectedClass)| <= |FilteredStudents(students, searchTerm, AllClasses)|
  {
    Seqs.FilterMonotone(students, Shown(searchTerm, selectedClass), Shown(searchTerm, AllClasses));
  }

  function HasFaceData(): Student -> bool {
    (s: Student) => s.faceData
  }

  function LacksFaceData(): Student -> bool {
    (s: Student) => !s.faceData
  }

  /** The "With Face Data" figure. */
  function WithFaceData(students: seq<Student>): (n: nat)
    ensures n <= |students|
    ensures n == |students| <==> forall s :: s in students ==> s.faceData
  {
    Seqs.FilterFullLength(students, HasFaceData());
    |Seqs.Filter(students, HasFaceData())|
  }

  /** The "Pending Setup" figure. */
  function PendingSetup(students: seq<Student>): (n: nat)
    ensures n <= |students|
    ensures n == 0 <==> forall s :: s in students ==> s.faceData
  {
    var pending := Seqs.Filter(students, LacksFaceData());
    assert pending != [] ==> pending[0] in pending;
    |pending|
  }

  /** Every student is counted in exactly one of the two cards: they add up to the total. */
  lemma FaceCountsAddUp(students: seq<Student>)
    ensures WithFaceData(students) + PendingSetup(students) == |students|
  {
    Seqs.FilterSplitsLength(students, HasFaceData(), LacksFaceData());
  }
}
