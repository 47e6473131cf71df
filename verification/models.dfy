/**
 * The four tables of the service (backend/models.py) as record values, and the
 * constraints the schema declares on them: primary keys, the unique student email,
 * the unique assignment reference of an analysis result, the two foreign keys and
 * the 768-component embedding column.
 */
module Models {
  import opened Wrappers

  /** Width of the `embedding` vector column of `academic_sources`. */
  const EmbeddingDim: nat := 768

  datatype Student = Student(
    id: nat,
    email: string,
    passwordHash: string,
    fullName: string,
    studentId: string)

  /** An uploaded document; `originalText` holds only a preview of it. */
  datatype Assignment = Assignment(
    id: nat,
    studentId: nat,
    filename: string,
    originalText: string,
    topic: Option<string>,
    academicLevel: Option<string>,
    wordCount: Option<int>)

  /** Written by the external analysis workflow, never by this service. JSON columns are kept as their text. */
  datatype AnalysisResult = AnalysisResult(
    id: nat,
    assignmentId: nat,
    suggestedSources: string,
    plagiarismScore: Option<real>,
    flaggedSections: string,
    researchSuggestions: string,
    citationRecommendations: string,
    confidenceScore: Option<real>)

  datatype AcademicSource = AcademicSource(
    id: nat,
    title: string,
    authors: string,
    publicationYear: int,
    abstractText: Option<string>,
    fullText: string,
    sourceType: string,
    embedding: seq<real>)

  function StudentIds(students: seq<Student>): (ids: set<nat>)
  {
    set s | s in students :: s.id
  }

  function AssignmentIds(assignments: seq<Assignment>): (ids: set<nat>)
  {
    set a | a in assignments :: a.id
  }

  /** `students.email` is declared unique. */
  predicate UniqueEmails(students: seq<Student>)
  {
    forall i, j :: 0 <= i < j < |students| ==> students[i].email != students[j].email
  }

  predicate UniqueStudentIds(students: seq<Student>)
  {
    forall i, j :: 0 <= i < j < |students| ==> students[i].id != students[j].id
  }

  predicate UniqueAssignmentIds(assignments: seq<Assignment>)
  {
    forall i, j :: 0 <= i < j < |assignments| ==> assignments[i].id != assignments[j].id
  }

  predicate UniqueResultIds(results: seq<AnalysisResult>)
  {
    forall i, j :: 0 <= i < j < |results| ==> results[i].id != results[j].id
  }

  predicate UniqueSourceIds(sources: seq<AcademicSource>)
  {
    forall i, j :: 0 <= i < j < |sources| ==> sources[i].id != sources[j].id
  }

  /** `analysis_results.assignment_id` is declared unique: at most one result per assignment. */
  predicate OneResultPerAssignment(results: seq<AnalysisResult>)
  {
    forall i, j :: 0 <= i < j < |results| ==> results[i].assignmentId != results[j].assignmentId
  }

  /** Foreign key `assignments.student_id -> students.id`. */
  predicate AssignmentsReferToStudents(students: seq<Student>, assignments: seq<Assignment>)
  {
    forall a :: a in assignments ==> a.studentId in StudentIds(students)
  }

  /** Foreign key `analysis_results.assignment_id -> assignments.id`. */
  predicate ResultsReferToAssignments(assignments: seq<Assignment>, results: seq<AnalysisResult>)
  {
    forall r :: r in results ==> r.assignmentId in AssignmentIds(assignments)
  }

  /** A vector the `embedding` column accepts. */
  predicate FitsEmbeddingColumn(v: seq<real>)
  {
    |v| == EmbeddingDim
  }

  predicate EmbeddingsFitColumn(sources: seq<AcademicSource>)
  {
    forall s :: s in sources ==> FitsEmbeddingColumn(s.embedding)
  }

  /** Every constraint the schema declares, over the four tables together. */
  predicate Consistent(
    students: seq<Student>, assignments: seq<Assignment>,
    results: seq<AnalysisResult>, sources: seq<AcademicSource>)
  {
    && UniqueStudentIds(students)
    && UniqueEmails(students)
    && UniqueAssignmentIds(assignments)
    && AssignmentsReferToStudents(students, assignments)
    && UniqueResultIds(results)
    && OneResultPerAssignment(results)
    && ResultsReferToAssignments(assignments, results)
    && UniqueSourceIds(sources)
    && EmbeddingsFitColumn(sources)
  }

  /** The assignment ids an analysis result points at. */
  function ReferencedAssignments(results: seq<AnalysisResult>): (ids: set<nat>)
  {
    set r | r in results :: r.assignmentId
  }

  lemma {:induction false} ReferencedAssignmentsCount(results: seq<AnalysisResult>)
    requires OneResultPerAssignment(results)
    ensures |ReferencedAssignments(results)| == |results|
  {
    if results != [] {
      var rest := results[1..];
      var head := results[0].assignmentId;
      forall i, j | 0 <= i < j < |rest| ensures rest[i].assignmentId != rest[j].assignmentId {
        assert rest[i] == results[i + 1] && rest[j] == results[j + 1];
      }
      ReferencedAssignmentsCount(rest);
      forall k | 0 <= k < |rest| ensures rest[k].assignmentId != head {
        assert rest[k] == results[k + 1];
      }
      ReferencedAssignmentsCons(results);
      assert head !in ReferencedAssignments(rest);
    }
  }

  lemma ReferencedAssignmentsCons(results: seq<AnalysisResult>)
    requires results != []
    ensures ReferencedAssignments(results) == {results[0].assignmentId} + ReferencedAssignments(results[1..])
  {
    assert results == [results[0]] + results[1..];
  }

  lemma {:induction false} AssignmentIdsBound(assignments: seq<Assignment>)
    ensures |AssignmentIds(assignments)| <= |assignments|
  {
    if assignments != [] {
      var rest := assignments[1..];
      AssignmentIdsBound(rest);
      assert assignments == [assignments[0]] + rest;
      assert AssignmentIds(assignments) == {assignments[0].id} + AssignmentIds(rest);
    }
  }

  /**
   * Because each result names a distinct, existing assignment, there are never more
   * analysis results than assignments.
   */
  lemma ResultsAtMostAssignments(assignments: seq<Assignment>, results: seq<AnalysisResult>)
    requires OneResultPerAssignment(results)
    requires ResultsReferToAssignments(assignments, results)
    ensures |results| <= |assignments|
  {
    ReferencedAssignmentsCount(results);
    AssignmentIdsBound(assignments);
    assert ReferencedAssignments(results) <= AssignmentIds(assignments);
    SubsetCardinality(ReferencedAssignments(results), AssignmentIds(assignments));
  }

  lemma SubsetCardinality(a: set<nat>, b: set<nat>)
    requires a <= b
    ensures |a| <= |b|
  {
    assert b == a + (b - a);
  }
}
