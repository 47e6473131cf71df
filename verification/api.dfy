/**
 * The request handlers of backend/main.py, over one database session.
 *
 * `Database` holds the four tables as sequences of rows in id order, plus the next
 * value of each id sequence. Each handler that writes commits at its end, so a
 * handler's postcondition is the state after its commit. The pure pieces of the
 * handlers (the preview, the context string, the pending ingestion rows, the
 * stats display) are functions beside the class.
 */
module Api {
  import opened Wrappers
  import opened Seqs
  import opened Models
  import opened RagService

  /** Characters of the decoded upload kept as the assignment's preview. */
  const PreviewLength: nat := 1000

  /** Sources retrieved for an upload's context. */
  const UploadSourceLimit: nat := 2

  const DefaultAuthors: string := "Unknown"
  const DefaultPublicationYear: int := 2023
  const DefaultSourceType: string := "paper"

  /** The stats average shown when no analysis has a score. */
  const NoAnalysesAverage: string := "0.00%"

  const Processing: string := "processing"
  const RegisteredMessage: string := "Student registered successfully"
  const IngestedMessage: string := "Ingestion complete"
  const StatsStatus: string := "Academic System Overview"
  const BearerTokenType: string := "bearer"

  datatype ApiError =
    | EmailAlreadyRegistered
    | IncorrectCredentials
      /** The authenticated email has no student row; reading `user.id` fails. */
    | UnknownUser

  /** One record of the ingestion file; absent keys are `None`. */
  datatype IngestItem = IngestItem(
    title: string,
    authors: Option<string>,
    publicationYear: Option<int>,
    fullText: string,
    sourceType: Option<string>)

  /** A granted login; the access token is signed over `subject` outside this model. */
  datatype LoginGrant = LoginGrant(subject: string, tokenType: string)

  datatype UploadResponse = UploadResponse(jobId: nat, status: string)

  /** What the upload posts to the analysis webhook. */
  datatype WebhookRequest = WebhookRequest(
    assignmentId: nat,
    ragContext: string,
    filename: string,
    fileContent: seq<bv8>)

  datatype SourceSummary = SourceSummary(title: string, author: string, year: int)

  /** `{"title": r.title, "author": r.authors, "year": r.publication_year}`. */
  function Summary(s: AcademicSource): (summary: SourceSummary)
    ensures summary.title == s.title && summary.author == s.authors && summary.year == s.publicationYear
  {
    SourceSummary(s.title, s.authors, s.publicationYear)
  }

  /** The summary of each source, in order. */
  function Summaries(sources: seq<AcademicSource>): (summaries: seq<SourceSummary>)
    ensures |summaries| == |sources|
    ensures forall i :: 0 <= i < |sources| ==> summaries[i] == Summary(sources[i])
  {
    seq(|sources|, i requires 0 <= i < |sources| => Summary(sources[i]))
  }

  datatype Stats = Stats(
    status: string,
    totalProcessedAssignments: nat,
    systemAveragePlagiarism: string,
    ragKnowledgeBaseSize: nat)

  function StatusCode(e: ApiError): (code: nat)
  {
    match e
    case EmailAlreadyRegistered => 400
    case IncorrectCredentials => 400
    case UnknownUser => 500
  }

  function Detail(e: ApiError): (detail: string)
  {
    match e
    case EmailAlreadyRegistered => "Email already registered"
    case IncorrectCredentials => "Incorrect email or password"
    case UnknownUser => "Internal Server Error"
  }

  // ---------------------------------------------------------------------------
  // Students
  // ---------------------------------------------------------------------------

  /** `query(Student).filter(email == ...).first()`: the first student with that email. */
  function StudentByEmail(students: seq<Student>, email: string): (r: Option<Student>)
    ensures r.None? <==> forall s :: s in students ==> s.email != email
    ensures r.Some? ==> r.value in students && r.value.email == email
    ensures r.Some? ==> exists i :: (0 <= i < |students| && students[i] == r.value &&
      forall j :: 0 <= j < i ==> students[j].email != email)
  {
    if students == [] then None
    else if students[0].email == email then Some(students[0])
    else
      var r := StudentByEmail(students[1..], email);
      assert r.Some? ==> exists i :: (0 <= i < |students| && students[i] == r.value &&
        forall j :: 0 <= j < i ==> students[j].email != email) by {
        if r.Some? {
          var i :| 0 <= i < |students[1..]| && students[1..][i] == r.value &&
            forall j :: 0 <= j < i ==> students[1..][j].email != email;
          assert students[i + 1] == r.value;
          assert forall j :: 0 <= j < i + 1 ==> students[j].email != email by {
            forall j | 0 <= j < i + 1 ensures students[j].email != email {
              if j > 0 { assert students[j] == students[1..][j - 1]; }
            }
          }
        }
      }
      r
  }

  // ---------------------------------------------------------------------------
  // Upload
  // ---------------------------------------------------------------------------

  /** `decoded_text[:1000]`: the first min(1000, len) characters. */
  function Preview(text: string): (r: string)
    ensures |r| == Min(PreviewLength, |text|)
    ensures r == text[..|r|]
    ensures |text| <= PreviewLength ==> r == text
  {
    text[..Min(PreviewLength, |text|)]
  }

  lemma PreviewIdempotent(text: string)
    ensures Preview(Preview(text)) == Preview(text)
  {
  }

  /** `f"Source: {s.title} - Content: {s.full_text}"`. */
  function SourceLine(s: AcademicSource): (line: string)
  {
    "Source: " + s.title + " - Content: " + s.fullText
  }

  function SourceLines(sources: seq<AcademicSource>): (lines: seq<string>)
    ensures |lines| == |sources|
  {
    seq(|sources|, i requires 0 <= i < |sources| => SourceLine(sources[i]))
  }

  /** The upload's context: one line per retrieved source, joined with newlines. */
  function ContextString(sources: seq<AcademicSource>): (context: string)
  {
    Join(SourceLines(sources), "\n")
  }

  /** The context is empty exactly when no source was retrieved. */
  lemma ContextEmptyIff(sources: seq<AcademicSource>)
    ensures ContextString(sources) == "" <==> sources == []
  {
    var lines := SourceLines(sources);
    forall i | 0 <= i < |lines| ensures lines[i] != [] {
      assert lines[i][0] == 'S';
    }
    JoinEmptyIff(lines, "\n");
  }

  /** One more retrieved source adds a newline and its line at the end of the context. */
  lemma ContextSnoc(sources: seq<AcademicSource>, s: AcademicSource)
    ensures ContextString(sources + [s]) ==
      if sources == [] then SourceLine(s) else ContextString(sources) + "\n" + SourceLine(s)
  {
    assert SourceLines(sources + [s]) == SourceLines(sources) + [SourceLine(s)];
    JoinSnoc(SourceLines(sources), SourceLine(s), "\n");
  }

  /** The context of one source is its line alone. */
  lemma ContextOfOne(s: AcademicSource)
    ensures ContextString([s]) == "Source: " + s.title + " - Content: " + s.fullText
  {
    assert SourceLines([s]) == [SourceLine(s)];
  }

  // ---------------------------------------------------------------------------
  // Ingestion
  // ---------------------------------------------------------------------------

  function TitlesOf(sources: seq<AcademicSource>): (titles: set<string>)
  {
    set s | s in sources :: s.title
  }

  /** The row ingestion builds for `item`: absent fields take their defaults. */
  function NewSource(id: nat, item: IngestItem, embedding: seq<real>): (row: AcademicSource)
  {
    AcademicSource(
      id, item.title,
      item.authors.GetOr(DefaultAuthors),
      item.publicationYear.GetOr(DefaultPublicationYear),
      None,
      item.fullText,
      item.sourceType.GetOr(DefaultSourceType),
      embedding)
  }

  /** The row for item `j`, added `k`-th: its id is the k-th new id, its embedding from the j-th draw. */
  function RowFor(items: seq<IngestItem>, noise: nat -> nat -> real, firstId: nat, k: nat, j: nat): (row: AcademicSource)
    requires j < |items|
    ensures row.id == firstId + k && row.title == items[j].title && FitsEmbeddingColumn(row.embedding)
  {
    NewSource(firstId + k, items[j], Embed(items[j].fullText, noise(j)))
  }

  /**
   * The rows added to the session by the first `n` items. The title lookup sees only
   * `committed`, the titles stored before the call: with autoflush off, rows added
   * earlier in the same batch are invisible to it. Ids follow the order of adding.
   */
  function PendingRows(
    items: seq<IngestItem>, n: nat, committed: set<string>,
    noise: nat -> nat -> real, firstId: nat): (rows: seq<AcademicSource>)
    requires n <= |items|
    ensures |rows| <= n
    ensures forall k :: 0 <= k < |rows| ==> rows[k].id == firstId + k
    ensures forall r :: r in rows ==> r.title !in committed && FitsEmbeddingColumn(r.embedding)
  {
    if n == 0 then []
    else
      var prev := PendingRows(items, n - 1, committed, noise, firstId);
      var item := items[n - 1];
      if item.title in committed then prev
      else prev + [RowFor(items, noise, firstId, |prev|, n - 1)]
  }

  /** Positions, in order, of the first `n` items whose title is not committed. */
  function FreshIndices(items: seq<IngestItem>, n: nat, committed: set<string>): (idx: seq<nat>)
    requires n <= |items|
    ensures forall k :: 0 <= k < |idx| ==> idx[k] < n && items[idx[k]].title !in committed
    ensures forall j :: 0 <= j < n && items[j].title !in committed ==> j in idx
    ensures forall k, l :: 0 <= k < l < |idx| ==> idx[k] < idx[l]
  {
    if n == 0 then []
    else
      var prev := FreshIndices(items, n - 1, committed);
      if items[n - 1].title in committed then prev else prev + [n - 1]
  }

  /** Row `k` of `rows` is the row built for item `idx[k]`, for every `k`. */
  predicate RowsMatch(
    rows: seq<AcademicSource>, idx: seq<nat>,
    items: seq<IngestItem>, noise: nat -> nat -> real, firstId: nat)
  {
    && |rows| == |idx|
    && forall k :: 0 <= k < |idx| ==> idx[k] < |items| && rows[k] == RowFor(items, noise, firstId, k, idx[k])
  }

  /**
   * Ingestion adds exactly one row per item whose title was not committed, duplicates
   * within the batch included, in item order, with the defaults filled in and title and
   * text copied unchanged.
   */
  lemma {:induction false} PendingRowsAreFreshItems(
    items: seq<IngestItem>, n: nat, committed: set<string>,
    noise: nat -> nat -> real, firstId: nat)
    requires n <= |items|
    ensures RowsMatch(PendingRows(items, n, committed, noise, firstId), FreshIndices(items, n, committed), items, noise, firstId)
  {
    if n > 0 {
      var prev, prevIdx := PendingRows(items, n - 1, committed, noise, firstId), FreshIndices(items, n - 1, committed);
      PendingRowsAreFreshItems(items, n - 1, committed, noise, firstId);
      if items[n - 1].title !in committed {
        RowsMatchAppend(prev, prevIdx, items, noise, firstId, n - 1);
        assert PendingRows(items, n, committed, noise, firstId) == prev + [RowFor(items, noise, firstId, |prev|, n - 1)];
        assert FreshIndices(items, n, committed) == prevIdx + [n - 1];
      } else {
        assert PendingRows(items, n, committed, noise, firstId) == prev;
        assert FreshIndices(items, n, committed) == prevIdx;
      }
    }
  }

  lemma RowsMatchAppend(
    prev: seq<AcademicSource>, prevIdx: seq<nat>,
    items: seq<IngestItem>, noise: nat -> nat -> real, firstId: nat, j: nat)
    requires RowsMatch(prev, prevIdx, items, noise, firstId) && j < |items|
    ensures RowsMatch(prev + [RowFor(items, noise, firstId, |prev|, j)], prevIdx + [j], items, noise, firstId)
  {
  }

  /** A field-by-field reading of `NewSource` for one fresh item. */
  lemma IngestedRowFields(
    items: seq<IngestItem>, committed: set<string>, noise: nat -> nat -> real, firstId: nat, k: nat)
    requires k < |FreshIndices(items, |items|, committed)|
    ensures var rows, j := PendingRows(items, |items|, committed, noise, firstId), FreshIndices(items, |items|, committed)[k];
      && k < |rows|
      && rows[k].title == items[j].title
      && rows[k].fullText == items[j].fullText
      && rows[k].authors == (if items[j].authors.Some? then items[j].authors.value else "Unknown")
      && rows[k].publicationYear == (if items[j].publicationYear.Some? then items[j].publicationYear.value else 2023)
      && rows[k].sourceType == (if items[j].sourceType.Some? then items[j].sourceType.value else "paper")
  {
    PendingRowsAreFreshItems(items, |items|, committed, noise, firstId);
  }

  lemma {:induction false} PendingRowsNoneFresh(
    items: seq<IngestItem>, n: nat, committed: set<string>, noise: nat -> nat -> real, firstId: nat)
    requires n <= |items|
    requires forall j :: 0 <= j < n ==> items[j].title in committed
    ensures PendingRows(items, n, committed, noise, firstId) == []
  {
    if n > 0 {
      PendingRowsNoneFresh(items, n - 1, committed, noise, firstId);
    }
  }

  /**
   * Ingesting the same items again, once the first call has committed, adds nothing:
   * every title is then stored.
   */
  lemma IngestTwiceAddsNothing(
    items: seq<IngestItem>, committed: set<string>,
    noise: nat -> nat -> real, firstId: nat, noise2: nat -> nat -> real, firstId2: nat)
    ensures var after := committed + TitlesOf(PendingRows(items, |items|, committed, noise, firstId));
      PendingRows(items, |items|, after, noise2, firstId2) == []
  {
    var rows := PendingRows(items, |items|, committed, noise, firstId);
    var idx := FreshIndices(items, |items|, committed);
    var after := committed + TitlesOf(rows);
    PendingRowsAreFreshItems(items, |items|, committed, noise, firstId);
    forall j | 0 <= j < |items| ensures items[j].title in after {
      if items[j].title !in committed {
        var k :| 0 <= k < |idx| && idx[k] == j;
        assert rows[k].title == items[j].title;
        assert rows[k] in rows;
      }
    }
    PendingRowsNoneFresh(items, |items|, after, noise2, firstId2);
  }

  /** Two uncommitted items with one title in one batch are both added. */
  lemma DuplicateTitleInBatchAddedTwice(
    a: IngestItem, b: IngestItem, committed: set<string>, noise: nat -> nat -> real, firstId: nat)
    requires a.title == b.title && a.title !in committed
    ensures var rows := PendingRows([a, b], 2, committed, noise, firstId);
      |rows| == 2 && rows[0].title == rows[1].title == a.title
  {
    PendingRowsAreFreshItems([a, b], 2, committed, noise, firstId);
  }

  /** Committing the pending rows keeps source ids unique and every embedding column-sized. */
  lemma CommitKeepsSourceConstraints(stored: seq<AcademicSource>, pending: seq<AcademicSource>, firstId: nat)
    requires UniqueSourceIds(stored) && EmbeddingsFitColumn(stored)
    requires forall s :: s in stored ==> s.id < firstId
    requires forall k :: 0 <= k < |pending| ==> pending[k].id == firstId + k
    requires forall r :: r in pending ==> FitsEmbeddingColumn(r.embedding)
    ensures UniqueSourceIds(stored + pending) && EmbeddingsFitColumn(stored + pending)
    ensures forall s :: s in stored + pending ==> s.id < firstId + |pending|
  {
    var all := stored + pending;
    forall a, b | 0 <= a < b < |all| ensures all[a].id != all[b].id {
      if b >= |stored| {
        assert all[b] == pending[b - |stored|];
        if a >= |stored| {
          assert all[a] == pending[a - |stored|];
        } else {
          assert all[a] == stored[a];
          assert all[a] in stored;
        }
      } else {
        assert all[a] == stored[a] && all[b] == stored[b];
      }
    }
    forall s | s in all ensures s.id < firstId + |pending| {
      if s !in stored {
        var k :| 0 <= k < |pending| && pending[k] == s;
      }
    }
  }

  // ---------------------------------------------------------------------------
  // Stats
  // ---------------------------------------------------------------------------

  /** Positions, in order, of the results whose plagiarism score is not null. */
  function ScoredPositions(results: seq<AnalysisResult>): (pos: seq<nat>)
    ensures forall k :: 0 <= k < |pos| ==> pos[k] < |results| && results[pos[k]].plagiarismScore.Some?
    ensures forall j :: 0 <= j < |results| && results[j].plagiarismScore.Some? ==> j in pos
    ensures forall k, l :: 0 <= k < l < |pos| ==> pos[k] < pos[l]
  {
    if results == [] then []
    else
      var n := |results| - 1;
      var prev := ScoredPositions(results[..n]);
      if results[n].plagiarismScore.Some? then prev + [n] else prev
  }

  /**
   * The non-null plagiarism scores, which SQL `AVG` ranges over: one per scored result,
   * in result order.
   */
  function Scores(results: seq<AnalysisResult>): (scores: seq<real>)
    ensures var pos := ScoredPositions(results);
      && |scores| == |pos|
      && forall k :: 0 <= k < |scores| ==> scores[k] == results[pos[k]].plagiarismScore.value
    ensures scores == [] <==> forall r :: r in results ==> r.plagiarismScore.None?
  {
    if results == [] then []
    else
      var n := |results| - 1;
      var rest := Scores(results[..n]);
      match results[n].plagiarismScore
      case Some(x) => rest + [x]
      case None => rest
  }

  function Sum(xs: seq<real>): (total: real)
  {
    if xs == [] then 0.0 else xs[0] + Sum(xs[1..])
  }

  /** `func.avg(plagiarism_score)`: `None` when there is no score to average. */
  function AveragePlagiarism(results: seq<AnalysisResult>): (avg: Option<real>)
    ensures avg.None? <==> forall r :: r in results ==> r.plagiarismScore.None?
  {
    var scores := Scores(results);
    if scores == [] then None else Some(Sum(scores) / |scores| as real)
  }

  lemma {:induction false} SumBounds(xs: seq<real>, lo: real, hi: real)
    requires forall i :: 0 <= i < |xs| ==> lo <= xs[i] <= hi
    ensures lo * |xs| as real <= Sum(xs) <= hi * |xs| as real
  {
    if xs != [] {
      SumBounds(xs[1..], lo, hi);
    }
  }

  /** Every score is the score of some result, so bounds on the results carry over. */
  lemma ScoresFromResults(results: seq<AnalysisResult>, lo: real, hi: real)
    requires forall r :: r in results && r.plagiarismScore.Some? ==> lo <= r.plagiarismScore.value <= hi
    ensures forall i :: 0 <= i < |Scores(results)| ==> lo <= Scores(results)[i] <= hi
  {
    var scores, pos := Scores(results), ScoredPositions(results);
    forall i | 0 <= i < |scores|
      ensures lo <= scores[i] <= hi
    {
      assert results[pos[i]] in results;
    }
  }

  lemma MeanBounds(total: real, n: real, lo: real, hi: real)
    requires n > 0.0 && lo * n <= total <= hi * n
    ensures lo <= total / n <= hi
  {
    var avg := total / n;
    assert avg * n == total;
    assert (avg - lo) * n >= 0.0;
    assert (hi - avg) * n >= 0.0;
  }

  lemma MeanWithin(xs: seq<real>, lo: real, hi: real)
    requires xs != [] && forall i :: 0 <= i < |xs| ==> lo <= xs[i] <= hi
    ensures lo <= Sum(xs) / |xs| as real <= hi
  {
    SumBounds(xs, lo, hi);
    MeanBounds(Sum(xs), |xs| as real, lo, hi);
  }

  /** When every score lies in [lo, hi], so does their average. */
  lemma AverageWithinScoreRange(results: seq<AnalysisResult>, lo: real, hi: real)
    requires forall r :: r in results && r.plagiarismScore.Some? ==> lo <= r.plagiarismScore.value <= hi
    ensures AveragePlagiarism(results).Some? ==>
      lo <= AveragePlagiarism(results).value <= hi
  {
    var scores := Scores(results);
    if scores != [] {
      ScoresFromResults(results, lo, hi);
      MeanWithin(scores, lo, hi);
    }
  }

  /**
   * `f"{avg:.2f}%"`, or "0.00%" when there is no average; `format2` stands for the
   * two-decimal float formatting.
   */
  function AverageDisplay(avg: Option<real>, format2: real -> string): (shown: string)
    ensures avg.None? ==> shown == NoAnalysesAverage
    ensures |shown| > 0 && shown[|shown| - 1] == '%'
  {
    match avg
    case None => NoAnalysesAverage
    case Some(a) => format2(a) + "%"
  }

  // ---------------------------------------------------------------------------
  // The session
  // ---------------------------------------------------------------------------

  class Database {
    var students: seq<Student>
    var assignments: seq<Assignment>
    var results: seq<AnalysisResult>
    var sources: seq<AcademicSource>
    var nextStudentId: nat
    var nextAssignmentId: nat
    var nextSourceId: nat

    /** The schema's constraints hold, and every id sequence is past the ids it has issued. */
    ghost predicate Valid()
      reads this
    {
      && Consistent(students, assignments, results, sources)
      && (forall s :: s in students ==> s.id < nextStudentId)
      && (forall a :: a in assignments ==> a.id < nextAssignmentId)
      && (forall s :: s in sources ==> s.id < nextSourceId)
    }

    /** A session over the tables as they stand. */
    constructor (
      students0: seq<Student>, assignments0: seq<Assignment>,
      results0: seq<AnalysisResult>, sources0: seq<AcademicSource>,
      nextStudentId0: nat, nextAssignmentId0: nat, nextSourceId0: nat)
      requires Consistent(students0, assignments0, results0, sources0)
      requires forall s :: s in students0 ==> s.id < nextStudentId0
      requires forall a :: a in assignments0 ==> a.id < nextAssignmentId0
      requires forall s :: s in sources0 ==> s.id < nextSourceId0
      ensures Valid()
      ensures students == students0 && assignments == assignments0
      ensures results == results0 && sources == sources0
      ensures nextStudentId == nextStudentId0 && nextAssignmentId == nextAssignmentId0
      ensures nextSourceId == nextSourceId0
    {
      students, assignments, results, sources := students0, assignments0, results0, sources0;
      nextStudentId, nextAssignmentId, nextSourceId := nextStudentId0, nextAssignmentId0, nextSourceId0;
    }

    /**
     * `register`: rejects an email already registered; otherwise adds one student whose
     * student id is the first 8 characters of a fresh 36-character UUID text.
     */
    method Register(email: string, password: string, name: string, hash: string -> string, uuidText: string)
      returns (r: Result<string, ApiError>)
      requires Valid()
      requires |uuidText| == 36
      modifies this
      ensures Valid()
      ensures assignments == old(assignments) && results == old(results) && sources == old(sources)
      ensures nextAssignmentId == old(nextAssignmentId) && nextSourceId == old(nextSourceId)
      ensures (exists s :: s in old(students) && s.email == email) ==>
        && r == Err(EmailAlreadyRegistered)
        && students == old(students) && nextStudentId == old(nextStudentId)
      ensures (forall s :: s in old(students) ==> s.email != email) ==>
        && r == Ok(RegisteredMessage)
        && students == old(students) + [Student(old(nextStudentId), email, hash(password), name, uuidText[..8])]
        && nextStudentId == old(nextStudentId) + 1
    {
      var existing := StudentByEmail(students, email);
      if existing.Some? {
        return Err(EmailAlreadyRegistered);
      }
      var student := Student(nextStudentId, email, hash(password), name, uuidText[..8]);
      students := students + [student];
      nextStudentId := nextStudentId + 1;
      r := Ok(RegisteredMessage);
    }

    /**
     * `login`: succeeds exactly when a student has this email and the password checks
     * against its stored hash; `verify` stands for the password check.
     */
    method Login(username: string, password: string, verify: (string, string) -> bool)
      returns (r: Result<LoginGrant, ApiError>)
      requires Valid()
      ensures r.Ok? <==> exists s :: s in students && s.email == username && verify(password, s.passwordHash)
      ensures r.Ok? ==> r.value == LoginGrant(username, BearerTokenType)
      ensures r.Err? ==> r.error == IncorrectCredentials
    {
      var user := StudentByEmail(students, username);
      if user.None? || !verify(password, user.value.passwordHash) {
        if user.Some? {
          forall s | s in students && s.email == username ensures s == user.value {
            var i :| 0 <= i < |students| && students[i] == s;
            var j :| 0 <= j < |students| && students[j] == user.value;
            assert i == j;
          }
        }
        return Err(IncorrectCredentials);
      }
      r := Ok(LoginGrant(user.value.email, BearerTokenType));
    }

    /**
     * `upload_assignment`: retrieves the two nearest sources for the decoded text,
     * stores an assignment holding its preview, posts the webhook request and answers
     * "processing" with the new id. `postRaises` is whether the post raised; the
     * exception is caught, so nothing here depends on it.
     */
    method Upload(
      email: string, filename: string, fileContent: seq<bv8>, text: string,
      noise: nat -> real, metric: (seq<real>, seq<real>) -> real, postRaises: bool)
      returns (r: Result<UploadResponse, ApiError>, request: Option<WebhookRequest>)
      requires Valid()
      modifies this
      ensures Valid()
      ensures students == old(students) && results == old(results) && sources == old(sources)
      ensures nextStudentId == old(nextStudentId) && nextSourceId == old(nextSourceId)
      ensures StudentByEmail(students, email).None? ==>
        && r == Err(UnknownUser) && request == None
        && assignments == old(assignments) && nextAssignmentId == old(nextAssignmentId)
      ensures StudentByEmail(students, email).Some? ==>
        var id := old(nextAssignmentId);
        && r == Ok(UploadResponse(id, Processing))
        && assignments == old(assignments) +
             [Assignment(id, StudentByEmail(students, email).value.id, filename, Preview(text), None, None, None)]
        && nextAssignmentId == id + 1
        && request == Some(WebhookRequest(
             id, ContextString(SearchSources(sources, text, UploadSourceLimit, noise, metric)),
             filename, fileContent))
    {
      var user := StudentByEmail(students, email);
      var found := SearchSources(sources, text, UploadSourceLimit, noise, metric);
      var context := ContextString(found);
      if user.None? {
        return Err(UnknownUser), None;
      }
      var id := nextAssignmentId;
      assignments := assignments + [Assignment(id, user.value.id, filename, Preview(text), None, None, None)];
      nextAssignmentId := id + 1;
      request := Some(WebhookRequest(id, context, filename, fileContent));
      r := Ok(UploadResponse(id, Processing));
    }

    /**
     * The `/sources` endpoint: title, authors and year of each source `search_sources`
     * returns with its default limit, in the order it returns them.
     */
    method SearchEndpoint(query: string, noise: nat -> real, metric: (seq<real>, seq<real>) -> real)
      returns (found: seq<SourceSummary>)
      ensures found == Summaries(SearchSources(sources, query, DefaultSearchLimit, noise, metric))
      ensures |found| <= DefaultSearchLimit
      ensures forall i :: 0 <= i < |found| ==> exists s :: s in sources && found[i] == Summary(s)
    {
      var nearest := SearchSources(sources, query, DefaultSearchLimit, noise, metric);
      found := Summaries(nearest);
      forall i | 0 <= i < |found| ensures exists s :: s in sources && found[i] == Summary(s) {
        assert nearest[i] in sources && found[i] == Summary(nearest[i]);
      }
    }

    /**
     * `ingest_data`: walks the items, adds a row for each whose title was not stored
     * when the call began, and commits them all at the end.
     */
    method Ingest(items: seq<IngestItem>, noise: nat -> nat -> real) returns (message: string)
      requires Valid()
      modifies this
      ensures Valid()
      ensures sources == old(sources) + PendingRows(items, |items|, TitlesOf(old(sources)), noise, old(nextSourceId))
      ensures nextSourceId == old(nextSourceId) + (|sources| - |old(sources)|)
      ensures students == old(students) && assignments == old(assignments) && results == old(results)
      ensures nextStudentId == old(nextStudentId) && nextAssignmentId == old(nextAssignmentId)
      ensures message == IngestedMessage
    {
      var committed := TitlesOf(sources);
      var pending: seq<AcademicSource> := [];
      var i := 0;
      while i < |items|
        invariant 0 <= i <= |items|
        invariant pending == PendingRows(items, i, committed, noise, nextSourceId)
      {
        var item := items[i];
        if item.title !in committed {
          var embedding := Embed(item.fullText, noise(i));
          pending := pending + [NewSource(nextSourceId + |pending|, item, embedding)];
        }
        i := i + 1;
      }
      CommitKeepsSourceConstraints(sources, pending, nextSourceId);
      sources := sources + pending;
      nextSourceId := nextSourceId + |pending|;
      message := IngestedMessage;
    }

    /** `get_stats`: counts of assignments and sources, and the average score as displayed. */
    method GetStats(format2: real -> string) returns (stats: Stats)
      ensures stats.status == StatsStatus
      ensures stats.totalProcessedAssignments == |assignments|
      ensures stats.ragKnowledgeBaseSize == |sources|
      ensures stats.systemAveragePlagiarism == AverageDisplay(AveragePlagiarism(results), format2)
      ensures (forall r :: r in results ==> r.plagiarismScore.None?) ==>
        stats.systemAveragePlagiarism == NoAnalysesAverage
    {
      var avg := AveragePlagiarism(results);
      stats := Stats(StatsStatus, |assignments|, AverageDisplay(avg, format2), |sources|);
    }
  }
}
