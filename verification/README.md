# Academic Assignment Helper: verified model of the backend core

This project models the logic under the FastAPI backend of the Academic Assignment Helper.
The backend registers and logs in students, and accepts uploaded assignments. For each upload
it retrieves the academic sources nearest to the text and posts the document with that
context to an analysis webhook. It also ingests reference sources, skipping titles already
stored, and reports usage statistics.

Modules (one per source file, plus two small helper modules):

- `models.dfy` (`Models`): the four tables of `backend/models.py` as datatypes. It also states
  the constraints the schema declares: primary keys, the unique student email, the unique
  assignment reference of an analysis result, the two foreign keys and the 768-wide embedding
  column.
- `rag_service.dfy` (`RagService`): `backend/rag_service.py`. It holds the mock embedding, a
  nearest-source search over an abstract distance `metric`, and `chunk_text`.
- `api.dfy` (`Api`): the handlers of `backend/main.py`. A `Database` class holds the tables as
  sequences and the next value of each id sequence. Its methods are `Register`, `Login`,
  `Upload`, `SearchEndpoint`, `Ingest` and `GetStats`. Beside it are the pure pieces: the
  preview, the context string, the rows an ingestion adds, and the stats display.
- `seqs.dfy` (`Seqs`) and `wrappers.dfy` (`Wrappers`): `Min`, `Concat`, `Join`, `Option` and
  `Result`.

Values that come from outside the code become parameters:

- the random draws of the mock embedding (`noise`);
- pgvector's distance (`metric`);
- the password hash and the password check (`hash`, `verify`);
- the UUID text of a new student;
- the two-decimal float formatting (`format2`);
- whether the webhook post raised (`postRaises`).

Two behaviours of the code worth naming:

- An upload with no retrieved source gets an empty context string.
- Among sources at equal distance, search keeps the order in which they are stored. The SQL
  query orders by distance alone, so this is one of the orders it allows.

## Model

| member | source | states |
|---|---|---|
| `Models.UniqueStudentIds` | backend/models.py:10 | Defined as: no two students share an id (the primary key) |
| `Models.UniqueAssignmentIds` | backend/models.py:19 | Defined as: no two assignments share an id (the primary key) |
| `Models.UniqueResultIds` | backend/models.py:30 | Defined as: no two analysis results share an id (the primary key) |
| `Models.UniqueSourceIds` | backend/models.py:42 | Defined as: no two academic sources share an id (the primary key) |
| `Models.UniqueEmails` | backend/models.py:11 | Defined as: no two students share an email (`unique=True`) |
| `Models.AssignmentsReferToStudents` | backend/models.py:20 | Defined as: every assignment's `student_id` is the id of a stored student |
| `Models.OneResultPerAssignment` | backend/models.py:31 | Defined as: no two analysis results name the same assignment (`unique=True`) |
| `Models.ResultsReferToAssignments` | backend/models.py:31 | Defined as: every analysis result's `assignment_id` is the id of a stored assignment |
| `Models.FitsEmbeddingColumn` | backend/models.py:49 | Defined as: the vector has exactly 768 components, the width of `Vector(768)` |
| `Models.EmbeddingsFitColumn` | backend/models.py:49 | Defined as: every stored source's embedding fits the `Vector(768)` column |
| `Models.Consistent` | backend/models.py:8-49 | Defined as the conjunction of the declared constraints: unique primary keys in every table, the unique email, one result per assignment, both foreign keys, and column-sized embeddings |
| `Models.ReferencedAssignmentsCount` | backend/models.py:31 | With `assignment_id` unique, the results name as many distinct assignments as there are results |
| `Models.ResultsAtMostAssignments` | backend/models.py:28-31 | The unique, foreign-keyed `assignment_id` means there are never more analysis results than assignments |
| `RagService.UniformVector` | backend/rag_service.py:13 | The mock vector has exactly the requested number of components |
| `RagService.UniformVectorInRange` | backend/rag_service.py:13 | Each component of the vector is in [-1, 1), as `random.uniform(-1, 1)` gives |
| `RagService.GetEmbedding` | backend/rag_service.py:7-13 | `get_embedding` as written returns 1536 components, whatever the text |
| `RagService.MockEmbeddingMissesColumn` | backend/rag_service.py:13 | No vector from the mock fits the 768-component `embedding` column |
| `RagService.Embed` | backend/models.py:49 | The corrected embedding always fits the `embedding` column |
| `RagService.Distance` | backend/rag_service.py:22-23 | Defined as the `l2_distance` ordering key: `metric` applied to the source's embedding and the query embedding |
| `RagService.SortedByDistance` | backend/rag_service.py:22-23 | Defined as: distances to the query are non-decreasing along the list, the order `ORDER BY` distance yields |
| `RagService.InsertByDistance` | backend/rag_service.py:22-23 | Inserting into a distance-sorted list keeps it sorted and adds exactly that source |
| `RagService.SortByDistance` | backend/rag_service.py:22-23 | `ORDER BY` distance: the result is sorted by distance to the query and is a permutation of the stored sources |
| `RagService.SortedPrefixIsNearest` | backend/rag_service.py:22-24 | In a distance-sorted list, the first k sources and the rest make up the whole, and none of the rest is nearer than one of the first k |
| `RagService.NearestSources` | backend/rag_service.py:22-24 | `ORDER BY ... LIMIT`: returns min(limit, number stored) stored sources, sorted by distance, and no source left out is nearer than one kept |
| `RagService.SearchSources` | backend/rag_service.py:15-26 | `search_sources` returns at most `limit` sources, each one stored, in non-decreasing distance to the query's embedding |
| `RagService.ChunkText` | backend/rag_service.py:27-28 | A chunk size of 0 is an error (zero `range` step); a negative size gives no chunks; a positive size gives the fixed-size slices |
| `RagService.ChunkCount` | backend/rag_service.py:28 | Defined as ceil(n/size), the length of `range(0, n, size)` for a positive `size` |
| `RagService.ChunkStartInText` | backend/rag_service.py:28 | Every `range` offset lies inside the text |
| `RagService.ChunkAt` | backend/rag_service.py:28 | Chunk i is `text[i*size : i*size+size]`, cut at the end of the text; it is non-empty and at most `size` long |
| `RagService.Chunks` | backend/rag_service.py:28 | The comprehension: one chunk `ChunkAt(i)` for each of the ceil(len/size) offsets of `range(0, len, size)` |
| `RagService.ChunkCountStep` | backend/rag_service.py:28 | A text longer than `size` has one chunk more than the text with its first `size` characters removed |
| `RagService.ChunkAtShift` | backend/rag_service.py:28 | Chunk i+1 of a text longer than `size` is chunk i of the text without its first `size` characters |
| `RagService.ChunksOfShortText` | backend/rag_service.py:28 | A non-empty text of at most `size` characters is a single chunk |
| `RagService.ChunksOfLongText` | backend/rag_service.py:28 | For a text longer than `size`, the first chunk is its first `size` characters and the rest are the chunks of the remainder |
| `RagService.ChunksAreChunkList` | backend/rag_service.py:28 | The comprehension equals `ChunkList`, the recursive cut of the text into a head of min(size, len) characters and the chunks of the rest |
| `RagService.ChunkListConcat` | backend/rag_service.py:28 | Concatenating the recursive cut gives back the text |
| `RagService.ChunksConcat` | backend/rag_service.py:27-28 | Concatenating the chunks in order gives back the text exactly |
| `RagService.ChunkShape` | backend/rag_service.py:28 | Chunk i is the text from offset i*size; it is non-empty and at most `size` long, and every chunk but the last is exactly `size` long |
| `RagService.ChunkCountIsCeiling` | backend/rag_service.py:28 | There are ceil(len/size) chunks, and empty text gives no chunks (both directions) |
| `Api.StatusCode` | backend/main.py:47-64 | The HTTP status of each error: 400 for a known email at registration and for bad credentials, 500 when the authenticated email has no student (reading `user.id` at backend/main.py line 89 fails) |
| `Api.Detail` | backend/main.py:47-64 | The `detail` text of each error: "Email already registered", "Incorrect email or password", and the framework's "Internal Server Error" |
| `Api.StudentByEmail` | backend/main.py:45 | The email lookup finds the first student with that email, and finds none exactly when no student has it |
| `Api.Preview` | backend/main.py:91 | The stored preview is the first min(1000, len) characters of the decoded text |
| `Api.PreviewIdempotent` | backend/main.py:91 | Taking the preview of a preview changes nothing |
| `Api.SourceLine` | backend/main.py:85 | Defined as the f-string `Source: {title} - Content: {full_text}` |
| `Api.SourceLines` | backend/main.py:85 | One context line per retrieved source |
| `Api.ContextString` | backend/main.py:85 | Defined as the source lines joined with "\n" |
| `Api.ContextEmptyIff` | backend/main.py:85 | The context string is empty exactly when no source was retrieved |
| `Api.ContextSnoc` | backend/main.py:85 | Each further source adds a newline and its `Source: {title} - Content: {full_text}` line at the end |
| `Api.ContextOfOne` | backend/main.py:85 | The context of a single source is exactly its `Source: ... - Content: ...` line |
| `Api.NewSource` | backend/main.py:141-147 | Defined as the row `AcademicSource(...)` builds: the given id and embedding, title and full text copied, authors, year and type defaulting to "Unknown", 2023 and "paper", and no abstract |
| `Api.RowFor` | backend/main.py:140-147 | The row for item j, added k-th, has the k-th new id, the item's title and an embedding that fits the column |
| `Api.PendingRows` | backend/main.py:137-149 | Ingestion adds at most one row per item. The rows carry consecutive new ids and titles not stored when the call began, and their embeddings fit the column |
| `Api.FreshIndices` | backend/main.py:138-139 | Exactly the item positions whose title was not stored when the call began, in increasing order |
| `Api.PendingRowsAreFreshItems` | backend/main.py:137-149 | One row per uncommitted item, in item order, duplicates within the batch included |
| `Api.RowsMatchAppend` | backend/main.py:137-149 | Appending item j's row and the index j keeps each row the one built for its item |
| `Api.IngestedRowFields` | backend/main.py:141-147 | An ingested row copies title and full text. Absent authors, year and type become "Unknown", 2023 and "paper" |
| `Api.PendingRowsNoneFresh` | backend/main.py:138-139 | When every title is already stored, ingestion adds nothing |
| `Api.IngestTwiceAddsNothing` | backend/main.py:137-151 | After one ingestion commits, ingesting the same items again adds nothing |
| `Api.DuplicateTitleInBatchAddedTwice` | backend/main.py:137-149 | Two new items with one title in a batch are both added: with autoflush off (backend/main.py line 11) the lookup does not see the first |
| `Api.CommitKeepsSourceConstraints` | backend/main.py:151 | Committing the added rows keeps source ids unique and every embedding column-sized |
| `Api.ScoredPositions` | backend/main.py:165 | Exactly the positions of the results whose score is not null, in increasing order |
| `Api.Scores` | backend/main.py:165 | The scores averaged are the non-null ones: score k is the score of the k-th scored result, so each is counted once, in result order. There are none exactly when every result's score is null |
| `Api.Sum` | backend/main.py:165 | Defined as the sum of the values, the numerator of `func.avg` |
| `Api.AveragePlagiarism` | backend/main.py:165 | `AVG` is null exactly when no result has a score |
| `Api.SumBounds` | backend/main.py:165 | The sum of n values within [lo, hi] lies within [n*lo, n*hi] |
| `Api.ScoresFromResults` | backend/main.py:165 | When every non-null score of the results lies in [lo, hi], so does every averaged score |
| `Api.MeanWithin` | backend/main.py:165 | The mean of a non-empty list of values within [lo, hi] lies within [lo, hi] |
| `Api.AverageWithinScoreRange` | backend/main.py:165 | When every score lies in [lo, hi], so does the average |
| `Api.AverageDisplay` | backend/main.py:168 | With no average, the display is "0.00%"; every display ends in "%" |
| `Api.Database.constructor` | backend/main.py:22-27 | A session over tables that satisfy the schema's constraints |
| `Api.Database.Register` | backend/main.py:42-58 | A known email fails with "Email already registered" and nothing changes. Otherwise exactly one student is added: the new id, the email, the password hash, full_name = name and an 8-character student_id. Constraints, unique email included, are kept |
| `Api.Database.Login` | backend/main.py:60-67 | Login succeeds exactly when a student has that email and the password checks against its hash. Otherwise it fails with "Incorrect email or password" |
| `Api.Database.Upload` | backend/main.py:71-109 | Adds one assignment that references the uploader and holds the preview. Posts the new id with the context of the 2 nearest sources. Answers {id, "processing"} whether or not the post raised. An unknown uploader changes nothing |
| `Api.Summary` | backend/main.py:120 | A search result is summarised by its title, authors and publication year |
| `Api.Summaries` | backend/main.py:120 | One summary per source, in the same order |
| `Api.Database.SearchEndpoint` | backend/main.py:116-120 | `/sources` returns the summaries of what `search_sources` gives with its default limit, in that order: at most 3, each the title, authors and year of a stored source |
| `Api.Database.Ingest` | backend/main.py:137-152 | The stored sources become the old ones followed by the rows `PendingRows` gives for the titles stored at the start. Nothing else changes and the constraints are kept |
| `Api.Database.GetStats` | backend/main.py:154-178 | Reports the assignment and source counts and the displayed average, which is "0.00%" when no result has a score |

## Findings

| source | as written | input that shows it | evidently intended | confidence | as-written member | corrected member |
|---|---|---|---|---|---|---|
| backend/rag_service.py:13 | The mock embedding has 1536 components. The `embedding` column at backend/models.py:49 is `Vector(768)` | Any ingested item whose title is not stored, or any search query while some source is stored. Each yields a 1536-component vector that the 768-wide column cannot store or compare with | The mock produces as many components as the column holds, 768 | medium; not executed | `RagService.MockEmbeddingMissesColumn` | `RagService.Embed` |

Ingestion, upload and search in this model use `RagService.Embed`. As written, each of them
would reach pgvector with a vector of the wrong width.

## Left out

- HTTP routing, dependency injection, startup and the creation of the `vector` extension are framework plumbing.
- The ingestion file is not read from disk, and the not-found branch of `ingest_data` is left out (file I/O). The items are a given sequence.
- An ingestion record without a `title` or `full_text` key is not modelled: `IngestItem` always has both. JSON `null` for an optional key is not told apart from an absent key.
- The webhook post is a network call. The model returns the request it would send and ignores the post's outcome, as the code does.
- The password hash, password check, token signing and current-user lookup belong to the `auth` module, which is not part of this model. They are parameters, and a login returns the token subject.
- `Api.Database.Register`: requires a 36-character UUID text, the form `str(uuid.uuid4())` always has. `student_id` is not checked for uniqueness, since the schema declares no such constraint.
- The embedding's random values are the parameter `noise`; only the vector's length and range are stated.
- pgvector's floating-point L2 distance is the abstract `metric`. Among sources at equal distance the model keeps store order, one of the orders `ORDER BY` distance allows; the database may return another.
- The float average uses exact real arithmetic, and `%.2f` formatting is the parameter `format2`.
- UTF-8 decoding with `errors='ignore'` is left out. The caller passes the decoded text alongside the raw bytes.
- `get_analysis` is a constant stub with no logic.
- Timestamps (`created_at`, `uploaded_at`, `analyzed_at`) come from the clock and are not modelled.
- Concurrent sessions, rollback and a commit failing for database reasons are not modelled. Each handler's effect is its committed state.
- Analysis results are written by the external workflow, never by this code. The model takes them as given when a session opens.
- Columns other than the primary keys are nullable in the schema. The model uses `Option` for the plagiarism and confidence scores (Float columns), the abstract of a source, and the assignment fields an upload leaves empty. The foreign keys `assignments.student_id` and `analysis_results.assignment_id` are `nat`, so the model holds no row with a NULL foreign key; the schema allows a result with a NULL `assignment_id`, which `func.avg` would still average.
