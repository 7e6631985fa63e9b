# Transcript analysis: a Dafny model

This project models the two cores of the transcript-analysis pipeline.

`compact.py` reads a Zoom-style WebVTT caption file into `Segment`s. It then
merges each run of same-speaker segments into one chunk and writes a header
line in front of every chunk.

`helpers.py` reads that compacted file back. It:

- splits the file into chunks at header lines;
- finds the first question in each chunk, with `PartOfSpeech.is_question`;
- records `[asker, askee, [question]]` rows;
- turns the rows into `asked_question` / `answered_question` edges between
  speakers;
- picks the most active speakers and the pair with the most back-and-forth.

The model has five modules:

- `Wrappers`: `Option` and `Result`.
- `PyStrings`: the Python string operations the code relies on (`strip`,
  `lower`, `split`, `split(c, 1)`, `in`, `int`, `str`), with their
  round-trips.
- `Compact` (`compact.dfy`):
  - `class Segment` with its fields;
  - `method Segments`, the line loop that mutates the current segment;
  - `method Compact`, the run merger that mutates each run's first segment in
    place.
  
  Both methods are proved against pure functions: `Run`/`Step` for the
  parser and `Compacted`/`Starts`/`MergeRun` for the merger. The
  properties of those functions are proved as lemmas.
- `Helpers` (`helpers.dfy`):
  - `is_question` as a pure predicate over a `PartOfSpeech` value that
    carries the classifier and the first-token function as parameters;
  - the sentence split and row of `parse_text`;
  - header-line recognition.
- `Graph` (`graph.dfy`):
  - `class GraphAnalyzer`, whose `qna`, `vertices` and `edges` fields stand
    for `self.q_n_a` and the graph store;
  - its constructor loop, `ParseText`, `PopulateGraph` and `RunAnalytics`,
    each proved against a pure function (`Scan`, `ParseEntry`,
    `VerticesUpTo`/`EdgesUpTo`, `Analytics`);
  - the selection functions and their lemmas.

The model keeps these behaviours of the code:

- When `int()` fails, the line reported in the error is the *stripped*
  line. `compact.py:40` reassigns `line` before the handler prints it.
- The fallback test of `is_question` breaks out of its clause loop at the
  first non-blank `.`-clause that ends in `?` or starts with a helping verb,
  so one such clause makes the text a question (`helpers.py:74-81`).
- A row is recorded even when the asker is the empty string. This
  happens for text before the first header (`helpers.py:101`, `109`),
  because `prevSpeaker` starts empty and is passed on unchecked.
- Inside `parse_text` the `?` test can never fire. Every piece has been
  split at `?` already (`PieceQuestion`).
- `run_analytics` raises when no pair of distinct speakers scores above 0:
  `maxSpeaker1` is then still the empty string, and `maxSpeaker1.get`
  fails (`helpers.py:181`, `211`). The model returns `None` there.
- The back-and-forth sum counts `answered(s2→s1)` twice and never counts
  `asked(s2→s1)` (`helpers.py:189-192`). It is modelled as written
  (`Score`, `ScoreIgnoresReverseQuestion`, `ScoreDoublesReverseAnswer`).

## Model

| member | source | states |
|---|---|---|
| Compact.Segment.constructor | compact.py:13-19 | A new segment has `num` 0, no speaker and empty `start`, `end` and `text`. |
| Compact.Segment.Time | compact.py:22-23 | `time` succeeds exactly when the line splits on ` --> ` into two parts, and sets `start`/`end` to them. Otherwise it fails and changes nothing. |
| Compact.SplitTiming | compact.py:23 | A successful split into two parts gives back the line when rejoined with ` --> `. |
| Compact.FillFields | compact.py:42-54 | The `if/elif` chain fills the first unset field (`num`, then `start`/`end`, then `speaker`/`text`) or reports the error `Fill` gives. |
| Compact.FlushSegment | compact.py:37-39 | The head of each iteration: the output and segment match `Flush` of the old ones, and a new segment is fresh. |
| Compact.ProcessLine | compact.py:36-57 | One loop iteration, mutating the segment in place, matches `Step` on the old state: same error, or same new state. |
| Compact.Segments | compact.py:32-58 | `segments` raises exactly when `ParseSegments` fails, with the same stripped line. Otherwise it returns distinct, freshly allocated segments whose values are `ParseSegments`' output. |
| Compact.RunFromSnoc | compact.py:35 | The loop over `lines + [raw]` is the loop over `lines` followed by one `Step` on `raw`. |
| Compact.StepFills | compact.py:37-54 | A line first flushes. If it strips to nothing or to `WEBVTT` it changes nothing else; otherwise it fills the flushed segment. |
| Compact.RunFailureSticks | compact.py:55-57 | Once a line has raised, `segments` raises that same error whatever lines follow. |
| Compact.FlushIdempotent | compact.py:37-39 | Flushing twice is flushing once. |
| Compact.SkippedLineInvisible | compact.py:40-41 | A blank or `WEBVTT` line only flushes; the next line behaves as if the skipped line were absent. |
| Compact.RunFromAppend | compact.py:35-57 | The loop over `a + b` is the loop over `a` continued over `b`, unless `a` already raised. |
| Compact.SkippedLineRemovable | compact.py:40-41 | Deleting a skipped line that has a successor does not change the result of the whole loop. |
| Compact.IndexLine | compact.py:42-43 | With `num` unset, a meaningful line that `int()` rejects raises with that line; otherwise it sets `num`. |
| Compact.ZeroIndexIgnored | compact.py:15 | An index of `0` leaves `num` falsy: the state is unchanged, and the next line is read as an index again. |
| Compact.TimingLine | compact.py:44-45 | The timing line must split on ` --> ` into exactly two parts, which become `start` and `end`; any other count raises. |
| Compact.TimingWithoutArrow | compact.py:22-23 | A timing line without ` --> ` raises with that line. |
| Compact.SpeakerLine | compact.py:46-54 | The speaker line splits at its first `:` into an unstripped speaker and a stripped text. Without a colon the speaker is `OMITTED` and the whole line is the text. |
| Compact.StepEmits | compact.py:37-39 | A line emits at most the segment that was complete before it, appended after the earlier ones. |
| Compact.RunDone | compact.py:25-26 | Every emitted segment is complete. The output of each prefix of the input is a prefix of the final output. |
| Compact.RunDoneComplete | compact.py:37-38 | Every segment `segments` returns has a non-zero `num`, a non-empty speaker and a non-empty text. |
| Compact.LastSegmentDropped | compact.py:35-39 | The segment completed by the last line is not returned; one more skipped line would emit it. |
| Compact.StuckIgnoresRest | compact.py:46-54 | A segment whose speaker line left `text` empty never completes, and every later line is ignored. |
| Compact.AfterCompleteIndex | compact.py:37-43 | After a complete segment the next meaningful line is read as an index, so a second payload line raises. |
| Compact.Compacted | compact.py:61-75 | `compact` returns no more chunks than segments, and none exactly for no segments. |
| Compact.Starts | compact.py:66-73 | Each run start is an index into the segments. |
| Compact.StartsAreRunStarts | compact.py:66-73 | The run starts are exactly the indices where the speaker changes, in increasing order, starting at 0. |
| Compact.MergeRunSnoc | compact.py:68-70 | Merging one more same-speaker segment appends its text after a newline and takes its `end`. |
| Compact.StartsSnoc | compact.py:68-73 | One more segment opens a new run exactly when its speaker differs from the previous one. |
| Compact.ClosedRunKept | compact.py:66-73 | A run that one more segment leaves closed keeps its start, its end and its segments. |
| Compact.AbsorbExtendsRun | compact.py:68-70 | A same-speaker segment extends the last chunk, which stays the merge of its run. |
| Compact.AbsorbStartsRun | compact.py:71-73 | A segment with a new speaker closes the chunk and opens a new one. |
| Compact.CompactedLastSpeaker | compact.py:66-74 | The last chunk has the last segment's speaker. |
| Compact.CompactedRuns | compact.py:66-74 | The k-th chunk is the k-th maximal run's first segment, with the run's last `end` and its texts joined by `"\n"` in order. |
| Compact.AbsorbAlternates | compact.py:66-74 | Absorbing a segment keeps neighbouring chunks' speakers distinct. |
| Compact.CompactedAlternates | compact.py:66-74 | Adjacent chunks always have different speakers. |
| Compact.CompactedFixpoint | compact.py:61-75 | A sequence whose neighbours already differ in speaker is returned unchanged. |
| Compact.CompactIdempotent | compact.py:61-75 | Re-compacting the output of `compact` changes nothing. |
| Compact.AbsorbSegment | compact.py:68-73 | The loop body merges a same-speaker segment into the open chunk in place, or closes the chunk and opens the segment. Either way it matches `Absorb`. |
| Compact.StartsGrow | compact.py:67-73 | How the run starts and `Compacted` of a prefix grow by one segment. |
| Compact.CompactStep | compact.py:67-73 | One loop iteration keeps the loop invariant `CompactState`. |
| Compact.CompactStateInit | compact.py:63-66 | The invariant holds after `chunk = segs[0]`. |
| Compact.CompactStateDone | compact.py:74-75 | At the end, the chunks are the run heads with `Compacted` values, and every other segment is unchanged. |
| Compact.NonHeadsUntouched | compact.py:66-74 | A segment at no run start keeps its value. |
| Compact.Compact | compact.py:61-75 | `compact` returns exactly the first segment of each maximal run, in order, holding `Compacted` of the input. It mutates only those run heads. |
| PyStrings.StripLeft | compact.py:40 | `lstrip` returns a string no longer than its input that does not start with whitespace. |
| PyStrings.StripLeftSlice | compact.py:40 | `lstrip` drops exactly a whitespace prefix. |
| PyStrings.StripRight | compact.py:40 | `rstrip` returns a string no longer than its input that does not end with whitespace. |
| PyStrings.StripRightSlice | compact.py:40 | `rstrip` drops exactly a whitespace suffix. |
| PyStrings.Strip | compact.py:40 | `strip` returns a string no longer than its input with no whitespace at either end. |
| PyStrings.StripSlice | compact.py:40 | `strip` returns the slice left after dropping whitespace at both ends. |
| PyStrings.StripTrimmed | compact.py:54 | Stripping an already trimmed string changes nothing. |
| PyStrings.StripIdempotent | compact.py:54 | Stripping twice is stripping once. |
| PyStrings.LowerChar | helpers.py:63 | Lower-casing keeps whitespace, `.` and `?` as they are. |
| PyStrings.Lower | helpers.py:63 | `lower` keeps the length and leaves no upper-case letter. Only upper-case letters change, each to its lower-case letter. |
| PyStrings.SplitOn | helpers.py:73 | Splitting yields one more piece than there are separators, and no piece holds a separator. |
| PyStrings.JoinCons | helpers.py:73 | Joining a non-empty list puts the separator between the head and the joined tail. |
| PyStrings.SplitOnJoin | helpers.py:73 | `sep.join(s.split(sep)) == s` for a one-character separator. |
| PyStrings.SplitOnNone | helpers.py:73 | A string with no separator splits into itself alone. |
| PyStrings.SplitOnFirst | helpers.py:114 | The text before the first separator is the first piece. |
| PyStrings.SplitStrHead | compact.py:23 | The first piece of `split(' --> ')` is a prefix of the line. |
| PyStrings.SplitStrPieces | compact.py:23 | No piece of `split(' --> ')` contains the separator: the line is cut at every occurrence. |
| PyStrings.SplitStrJoin | compact.py:23 | Joining the pieces of `s.split(sep)` with `sep` gives `s` back. |
| PyStrings.SplitStrAbsent | compact.py:23 | Splitting on an absent separator gives the string back whole. |
| PyStrings.SplitFirst | compact.py:47 | `split(':', 1)` gives two parts exactly when `:` occurs. They rejoin to the line, and the first part has no `:`. |
| PyStrings.SplitFirstUnique | compact.py:47 | The split point is the first `:`. |
| PyStrings.ContainsAt | helpers.py:68 | A substring occurring at any position is found by `in`. |
| PyStrings.DigitChar | compact.py:88 | Each digit value has a digit character with that value. |
| PyStrings.NatToString | compact.py:88 | `str(n)` of a natural number is a non-empty run of digits. |
| PyStrings.NatToStringValue | compact.py:88 | The digits of `str(n)` have value `n`. |
| PyStrings.AllDigitsRun | compact.py:43 | A non-empty string of digits is a digit run, which `int()` accepts. |
| PyStrings.ParseIntUnsigned | compact.py:43 | `int()` of an unsigned digit run is its decimal value. |
| PyStrings.ParseIntNegated | compact.py:43 | `int()` of `-` followed by a digit run is the negated value. |
| PyStrings.ParseIntToString | compact.py:43 | `int(str(n)) == n`. |
| Helpers.LowerIsLower | helpers.py:63 | `lower` yields a lower-case string. |
| Helpers.StripKeepsLower | helpers.py:63 | Stripping keeps a string lower-case. |
| Helpers.Normalize | helpers.py:63 | `question.lower().strip()` is lower-case, trimmed and no longer than the question. |
| Helpers.LowerFixed | helpers.py:63 | Lower-casing a lower-case string changes nothing. |
| Helpers.NormalizeIdempotent | helpers.py:63 | Normalising twice is normalising once. |
| Helpers.AnyPattern | helpers.py:66-70 | The pattern loop with `break` answers whether some pattern is a substring. |
| Helpers.AnyClause | helpers.py:72-81 | The clause loop with `break` answers whether some clause signals a question. |
| Helpers.IsQuestion | helpers.py:57-84 | `is_question` holds exactly when the classifier labels the normalised string `whQuestion`/`ynQuestion`, or some pattern is a substring of it, or some non-blank `.`-clause ends in `?` or starts with a helping verb. |
| Helpers.IsQuestionNormalized | helpers.py:63-64 | `is_question` depends only on `lower().strip()` of its argument. |
| Helpers.PatternMakesQuestion | helpers.py:66-70 | Any pattern occurring in the normalised string makes it a question. |
| Helpers.WhoIsAPattern | helpers.py:42-45 | The pattern list has 27 entries, and "who" is among them. |
| Helpers.NormalizeWhole | helpers.py:63 | "Whole" normalises to "whole". |
| Helpers.SubstringNotWord | helpers.py:66-70 | Patterns match as substrings, not words: "Whole" is a question because it contains "who". |
| Helpers.PieceQuestion | helpers.py:72-81 | On a piece without `.` or `?`, only the classifier, a pattern or a leading helping verb can make it a question. |
| Helpers.PieceClauses | helpers.py:72-81 | A trimmed text without `.` or `?` is one clause, which signals only through its first token. |
| Helpers.NormalizeKeepsOut | helpers.py:63 | Normalising brings in no `.` or `?`. |
| Helpers.Sentences | helpers.py:114 | `re.split` on `.`, `?`, `!` yields at least one piece, and no piece holds a delimiter. |
| Helpers.FirstWhere | helpers.py:119-122 | The loop with `break` finds the first passing piece, or reports that none passes. |
| Helpers.FirstWhereUnique | helpers.py:119-122 | The first passing index is the only answer. |
| Helpers.FirstWhereExtend | helpers.py:119-122 | Scanning one more piece either stops at it or goes on finding nothing. |
| Helpers.FirstWhereFound | helpers.py:119-122 | The first passing piece of a prefix is the first overall. |
| Helpers.ParseEntryMeaning | helpers.py:113-125 | `parse_text` records a row exactly when some non-blank piece is a question. The row is `[prevSpeaker, currSpeaker, [q]]`, where `q` is a stripped, non-empty piece without delimiters that `is_question` accepts. |
| Helpers.ParseEntryAt | helpers.py:119-125 | The recorded question is the first candidate piece, stripped, in its original case. |
| Helpers.LeadingDigits | helpers.py:105 | The digit prefix ends at the first non-digit. |
| Helpers.LeadingDigitsAreDigits | helpers.py:105 | Everything in the digit prefix is a digit. |
| Helpers.LeadingDigitsOf | helpers.py:105 | Digits followed by a non-digit form exactly the digit prefix. |
| Helpers.StripLeadingSpace | helpers.py:108 | A leading space does not change `strip`. |
| Helpers.HeaderRoundTrip | helpers.py:105-108 | A header that `compact.py` writes for `num` ≥ 1 and a speaker without `.` matches `^\d+[.]`, and `split(".")[1].strip()` returns the stripped speaker. |
| Graph.Entries | helpers.py:124-125 | One `parse_text` call appends at most one row, and none exactly when nothing was asked. |
| Graph.ScanPlain | helpers.py:106 | Lines that are not headers only extend the gathered text, each stripped and followed by a space. |
| Graph.ScanUnfold | helpers.py:104 | The loop over `lines` is one more pass after the loop over all but the last line. |
| Graph.PlainLine | helpers.py:106 | A non-header line appends its stripped text and a space. |
| Graph.HeaderStep | helpers.py:107-110 | A header line hands the gathered text to `parse_text` with the previous speaker as asker and the header's speaker as askee, then resets. |
| Graph.TrailingTextIgnored | helpers.py:103-110 | Text after the last header line is never passed to `parse_text`. |
| Graph.BetweenHeaders | helpers.py:104-110 | The text between two consecutive headers is examined once, with the earlier header's speaker as asker and the later one's as askee. |
| Graph.FirstChunk | helpers.py:101-110 | The text before the first header is examined with `""` as asker. |
| Graph.GraphAnalyzer.constructor | helpers.py:99-110 | `__init__` leaves in `q_n_a` the rows `Scan` collects, and an empty graph. |
| Graph.GraphAnalyzer.ParseText | helpers.py:113-125 | `parse_text` appends exactly the row `ParseEntry` gives and nothing else. |
| Graph.EdgesStep | helpers.py:146-161 | The edges of one more row come after those already upserted. |
| Graph.VerticesStep | helpers.py:151-156 | One more row upserts its asker, then its askee. |
| Graph.UpsertsPair | helpers.py:153-156 | Upserting two more vertices is two `AddVertex` steps. |
| Graph.AskedRowsAppend | helpers.py:158 | The rows read back from asked edges distribute over concatenation. |
| Graph.AskedRowsAt | helpers.py:158 | Each row yields exactly one asked edge, which carries the row itself. |
| Graph.AskedEdgesAreRows | helpers.py:146-158 | `populate_graph` loses and invents no question: the asked edges, read back in order, are the rows of `q_n_a`. |
| Graph.AnsweredAt | helpers.py:160-161 | Row `i` yields an answered edge from askee to asker exactly when a next row exists and the askee asks it. |
| Graph.AnsweredEdges | helpers.py:160-161 | There is an answered edge `b→a` exactly when some row where `a` asks `b` is followed by a row where `b` asks. |
| Graph.UpsertsDistinct | helpers.py:153-156 | Upserting never duplicates a vertex. |
| Graph.UpsertsExtend | helpers.py:153-156 | Upserting keeps existing vertices at the front. |
| Graph.UpsertsMembers | helpers.py:153-156 | Upserting adds exactly the upserted vertices. |
| Graph.SpeakersOfRows | helpers.py:147-148 | The upserted names are exactly the askers and askees of the rows. |
| Graph.VerticesOfRows | helpers.py:146-156 | The vertices are those already present followed by the rows' speakers, each exactly once. |
| Graph.CountTypeAppend | helpers.py:205-206 | Edge counts of a type add up over concatenation. |
| Graph.CountTypeAt | helpers.py:158-161 | Each row yields exactly one asked edge and at most one answered edge, and none when it is the last row. |
| Graph.EdgeTotals | helpers.py:146-161 | There are as many asked edges as rows, and fewer answered edges than rows, because the last row is never answered. |
| Graph.GraphAnalyzer.PopulateGraph | helpers.py:144-161 | `populate_graph` upserts the rows' speakers and appends exactly the edges `EdgesUpTo` lists. |
| Graph.MaxScan | helpers.py:167-179 | The running maximum is at index 0 or at an index already scanned. |
| Graph.FirstMaximum | helpers.py:167-179 | The running maximum holds the first index with the largest count; when all counts are 0 that is the first vertex. |
| Graph.ScoreIgnoresReverseQuestion | helpers.py:189-192 | A question `b` asked `a` adds nothing to the score of `(a, b)`. |
| Graph.ScoreDoublesReverseAnswer | helpers.py:189-192 | An answer `b` gave `a` adds 2 to the score of `(a, b)`. |
| Graph.Consider | helpers.py:196-199 | The held score becomes the larger of itself and the pair's weight. The pair is taken exactly when its weight is strictly larger; on a tie or a smaller weight nothing changes. |
| Graph.Row | helpers.py:186-199 | The inner loop only ever holds pairs of vertex indices. |
| Graph.Rows | helpers.py:185-199 | The nested loops only ever hold pairs of vertex indices. |
| Graph.ConsiderStep | helpers.py:196-199 | One inner iteration keeps "first pair with the strictly largest positive weight so far". |
| Graph.RowSummarises | helpers.py:186-199 | The inner loop keeps that invariant across a row. |
| Graph.NextRow | helpers.py:185 | Finishing a row is starting the next. |
| Graph.RowsSummarise | helpers.py:185-199 | The nested loops keep that invariant to the end. |
| Graph.BestPairOf | helpers.py:181-199 | The back-and-forth pair is a pair of vertex indices. |
| Graph.BestPair | helpers.py:181-199 | The chosen pair is the first pair of distinct vertices, in loop order, with the strictly largest positive score. No pair is chosen exactly when every such pair scores 0. |
| Graph.FirstWithMostOf | helpers.py:167-179 | The running maximum names the first vertex with the largest out-degree. |
| Graph.AnalyticsMeaning | helpers.py:164-211 | `run_analytics` fails on an empty graph, and when every pair of distinct speakers scores 0. Otherwise it reports the speaker and edge counts, the first speakers with the most questions asked and answered, and the back-and-forth pair. |
| Graph.MostActive | helpers.py:167-179 | The first loop ends holding the `MaxScan` of asked and of answered counts. |
| Graph.BackAndForthRow | helpers.py:186-199 | The inner loop ends holding `Row` of the weights. |
| Graph.MostBackAndForth | helpers.py:181-199 | The nested loops end holding `BestPairOf`. |
| Graph.GraphAnalyzer.RunAnalytics | helpers.py:164-211 | `run_analytics` returns exactly `Analytics` of the vertices and edges: `None` where `vertices[0]` raises on an empty graph, or where `maxSpeaker1.get` raises because no pair scored above 0. |

## Left out

- File I/O:
  - `main.py` (configuration, file check, orchestration) is not part of this model.
  - The file handling of `main_compact` (`compact.py:78-87`) is left out. The header format of line 88 is modelled as `Compact.HeaderLine`.
  - Files are sequences of lines.
- The nltk classifier and tokenizer are parameters of `PartOfSpeech`:
  - the Naive Bayes training in `PartOfSpeech.__init__` (`helpers.py:28-37`) is left out, because it is a foreign library;
  - so is `dialogue_act_features`;
  - `word_tokenize(s)[0]` is the `firstToken` parameter.
- TigerGraph:
  - The connection, token and schema creation are left out (`helpers.py:90-98`, `128-141`).
  - The store is an in-memory vertex sequence and edge sequence.
  - `getVertices` order is taken as first-insertion order.
  - Each upsert appends an edge; whether the store deduplicates upserted edges is library behaviour outside this model.
  - The `try/except` around the counts (`helpers.py:188-194`) only guards remote calls, and the in-memory counts cannot fail.
- `Graph.GraphAnalyzer.PopulateGraph`: `currSpeaker not in vertices` compares a string with vertex records, so the code always upserts. An upsert of an existing vertex changes nothing, so the model adds a vertex only when it is absent.
- `Graph.GraphAnalyzer.PopulateGraph`: it gathers the upserts in local sequences and assigns the fields once at the end. The resulting state is the same as updating in place.
- `Graph.Edge`: the edge text is the question list itself, not its Python `str()` rendering.
- The printout of `run_analytics` (`helpers.py:202-211`) is left out, including its swapped "answered/asked" counts. `Report` returns the values instead.
- `Graph.GraphAnalyzer.RunAnalytics`: vertices are compared by name, not as vertex records.
- `Graph.MostBackAndForth`: the two loop nests are separate methods. A pair of equal vertices is skipped by giving it weight 0, which has the same effect under the strict `<` from 0.
- `MiscAnalysis` (word cloud, frequency plot, collocations, sentiment) and `durationsSpoken` (`helpers.py:216-332`) are left out. They use plotting libraries and floating-point arithmetic.
- Character classes:
  - `strip` removes the whitespace characters of the Latin-1 range;
  - `lower` maps only ASCII letters;
  - `\d` and `int()` accept only ASCII digits.
  
  Unicode whitespace, case mappings and digits beyond these are not modelled.
- `Helpers.HeaderRoundTrip`: it holds only for speakers without `.`. A `.` in a speaker name truncates the name read back, as the code does.
