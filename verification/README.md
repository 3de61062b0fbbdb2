# Ordering `CREATE TABLE` batches by their foreign keys

This project is a Dafny model of the SQL helpers in `database_tools.py`.

- **`order_sql_commands`** takes a batch of SQL text. It splits the batch at `;` and recognises each `CREATE TABLE` statement and the tables its `REFERENCES` clauses name. It then orders the tables with a queue-based topological sort. The result is one of three texts:
  - the tables in dependency order, behind a `✅` marker line, with blank lines after every `;`;
  - the original text behind a `🚨` warning that lists the tables it could not place;
  - the input itself, unchanged, when the input does not mention `CREATE TABLE` in any letter case.
- **`optimize_ddl`** appends a heading and a canned note. The note is chosen by the upper-cased usage type.
- **`validate_schema`** puts a fixed comment in front of the DDL.

The model has five modules:

- `PyText` (`py_text.dfy`) holds the Python string operations the code uses: `upper`, `strip`, `split`, `join`, and `replace` with a one-character pattern. Each comes with the laws the proofs need; for example, `split` is the unique inverse of `join`.
- `SqlScanner` (`sql_scanner.dfy`) turns the two regular expressions into explicit scanners:
  - `CREATE TABLE\s+["`]?(\w+)["`]?\s*\(` under `re.search`;
  - `REFERENCES\s+["`]?(\w+)["`]?\s*(?:\(|\s)` under `re.findall`.

  Each pattern is also written as a "shape" over positions in the text. The scanner at a position is proved to agree with the shape in both directions: it captures the only possible name and, for a reference, the match end the backtracking matcher reaches.
- `DdlOrdering` (`ddl_ordering.dfy`) holds the topological sort (lines 152-173) as a method over the `dependencies` map. Python iterates a `set` in an order of its own, so every loop over `all_tables` is modelled as an arbitrary choice. The method is proved against `IsKahnOrder`, which any run satisfies:
  - no table is emitted twice;
  - each emitted table was either seeded or had every one of its references removed by the tables before it (one occurrence per emitted table);
  - no table is left out that would have been admissible.

  The lemmas beside it state what this means for a schema: references come first, and some tables are never placed (self-references, duplicate references, mixes of in-batch and external references, cycles). They also show that every run emits the same set of tables.
- `DdlResolver` (`ddl_resolver.dfy`) holds `order_sql_commands` itself:
  - the fragments of line 133;
  - the catalog of recognised tables, where the last statement for a name wins;
  - the extraction loop (lines 138-150) as a method proved to fill `table_map` and `dependencies` from that catalog;
  - the method `OrderSqlCommands`, which calls the sort. It is proved to return the input when `CREATE TABLE` is absent, and otherwise the outcome for some Kahn order of the recognised tables (every run of the sort emits a Kahn order):
    - the warning listing exactly the unplaced tables, followed by the untouched input; or
    - the `✅` marker, a blank line, then each placed statement with its `;`, separated by two blank lines.
- `DdlNotes` (`ddl_notes.dfy`) holds `optimize_ddl` and `validate_schema`.

Two consequences of the code worth knowing:

- The code keeps a referenced name once per `REFERENCES` clause. Duplicates are not collapsed. A table that references the same table twice is therefore never placed (`DdlOrdering.DuplicateReferenceNeverOrdered`).
- The tables left unplaced are not only those on a cycle. A table that references a table of the batch and also a table outside it is never placed (`DdlOrdering.MixedReferenceNeverOrdered`), and neither is a table that references an unplaced table. All of them are named in the warning.

## Model

| member | source | states |
|---|---|---|
| `DdlResolver.SafeguardMeans` | database_tools.py:129 | The safeguard holds exactly when `CREATE TABLE` occurs in the input in some letter case. |
| `DdlResolver.WarningListsNames` | database_tools.py:180 | The warning line contains the name of every table it is given. |
| `DdlResolver.WarningNotSorted` | database_tools.py:180-183 | A warning answer never equals a sorted answer: the first line's marker differs. |
| `DdlResolver.OrderSqlCommands` | database_tools.py:122-192 | Without `CREATE TABLE` (case-insensitive) the input comes back unchanged. Otherwise the answer is the warning or the sorted layout for some Kahn order of the recognised tables. |
| `DdlResolver.Statements` | database_tools.py:133 | Every fragment is non-empty, stripped and free of `;`. |
| `DdlResolver.StatementsOfJoin` | database_tools.py:133 | Splitting statements joined with `;` gives back exactly those statements. |
| `DdlResolver.KeepStripped` | database_tools.py:133 | The comprehension keeps exactly the non-empty stripped forms of the pieces, each non-empty and stripped, and never more elements than pieces. |
| `DdlResolver.KeepStrippedAppend` | database_tools.py:133 | The comprehension keeps the pieces' order: filtering two runs of pieces is filtering each and concatenating. |
| `DdlResolver.KeepStrippedOne` | database_tools.py:133 | A single piece is kept, stripped, exactly when it does not strip to the empty string. |
| `DdlResolver.Parse` | database_tools.py:139-150 | A recognised statement keeps its text and has an identifier name and identifier references. |
| `DdlResolver.ParseShape` | database_tools.py:139-147 | A statement is recognised exactly when the header pattern fits somewhere in it. Its name is then the capture of the leftmost fit, its text is the statement and its references are the `findall` result. |
| `DdlResolver.Recognise` | database_tools.py:138-141 | There is one parse per statement, and each recognised entry carries its own statement's text. |
| `DdlResolver.Collect` | database_tools.py:143-145 | Each entry is filed under its own name and comes from one of the parsed statements. |
| `DdlResolver.Catalog` | database_tools.py:138-150 | Each recognised table is filed under its own name, with the text of one of the statements. |
| `DdlResolver.CatalogKeys` | database_tools.py:143-144 | A name is in the catalog if and only if some statement's header captures it. |
| `DdlResolver.CatalogLastWins` | database_tools.py:144-145 | When several statements capture the same name, the entry is the last of them. |
| `DdlResolver.CatalogRecognised` | database_tools.py:139-147 | Each catalog entry's text has its name as the header match and its references as the `findall` result. |
| `DdlResolver.Dependencies` | database_tools.py:145-150 | `dependencies` has exactly the recognised tables as keys. |
| `DdlResolver.AppendReferences` | database_tools.py:149-150 | The loop appends the matches, in order, to one table's list and leaves every other entry alone. |
| `DdlResolver.ExtractTables` | database_tools.py:138-150 | After the loop, `table_map` holds each recognised table's statement plus `;`, and `dependencies` holds its references. |
| `DdlResolver.OutputParts` | database_tools.py:183-185 | The marker line comes first, then `table_map` of each emitted table in order. |
| `DdlResolver.MarkerFacts` | database_tools.py:183 | The marker line holds no `;`, starts with `#` and ends with `:`. |
| `DdlResolver.RenderUnstripped` | database_tools.py:187-190 | Before stripping, the text is the layout plus one `\n\n`, or the marker plus `\n` when nothing was emitted. |
| `DdlResolver.LayoutStripped` | database_tools.py:190 | The layout is non-empty and has no whitespace at either end. |
| `DdlResolver.RenderIsLayout` | database_tools.py:187-190 | `Render` (joining, widening each `;` and stripping) gives the marker, a blank line, then each statement with `;`, separated by two blank lines. |
| `DdlResolver.SortedLayout` | database_tools.py:183-190 | The parts built from `table_map` render as the layout of the catalog's statements in emitted order. |
| `DdlResolver.ListSet` | database_tools.py:180 | Iterating a set lists each of its elements exactly once. |
| `DdlResolver.CountTestAgrees` | database_tools.py:177-179 | For a duplicate-free emitted list of known tables, the count test fails exactly when some table is missing. |
| `DdlResolver.CatalogFree` | database_tools.py:133 | No recognised statement holds a `;`. |
| `DdlResolver.WarningOutcome` | database_tools.py:177-180 | When a table is missing, the warning naming the missing tables, followed by the input, is an outcome. |
| `DdlResolver.SortedOutcome` | database_tools.py:182-192 | When every table was emitted, the layout of the statements in emitted order is an outcome. |
| `DdlResolver.Resolved` | database_tools.py:122-192 | An outcome for a Kahn order of the recognised tables is a correct answer for the input. |
| `DdlResolver.WarningResolved` | database_tools.py:177-180 | The warning branch returns a correct answer. |
| `DdlResolver.SortedResolved` | database_tools.py:182-192 | The sorted branch returns a correct answer. |
| `DdlResolver.NoTablesGivesMarker` | database_tools.py:175-192 | If no fragment has a recognised header, the only correct answer is the marker line alone. |
| `DdlResolver.WarningIndependent` | database_tools.py:177-180 | Whether the warning is given does not depend on the set-iteration order of the run. |
| `DdlOrdering.NoneInBatchMeans` | database_tools.py:158 | `all(dep not in all_tables ...)` holds if and only if no reference names a table of the batch. |
| `DdlOrdering.SeedReadyMeans` | database_tools.py:158 | The seeding test holds exactly when no reference names a table of the batch; its `not deps` half adds nothing. |
| `DdlOrdering.RemoveFirst` | database_tools.py:170 | `list.remove` takes exactly one occurrence out of the multiset of names. |
| `DdlOrdering.RemoveFirstIsFirst` | database_tools.py:170 | `list.remove` deletes the first occurrence and keeps the order of the rest. |
| `DdlOrdering.SeedQueue` | database_tools.py:156-159 | The initial queue holds each table passing the seeding test, once, and no other. |
| `DdlOrdering.RescanOne` | database_tools.py:168-173 | One rescan step removes one occurrence of the emitted table from one list. It enqueues that table only when its list became empty and it was not already queued. |
| `DdlOrdering.Rescan` | database_tools.py:167-173 | The rescan after each pop restores the queue invariant relating the lists, the queue and the emitted tables. |
| `DdlOrdering.Exhausted` | database_tools.py:161 | When the queue runs dry, no left-out table could still be admitted. |
| `DdlOrdering.KahnOrderMembers` | database_tools.py:164-165 | Only tables of the batch are emitted. |
| `DdlOrdering.TopoSort` | database_tools.py:152-173 | The emitted list is a Kahn order of the tables. The loop stops after at most as many emissions as there are tables. |
| `DdlOrdering.BatchReferenceNotSeeded` | database_tools.py:156-159 | A table that references a table of the batch is not seeded. |
| `DdlOrdering.ReferencesComeFirst` | database_tools.py:152-173 | A table referenced by an emitted table, when in the batch, is emitted before it. |
| `DdlOrdering.OrderedRefsEmitted` | database_tools.py:152-173 | An emitted table was either seeded or had every reference emitted before it. |
| `DdlOrdering.SelfReferenceNeverOrdered` | database_tools.py:158-172 | A table that references itself is never emitted. |
| `DdlOrdering.DuplicateReferenceNeverOrdered` | database_tools.py:168-172 | A table that references one batch table twice is never emitted. |
| `DdlOrdering.MixedReferenceNeverOrdered` | database_tools.py:156-172 | A table with both an in-batch and an external reference is never emitted. |
| `DdlOrdering.ExternalOnlyOrdered` | database_tools.py:156-159 | A table whose references are all external is always emitted. |
| `DdlOrdering.CycleNeverOrdered` | database_tools.py:152-173 | No table on a reference cycle is emitted. |
| `DdlOrdering.DistinctSubsetCard` | database_tools.py:177 | A duplicate-free list of batch tables is no longer than the batch. |
| `DdlOrdering.KahnOrderIncluded` | database_tools.py:152-173 | Every table that one run emits, any other run also emits. |
| `DdlOrdering.KahnOrderSameTables` | database_tools.py:152-173 | Every run emits the same tables and the same number of them. |
| `SqlScanner.SpaceEnd` | database_tools.py:139 | Greedy `\s*` stops at the first non-whitespace character. |
| `SqlScanner.WordEnd` | database_tools.py:139 | Greedy `\w+` stops at the first non-word character. |
| `SqlScanner.HeaderAt` | database_tools.py:139 | A header match at one position captures an identifier. |
| `SqlScanner.HeaderAtIsShape` | database_tools.py:139 | The header scanner matches at a position exactly when the pattern's shape fits there, and it captures the shape's name. |
| `SqlScanner.RefAt` | database_tools.py:147 | A reference match captures an identifier and ends after its start. |
| `SqlScanner.RefEnd` | database_tools.py:147 | The pattern's tail (optional whitespace, then `(` or one whitespace character) ends after the name and keeps the captured name. |
| `SqlScanner.RefAtIsShape` | database_tools.py:147 | The reference scanner matches exactly when the pattern's shape fits. Its end is the furthest end any fit reaches. |
| `SqlScanner.RefShapeIsRefAt` | database_tools.py:147 | Every fit of the reference shape is found by the scanner, with the same name. |
| `SqlScanner.Leftmost` | database_tools.py:139 | `re.search` finds the leftmost matching position, and nothing matches before it. |
| `SqlScanner.FindHeader` | database_tools.py:139 | The header search fails if and only if the pattern matches nowhere. Otherwise it returns the capture of the leftmost match. |
| `SqlScanner.FindAllRefs` | database_tools.py:147 | Every name `findall` returns is an identifier captured by a reference match in the statement. |
| `PyText.UpperMeans` | database_tools.py:13 | `upper()` keeps the length, turns each ASCII lower-case letter into the same letter in upper case and leaves every other character alone. |
| `PyText.UpperIdempotent` | database_tools.py:13 | Upper-casing twice is upper-casing once. |
| `PyText.TrimStart` | database_tools.py:133 | `lstrip` removes exactly the leading whitespace. |
| `PyText.TrimEnd` | database_tools.py:133 | `rstrip` removes exactly the trailing whitespace. |
| `PyText.Strip` | database_tools.py:133 | `strip` returns a slice of its input with only whitespace before and after it, and the slice has no whitespace at either end. |
| `PyText.StripNoop` | database_tools.py:133 | Stripping a stripped string changes nothing. |
| `PyText.StripPadded` | database_tools.py:190 | Stripping a stripped text followed by whitespace gives the text back. |
| `PyText.Split` | database_tools.py:133 | `split(';')` gives at least one piece, no piece holds `;`, and joining the pieces with `;` gives the input back. |
| `PyText.SplitUnique` | database_tools.py:133 | Any list of `;`-free pieces that joins to the input is its split. |
| `PyText.JoinContains` | database_tools.py:180 | Every part occurs in the joined text. |
| `PyText.JoinSnoc` | database_tools.py:187 | Joining one more part appends the separator and the part. |
| `PyText.ReplaceCharAbsent` | database_tools.py:190 | Replacing a character that does not occur changes nothing. |
| `PyText.ReplaceCharAppend` | database_tools.py:190 | `replace` distributes over concatenation. |
| `DdlNotes.Classify` | database_tools.py:15-28 | The chain picks a dedicated note exactly for the six names and the general note for anything else. |
| `DdlNotes.UsageNoteKnown` | database_tools.py:15-26 | Each of the six names gets its own note. |
| `DdlNotes.UsageNoteGeneral` | database_tools.py:27-28 | The general note is given if and only if the usage type is none of the six names. |
| `DdlNotes.NamesDistinct` | database_tools.py:15-25 | The six names are pairwise different, so the chain's order does not matter. |
| `DdlNotes.NoteNotGeneral` | database_tools.py:16-28 | No dedicated note equals the general note. |
| `DdlNotes.OptimizeDdl` | database_tools.py:8-30 | The DDL is kept unchanged as a prefix, and something is appended. |
| `DdlNotes.OptimizeCaseInsensitive` | database_tools.py:11-13 | Upper-casing the usage type first changes nothing. |
| `DdlNotes.OptimizeKnown` | database_tools.py:8-26 | A usage type naming a processing type, in any letter case, gives the DDL, the `Heading` with the upper-cased name and that type's note (`UsageNote`). |
| `DdlNotes.OptimizeGeneral` | database_tools.py:27-30 | Any other usage type gives the DDL, the `Heading` with the upper-cased name and the general note. |
| `DdlNotes.ValidateSchema` | database_tools.py:32-35 | The fixed banner comes first, then the DDL unchanged. |

## Left out

- `simulate_performance` and `simulate_dml_output` (database_tools.py:38-119 and 196-263) are not part of this model. Neither is the chat application in `schema_designer_app.py`.
- `\w`, `IGNORECASE` and `upper()` are modelled on ASCII only. Python also treats non-ASCII letters and digits as word characters and folds their case. Whitespace (`\s`, `strip`), by contrast, follows Python's full `str.isspace` list.
- The order in which Python iterates a `set` is not modelled. Each loop over a set takes its elements in an arbitrary order. The results are therefore specified for every such order (`IsKahnOrder`, `Enumerates`), not for the one a particular interpreter would use.
- `re.search` and `re.findall` are not modelled in general. Only the two fixed patterns are modelled, as hand-written scanners proved against the patterns' shapes.
- `sample_data_json` is accepted by `validate_schema` and ignored, as in the source. No JSON is parsed.
- `DdlOrdering.TopoSort`: its contract states that the emitted list is a Kahn order. It does not state the first-in, first-out discipline of `ready_to_process`, and `IsKahnOrder` also admits orders that such a queue never produces (with tables `a`, `b` and `c` where only `c` references `a`, the order `a`, `c`, `b`).
- `DdlResolver.Statements`: its own contract states only that each fragment is non-empty, stripped and free of `;`. The exact fragments are stated by `StatementsOfJoin` and the definition, not by this ensures.
- `SqlScanner.FindAllRefs`: its contract states only that every returned name was captured by some reference match. That the list is the sequence of non-overlapping leftmost matches, in order, is its definition and is not restated as an ensures.
- `DdlNotes.OptimizeDdl`: its contract states only that the DDL is a prefix. The exact text appended is stated by `OptimizeKnown` and `OptimizeGeneral`.
