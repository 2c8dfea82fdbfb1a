# NL2SQL core, modelled in Dafny

This project models the deterministic core of NL2SQL, a text-to-SQL system.
A user uploads DDL scripts and SQLite files. Each `CREATE TABLE` statement is
reduced to a table skeleton (name, column names, column types). A language
model describes every table and column, and these intents go into a metadata
store. At query time the tables whose intent is most similar to the question
are ranked. They are described as schema blocks and rendered into a prompt.
The same prompt renderer builds a fine-tuning dataset from Spider questions.
That dataset is split into train, validation and test parts.

Modules, one per concern:

- `Wrappers` (`wrappers.dfy`): `Option` and `Result`.
- `Strings` and `Seqs` (`strings.dfy`, `seqs.dfy`): the Python built-ins the
  source relies on, written out with their edge cases. These are `strip`,
  `rstrip(chars)`, `split(sep)`, `split(sep, 1)`, `split()`, `splitlines()`,
  `find`, `in`, `join`, ASCII `lower`/`upper`, string `<`, slices with
  negative and out-of-range bounds, `zip`, dicts built from pairs (a later
  key wins), and `SELECT DISTINCT` in first-seen order.
- `DdlParser` (`ddl_parser.dfy`): `extract_schema_metadata`, over an
  abstract token stream.
- `IntentInfer` (`intent_infer.dfy`): the intent prompt and the
  post-processing of the model's answer in `generate_intents`.
- `MetadataStore` (`metadata_store.dfy`): the `metadata` table as a sequence
  of rows, with the inserts and lookups of `app/utils.py`.
- `Retrieval` (`retrieval.dfy`): ranking, truncation to `top_k`, and the
  schema descriptors of `build_semantic_info_dict`.
- `SchemaPrompt` (`schema_prompt.dfy`): `build_prompt`. Both copies of it in
  the source render the same way.
- `Upload` (`upload.dfy`): the pairing of uploaded files and the merge of
  parsed tables with intent replies.
- `FinetuneDataset` (`finetune_dataset.dfy`): grouping the enriched tables
  and building prompt/completion rows.
- `DatasetSplit` (`dataset_split.dfy`): the three-way slice.

Outside inputs become parameters:

- the SQL tokenizer's output is a `seq<Statement>`;
- the embedding similarity is a `(string, string) -> real`;
- the language model is a `string -> string`;
- the intent web service is a function from (table name, column names, data
  types) to a `Result<IntentReply>`, whose `Failure` stands for the error the
  request raises;
- the statement reader is a function from DDL text to skeletons;
- the prompt renderer of the dataset builder is a function too.

Two of these have concrete instances that the lemmas use: the statement
reader `DdlReader` (`ExtractSchema` after the tokenizer) and the prompt
renderer `ExamplePrompt` (`build_prompt`). The similarity, the language model
and the intent service stay unconstrained parameters, so every statement about
them holds for any choice of them.

## Model

| member | source | states |
|---|---|---|
| DdlParser.ClauseTexts | app/ddl_parser.py:18 | The group's text, with its outer parentheses stripped, is cut at every comma into at least one comma-free piece, and the pieces joined by commas give back the stripped text. |
| DdlParser.ScanTokens | app/ddl_parser.py:14-18 | A table name already found is never replaced. A walk over no parenthesised group keeps the clauses it had. When the last token is a group, the clauses are that group's pieces. |
| DdlParser.ScanTokensFinds | app/ddl_parser.py:14-18 | The token walk keeps the first identifier with a non-empty name as the table name. Its column clauses are those of the last parenthesised group, or the ones already held when there is no group. Both are compared with independent reference searches. |
| DdlParser.ClauseTextsOfWrapped | app/ddl_parser.py:18 | Stripping the outer parentheses and cutting at commas gives back the comma-free clauses that were wrapped in `( … )`. |
| DdlParser.ParseClause | app/ddl_parser.py:26-37 | A clause yields a pair exactly when it has at least two whitespace-separated words and its trimmed, upper-cased text does not open with `FOREIGN KEY`. The pair is its first two words. |
| DdlParser.ParseClauses | app/ddl_parser.py:26-40 | At most one (name, type) pair per clause, each part a single whitespace-free word. |
| DdlParser.ParseClausesAppend | app/ddl_parser.py:26-40 | Clauses are read one by one and in order: reading a concatenation concatenates the readings. |
| DdlParser.BlankClauseSkipped | app/ddl_parser.py:27-29 | A clause that is empty after trimming is skipped. |
| DdlParser.ForeignKeyClauseSkipped | app/ddl_parser.py:30-31 | A clause whose trimmed, upper-cased text opens with `FOREIGN KEY` is skipped. |
| DdlParser.ForeignKeyClauseDropped | app/ddl_parser.py:26-31 | Removing a FOREIGN KEY clause from anywhere in the list leaves the extracted columns unchanged. |
| DdlParser.SingleWordClauseSkipped | app/ddl_parser.py:32-34 | A clause with a single word between blanks is skipped. |
| DdlParser.ClauseOfFewWordsSkipped | app/ddl_parser.py:32-34 | Any clause of fewer than two words is skipped. |
| DdlParser.ClauseTakesFirstTwoWords | app/ddl_parser.py:27-37 | Any clause of two or more whitespace-separated words, however it is spaced or padded, that does not open with FOREIGN KEY gives its first word as the name and its second as the type. Later words such as `NOT NULL` are dropped. |
| DdlParser.WellFormedClauseParses | app/ddl_parser.py:27-37 | A padded `name type` clause whose name is not FOREIGN reads back as exactly that pair. |
| DdlParser.WellFormedClauses | app/ddl_parser.py:26-40 | A list of well-formed clauses gives one pair per clause, in declaration order. |
| DdlParser.ExtractStatement | app/ddl_parser.py:8-42 | Every emitted table has a non-empty name and equal-length lists of single-word names and types. |
| DdlParser.ExtractStatementSpec | app/ddl_parser.py:7-42 | A statement yields a table exactly when it is a CREATE with a named identifier and a parenthesised group. The table's name is that identifier, and its names and types are the readings of the last group's clauses. |
| DdlParser.ExtractSchema | app/ddl_parser.py:3-44 | At most one table per statement, each well-formed. |
| DdlParser.ExtractSchemaAppend | app/ddl_parser.py:7-44 | Statements are handled independently, and tables keep statement order. |
| DdlParser.NonCreateContributesNothing | app/ddl_parser.py:8-9 | Inserting a statement that is not a CREATE anywhere changes nothing. |
| DdlParser.NoCreateNoTables | app/ddl_parser.py:7-9 | A script without CREATE statements yields no table. |
| DdlParser.EmptyGroupStillEmitted | app/ddl_parser.py:20-42 | A named CREATE whose group holds no readable clause is still emitted, with empty name and type lists. |
| DdlParser.WellFormedCreateTable | app/ddl_parser.py:7-42 | Round trip: a `CREATE` with a name and a group written from well-formed clauses extracts to exactly that name, those names and those types. |
| DdlParser.CommaInsideTypeSplitsClause | app/ddl_parser.py:18-34 | A comma inside a type splits the clause. `name HEAD, TAIL` yields the column `name` with type `HEAD`, and the fragment is skipped. |
| DdlParser.DecimalTypeSplit | app/ddl_parser.py:18-34 | `price DECIMAL(10, 2)` yields the column `price` with type `DECIMAL(10`. |
| IntentInfer.ColumnLines | app/intent_infer.py:67-69 | One `- col (type)` line per zipped pair: as many lines as the shorter list, line i from column i and type i. |
| IntentInfer.IntentPrompt | app/intent_infer.py:67-76 | The intent prompt is, line by line, the worked examples, a blank line, `Table: <name>`, `Columns:`, one `- col (type)` line per zipped pair (a blank line when either list is empty), a blank line and `Table Purpose:`, ending in a line break. |
| IntentInfer.PromptLayout | app/intent_infer.py:71-76 | The prompt, split into lines, is the opening text, a blank line, `Table: …`, `Columns:`, the column lines, a blank line, `Table Purpose:` and a final break. |
| IntentInfer.CutAt | app/intent_infer.py:83-84 | After one cut the marker is gone. A text without the marker is left unchanged. |
| IntentInfer.CutAtFirstOccurrence | app/intent_infer.py:83-84 | A marker that occurs cuts the text to the stripped part before its first occurrence. |
| IntentInfer.CutAtKeepsAbsence | app/intent_infer.py:83-84 | A cut never introduces a text the input lacked. |
| IntentInfer.CutAllRemoves | app/intent_infer.py:82-84 | After all cuts, none of the stop markers is left, including markers cut earlier. |
| IntentInfer.CutAllKeepsAbsence | app/intent_infer.py:82-84 | The cut sequence never introduces a text the input lacked. |
| IntentInfer.CutAllUnchanged | app/intent_infer.py:82-84 | A text free of every marker passes through unchanged. |
| IntentInfer.CutAllIdempotent | app/intent_infer.py:82-84 | Cutting a second time changes nothing. |
| IntentInfer.Cleaned | app/intent_infer.py:79-84 | The cleaned generation holds none of the four stop markers. |
| IntentInfer.ParseLine | app/intent_infer.py:95-101 | Only a line that opens with `-` and holds a colon is recognised. The name it yields is lower case and one of the expected columns. |
| IntentInfer.SplitAfterDashSucceeds | app/intent_infer.py:96-103 | A line that opens with `-` and holds a colon always splits after the dash. The `ValueError` branch never runs. |
| IntentInfer.ParsedLines | app/intent_infer.py:95-101 | At most one pair per line, each with an expected lower-case name. |
| IntentInfer.ParsedLineSource | app/intent_infer.py:95-101 | Every parsed pair is the reading of one of the input lines. |
| IntentInfer.ParseNamedLine | app/intent_infer.py:96-101 | A `- name: intent` line, whatever the letter case of the name, reads as (lower-cased name, intent) when the lower-cased name is expected, and as nothing otherwise. |
| IntentInfer.ParseMixedCaseLines | app/intent_infer.py:95-101 | A block of description lines whose names lower-case to expected columns reads back as its pairs with the names lower-cased, in order. |
| IntentInfer.ReadCleaned | app/intent_infer.py:86-107 | The column intents are keyed by expected lower-case names. The table intent holds no heading, and no stop marker the cleaned text lacked. |
| IntentInfer.ParseResponse | app/intent_infer.py:79-107 | Column intent keys are a subset of the lower-cased input columns. The table intent holds neither the heading nor any stop marker. |
| IntentInfer.HeadingSplitsResponse | app/intent_infer.py:91-101 | With the heading, the table intent is the stripped text before its first occurrence. The column intents come from the lines after it. |
| IntentInfer.NoHeadingNoColumns | app/intent_infer.py:91-105 | Without the heading, the table intent is the whole cleaned text and there are no column intents. |
| IntentInfer.ParseDescriptionLine | app/intent_infer.py:96-101 | A `- name: intent` line reads back as its (name, intent) pair. |
| IntentInfer.ParseDescriptionLines | app/intent_infer.py:95-101 | A block of such lines reads back as its pair list, in order. |
| IntentInfer.ResponseRoundTrip | app/intent_infer.py:86-107 | Parsing undoes rendering. An answer laid out like the worked examples gives back its purpose as the table intent, and its descriptions as the column intents, with a later line for a column winning. |
| IntentInfer.RepeatedColumnLastWins | app/intent_infer.py:100-101 | The intent kept for a column is the one on its last line. |
| IntentInfer.GenerateIntents | app/intent_infer.py:21-23 | As written: the call fails exactly when no model is passed. Otherwise the keys are expected columns. |
| IntentInfer.MissingModelRaises | app/intent_infer.py:21-23 | Without a model, the call raises. |
| IntentInfer.GenerateIntentsWithDefault | app/intent_infer.py:21-23 | Corrected: the default model stands in when none is passed, and the keys are expected columns. |
| IntentInfer.DefaultAgreesWithGiven | app/intent_infer.py:21-23 | The corrected call equals the written one whenever a model is given. Without one, it answers as the default model does. |
| MetadataStore.InitStore | app/utils.py:19-36 | An existing store is kept as it is. Otherwise the store starts empty. |
| MetadataStore.Insert | app/utils.py:38-54 | Inserting appends the batch after the old rows, which stay untouched. |
| MetadataStore.DbList | app/utils.py:56-62 | The database list has no repeats, and it holds exactly the stored databases. |
| MetadataStore.DbListAfterInsert | app/utils.py:56-62 | An insert keeps the earlier database list as a prefix. |
| MetadataStore.ColumnsFor | app/utils.py:98-103 | A table's column query returns at most one row per stored record, and returns nothing exactly when no record has that database and table. |
| MetadataStore.ColumnsForSpec | app/utils.py:98-103 | A table's rows are exactly the stored rows with that database and table. |
| MetadataStore.ColumnsForInsert | app/utils.py:98-103 | After an insert, a table's rows are its old rows followed by the batch's rows. |
| MetadataStore.ColumnsForAbsent | app/utils.py:98-103 | A table with no stored row has no columns. |
| MetadataStore.ColumnInfo | app/utils.py:92-106 | The map has exactly the requested tables as keys, each mapped to its stored rows. |
| MetadataStore.TableIntentOf | app/utils.py:131-137 | The table intent is that of the first matching row, or `""` when no row matches. |
| MetadataStore.TableIntentAfterInsert | app/utils.py:131-137 | A table already stored keeps its intent after an insert. |
| Retrieval.Candidates | app/utils.py:77-78 | The distinct `(db_id, table_name, table_intent)` triples: no repeats, every stored triple present, nothing else. |
| Retrieval.Eligible | app/utils.py:83-84 | A table is scored exactly when its intent, with a missing one read as empty, is non-empty: the `if not table_intent` test, for which NULL and `""` are both false. |
| Retrieval.ScoreAll | app/utils.py:81-87 | Every candidate with a non-empty intent is scored, every entry is the score of such a candidate, and there are at most as many entries as candidates. |
| Retrieval.ScoreSingle | app/utils.py:82-87 | A single candidate is scored once when its intent is non-empty and skipped otherwise. |
| Retrieval.ScoreAllAppend | app/utils.py:82-87 | Candidates are scored one by one and in order: the scores of a concatenation are the two parts' scores concatenated, so each candidate is scored exactly once or not at all. |
| Retrieval.NothingEligibleNothingScored | app/utils.py:82-87 | When no candidate has an intent, nothing is scored. |
| Retrieval.AtLeastTotal | app/utils.py:89 | Any two scored entries are comparable under the tuple order. |
| Retrieval.AtLeastAntisymmetric | app/utils.py:89 | Entries that each rank at least as high as the other are equal. |
| Retrieval.AtLeastTransitive | app/utils.py:89 | The tuple order is transitive. |
| Retrieval.SortDesc | app/utils.py:89 | The sorted list is a permutation of its input, in descending `(score, db_id, table_name)` order. |
| Retrieval.InsertDescSorted | app/utils.py:89 | Inserting into a descending list keeps it descending. |
| Retrieval.SortedUnique | app/utils.py:89 | Two descending arrangements of the same entries are the same list, so the ranking is fully determined. |
| Retrieval.Ranked | app/utils.py:81-89 | The ranking is in descending `(score, db_id, table_name)` order and holds exactly the scored tables, each as often as it was scored. |
| Retrieval.RankingIsDescendingOrder | app/utils.py:81-89 | The ranking is the one descending arrangement of the scored candidates. |
| Retrieval.RankedFromEligibleRows | app/utils.py:82-87 | Every ranked entry is the score of a stored row with a non-empty intent. |
| Retrieval.EligibleRowsRanked | app/utils.py:82-89 | Every stored row with a non-empty intent is ranked. |
| Retrieval.TopTables | app/utils.py:89-90 | For a non-negative `top_k`, `min(top_k, ranked)` pairs are kept. They are the `(db_id, table_name)` of the best-ranked entries, in rank order. |
| Retrieval.KeptOutrankDropped | app/utils.py:89-90 | Every kept table ranks at least as high as every dropped one, by score and then by the tuple order. |
| Retrieval.NoIntentNoTables | app/utils.py:82-90 | A store in which no table has an intent yields no table. |
| Retrieval.ColumnEntries | app/utils.py:127-128 | One `name (type)` text per row, in row order. |
| Retrieval.IntentPairs | app/utils.py:129 | One (lower-cased name, intent) pair per row, in row order. |
| Retrieval.SemanticInfo | app/utils.py:110-144 | An empty ranking gives `("", [])`. Otherwise the database is the first pair's, with one descriptor per pair, in order. |
| Retrieval.BuildSemanticInfo | app/utils.py:108-147 | An empty ranking gives `("", [])`. Otherwise the database is the top table's, with one descriptor per kept table, in rank order. |
| Retrieval.DescriptorsFromStore | app/utils.py:113-144 | Each descriptor holds exactly the stored rows and the intent of its table under the chosen database. |
| Retrieval.ForeignTableEmpty | app/utils.py:131-137 | A kept table with no row under the chosen database is described with no column and the intent `""`. |
| Retrieval.DescribedIntentLastWins | app/utils.py:127-129 | A column's intent is found under its lower-cased name, and it comes from the last row sharing that lower-cased name. |
| Retrieval.DescribedColumnRendered | app/utils.py:127-161 | From store to column line: a stored column whose name holds no ` (`, whose type has no trailing `)`, and which no later row with the same lower-cased name shadows, renders as `- name (type): intent` with its own values. |
| Retrieval.DescribedColumnInPrompt | app/utils.py:108-168 | From store to prompt: such a column of a described table in a readable schema appears in the rendered prompt as a line of its own. |
| SchemaPrompt.ParseColumn | app/utils.py:158-159 | Reading a column fails exactly when it lacks ` (`. The name holds no ` (`, and the type has no trailing `)`. |
| SchemaPrompt.RenderColumn | app/utils.py:158-161 | Rendering a column fails exactly when it lacks ` (`. |
| SchemaPrompt.ColumnLines | app/utils.py:157-161 | The column lines fail exactly when some column lacks ` (`. Otherwise there is one rendered line per column, in order. |
| SchemaPrompt.TableLines | app/utils.py:155-162 | A table renders exactly when its columns do. Its block is then its header line, its rendered column lines in column order, and one blank line. |
| SchemaPrompt.TableLinesSpec | app/utils.py:155-162 | A table renders exactly when every column holds ` (`. Its block has two lines more than it has columns: the header, column j's rendering at line j + 1, and a blank line last. |
| SchemaPrompt.SchemaLines | app/utils.py:155-162 | The rendered blocks have Σ(columns + 2) lines. |
| SchemaPrompt.SchemaLinesReadable | app/utils.py:155-162 | All blocks render exactly when every column of every table is readable. |
| SchemaPrompt.SchemaLinesAppend | app/utils.py:155-162 | Blocks go in table order: a concatenation of schemas renders exactly when both parts do, as the two parts' lines concatenated. |
| SchemaPrompt.TableBlockAt | app/utils.py:155-162 | Table i's block sits in the schema lines right after the blocks of the tables before it. |
| SchemaPrompt.TableLineAt | app/utils.py:155-162 | Line k of table i's block is the schema line that follows the blocks before it by k. |
| SchemaPrompt.PromptLines | app/utils.py:150-166 | The lines render exactly when every column is readable. They are the database heading, a blank line, the schema blocks in table order, `### Question: …`, and `### SQL:` with `include_sql`: 3 + Σ(columns + 2) + [include_sql] lines. |
| SchemaPrompt.PromptLineAt | app/utils.py:150-162 | Line k of table i's block is prompt line 2 + (the lines of the blocks before it) + k. |
| SchemaPrompt.BuildPrompt | app/utils.py:149-168 | The prompt renders exactly when every column is readable. It opens with the database heading, holds the question line on a line of its own, and with `include_sql` ends with `### SQL:`. |
| SchemaPrompt.PromptShowsLine | app/utils.py:150-168 | Every line of every table block appears in the prompt after a line break. |
| SchemaPrompt.PromptShowsColumn | app/utils.py:157-168 | Every column of a readable schema appears in the prompt, rendered, on a line of its own. |
| SchemaPrompt.PromptShowsTable | app/utils.py:155-168 | Every table of a readable schema appears in the prompt: its header line and each of its rendered column lines. |
| SchemaPrompt.PromptLinesRecovered | app/utils.py:168 | When no piece holds a line break, splitting the prompt at line breaks gives back its lines: no trailing newline and no merged lines. |
| SchemaPrompt.ColumnEntryRoundTrip | app/utils.py:158-159 | A `name (type)` column reads back with its name intact and its type stripped of every trailing `)`. |
| SchemaPrompt.PlainTypeRoundTrip | app/utils.py:158-159 | A type without a trailing `)` reads back unchanged. |
| SchemaPrompt.ClosingParenLost | app/utils.py:159 | A type ending in `)` loses it: `DECIMAL(10)` renders as `DECIMAL(10`. |
| Upload.DbPath | app/upload_ui.py:23 | The stored path ends with the file name. A relative name is placed under `uploaded_dbs/`, and an absolute name replaces the directory. |
| Upload.PairUploads | app/upload_ui.py:19-33 | With both lists non-empty, the list is reset on every pair, so only the last zipped pair survives. Otherwise the previous uploads stay. |
| Upload.PairUploadsKeepsOne | app/upload_ui.py:21-33 | Exactly one upload survives. It pairs a DDL and a DB file at the same position, with the DB stored under its own name. |
| Upload.MergeTable | app/upload_ui.py:49-62 | One record per zipped (column, type) pair, in order. Each record carries the table intent, and the column intent looked up by the exact column name. Missing column intents fail exactly when there is a pair. |
| Upload.MergeTables | app/upload_ui.py:49-62 | Every record carries the upload's database and the name of one of its tables. |
| Upload.MergeTablesSucceeds | app/upload_ui.py:49-62 | The merge succeeds exactly when every table merges. |
| Upload.MergeStep | app/upload_ui.py:50-62 | One table: a failed service call fails with the service's error, and a reply is merged into one record per zipped (column, type) pair. |
| Upload.MergeTablesSingle | app/upload_ui.py:49-62 | A single table merges as its request to the service followed by the merge of the reply. A failed request fails with the service's error. |
| Upload.MergeTablesSnoc | app/upload_ui.py:49-62 | A table appended last merges after all the tables before it: the first failure wins, otherwise its records follow theirs. |
| Upload.MergeTablesAppend | app/upload_ui.py:49-62 | Tables merge one by one and in order: a concatenation of table lists gives the first part's records followed by the second part's, and the first failure wins. |
| Upload.MergeUpload | app/upload_ui.py:42-62 | The records are those of merging the tables read from the DDL under the DB file's name, so every record carries that name as `db_id`. An upload without tables gives no record. |
| Upload.UploadWithoutCreateSkipped | app/upload_ui.py:42-45 | A DDL without CREATE statements contributes nothing. |
| Upload.MergeAll | app/upload_ui.py:40-65 | The run over all uploads succeeds exactly when every upload merges. |
| Upload.MergeAllDatabases | app/upload_ui.py:40-65 | Every merged record is filed under the database name of one of the uploads. |
| Upload.MergeAllStep | app/upload_ui.py:40-65 | The records of the uploads so far are extended by the next upload's records, or the run fails with it. |
| Upload.FailedUploadFailsRun | app/upload_ui.py:40-65 | An upload that fails after successful ones fails the run. |
| Upload.MergeAllFailurePersists | app/upload_ui.py:40-65 | Once a prefix fails, the whole run fails. |
| Upload.RunInference | app/upload_ui.py:38-65 | The store gains exactly the records of the uploads processed, in upload order. The run stops at the first failing upload, and succeeds exactly when every upload merges. |
| Upload.MergedTableStored | app/upload_ui.py:54-64 | After the insert, a table's stored rows are its old rows followed by its merged columns, with their types and intents. |
| Upload.MixedCaseColumnGetsEmptyIntent | app/upload_ui.py:61 | A column whose name is not lower case gets the intent `""`, because the parser's keys are lower-cased. |
| Upload.LowerCaseColumnGetsParsedIntent | app/upload_ui.py:61 | A column found among the parsed intents gets that intent. |
| FinetuneDataset.GroupOf | finetuning/prepare_spider_finetuned_dataset.py:38-40 | A group has at most one table per entry, and it is empty exactly when the database has no entry. |
| FinetuneDataset.GroupOfFromEntries | finetuning/prepare_spider_finetuned_dataset.py:38-40 | Every grouped table comes from an entry of that database. |
| FinetuneDataset.GroupOfHoldsEntries | finetuning/prepare_spider_finetuned_dataset.py:38-40 | Every entry of a database is in its group. |
| FinetuneDataset.GroupOfAbsent | finetuning/prepare_spider_finetuned_dataset.py:38-40 | A database without entries has an empty group. |
| FinetuneDataset.GroupOfAppend | finetuning/prepare_spider_finetuned_dataset.py:38-40 | Grouping keeps file order: the group of a concatenation is the concatenation of the groups. |
| FinetuneDataset.GroupByDb | finetuning/prepare_spider_finetuned_dataset.py:38-40 | The keys are exactly the databases with entries, each mapped to its group in file order. |
| FinetuneDataset.ExamplePrompt | finetuning/prepare_spider_finetuned_dataset.py:13-32 | The dataset prompt renders exactly when every column is readable. It opens with the example's database heading, holds its question line, and ends with `### SQL:`. |
| FinetuneDataset.ExamplePromptShowsTable | finetuning/prepare_spider_finetuned_dataset.py:19-26 | Every table of a readable schema appears in the question's prompt: its header line and each rendered column line. |
| FinetuneDataset.Known | finetuning/prepare_spider_finetuned_dataset.py:44-47 | Only questions whose database has a group are kept. |
| FinetuneDataset.KnownSpec | finetuning/prepare_spider_finetuned_dataset.py:44-47 | Every kept question is an input question, and every question of a known database is kept. |
| FinetuneDataset.KnownAppend | finetuning/prepare_spider_finetuned_dataset.py:44-47 | Filtering keeps question order. |
| FinetuneDataset.UnknownQuestionDropped | finetuning/prepare_spider_finetuned_dataset.py:45-47 | A question of an unknown database produces no row, wherever it stands. |
| FinetuneDataset.RowsFor | finetuning/prepare_spider_finetuned_dataset.py:49-57 | The rows exist exactly when every prompt renders: one row per kept question with its database, prompt and query. |
| FinetuneDataset.AssembleRows | finetuning/prepare_spider_finetuned_dataset.py:44-57 | One row per kept question, in question order. |
| FinetuneDataset.AssembleRowsSucceeds | finetuning/prepare_spider_finetuned_dataset.py:44-57 | Assembly succeeds exactly when every known question's schema is readable. |
| FinetuneDataset.PrepareDataset | finetuning/prepare_spider_finetuned_dataset.py:38-57 | The rows are those assembled from the grouping of the entries. The run succeeds exactly when every question whose database has entries has a readable schema. There is then one row per such question, and row k is built from the k-th one, with its database, its prompt over that database's group and its query. Each row's prompt opens with its database and ends with `### SQL:`. |
| DatasetSplit.SplitAt | finetuning/split_finetuned_dataset.py:28-30 | train ++ val ++ test is the input, and each part has the length the slices give. |
| DatasetSplit.SplitWithinBounds | finetuning/split_finetuned_dataset.py:25-30 | When the cut points fit, train is the first `n_train` rows, val the next `n_val`, and test the remaining `n - n_train - n_val`. |
| DatasetSplit.SplitIsPartition | finetuning/split_finetuned_dataset.py:24-30 | The parts hold the input's rows with their multiplicities, and their sizes sum to n. |
| DatasetSplit.CutPoints | finetuning/split_finetuned_dataset.py:25-26 | The cut points are `floor(9n/10)` and `floor(n/20)`, and together they never exceed n. |
| DatasetSplit.SplitDataset | finetuning/split_finetuned_dataset.py:24-30 | The whole split with those cut points: the parts concatenate to the input, and test is non-empty whenever the input is. |
| DatasetSplit.SplitPartsNonEmpty | finetuning/split_finetuned_dataset.py:25-26 | From two rows the training part is non-empty, and from twenty rows the validation part is too. |

## Left out

- The SQL tokenizer: statements arrive already classified, as identifier, parenthesised-group and other tokens. An identifier without a name is modelled as the empty name; both are falsy for `not table_name`.
- Embeddings and cosine similarity: the score is a `real` from a similarity parameter. NaN scores are not modelled.
- SQLite: the store is an in-memory row sequence, and every `SELECT` returns rows in insertion order. SQLite does not promise that order; the model assumes it. `init_metadata_db` takes the existing store, if any, as its argument.
- Loading and calling the language model: the model is a parameter. The HTTP call to the intent service is also a parameter, returning an optional table intent and an optional column-intent map.
- Streamlit widgets and display (app/upload_ui.py:10-18, 35-37, 67-81); writing uploaded DB files; UTF-8 decoding of DDL files.
- JSON and JSONL reading and writing, `tqdm`, and the seeded shuffle; the dataset split takes the already shuffled rows.
- DatasetSplit.CutPoints: uses exact `floor(9n/10)` and `floor(n/20)`. The source uses the floating-point products `int(0.9 * n)` and `int(0.05 * n)`, which can round differently. `SplitAt` and `SplitWithinBounds` hold for any cut points.
- Strings.Lower: `lower()` and `upper()` are modelled on ASCII letters only.
- Upload.MergeTable: a stored column intent is always a text. A reply map holding null values is not modelled.

## Findings

| source | as written | input that shows it | evidently intended | confidence | as-written member | corrected member |
|---|---|---|---|---|---|---|
| app/intent_infer.py:21-23 | Without a model, `_load_intent_model(MODEL_NAME)` is called, but the loader takes no parameter, so a `TypeError` is raised. | `generate_intents("t", ["a"], ["INT"])`, with no model | The default model is loaded and used. | high; not executed | IntentInfer.GenerateIntents (IntentInfer.MissingModelRaises) | IntentInfer.GenerateIntentsWithDefault (IntentInfer.DefaultAgreesWithGiven) |
