# Schema engine, catalog readers and pinned table reads of dalgo2sqlite

A Dafny model of three parts of the SQLite adapter, and proofs about them.

**The DDL engine.** `SqlGen` builds SQL text piece by piece from a collection definition; `SqlParser`
is a parser for exactly the grammar that is generated; `Catalog` gives each statement its meaning as a
partial step on an abstract catalog (tables with ordered columns, rows, indexes, the sidecar table of
Time markers). Running a text means parsing it and taking the step, so every property below is about
the text that is really sent. `SchemaModifier` runs those texts inside one transaction. `ColumnRewrite`
is the create/copy/drop/rename of one column, `RewriteSucceeds` says exactly when it goes through.
`OperationLaws` and `CreationLaws` say of each operation when it goes through and what the catalog is
afterwards, in terms of the catalog alone. `LogicalSchema`, `AlterFollows` and `SchemaRuns` relate the catalog to the schema a caller thinks in:
after any run of calls the tables are the collections, and the markers are exactly the Time columns.
`TableTexts`, `StoredValues`, `RowChecks` and `TablesKept` follow the CREATE text the catalog keeps, the
form its rows are stored in and the checks they meet; `DataRuns` follows the values themselves over
runs. `KnownGaps` holds concrete inputs on which the code does not do what one expects.

**The catalog readers.** `ConnectionPool` models `database/sql` with a precondition on every request
that a connection is free, so a reader that asked for a second connection while holding the only one
would not verify. `SchemaReader` describes a collection, `Listing` lists them, `ForeignKeys` and
`Constraints` read the same foreign-key rows by three routes, `SourceRows` streams rows with the one
SELECT that `SelectQuery` writes, reads and evaluates. `DescribedCatalog` says what a description
answers for any catalog, whoever made it; `NormalForm` and `CreateDescribe` join both halves: what the
engine created reads back as one explicit normal form.

**Pinned table reads.** `TableReadReader`, `TableReadSpan` and `TableReadContext` are state machines
whose steps are the single atomic loads, swaps, stores, cancellations and native calls, interleaved
freely; `TableReadSession` holds the calls of a session and the opening of a reader, `TableReadOpen`
the opening of a span with its byte budget.

**The environment.** `Environment.Env` numbers the calls on the world outside (statements, queries,
rows, scans, commits, limits) and fixes beforehand, in a constant no method can touch, which of them
go well. A method's contract says what it does when every call since it began went well
(`CalmSince`), and what may still happen when one did not; proofs hold for every such constant. In
`TableReadSession` the class `World` does the same for what other goroutines do: at which moment the
span is closed, a context cancelled or told that its parent was, a deadline reached, a hook run.

**Ledgers.** `World` and `TableReadOpen.Driver` record every context, native reader, database,
connection, transaction and span that is ever made: each enters the ledger in its own constructor and
none leaves it. What a failing call must give back is stated over everything the ledger gained, not
over what the call chooses to remember.

Strings are sequences of characters and letter case is ASCII.

## What the proofs show about the code

- Other spellings. A catalog follows its schema after each successful operation if and only if the
  condition `OpSound`, `DropSound` or `CreateSound` held before it. Adding, dropping or renaming a Time
  field, or dropping a collection with one, under another letter case leaves a marker that names no
  table or no column (`KnownGaps.AddInOtherCase`, `DropFieldInOtherCase`, `RenameInOtherCase`,
  `DropInOtherCase`).
- Ignored errors. The marker UPDATE of a rename never meets the marker key, so SQLite itself has no
  reason to refuse it. When a marker DELETE or UPDATE is refused all the same, the error is ignored and
  the call succeeds; the catalog then still follows its schema if and only if no Time column was
  concerned (`AlterFollows.OpFollows` and `LogicalSchema.DropFollows` with the choice `MarkerSkipped`).
- AUTOINCREMENT. The comment at schema_modifier.go:277-282 says that the clause survives a column
  rewrite. The code loses it unless the changed column is the whole key and is itself redefined as an
  auto-incremented Int (`ColumnRewrite.AutoIncrementAfter`, `KnownGaps.AutoIncrementLost`). The model
  follows the code.
- Cut introspection. The loop at schema_modifier.go:298-321 never looks at the error of its result set:
  rows that end early are taken for the whole table, and the rewrite then drops the columns not seen
  (`ColumnRewrite.ColumnsKeptIffSeen`, `KnownGaps.CutShort`).
- NOT NULL. On a table with a key of several columns a rewrite loses NOT NULL outside the key
  (`ColumnRewrite.RewrittenColumn`, `KnownGaps.NotNullLost`), and a field that such a key names in
  another letter case is created without it (`CreateDescribe.NormalisedField`,
  `KnownGaps.KeyInOtherCase`).
- NULL in a key. A rewrite writes every key column NOT NULL, so on a table that holds a NULL in its key
  every rewrite of every column is refused (`RewriteSucceeds.StoredRowsRewrite`,
  `KnownGaps.NullKeyRefused`); a rewrite that keeps the type is refused for nothing else but such a NULL
  or one in the column itself.
- Probes whose errors are dropped. A failing primary-key probe makes ListConstraints succeed without the
  key, and a failing AUTOINCREMENT probe makes a description succeed without the flag.
- Referrers of another spelling. Asked for a target in another letter case, ListReferrers answers as for
  the name as it is spelled, while no foreign key resolves to the name asked for; and since it skips only
  the exact name, a collection with a key to itself is then listed as its own referrer
  (`Constraints.OtherSpellingsDiffer`, `Constraints.SelfReferrers`, `KnownGaps.ReferrersInOtherCase`).
- A linked context may be cancelled at any moment after its last check, so a call that succeeds cannot
  promise that it is live; it promises that, unreleased, it is cancelled only once a parent is done
  (`TableReadSession.CallContext`, `TableReadContext.DoneHasReason`).
- The Session accessor looks at the flag first and at the context last. Between the swap and the
  cancellation it can still give out the session, which no session or facts call does; its look at the
  flag always precedes the swap and its last check the cancellation (`TableReadSpan.NoLateSession`,
  `TableReadSpan.LateSession`).

## Model

| member | source | states |
|---|---|---|
| SqlParser.IdentRoundTrip | sql_gen.go:147-151 | a quoted identifier is read back as exactly the name and the untouched rest, whatever quotes, commas or parentheses it holds, if and only if it has no NUL |
| SqlParser.BodyRoundTrip | sql_gen.go:30-46 | a table body is read back as its ordered columns with type and suffix and its ordered key, exactly when it has a column and no name has a NUL |
| SqlParser.RoundTrip | sql_gen.go:12-151 | parsing the text of any emitted statement gives that statement, or nothing exactly when SQLite could not read it |
| SqlGen.FieldHasAutoIncIntPK | sql_gen.go:76-83 | the first field of the name decides whether the key is an auto-incremented Int |
| SqlGen.BuildColumnDecl | sql_gen.go:54-74 | the joined parts are the text of the column with its type keyword and the suffix of the NOT NULL rule; it fails exactly for types without a keyword |
| SqlGen.BuildColumns | sql_gen.go:24-37 | one declaration for each field, in order, inline key and composite rule included |
| SqlGen.BuildCreateTableSQL | sql_gen.go:12-48 | the text parses to the definition's table, columns, NOT NULL flags and key, for every definition free of NUL |
| SqlGen.BuildCreateIndexSQL | sql_gen.go:85-115 | the text denotes the index statement; it fails exactly for an empty name, collection or field list |
| SqlGen.BuildAlterTableAddColumnSQL | sql_gen.go:131-137 | the text denotes the added column, with NOT NULL exactly for a non-nullable field |
| SqlGen.DropText | sql_gen.go:117-129 | the drop texts denote dropping exactly that table or index, with the caller's IfExists |
| SqlGen.DropColumnText | sql_gen.go:139-141 | the text denotes dropping that column of that table |
| SqlGen.RenameColumnText | sql_gen.go:143-145 | the text denotes renaming that column, old name before new |
| TypeMapping.RecognitionRefinesAffinity | type_mapping.go:66-106 | for every declared type: Int, String, Float exactly under INTEGER, TEXT, REAL affinity, Bytes exactly for a written type of BLOB affinity, every other answer only under NUMERIC (section 3.1 of "Datatypes In SQLite") |
| TypeMapping.WordLaw | type_mapping.go:66-106 | for every declared type, in any letter case and between any spaces: a Time exactly for DATETIME, DATE, TIME or TIMESTAMP, a Bool exactly for BOOLEAN or BOOL, a Decimal exactly for NUMERIC or DECIMAL, bare or with a (p,s) that fits, with the precision written; and nothing exactly for what is none of these and holds no pattern of another affinity |
| TypeMapping.PrecisionRead | type_mapping.go:79-88 | a NUMERIC or DECIMAL in any letter case, between any spaces, with a (p,s) suffix in any blanks, gives the two numbers written when both fit 64 bits, and no recognition otherwise |
| TypeMapping.MatchedIsSpelled | type_mapping.go:17-17 | only such spellings match the suffix |
| TypeMapping.KeywordFixedPoint | type_mapping.go:21-42 | recognising an emitted keyword and writing it again is the identity |
| TypeMapping.TypeReadsBack | type_mapping.go:44-66 | Bool reads back as Int, Time as String, every other type as itself |
| Catalog.TextRunsStatement | sql_gen.go:12-151 | running the text of a statement takes exactly the statement's step |
| KeyOrder.SortPKByOrder | schema_reader.go:282-288 | the in-place insertion sort leaves the stable sorted order |
| KeyOrder.SinkEntry | schema_reader.go:284-286 | one entry is swapped down to just above the last one not greater, the rest keeping their order |
| KeyOrder.SortLaws | schema_modifier.go:322-327 | that order is a permutation in ascending order |
| KeyOrder.SortedIsNumbered | schema_reader.go:282-288 | key positions 1 to n sort so that entry i is the one at position i+1 |
| SchemaModifier.TimeColumnsOf | schema_modifier.go:63-71 | the names of the Time fields, in order |
| SchemaModifier.InsertMarkers | schema_modifier.go:45-58 | ensures the sidecar and adds exactly one marker for each column |
| SchemaModifier.SqliteAlterApplier.ApplyAddField | schema_modifier.go:135-158 | it succeeds exactly when every call went well and every step can be taken, and then has added the column and, for a Time, its marker |
| SchemaModifier.SqliteAlterApplier.ApplyDropField | schema_modifier.go:160-170 | a success dropped the column and its marker, or the column alone when the marker DELETE was refused and ignored; never the latter when every call went well |
| SchemaModifier.SqliteAlterApplier.ApplyRenameField | schema_modifier.go:172-182 | a success renamed the column and its marker, or the column alone when the marker UPDATE was refused and ignored; never the latter when every call went well |
| SchemaModifier.SqliteAlterApplier.ApplyAddIndex | schema_modifier.go:184-196 | exactly when the calls go well and the step can be taken, the index on the named collection, by default the altered one |
| SchemaModifier.SqliteAlterApplier.ApplyDropIndex | schema_modifier.go:198-204 | exactly when the calls go well and the step can be taken, that index dropped and nothing else |
| SchemaModifier.SqliteAlterApplier.ApplyModifyField | schema_modifier.go:215-271 | whatever columns the introspection delivered, a success ran create, copy, drop and rename made from exactly those, and from all of them when every call went well |
| SchemaModifier.ReadCollectionDefViaTx | schema_modifier.go:283-333 | the definition is that of the rows delivered, the key in key order; rows that end early go unnoticed |
| SchemaModifier.Database.CreateCollection | schema_modifier.go:16-61 | all or nothing: table, indexes and Time markers, or the catalog exactly as before; it succeeds exactly when every call goes well and every step can be taken |
| SchemaModifier.Database.DropCollection | schema_modifier.go:89-102 | all or nothing; a success is the drop with its cleanup of markers, or without it when the cleanup was refused and ignored; never the latter when every call went well |
| SchemaModifier.Database.AlterCollection | schema_modifier.go:106-116 | all or nothing: every success, ignored refusals and cut introspections included, is the in-order fold of the operations as far as each was carried out; it is the plain fold, and succeeds exactly when every step can be taken, when every call went well; any failure leaves the catalog exactly as before |
| SchemaModifier.Database.Finish | schema_modifier.go:78-86 | commits the transaction's catalog only after a body that succeeded |
| OperationLaws.AddIndexLaw | schema_modifier.go:184-196 | adding an index goes through exactly when it has a name, a collection and fields that the table has, its name is not taken by a table, and either its name is free and, for a unique one, no two rows are alike, or IfNotExists was given; the index of the named collection, by default the altered one, is then last, with its uniqueness and its fields as the table spells them, and nothing else changes |
| OperationLaws.RemoveIndexLaw | schema_modifier.go:198-204 | the created index of that name is gone and every other one kept in order; without one nothing changes and IfExists decides |
| OperationLaws.AddFieldLaw | schema_modifier.go:135-158 | exactly for a new name, nullable or on a table without rows: the column is last, of its type's keyword, NULL in every row; a Time is marked; nothing else changes |
| OperationLaws.DropFieldLaw | schema_modifier.go:160-170 | exactly for a column outside the key and every index, with another beside it: it is gone from the table and every row, and its marker unless the cleanup was skipped |
| OperationLaws.RenameFieldLaw | schema_modifier.go:172-182 | exactly when the table has the column and no other of the new name: its name changes, in the index terms too, and its marker unless the move was skipped |
| OperationLaws.ModifyNeedsColumn | schema_modifier.go:226-238 | a redefinition goes through only for a column of exactly that name and a type that has a keyword |
| OperationLaws.AlterInOrder | schema_modifier.go:106-116 | the operations of a call are carried out in order, each on what the ones before left |
| OperationLaws.DropLaw | schema_modifier.go:89-102 | exactly when the collection exists, or IfExists was given: the table and its indexes are gone, the others untouched, and the markers of exactly that name unless the cleanup was skipped |
| CreationLaws.BareCreateLaw | schema_modifier.go:36-60 | a creation without indexes goes through exactly for a definition SQLite accepts under a free name, or with IfNotExists over an existing collection, which it leaves as it is; the table has the fields in order with keyword, key place and NOT NULL stated outright, no rows, and the Time fields are marked |
| CreationLaws.CreateIsBareThenIndexes | schema_modifier.go:22-44 | any creation is that of the bare collection and then its indexes added, one after another, as by AlterCollection |
| CreationLaws.InlineIsRowid | sql_gen.go:76-83 | the key is written inline exactly when it is of one name and the first field so spelled is an auto-incremented Int |
| ColumnRewrite.RewriteHasEffect | schema_modifier.go:241-270 | no "_new" table is left, every other table, the markers and other tables' indexes are untouched, the table's own indexes are gone, and each row is the old one converted |
| ColumnRewrite.RewritePreservesData | schema_modifier.go:206-214 | on emitted types: same columns in the same order, same key in the same order, same number of rows, every value outside the changed column kept |
| ColumnRewrite.RewrittenColumn | schema_modifier.go:226-236 | position, type and NOT NULL of each column after the rewrite |
| ColumnRewrite.RewrittenType | schema_modifier.go:308-311 | the type each column that is not redefined is written with again: its affinity's keyword, INTEGER for a Boolean, NUMERIC for a decimal, TEXT for a date or time and for whatever stands for no type |
| ColumnRewrite.AutoIncrementAfter | schema_modifier.go:277-282 | AUTOINCREMENT after a rewrite if and only if the changed column is the whole key redefined as an auto-incremented Int |
| ColumnRewrite.ColumnsKeptIffSeen | schema_modifier.go:298-321 | the rewrite keeps exactly the columns its introspection delivered, so all of them if and only if it delivered all |
| RewriteSucceeds.RewriteGoesIff | schema_modifier.go:238-270 | whatever columns its introspection delivered, a rewrite goes through if and only if the rows it copies, converted, meet the checks of the new table: no NULL where none is allowed, an integer rowid, no two rows with one key |
| RewriteSucceeds.StoredRowsRewrite | schema_modifier.go:226-270 | on rows as SQLite stores them a rewrite that keeps the type goes through if and only if no row has a NULL in the key, or in the column when it is redefined so |
| RewriteSucceeds.EmptyTableRewrites | schema_modifier.go:241-270 | so on a table without rows it always goes through, provided the names are free and can be written |
| LogicalSchema.CreateFollows | schema_modifier.go:36-60 | after a creation catalog and markers follow the schema if and only if no collection had the name or its Time columns include the new ones |
| LogicalSchema.DropFollows | schema_modifier.go:92-101 | after a drop they follow if and only if the name was spelled exactly or the collection had no Time column, and the latter alone if the cleanup was refused and ignored |
| LogicalSchema.CreatedKey | sql_gen.go:38-44 | the key of a created table reads back as the definition's key, in order, each name as its field spells it |
| AlterFollows.OpFollows | schema_modifier.go:135-271 | after each of the six operations, however far it was carried out, they follow if and only if its condition held: for a skipped marker statement that no Time column was concerned, for a cut introspection that nothing was cut |
| AlterFollows.OpsFollow | schema_modifier.go:106-116 | and so after any list of operations that meet it, each carried out as far as it was |
| AlterFollows.RenameNeverClashes | schema_modifier.go:177-180 | the marker UPDATE of a rename cannot fail on the marker key, and without a sidecar there is no marker to move |
| SchemaRuns.CallFollows | schema_modifier.go:16-116 | every kind of call keeps the relation |
| SchemaRuns.CallKeeps | schema_modifier.go:16-116 | every call, sound or not and however far carried out, keeps each table's text its own, its rows as SQLite stores them and its checks met |
| SchemaRuns.RunFollows | schema_modifier.go:16-271 | over every sound run of calls, at every moment: tables are the collections, markers exactly the Time columns |
| SchemaRuns.RunKeeps | schema_modifier.go:16-271 | over every run of calls, at every moment: kept texts are the tables' own, rows are stored as their columns' affinities store them, and they meet their tables' checks |
| SchemaRuns.RewriteKeepsDataOverRuns | schema_modifier.go:206-271 | after any sound run a rewrite that saw the whole table keeps columns, key, number of rows and every value outside the changed column, with nothing asked of the rows the run left |
| DataRuns.RunKeepsCells | schema_modifier.go:16-271 | over every sound run: a column that no successful call dropped, renamed or redefined keeps its value in every row, and its table the rows in order, through every added, dropped, renamed or rewritten neighbour and every failed call |
| DataRuns.OpKeepsCells | schema_modifier.go:135-271 | one operation leaves every other table alone, and in its own every value of the columns it spares |
| DataRuns.RewriteGoesOverRuns | schema_modifier.go:215-271 | after any sound run a rewrite that keeps the type goes through exactly when no row has a NULL it forbids, whatever the run did to the rows |
| SchemaRuns.MarkersOverRuns | type_mapping.go:108-116 | from the empty database no marker ever names a missing table or column, and the marked columns are those the successful calls made Time |
| SchemaRuns.PerformAll | schema_modifier.go:73-86 | whatever the environment does, the database goes through a run of exactly the calls made; when it refuses nothing, each of them succeeds exactly when all its steps can be taken and then does all it means |
| KnownGaps.DropInOtherCase | schema_modifier.go:96-99 | from a catalog that follows its schema, a drop in another letter case leaves a marker of no table |
| KnownGaps.AddInOtherCase | schema_modifier.go:148-156 | adding a Time field to the collection in another letter case succeeds and marks a table that does not exist |
| KnownGaps.DropFieldInOtherCase | schema_modifier.go:165-168 | dropping a Time field in another letter case succeeds and leaves its marker |
| KnownGaps.RenameInOtherCase | schema_modifier.go:177-180 | renaming a Time field in another letter case succeeds and leaves its marker under the old name |
| KnownGaps.AutoIncrementLost | schema_modifier.go:277-282 | on a concrete table with AUTOINCREMENT, changing another column succeeds and the table has it no more |
| KnownGaps.NotNullLost | schema_modifier.go:226-236 | on a concrete table with a key of two columns, changing one of them succeeds and a NOT NULL column outside the key becomes nullable |
| KnownGaps.NullKeyRefused | schema_modifier.go:316-316 | a concrete table with a NULL in its key refuses the rewrite of another column that changes nothing |
| KnownGaps.KeyInOtherCase | sql_gen.go:26-37 | a concrete creation with a key of two, one named in another letter case, succeeds and leaves that key column without NOT NULL |
| KnownGaps.CutShort | schema_modifier.go:298-321 | a concrete rewrite after a cut introspection succeeds and loses a column |
| KnownGaps.ReferrersInOtherCase | schema_constraints.go:106-119 | a concrete catalog whose survey for the other spelling lists a collection as its own referrer and another one, while no foreign key resolves to that spelling |
| TableTexts.StepKeepsTexts | schema_modifier.go:206-271 | after every statement each table's kept text is the CREATE TABLE of its present shape, its key clause perhaps in another letter case: by proof for CREATE and the table rename, by the model of the step for ALTER |
| TablesKept.CreateCallKeeps | schema_modifier.go:16-61 | the text written for a created table is that of the table it makes, its key clause as the definition spells it; rows keep their form and meet their tables' checks |
| TablesKept.RewriteKeeps | schema_modifier.go:241-270 | and so for a rewritten table, whose copied rows are stored and checked anew |
| StoredValues.StepKeepsStored | schema_modifier.go:241-270 | no statement leaves a value its column's affinity would not store so, nor a NULL in a sole INTEGER key |
| RowChecks.StepKeepsChecked | schema_modifier.go:241-270 | no statement leaves a NULL where none is allowed, a rowid that is no integer, or two rows with one key |
| RowChecks.InsertRowsIff | schema_modifier.go:254-258 | inserting row after row goes through exactly when all of them together meet the table's checks, and then has put in exactly those |
| TableTexts.TextShows | schema_reader.go:279-279 | that text shows AUTOINCREMENT exactly when the table has an inline auto-increment key, and never WITHOUT ROWID, when no name of the table spells the word |
| ConnectionPool.ReadAll | schema_reader.go:325-345 | draining a result set gives all its rows exactly when every call went well, and holds no connection afterwards |
| SchemaReader.ReadTimeMarkers | type_mapping.go:137-166 | exactly the marked columns of the collection, none without a sidecar, one connection at a time |
| SchemaReader.TableHasAutoIncrement | schema_reader.go:269-280 | answers whether the kept text shows the word, and no exactly when it does not or cannot be read |
| SchemaReader.ReadIndexFields | schema_reader.go:368-397 | the fields of an index in order, none when any term is an expression |
| SchemaReader.IndexesOnFields | schema_reader.go:295-311 | keeps, in order, exactly the indexes whose every field is described |
| SchemaReader.PortableIndexes | schema_reader.go:344-365 | the loop over the drained list keeps in order all but the key's own and expression indexes, exactly when every call goes well |
| SchemaReader.ListIndexes | schema_reader.go:313-366 | the portable indexes of the table, the key's own and expression indexes left out, the list drained before any index is asked about |
| SchemaReader.DescribeColumn | schema_reader.go:178-203 | a marker makes a Time, otherwise the recognised type; an unrecognised one is refused |
| SchemaReader.DescribeColumns | schema_reader.go:148-215 | all fields, key entries and the field to ask AUTOINCREMENT for, or the first unsupported column |
| SchemaReader.ApplySource | schema_reader.go:241-257 | succeeds exactly when the catalog columns are the described ones, as far as there are any, and then takes nullability from exactly the sole INTEGER rowid keys |
| SchemaReader.RejectHiddenSourceColumns | schema_source.go:128-148 | the first generated or hidden column when there is one, none exactly when there is none |
| SchemaReader.ReadSourceDefinition | schema_source.go:17-121 | a hidden column is refused; otherwise text, columns and every index with its terms, each query after the rows of the one before are closed |
| SchemaReader.FinishDescription | schema_reader.go:219-266 | indexes, foreign keys and catalog details one after another; it fails exactly when a call does |
| SchemaReader.DescribeTable | schema_reader.go:216-267 | the rest of a description; an error of the AUTOINCREMENT probe alone is ignored |
| SchemaReader.DescribeCollection | schema_reader.go:122-267 | when every call goes well exactly the answer for the catalog: not found, the first unsupported column, a hidden column, or the description; otherwise a failure, that answer, or it without the AUTOINCREMENT flag; every connection is given back |
| DescribedCatalog.AnswerLaw | schema_reader.go:122-267 | for any catalog: not found exactly when no table is stored under exactly that name, else the first column neither marked nor of a known type, else the first hidden column, else a description whose every field has its column's name, the type and precision its declaration stands for unless marked, NULL exactly where it may be, AUTOINCREMENT on the last integer first in the key; with the key in key order, exactly the table's indexes on plain columns, and the source text, columns and indexes |
| DescribedCatalog.TypeLaw | type_mapping.go:66-106 | a declared type is recognised as exactly what it stands for, by the words and by affinity |
| DescribedCatalog.MarksLaw | type_mapping.go:137-166 | a column is marked exactly when the sidecar holds the pair of exactly these names |
| DescribedCatalog.IndexFieldsLaw | schema_reader.go:368-397 | the terms in order when all are columns, none when one is an expression |
| DescribedCatalog.OnFieldsLaw | schema_reader.go:295-311 | exactly the indexes whose every field is described |
| DescribedCatalog.OnFieldsInOrder | schema_reader.go:295-311 | in their order |
| NormalForm.DescribedFields | schema_reader.go:122-267 | describing any collection after a sound run gives each column's explicit normal form, Time restored through its marker, the sole INTEGER key not nullable |
| NormalForm.DescribedKey | schema_reader.go:220-224 | and its key in key order |
| NormalForm.ListedCollections | schema_reader.go:17-26 | the collections listed are those of the schema, as spelled, but for SQLite's own and the sidecar |
| CreateDescribe.CreateThenDescribe | schema_reader.go:122-267 | create then describe, for every definition created where no collection had its name: the fields in normal form, the same key in the same order, the same indexes newest first but for those IfNotExists passed over, key and index fields as the fields are spelled |
| CreateDescribe.CreatedIndexes | schema_reader.go:347-365 | the indexes of a created collection read back with their names, fields in order and uniqueness; missing are exactly those passed over because their name was taken |
| ForeignKeys.ItoaInjective | schema_foreign_keys.go:48-48 | different ids give different key names |
| ForeignKeys.KeyNameLaw | schema_foreign_keys.go:48-48 | the name of a key is its table's, "_fk_" and the id in decimal |
| ForeignKeys.GroupRows | schema_foreign_keys.go:37-61 | the loop over the rows computes the grouping |
| ForeignKeys.GroupingKeepsColumns | schema_foreign_keys.go:46-57 | flattening the grouped keys gives back the rows' columns in order |
| ForeignKeys.DistinctIdsLaw | schema_constraints.go:44-47 | the distinct ids of rows in id order are exactly the rows' ids, strictly ascending |
| ForeignKeys.GroupingNames | schema_foreign_keys.go:46-52 | one key for each distinct id, in order, under the name the survey of constraints gives |
| ForeignKeys.UnnamedTargetsTakeTheKey | schema_foreign_keys.go:71-96 | a key naming no target column ends with the target's primary key in key order, and its target is named as the database spells it |
| ForeignKeys.ForeignKeyLaw | schema_foreign_keys.go:37-98 | against the rows alone: one key for each distinct id, ascending; enforcement as the database says; update and delete actions and target those of the id's first row; fields and named target columns those of its rows, in the same order, so that pairs stay together; the target's key when none is named |
| ForeignKeys.TableSpellings | schema_foreign_keys.go:113-134 | every table of the database under its folded name, as it is spelled |
| ForeignKeys.ReadForeignKeys | schema_foreign_keys.go:13-98 | grouped and resolved keys exactly when every call goes well, over one connection that is given back on every path |
| Text.FoldIsUpperEquality | schema_foreign_keys.go:100-109 | folded names are equal exactly when the names differ in ASCII letter case only |
| Constraints.ListConstraints | schema_constraints.go:23-73 | key, foreign keys and unique constraints exactly when every call but the row read of the key probe goes well; the key is left out exactly when there is none or that read fails; connections given back |
| Constraints.SurveyNamesTheKeys | schema_constraints.go:57-60 | its foreign-key entries are the names of the foreign keys, in order |
| Constraints.SurveyLaw | schema_constraints.go:27-95 | listed are exactly the primary key the probe found, one foreign key for each id, and the UNIQUE constraints of the table, each under its kind |
| Constraints.SurveyOrder | schema_constraints.go:27-75 | the primary key first, then the foreign keys by id, then the UNIQUE constraints, newest index first |
| Listing.ListCollections | schema_reader.go:17-52 | the user tables in alphabetical order, each once; an error exactly for a table with an empty name or a call that fails |
| Listing.OneListing | schema_reader.go:22-25 | a catalog has only one such listing |
| Constraints.ReferrerFields | schema_constraints.go:127-145 | the columns of the rows whose target is the name in any letter case |
| Constraints.ListReferrers | schema_constraints.go:100-122 | the referrers among all other collections, in alphabetical order, one connection at a time; an error exactly when the listing or a call fails |
| Constraints.ReferrersLaw | schema_constraints.go:106-119 | a table is listed exactly when it has referring columns, with exactly those |
| Constraints.ReferrersInOrder | schema_constraints.go:106-119 | referrers stand in alphabetical order |
| Constraints.RoutesAgreeIff | schema_constraints.go:124-145 | for every target, in any spelling and whether or not it exists: the columns reported are the fields of the foreign keys that resolve to it, in order, if and only if each row naming it in some letter case resolves to the spelling asked for |
| Constraints.ReferrerDuality | schema_constraints.go:100-145 | so for an exactly spelled target: listed if and only if some foreign key resolves to it, and the columns are the concatenation of those keys' fields |
| Constraints.OtherSpellingsDiffer | schema_constraints.go:124-131 | for an existing target in another letter case the survey answers as for the exact name, no foreign key resolves to it, and the two part if and only if some key row names the table |
| Constraints.SelfReferrers | schema_constraints.go:107-109 | a collection is listed among the referrers of itself if and only if it is asked for under another spelling and has a key to itself |
| SourceRows.OrderLaw | source_rows.go:82-108 | no order exactly for a keyless table shadowing all three aliases; otherwise a permutation of the key ascending in position, or the first alias no column shadows |
| SourceRows.ChooseAlias | source_rows.go:89-107 | the loop finds that alias |
| SourceRows.BuildProjection | source_rows.go:70-81 | 2n terms: the n values, then the n storage classes |
| SourceRows.CellsAligned | source_rows.go:134-139 | cell i is the row's value i and cell n+i its storage class |
| SelectQuery.SelectRoundTrip | source_rows.go:70-110 | the SELECT sent is read back as exactly its terms, table and order, or not at all when a name has a NUL |
| SelectQuery.TermsGive | source_rows.go:75-81 | what a term of that text gives on a row is the column's value as it is stored, or the name of its class, whatever CAST makes of values other than text |
| SourceRows.OpenSourceRows | source_rows.go:29-115 | a cursor over every row of the table once, holding the one connection, exactly when the table exists, has columns and none hidden, can be ordered, its names can be written, and every call goes well; otherwise nothing, holding none |
| SourceRows.SourceRowsCursor.Next | source_rows.go:117-169 | when its calls go well exactly the next row as reported, a refusal for a row with a refused value, or the end after the last row; otherwise a refusal |
| SourceRows.SourceRowsCursor.ReadCell | source_rows.go:139-164 | a BOOLEAN is null, 0 or 1 or refused; a decimal is rendered; anything else is native |
| SourceRows.RowAligned | source_rows.go:130-168 | each column's name carries its own value and its own class, no other name appears, and a row is refused exactly when one of its values is |
| SourceRows.RowLaw | source_rows.go:130-168 | a row is given exactly when every cell reads: under a Boolean declaration 1 is true, 0 false, NULL null and nothing else reads; under a decimal one an integer is its decimal text and a finite real its rendering; anything else is as stored; each under its column's name with the class of its own value |
| SourceRows.IntTextDenotes | source_rows.go:156-157 | the text of an integer decimal denotes it: sign, digits without leading zero, and their value |
| SourceRows.IntTextInjective | source_rows.go:156-157 | decimals stored as INTEGER are rendered without loss |
| TableReadReader.CloseProtocol | table_read_session.go:163-219 | in every interleaving: at most one native close, only after the release; whenever the flag is set a caller is on its way to the store or the result is stored; an error leaves the reader closed; a returned value came from a native call that returned while everything was live |
| TableReadReader.ResultReturned | table_read_session.go:173-184 | once the close result is stored it never changes and every Close that began later returns it |
| TableReadReader.StoredIsAnswer | table_read_session.go:181-182 | what is stored is the answer of the native close |
| TableReadReader.OneNativeClose | table_read_session.go:180-181 | there is one native close, by one caller, with one answer |
| TableReadReader.CloserReturnsAnswer | table_read_session.go:180-183 | the call that made the native close returns its answer |
| TableReadReader.CloseAnswers | table_read_session.go:173-184 | in every interleaving a Close answers what its own native close did, or, having found the flag set, the result stored then and no error when there was none; a result stored before it began is what it answers |
| TableReadReader.CallKeepsKind | table_read_session.go:173-246 | a Next or Cursor call ends with a value or an error of its own, a Close call with what the close gave |
| TableReadReader.DeadCallFails | table_read_session.go:163-207 | a Next or Cursor call that begins when the reader, its context or the span has ended fails without calling native |
| TableReadReader.OneCloser | table_read_session.go:174-182 | never two callers between the swap and the store |
| TableReadReader.StepKeeps | table_read_session.go:163-246 | every single step keeps the invariant and takes nothing back |
| TableReadSpan.OneCleanup | table_read.go:206-226 | in every interleaving one caller cleans up, in order swap, cancel, rollback, connection close, pool close, complete when its Close returns |
| TableReadSpan.NoLateSuccess | table_read.go:187-203 | no session or facts call whose last check follows the swap succeeds |
| TableReadSpan.EndedCallFails | table_read_session.go:22-101 | a call that begins when the span is closed or cancelled or its own context has ended fails, a session call without calling native; so does one whose native call is under way when the span ends |
| TableReadSpan.NoLateSession | table_read.go:178-185 | the Session accessor that gives out the session saw the flag before the swap and made its last check before the cancellation |
| TableReadSpan.LateSession | table_read.go:178-185 | a concrete interleaving where its last check follows the swap and it gives out the session all the same |
| TableReadSpan.StepKeeps | table_read.go:176-226 | every single step, of Close, of a session or facts call and of the Session accessor, keeps the invariant |
| TableReadContext.LinkedIsEarliest | table_read_session.go:34-40 | the linked deadline is reached exactly when the caller's or the span's is |
| TableReadSession.CallContext | table_read_session.go:22-48 | a success is an unreleased context with the earlier deadline and a hook on the span, the only one made, and nothing had ended at the call; it succeeds whenever nothing has ended at the return; on a failure every context made on the way has been released, once |
| TableReadSession.LiveError | table_read_session.go:50-61 | live exactly when the context, the span's context and the flag were each found live at their turn, the hook running meanwhile; not live means a parent has ended |
| TableReadContext.FollowsParents | table_read_session.go:36-42 | in every interleaving: both deadlines reach the linked context at once; after the caller's end it is cancelled or the step that passes it on is open; after the span's end and until a release begins it is cancelled or a step of the hook is open |
| TableReadContext.CallerEndsContext | table_read_session.go:36-40 | once the caller's end has been passed on the context is done for good |
| TableReadContext.HookEndsContext | table_read_session.go:41-41 | once the hook has taken its two steps the context is done for good, and it never takes them before the span is done |
| TableReadContext.ReleaseEndsContext | table_read_session.go:42-42 | a release ends the context for good, whatever the hook does meanwhile |
| TableReadContext.DoneStays | table_read_session.go:36-42 | nothing that ended the context is ever taken back |
| TableReadContext.DoneHasReason | table_read_session.go:36-42 | until released, the context is cancelled, and done, only when a parent is done |
| TableReadSession.LinkedContext.Meanwhile | table_read_session.go:41-41 | between two steps of a call the caller's end is passed on and the hook runs, each whenever it may and its turn has come, by the steps of that machine |
| TableReadSession.ExecuteQuery | table_read_session.go:103-151 | a reader owning the one context and the one native reader made, unreleased and open, only if the inner session gave one without an error and nothing had ended before, and whenever it did and nothing has ended at the end; otherwise every context made was released exactly once and every native reader handed out was closed exactly once |
| TableReadOpen.CellBudget | table_read.go:143-150 | N cells of the bound fit the budget and no larger bound does; the bound is eight or more exactly when the budget is 8N |
| TableReadOpen.RowFitsBudget | table_read.go:21-31 | N accepted cells total at most MaxBytes |
| TableReadOpen.InspectDatabases | table_read.go:262-287 | accepts only a file that is the only database, and exactly that when every call goes well; its result set is closed on every path |
| TableReadOpen.InspectColumns | table_read.go:289-319 | accepts only ordinary columns with plain distinct names in order, at least one and not too many, and exactly those when every call goes well; its result set is closed on every path |
| TableReadOpen.InspectTableRead | table_read.go:228-260 | accepts only an admissible UTF-8 file and table, with its columns in order, and exactly those when every call goes well |
| TableReadOpen.Span.Close | table_read.go:206-226 | the first Close gives every resource back once whatever fails on the way, and reports each of its calls that failed; later ones do nothing and report nothing |
| TableReadOpen.Establish | table_read.go:104-174 | on every path the span has recorded everything the driver handed out and nothing is given back; a success has query_only on, the transaction open and both limits read back before the session exists; when every call goes well it succeeds exactly for an admissible file and a budget of eight bytes a column |
| TableReadOpen.Begin | table_read.go:96-174 | after a valid request: the one span begun, established, owning everything handed out, its facts the file, the table, the distinct plain column names in order and both limits, its cells bounded so that a row stays within the budget; or everything handed out given back exactly once and the span closed and cancelled |
| TableReadOpen.OpenTableRead | table_read.go:89-174 | a fully established span that owns everything the driver handed out, or none, with every database, connection and transaction handed out given back exactly once and every span begun closed and cancelled; when every call goes well it succeeds exactly for a valid request, an admissible file and a budget of eight bytes a column |

## Left out

- SQLite itself, the modernc driver and `database/sql`: the catalog steps, `Storage` and the pool stand for them. Assumed: a refused statement changes nothing; table and index names are unique up to ASCII letter case; a conversion to an affinity, applied again, changes nothing and leaves NULL and integers of an INTEGER column alone (`StoredValues.Lawful`).
- The rows of pragma_foreign_key_list come in order of id and place. Two of the three queries ask for that order; schema_constraints.go:127-131 asks for none and gets the order the pragma has. The columns of a referrer are stated as sequences under that assumption, and rows of one key are assumed to name one target.
- The sidecar table is kept apart from user tables: a collection named like it is not modelled. Its own DDL helpers outside transactions (type_mapping.go:108-135 and 168-189) are not modelled.
- A key clause naming a column twice and double-quoted names falling back to string literals are taken as refused by the engine.
- TableTexts.StepKeepsTexts: the text SQLite keeps after ALTER TABLE is modelled as the canonical CREATE of the new shape, not as its edit of the old text, so for those statements the invariant is part of the model.
- Foreign keys are read but not enforced or carried across DDL steps; hidden columns are known by name alone; defaults, views, and the lenient reader (except `IndexesOnFields`) are not modelled.
- ColumnRewrite.RewritePreservesData: the copy checks keys and NOT NULL, not the unique indexes of other tables, and asks for a table of emitted types.
- NormalForm.DescribedFields: no identifier may contain AUTOINCREMENT or WITHOUT ROWID, since the reader searches the kept text for them.
- CreateDescribe.CreateThenDescribe: the same condition on the names; it is about a name no collection had, and what a creation over an existing one does is in `CreationLaws`.
- SchemaReader.ReadSourceDefinition: of an index its name, uniqueness, origin and terms; its DDL text, the partial flag and a term's position, sort order, collation and key flag are left out.
- SchemaReader.DescribeCollection: the catalog does not change while it is described.
- SelectQuery.SelectRoundTrip: the grammar is that of the one SELECT sent; CAST of anything but text is a parameter.
- ForeignKeys.ForeignKeyLaw: asks for the rows in order of id, as the query does.
- SourceRows.SourceRowsCursor.Next: binary64 formatting of decimals is a parameter; the engine's ordering of values is not modelled, only the ORDER BY terms.
- TableReadContext.FollowsParents: a deadline ends a context at its instant, not when a timer gets its turn; that a waiting hook is scheduled at all is the scheduler's part.
- TableReadSession.ExecuteQuery: one model for both query functions, which open alike; Exists, Get and GetMulti appear as calls of `TableReadSpan`.
- TableReadReader.CloseProtocol: the Recordset accessor, which closes nothing, is not a step.
- TableReadOpen.Span.Close: a rollback that finds its transaction done counts as gone well.
- TableReadOpen.OpenTableRead: path rules are one flag; concurrent cancellation appears as an opening that may fail at any call.
- Unicode case mapping, error messages, wall-clock time, scheduling fairness and real I/O.
- Not modelled as files: database.go (opening a file, options, the lenient copy), database_dal.go (record reads, writes and transactions handed to dalgo2sql), schema_reader_borrowed.go (the same readers over a connection pool it does not own), transactional_ddl.go (a constant), errors.go (a message), sqlite_classifier.go (two result codes that mean "already exists"), source_constraints.go (SQLite's own integrity and foreign-key checks, asked for and passed on).
