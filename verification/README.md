# A verified model of SQLFlow's program analysis, model storage and text scanners

SQLFlow compiles SQL programs extended with machine-learning clauses, runs their statements as a
workflow, keeps trained models in database tables, and talks to its users through line-oriented
readers and pipes.  This project models those parts of it whose behaviour is hard to see from any
single function, and proves what they promise.

**Dependency graph** (`VersionColumn`, `DependencyGraph`, `EdgeSet`, `StatementTables`, `ProgramMeaning`,
`ProgramAnalyzer`). The analysis gives every statement versioned table nodes as inputs and outputs and
appends outputs to statements it has analysed before. It is proved to produce exactly the edge set that
`EdgeSet.OrderedOn` states on the program text, and for every statement exactly the inputs, in order and
with their producers, and the outputs that `StatementTables` reads off the text, on the heap objects as
well as on values. Running the statements in every order that the graph allows then gives the meaning of
program order if and only if every reader of a table is connected to every later writer of it. That fails
for two queries of a table that is dropped afterwards, which is the shape of the program in the
repository's own example; the condition under which it always holds is proved too.

**sqlfs and the models kept in it** (`Base64`, `Sqlfs`, `WriteRuns`, `SqlfsWriter`, `SqlfsReader`,
`ModelFrame`, `ModelRuns`, `ModelStore`). A table is a multiset of rows; the database refuses any set of
inserts and any set of queries, without effect; a query that is not refused returns its rows in any order.
For every byte string, every split into writes, every retry, every batch size and every sequence of read
sizes, what is read back is what was written, the rows are the canonical ones, reads are full, the end is
reported exactly when nothing is left, and a failed query is reported exactly when one was refused. On
arbitrary tables the bytes handed out up to the first corrupt block are a prefix of the decoded leading
rows. On top come the length-prefixed frame, saving, dumping, releasing and downloading; what a save and a
release leave is a function of the inserts refused, over which their guarantees are stated.

**Streams of text** (`StatementSplitter`, `LineLiterals`, `LogWriter`, `PipeRuns`, `Lexer`,
`CommentRemover`, `KeptComments`). Each scanner is an object or a loop over its input with the state that
the original carries, proved against a description of its input: the code of the lines read, character by
character, the unique lines of a stream, the items of each writer of a pipe, the one sequence of tokens
and gaps that tiles the input, and the comments that are cut and those that stay. What a literal, a
comment outside of literals and the end of a statement are is stated on the text alone: a literal runs to
the first mark of its kind behind an even number of backslashes.

**Feature derivation** (`FieldSampling`, `RowOrder`, `FieldDerivation`, `FeatureColumns`). Sampled rows
update field descriptions in place. Whether the result depends on the order of the rows is settled by an
if-and-only-if, and every identifier or index drawn from the samples is shown to lie below the bucket
size that the feature columns take from the field.

`Wrappers` holds the two result types, and `Characters` the character classes and the marks that
backslashes escape, that the modules share.

## Findings

Where the code does not do what its documentation or its name suggests, the model follows the code.

- A write after reads is ordered after the nearest reader only, and not even after that one if the writer
  reads the table itself, unless another write lies in between; the other readers may run after the
  writer: `ProgramMeaning.MeaningIffReadersOrdered` and `QueriesThenDropReordered`.
- `SaveDBExperimental` ignores the results of its first two writes (go/model/model.go:245-246).  For every
  metadata and tarball, saves that report success read back as what was saved, whichever inserts are
  refused, if and only if header and metadata fit the buffer, that is up to 32758 bytes of metadata:
  `ModelRuns.SavesReadBackIff`.  With one byte more, a single refused insert loses it
  (`ModelRuns.OneByteTooMany`), and the dump takes it from the tarball (`ModelRuns.LosingSave`).
- The metadata header is ten bytes only below 2^32 bytes of metadata: `ModelFrame.HeaderExact`.
- `ReleaseModel` completes the zoo's table in a deferred close whose error is dropped
  (go/modelzooserver/modelzooserver.go:424).  Releases that report success copy the file, whichever inserts
  are refused, if and only if its length is a multiple of the buffer size: `ModelRuns.ReleasesIff`.  For any
  other length, refusing the last insert loses the last row: `ModelRuns.LosingRelease`.
- Recorded left quotation positions count from the end of the previous literal
  (go/parser/sqlflow_parser.go:183), so a comment outside of literals can be kept
  (`CommentRemover.CommentBetweenLiteralsStays`).  A marker stays if and only if it lies in the shadow of a
  literal (`KeptComments.MarkerStaysIff`), and all comments go if and only if none begins in one
  (`KeptComments.EveryCommentGoesIff`, and `KeptComments.AllRemovedIff` for both removals of
  `RemoveCommentInSQLStatement`, which keeps such a comment too: `KeptComments.CommentStays`).
- `--` directly before a line break, and `/*/`, count as no skipped characters (go/parser/lexer.go:114,
  130-138), so the lexer stops in front of what follows: a line break that starts no token
  (`Lexer.StopsAtLineBreak`), or a comment that is read as operators (`Lexer.ReadsCommentAsOperator`).
  `Lexer.EarlyStopIff` says exactly when.  Such comments do not rewind the lexer at the end of the input.
- An identifier may end with a dot (`Lexer.DotEndsIdent`) although a comment in the source says otherwise
  (go/parser/lexer.go:193): `Lexer.WordEndsWithDotIff`.
- A string may end at the other kind of quotation mark (go/parser/lexer.go:276,
  `Lexer.OtherMarkEndsString`): it ends at its own kind if and only if no mark of the other kind that could
  end it comes before (`Lexer.OwnMarkIff`).
- A character that starts no token is reported like the end of the input if and only if it is the first one
  (go/parser/lexer.go:182): `Lexer.ReportsEndIff` and `Lexer.ForeignStartIsEnd`.
- A line with a comment loses the blanks around its code (go/cmd/sqlflow/main.go:180), also those of a
  literal that the line continues (`StatementSplitter.IndentedLiteral`): if and only if the line begins
  with a blank inside a literal and ends no statement in front of a comment outside quotes
  (`StatementSplitter.LiteralsKeptIff`).  That is said of the line as it is scanned, which is the one typed
  if and only if it has no written-out control character (`StatementSplitter.ScannedAsTypedIff`); in a
  literal those are replaced as well (`StatementSplitter.WrittenOutLiteral`).
- The description of a field can depend on the order of the rows (go/ir/derivation.go:237-266, 358-396): the
  first cell decides the format, so that a sparse column of the cells 3 and 3,5 is one of scalars or one of
  lists (`RowOrder.SingleIndexAndList`); in a column of scalars the last of a float and a text decides the
  data type (`RowOrder.FloatAndText`), and in a sparse column of lists the last row does.
  `RowOrder.DenseOrderFreeIff` and `RowOrder.SparseOrderFreeIff` say exactly when the order does not matter,
  and `RowOrder.SampledColumnOrderFree` carries both to the sampled rows of a table.

## Model

| member | source | states |
|---|---|---|
| `VersionColumn.OpenValid` | go/ir/deps/sql_program_deps_graph.go:78-91 | Starting a statement keeps, for each table, exact edges, sole producers, forward edges and version numbers below the count. |
| `VersionColumn.ReadValid` | go/ir/deps/sql_program_deps_graph.go:99-117 | Reading a table keeps them: the reader is fed by the last writer before it and by no one else. |
| `VersionColumn.WriteValid` | go/ir/deps/sql_program_deps_graph.go:119-179 | Writing a table keeps them, though earlier statements get new outputs: the writer is fed by all writers before it, by the readers that an earlier write has renamed, and by the nearest reader unless it reads the table itself. |
| `DependencyGraph.ReadTableColumn` | go/ir/deps/sql_program_deps_graph.go:99-117 | Reading one table changes the versions of that table only, by one read event. |
| `DependencyGraph.ResolveColumn` | go/ir/deps/sql_program_deps_graph.go:152-179 | Resolving hazards backwards over all statements is resolving them on the versions of the one table. |
| `DependencyGraph.WriteTableColumn` | go/ir/deps/sql_program_deps_graph.go:122-148 | Writing one table is one write event on its versions. |
| `DependencyGraph.WriteTableElsewhere` | go/ir/deps/sql_program_deps_graph.go:122-179 | Writing one table leaves the versions of every other table alone. |
| `DependencyGraph.AnalyzeAllValid` | go/ir/deps/sql_program_deps_graph.go:78-97 | After any program, and so after any prefix of one, every table satisfies the invariants. |
| `EdgeSet.ColumnEdge` | go/ir/deps/sql_program_deps_graph.go:99-179 | Two statements share a version of a table, produced by one and consumed by the other, if and only if the program orders them on that table. |
| `EdgeSet.ExactEdges` | go/ir/deps/sql_program_deps_graph.go:59-179 | The graph has an edge from i to j if and only if i comes first and, for some table, both write it, or j reads what i wrote last, or i reads it and j writes it after another write (or twice), or j writes without reading it right after the reader i. |
| `EdgeSet.VersionDiscipline` | go/ir/deps/sql_program_deps_graph.go:78-96 | After any prefix: the versions in use of a table are exactly those numbered below its count, no version has two producers, a statement that lists no output twice produces at most one version of a table, and every edge goes forward. |
| `StatementTables.InputsOf` | go/ir/deps/sql_program_deps_graph.go:99-179 | The inputs of a statement are a version of each table it reads, in the order listed, made by the last writer before it, or version 0 if there is none; behind them comes one input for each output listed and each earlier statement that it has to wait for on account of that output, by output and from the latest statement to the first, and that input is what the earlier statement has first for the table. |
| `StatementTables.OrderUnique` | go/ir/deps/sql_program_deps_graph.go:154 | That order leaves one list of such inputs. |
| `StatementTables.OutputsOf` | go/ir/deps/sql_program_deps_graph.go:119-179 | The outputs of a statement are a version of each table it lists as output, in that order, and behind them one for each table that it reads, does not write, and a later statement writes. |
| `StatementTables.PlainInputs` | go/ir/deps/sql_program_deps_graph_test.go:45-48 | Without such a wait a statement has exactly the inputs it lists, so the first one has. |
| `StatementTables.QueriesThenDropLists` | go/ir/deps/sql_program_deps_graph_test.go:26-31 | A table made, queried twice and dropped: the drop waits for the second query and then for the maker, and both queries get an output. |
| `ProgramMeaning.WritesAreOrdered` | go/ir/deps/sql_program_deps_graph.go:157-163 | In every program, two writers are joined by an edge, and a writer and a later reader by at most two. |
| `ProgramMeaning.Rearrange` | go/ir/deps/sql_program_deps_graph.go:57-97 | A schedule that keeps conflicting statements in order can be rearranged into program order without changing what any statement sees or leaves. |
| `ProgramMeaning.MeaningIffReadersOrdered` | go/ir/deps/sql_program_deps_graph.go:57-179 | All schedules that the graph allows give the meaning of program order, for all behaviours of the statements, if and only if every reader reaches every later writer of the table. |
| `ProgramMeaning.UnorderedReaderSees` | go/ir/deps/sql_program_deps_graph.go:164-176 | If a writer may run before an earlier reader, some behaviour and schedule show the difference. |
| `ProgramMeaning.UnsharedReadersSuffice` | go/ir/deps/sql_program_deps_graph.go:164-176 | Meaning is preserved when no two statements see the same version of a table that is overwritten later. |
| `ProgramMeaning.QueriesThenDropReordered` | go/ir/deps/sql_program_deps_graph_test.go:26-31 | Two queries of a table followed by its drop: the first query may run after the drop. |
| `ProgramAnalyzer.Contains` | go/ir/deps/sql_program_deps_graph.go:190-197 | Finds whether a node of the full name is in the list. |
| `ProgramAnalyzer.GetFirstInList` | go/ir/deps/sql_program_deps_graph.go:181-188 | Returns the first node of the full name, or none if there is none. |
| `ProgramAnalyzer.Analysis.AddVersion` | go/ir/deps/sql_program_deps_graph.go:141-147 | The new node is the next version of its table and the last of its list; all nodes known before stay registered. |
| `ProgramAnalyzer.Analysis.LatestNode` | go/ir/deps/sql_program_deps_graph.go:101-114 | A reader gets the newest version, made on first mention. |
| `ProgramAnalyzer.Analysis.ConnectInput` | go/ir/deps/sql_program_deps_graph.go:100-116 | One more input is one read of the specification, whose inputs StatementTables.InputsOf counts. |
| `ProgramAnalyzer.Analysis.ConnectStatementInputs` | go/ir/deps/sql_program_deps_graph.go:99-117 | The inputs built on the heap are those of the specification, one read after another. |
| `ProgramAnalyzer.Analysis.Promote` | go/ir/deps/sql_program_deps_graph.go:166-171 | A reader gets the next version of the table as an additional output, in place. |
| `ProgramAnalyzer.Analysis.FeedEarlierOutput` | go/ir/deps/sql_program_deps_graph.go:157-163 | A writer consumes the first output that an earlier writer has for the table; it always has one. |
| `ProgramAnalyzer.Analysis.FeedReader` | go/ir/deps/sql_program_deps_graph.go:164-176 | A reader is given an output, which the writer consumes unless it has the table among its inputs. |
| `ProgramAnalyzer.Analysis.ScanPrevious` | go/ir/deps/sql_program_deps_graph.go:154-177 | One turn of the backward scan is one step of the specification. |
| `ProgramAnalyzer.Analysis.ResolveHazard` | go/ir/deps/sql_program_deps_graph.go:152-179 | The scan mutates earlier statements exactly as the specification says. |
| `ProgramAnalyzer.Analysis.NextNode` | go/ir/deps/sql_program_deps_graph.go:136-147 | A later write resolves hazards and then adds the next version. |
| `ProgramAnalyzer.Analysis.OutputNode` | go/ir/deps/sql_program_deps_graph.go:122-147 | One output of a statement, for a table that is new or known. |
| `ProgramAnalyzer.Analysis.ConnectStatementOutputs` | go/ir/deps/sql_program_deps_graph.go:119-150 | All outputs of a statement, one write after another. |
| `ProgramAnalyzer.Analysis.AnalyzeStatement` | go/ir/deps/sql_program_deps_graph.go:79-91 | Appends one statement with its order, text, inputs and outputs, keeping all earlier objects. |
| `ProgramAnalyzer.AnalyzeStatements` | go/ir/deps/sql_program_deps_graph.go:78-92 | After the loop the heap describes the specification of the whole program. |
| `ProgramAnalyzer.FeedsIsEdge` | go/ir/deps/sql_program_deps_graph.go:59-97 | One statement object shares an output node with the inputs of another if and only if the program orders them. |
| `ProgramAnalyzer.NodesAreListed` | go/ir/deps/sql_program_deps_graph.go:59-97 | The nodes that a statement object holds are those its program text calls for, in order, and a version produced and consumed is one node. |
| `ProgramAnalyzer.Analyze` | go/ir/deps/sql_program_deps_graph.go:59-97 | Fails on the empty program, and when drawing the graph of several statements fails, which still returns the result; otherwise returns new statement objects in order whose shared nodes are exactly the predicted edges and whose inputs and outputs are exactly those the text calls for; a statement on its own has none. |
| `Base64.DecodeEncode` | go/sqlfs/sql_writer.go:33 | Decoding undoes encoding for all byte strings. |
| `Base64.SymbolOf` | go/sqlfs/sql_writer.go:33 | The symbols are those of the standard alphabet, in its order. |
| `Base64.TestVectors` | go/sqlfs/sql_writer.go:33 | The encodings that section 10 of RFC 4648 gives. |
| `Base64.BlockFitsText` | go/sqlfs/sql_writer.go:33 | A block takes four characters for every three bytes begun, and fits a 65535-byte text column up to 49149 bytes, so a full buffer does. |
| `Sqlfs.ConcatChunks` | go/sqlfs/flush_write_closer.go:38-56 | Cutting a stream into blocks loses nothing. |
| `Sqlfs.ChunksShape` | go/sqlfs/flush_write_closer.go:38-67 | N bytes take ceil(N/B) blocks, all full except possibly the last, none empty. |
| `Sqlfs.ChunksOfFull` | go/sqlfs/flush_write_closer.go:38-67 | Full blocks followed by a shorter rest are the only such cut of their concatenation. |
| `Sqlfs.CutIsChunks` | go/modelzooserver/modelzooserver.go:632-658 | Blocks taken from a stream one after another, all full except for the last, are the first blocks of its canonical cut, and all of it at the end of the stream. |
| `SqlfsWriter.SqlTable.Query` | go/sqlfs/reader.go:41-59 | Fails exactly if this query is one that the database refuses, and otherwise answers with all rows of the range. |
| `SqlfsWriter.Flusher.Flush` | go/sqlfs/sql_writer.go:25-43 | A failed flush changes nothing; a successful one adds a row with the next id for a non-empty buffer, and none for an empty one. |
| `SqlfsWriter.FlushWriteCloser.FlushBuffer` | go/sqlfs/flush_write_closer.go:49-52 | The buffer is emptied only if the flush succeeded. |
| `WriteRuns.WriteBytes` | go/sqlfs/flush_write_closer.go:38-56 | Writing loses nothing that it takes, whichever inserts are refused. |
| `WriteRuns.WriteCounts` | go/sqlfs/flush_write_closer.go:38-56 | Only full buffers are inserted, one insert is tried for each, and only a refusal stops the writing. |
| `WriteRuns.WriteSize` | go/sqlfs/flush_write_closer.go:38-56 | Everything is taken unless an insert is refused, which leaves a full buffer to retry. |
| `WriteRuns.PiecesBytes` | go/sqlfs/flush_write_closer.go:38-56 | A stream that arrives in pieces is stored and buffered completely, unless an insert is refused. |
| `SqlfsWriter.FlushWriteCloser.Write` | go/sqlfs/flush_write_closer.go:38-56 | The bytes accepted are the first n of the argument, all of them on success; rows plus buffer always hold exactly the bytes accepted, only full buffers are flushed, a failure leaves a full buffer to retry, and state and result are those of the specified run. |
| `SqlfsWriter.FlushWriteCloser.Close` | go/sqlfs/flush_write_closer.go:58-67 | Flushes the rest; closing again neither fails nor changes the table. |
| `SqlfsWriter.ClosedRows` | go/sqlfs/flush_write_closer.go:38-67 | After Close the rows depend on the byte stream and the buffer size only. |
| `SqlfsReader.SortOrdered` | go/sqlfs/reader.go:61-63 | Sorting a batch orders it by id and keeps its rows. |
| `SqlfsReader.Continues` | go/sqlfs/reader.go:65-69 | Accepts exactly the batches whose ids continue the row index without a gap. |
| `SqlfsReader.CheckedBatch` | go/sqlfs/reader.go:41-69 | A sorted batch that passes the check holds each of its ids once, and all rows of the range queried. |
| `SqlfsReader.FileBatch` | go/sqlfs/reader.go:41-69 | On a table with the ids 0 to k-1 every answer, in any order, passes the check. |
| `SqlfsReader.LeadingOfFile` | go/sqlfs/reader.go:76-99 | On such a table the leading blocks are a prefix of its blocks, and all of them exactly when the next row is missing. |
| `SqlfsReader.ContentsOf` | go/sqlfs/reader.go:125-152 | The rows determine the bytes of the file. |
| `SqlfsReader.ContentsOfFile` | go/sqlfs/reader.go:125-152 | What a closed writer leaves is a file of the bytes written. |
| `SqlfsReader.FullRead` | go/sqlfs/reader.go:125-152 | On a stored file a read gives min(wanted, left) bytes and reports the end exactly when nothing is left and something is wanted. |
| `SqlfsReader.Reader.FetchBatch` | go/sqlfs/reader.go:41-69 | Reports a failed query exactly if its one query is refused; otherwise a batch is a run of rows from the row index on, or the table is no file. |
| `SqlfsReader.Reader.ReadNextFragments` | go/sqlfs/reader.go:40-74 | Takes the next batch with one query; a short one means that the next row is missing. |
| `SqlfsReader.Reader.NextBlock` | go/sqlfs/reader.go:76-99 | Hands out the blocks in id order without gap or repetition; the end is reported only when the next row is missing. |
| `SqlfsReader.Reader.CopyOut` | go/sqlfs/reader.go:132-134 | Moves the front of the buffer to the caller. |
| `SqlfsReader.Reader.Refill` | go/sqlfs/reader.go:135-145 | Takes and decodes the next block, or says why there is none. |
| `SqlfsReader.Reader.CopyAndRefill` | go/sqlfs/reader.go:131-146 | One turn makes progress in bytes or rows, so the loop ends. |
| `SqlfsReader.Reader.Read` | go/sqlfs/reader.go:125-152 | On any table: up to the first corrupt block the bytes handed out are a prefix of the decoded leading rows.  On a stored file: full reads and a sticky end.  A failed query is reported if and only if one was refused during the read. |
| `SqlfsReader.Reader.Close` | go/sqlfs/reader.go:154-158 | A closed reader refuses to read. |
| `ModelFrame.HeaderExact` | go/model/model.go:243-244 | The header is ten bytes, and its first ten bytes parse back to the length, if and only if the length is below 2^32. |
| `ModelFrame.HeaderOf255` | go/model/model.go:244 | The header of 255 bytes of metadata. |
| `ModelFrame.SignedHeader` | go/model/model.go:353-356 | A length with a sign, so that it can be negative. |
| `ModelFrame.OctalHeader` | go/model/model.go:353-356 | Lengths whose prefix says base eight. |
| `ModelFrame.PrefixedHeader` | go/model/model.go:353-356 | Lengths whose prefix says base two or sixteen. |
| `ModelFrame.UnderscoredHeader` | go/model/model.go:353-356 | Lengths with underscores, which must stand between digits. |
| `ModelFrame.FrameRoundTrip` | go/model/model.go:243-246 | A frame whose metadata was cut reads back as the pair saved if and only if nothing was cut and the length is below 2^32. |
| `ModelFrame.FrameRoundTripWhole` | go/model/model.go:343-382 | An uncut frame reads back if and only if the metadata is shorter than 2^32 bytes. |
| `ModelRuns.SaveFacts` | go/model/model.go:196-223 | A save that reports success leaves the canonical rows of the stream; one that fails has met a refused insert, and its deferred close has tried again. |
| `ModelRuns.SaveKeeps` | go/model/model.go:226-262 | A save with metadata that reports success holds what the first two writes took and all of the tarball, and all of the metadata when it fits the buffer behind the header. |
| `ModelRuns.SavedModelReadsBack` | go/codegen/experimental/codegen_step.go:247-269 | A table that holds the frame with its metadata cut dumps as the pair saved if and only if nothing was cut and the metadata is shorter than 2^32 bytes. |
| `ModelRuns.SavesReadBackIff` | go/model/model.go:226-262 | For every metadata and every tarball, all saves that report success, over all sets of refused inserts, read back as the pair saved if and only if the metadata is at most the buffer size less ten bytes. |
| `ModelFrame.CutFrame` | go/model/model.go:349-365 | A frame with its metadata cut reads back with the first bytes of the tarball in their place, or not at all if there are too few. |
| `ModelRuns.LosingSave` | go/model/model.go:245-246 | Beyond that, for every tarball, refusing the first insert alone leaves a save that reports success, and its dump takes the bytes lost from the tarball or fails. |
| `ModelRuns.OneByteTooMany` | go/model/model.go:245-246 | With 32759 bytes of metadata that run stores all but the last of them, for every tarball. |
| `ModelRuns.ReleaseFacts` | go/modelzooserver/modelzooserver.go:420-442 | A release that reports success leaves the file copied or all of it but a last row that is not full; one that fails has met a refused insert. |
| `ModelRuns.LosingRelease` | go/modelzooserver/modelzooserver.go:424 | For a file that is no whole number of full buffers, refusing the last insert alone leaves a release that reports success without the last row. |
| `ModelRuns.ReleasesIff` | go/modelzooserver/modelzooserver.go:420-442 | All releases that report success leave the file copied, over all splits into reads and all sets of refused inserts, if and only if its length is a multiple of the buffer size. |
| `ModelStore.WriteAll` | go/sqlfs/flush_write_closer.go:38-56 | Writing the pieces one by one is the specified run. |
| `ModelStore.CloseTwice` | go/model/model.go:205-223 | Closing a file and closing it again by the deferred call is the specified run. |
| `ModelStore.SaveDB` | go/model/model.go:196-223 | A save is the specified run: success leaves exactly the stream, and only a refused insert makes it fail, behind which the deferred close tries again. |
| `ModelStore.SaveDBExperimental` | go/model/model.go:226-262 | A save with metadata is the specified run: success leaves what the first two writes kept and all of the tarball, and everything when header and metadata fit the buffer; only a refused insert makes it fail. |
| `ModelStore.Open` | go/sqlfs/reader.go:102-123 | Refuses batch size zero; otherwise the reader starts at the first row. |
| `ModelStore.ReadLength` | go/model/model.go:349-356 | On a stored file and unless a query is refused, reads the length in front of a frame, and a negative one exactly if the file begins with one. |
| `ModelStore.ReadMetadata` | go/model/model.go:349-365 | On a stored file and unless a query is refused, reads the metadata of the frame, or panics exactly at a negative length, or fails exactly when there is no frame. |
| `ModelStore.CopyRest` | go/model/model.go:378-380 | Copies exactly the bytes not read yet, unless a query is refused. |
| `ModelStore.DumpDBModelExperimental` | go/model/model.go:343-382 | On a stored file, if none of its queries is refused, dumps exactly the pair that its frame holds, for every batch size, and panics exactly at a negative length; reports a failed query if and only if one was refused. |
| `ModelStore.CopyTable` | go/modelzooserver/modelzooserver.go:426-442 | The copy loop writes exactly the blocks of 4096 bytes of the source file, or the first of them up to a refused query or insert. |
| `ModelStore.ReleaseModel` | go/modelzooserver/modelzooserver.go:420-442 | A release is the specified run on the blocks of 4096 bytes of the source file, so that a whole number of full buffers is copied row for row; of a stored file it fails only for batch size zero, a refused query or a refused insert. |
| `ModelStore.SendRest` | go/modelzooserver/modelzooserver.go:632-658 | The messages are the bytes not read yet, cut into blocks of 4096, or the first of them up to a refused query or message. |
| `ModelStore.DownloadModel` | go/modelzooserver/modelzooserver.go:607-660 | A completed download sends exactly the file, or the bytes behind header and metadata, in blocks of 4096; on a stored file it is completed unless the batch size is zero, a query is refused, there is no frame, its length is negative, or a message is refused. |
| `StatementSplitter.TokensOfComplete` | go/cmd/sqlflow/main.go:155-162 | The tokens of a complete statement that does not start with a blank are its characters and the semicolon that ends it. |
| `StatementSplitter.TrimSpaceKeeps` | go/cmd/sqlflow/main.go:180 | Trimming the code before a comment changes neither the quotation state nor the number of semicolons. |
| `StatementSplitter.ScannedAsTypedIff` | go/cmd/sqlflow/main.go:133-134 | A line is scanned as it was typed if and only if it has no written-out control character. |
| `StatementSplitter.UnescapeFirst` | go/cmd/sqlflow/main.go:133-134 | The first written-out control character becomes the character, and what follows is replaced in the same way. |
| `StatementSplitter.TrimLeftIs` | go/cmd/sqlflow/main.go:120-122 | Exactly the blanks and tabs in front of the first line are dropped. |
| `StatementSplitter.WrittenOutLiteral` | go/cmd/sqlflow/main.go:133-134 | A literal that changes because it holds a written-out line break. |
| `StatementSplitter.LiteralsKeptIff` | go/cmd/sqlflow/main.go:178-182 | With written-out control characters replaced, the characters of literals survive a line if and only if it does not begin with a blank inside a literal and have a comment outside quotes in front of which it ends no statement. |
| `StatementSplitter.IndentedLiteral` | go/cmd/sqlflow/main.go:178-182 | A continued literal that loses its indentation. |
| `StatementSplitter.LineEnds` | go/cmd/sqlflow/main.go:178-191 | What is left of a line joins its last statement so that tokens and quotation state are those of the code of the line. |
| `StatementSplitter.EndKeepsEmpty` | go/cmd/sqlflow/main.go:155-174 | Nothing is in the statements exactly as long as the first line has only semicolons and blanks, and begins with a semicolon. |
| `StatementSplitter.CommentStops` | go/cmd/sqlflow/main.go:178-185 | A line with a comment ends the reading exactly if it is the first one and nothing precedes the comment. |
| `StatementSplitter.RunsOn` | go/cmd/sqlflow/main.go:191-192 | A line scanned to its end does not end with a semicolon outside quotes and blanks. |
| `StatementSplitter.EndStatement` | go/cmd/sqlflow/main.go:155-162 | A semicolon outside quotes completes the statement, or is dropped with an empty one. |
| `StatementSplitter.Splitter.Track` | go/cmd/sqlflow/main.go:137-154 | The flags follow the quotation state of the text, which LineLiterals.InsideIff ties to its literals. |
| `StatementSplitter.Splitter.Pass` | go/cmd/sqlflow/main.go:136-154 | A character that neither ends a statement nor starts a comment stays in its statement. |
| `StatementSplitter.Splitter.NextStart` | go/cmd/sqlflow/main.go:163-173 | The next statement starts behind the blanks, in a fresh string unless the last one is empty. |
| `StatementSplitter.Splitter.EndAt` | go/cmd/sqlflow/main.go:155-174 | A semicolon outside quotes ends the statement and starts the next one, or ends the line. |
| `StatementSplitter.Splitter.EndLine` | go/cmd/sqlflow/main.go:180-191 | The rest of the line joins the statement it continues. |
| `StatementSplitter.Splitter.EndAtComment` | go/cmd/sqlflow/main.go:178-185 | A comment outside quotes ends the line; a program of nothing else is empty. |
| `StatementSplitter.Splitter.ScanLine` | go/cmd/sqlflow/main.go:136-192 | A line is read up to its first comment outside quotes. |
| `StatementSplitter.Splitter.AddLine` | go/cmd/sqlflow/main.go:119-193 | After any lines: the flags are those of scanning the last statement from its start, earlier statements end with their only semicolon outside quotes, every character of the code of the line is kept in order and no other is added.  The result is true if and only if the line has no comment and ends, blanks apart, with a semicolon outside quotes, or is the first one with nothing in front of a comment. |
| `StatementSplitter.ReadStmt` | go/cmd/sqlflow/main.go:197-210 | The statements say, character by character, what the code of the lines read says, empty statements and the blanks in front of statements apart; reading ends at the first line that ends it. |
| `StatementSplitter.ReadText` | go/cmd/sqlflow/main.go:136-190 | Scanning a text in two parts is scanning it at once. |
| `LineLiterals.LayoutExists` | go/cmd/sqlflow/main.go:137-154 | Every line has a layout of literals: each runs from its mark, or from the start of the line if it continues one, to the first mark of the same kind behind an even number of backslashes or to the end of the line, and no quotation mark lies outside of them. |
| `LineLiterals.InsideIff` | go/cmd/sqlflow/main.go:137-154 | The scan is inside quotes exactly within such a literal, and knows its kind. |
| `LineLiterals.CodeEndIs` | go/cmd/sqlflow/main.go:175-182 | The code of a line ends at its first two dashes outside of literals that a blank or the end of the line follows, or with the line. |
| `LineLiterals.CountsDivisions` | go/cmd/sqlflow/main.go:155 | The semicolons that divide are exactly those outside of literals. |
| `LineLiterals.CompleteIff` | go/cmd/sqlflow/main.go:155-162 | A statement is complete if and only if its last character is its first semicolon outside of literals. |
| `LineLiterals.EndsStatementIff` | go/cmd/sqlflow/main.go:155-170 | A line ends a statement if and only if only blanks stand behind a semicolon of it outside of literals. |
| `LineLiterals.StopsIff` | go/cmd/sqlflow/main.go:155-185 | A line without comment ends the reading if and only if it ends a statement, and one with a comment if and only if it is the first one and has nothing but blanks, or semicolons from its start on and blanks, in front of the comment. |
| `LineLiterals.OtherMarkInside` | go/cmd/sqlflow/main.go:148 | A literal that holds the other mark and a semicolon. |
| `LineLiterals.EscapedMarkInside` | go/cmd/sqlflow/main.go:137-145 | An escaped mark that does not end its literal. |
| `LineLiterals.MarkBehindTwo` | go/cmd/sqlflow/main.go:137-145 | A mark behind two backslashes that does. |
| `LineLiterals.DashesAndBlank` | go/cmd/sqlflow/main.go:175-179 | Two dashes in front of a blank and in front of a letter. |
| `LineLiterals.TwoLines` | go/cmd/sqlflow/main.go:123-125 | Two lines are joined by a line break. |
| `LogWriter.LinesUnique` | go/executor/executor.go:146-158 | There is only one way to cut a text into lines. |
| `LogWriter.TwoLines` | go/executor/executor.go:147 | A line break ends the line before it. |
| `LogWriter.LogChanWriter.ReadString` | go/executor/executor.go:147 | Takes the buffer through its next line break, or all of it. |
| `LogWriter.LogChanWriter.Write` | go/executor/executor.go:137-160 | Items sent, unfinished line and buffer concatenate to what was written, also after a failure; it fails exactly if an item is refused, and until then every item is one line. |
| `LogWriter.LogChanWriter.Close` | go/executor/executor.go:162-167 | Unless an item is refused, the items are the lines of the whole stream, for any chunking. |
| `LogWriter.PipeEnd.Write` | go/pipe/pipe.go:72-79 | A write sends its item, or fails exactly if the reader refuses it, which it does only after closing (PipeRuns.Safety). |
| `PipeRuns.Safety` | go/pipe/pipe.go:46-79 | In every run, with any number of writers, the reader has from each writer exactly what its successful writes sent, in order, the writing end is closed only when every Write has returned, and no Write fails before the reader has closed. |
| `PipeRuns.BoundedRuns` | go/pipe/pipe.go:72-79 | A run has at most two writer steps, the call and the return of Write, for every item to offer, and that many exactly when all writers have finished. |
| `PipeRuns.NoWriterBlocked` | go/pipe/pipe.go:53-79 | Once the reader has closed, every pending Write can return and unfinished writers have a step. |
| `Lexer.Lexer.Next` | go/parser/lexer.go:63-71 | Consumes one character, or none at the end. |
| `Lexer.Lexer.Backup` | go/parser/lexer.go:73-75 | Undoes the width of the last character. |
| `Lexer.Lexer.Peek` | go/parser/lexer.go:77-86 | Looks at a character without consuming it. |
| `Lexer.Lexer.SkipSpaces` | go/parser/lexer.go:88-96 | Skips exactly the blanks and counts them. |
| `Lexer.Lexer.SkipSingleLineComment` | go/parser/lexer.go:98-119 | Skips a line comment exactly where one opens, and counts its characters behind the dashes. |
| `Lexer.Lexer.SkipMultipleLineComment` | go/parser/lexer.go:121-146 | Skips a block comment exactly where one opens, or records an error for one that never ends. |
| `Lexer.Lexer.SkipRound` | go/parser/lexer.go:152-153 | One round skips all blanks and the comment behind them, and counts nothing exactly for none or one without characters inside. |
| `Lexer.Lexer.SkipGap` | go/parser/lexer.go:148-159 | Skips a gap, stops exactly behind the first round without blanks and without characters inside a comment, and reports a comment exactly if one had characters inside. |
| `Lexer.GapStopIsGap` | go/parser/lexer.go:148-159 | What is skipped is blanks and comments; nothing stops the skipping only if a comment never ends. |
| `Lexer.EarlyStopIff` | go/parser/lexer.go:148-159 | The lexer stops in front of a blank or a comment if and only if an empty comment that begins the gap, or follows something other than a blank, is followed by one. |
| `Lexer.StopsAtLineBreak` | go/parser/lexer.go:114 | The lexer stops at the line break behind an empty line comment. |
| `Lexer.ReadsCommentAsOperator` | go/parser/lexer.go:130-138 | A line comment behind an empty block comment is read as an operator. |
| `Lexer.Lexer.Emit` | go/parser/lexer.go:56-61 | Returns the slice between start and position. |
| `Lexer.Lexer.LexIdentOrKeyword` | go/parser/lexer.go:185-238 | Returns the longest word, as a keyword exactly if its upper case is one. |
| `Lexer.Lexer.LexNumber` | go/parser/lexer.go:244-251 | Returns the text up to the end of the number. |
| `Lexer.Lexer.LexOperator` | go/parser/lexer.go:253-272 | Returns a pair operator where one starts, and a single character otherwise. |
| `Lexer.Lexer.LexString` | go/parser/lexer.go:274-287 | Returns the string up to its closing quotation mark, or an error if there is none. |
| `Lexer.Lexer.Lex` | go/parser/lexer.go:148-183 | A token begins exactly where the skipping stops, is the slice consumed and moves the lexer on; otherwise no token begins there, and code and error say why: the end, with the position rewound exactly if a comment with text was trailing, or a character that starts no token, or a comment or string that never ends. |
| `Lexer.NumberEndIsLongest` | go/parser/lexer.go:240-251 | The number found matches the pattern of numbers, and nothing longer does. |
| `Lexer.NumberParts` | go/parser/lexer.go:240-242 | A number with a fraction and an exponent. |
| `Lexer.StringEndIsFirst` | go/parser/lexer.go:274-287 | A string ends at the first quotation mark of either kind behind an even number of backslashes. |
| `Lexer.EscapedMarkStays` | go/parser/lexer_test.go:76-82 | A string that holds an escaped mark. |
| `Lexer.OwnMarkIff` | go/parser/lexer.go:276 | A string ends at a mark of the kind that opened it if and only if no mark of the other kind that could end it comes before the first such mark. |
| `Lexer.OtherMarkEndsString` | go/parser/lexer.go:276 | A string opened by a single quotation mark that ends at a double one. |
| `Lexer.WordEndsWithDotIff` | go/parser/lexer.go:185-200 | A word ends with a dot if and only if a dot in it is followed by nothing that belongs to a word. |
| `Lexer.DotEndsIdent` | go/parser/lexer.go:193 | An identifier that ends with a dot. |
| `Lexer.WordCharacters` | go/parser/lexer.go:190-199 | An identifier of all characters that a word may have. |
| `Lexer.KeywordInAnyCase` | go/parser/lexer_test.go:107-119 | Keywords in upper and lower case. |
| `Lexer.PairsOfOperators` | go/parser/lexer_test.go:84-105 | The operators of two characters, and of one. |
| `Lexer.ReportsEndIff` | go/parser/lexer.go:172-182 | The end is reported if and only if the input is over behind the gap, or the input begins with a character that starts no token. |
| `Lexer.ForeignStartIsEnd` | go/parser/lexer.go:182 | A text that is reported like an empty one. |
| `Lexer.BareSuffix` | go/parser/lexer.go:160-177 | Whether the rest of the input is a gap without comment text does not depend on where a scan of it pauses. |
| `Lexer.TilesBounded` | go/parser/lexer.go:56-61 | Tokens that tile a prefix are no more than its characters. |
| `Lexer.TokenUnique` | go/parser/lexer.go:161-177 | At a place at most one text is a token, and of one kind. |
| `Lexer.TokensUnique` | go/parser/lexer.go:148-183 | The tokens, the code and the error of a whole run are determined by the input. |
| `Lexer.TileBehindGap` | go/parser/lexer.go:148-159 | Between two tokens there is nothing but blanks and comments. |
| `Lexer.Tokenize` | go/parser/lexer.go:148-183 | Driving the lexer to its stop gives the one tokenization of the input, within as many tokens as characters. |
| `Characters.BareIff` | go/parser/sqlflow_parser.go:153-163 | Whether a mark is escaped is decided by the number of backslashes in front of it. |
| `CommentRemover.IsEscapeRune` | go/parser/sqlflow_parser.go:153-163 | An odd number of backslashes precedes, back to the first other character. |
| `CommentRemover.FindRightQuotationMark` | go/parser/sqlflow_parser.go:176-187 | Finds the first mark of the kind behind an even number of backslashes. |
| `CommentRemover.FindMatchedQuotationMarks` | go/parser/sqlflow_parser.go:151-190 | Fails exactly if a literal never closes; otherwise records one range per literal. |
| `CommentRemover.CloseIs` | go/parser/sqlflow_parser.go:165-189 | A literal is closed by the first mark of its kind behind an even number of backslashes. |
| `CommentRemover.LiteralsIff` | go/parser/sqlflow_parser.go:165-189 | The literals found are the only ones that begin and end like that, lie apart and in order, and take up all quotation marks; if there are none such, the search fails. |
| `CommentRemover.EscapedMark` | go/parser/sqlflow_parser.go:156 | A text whose literal holds an escaped mark, and one where two backslashes precede the mark. |
| `CommentRemover.LiteralsAreLiterals` | go/parser/sqlflow_parser.go:165-189 | Every literal runs from a quotation mark to the first unescaped one of its kind. |
| `CommentRemover.LiteralsApart` | go/parser/sqlflow_parser.go:165-189 | Literals do not overlap. |
| `CommentRemover.QuotesAreInLiterals` | go/parser/sqlflow_parser.go:165-189 | No quotation mark lies outside of the literals. |
| `CommentRemover.LiteralsAreCovered` | go/parser/sqlflow_parser.go:183-184 | Every character of a literal lies in a recorded range. |
| `CommentRemover.RangesExactIff` | go/parser/sqlflow_parser.go:183-184 | The recorded ranges are exactly the literals if and only if there is at most one, or they lie back to back from the start. |
| `CommentRemover.FindRightQuotationIndex` | go/parser/sqlflow_parser.go:198-205 | Returns the right end of a range around the marker, up to which there is no marker to cut, or says that none covers it. |
| `CommentRemover.LineRound` | go/parser/sqlflow_parser.go:216-228 | One round of the line comment removal. |
| `CommentRemover.CutLines` | go/parser/sqlflow_parser.go:207-230 | Cuts from every uncovered marker to the end of its line, and nothing else. |
| `CommentRemover.BlockRound` | go/parser/sqlflow_parser.go:257-272 | One round of the block comment removal. |
| `CommentRemover.CutBlocks` | go/parser/sqlflow_parser.go:248-274 | Puts one blank for every uncovered comment, or fails at one that never ends. |
| `CommentRemover.CutsAgree` | go/parser/sqlflow_parser.go:207-274 | The cuts are determined by the text. |
| `CommentRemover.UnclosedHasNoResult` | go/parser/sqlflow_parser.go:266-269 | A text with a comment that never ends has no result, so the failure is exact. |
| `CommentRemover.RemoveSingleLineComment` | go/parser/sqlflow_parser.go:192-231 | Fails exactly if a literal never closes; otherwise removes the line comments. |
| `CommentRemover.RemoveMultipleLineComment` | go/parser/sqlflow_parser.go:233-275 | Fails exactly if a literal or an uncovered comment never closes; otherwise removes the block comments. |
| `CommentRemover.CommentsUnique` | go/parser/sqlflow_parser.go:280-291 | The result is determined by the text. |
| `CommentRemover.RemoveCommentInSQLStatement` | go/parser/sqlflow_parser.go:280-291 | Removes block comments first, then line comments, and fails exactly if there is no such result. |
| `CommentRemover.BothComments` | go/parser/sqlflow_parser.go:280-291 | A block comment that leaves a blank, and a line comment that leaves its line break. |
| `KeptComments.CoveredIff` | go/parser/sqlflow_parser.go:183-184 | The recorded ranges cover the first literal, and for every other one what lies between the distance to the literal before it and its right end. |
| `KeptComments.UnshadowedGoes` | go/parser/sqlflow_parser.go:207-274 | Outside of literals and of such shadows every marker is cut. |
| `KeptComments.MarkerStaysIff` | go/parser/sqlflow_parser.go:198-264 | A marker outside of literals and of earlier comments stays if and only if it lies in such a shadow. |
| `KeptComments.RemovesAllIff` | go/parser/sqlflow_parser.go:207-274 | The cuts are the comments of the text, and take every marker outside of literals, if and only if no comment begins in a shadow. |
| `KeptComments.CommentsExist` | go/parser/sqlflow_parser.go:207-274 | Every text has comments, unless a block comment never ends. |
| `KeptComments.EveryCommentGoesIff` | go/parser/sqlflow_parser.go:207-274 | A removal that succeeds takes every marker outside of literals if and only if all comments end and none begins in a shadow. |
| `KeptComments.AllRemovedIff` | go/parser/sqlflow_parser.go:280-291 | Both removals together take every marker outside of literals if and only if all block comments of the text and all line comments of the text without them end, and none begins in a shadow. |
| `KeptComments.CommentStays` | go/parser/sqlflow_parser.go:280-291 | A comment between two literals that both removals keep. |
| `CommentRemover.QuoteFreeIsCleaned` | go/parser/sqlflow_parser.go:280-291 | Without quotation marks, a result has neither `--` nor `/*`. |
| `CommentRemover.CommentFreeIsFixed` | go/parser/sqlflow_parser.go:280-291 | Without quotation marks and markers, removing changes nothing. |
| `CommentRemover.RemovingTwice` | go/parser/sqlflow_parser.go:280-291 | Without quotation marks, removing comments twice is removing them once. |
| `CommentRemover.LiteralsAreSpared` | go/parser/sqlflow_parser.go:216-264 | A marker inside a literal never starts a removal. |
| `CommentRemover.CommentBetweenLiteralsStays` | go/parser/sqlflow_parser.go:183-221 | A comment between two literals that is kept. |
| `CommentRemover.KeptClean` | go/parser/sqlflow_parser.go:223-272 | Cutting brings no two characters together that make a marker. |
| `FieldSampling.NumberColumn` | go/ir/derivation.go:351-357 | A column of integers or of floats makes the field one number of that type whatever the cells are, and a column of another type is an error. |
| `FieldSampling.CsvColumn` | go/ir/derivation.go:361-370 | A column whose first cell looks like a list is read as lists throughout. |
| `FieldSampling.CsvOutcome` | go/ir/derivation.go:177-234 | What a dense column of lists comes to: accepted if every row is as long as the one before or that one was short; a float anywhere makes it float; the greatest integer is recorded. |
| `FieldSampling.ShapeIs` | go/ir/derivation.go:178-203 | The shape given stays if all rows have its size, and else is the length of the last row. |
| `FieldSampling.MaxAllIs` | go/ir/derivation.go:226-231 | The recorded identifier bounds all sampled integers and is one of them or the initial one. |
| `FieldSampling.PlainOutcome` | go/ir/derivation.go:237-266 | What a column comes to whose first cell is a scalar: all texts are collected, a text makes the shape one, and the last cell that is no integer decides the data type. |
| `FieldSampling.ScalarsCome` | go/ir/derivation.go:237-266 | Cell by cell: the last cell that is no integer makes the data type Float or String, the vocabulary gets exactly the texts, and a text makes the shape one. |
| `RowOrder.AcceptsIff` | go/ir/derivation.go:186-203 | A dense column that begins with a list is accepted if and only if all rows are equally long, and as long as the field says if it says so. |
| `RowOrder.ListFirstAnyOrder` | go/ir/derivation.go:358-370 | Any two orders that begin with a list come to the same, whatever the other cells are. |
| `RowOrder.PairsRefused` | go/ir/derivation.go:371-374 | A dense column that begins with pairs is refused. |
| `RowOrder.DenseOrderFreeIff` | go/ir/derivation.go:351-401 | A dense column comes to the same in every order of its rows if and only if all cells are scalars without both a float and a text, or all are lists, or all are pairs, or there are only lists and pairs that do not fit together. |
| `RowOrder.FloatAndText` | go/ir/derivation.go:237-266 | A column of a float and a text in two orders. |
| `RowOrder.FormatOfFirst` | go/ir/derivation.go:361-370 | A column that is accepted has the format of its first cell. |
| `FieldSampling.PairsKept` | go/ir/derivation.go:371-394 | Pairs of a sparse field with delimiters or with a size of its own leave its shape alone. |
| `RowOrder.SparseOrderFreeIff` | go/ir/derivation.go:351-401 | A sparse column comes to the same in every order of its rows if and only if all cells are scalars without both a float and a text, or all are lists of which all or none hold floats, or all are pairs. |
| `RowOrder.SingleIndexAndList` | go/ir/derivation.go:361-370 | A sparse column of a single index and a list in two orders. |
| `FieldSampling.KeyValueColumn` | go/ir/derivation.go:371-394 | A sparse key-value column fails exactly on a malformed pair, and else has the inferred width. |
| `FieldSampling.WidthIs` | go/ir/derivation.go:319-340 | The inferred width is the least one above all indices, and at least one. |
| `FieldSampling.KeyValueOrderFree` | go/ir/derivation.go:371-394 | The order of key-value rows does not matter. |
| `FieldSampling.BucketHoldsSamples` | go/ir/derivation.go:580-588 | Every sampled integer is below the bucket size, which is tight; there is none exactly if no positive integer was sampled. |
| `FieldSampling.BucketHoldsIndices` | go/ir/derivation.go:580-593 | Every sampled index is below the bucket size, which is one or one more than some index. |
| `FieldDerivation.FieldDesc.NewDefault` | go/ir/derivation.go:164-174 | A new field is dense, of integers, without shape. |
| `FieldDerivation.FieldDesc.ShapeSize` | go/ir/derivation.go:178-181 | The product of the sizes of the shape. |
| `FieldDerivation.FieldDesc.FillCsv` | go/ir/derivation.go:177-234 | Updates the field as specified, or refuses a row of another size and leaves the field alone. |
| `FieldDerivation.FieldDesc.FillCell` | go/ir/derivation.go:351-401 | Updates the field for one cell of any column type and format, as the lemmas on whole columns tell. |
| `FieldDerivation.GetMaxIndexOfKeyValueData` | go/ir/derivation.go:319-340 | The greatest index of the pairs, or an error for a malformed one. |
| `FieldDerivation.AddField` | go/ir/derivation.go:345-348 | Adds a default field for an unknown column and keeps the others. |
| `FieldDerivation.FillColumnField` | go/ir/derivation.go:343-401 | Updates one field of the map in place and no other. |
| `FieldDerivation.FillFieldDesc` | go/ir/derivation.go:342-404 | One row updates the fields as specified, and fails exactly if the specification does. |
| `FieldDerivation.FillRows` | go/ir/derivation.go:556-563 | All rows, up to the first error. |
| `FieldDerivation.FillFieldDescs` | go/ir/derivation.go:554-568 | Fails exactly for an empty sample, a broken fetch or a failing row; a column of integers then has a field of type Int, one of floats of type Float, with one number each, and any other type is refused. |
| `FieldDerivation.FillTableEach` | go/ir/derivation.go:342-404 | The rows come to what each column comes to by itself, and fail if and only if some column fails. |
| `FieldDerivation.NumberFields` | go/ir/derivation.go:351-357 | Sampling gives the field of an integer column type Int and shape one, that of a float column type Float and shape one, and fails for a column of another type. |
| `FieldDerivation.NewNumberField` | go/ir/derivation.go:345-357 | The field of a number column that had none before. |
| `FieldDerivation.KeyValueField` | go/ir/derivation.go:371-394 | The width of a sparse key-value column is inferred if and only if the field has no size of its own or the size one; otherwise its shape stays. |
| `RowOrder.SampledColumnOrderFree` | go/ir/derivation.go:554-568 | The field of a column, of any type, dense or sparse, is the same for every order of the sampled rows if and only if the order of its cells cannot matter. |
| `FeatureColumns.UpdateOne` | go/ir/derivation.go:572-616 | Fills in a category column that was left out, with the bucket size of its field, or refuses. |
| `FeatureColumns.UpdateFeatureColumn` | go/ir/derivation.go:570-619 | Updates all columns, or fails exactly if one is refused. |
| `FeatureColumns.BucketHoldsDrawn` | go/ir/derivation.go:554-619 | Whatever a column of the sampled table draws is below the bucket size of its field. |
| `FeatureColumns.InferBuckets` | go/ir/derivation.go:447-537 | Sampling and then updating: every feature column left open gets a bucket size above everything drawn from its field. |
| `FeatureColumns.Collect` | go/ir/derivation.go:676-693 | Columns join the lists where they first occur. |
| `FeatureColumns.UniqueOnce` | go/ir/derivation.go:677-687 | Each column is listed once. |
| `FeatureColumns.ListedJoin` | go/ir/derivation.go:670-676 | The columns of the selected fields are listed field after field, without those of the label. |
| `FeatureColumns.UniqueInOrder` | go/ir/derivation.go:677-687 | The columns stand in the order in which they are first listed. |
| `FeatureColumns.SetDerivedFeatureColumn` | go/ir/derivation.go:647-715 | The result holds every selected column exactly once, those of one field first, in the order in which the selected fields first list them. |

## Left out

- EdgeSet.VersionDiscipline: at most one version of a table per statement is stated for statements that list no output twice; the code makes several versions otherwise.
- ProgramMeaning.MeaningIffReadersOrdered: statements depend on and change only the tables they list; failing statements and models as graph nodes are not part of this model.
- ProgramAnalyzer.Analyze: whether drawing the graph to a file fails is a parameter; what is drawn is left out.
- SqlfsWriter.FlushWriteCloser.Write: the buffer size is positive; with size zero the loop of the source does not end.
- SqlfsWriter.Flusher.Flush: a failed insert has no effect, and nobody else writes to the table; creating and dropping tables, and the CSV writer for Hive, are left out.
- SqlfsReader.Reader.FetchBatch: a query returns all rows of its range or is refused; an error that ends the iteration over the rows is not looked at by the source and is left out.
- SqlfsReader.Reader.Refill: after a corrupt block the contents of the buffer are arbitrary, because the decoder of the source may have filled part of it.
- SqlfsReader.SortOrdered: sorting is insertion by id; on equal ids any order leads to the same refusal.
- ModelStore.SaveDB: the command that packs the files is assumed to succeed; its output is the pieces.
- ModelStore.Open: whether the table exists is not asked.
- ModelStore.DumpDBModelExperimental: the tarball and the JSON metadata are byte strings; packing, unpacking and parsing them, and the local file, are left out.
- ModelStore.ReleaseModel: names, tags, the release records and the upload from a local client are left out.
- StatementSplitter.Splitter.AddLine: the blanks in front of a statement are not kept track of; characters are bytes and only the ASCII blanks are trimmed.
- LogWriter.LogChanWriter.Write: the mutex is left out; calls are one after another.
- PipeRuns.Safety: closing the same end twice, and writing after the writer was closed, panic in the source and are no steps here.
- Lexer.Lexer.Lex: input is ASCII without NUL; the token numbers of the grammar are represented by kinds, and error messages are left out.
- CommentRemover.FindMatchedQuotationMarks: left and right positions are one sequence of pairs instead of two slices.
- CommentRemover.QuoteFreeIsCleaned: stated for texts without quotation marks; with them the code keeps some comments (CommentBetweenLiteralsStays).
- FieldDerivation.FieldDesc.FillCell: recognising formats and parsing numbers is a classification of the cell made beforehand; which delimiters lead to which format is left out.
- FieldDerivation.FillFieldDescs: an error while scanning a row into values is overwritten in the source and left out; integers are unbounded.
- FeatureColumns.UpdateFeatureColumn: the field of an embedding without category column has a shape, sparse or not, as the source indexes it without a check.
- FeatureColumns.InferBuckets: before sampling, sparse fields have a shape, no shape is empty, and the field of an embedding without category column is sampled or has a shape; matching column names by regular expression, new columns for fields without one, and the label are left out.
- FeatureColumns.SetDerivedFeatureColumn: one target at a time; the order of columns over several fields is any order that swapping can lead to, because the comparison reads positions that do not move with the columns.
- The grammar, code generation, the third-party SQL parsers, gRPC, workflow submission and the drivers of the databases are not part of this model.
