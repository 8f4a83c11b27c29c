# fortune2 in Dafny

This project models the core of `fortune2`, a fortune-cookie server written in Go. It has four parts:

- the command-line switch parser `parseArgs` and its helper `listContains`;
- the ingestion of a fortune file. The jar name comes from the file name, and the lines are split into records at `%` delimiter lines. Blank records are dropped.
- the choice of a jar weighted by row count in `randomJarByWeight`, with its fall-back to the uniform `randomJar`;
- the search output of `printAllFortunes`. Each matching record is written under an optional `(jar)` header, followed by a `%` line.

The modules follow the program:

- `Text` models the Go library behaviour these parts rely on: `unicode.IsSpace`, `strings.TrimSpace`, `strings.HasPrefix`/`HasSuffix`, `bufio.ScanLines`, `filepath.Base` and `strings.Split(s, ".")[0]`.
- `Args` models `parseArgs`. The method `ParseArgs` is the loop itself, proved equal to a fold `Parse` of one step per argument. `ParseSpec` proves that fold equal to a declarative reading of the argument list: which arguments are parameters, and which write which switch.
- `Ingest` models the jar name and the record splitter. The method `SplitRecords` is the scanning loop with its `strings.Builder`, proved equal to `Records`. `Records` splits the lines into runs at delimiter lines, joins each run with newlines and drops the blank ones.
- `Pick` models the weighted walk. The methods `CountRows` and `WalkToDraw` are the two loops of `randomJarByWeight`, proved against the function `WeightedIndex`. `WeightedIndexShare` proves the pick is weighted: each jar is hit by as many of the equally likely draws as it has rows.
- `Search` models the formatting. `PrintAllFortunes` is the loop over the rows of a jar. `ReingestOutput` proves that ingesting the search output again gives back exactly the matching records, each under its header, for a jar name without a newline.
- `Seqs` holds only sequence bookkeeping used by the proofs; it models nothing of the program. `Wrappers` declares the `Option` type.

The database, the random draws and the regular expression are parameters:

- a table's row count is a function `numRows`, the answer `queryNumRows` gives;
- the table listing is a list `all`;
- the draws of `rand.Intn` are the numbers `draw` and `npick`;
- the rows of a table are the list `bodies`;
- the compiled regular expression is the predicate `matches`.

The weighted walk never stops at a jar with no rows: `WeightedIndex` proves the picked jar has a positive count. The `log.Fatalf` of `randomJarByWeight` is reached only when the picked jar's name is empty (see Findings).

## Model

| member | source | states |
|---|---|---|
| Text.TrimSpace | main.go:278 | white space is the set `IsSpace` of Go's `unicode.IsSpace`. The trimmed text has no white space at either end, and it is empty exactly when the line is all white space. |
| Text.TrimSpacePadded | main.go:278 | a text with no white space at its ends, padded on both sides with white space, trims back to itself |
| Text.TrimSpaceSplits | main.go:278 | every line is its trimmed text with white space before and after it |
| Text.ScanLines | main.go:275-277 | the scanner splits at each newline, drops one trailing carriage return from each line (`DropCR`) and yields no empty last line; no line it yields contains a newline |
| Text.ScanLinesCons | main.go:275-277 | a scanned line followed by a newline is yielded as that line, and scanning continues after the newline |
| Text.ScanLinesCRLF | main.go:275-277 | a scanned line followed by a carriage return and a newline is yielded without the carriage return, and scanning continues after the newline |
| Text.ScanJoinLines | main.go:275-277 | lines written out each followed by a newline are scanned back as the same lines |
| Text.JoinLinesAppend | main.go:291-292 | the builder `sb` holds `JoinLines` of the lines written since the last reset; appending a line adds the line and then a newline |
| Text.JoinLinesConcat | main.go:291-292 | the builder text of two runs of lines is the text of the first run followed by that of the second |
| Text.JoinLinesEndsInNewline | main.go:291-292 | the builder text of at least one line ends in a newline |
| Text.JoinLinesBlank | main.go:281 | the builder text is blank exactly when every line in it is |
| Text.Base | main.go:250 | the base name is never empty, and it contains no separator unless it is the root `/` |
| Text.BaseOfFileInDir | main.go:250 | the base name of a path in a directory is the file's own name |
| Text.BeforeFirstDot | main.go:250 | the result is the longest prefix without a dot: a dot follows it unless it is the whole name |
| Ingest.JarName | main.go:250 | a jar name contains no dot, and no separator unless it is `/` |
| Ingest.JarNameOfFile | main.go:250 | the file `dir/name.ext` is ingested into the jar `name`, whatever the extension |
| Ingest.JarNameWithoutExtension | main.go:250 | a file name without a dot is its own jar name |
| Ingest.DelimiterIsPaddedPercent | main.go:278 | a delimiter line is exactly a `%` with only white space around it |
| Ingest.BlankIsAllSpace | main.go:281 | a record that trimming empties is one made only of white space |
| Ingest.SplitOnCount | main.go:278-300 | there is one run of lines per delimiter, plus one |
| Ingest.SplitOnRunsHaveNoSeparator | main.go:278-292 | no run of lines contains a delimiter line |
| Ingest.SplitOnFlatten | main.go:276-293 | the runs laid end to end are the input lines with only the delimiters removed, in order |
| Ingest.SplitOnConcat | main.go:276-293 | splitting two halves of the input separately and gluing the boundary runs gives the split of the whole |
| Ingest.SplitOnCut | main.go:278-288 | a delimiter line cuts the input into two halves that split independently |
| Ingest.SplitOnNoSeparator | main.go:291-292 | lines without a delimiter stay together in one run |
| Ingest.SplitOnSnoc | main.go:276-293 | one more line closes the current run when it is a delimiter and joins it otherwise |
| Ingest.MapDropElements | main.go:281-283 | every record kept comes from some run and is not blank, and there are no more records than runs |
| Ingest.RecordsShape | main.go:276-300 | `Records` splits the lines at delimiter lines, joins each run and drops the blank ones. There are at most one more records than delimiter lines; every record is the text of a delimiter-free run, ends in a newline and is not blank |
| Ingest.RecordsCut | main.go:278-288 | the records before and after a delimiter line are independent of each other |
| Ingest.RecordsOfRun | main.go:294-300 | lines after the last delimiter form one final record, dropped when it is blank |
| Ingest.RecordsTrailing | main.go:294-300 | the non-blank text after the last delimiter is the last record, after the records before it |
| Ingest.BlankRecordDropped | main.go:278-300 | lines `a, %, blank, %, b, %` give exactly the records `a` and `b`, each ending in a newline |
| Ingest.IngestNothing | main.go:294-300 | an empty file gives no records |
| Ingest.IngestRecordText | main.go:276-293 | text made of non-blank, delimiter-free lines followed by a `%` line is read back as that one record |
| Ingest.SplitRecords | main.go:275-300 | the scanning loop inserts exactly `Records(lines)`, so the count bound and the shape of each record hold for what it inserts |
| Args.ListContains | main.go:149-156 | true exactly when the value is in the list |
| Args.ClusterLookup | main.go:183-189 | a cluster sets to "y" exactly the standalone switches whose letter it contains, and leaves every other switch as it was |
| Args.ParseArgs | main.go:158-200 | the loop computes the fold `Parse`. The parameters are the plain, non-`-F`-value arguments before the first `--`, then everything after it. Each switch holds the value of its last write before the first `--`. |
| Args.SwitchEnd | main.go:168-173 | the position of the first `--`, or the length of the list when there is none |
| Args.KeyPendingStep | main.go:177-182 | `-F` leaves a key pending, another short argument keeps a pending key, and only a short argument can leave one pending |
| Args.StepAgrees | main.go:167-197 | before the first `--`, one step of the pass keeps its state equal to the declarative reading |
| Args.RunToAgrees | main.go:167-197 | before the first `--`, the state of the pass is the declarative reading of the arguments seen so far |
| Args.RunToAfterEnd | main.go:168-170 | after the first `--`, switch parsing stays off and the switches stay frozen. Every later argument is appended to the parameters verbatim and in order. |
| Args.ParseSpec | main.go:158-200 | the whole pass equals the declarative reading of parameters and switch values |
| Args.RunToPrefix | main.go:167 | the state after the first `n` arguments does not depend on the arguments after them |
| Args.ParseSnoc | main.go:167-197 | parsing one more argument is one more `Step`: one iteration of the loop, with its branches in the order of the source (after `--`, `--`, `--name`, `-F`, a short cluster, the value of a pending key, a parameter) |
| Args.OpenBeforeDoubleDash | main.go:168-173 | switch parsing stays on until a `--` is seen |
| Args.DoubleDashEndsSwitches | main.go:168-173 | after `--`, every argument, dashes included, is appended to the parameters verbatim and in order. `--` itself is neither a parameter nor a switch. |
| Args.LongSwitch | main.go:174-176 | `HasPrefix` is `strings.HasPrefix`. `--name` sets switch `name` to "y", adds no parameter and clears a pending `-F` |
| Args.ShortCluster | main.go:177-189 | a short argument other than `-F` sets exactly the standalone switches among its letters. It ignores every other letter, adds no parameter and keeps a pending `-F`. |
| Args.DefinitionValue | main.go:178-192 | `-F` followed by a plain argument sets switch `F` to that argument, which is not a parameter |
| Pick.RandomJar | main.go:329-337 | the candidates are the tables when no jar was asked for (`Candidates`). The pick is the candidate at the draw, and fails only when there are none. |
| Pick.UniformShare | main.go:336 | each jar is returned by as many of the equally likely draws as it occurs among the candidates |
| Pick.Counts | main.go:348-351 | the row count of each candidate, in order |
| Pick.WeightedIndex | main.go:361-369 | the picked index is a valid index. Its share of draws, from the running count before it up to the running count after it, contains the draw. Its count is positive. |
| Pick.WeightedIndexUnique | main.go:361-369 | the only index whose share of draws contains the draw is the picked one |
| Pick.WeightedIndexFirst | main.go:363-368 | every jar before the picked one has a running count at most the draw, so the walk goes past it |
| Pick.WeightedIndexShare | main.go:359-369 | each jar is picked by exactly as many of the equally likely draws as it has rows |
| Pick.CountRows | main.go:346-352 | the first loop maps each candidate to its row count and totals them |
| Pick.WalkToDraw | main.go:361-369 | the walk stops at the jar of `WeightedIndex` for the draw |
| Pick.RandomJarByWeight | main.go:339-374 | as written: it falls back to the uniform pick when the total is 0. Otherwise it picks the jar the draw lands on, and aborts exactly when that jar's name is empty. |
| Pick.EmptyJarNameIsFatal | main.go:370-372 | a jar with the empty name and one row, drawn with 0, reaches the "no jar was picked" abort |
| Pick.RandomJarByWeightFixed | main.go:339-374 | as intended: with a positive total, the jar the draw lands on is always picked, and the abort is unreachable |
| Search.FormatMatch | main.go:432-441 | the header is `(jar)` and a newline under `-c` (`Header`), and `HasSuffix` is `strings.HasSuffix`. A match is written as the header, then the body unchanged, a newline only when the body lacks one, and then `%` and a newline. The output ends in a newline, `%` and a newline. |
| Search.HeaderLines | main.go:433 | the header is the text of the line `(jar)` when `-c` is given, and empty otherwise |
| Search.HeaderLinesScanned | main.go:433 | for a jar name without a newline, the header line is a scanned line and not a delimiter |
| Search.FormatMatchEndedBody | main.go:436-441 | a body ending in a newline is followed directly by the `%` line |
| Search.OutputSnoc | main.go:425-442 | the output for one more row is the output so far followed by that row's piece |
| Search.PrintAllFortunes | main.go:425-442 | the loop writes `Output`: each matching row's formatted text, in row order, with the header under `-c` |
| Search.StoredUnderHeader | main.go:433-436 | for a jar name without a newline, a stored record under its header is again a non-blank text of delimiter-free scanned lines |
| Search.IngestPiece | main.go:432-441 | for a jar name without a newline, one formatted match, read back by ingestion, is the record under its header, followed by whatever comes after it |
| Search.ReingestOutput | main.go:425-442 | for a jar name without a newline, ingesting the search output of a jar gives back exactly the matching records, in order, each under its header |

## Left out

- The SQLite store is not modelled: the tables, the transaction and DDL in `ingestJarFile`, `allTables`, `queryNumRows`, `deleteJar`, `randomJarFortune` and `jarFortune`. Row counts, table lists and rows are parameters; an inserted record is an element of the result list.
- `math/rand` seeding and `rand.Intn` are not modelled; the draws are parameters. `RandomJar` requires the draw to be below the number of candidates when there are any, and returns `None` where `rand.Intn(0)` would panic.
- `jarsInfo` and `printJarStats` are not modelled: floating-point percentages and `fmt` width formatting.
- The HTTP handlers, HTML templates and JSON output are not modelled, nor `main`'s dispatch, environment variables and exit codes: network, UI and process I/O.
- The `regexp` match, including the `(?i)` prefix added under `-i`, is the opaque predicate `matches`: it is Go's regular-expression engine. The `-c` header is modelled.
- Strings are sequences of Unicode code points. Go's byte-level UTF-8 handling is not modelled, for instance invalid UTF-8 in `range arg[1:]` or in a file.
- Text.ScanLines: does not model the 64 KiB token limit of `bufio.Scanner`, which stops the scan with an error on a longer line; that error is not checked in the source.
- Text.Base: models only the Unix separator `/`.
- Pick.CountRows: does not model Go's `int` overflow of `totalRows` and `sumRows`, because row counts are unbounded naturals. It does not model negative row ids either, which could make `max(rowid)` negative, because counts are `nat`.
- `randomFortune` is not modelled. It chooses `randomJar` under `-e` and `randomJarByWeight` otherwise, then draws a row through SQLite.
- Pick.RandomJarByWeight: the uniform fall-back is reported as `UniformFallback` rather than being carried out, because it only calls `randomJar` over all tables, which `RandomJar` models.
- Search.ReingestOutput: does not cover records with a line that still ends in a carriage return after scanning. Ingestion can store such records, since the scanner drops only one carriage return from a file line ending in two. When the search output is read back, the scanner drops the remaining one, so such a record comes back without it. It also does not cover a jar name that contains a newline. The jar name is the part of the file name before its first dot (main.go:250), so it can hold a newline; a `%` line inside the `(jar)` header would then split the record when it is read back.
- Search.StoredUnderHeader: does not cover a jar name that contains a newline. The jar name is the part of the file name before its first dot (main.go:250), so it can hold a newline; a `%` line inside the `(jar)` header would then split the record when it is read back.
- Search.IngestPiece: does not cover a jar name that contains a newline, for the same reason as Search.StoredUnderHeader.
- Ingest.BlankRecordDropped: states the example `a, %, blank, %, b, %` for every non-blank `a` and `b` and every all-white-space line, rather than for the literal strings.

## Findings

| source | as written | input that shows it | evidently intended | confidence | as-written member | corrected member |
|---|---|---|---|---|---|---|
| main.go:361-372 | the empty string marks "no jar picked", so a picked jar whose name is empty aborts with "No jar was picked". A jar gets the empty name when a file such as `.fortunes` is ingested. | candidate jars `[""]` with one row, draw `npick = 0` | the jar the draw lands on is returned whatever its name; the abort is unreachable when the total is positive | medium, not executed (depends on SQLite accepting the table name `[]`) | Pick.EmptyJarNameIsFatal | Pick.RandomJarByWeightFixed |
