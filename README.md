# Set intersection of two key columns — a Dafny model

The program reads two CSV files, extracts one named column from each, and reports how the two key streams overlap:
- how many keys each file has;
- how many of those keys are distinct;
- how many distinct keys the files share (the distinct overlap);
- the size of their multiset intersection (the total overlap: each shared key counts with the smaller of its two counts).

This project models the two cores of that program and proves properties of them.

- **Counting and overlap** (`counter.dfy`, module `Counter`, with `map_sums.dfy` and `wrappers.dfy`). This is `internal/counter/intersection.go`:
  - `countKeys` folds a stream of keys into a frequency table and a record count.
  - `findOverlaps` walks the first table in an arbitrary order. Go's map order is unspecified, so the model picks each next key with `:|`.
  - Four orchestration variants:
    - V2 counts the two streams in turn.
    - V3, which is the exported `FindSetIntersection`, counts them in two goroutines.
    - V1 counts them in a `select` loop that interleaves the two channels.
    - V4, also a `select` loop, keeps every figure of the result up to date as each key arrives.

  A channel is the finite sequence of keys it delivers before it is closed. The `select` loops run over a schedule of `Event`s: a key received from either channel, or the receive that reports a channel closed. `Drains` describes the schedules the loop can see; `ValidSchedule` is `Drains` from the start.

  Each variant is proved to return `Intersection` of the streams it receives. `Intersection` is one reference definition built on the multiset of each stream. V1 and V4 are proved to do so for *every* valid interleaving. V4's running figures are kept equal, after each event, to the figures of the tables built so far.

- **CSV key extraction** (`reader.dfy`, module `Reader`). This is `internal/reader/csv.go`:
  - The input behind the `io.Reader` is described by the records `encoding/csv` tokenises it into, plus whether reading fails after them.
  - `CsvReader` models the library reader. It keeps the library's field-count check: the first record fixes the number of fields, and a later record with another number is a read error.
  - `KeyChannel` is the output channel, as the sequence of keys sent on it.
  - `ReadKeysFromCsvIntoChannel` is proved to send exactly what the reference function `KeysRead` describes, and to return `KeysRead`'s error.

## Model

| member | source | states |
|---|---|---|
| Counter.FindMinimum | internal/counter/intersection.go:275-281 | the result is at most both arguments and is one of them: the minimum |
| Counter.Overlap | internal/counter/intersection.go:219-229 | the multiset intersection of two tables has exactly the keys present in both tables |
| Counter.FrequenciesSnoc | internal/counter/intersection.go:205-209 | one more key increments its count, inserting it with count 1 when it is new |
| Counter.FrequenciesKeys | internal/counter/intersection.go:196-213 | the keys of a stream's table are exactly the keys the stream holds |
| Counter.FrequenciesSize | internal/counter/intersection.go:196-213 | a stream's table has no more keys than the stream has records |
| Counter.FrequenciesTotal | internal/counter/intersection.go:196-213 | the counts of a stream's table add up to the stream's length |
| Counter.FrequenciesPositive | internal/counter/intersection.go:205-208 | every stored count is at least 1; an immediately closed stream gives the empty table |
| Counter.OverlapSymmetric | internal/counter/intersection.go:215-231 | swapping the two tables leaves both overlap figures unchanged |
| Counter.OverlapDistinctBound | internal/counter/intersection.go:219-222 | the number of shared keys is at most the size of either table |
| Counter.OverlapTotalBound | internal/counter/intersection.go:219-229 | with no negative counts, the total overlap is non-negative and at most the total of either table |
| Counter.OverlapDistinctAtMostTotal | internal/counter/intersection.go:219-229 | when every count is at least 1, the distinct overlap is at most the total overlap |
| Counter.TotalOverlapUpdate | internal/counter/intersection.go:140-145 | changing one count of a table changes the total overlap only by that key's minimum |
| Counter.ArrivalDistinct | internal/counter/intersection.go:131-137 | one more occurrence of a key adds a shared key exactly when the key is new in its own table and present in the other |
| Counter.ArrivalTotal | internal/counter/intersection.go:140-146 | one more occurrence of a key adds one to the total overlap exactly when its count was still below the other table's count |
| Counter.ArrivalOnFirst | internal/counter/intersection.go:131-149 | both overlap figures change on one arrival exactly as V4 changes its counters |
| Counter.IntersectionBounds | internal/counter/intersection.go:262-273 | in every result: distinct ≤ total per file; 0 ≤ distinct overlap ≤ total overlap; distinct overlap ≤ each file's distinct count; total overlap ≤ each file's key count |
| Counter.IntersectionIsMultisetIntersection | internal/counter/intersection.go:215-231 | the total overlap is the size of the multiset intersection of the two streams; the distinct overlap is the number of keys occurring in both |
| Counter.IntersectionSwap | internal/counter/intersection.go:7-9 | swapping the two streams swaps the per-file figures and keeps both overlaps |
| Counter.IntersectionEmpty | internal/counter/intersection_test.go:107-150 | two immediately closed streams give a result that is zero everywhere |
| Counter.OverlapExample | internal/counter/intersection_test.go:41-55 | for the test's two tables, findOverlaps gives 3 shared keys and a total overlap of 4 |
| Counter.IntersectionExample | internal/counter/intersection_test.go:57-99 | for the test's two streams, the result is 8/6 and 9/6 records/distinct, distinct overlap 4 and total overlap 5 |
| Counter.ExampleFirstKeys | internal/counter/intersection_test.go:57-99 | the test's first stream has 6 distinct keys |
| Counter.ExampleSecondKeys | internal/counter/intersection_test.go:57-99 | the test's second stream has 6 distinct keys |
| Counter.ExampleSharedKeys | internal/counter/intersection_test.go:57-99 | the test's streams share 4 keys |
| Counter.ExampleShared | internal/counter/intersection_test.go:57-99 | the test's streams have 5 occurrences in common |
| Counter.ExampleCommon | internal/counter/intersection_test.go:57-99 | the multiset intersection of the test's streams is {a, c, d, f, f} |
| Counter.Tally | internal/counter/intersection.go:205-208 | entering a key with count 0 when absent and then incrementing it gives the table of the stream extended by that key |
| Counter.CountKeys | internal/counter/intersection.go:196-213 | the table is the stream's frequency table: a key is present iff it occurs, and its count is its number of occurrences; the total is the stream length; the table size is at most the total |
| Counter.OverlapVisit | internal/counter/intersection.go:220-227 | visiting one more shared key adds 1 to the count and the key's smaller count to the sum |
| Counter.FindOverlaps | internal/counter/intersection.go:215-231 | for any visiting order, the count is the number of shared keys and the sum is the total of the smaller counts over them |
| Counter.FindSetIntersectionV2 | internal/counter/intersection.go:61-81 | the result is the intersection of the two streams; the error is nil |
| Counter.FindSetIntersectionV3 | internal/counter/intersection.go:83-117 | the result is the intersection of the two streams; the error is nil |
| Counter.FindSetIntersection | internal/counter/intersection.go:5-9 | the exported entry point returns the intersection of the two streams and a nil error |
| Counter.DrainsReportsClose | internal/counter/intersection.go:18-41 | a schedule the loop can follow to its end reports every still-open channel closed |
| Counter.ProjectionsSettled | internal/counter/intersection.go:27-29 | events that only report closes receive no keys |
| Counter.DrainedSettled | internal/counter/intersection.go:18 | once both channels are reported closed, nothing but close reports can follow |
| Counter.DrainsStep | internal/counter/intersection.go:18-41 | following one event sets `firstDone` or `secondDone` exactly when it reports that channel closed |
| Counter.ScheduleDone | internal/counter/intersection.go:18 | when the loop ends, it has received every key of both streams |
| Counter.ProjectionsStep | internal/counter/intersection.go:20-37 | receiving one event appends its key to the stream of its channel, and to nothing else |
| Counter.Sequential | internal/counter/intersection.go:18-41 | the schedule that drains the first channel and then the second has one event per key plus two close reports |
| Counter.SequentialValid | internal/counter/intersection.go:18-41 | the sequential schedule is one the select loops can follow |
| Counter.DrainsAfterFirsts | internal/counter/intersection.go:20-29 | keys received on the open first channel can come before any rest of a schedule |
| Counter.DrainsAfterSeconds | internal/counter/intersection.go:30-39 | keys received on the open second channel can come before any rest of a schedule |
| Counter.SequentialProjections | internal/counter/intersection.go:18-41 | any two streams are received, in order, under the sequential schedule, so V1 and V4 cover every pair of inputs |
| Counter.AppendProjections | internal/counter/intersection.go:18-41 | the streams received from a concatenation of schedules are the concatenations of the streams received |
| Counter.OnlyFirsts | internal/counter/intersection.go:20-29 | a schedule of first-channel keys receives exactly those keys, and none on the second channel |
| Counter.OnlySeconds | internal/counter/intersection.go:30-39 | a schedule of second-channel keys receives exactly those keys, and none on the first channel |
| Counter.FindSetIntersectionV1 | internal/counter/intersection.go:11-59 | for every valid interleaving, the result is the intersection of the two received streams; the error is nil |
| Counter.ArrivalLink | internal/counter/intersection.go:131-149 | V4's updates of its distinct count and overlap counters keep them equal to the figures of the updated table |
| Counter.ArrivalSize | internal/counter/intersection.go:131-133 | one more occurrence of a key grows the table by one key exactly when the key is new |
| Counter.Arrive | internal/counter/intersection.go:131-149 | after one key arrives, the table is that of the extended stream, and the distinct count and both overlap counters are those of the new tables |
| Counter.FindSetIntersectionV4 | internal/counter/intersection.go:120-194 | for every valid interleaving, the online counters end equal to the intersection of the two received streams, the same result as V1; the error is nil |
| MapSums.Pick | internal/counter/intersection.go:219 | an arbitrary key of a non-empty set, as a map range visits them |
| MapSums.SumOverRemove | internal/counter/intersection.go:219-229 | a sum over keys can take out any one key first: the order of the map range does not matter |
| MapSums.SumOverAgree | internal/counter/intersection.go:219-229 | sums over keys where two tables agree are equal |
| MapSums.SumOverMono | internal/counter/intersection.go:223-227 | a sum over keys does not decrease when every count grows |
| MapSums.SumOverSubset | internal/counter/intersection.go:219-229 | with non-negative counts, a sum over fewer keys is no larger |
| MapSums.SumOverAtLeastSize | internal/counter/intersection.go:219-229 | with every count at least 1, a sum over keys is at least the number of keys |
| MapSums.TotalUpdate | internal/counter/intersection.go:208 | setting one count changes a table's total by the difference |
| MapSums.TotalCountsOf | internal/counter/intersection.go:196-213 | the counts of a multiset's table add up to the multiset's size |
| Reader.CsvReader.constructor | internal/reader/csv.go:17 | a new reader is at the first record and has no field count fixed |
| Reader.CsvReader.Read | internal/reader/csv.go:22-29 | returns the next record, or end of input; a failure when the source fails at its end or when a record after the first has a different number of fields |
| Reader.KeyChannel.constructor | internal/reader/csv.go:12 | a new channel has nothing sent and is open |
| Reader.KeyChannel.Send | internal/reader/csv.go:38 | a send appends the key to what has been sent, and the channel stays open |
| Reader.IndexOf | internal/reader/csv.go:45-52 | the first position where the header equals the key exactly, and none iff the key is not in the header |
| Reader.GetIndex | internal/reader/csv.go:45-52 | on success, the smallest index whose header equals the key; otherwise 0 and an error, exactly when the key is absent |
| Reader.Conforming | internal/reader/csv.go:21-29 | the number of leading records with the header's field count: all of them before it conform, and the one at it does not |
| Reader.ColumnValues | internal/reader/csv.go:38 | one value per record, in record order, each the record's field in the key column |
| Reader.KeysReadNil | internal/reader/csv.go:13-15 | a nil source fails at once and sends nothing |
| Reader.KeysReadNoRecords | internal/reader/csv.go:22-24 | a source with no records sends nothing and returns nil, unless reading the source fails |
| Reader.KeysReadMissingHeader | internal/reader/csv.go:32-36 | a header without the key fails before any key is sent |
| Reader.KeysReadAll | internal/reader/csv.go:31-39 | when every later record has the header's field count, each sends its key column value in order, and the header is not sent |
| Reader.KeysReadStopsAtRagged | internal/reader/csv.go:27-29 | a record with another field count ends the output with a read error; keys sent before it stay sent |
| Reader.KeysReadSucceeds | internal/reader/csv.go:12-43 | the call returns nil exactly when the source does not fail and, unless there are no records, the header holds the key and every later record has its field count |
| Reader.KeysReadPrefix | internal/reader/csv.go:27-39 | whatever the outcome, what is sent is a prefix of the key column of the records after the header |
| Reader.KeysReadComplete | internal/reader/csv.go:38-42 | on success, exactly one key is sent per record after the header, in order |
| Reader.DummyFileKeys | internal/reader/csv_test.go:11-36 | the test file's column `key` sends "a" then "b" and succeeds |
| Reader.DummyFileMissingKeys | internal/reader/csv_test.go:56-64 | the test file fails for the column "non-existent" and for the empty column name |
| Reader.ProgressHeader | internal/reader/csv.go:32-36 | reading a header that holds the key fixes the key column at its first position, with nothing sent |
| Reader.ProgressRow | internal/reader/csv.go:37-38 | a conforming data record sends its key column value |
| Reader.ProgressEnd | internal/reader/csv.go:22-24 | at the end of the input everything has been sent |
| Reader.ProgressRagged | internal/reader/csv.go:27-29 | at a record with the wrong field count everything has been sent |
| Reader.ReadKeysFromCsvIntoChannel | internal/reader/csv.go:12-43 | sends exactly the keys `KeysRead` describes, in order, after whatever was already sent; returns `KeysRead`'s error; leaves the channel open |

## Left out

- Goroutines, channels and blocking:
  - A channel is the sequence of keys it delivers.
  - `select` is a schedule, given as a parameter.
  - V3's two goroutines and their done-channels are sequential calls (internal/counter/intersection.go:84-99); with no shared state between them, the result is the same.
  - A nil channel blocks forever, which is not modelled.
- `findOverlapsParallel` is not modelled. Its goroutines update `count` and `totalOverlap` with no synchronisation, which is a data race rather than behaviour.
- internal/app/app.go, main.go and internal/pool/worker.go are not part of this model. They cover concurrent orchestration, file opening, the command line, table rendering and a semaphore pool.
- `encoding/csv` tokenising is not modelled: quoting, comments and blank lines. The input is given as its records. Only the library's field-count check is kept, as `CsvReader.Read`, and it applies with the default `FieldsPerRecord` of 0.
- Go `int` overflow is not modelled; every count is an unbounded integer.
- Error messages are represented by the `CsvError` constructors, not by their strings. The `error` results of V1–V4 are `Option<string>` and are always `None`, as in the code.
- The result holds its two `FileResult`s by value; the source holds them through pointers.
- Test assertions that contradict the code are not modelled as properties:
  - internal/counter/intersection_test.go:54 and :98 expect total overlaps of 10 and 11, which are sums of count products. The code sums minimums (4 and 5), and `OverlapExample` and `IntersectionExample` prove 4 and 5.
  - The nil-channel test at lines 102-105 expects an error that no variant returns.
- Counter.FindSetIntersectionV1, Counter.FindSetIntersectionV4: the schedule is finite and ends with both channels reported closed. A `select` that never receives a close again would loop forever; that case is not modelled.
