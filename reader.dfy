/**
 * Key-column extraction from CSV text (internal/reader/csv.go).
 *
 * Tokenising is done by Go's encoding/csv and is not modelled: the text
 * behind an `io.Reader` is described by the records it tokenises into, and
 * by whether reading fails after them. What the model keeps of the library
 * is its field-count check: the first record fixes the number of fields and
 * a later record with another number of fields is a read error. The output
 * channel is the sequence of keys sent on it.
 */
module Reader {
  import opened Wrappers

  /** A record as encoding/csv returns it: a blank line is skipped, so a record has at least one field. */
  type Record = r: seq<string> | r != [] witness [""]

  /** What the text behind an `io.Reader` tokenises into. */
  datatype Input = Input(records: seq<Record>, failsAtEnd: bool)

  /** The causes of a failed `Read`: a record with the wrong number of fields, or the source itself. */
  datatype ReadError = WrongFieldCount | SourceFailed

  /** What one `Read` reports. */
  datatype ReadStatus = Row | EOF | Failed(cause: ReadError)

  /** The errors `ReadKeysFromCsvIntoChannel` and `getIndex` return. */
  datatype CsvError =
    | SourceIsNil
    | ReadFailed(cause: ReadError)
    | HeaderDoesNotExist(key: string)
    | KeyNotInHeader(key: string)

  /**
   * A `csv.Reader` over an input: it hands out the records in order, fixes
   * the field count at the first record and rejects a later record whose
   * field count differs.
   */
  class CsvReader {
    const input: Input
    var pos: nat
    var fieldsPerRecord: nat

    ghost predicate Valid()
      reads this
    {
      && pos <= |input.records|
      && fieldsPerRecord == (if pos == 0 then 0 else |input.records[0]|)
    }

    constructor (input: Input)
      ensures this.input == input && pos == 0 && Valid()
    {
      this.input := input;
      pos := 0;
      fieldsPerRecord := 0;
    }

    /** `Read`: the next record, end of input, or a read error. */
    method Read() returns (row: seq<string>, status: ReadStatus)
      requires Valid()
      modifies this
      ensures Valid()
      ensures old(pos) == |input.records| ==>
        && pos == old(pos) && row == []
        && status == (if input.failsAtEnd then Failed(SourceFailed) else EOF)
      ensures old(pos) < |input.records| ==>
        && pos == old(pos) + 1 && row == input.records[old(pos)]
        && status == (if old(pos) > 0 && |row| != |input.records[0]| then Failed(WrongFieldCount) else Row)
    {
      if pos == |input.records| {
        row := [];
        status := if input.failsAtEnd then Failed(SourceFailed) else EOF;
      } else {
        row := input.records[pos];
        pos := pos + 1;
        if fieldsPerRecord == 0 {
          fieldsPerRecord := |row|;
          status := Row;
        } else if |row| != fieldsPerRecord {
          status := Failed(WrongFieldCount);
        } else {
          status := Row;
        }
      }
    }
  }

  /** The sending end of a channel of keys: what has been sent, and whether it is closed. */
  class KeyChannel {
    var sent: seq<string>
    var closed: bool

    constructor ()
      ensures sent == [] && !closed
    {
      sent := [];
      closed := false;
    }

    /** A send; sending on a closed channel panics in Go, so it is excluded. */
    method Send(k: string)
      requires !closed
      modifies this
      ensures sent == old(sent) + [k] && !closed
    {
      sent := sent + [k];
    }
  }

  /** The first position of `key` in `headers`, compared exactly. */
  function IndexOf(headers: seq<string>, key: string): (r: Option<nat>)
    ensures r.Some? ==> r.value < |headers| && headers[r.value] == key && key !in headers[..r.value]
    ensures r.None? <==> key !in headers
  {
    if headers == [] then None
    else if headers[0] == key then Some(0)
    else
      match IndexOf(headers[1..], key)
      case None => None
      case Some(i) =>
        assert headers[..i + 1] == [headers[0]] + headers[1..][..i];
        Some(i + 1)
  }

  /** `getIndex`: scans the header for `key` and returns its first position, or 0 and an error. */
  method GetIndex(headers: seq<string>, key: string) returns (idx: int, err: Option<CsvError>)
    ensures err.None? ==> 0 <= idx < |headers| && headers[idx] == key && key !in headers[..idx]
    ensures err.Some? ==> key !in headers && idx == 0 && err == Some(KeyNotInHeader(key))
    ensures IndexOf(headers, key) == if err.None? then Some(idx) else None
  {
    for i := 0 to |headers|
      invariant key !in headers[..i]
    {
      if headers[i] == key {
        return i, None;
      }
      assert headers[..i + 1] == headers[..i] + [headers[i]];
    }
    assert headers[..|headers|] == headers;
    return 0, Some(KeyNotInHeader(key));
  }

  /** The number of leading rows that have `width` fields. */
  function Conforming(rows: seq<Record>, width: nat): (n: nat)
    ensures n <= |rows|
    ensures forall i :: 0 <= i < n ==> |rows[i]| == width
    ensures n < |rows| ==> |rows[n]| != width
  {
    if rows == [] || |rows[0]| != width then 0 else 1 + Conforming(rows[1..], width)
  }

  /** The values in column `j` of `rows`, in order. */
  function ColumnValues(rows: seq<Record>, j: nat): (col: seq<string>)
    requires forall i :: 0 <= i < |rows| ==> j < |rows[i]|
    ensures |col| == |rows|
    ensures forall i :: 0 <= i < |rows| ==> col[i] == rows[i][j]
  {
    if rows == [] then []
    else ColumnValues(rows[..|rows| - 1], j) + [rows[|rows| - 1][j]]
  }

  /** What a call sends on the channel, and the error it returns. */
  datatype Outcome = Outcome(emitted: seq<string>, err: Option<CsvError>)

  /**
   * What `ReadKeysFromCsvIntoChannel` does with a source (None for a nil
   * reader): the header is the first record; the key column is the first
   * header equal to `key`; every later record sends its value in that column,
   * up to the first record with the wrong number of fields.
   */
  function KeysRead(key: string, source: Option<Input>): Outcome {
    match source
    case None => Outcome([], Some(SourceIsNil))
    case Some(input) =>
      var records := input.records;
      var atEnd := if input.failsAtEnd then Some(ReadFailed(SourceFailed)) else None;
      if records == [] then Outcome([], atEnd)
      else
        match IndexOf(records[0], key)
        case None => Outcome([], Some(HeaderDoesNotExist(key)))
        case Some(j) =>
          var body := records[1..];
          var n := Conforming(body, |records[0]|);
          Outcome(ColumnValues(body[..n], j), if n < |body| then Some(ReadFailed(WrongFieldCount)) else atEnd)
  }

  /** A nil source fails at once and sends nothing. */
  lemma KeysReadNil(key: string)
    ensures KeysRead(key, None) == Outcome([], Some(SourceIsNil))
  {
  }

  /** A source with no records sends nothing, and fails only if the source does. */
  lemma KeysReadNoRecords(key: string, failsAtEnd: bool)
    ensures KeysRead(key, Some(Input([], failsAtEnd)))
         == Outcome([], if failsAtEnd then Some(ReadFailed(SourceFailed)) else None)
  {
  }

  /** A header without the key fails before anything is sent. */
  lemma KeysReadMissingHeader(key: string, input: Input)
    requires input.records != [] && key !in input.records[0]
    ensures KeysRead(key, Some(input)) == Outcome([], Some(HeaderDoesNotExist(key)))
  {
  }

  /**
   * When every record after the header has the header's number of fields,
   * each of them sends its value in the key column, in order, and the header
   * is not sent.
   */
  lemma KeysReadAll(key: string, input: Input, j: nat)
    requires input.records != [] && IndexOf(input.records[0], key) == Some(j)
    requires forall i :: 0 < i < |input.records| ==> |input.records[i]| == |input.records[0]|
    ensures KeysRead(key, Some(input)).emitted == ColumnValues(input.records[1..], j)
    ensures KeysRead(key, Some(input)).err == if input.failsAtEnd then Some(ReadFailed(SourceFailed)) else None
  {
    var body := input.records[1..];
    var n := Conforming(body, |input.records[0]|);
    assert n == |body|;
    assert body[..n] == body;
  }

  /** A record with another number of fields than the header ends the output with a read error. */
  lemma KeysReadStopsAtRagged(key: string, input: Input, j: nat, p: nat)
    requires 0 < p < |input.records| && IndexOf(input.records[0], key) == Some(j)
    requires forall i :: 0 < i < p ==> |input.records[i]| == |input.records[0]|
    requires |input.records[p]| != |input.records[0]|
    ensures KeysRead(key, Some(input)) == Outcome(ColumnValues(input.records[1..p], j), Some(ReadFailed(WrongFieldCount)))
  {
    var body := input.records[1..];
    var n := Conforming(body, |input.records[0]|);
    assert n == p - 1;
    assert body[..n] == input.records[1..p];
  }

  /**
   * The call succeeds exactly when the source does not fail and, unless there
   * are no records at all, the header holds the key and every later record
   * has the header's number of fields.
   */
  lemma KeysReadSucceeds(key: string, input: Input)
    ensures KeysRead(key, Some(input)).err == None
        <==> && !input.failsAtEnd
             && (input.records != [] ==>
                   && key in input.records[0]
                   && forall i :: 0 < i < |input.records| ==> |input.records[i]| == |input.records[0]|)
  {
    var records := input.records;
    if records != [] && key in records[0] {
      var j := IndexOf(records[0], key).value;
      if forall i :: 0 < i < |records| ==> |records[i]| == |records[0]| {
        KeysReadAll(key, input, j);
      } else {
        var i :| 0 < i < |records| && |records[i]| != |records[0]|;
        assert |records[1..][i - 1]| != |records[0]|;
      }
    }
  }

  /**
   * Whatever the outcome, what is sent is the key column of the first data
   * records, one key per record, in order; the header itself is never sent.
   */
  lemma KeysReadPrefix(key: string, input: Input)
    requires input.records != [] && key in input.records[0]
    ensures var emitted, j := KeysRead(key, Some(input)).emitted, IndexOf(input.records[0], key).value;
      && |emitted| <= |input.records| - 1
      && forall i :: 0 <= i < |emitted| ==> emitted[i] == input.records[i + 1][j]
  {
  }

  /** On success, every record after the header has sent exactly its key. */
  lemma KeysReadComplete(key: string, input: Input)
    requires input.records != [] && KeysRead(key, Some(input)).err == None
    ensures key in input.records[0]
    ensures var emitted, j := KeysRead(key, Some(input)).emitted, IndexOf(input.records[0], key).value;
      && |emitted| == |input.records| - 1
      && forall i :: 0 <= i < |emitted| ==> emitted[i] == input.records[i + 1][j]
  {
    KeysReadSucceeds(key, input);
    KeysReadAll(key, input, IndexOf(input.records[0], key).value);
  }

  /** The text of `dummyFile` in csv_test.go: no spaces are trimmed after the commas. */
  function DummyFile(): Input {
    Input([["key", " col1", " col2"], ["a", " 1", " 2"], ["b", " 1", " 2"]], false)
  }

  /** Reading column `key` of `dummyFile` sends "a" then "b" and succeeds. */
  lemma DummyFileKeys()
    ensures KeysRead("key", Some(DummyFile())) == Outcome(["a", "b"], None)
  {
    var input := DummyFile();
    assert IndexOf(input.records[0], "key") == Some(0);
    KeysReadAll("key", input, 0);
    assert ColumnValues(input.records[1..], 0) == ["a", "b"];
  }

  /** A column name that is not in the header of `dummyFile`, the empty one included, fails. */
  lemma DummyFileMissingKeys()
    ensures KeysRead("non-existent", Some(DummyFile())) == Outcome([], Some(HeaderDoesNotExist("non-existent")))
    ensures KeysRead("", Some(DummyFile())) == Outcome([], Some(HeaderDoesNotExist("")))
  {
    var header := DummyFile().records[0];
    assert "non-existent" !in header by {
      assert "non-existent"[0] == 'n';
    }
    assert "" !in header;
    KeysReadMissingHeader("non-existent", DummyFile());
    KeysReadMissingHeader("", DummyFile());
  }

  /**
   * The state of the read loop after `pos` records: before the header,
   * `headerKeyIndex` is -1 and nothing is sent; after it, `headerKeyIndex` is
   * the key column, every data record so far has the header's number of
   * fields, and their keys are what has been sent.
   */
  ghost predicate Progress(key: string, input: Input, pos: nat, headerKeyIndex: int, emitted: seq<string>) {
    var records := input.records;
    && pos <= |records|
    && (pos == 0 ==> headerKeyIndex == -1 && emitted == [])
    && (pos > 0 ==>
          && 0 <= headerKeyIndex
          && IndexOf(records[0], key) == Some(headerKeyIndex)
          && (forall i :: 0 < i < pos ==> |records[i]| == |records[0]|)
          && emitted == ColumnValues(records[1..pos], headerKeyIndex))
  }

  /** Reading a header that holds the key starts sending at its first position. */
  lemma ProgressHeader(key: string, input: Input, idx: nat)
    requires input.records != [] && IndexOf(input.records[0], key) == Some(idx)
    ensures Progress(key, input, 1, idx, [])
  {
  }

  /** A data record with the header's number of fields sends its key. */
  lemma ProgressRow(key: string, input: Input, pos: nat, headerKeyIndex: int, emitted: seq<string>)
    requires Progress(key, input, pos, headerKeyIndex, emitted)
    requires 0 < pos < |input.records| && |input.records[pos]| == |input.records[0]|
    ensures 0 <= headerKeyIndex < |input.records[pos]|
    ensures Progress(key, input, pos + 1, headerKeyIndex, emitted + [input.records[pos][headerKeyIndex]])
  {
    assert input.records[1..pos + 1] == input.records[1..pos] + [input.records[pos]];
  }

  /** At the end of the input, everything `KeysRead` sends has been sent. */
  lemma ProgressEnd(key: string, input: Input, headerKeyIndex: int, emitted: seq<string>)
    requires Progress(key, input, |input.records|, headerKeyIndex, emitted)
    ensures KeysRead(key, Some(input))
         == Outcome(emitted, if input.failsAtEnd then Some(ReadFailed(SourceFailed)) else None)
  {
    if input.records != [] {
      KeysReadAll(key, input, headerKeyIndex);
      assert input.records[1..|input.records|] == input.records[1..];
    }
  }

  /** At a record with the wrong number of fields, everything `KeysRead` sends has been sent. */
  lemma ProgressRagged(key: string, input: Input, pos: nat, headerKeyIndex: int, emitted: seq<string>)
    requires Progress(key, input, pos, headerKeyIndex, emitted)
    requires 0 < pos < |input.records| && |input.records[pos]| != |input.records[0]|
    ensures KeysRead(key, Some(input)) == Outcome(emitted, Some(ReadFailed(WrongFieldCount)))
  {
    KeysReadStopsAtRagged(key, input, headerKeyIndex, pos);
  }

  /**
   * `ReadKeysFromCsvIntoChannel`: reads the header, locates the key column,
   * then sends the key of every later record until the end of the input or
   * the first error. It never closes the channel.
   */
  method ReadKeysFromCsvIntoChannel(key: string, source: Option<Input>, keysOutput: KeyChannel) returns (err: Option<CsvError>)
    requires !keysOutput.closed
    modifies keysOutput
    ensures keysOutput.sent == old(keysOutput.sent) + KeysRead(key, source).emitted
    ensures err == KeysRead(key, source).err
    ensures !keysOutput.closed
  {
    if source.None? {
      return Some(SourceIsNil);
    }
    var input := source.value;
    var records := input.records;
    var csvReader := new CsvReader(input);

    var headerKeyIndex := -1;
    ghost var emitted: seq<string> := [];
    while true
      invariant csvReader.Valid() && csvReader.input == input
      invariant !keysOutput.closed
      invariant Progress(key, input, csvReader.pos, headerKeyIndex, emitted)
      invariant keysOutput.sent == old(keysOutput.sent) + emitted
      decreases |records| - csvReader.pos
    {
      ghost var p := csvReader.pos;
      var row, status := csvReader.Read();
      if status == EOF {
        ProgressEnd(key, input, headerKeyIndex, emitted);
        break;
      }
      if status.Failed? {
        if status.cause == WrongFieldCount {
          ProgressRagged(key, input, p, headerKeyIndex, emitted);
        } else {
          ProgressEnd(key, input, headerKeyIndex, emitted);
        }
        return Some(ReadFailed(status.cause));
      }
      if headerKeyIndex == -1 {
        var idx, e := GetIndex(row, key);
        if e.Some? {
          KeysReadMissingHeader(key, input);
          return Some(HeaderDoesNotExist(key));
        }
        headerKeyIndex := idx;
        ProgressHeader(key, input, idx);
      } else {
        ProgressRow(key, input, p, headerKeyIndex, emitted);
        keysOutput.Send(row[headerKeyIndex]);
        emitted := emitted + [row[headerKeyIndex]];
      }
    }
    return None;
  }
}
