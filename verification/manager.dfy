/** CrestronIPTableManager: builds console commands, reads the processor's
    tabular IP table into a `Table`, issues add/remove peer commands and
    searches a loaded table. The console is a parameter: a function from
    the command sent to the response text received. */
module CrestronIPTableManager {
  import opened Results
  import opened Text
  import opened Numbers
  import opened CrestronIPTableEntry
  import opened CrestronIPTable

  const ListIPTableTabular: string := "iptable -t"
  const AddPeer: string := "addpeer"
  const RemovePeer: string := "rempeer"

  /** Markers looked for, case-insensitively, in the console's replies. */
  const ErrorMarker: string := "bad or incomplete command"
  const TableMarker: string := "tablestart:"
  const SuccessMarker: string := "master list set"

  /** Line prefixes of the table's header and separator lines. */
  const HeaderPrefix: string := "CIP_ID"
  const SeparatorPrefix: string := "-"

  /** Highest program slot a processor runs. */
  const MaxProgramSlot: int := 10

  /** The ArgumentExceptions the manager throws before sending anything. */
  datatype Error = InvalidSlot(slot: UShort) | InvalidEntryValues

  // ---------------------------------------------------------------------
  // Query command and response classification

  /** The tabular listing command for all slots (0) or for one slot. */
  function QueryCommand(slot: UShort): (r: Result<string, Error>)
    ensures r.Failure? <==> slot > MaxProgramSlot
    ensures r.Failure? ==> r.error == InvalidSlot(slot)
    ensures slot == 0 ==> r == Success(ListIPTableTabular)
  {
    if slot == 0 then Success(ListIPTableTabular)
    else if slot <= MaxProgramSlot then Success(ListIPTableTabular + " -p:" + Decimal(slot))
    else Failure(InvalidSlot(slot))
  }

  /** A slot-scoped query is the tabular command, the `-p:` selector, and
      the slot's decimal text, which reads back as the slot. */
  lemma QueryCommandSelectsSlot(slot: UShort)
    requires 1 <= slot <= MaxProgramSlot
    ensures |QueryCommand(slot).value| > 14
    ensures QueryCommand(slot).value[..14] == "iptable -t -p:"
    ensures ParseDecimal(QueryCommand(slot).value[14..]) == Some(slot)
  {
    var c := QueryCommand(slot).value;
    assert c == "iptable -t -p:" + Decimal(slot);
    assert c[14..] == Decimal(slot);
    DecimalReadsBack(slot);
  }

  datatype ResponseKind = ErrorReply | TableReply | OtherReply

  /** How a load treats a response: the error marker wins over everything,
      then a non-empty response holding the table marker is a table. */
  function Classify(response: string): (k: ResponseKind)
    ensures k == ErrorReply <==> ContainsIgnoringCase(response, ErrorMarker)
    ensures k == TableReply <==> !ContainsIgnoringCase(response, ErrorMarker) && ContainsIgnoringCase(response, TableMarker)
  {
    if ContainsIgnoringCase(response, ErrorMarker) then ErrorReply
    else if |response| > 0 && ContainsIgnoringCase(response, TableMarker) then TableReply
    else OtherReply
  }

  // ---------------------------------------------------------------------
  // Lines of a tabular response

  predicate IsHeaderLine(line: string) {
    StartsWith(line, HeaderPrefix)
  }

  predicate IsSeparatorLine(line: string) {
    !IsHeaderLine(line) && StartsWith(line, SeparatorPrefix)
  }

  /** A data row: neither header nor separator, holding a '|' and nine
      '|'-separated fields. */
  predicate IsRecordLine(line: string) {
    && !IsHeaderLine(line) && !StartsWith(line, SeparatorPrefix)
    && Contains(line, "|") && |Split(line, '|')| == 9
  }

  /** A line is a data row exactly when it is neither a header nor a
      separator and holds eight '|' characters. */
  lemma RecordLineHasEightBars(line: string)
    ensures IsRecordLine(line) <==>
      !IsHeaderLine(line) && !StartsWith(line, SeparatorPrefix) && multiset(line)['|'] == 8
  {
    SplitCountsSeparators(line, '|');
    if multiset(line)['|'] == 8 {
      assert '|' in line;
      var i := IndexOf(line, '|');
      assert OccursAt(line, "|", i);
    }
  }

  /** The trimmed-field reading of a possibly absent string; absent reads
      as the empty string. */
  function TryTrimString(s: Option<string>): (r: string)
    ensures IsTrimmed(r)
    ensures s.None? ==> r == ""
    ensures s.Some? ==> |r| <= |s.value|
  {
    match s
    case Some(text) => Trim(text)
    case None => ""
  }

  /** Whitespace around a trimmed value is dropped. */
  lemma TryTrimStringOfPadded(w1: string, x: string, w2: string)
    requires AllWhiteSpace(w1) && AllWhiteSpace(w2) && IsTrimmed(x)
    ensures TryTrimString(Some(w1 + x + w2)) == x
  {
    TrimOfPadded(w1, x, w2);
  }

  /** The entry read from the nine fields of a data row: numbers parsed
      tolerantly, strings trimmed, the slot taken from the query. */
  function ParseRecord(slot: UShort, fields: seq<string>): (e: Entry)
    requires |fields| == 9
    ensures e.programSlot == slot
    ensures IsTrimmed(e.kind) && IsTrimmed(e.status) && IsTrimmed(e.ipAddress)
    ensures IsTrimmed(e.modelName) && IsTrimmed(e.description) && IsTrimmed(e.roomId)
  {
    NewEntry().(
      programSlot := slot,
      cipId := TryParseUShortValueAsHex(fields[0]),
      kind := TryTrimString(Some(fields[1])),
      status := TryTrimString(Some(fields[2])),
      deviceId := TryParseUShortValueAsHex(fields[3]),
      port := TryParseUShortValue(fields[4]),
      ipAddress := TryTrimString(Some(fields[5])),
      modelName := TryTrimString(Some(fields[6])),
      description := TryTrimString(Some(fields[7])),
      roomId := TryTrimString(Some(fields[8])))
  }

  /** The entry of a data row. */
  function EntryOf(slot: UShort, line: string): Entry
    requires IsRecordLine(line)
  {
    ParseRecord(slot, Split(line, '|'))
  }

  // ---------------------------------------------------------------------
  // The parse loop

  /** A trimmed line as the loop classifies it. */
  datatype Line =
    | HeaderLine(text: string)
    | SeparatorLine(text: string)
    | DataLine(text: string, entry: Entry)
    | OtherLine

  /** The loop's tests, in its order: header, then separator, then a data
      row read into an entry; anything else is skipped. */
  function ReadLine(slot: UShort, line: string): (l: Line)
    ensures l.HeaderLine? <==> IsHeaderLine(line)
    ensures l.SeparatorLine? <==> IsSeparatorLine(line)
    ensures l.DataLine? <==> IsRecordLine(line)
    ensures !l.OtherLine? ==> l.text == line
    ensures l.DataLine? ==> l.entry == EntryOf(slot, line)
  {
    if IsHeaderLine(line) then HeaderLine(line)
    else if StartsWith(line, SeparatorPrefix) then SeparatorLine(line)
    else if IsRecordLine(line) then DataLine(line, EntryOf(slot, line))
    else OtherLine
  }

  function ReadLines(slot: UShort, lines: seq<string>): (r: seq<Line>)
    ensures |r| == |lines|
    ensures forall i :: 0 <= i < |r| ==> r[i] == ReadLine(slot, lines[i])
  {
    seq(|lines|, i requires 0 <= i < |lines| => ReadLine(slot, lines[i]))
  }

  /** The loop's state: the table being filled and the latest header and
      separator lines seen so far. */
  datatype Scan = Scan(table: Table, header: string, separator: string)

  /** One line of the loop: remember a header or separator, or append a
      data row's entry and raw text and copy the remembered header and
      separator into the table. */
  function Step(s: Scan, l: Line): (r: Scan)
    ensures r.table.slot == s.table.slot
    ensures !l.DataLine? ==> r.table == s.table
    ensures l.DataLine? ==>
      r.table.entries == s.table.entries + [l.entry] && r.table.rawRows == s.table.rawRows + [l.text] &&
      r.table.rawHeader == s.header && r.table.rawSeparator == s.separator
    ensures InLockstep(s.table) ==> InLockstep(r.table)
  {
    match l
    case HeaderLine(text) => s.(header := text)
    case SeparatorLine(text) => s.(separator := text)
    case DataLine(text, entry) =>
      s.(table := s.table.(
        entries := s.table.entries + [entry],
        rawRows := s.table.rawRows + [text],
        rawHeader := s.header,
        rawSeparator := s.separator))
    case OtherLine => s
  }

  /** The loop over `ls` in order, from `start`. */
  function ScanLines(start: Scan, ls: seq<Line>): (r: Scan)
    ensures r.table.slot == start.table.slot
    ensures |r.table.entries| - |r.table.rawRows| == |start.table.entries| - |start.table.rawRows|
    ensures |r.table.entries| >= |start.table.entries|
    decreases |ls|
  {
    if |ls| == 0 then start
    else Step(ScanLines(start, ls[..|ls| - 1]), ls[|ls| - 1])
  }

  // Reference definitions of what the loop leaves behind.

  /** Every row trimmed. */
  function TrimAll(rows: seq<string>): (r: seq<string>)
    ensures |r| == |rows|
    ensures forall i :: 0 <= i < |r| ==> r[i] == Trim(rows[i])
  {
    seq(|rows|, i requires 0 <= i < |rows| => Trim(rows[i]))
  }

  /** The data rows among `lines`, in order. */
  function RecordLines(lines: seq<string>): (r: seq<string>)
    ensures |r| <= |lines|
    ensures forall k :: 0 <= k < |r| ==> IsRecordLine(r[k])
    decreases |lines|
  {
    if |lines| == 0 then []
    else RecordLines(lines[..|lines| - 1]) + (if IsRecordLine(lines[|lines| - 1]) then [lines[|lines| - 1]] else [])
  }

  /** The entries of data rows, in order. */
  function EntriesOf(slot: UShort, records: seq<string>): (r: seq<Entry>)
    requires forall k :: 0 <= k < |records| ==> IsRecordLine(records[k])
    ensures |r| == |records|
    ensures forall k :: 0 <= k < |r| ==> r[k] == EntryOf(slot, records[k]) && r[k].programSlot == slot
  {
    seq(|records|, k requires 0 <= k < |records| => EntryOf(slot, records[k]))
  }

  /** The texts of the data lines, in order. */
  function DataTexts(ls: seq<Line>): (r: seq<string>)
    ensures |r| <= |ls|
    decreases |ls|
  {
    if |ls| == 0 then []
    else DataTexts(ls[..|ls| - 1]) + (if ls[|ls| - 1].DataLine? then [ls[|ls| - 1].text] else [])
  }

  /** The entries of the data lines, in order. */
  function DataEntries(ls: seq<Line>): (r: seq<Entry>)
    ensures |r| == |DataTexts(ls)|
    decreases |ls|
  {
    if |ls| == 0 then []
    else DataEntries(ls[..|ls| - 1]) + (if ls[|ls| - 1].DataLine? then [ls[|ls| - 1].entry] else [])
  }

  /** The text of the last header line, or `default` when there is none. */
  function LastHeader(ls: seq<Line>, default: string): (r: string)
    ensures r == default || HeaderLine(r) in ls
    ensures (forall i :: 0 <= i < |ls| ==> !ls[i].HeaderLine?) ==> r == default
    decreases |ls|
  {
    if |ls| == 0 then default
    else if ls[|ls| - 1].HeaderLine? then ls[|ls| - 1].text
    else LastHeader(ls[..|ls| - 1], default)
  }

  /** The text of the last separator line, or `default`. */
  function LastSeparator(ls: seq<Line>, default: string): (r: string)
    ensures r == default || SeparatorLine(r) in ls
    ensures (forall i :: 0 <= i < |ls| ==> !ls[i].SeparatorLine?) ==> r == default
    decreases |ls|
  {
    if |ls| == 0 then default
    else if ls[|ls| - 1].SeparatorLine? then ls[|ls| - 1].text
    else LastSeparator(ls[..|ls| - 1], default)
  }

  /** The lines before the last data line. */
  function BeforeLastData(ls: seq<Line>): (r: seq<Line>)
    requires |DataTexts(ls)| > 0
    ensures |r| < |ls| && r == ls[..|r|] && ls[|r|].DataLine?
    ensures forall j :: |r| < j < |ls| ==> !ls[j].DataLine?
    decreases |ls|
  {
    if ls[|ls| - 1].DataLine? then ls[..|ls| - 1]
    else
      var r := BeforeLastData(ls[..|ls| - 1]);
      assert ls[..|ls| - 1][..|r|] == ls[..|r|];
      r
  }

  /** The loop's last iteration. */
  lemma ScanLinesLast(start: Scan, ls: seq<Line>)
    requires |ls| > 0
    ensures ScanLines(start, ls) == Step(ScanLines(start, ls[..|ls| - 1]), ls[|ls| - 1])
  {
  }

  /** The loop leaves the slot alone and grows the raw rows and entries by
      the data lines, in order and in lockstep. */
  lemma {:induction false} ScanLinesAppendsData(start: Scan, ls: seq<Line>)
    ensures ScanLines(start, ls).table.slot == start.table.slot
    ensures ScanLines(start, ls).table.rawRows == start.table.rawRows + DataTexts(ls)
    ensures ScanLines(start, ls).table.entries == start.table.entries + DataEntries(ls)
    decreases |ls|
  {
    if |ls| > 0 {
      ScanLinesAppendsData(start, ls[..|ls| - 1]);
      ScanLinesLast(start, ls);
    }
  }

  /** The remembered header and separator are the last ones seen. */
  lemma {:induction false} ScanLinesRemembersLast(start: Scan, ls: seq<Line>)
    ensures ScanLines(start, ls).header == LastHeader(ls, start.header)
    ensures ScanLines(start, ls).separator == LastSeparator(ls, start.separator)
    decreases |ls|
  {
    if |ls| > 0 {
      ScanLinesRemembersLast(start, ls[..|ls| - 1]);
      ScanLinesLast(start, ls);
    }
  }

  /** The table's header and separator copies change only when a data
      line is appended; they then hold the last ones seen before the last
      data line. */
  lemma {:induction false} ScanLinesSnapshots(start: Scan, ls: seq<Line>)
    ensures |DataTexts(ls)| == 0 ==>
      ScanLines(start, ls).table.rawHeader == start.table.rawHeader &&
      ScanLines(start, ls).table.rawSeparator == start.table.rawSeparator
    ensures |DataTexts(ls)| > 0 ==>
      ScanLines(start, ls).table.rawHeader == LastHeader(BeforeLastData(ls), start.header) &&
      ScanLines(start, ls).table.rawSeparator == LastSeparator(BeforeLastData(ls), start.separator)
    decreases |ls|
  {
    if |ls| > 0 {
      var n := |ls| - 1;
      ScanLinesSnapshots(start, ls[..n]);
      ScanLinesLast(start, ls);
      if ls[n].DataLine? {
        ScanLinesRemembersLast(start, ls[..n]);
      } else if |DataTexts(ls)| > 0 {
        assert BeforeLastData(ls) == BeforeLastData(ls[..n]);
      }
    }
  }

  /** Classifying one more line adds its text and entry exactly when it
      is a data row. */
  lemma ReadLinesLast(slot: UShort, lines: seq<string>)
    requires |lines| > 0
    ensures DataTexts(ReadLines(slot, lines)) == DataTexts(ReadLines(slot, lines[..|lines| - 1])) +
      (if IsRecordLine(lines[|lines| - 1]) then [lines[|lines| - 1]] else [])
    ensures DataEntries(ReadLines(slot, lines)) == DataEntries(ReadLines(slot, lines[..|lines| - 1])) +
      (if IsRecordLine(lines[|lines| - 1]) then [EntryOf(slot, lines[|lines| - 1])] else [])
  {
    var n := |lines| - 1;
    assert ReadLines(slot, lines)[..n] == ReadLines(slot, lines[..n]);
    assert ReadLines(slot, lines)[n] == ReadLine(slot, lines[n]);
  }

  /** Classifying the lines first picks out exactly the data rows, in
      order. */
  lemma {:induction false} ReadLinesPicksRecords(slot: UShort, lines: seq<string>)
    ensures DataTexts(ReadLines(slot, lines)) == RecordLines(lines)
    decreases |lines|
  {
    if |lines| > 0 {
      ReadLinesPicksRecords(slot, lines[..|lines| - 1]);
      ReadLinesLast(slot, lines);
    }
  }

  /** When every data line carries the parse of its own text, the data
      entries are the parses of the data texts, position by position. */
  lemma {:induction false} DataEntriesParseTexts(slot: UShort, ls: seq<Line>)
    requires forall i :: 0 <= i < |ls| && ls[i].DataLine? ==>
      IsRecordLine(ls[i].text) && ls[i].entry == EntryOf(slot, ls[i].text)
    ensures forall k :: 0 <= k < |DataTexts(ls)| ==> IsRecordLine(DataTexts(ls)[k])
    ensures forall k :: 0 <= k < |DataTexts(ls)| ==> DataEntries(ls)[k] == EntryOf(slot, DataTexts(ls)[k])
    decreases |ls|
  {
    if |ls| > 0 {
      DataEntriesParseTexts(slot, ls[..|ls| - 1]);
    }
  }

  /** ... and their entries. */
  lemma ReadLinesPicksEntries(slot: UShort, lines: seq<string>)
    ensures DataEntries(ReadLines(slot, lines)) == EntriesOf(slot, RecordLines(lines))
  {
    var ls := ReadLines(slot, lines);
    DataEntriesParseTexts(slot, ls);
    ReadLinesPicksRecords(slot, lines);
  }

  // ---------------------------------------------------------------------
  // Data rows as the processor lays them out

  /** The nine columns of a processor data row for `e`, in the order the
      parser reads them, each value followed by its column padding. */
  function RowFields(e: Entry, pads: seq<string>): (f: seq<string>)
    requires |pads| == 9
    ensures |f| == 9
  {
    var v := [Hex(e.cipId), e.kind, e.status, Hex(e.deviceId), Decimal(e.port),
              e.ipAddress, e.modelName, e.description, e.roomId];
    seq(9, i requires 0 <= i < 9 => v[i] + pads[i])
  }

  /** A data row: the padded columns separated by '|'. */
  function FormatRow(e: Entry, pads: seq<string>): string
    requires |pads| == 9
  {
    Join(RowFields(e, pads), '|')
  }

  /** Column padding: nine runs of white space. */
  predicate IsPadding(pads: seq<string>) {
    |pads| == 9 && forall i :: 0 <= i < |pads| ==> AllWhiteSpace(pads[i])
  }

  /** An entry a data row can carry verbatim: its strings are trimmed and
      hold no column separator. */
  predicate Listable(e: Entry) {
    && IsTrimmed(e.kind) && IsTrimmed(e.status) && IsTrimmed(e.ipAddress)
    && IsTrimmed(e.modelName) && IsTrimmed(e.description) && IsTrimmed(e.roomId)
    && '|' !in e.kind && '|' !in e.status && '|' !in e.ipAddress
    && '|' !in e.modelName && '|' !in e.description && '|' !in e.roomId
  }

  /** The padded hexadecimal columns read back as the numbers. */
  lemma RowNumbersReadBack(e: Entry, pads: seq<string>)
    requires IsPadding(pads)
    ensures var f := RowFields(e, pads);
      && TryParseUShortValueAsHex(f[0]) == e.cipId
      && TryParseUShortValueAsHex(f[3]) == e.deviceId
      && TryParseUShortValue(f[4]) == e.port
  {
    var f := RowFields(e, pads);
    assert f[0] == "" + Hex(e.cipId) + pads[0];
    assert f[3] == "" + Hex(e.deviceId) + pads[3];
    assert f[4] == "" + Decimal(e.port) + pads[4];
    ParseHexOfHex("", e.cipId, pads[0]);
    ParseHexOfHex("", e.deviceId, pads[3]);
    ParseDecimalOfDecimal("", e.port, pads[4]);
  }

  /** The padded string columns read back as the strings. */
  lemma RowStringsReadBack(e: Entry, pads: seq<string>)
    requires IsPadding(pads) && Listable(e)
    ensures var f := RowFields(e, pads);
      && TryTrimString(Some(f[1])) == e.kind && TryTrimString(Some(f[2])) == e.status
      && TryTrimString(Some(f[5])) == e.ipAddress && TryTrimString(Some(f[6])) == e.modelName
      && TryTrimString(Some(f[7])) == e.description && TryTrimString(Some(f[8])) == e.roomId
  {
    var f := RowFields(e, pads);
    PaddedColumnReadsBack(e.kind, pads[1], f[1]);
    PaddedColumnReadsBack(e.status, pads[2], f[2]);
    PaddedColumnReadsBack(e.ipAddress, pads[5], f[5]);
    PaddedColumnReadsBack(e.modelName, pads[6], f[6]);
    PaddedColumnReadsBack(e.description, pads[7], f[7]);
    PaddedColumnReadsBack(e.roomId, pads[8], f[8]);
  }

  lemma PaddedColumnReadsBack(x: string, pad: string, column: string)
    requires IsTrimmed(x) && AllWhiteSpace(pad) && column == x + pad
    ensures TryTrimString(Some(column)) == x
  {
    assert column == "" + x + pad;
    TryTrimStringOfPadded("", x, pad);
  }

  /** Reading the nine columns of a row laid out from `e` gives `e` back,
      when the query named the entry's slot. */
  lemma ParseRecordOfRow(e: Entry, pads: seq<string>)
    requires IsPadding(pads) && Listable(e)
    ensures ParseRecord(e.programSlot, RowFields(e, pads)) == e
  {
    RowNumbersReadBack(e, pads);
    RowStringsReadBack(e, pads);
  }

  /** No column of a laid-out row holds the separator. */
  lemma RowFieldsHaveNoBar(e: Entry, pads: seq<string>)
    requires IsPadding(pads) && Listable(e)
    ensures forall k :: 0 <= k < 9 ==> '|' !in RowFields(e, pads)[k]
  {
    var f := RowFields(e, pads);
    forall k | 0 <= k < 9
      ensures '|' !in f[k]
    {
      BlankHasNoBar(pads[k]);
      if k == 0 || k == 3 || k == 4 {
        var d := if k == 0 then Hex(e.cipId) else if k == 3 then Hex(e.deviceId) else Decimal(e.port);
        assert f[k] == d + pads[k];
        assert forall j :: 0 <= j < |d| ==> d[j] != '|';
      }
    }
  }

  lemma BlankHasNoBar(pad: string)
    requires AllWhiteSpace(pad)
    ensures '|' !in pad
  {
  }

  /** A laid-out row opens with a hexadecimal digit followed by no 'I'. */
  lemma RowOpening(e: Entry, pads: seq<string>)
    requires IsPadding(pads)
    ensures var row := FormatRow(e, pads);
      |row| >= 2 && IsDigit(row[0], 16) && row[1] != 'I'
  {
    var f := RowFields(e, pads);
    var row := FormatRow(e, pads);
    var h := Hex(e.cipId);
    assert row == f[0] + ['|'] + Join(f[1..], '|');
    assert f[0] == h + pads[0];
    assert row[0] == h[0];
    if |f[0]| == 1 {
      assert row[1] == '|';
    } else if |h| >= 2 {
      assert row[1] == h[1] && IsDigit(h[1], 16);
    } else {
      assert row[1] == pads[0][0] && IsWhiteSpace(pads[0][0]);
    }
  }

  /** Such an opening is neither a header's nor a separator's. */
  lemma NeitherHeaderNorSeparator(row: string)
    requires |row| >= 2 && IsDigit(row[0], 16) && row[1] != 'I'
    ensures !IsHeaderLine(row) && !StartsWith(row, SeparatorPrefix)
  {
  }

  /** A laid-out row is a data row whose columns are the laid-out ones. */
  lemma FormatRowIsRecordLine(e: Entry, pads: seq<string>)
    requires IsPadding(pads) && Listable(e)
    ensures Split(FormatRow(e, pads), '|') == RowFields(e, pads)
    ensures IsRecordLine(FormatRow(e, pads))
  {
    var f := RowFields(e, pads);
    var row := FormatRow(e, pads);
    RowFieldsHaveNoBar(e, pads);
    SplitOfJoin(f, '|');
    RowOpening(e, pads);
    NeitherHeaderNorSeparator(row);
    assert row == f[0] + ['|'] + Join(f[1..], '|');
    assert OccursAt(row, "|", |f[0]|);
  }

  /** The parse of a laid-out row is the entry it was laid out from. */
  lemma RowReadsBack(e: Entry, pads: seq<string>)
    requires IsPadding(pads) && Listable(e)
    ensures IsRecordLine(FormatRow(e, pads))
    ensures EntryOf(e.programSlot, FormatRow(e, pads)) == e
  {
    FormatRowIsRecordLine(e, pads);
    ParseRecordOfRow(e, pads);
  }

  // ---------------------------------------------------------------------
  // Loading a table

  /** A load's return value and the table it leaves behind. */
  datatype Loaded = Loaded(code: UShort, table: Table)

  /** The trimmed lines the parse loop visits: those of the trimmed
      response split at line feeds, when there are at least two, and none
      otherwise. */
  function LoopLines(response: string): (r: seq<string>)
    ensures |r| == 0 || |r| >= 2
  {
    var rows := Split(Trim(response), '\n');
    if |rows| >= 2 then TrimAll(rows) else []
  }

  /** LoadIPTableFromProcessor once the console has answered: a table reply
      resets the table and fills it from the data rows; an error reply or
      any other text leaves it as it was. */
  function LoadFromResponse(slot: UShort, response: string, table: Table): (r: Loaded)
    ensures r.code == 1 <==> Classify(response) == TableReply
    ensures r.code == 0 <==> r.code != 1
    ensures r.code == 0 ==> r.table == table
  {
    if Classify(response) == TableReply then
      var rows := Split(Trim(response), '\n');
      var cleared := Clear(table.(slot := slot));
      if |rows| >= 2 then Loaded(1, ScanLines(Scan(cleared, "", ""), ReadLines(slot, TrimAll(rows))).table)
      else Loaded(1, cleared)
    else Loaded(0, table)
  }

  /** After a table reply the table holds exactly the data rows' entries
      and raw text, in response order; its slot is 0, whatever slot was
      queried, because clearing follows the slot assignment. */
  lemma LoadReadsDataRows(slot: UShort, response: string, table: Table)
    requires Classify(response) == TableReply
    ensures LoadFromResponse(slot, response, table).table.slot == 0
    ensures InLockstep(LoadFromResponse(slot, response, table).table)
    ensures LoadFromResponse(slot, response, table).table.rawRows == RecordLines(LoopLines(response))
    ensures LoadFromResponse(slot, response, table).table.entries == EntriesOf(slot, RecordLines(LoopLines(response)))
  {
    var rows := Split(Trim(response), '\n');
    var cleared := Clear(table.(slot := slot));
    if |rows| >= 2 {
      ScanLinesAppendsData(Scan(cleared, "", ""), ReadLines(slot, TrimAll(rows)));
      ReadLinesPicksRecords(slot, TrimAll(rows));
      ReadLinesPicksEntries(slot, TrimAll(rows));
    }
  }

  /** The header and separator copies of a loaded table are empty when no
      data row was read, and otherwise the last ones seen before the last
      data row. */
  lemma LoadSnapshotsHeader(slot: UShort, response: string, table: Table)
    requires Classify(response) == TableReply
    ensures var ls := ReadLines(slot, LoopLines(response));
      && (|DataTexts(ls)| == 0 ==>
          LoadFromResponse(slot, response, table).table.rawHeader == "" &&
          LoadFromResponse(slot, response, table).table.rawSeparator == "")
      && (|DataTexts(ls)| > 0 ==>
          LoadFromResponse(slot, response, table).table.rawHeader == LastHeader(BeforeLastData(ls), "") &&
          LoadFromResponse(slot, response, table).table.rawSeparator == LastSeparator(BeforeLastData(ls), ""))
  {
    var rows := Split(Trim(response), '\n');
    var cleared := Clear(table.(slot := slot));
    if |rows| >= 2 {
      ScanLinesSnapshots(Scan(cleared, "", ""), ReadLines(slot, TrimAll(rows)));
    }
  }

  /** LoadIPTableFromProcessor: query the slot's table over the console
      and load the reply; an out-of-range slot is rejected before anything
      is sent. */
  function LoadIPTableFromProcessor(slot: UShort, console: string -> string, table: Table): (r: Result<Loaded, Error>)
    ensures r.Failure? <==> slot > MaxProgramSlot
    ensures r.Failure? ==> r.error == InvalidSlot(slot)
    ensures r.Success? ==> r.value == LoadFromResponse(slot, console(QueryCommand(slot).value), table)
  {
    match QueryCommand(slot)
    case Failure(e) => Failure(e)
    case Success(command) => Success(LoadFromResponse(slot, console(command), table))
  }

  // ---------------------------------------------------------------------
  // Peer mutations

  /** IsValidProgramSlot: the test is written as 0 <= slot <= 10 on an
      unsigned value, so only the upper bound constrains anything. */
  function IsValidProgramSlot(slot: UShort): (ok: bool)
    ensures ok <==> slot <= MaxProgramSlot
  {
    slot >= 0 && slot <= MaxProgramSlot
  }

  /** The arguments a peer mutation accepts: a valid slot, a non-zero
      CIP_ID and an address that is present and not blank. */
  predicate ValidPeer(slot: UShort, cipId: UShort, ipAddress: Option<string>)
    ensures ValidPeer(slot, cipId, ipAddress) <==>
      slot <= MaxProgramSlot && cipId != 0 && ipAddress.Some? && !AllWhiteSpace(ipAddress.value)
  {
    IsValidProgramSlot(slot) && cipId > 0 && ipAddress.Some? &&
    (BlankIffAllWhiteSpace(ipAddress.value); |Trim(ipAddress.value)| > 0)
  }

  /** `<verb> <CIP_ID hex> <address>`, then ` -D:<device hex>` for a remap,
      then ` -p:<slot>` unless the slot is 0. The address goes in as given,
      untrimmed. */
  function PeerCommand(verb: string, slot: UShort, cipId: UShort, ipAddress: string, deviceId: Option<UShort>): (r: string)
    ensures StartsWith(r, verb + " " + Hex(cipId) + " " + ipAddress)
    ensures deviceId.None? && slot == 0 <==> r == verb + " " + Hex(cipId) + " " + ipAddress
  {
    verb + " " + Hex(cipId) + " " + ipAddress + Spaced(DeviceTokens(deviceId)) + Spaced(SlotTokens(slot))
  }

  /** The optional ` -D:` fragment's token. */
  function DeviceTokens(deviceId: Option<UShort>): (t: seq<string>)
    ensures |t| <= 1
  {
    match deviceId
    case Some(d) => ["-D:" + Hex(d)]
    case None => []
  }

  /** The optional ` -p:` fragment's token. */
  function SlotTokens(slot: UShort): (t: seq<string>)
    ensures |t| <= 1
  {
    if slot != 0 then ["-p:" + Decimal(slot)] else []
  }

  /** An optional token with its leading space, or nothing. */
  function Spaced(t: seq<string>): string
    requires |t| <= 1
  {
    if |t| == 1 then " " + t[0] else ""
  }

  /** Whether the console acknowledged a peer mutation. */
  predicate Acknowledged(response: string) {
    ContainsIgnoringCase(response, SuccessMarker)
  }

  /** Sends a peer command for valid arguments and reports 1 exactly when
      the reply is acknowledged; invalid arguments are rejected. */
  function SendPeerCommand(verb: string, slot: UShort, cipId: UShort, ipAddress: Option<string>, deviceId: Option<UShort>, console: string -> string): (r: Result<UShort, Error>)
    ensures r.Failure? <==> !ValidPeer(slot, cipId, ipAddress)
    ensures r.Failure? ==> r.error == InvalidEntryValues
    ensures r.Success? ==>
      (r.value == 1 <==> Acknowledged(console(PeerCommand(verb, slot, cipId, ipAddress.value, deviceId))))
    ensures r.Success? ==> r.value <= 1
  {
    if ValidPeer(slot, cipId, ipAddress) then
      Success(if Acknowledged(console(PeerCommand(verb, slot, cipId, ipAddress.value, deviceId))) then 1 else 0)
    else Failure(InvalidEntryValues)
  }

  /** AddIPTableEntry. */
  function AddIPTableEntry(slot: UShort, cipId: UShort, ipAddress: Option<string>, console: string -> string): (r: Result<UShort, Error>)
    ensures r.Failure? <==> !ValidPeer(slot, cipId, ipAddress)
    ensures r.Success? ==>
      (r.value == 1 <==> Acknowledged(console(PeerCommand(AddPeer, slot, cipId, ipAddress.value, None))))
    ensures r.Success? ==> r.value <= 1
  {
    SendPeerCommand(AddPeer, slot, cipId, ipAddress, None, console)
  }

  /** AddIPTableEntryWithRemap: also requires a non-zero device id, which
      the command always carries. */
  function AddIPTableEntryWithRemap(slot: UShort, cipId: UShort, ipAddress: Option<string>, deviceId: UShort, console: string -> string): (r: Result<UShort, Error>)
    ensures r.Failure? <==> !ValidPeer(slot, cipId, ipAddress) || deviceId == 0
    ensures r.Failure? ==> r.error == InvalidEntryValues
    ensures r.Success? ==>
      (r.value == 1 <==> Acknowledged(console(PeerCommand(AddPeer, slot, cipId, ipAddress.value, Some(deviceId)))))
    ensures r.Success? ==> r.value <= 1
  {
    if deviceId > 0 then SendPeerCommand(AddPeer, slot, cipId, ipAddress, Some(deviceId), console)
    else Failure(InvalidEntryValues)
  }

  /** RemoveIPTableEntry. */
  function RemoveIPTableEntry(slot: UShort, cipId: UShort, ipAddress: Option<string>, console: string -> string): (r: Result<UShort, Error>)
    ensures r.Failure? <==> !ValidPeer(slot, cipId, ipAddress)
    ensures r.Success? ==>
      (r.value == 1 <==> Acknowledged(console(PeerCommand(RemovePeer, slot, cipId, ipAddress.value, None))))
    ensures r.Success? ==> r.value <= 1
  {
    SendPeerCommand(RemovePeer, slot, cipId, ipAddress, None, console)
  }

  /** A rejected mutation sends nothing: its outcome does not depend on
      the console at all. */
  lemma RejectedPeerSendsNothing(slot: UShort, cipId: UShort, ipAddress: Option<string>, deviceId: UShort,
                                 console1: string -> string, console2: string -> string)
    requires !ValidPeer(slot, cipId, ipAddress)
    ensures AddIPTableEntry(slot, cipId, ipAddress, console1) == AddIPTableEntry(slot, cipId, ipAddress, console2)
    ensures AddIPTableEntryWithRemap(slot, cipId, ipAddress, deviceId, console1) ==
      AddIPTableEntryWithRemap(slot, cipId, ipAddress, deviceId, console2)
    ensures RemoveIPTableEntry(slot, cipId, ipAddress, console1) == RemoveIPTableEntry(slot, cipId, ipAddress, console2)
  {
  }

  /** The tokens of a peer command, in order. */
  function PeerTokens(verb: string, slot: UShort, cipId: UShort, ipAddress: string, deviceId: Option<UShort>): (t: seq<string>)
    ensures |t| == 3 + (if deviceId.Some? then 1 else 0) + (if slot != 0 then 1 else 0)
  {
    [verb, Hex(cipId), ipAddress] + DeviceTokens(deviceId) + SlotTokens(slot)
  }

  /** Joining with an optional extra token appends it with its space. */
  lemma JoinOptional(parts: seq<string>, t: seq<string>)
    requires |parts| >= 1 && |t| <= 1
    ensures Join(parts + t, ' ') == Join(parts, ' ') + Spaced(t)
  {
    if |t| == 1 {
      JoinAppend(parts, t[0], ' ');
      assert parts + t == parts + [t[0]];
    } else {
      assert parts + t == parts;
    }
  }

  lemma PeerCommandIsJoin(verb: string, slot: UShort, cipId: UShort, ipAddress: string, deviceId: Option<UShort>)
    ensures PeerCommand(verb, slot, cipId, ipAddress, deviceId) == Join(PeerTokens(verb, slot, cipId, ipAddress, deviceId), ' ')
  {
    var base := [verb, Hex(cipId), ipAddress];
    JoinAppend([verb], Hex(cipId), ' ');
    JoinAppend([verb, Hex(cipId)], ipAddress, ' ');
    assert [verb] + [Hex(cipId)] == [verb, Hex(cipId)];
    assert [verb, Hex(cipId)] + [ipAddress] == base;
    var d := DeviceTokens(deviceId);
    JoinOptional(base, d);
    JoinOptional(base + d, SlotTokens(slot));
  }

  lemma DigitsHaveNoSpace(s: string, base: nat)
    requires AllDigits(s, base)
    ensures ' ' !in s
  {
  }

  /** Split at spaces, a peer command gives back its tokens, provided
      neither verb nor address holds a space. */
  lemma PeerCommandSplits(verb: string, slot: UShort, cipId: UShort, ipAddress: string, deviceId: Option<UShort>)
    requires ' ' !in verb && ' ' !in ipAddress
    ensures Split(PeerCommand(verb, slot, cipId, ipAddress, deviceId), ' ') == PeerTokens(verb, slot, cipId, ipAddress, deviceId)
  {
    var t := PeerTokens(verb, slot, cipId, ipAddress, deviceId);
    PeerCommandIsJoin(verb, slot, cipId, ipAddress, deviceId);
    PeerTokensHaveNoSpace(verb, slot, cipId, ipAddress, deviceId);
    SplitOfJoin(t, ' ');
  }

  lemma PeerTokensHaveNoSpace(verb: string, slot: UShort, cipId: UShort, ipAddress: string, deviceId: Option<UShort>)
    requires ' ' !in verb && ' ' !in ipAddress
    ensures forall k :: 0 <= k < |PeerTokens(verb, slot, cipId, ipAddress, deviceId)| ==>
      ' ' !in PeerTokens(verb, slot, cipId, ipAddress, deviceId)[k]
  {
    DigitsHaveNoSpace(Hex(cipId), 16);
    if deviceId.Some? {
      DigitsHaveNoSpace(Hex(deviceId.value), 16);
    }
    if slot != 0 {
      DigitsHaveNoSpace(Decimal(slot), 10);
    }
  }

  /** The tokens read back as the verb, the CIP_ID and the address,
      followed by the optional device and slot tokens. */
  lemma PeerTokensReadBack(verb: string, slot: UShort, cipId: UShort, ipAddress: string, deviceId: Option<UShort>)
    ensures var t := PeerTokens(verb, slot, cipId, ipAddress, deviceId);
      && t[0] == verb && ParseHex(t[1]) == Some(cipId) && t[2] == ipAddress
      && t[3..] == DeviceTokens(deviceId) + SlotTokens(slot)
  {
    HexReadsBack(cipId);
  }

  /** The remap token reads back as the device id after `-D:`. */
  lemma DeviceTokenReadsBack(deviceId: UShort)
    ensures |DeviceTokens(Some(deviceId))| == 1
    ensures DeviceTokens(Some(deviceId))[0][..3] == "-D:"
    ensures ParseHex(DeviceTokens(Some(deviceId))[0][3..]) == Some(deviceId)
  {
    var t := DeviceTokens(Some(deviceId))[0];
    assert t[3..] == Hex(deviceId);
    HexReadsBack(deviceId);
  }

  /** The slot token, present exactly for a non-zero slot, reads back as
      the slot after `-p:`. */
  lemma SlotTokenReadsBack(slot: UShort)
    ensures |SlotTokens(slot)| == 1 <==> slot != 0
    ensures slot != 0 ==> SlotTokens(slot)[0][..3] == "-p:"
    ensures slot != 0 ==> ParseDecimal(SlotTokens(slot)[0][3..]) == Some(slot)
  {
    if slot != 0 {
      var t := SlotTokens(slot)[0];
      assert t[3..] == Decimal(slot);
      DecimalReadsBack(slot);
    }
  }

  /** The remap example: slot 3, CIP_ID 0x10, address 10.0.0.5, device id
      0x20. */
  lemma RemapCommandExample()
    ensures PeerCommand(AddPeer, 3, 0x10, "10.0.0.5", Some(0x20)) == "addpeer 10 10.0.0.5 -D:20 -p:3"
  {
    HexOf16And32();
    DecimalOf3();
    RemapCommandPieces(Hex(0x10), Spaced(DeviceTokens(Some(0x20))), Spaced(SlotTokens(3)));
  }

  lemma RemapCommandPieces(cip: string, device: string, selector: string)
    requires cip == "10" && device == " -D:20" && selector == " -p:3"
    ensures AddPeer + " " + cip + " " + "10.0.0.5" + device + selector == "addpeer 10 10.0.0.5 -D:20 -p:3"
  {
  }

  lemma HexOf16And32()
    ensures Hex(0x10) == "10" && Hex(0x20) == "20"
  {
    assert ToBase(1, 16) == "1" && ToBase(2, 16) == "2" && ToBase(0, 16) == "0";
  }

  lemma DecimalOf3()
    ensures Decimal(3) == "3"
  {
  }

  /** The address is sent as given: padding is not trimmed away, and slot
      0 adds no selector. */
  lemma UntrimmedAddressExample()
    ensures PeerCommand(RemovePeer, 0, 0x1A, " 10.0.0.5", None) == "rempeer 1A  10.0.0.5"
  {
    var h := Hex(0x1A);
    assert h == "1A";
    assert PeerCommand(RemovePeer, 0, 0x1A, " 10.0.0.5", None) == RemovePeer + " " + h + " " + " 10.0.0.5";
  }

  // ---------------------------------------------------------------------
  // Lookup

  /** CopyIPTableEntryValues: all ten properties of `source` are copied
      over the target, so the target becomes equal to the source. */
  function CopyIPTableEntryValues(source: Entry, target: Entry): (r: Entry)
    ensures r == source
  {
    target.(cipId := source.cipId, ipAddress := source.ipAddress, deviceId := source.deviceId,
            programSlot := source.programSlot, modelName := source.modelName, port := source.port,
            description := source.description, roomId := source.roomId, status := source.status,
            kind := source.kind)
  }

  /** The position of the first entry carrying `cipId`, if there is one. */
  function FirstMatch(entries: seq<Entry>, cipId: UShort): (r: Option<nat>)
    ensures r.Some? ==> r.value < |entries| && entries[r.value].cipId == cipId
    ensures r.Some? ==> forall j :: 0 <= j < r.value ==> entries[j].cipId != cipId
    ensures r.None? <==> forall j :: 0 <= j < |entries| ==> entries[j].cipId != cipId
    decreases |entries|
  {
    if |entries| == 0 then None
    else if entries[0].cipId == cipId then Some(0)
    else
      match FirstMatch(entries[1..], cipId)
      case None => None
      case Some(k) => Some(k + 1)
  }

  /** IPEntryExists on a loaded table: 1 and a copy of the first entry with
      the CIP_ID when the table's `Count` is positive and such an entry
      exists; otherwise 0 with `returnEntry` untouched. The test is on the
      wrapped `Count`, so a table of exactly 65536 entries is searched as
      if it were empty. */
  method IPEntryExists(slot: UShort, cipId: UShort, table: Table, returnEntry: Entry)
    returns (found: UShort, entry: Entry)
    ensures found <= 1
    ensures found == 1 <==> Count(table) > 0 && FirstMatch(table.entries, cipId).Some?
    ensures found == 1 ==> entry == table.entries[FirstMatch(table.entries, cipId).value]
    ensures found == 0 ==> entry == returnEntry
  {
    found, entry := 0, returnEntry;
    if Count(table) > 0 {
      var i := 0;
      while i < |table.entries|
        invariant 0 <= i <= |table.entries|
        invariant forall j :: 0 <= j < i ==> table.entries[j].cipId != cipId
      {
        if table.entries[i].cipId == cipId {
          found := 1;
          entry := CopyIPTableEntryValues(table.entries[i], entry);
          return;
        }
        i := i + 1;
      }
    }
  }

  /** The entries a processor's reply to the slot's query lists: those of
      the data rows when the reply is a table, none otherwise. */
  function Listed(slot: UShort, response: string): (r: seq<Entry>)
    ensures Classify(response) != TableReply ==> r == []
  {
    if Classify(response) == TableReply then EntriesOf(slot, RecordLines(LoopLines(response))) else []
  }

  /** What a processor lookup answers: whether the table the console
      returns for the slot lists the CIP_ID, with a `Count` that has not
      wrapped to 0. */
  predicate ListedOnProcessor(slot: UShort, cipId: UShort, console: string -> string)
    requires slot <= MaxProgramSlot
  {
    var entries := Listed(slot, console(QueryCommand(slot).value));
    NarrowToUShort(|entries|) > 0 && FirstMatch(entries, cipId).Some?
  }

  /** IPEntryExists against the processor: load the slot's table into a
      fresh table, then search it. An out-of-range slot is rejected. */
  method IPEntryExistsOnProcessor(slot: UShort, cipId: UShort, console: string -> string, returnEntry: Entry)
    returns (r: Result<UShort, Error>, entry: Entry)
    ensures r.Failure? <==> slot > MaxProgramSlot
    ensures r.Failure? ==> r.error == InvalidSlot(slot) && entry == returnEntry
    ensures r.Success? ==> r.value <= 1
    ensures r.Success? ==> (r.value == 1 <==> ListedOnProcessor(slot, cipId, console))
    ensures r.Success? && r.value == 1 ==>
      var entries := Listed(slot, console(QueryCommand(slot).value));
      entry == entries[FirstMatch(entries, cipId).value]
    ensures r.Success? && r.value == 0 ==> entry == returnEntry
  {
    var loaded := LoadIPTableFromProcessor(slot, console, NewTable(slot));
    if loaded.Failure? {
      return Failure(loaded.error), returnEntry;
    }
    var response := console(QueryCommand(slot).value);
    if loaded.value.code == 1 {
      LoadReadsDataRows(slot, response, NewTable(slot));
      var found;
      found, entry := IPEntryExists(slot, cipId, loaded.value.table, returnEntry);
      r := Success(found);
    } else {
      r, entry := Success(0), returnEntry;
    }
  }

  /** LoadIPEntryFromProcesor: the processor lookup under another name;
      1 exactly when the entry exists, with its values copied out. */
  method LoadIPEntryFromProcesor(slot: UShort, cipId: UShort, console: string -> string, tableEntry: Entry)
    returns (r: Result<UShort, Error>, entry: Entry)
    ensures r.Failure? <==> slot > MaxProgramSlot
    ensures r.Success? ==> (r.value == 1 <==> ListedOnProcessor(slot, cipId, console))
    ensures r.Success? ==> r.value <= 1
    ensures r.Success? && r.value == 1 ==>
      var entries := Listed(slot, console(QueryCommand(slot).value));
      entry == entries[FirstMatch(entries, cipId).value]
    ensures !(r.Success? && r.value == 1) ==> entry == tableEntry
  {
    var answer;
    answer, entry := IPEntryExistsOnProcessor(slot, cipId, console, tableEntry);
    if answer.Success? && answer.value == 1 {
      r := Success(1);
    } else if answer.Success? {
      r := Success(0);
    } else {
      r := answer;
    }
  }
}
