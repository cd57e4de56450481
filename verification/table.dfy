/** The IP table of one program slot (CrestronIPTable): the parsed entries,
    the trimmed raw rows they came from, and the last header and separator
    text seen while parsing. */
module CrestronIPTable {
  import opened Text
  import opened Numbers
  import opened CrestronIPTableEntry

  datatype Table = Table(
    slot: UShort,
    entries: seq<Entry>,
    rawRows: seq<string>,
    rawHeader: string,
    rawSeparator: string)

  /** One raw row per entry; the parser appends both together. */
  predicate InLockstep(t: Table) {
    |t.entries| == |t.rawRows|
  }

  /** The default constructor: no rows and empty raw text. The slot
      property is left at its default, 0, so the rendering is the title
      line for slot 0 alone. */
  function DefaultTable(): (t: Table)
    ensures Count(t) == 0 && InLockstep(t)
    ensures t.rawHeader == "" && t.rawSeparator == ""
    ensures TableToString(t) == "IP Table for Slot 0" + NewLine
  {
    var t := Table(0, [], [], "", "");
    assert Decimal(0) == "0";
    assert [Title(t)] + EntryLines(t.entries) == [Title(t)];
    t
  }

  /** The slot constructor: the default constructor, then the slot. */
  function NewTable(slot: UShort): (t: Table)
    ensures t.slot == slot && Count(t) == 0 && InLockstep(t)
    ensures t == DefaultTable().(slot := slot)
  {
    DefaultTable().(slot := slot)
  }

  /** `Count`: the number of entries, narrowed to a `ushort` by the
      property's cast, so it wraps around at 65536. */
  function Count(t: Table): (n: UShort)
    ensures |t.entries| <= MaxUShort ==> n == |t.entries|
  {
    NarrowToUShort(|t.entries|)
  }

  /** `EntryCount`: the same cast of the same list size. */
  function EntryCount(t: Table): (n: UShort)
    ensures |t.entries| <= MaxUShort ==> n == |t.entries|
  {
    NarrowToUShort(|t.entries|)
  }

  /** The two counts agree, and a full wrap of 65536 entries reads as an
      empty table. */
  lemma CountWrapsAround(t: Table)
    ensures Count(t) == EntryCount(t)
    ensures |t.entries| == 0x1_0000 ==> Count(t) == 0
  {
  }

  /** What GetIPTableEntry hands back through its return value and its
      `ref` parameter. */
  datatype Fetched = Fetched(found: UShort, entry: Entry)

  /** GetIPTableEntry: the entry at a 1-based position, or `entryRow`
      unchanged with 0 when the position is outside 1..|entries|. */
  function GetIPTableEntry(t: Table, entryIndex: UShort, entryRow: Entry): (r: Fetched)
    ensures r.found == 1 <==> 1 <= entryIndex <= |t.entries|
    ensures r.found == 0 <==> r.found != 1
    ensures r.found == 1 ==> r.entry == t.entries[entryIndex - 1]
    ensures r.found == 0 ==> r.entry == entryRow
  {
    if entryIndex > 0 && entryIndex <= |t.entries| then Fetched(1, t.entries[entryIndex - 1])
    else Fetched(0, entryRow)
  }

  /** Clear: whatever the table held, the result is a default-constructed
      table, slot 0 included. */
  function Clear(t: Table): (r: Table)
    ensures r == DefaultTable()
    ensures Count(r) == 0 && InLockstep(r)
  {
    t.(entries := [], rawRows := [], rawHeader := "", rawSeparator := "", slot := 0)
  }

  lemma ClearIsIdempotent(t: Table)
    ensures Clear(Clear(t)) == Clear(t)
  {
  }

  /** Positions 1..|entries| enumerate the entries in order. */
  lemma GetEnumeratesEntries(t: Table, k: nat, entryRow: Entry)
    requires k < |t.entries| && k + 1 < 0x1_0000
    ensures GetIPTableEntry(t, k + 1, entryRow) == Fetched(1, t.entries[k])
  {
  }

  /** `StringBuilder.AppendLine` terminator on the Windows-based processors. */
  const NewLine: string := "\r\n"

  function Title(t: Table): string {
    "IP Table for Slot " + Decimal(t.slot)
  }

  /** Each line followed by `NewLine`. */
  function AppendLines(lines: seq<string>): string
    decreases |lines|
  {
    if |lines| == 0 then "" else lines[0] + NewLine + AppendLines(lines[1..])
  }

  /** The rendered entries in list order. */
  function EntryLines(entries: seq<Entry>): (r: seq<string>)
    ensures |r| == |entries|
    ensures forall i :: 0 <= i < |r| ==> r[i] == EntryToString(entries[i])
  {
    seq(|entries|, i requires 0 <= i < |entries| => EntryToString(entries[i]))
  }

  /** CrestronIPTable.ToString: a title line naming the slot, then one line
      per entry. */
  function TableToString(t: Table): (r: string)
    ensures StartsWith(r, "IP Table for Slot " + Decimal(t.slot) + NewLine)
    ensures |t.entries| == 0 ==> r == "IP Table for Slot " + Decimal(t.slot) + NewLine
  {
    var lines := [Title(t)] + EntryLines(t.entries);
    assert lines[1..] == EntryLines(t.entries);
    assert |t.entries| == 0 ==> AppendLines(lines[1..]) == "";
    AppendLines(lines)
  }

  /** Each line with the carriage return of `NewLine`, then the empty piece
      after the last line feed. */
  function Terminated(lines: seq<string>): (r: seq<string>)
    ensures |r| == |lines| + 1 && r[|lines|] == ""
    ensures forall i :: 0 <= i < |lines| ==> r[i] == lines[i] + "\r"
  {
    seq(|lines|, i requires 0 <= i < |lines| => lines[i] + "\r") + [""]
  }

  /** Split at line feeds, the rendering is the title line, one line per
      entry in order (each keeping the carriage return of `NewLine`), and
      the empty rest after the last terminator. */
  lemma TableToStringLines(t: Table)
    requires forall i :: 0 <= i < |t.entries| ==> SingleLineFields(t.entries[i])
    ensures Split(TableToString(t), '\n') == Terminated([Title(t)] + EntryLines(t.entries))
  {
    var lines := [Title(t)] + EntryLines(t.entries);
    LinesAreOneLine(t);
    AppendLinesIsJoin(lines);
    SplitOfJoin(Terminated(lines), '\n');
  }

  lemma LinesAreOneLine(t: Table)
    requires forall i :: 0 <= i < |t.entries| ==> SingleLineFields(t.entries[i])
    ensures forall i :: 0 <= i < |[Title(t)] + EntryLines(t.entries)| ==> '\n' !in ([Title(t)] + EntryLines(t.entries))[i]
  {
    var lines := [Title(t)] + EntryLines(t.entries);
    forall i | 0 <= i < |lines|
      ensures '\n' !in lines[i]
    {
      if i == 0 {
        TitleIsOneLine(t);
      } else {
        assert lines[i] == EntryToString(t.entries[i - 1]);
      }
    }
  }

  lemma TitleIsOneLine(t: Table)
    ensures '\n' !in Title(t)
  {
    var d := Decimal(t.slot);
    assert AllDigits(d, 10);
    assert forall i :: 0 <= i < |d| ==> d[i] != '\n';
  }

  /** Terminating each line with `NewLine` is joining the lines, each with
      its carriage return, at line feeds, followed by one empty piece. */
  lemma {:induction false} AppendLinesIsJoin(lines: seq<string>)
    requires forall i :: 0 <= i < |lines| ==> '\n' !in lines[i]
    ensures AppendLines(lines) == Join(Terminated(lines), '\n')
    ensures forall k :: 0 <= k < |Terminated(lines)| ==> '\n' !in Terminated(lines)[k]
    decreases |lines|
  {
    if |lines| > 0 {
      AppendLinesIsJoin(lines[1..]);
      assert Terminated(lines)[1..] == Terminated(lines[1..]);
    }
  }

  /** The raw header, separator and rows never reach the rendering. */
  lemma TableToStringIgnoresRawText(t: Table, rows: seq<string>, header: string, separator: string)
    ensures TableToString(t.(rawRows := rows, rawHeader := header, rawSeparator := separator)) == TableToString(t)
  {
  }
}
