# Crestron IP table manager — a Dafny model

The library reads and edits the IP table of a Crestron control processor
through its text console. `CrestronIPTableManager` does three things:

- It sends `iptable -t [-p:<slot>]` and parses the tabular reply into a
  `CrestronIPTable` of `CrestronIPTableEntry` records.
- It sends `addpeer` and `rempeer` commands, and treats a reply holding
  "master list set" as success.
- It searches a loaded table for a CIP_ID.

The model is written with immutable datatypes and pure functions. The
console is a parameter `console: string -> string` that maps the command
sent to the reply received. Argument exceptions become a `Result` failure.

Files and modules:

- `results.dfy` (`Results`): `Option` and `Result`.
- `text.dfy` (`Text`): the .NET string operations the code uses, restricted
  to ASCII. These are `Trim`, `ToLower`, `Contains`, `StartsWith`,
  `Split(char)` and its inverse `Join`.
- `numbers.dfy` (`Numbers`): 16-bit values, `{0:X}` and `{0}` rendering,
  `ushort.Parse` in the default and `HexNumber` styles, and the tolerant
  wrappers that map every failure to 0.
- `entry.dfy` (`CrestronIPTableEntry`): the record, its default
  constructor and its `ToString`.
- `table.dfy` (`CrestronIPTable`): the table, its constructors, `Count`,
  `EntryCount`, `GetIPTableEntry`, `Clear` and `ToString`.
- `manager.dfy` (`CrestronIPTableManager`): the query command, response
  classification, the parse loop, the peer commands and the lookup.

The parse loop runs over pre-classified lines. `ReadLine` applies the loop's
three tests in order: header, separator, data row. `Step` is one iteration.
`ScanLines` is the loop, and it is tied to independent definitions:

- `RecordLines`: the data rows among the lines;
- `EntriesOf`: the entries those rows parse to;
- `LastHeader` and `LastSeparator`: the last header and separator lines.

A processor data row can be laid out from an entry (`FormatRow`), and the
model shows that parsing reads that row back as the same entry.

Two behaviours of the code are easy to miss:

- **Slot reset.** A load assigns `Slot` and then calls `Clear`, which
  resets `Slot` to 0. So a loaded table always reports slot 0, while each
  of its entries carries the queried slot.
- **`Count` width.** `Count` and `EntryCount` cast the list size to
  `ushort`, so the model keeps the wrap-around at 65536. The lookup tests
  `Count > 0`, so it sees a table of exactly 65536 entries as empty.

## Model

| member | source | states |
|---|---|---|
| CrestronIPTableManager.QueryCommand | CrestronIPTable/CrestronIPTable/CrestronIPTableManager.cs:45-51 | slot 0 gives `iptable -t`; a slot above 10 is rejected with `InvalidSlot` before anything is sent; every slot up to 10 is accepted |
| CrestronIPTableManager.QueryCommandSelectsSlot | CrestronIPTable/CrestronIPTable/CrestronIPTableManager.cs:48-49 | for slots 1..10 the command is `iptable -t -p:` followed by text that parses back to the slot |
| CrestronIPTableManager.Classify | CrestronIPTable/CrestronIPTable/CrestronIPTableManager.cs:56-61 | a reply is an error exactly when its lower-cased text holds "bad or incomplete command"; it is a table exactly when it has no error marker and holds "tablestart:" |
| CrestronIPTableManager.LoadFromResponse | CrestronIPTable/CrestronIPTable/CrestronIPTableManager.cs:56-173 | the load returns 1 exactly for a table reply, whatever it contains; an error reply or any other reply returns 0 and leaves the table exactly as it was |
| CrestronIPTableManager.LoadReadsDataRows | CrestronIPTable/CrestronIPTable/CrestronIPTableManager.cs:66-147 | after a table reply the slot is 0, entries and raw rows stay in lockstep, the raw rows are exactly the data rows among the trimmed lines in reply order, and the entries are exactly their parses |
| CrestronIPTableManager.LoadSnapshotsHeader | CrestronIPTable/CrestronIPTable/CrestronIPTableManager.cs:72-151 | with no data row the header and separator copies are empty; otherwise they are the last header and separator lines seen before the last data row |
| CrestronIPTableManager.LoadIPTableFromProcessor | CrestronIPTable/CrestronIPTable/CrestronIPTableManager.cs:36-61 | an out-of-range slot fails with `InvalidSlot`; any other slot loads the console's reply to the slot's query command |
| CrestronIPTableManager.LoopLines | CrestronIPTable/CrestronIPTable/CrestronIPTableManager.cs:66-83 | the loop visits no lines, or at least two |
| CrestronIPTableManager.ReadLine | CrestronIPTable/CrestronIPTable/CrestronIPTableManager.cs:94-110 | a line is a header exactly when it starts with `CIP_ID`; a separator exactly when it is not a header and starts with `-`; a data row exactly when it is neither, holds a vertical bar and splits into nine fields; a data row carries its own parse |
| CrestronIPTableManager.RecordLineHasEightBars | CrestronIPTable/CrestronIPTable/CrestronIPTableManager.cs:104-110 | a line is a data row exactly when it is neither header nor separator and holds eight vertical bars |
| CrestronIPTableManager.ScanLinesAppendsData | CrestronIPTable/CrestronIPTable/CrestronIPTableManager.cs:90-147 | the loop keeps the slot and appends the data lines' texts and entries, in order, to the raw rows and the entries |
| CrestronIPTableManager.ScanLinesRemembersLast | CrestronIPTable/CrestronIPTable/CrestronIPTableManager.cs:94-103 | the remembered header and separator are the last ones seen |
| CrestronIPTableManager.ScanLinesSnapshots | CrestronIPTable/CrestronIPTable/CrestronIPTableManager.cs:149-151 | the table's header and separator copies change only when a data row is appended, and then take the values remembered at that row |
| CrestronIPTableManager.ReadLinesPicksRecords | CrestronIPTable/CrestronIPTable/CrestronIPTableManager.cs:90-110 | classifying the lines picks out exactly the data rows, in order |
| CrestronIPTableManager.ReadLinesPicksEntries | CrestronIPTable/CrestronIPTable/CrestronIPTableManager.cs:110-140 | the entries of the classified lines are the parses of the data rows, in order |
| CrestronIPTableManager.ParseRecord | CrestronIPTable/CrestronIPTable/CrestronIPTableManager.cs:112-140 | a record takes the queried slot, and its six string fields are trimmed |
| CrestronIPTableManager.ParseRecordOfRow | CrestronIPTable/CrestronIPTable/CrestronIPTableManager.cs:112-140 | nine columns laid out from an entry, each padded with white space, parse back to that entry: CIP_ID and DeviceID from hexadecimal fields 0 and 3, Port from decimal field 4, strings from trimmed fields 1, 2, 5, 6, 7 and 8 |
| CrestronIPTableManager.FormatRowIsRecordLine | CrestronIPTable/CrestronIPTable/CrestronIPTableManager.cs:94-110 | a laid-out row is neither a header nor a separator, holds a vertical bar, and splits back into its nine columns |
| CrestronIPTableManager.RowReadsBack | CrestronIPTable/CrestronIPTable/CrestronIPTableManager.cs:104-140 | a laid-out row is a data row and its parse is the entry it came from |
| CrestronIPTableManager.TryTrimString | CrestronIPTable/CrestronIPTable/CrestronIPTableManager.cs:447-456 | an absent string reads as ""; a present one reads as a trimmed string no longer than it |
| CrestronIPTableManager.TryTrimStringOfPadded | CrestronIPTable/CrestronIPTable/CrestronIPTableManager.cs:447-456 | white space around a trimmed value is dropped and the value is kept |
| Numbers.ParseHexOfHex | CrestronIPTable/CrestronIPTable/CrestronIPTableManager.cs:432-445 | upper-case hexadecimal text, with white space on either side, reads back as the value under the `HexNumber` parse and its tolerant wrapper |
| Numbers.ParseDecimalOfDecimal | CrestronIPTable/CrestronIPTable/CrestronIPTableManager.cs:416-429 | decimal text, with white space on either side, reads back as the value under the default parse and its tolerant wrapper |
| Numbers.ParseHexReadsDigits | CrestronIPTable/CrestronIPTable/CrestronIPTableManager.cs:432-445 | a successful hexadecimal parse reads exactly the digits left after trimming |
| Numbers.NegativeTextParsesToZero | CrestronIPTable/CrestronIPTable/CrestronIPTableManager.cs:416-429 | text with a leading minus sign reads as 0, either as a negative zero or through the caught exception |
| Numbers.HexOverflowParsesToZero | CrestronIPTable/CrestronIPTable/CrestronIPTableManager.cs:432-445 | hexadecimal text above 0xFFFF overflows and reads as 0 |
| Numbers.HexExamplePadded | CrestronIPTable/CrestronIPTable/CrestronIPTableManager.cs:432-445 | leading zeros, lower case and surrounding white space are accepted: " 001a\t" reads as 26 |
| Numbers.HexExampleZZ | CrestronIPTable/CrestronIPTable/CrestronIPTableManager.cs:432-445 | non-hexadecimal text reads as 0 |
| Numbers.HexExampleOverflow | CrestronIPTable/CrestronIPTable/CrestronIPTableManager.cs:432-445 | "10000" overflows and reads as 0 |
| Numbers.DecimalExamplePlus | CrestronIPTable/CrestronIPTable/CrestronIPTableManager.cs:416-429 | a plus sign and surrounding white space are accepted: " +80 " reads as 80 |
| Numbers.DecimalExampleNegative | CrestronIPTable/CrestronIPTable/CrestronIPTableManager.cs:416-429 | "-0" and "-5" both read as 0 |
| Numbers.DecimalExampleHexText | CrestronIPTable/CrestronIPTable/CrestronIPTableManager.cs:416-429 | hexadecimal text in the Port column reads as 0 |
| Numbers.DecimalExampleOverflow | CrestronIPTable/CrestronIPTable/CrestronIPTableManager.cs:416-429 | "65536" overflows and reads as 0 |
| CrestronIPTableManager.IsValidProgramSlot | CrestronIPTable/CrestronIPTable/CrestronIPTableManager.cs:459-462 | a slot is valid exactly when it is at most 10; the lower bound never rejects an unsigned value |
| CrestronIPTableManager.SendPeerCommand | CrestronIPTable/CrestronIPTable/CrestronIPTableManager.cs:188-219 | invalid arguments fail with `InvalidEntryValues`; otherwise the command is sent and the result is 1 exactly when the lower-cased reply holds "master list set", else 0 |
| CrestronIPTableManager.AddIPTableEntry | CrestronIPTable/CrestronIPTable/CrestronIPTableManager.cs:183-223 | rejects an invalid slot, CIP_ID 0, or an absent or blank address; otherwise 1 exactly when the `addpeer` command without device id is acknowledged |
| CrestronIPTableManager.AddIPTableEntryWithRemap | CrestronIPTable/CrestronIPTable/CrestronIPTableManager.cs:233-277 | also rejects device id 0; otherwise 1 exactly when the `addpeer` command with the device id is acknowledged |
| CrestronIPTableManager.RemoveIPTableEntry | CrestronIPTable/CrestronIPTable/CrestronIPTableManager.cs:284-327 | same validation as adding; 1 exactly when the `rempeer` command is acknowledged |
| CrestronIPTableManager.RejectedPeerSendsNothing | CrestronIPTable/CrestronIPTable/CrestronIPTableManager.cs:183-325 | a rejected mutation does not depend on the console at all, so nothing is sent |
| CrestronIPTableManager.PeerCommandIsJoin | CrestronIPTable/CrestronIPTable/CrestronIPTableManager.cs:251-258 | the command is its tokens joined by single spaces: verb, CIP_ID, address, then the optional `-D:` and `-p:` tokens |
| CrestronIPTableManager.PeerCommandSplits | CrestronIPTable/CrestronIPTable/CrestronIPTableManager.cs:251-258 | if neither verb nor address holds a space, splitting the command at spaces gives back exactly its tokens |
| CrestronIPTableManager.PeerTokens | CrestronIPTable/CrestronIPTable/CrestronIPTableManager.cs:251-258 | there are three tokens, plus one for a device id, plus one for a non-zero slot |
| CrestronIPTableManager.PeerTokensReadBack | CrestronIPTable/CrestronIPTable/CrestronIPTableManager.cs:251 | the tokens are the verb, the upper-case hexadecimal CIP_ID (which parses back to it) and the address as given, then the optional tokens |
| CrestronIPTableManager.DeviceTokenReadsBack | CrestronIPTable/CrestronIPTable/CrestronIPTableManager.cs:254 | the remap token is `-D:` followed by hexadecimal text that parses back to the device id |
| CrestronIPTableManager.SlotTokenReadsBack | CrestronIPTable/CrestronIPTable/CrestronIPTableManager.cs:257-258 | a slot token is present exactly for a non-zero slot, and it is `-p:` followed by decimal text that parses back to the slot |
| CrestronIPTableManager.RemapCommandExample | CrestronIPTable/CrestronIPTable/CrestronIPTableManager.cs:251-258 | slot 3, CIP_ID 0x10, address 10.0.0.5 and device 0x20 give "addpeer 10 10.0.0.5 -D:20 -p:3" |
| CrestronIPTableManager.UntrimmedAddressExample | CrestronIPTable/CrestronIPTable/CrestronIPTableManager.cs:301-305 | the address goes into the command untrimmed, and slot 0 adds no selector |
| CrestronIPTableManager.CopyIPTableEntryValues | CrestronIPTable/CrestronIPTable/CrestronIPTableManager.cs:465-485 | all ten properties are copied, so the target becomes equal to the source |
| CrestronIPTableManager.FirstMatch | CrestronIPTable/CrestronIPTable/CrestronIPTableManager.cs:369-390 | the position found holds the CIP_ID and no earlier position does; there is no position exactly when no entry holds the CIP_ID |
| CrestronIPTableManager.IPEntryExists | CrestronIPTable/CrestronIPTable/CrestronIPTableManager.cs:352-397 | returns 1 exactly when `Count` is positive and some entry holds the CIP_ID, and then hands back the first such entry; otherwise returns 0 and leaves the output entry unchanged |
| CrestronIPTableManager.IPEntryExistsOnProcessor | CrestronIPTable/CrestronIPTable/CrestronIPTableManager.cs:336-350 | an out-of-range slot fails; otherwise 1 exactly when the reply to the slot's query is a table that lists the CIP_ID, with the first listed entry handed back, and 0 with the output entry unchanged otherwise |
| CrestronIPTableManager.LoadIPEntryFromProcesor | CrestronIPTable/CrestronIPTable/CrestronIPTableManager.cs:400-413 | the same answer as the processor lookup |
| CrestronIPTable.NewTable | CrestronIPTable/CrestronIPTable/CrestronIPTable.cs:46-58 | a new table has the given slot, no entries and no raw rows, and empty header and separator text |
| CrestronIPTable.Count | CrestronIPTable/CrestronIPTable/CrestronIPTable.cs:22-28 | below 65536 entries the count is the number of entries |
| CrestronIPTable.EntryCount | CrestronIPTable/CrestronIPTable/CrestronIPTable.cs:37-43 | below 65536 entries the count is the number of entries |
| CrestronIPTable.CountWrapsAround | CrestronIPTable/CrestronIPTable/CrestronIPTable.cs:22-43 | both counts agree, and 65536 entries count as 0 |
| CrestronIPTable.GetIPTableEntry | CrestronIPTable/CrestronIPTable/CrestronIPTable.cs:62-73 | returns 1 and the entry at 1-based position i exactly when 1 <= i <= the number of entries; otherwise returns 0 and the output entry unchanged |
| CrestronIPTable.GetEnumeratesEntries | CrestronIPTable/CrestronIPTable/CrestronIPTable.cs:62-73 | positions 1..n give the entries in list order |
| CrestronIPTable.Clear | CrestronIPTable/CrestronIPTable/CrestronIPTable.cs:78-90 | whatever the table held, the result is the default-constructed table, slot 0 included |
| CrestronIPTable.ClearIsIdempotent | CrestronIPTable/CrestronIPTable/CrestronIPTable.cs:78-90 | clearing twice is clearing once |
| CrestronIPTable.TableToStringLines | CrestronIPTable/CrestronIPTable/CrestronIPTable.cs:96-110 | split at line feeds, the text is the title line `IP Table for Slot <slot>`, then one line per entry in list order, then nothing; this holds when no entry string holds a line break |
| CrestronIPTable.AppendLinesIsJoin | CrestronIPTable/CrestronIPTable/CrestronIPTable.cs:98-109 | ending each line with "\r\n" is joining the carriage-return-terminated lines at line feeds |
| CrestronIPTable.TableToStringIgnoresRawText | CrestronIPTable/CrestronIPTable/CrestronIPTable.cs:100-101 | the raw header, separator and rows never reach the rendering |
| CrestronIPTableEntry.Items | CrestronIPTable/CrestronIPTable/CrestronIPTableEntry.cs:88 | the rendering has ten items under the labels ProgramID, CIP_ID, IPAddress, Port, RoomID, DeviceID, Type, Status, ModelName, Description, in that order |
| CrestronIPTableEntry.ItemsQuoteStrings | CrestronIPTable/CrestronIPTable/CrestronIPTableEntry.cs:88 | exactly the six string items are single-quoted |
| CrestronIPTableEntry.ItemsShowNumbers | CrestronIPTable/CrestronIPTable/CrestronIPTableEntry.cs:88 | the slot and port are shown in decimal and the CIP_ID and DeviceID in upper-case hexadecimal, each reading back as the stored value |
| CrestronIPTableEntry.ItemsShowStrings | CrestronIPTable/CrestronIPTable/CrestronIPTableEntry.cs:88 | the six strings are shown exactly as stored |
| CrestronIPTableEntry.EntryToString | CrestronIPTable/CrestronIPTable/CrestronIPTableEntry.cs:86-89 | the rendering is a single line when no string field holds a line break |
| CrestronIPTableEntry.NewEntry | CrestronIPTable/CrestronIPTable/CrestronIPTableEntry.cs:67-80 | the default entry renders its numbers as "0" and its strings as empty text, and has no line break in any field |
| CrestronIPTableEntry.ItemsOfNewEntry | CrestronIPTable/CrestronIPTable/CrestronIPTableEntry.cs:67-88 | the default entry has every number 0 and every string empty, and renders them as "0" and '' |
| Text.Split | CrestronIPTable/CrestronIPTable/CrestronIPTableManager.cs:104-106 | `Split` gives at least one piece, no piece holds the separator, and joining the pieces gives the input back |
| Text.SplitOfJoin | CrestronIPTable/CrestronIPTable/CrestronIPTableManager.cs:104-106 | splitting a join of separator-free pieces gives the pieces back |
| Text.SplitCountsSeparators | CrestronIPTable/CrestronIPTable/CrestronIPTableManager.cs:106-109 | `Split` gives one more piece than there are separators |
| Text.TrimOfPadded | CrestronIPTable/CrestronIPTable/CrestronIPTableManager.cs:92 | trimming white space padded around a trimmed string gives that string |
| Text.BlankIffAllWhiteSpace | CrestronIPTable/CrestronIPTable/CrestronIPTableManager.cs:188 | a string trims to nothing exactly when it is all white space |
| Numbers.TryParseUShortValue | CrestronIPTable/CrestronIPTable/CrestronIPTableManager.cs:416-429 | the result is the decimal parse when the text parses to a 16-bit value, and 0 on any failure |
| Numbers.TryParseUShortValueAsHex | CrestronIPTable/CrestronIPTable/CrestronIPTableManager.cs:432-445 | the result is the hexadecimal parse when the text parses to a 16-bit value, and 0 on any failure |
| CrestronIPTableManager.ValidPeer | CrestronIPTable/CrestronIPTable/CrestronIPTableManager.cs:188 | arguments are accepted exactly when the slot is at most 10, the CIP_ID is non-zero and the address is present and not all white space |
| CrestronIPTableManager.PeerCommand | CrestronIPTable/CrestronIPTable/CrestronIPTableManager.cs:200-204 | the command starts with the verb, the CIP_ID in hex and the untrimmed address, separated by spaces; it is exactly that when there is no device id and the slot is 0 |
| CrestronIPTableManager.Step | CrestronIPTable/CrestronIPTable/CrestronIPTableManager.cs:94-151 | one line keeps the slot; only a data row changes the table, appending its entry and its text and copying the remembered header and separator; rows and entries stay in lockstep |
| CrestronIPTableManager.ScanLines | CrestronIPTable/CrestronIPTable/CrestronIPTableManager.cs:90-151 | the loop keeps the slot, never removes an entry, and keeps the difference between entry and raw row counts |
| CrestronIPTable.DefaultTable | CrestronIPTable/CrestronIPTable/CrestronIPTable.cs:46-52 | the new table has no entries, rows and entries in lockstep, empty header and separator copies, and renders as the title line for slot 0 alone |
| CrestronIPTable.TableToString | CrestronIPTable/CrestronIPTable/CrestronIPTable.cs:96-110 | the rendering starts with the title line naming the slot; with no entries it is that line alone |

## Left out

- The console transport (`CrestronConsole.SendControlSystemCommand`) is a
  parameter. Replies are never null, so the `response == null` tests have
  no counterpart. The null dereference in `RemoveIPTableEntry`'s warning
  branch (CrestronIPTableManager.cs:317) cannot arise.
- Logging through `CrestronConsole.PrintLine` and `ErrorLog` is left out.
  This includes the warning branch for a failed remove
  (CrestronIPTableManager.cs:317-320), which only logs.
- The `try`/`catch` around the parse loop is left out. Parsing in the
  model is total, so the catch never applies.
- The `ArgumentException` for a null table is left out. Tables, entries and
  their lists are values that cannot be null. The `null` checks on the
  lists, on list elements and on the lookup's output entry are left out too.
- The JSON attributes on the entry are serialization metadata only.
- .NET's `Trim`, `ToLower` and `ushort.Parse` are modelled for ASCII only:
  - white space is space and U+0009..U+000D;
  - case folding is A..Z;
  - digits are ASCII.

  Unicode white space, culture-specific case mapping and the culture's
  sign symbols are not modelled.
- `Environment.NewLine` is taken to be "\r\n".
- The `programSlot` argument of the table-level `IPEntryExists` is never
  read by the source, and the model ignores it too.
- CrestronIPTableManager.LoadFromResponse: the whole-reply round trip is
  stated row by row. `RowReadsBack` covers one laid-out row and
  `LoadReadsDataRows` covers the rows of a reply. No single lemma
  renders a complete reply and loads it back.
- Object identity is not modelled. Entries and tables are immutable
  values. The source's entry has public setters (CrestronIPTableEntry.cs:21-41).
  `GetIPTableEntry` hands out the list's own entry object
  (CrestronIPTable.cs:68), and the table-level `IPEntryExists` copies the
  match into the caller's object in place (CrestronIPTableManager.cs:381).
  So a caller that mutates a fetched entry also changes the table, and
  the model cannot express that aliasing.
- `StartsWith` is compared character by character. The source calls
  `String.StartsWith(string)` (CrestronIPTableManager.cs:94, 99), which is
  culture-sensitive and skips characters the culture ignores, such as
  U+00AD and some control characters. A line that begins with such a
  character before `CIP_ID` or `-` may be classified differently.
