/** One row of a processor's IP table (CrestronIPTableEntry). */
module CrestronIPTableEntry {
  import opened Text
  import opened Numbers
  import opened Results

  /** The record's ten properties. `kind` is the source's `Type` property;
      the four descriptive strings are filled only by the table parser. */
  datatype Entry = Entry(
    cipId: UShort,
    ipAddress: string,
    port: UShort,
    deviceId: UShort,
    programSlot: UShort,
    roomId: string,
    kind: string,
    status: string,
    modelName: string,
    description: string)

  /** The default constructor: every number 0, every string empty, so the
      rendering shows "0" for each number and nothing for each string. */
  function NewEntry(): (e: Entry)
    ensures Texts(e) == ["0", "0", "", "0", "", "0", "", "", "", ""]
    ensures SingleLineFields(e)
  {
    assert Decimal(0) == "0" && Hex(0) == "0";
    Entry(0, "", 0, 0, 0, "", "", "", "", "")
  }

  /** One `Label - value` item of the diagnostic rendering. */
  datatype Item = Item(name: string, text: string, quoted: bool) {
    function Render(): string {
      name + " - " + (if quoted then "'" + text + "'" else text)
    }
  }

  /** The labels of the rendering, in the order they are written. */
  const Labels: seq<string> :=
    ["ProgramID", "CIP_ID", "IPAddress", "Port", "RoomID",
     "DeviceID", "Type", "Status", "ModelName", "Description"]

  /** Which items are written in single quotes: the six strings. */
  const Quoted: seq<bool> :=
    [false, false, true, false, true, false, true, true, true, true]

  /** The value texts `ToString` writes for `e`, in label order. */
  function Texts(e: Entry): (r: seq<string>)
    ensures |r| == |Labels|
  {
    [Decimal(e.programSlot), Hex(e.cipId), e.ipAddress, Decimal(e.port), e.roomId,
     Hex(e.deviceId), e.kind, e.status, e.modelName, e.description]
  }

  /** The items `ToString` writes for `e`, one per property, under the
      labels above and in that order. */
  function Items(e: Entry): (r: seq<Item>)
    ensures |r| == |Labels|
    ensures forall i :: 0 <= i < |r| ==> r[i].name == Labels[i]
  {
    seq(|Labels|, i requires 0 <= i < |Labels| => Item(Labels[i], Texts(e)[i], Quoted[i]))
  }

  /** Exactly the six strings are quoted. */
  lemma ItemsQuoteStrings(e: Entry)
    ensures forall i :: 0 <= i < |Items(e)| ==> (Items(e)[i].quoted <==> i !in {0, 1, 3, 5})
  {
  }

  /** The slot and port are written in decimal and CIP_ID and DeviceID in
      upper-case hexadecimal, each reading back as the stored value. */
  lemma ItemsShowNumbers(e: Entry)
    ensures ParseDecimal(Items(e)[0].text) == Some(e.programSlot)
    ensures ParseHex(Items(e)[1].text) == Some(e.cipId)
    ensures ParseDecimal(Items(e)[3].text) == Some(e.port)
    ensures ParseHex(Items(e)[5].text) == Some(e.deviceId)
    ensures forall i :: 0 <= i < |Items(e)[1].text| ==> !('a' <= Items(e)[1].text[i] <= 'z')
    ensures forall i :: 0 <= i < |Items(e)[5].text| ==> !('a' <= Items(e)[5].text[i] <= 'z')
  {
    var t := Texts(e);
    assert Items(e)[0].text == t[0] && Items(e)[1].text == t[1];
    assert Items(e)[3].text == t[3] && Items(e)[5].text == t[5];
    DecimalReadsBack(e.programSlot);
    DecimalReadsBack(e.port);
    HexReadsBack(e.cipId);
    HexReadsBack(e.deviceId);
  }

  /** The six strings are written exactly as stored. */
  lemma ItemsShowStrings(e: Entry)
    ensures Items(e)[2].text == e.ipAddress && Items(e)[4].text == e.roomId
    ensures Items(e)[6].text == e.kind && Items(e)[7].text == e.status
    ensures Items(e)[8].text == e.modelName && Items(e)[9].text == e.description
  {
    var t := Texts(e);
    assert Items(e)[2].text == t[2] && Items(e)[4].text == t[4];
    assert Items(e)[6].text == t[6] && Items(e)[7].text == t[7];
    assert Items(e)[8].text == t[8] && Items(e)[9].text == t[9];
  }

  /** Items separated by ", ". */
  function RenderItems(items: seq<Item>): string
    decreases |items|
  {
    if |items| == 0 then ""
    else if |items| == 1 then items[0].Render()
    else items[0].Render() + ", " + RenderItems(items[1..])
  }

  /** CrestronIPTableEntry.ToString: the items joined by ", "; a single
      line when no string field holds a line break. */
  function EntryToString(e: Entry): (r: string)
    ensures SingleLineFields(e) ==> '\n' !in r
  {
    ItemsRenderOnOneLine(e);
    RenderItems(Items(e))
  }

  /** No string field holds a line break. */
  predicate SingleLineFields(e: Entry) {
    && '\n' !in e.ipAddress && '\n' !in e.roomId && '\n' !in e.kind
    && '\n' !in e.status && '\n' !in e.modelName && '\n' !in e.description
  }

  lemma ItemsRenderOnOneLine(e: Entry)
    ensures SingleLineFields(e) ==> '\n' !in RenderItems(Items(e))
  {
    if SingleLineFields(e) {
      assert forall i :: 0 <= i < |Labels| ==> '\n' !in Labels[i];
      TextsAreOneLine(e);
      RenderedItemsAreOneLine(Items(e));
    }
  }

  lemma TextsAreOneLine(e: Entry)
    requires SingleLineFields(e)
    ensures forall i :: 0 <= i < |Texts(e)| ==> '\n' !in Texts(e)[i]
  {
    var t := Texts(e);
    DigitsHaveNoLineBreak(t[0]);
    DigitsHaveNoLineBreak(t[1]);
    DigitsHaveNoLineBreak(t[3]);
    DigitsHaveNoLineBreak(t[5]);
  }

  lemma DigitsHaveNoLineBreak(s: string)
    requires AllDigits(s, 16)
    ensures '\n' !in s
  {
  }

  lemma {:induction false} RenderedItemsAreOneLine(items: seq<Item>)
    requires forall i :: 0 <= i < |items| ==> '\n' !in items[i].text && '\n' !in items[i].name
    ensures '\n' !in RenderItems(items)
    decreases |items|
  {
    if |items| > 1 {
      RenderedItemsAreOneLine(items[1..]);
    }
  }

  /** The default entry renders every number as "0" and every string as ''. */
  lemma ItemsOfNewEntry()
    ensures Items(NewEntry()) ==
      [Item("ProgramID", "0", false), Item("CIP_ID", "0", false), Item("IPAddress", "", true),
       Item("Port", "0", false), Item("RoomID", "", true), Item("DeviceID", "0", false),
       Item("Type", "", true), Item("Status", "", true), Item("ModelName", "", true),
       Item("Description", "", true)]
  {
    assert Decimal(0) == "0" && Hex(0) == "0";
    assert Texts(NewEntry()) == ["0", "0", "", "0", "", "0", "", "", "", ""];
  }
}
