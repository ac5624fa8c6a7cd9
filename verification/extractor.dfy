/**
 * The body of the `for event, offer in ...` loop that builds one `Data` row
 * from one offer element: two required attributes, eleven child lookups and
 * the conversion of `modified_time` from epoch seconds to a date.
 */
module Extractor {
  import opened Wrappers
  import opened Decimal
  import opened Calendar
  import opened Schema
  import opened Lookup

  /** The exceptions that end an extraction. */
  datatype ExtractError =
    | MissingAttribute(name: string)      // KeyError from offer.attrib[name]
    | NotAnInteger(raw: Option<string>)   // int() of None (TypeError) or of other text (ValueError)
    | YearOutOfRange(year: int)           // fromtimestamp or strftime refuse the local year

  /** The ten text columns filled from child elements, in declaration order. */
  datatype TextColumn =
    | CategoryId | CurrencyId | Delivery | Description | Name
    | Oldprice | Picture | Price | SalesNotes | Topseller

  const TextColumns: seq<TextColumn> := [
    CategoryId, CurrencyId, Delivery, Description, Name,
    Oldprice, Picture, Price, SalesNotes, Topseller]

  function ColumnName(c: TextColumn): string {
    match c
    case CategoryId => "category_id"
    case CurrencyId => "currency_id"
    case Delivery => "delivery"
    case Description => "description"
    case Name => "name"
    case Oldprice => "oldprice"
    case Picture => "picture"
    case Price => "price"
    case SalesNotes => "sales_notes"
    case Topseller => "topseller"
  }

  /** The child tag a column is read from: three are renamed, every other one is the column's own name. */
  function TagFor(c: TextColumn): string {
    match c
    case CategoryId => "categoryId"
    case CurrencyId => "currencyId"
    case Topseller => "top_seller"
    case _ => ColumnName(c)
  }

  /** The tag `modified_time` is read from. */
  const ModifiedTimeTag: string := "modified_time"

  /** A record's value in one of the ten text columns. */
  function OptionalField(r: Record, c: TextColumn): Option<string> {
    match c
    case CategoryId => r.categoryId
    case CurrencyId => r.currencyId
    case Delivery => r.delivery
    case Description => r.description
    case Name => r.name
    case Oldprice => r.oldprice
    case Picture => r.picture
    case Price => r.price
    case SalesNotes => r.salesNotes
    case Topseller => r.topseller
  }

  /**
   * The text columns are the schema's columns other than `available`,
   * `item_id` and `modified_time`, in the same order.
   */
  lemma TextColumnsCoverSchema()
    ensures |TextColumns| == 10
    ensures forall i, j :: 0 <= i < j < |TextColumns| ==> TextColumns[i] != TextColumns[j]
    ensures var names := ColumnNames(DataColumns);
      seq(10, i requires 0 <= i < 10 => ColumnName(TextColumns[i]))
      == names[1..5] + names[7..]
  {
    var names := ColumnNames(DataColumns);
    assert names == ["available", "category_id", "currency_id", "delivery", "description", "item_id",
      "modified_time", "name", "oldprice", "picture", "price", "sales_notes", "topseller"];
    var textNames := ["category_id", "currency_id", "delivery", "description", "name",
      "oldprice", "picture", "price", "sales_notes", "topseller"];
    assert names[1..5] + names[7..] == textNames;
    assert seq(10, i requires 0 <= i < 10 => ColumnName(TextColumns[i])) == textNames;
  }

  /** int(raw) on what the `modified_time` lookup returned. */
  function ParseTimestamp(raw: Option<string>): (r: Result<int, ExtractError>)
    ensures r.Ok? <==> raw.Some? && IsIntLiteral(raw.value)
    ensures r.Ok? ==> r.value == ParseInt(raw.value).value
    ensures r.Err? ==> r.error == NotAnInteger(raw)
  {
    match raw
    case None => Err(NotAnInteger(None))
    case Some(text) =>
      match ParseInt(text)
      case None => Err(NotAnInteger(raw))
      case Some(seconds) => Ok(seconds)
  }

  /** The epoch seconds an offer's `modified_time` child holds, when it holds an integer. */
  function Timestamp(e: Element): Result<int, ExtractError> {
    ParseTimestamp(SafelyGetData(e, ModifiedTimeTag))
  }

  /**
   * One offer to one `Data` row, with local time at `utcOffset` seconds east
   * of UTC. The attribute `available` is read first and `id` after the child
   * lookups, so a missing `available` is the error reported when both are
   * missing; the timestamp is converted last.
   */
  function ExtractRecord(e: Element, utcOffset: int): (r: Result<Record, ExtractError>)
    ensures "available" !in e.attrib ==> r == Err(MissingAttribute("available"))
    ensures "available" in e.attrib && "id" !in e.attrib ==> r == Err(MissingAttribute("id"))
    ensures "available" in e.attrib && "id" in e.attrib && Timestamp(e).Err? ==> r == Err(Timestamp(e).error)
    ensures r.Ok? <==>
      "available" in e.attrib && "id" in e.attrib && Timestamp(e).Ok? &&
      StrftimeYear(LocalDate(Timestamp(e).value, utcOffset).year)
    ensures r.Ok? ==> r.value.available == e.attrib["available"] && r.value.itemId == e.attrib["id"]
    ensures r.Ok? ==>
      r.value.modifiedTime == EpochToDateText(Timestamp(e).value, utcOffset).value &&
      IsDateText(r.value.modifiedTime) &&
      DateOfText(r.value.modifiedTime) == LocalDate(Timestamp(e).value, utcOffset)
    ensures ("available" in e.attrib && "id" in e.attrib && Timestamp(e).Ok? &&
             !StrftimeYear(LocalDate(Timestamp(e).value, utcOffset).year)) ==>
      r == Err(YearOutOfRange(LocalDate(Timestamp(e).value, utcOffset).year))
    ensures r.Err? && r.error.YearOutOfRange? ==> r.error.year == LocalDate(Timestamp(e).value, utcOffset).year
  {
    if "available" !in e.attrib then Err(MissingAttribute("available"))
    else
      var available := e.attrib["available"];
      var categoryId := SafelyGetData(e, "categoryId");
      var currencyId := SafelyGetData(e, "currencyId");
      var delivery := SafelyGetData(e, "delivery");
      var description := SafelyGetData(e, "description");
      if "id" !in e.attrib then Err(MissingAttribute("id"))
      else
        var itemId := e.attrib["id"];
        var modifiedTime := SafelyGetData(e, ModifiedTimeTag);
        var name := SafelyGetData(e, "name");
        var oldprice := SafelyGetData(e, "oldprice");
        var picture := SafelyGetData(e, "picture");
        var price := SafelyGetData(e, "price");
        var salesNotes := SafelyGetData(e, "sales_notes");
        var topseller := SafelyGetData(e, "top_seller");
        match ParseTimestamp(modifiedTime)
        case Err(error) => Err(error)
        case Ok(seconds) =>
          match EpochToDateText(seconds, utcOffset)
          case Err(year) => Err(YearOutOfRange(year))
          case Ok(date) =>
            Ok(Record(available, categoryId, currencyId, delivery, description, itemId,
                      date, name, oldprice, picture, price, salesNotes, topseller))
  }

  /**
   * The field-to-tag mapping: every text column of an extracted row holds
   * what the lookup of its tag returned.
   */
  lemma ColumnsReadTheirTags(e: Element, utcOffset: int)
    requires ExtractRecord(e, utcOffset).Ok?
    ensures var r := ExtractRecord(e, utcOffset).value;
      forall c: TextColumn :: OptionalField(r, c) == SafelyGetData(e, TagFor(c))
  {
  }

  /**
   * A text column whose tag no child carries holds None, not the "not found"
   * sentinel, when the walk over the children does not raise.
   */
  lemma AbsentChildGivesNone(e: Element, utcOffset: int, c: TextColumn)
    requires ExtractRecord(e, utcOffset).Ok?
    requires NoChildTagged(e, TagFor(c)) && !RaisesWithin(e, 0, |e.children|)
    ensures OptionalField(ExtractRecord(e, utcOffset).value, c) == None
  {
    ColumnsReadTheirTags(e, utcOffset);
  }

  /**
   * A `modified_time` lookup that yields None, the sentinel or other
   * non-numeric text makes int() raise: no row is produced.
   */
  lemma NonNumericTimestampFails(e: Element, utcOffset: int)
    requires "available" in e.attrib && "id" in e.attrib
    requires var raw := SafelyGetData(e, ModifiedTimeTag);
      raw == None || raw == Some(NotFound) || raw == Some("not-a-number")
    ensures ExtractRecord(e, utcOffset) == Err(NotAnInteger(SafelyGetData(e, ModifiedTimeTag)))
  {
    ParseIntRejectsText();
  }

  lemma NewYearSeconds()
    ensures ParseInt("1609459200") == Some(1609459200)
  {
    assert NatString(1) == "1";
    assert NatString(16) == "16";
    assert NatString(160) == "160";
    assert NatString(1609) == "1609";
    assert NatString(16094) == "16094";
    assert NatString(160945) == "160945";
    assert NatString(1609459) == "1609459";
    assert NatString(16094592) == "16094592";
    assert NatString(160945920) == "160945920";
    assert NatString(1609459200) == "1609459200";
    ParseIntString(1609459200);
  }

  /** An offer with both attributes and a timestamp that has a date text becomes a row dated by that text. */
  lemma DatedRecord(e: Element, utcOffset: int, seconds: int, date: string)
    requires "available" in e.attrib && "id" in e.attrib
    requires Timestamp(e) == Ok(seconds) && EpochToDateText(seconds, utcOffset) == Ok(date)
    ensures ExtractRecord(e, utcOffset).Ok? && ExtractRecord(e, utcOffset).value.modifiedTime == date
  {
  }

  /** An offer whose `modified_time` text is 1609459200 is dated 2021-01-01 in UTC. */
  lemma NewYear2021(e: Element)
    requires "available" in e.attrib && "id" in e.attrib
    requires SafelyGetData(e, ModifiedTimeTag) == Some("1609459200")
    ensures ExtractRecord(e, 0).Ok?
    ensures ExtractRecord(e, 0).value.modifiedTime == "2021-01-01"
  {
    NewYearSeconds();
    NewYear2021Text();
    DatedRecord(e, 0, 1609459200, "2021-01-01");
  }

  /** Two rows are equal when their attributes, their date and all ten text columns agree. */
  lemma RowsAgree(r1: Record, r2: Record)
    requires r1.available == r2.available && r1.itemId == r2.itemId && r1.modifiedTime == r2.modifiedTime
    requires forall c: TextColumn :: OptionalField(r1, c) == OptionalField(r2, c)
    ensures r1 == r2
  {
    assert OptionalField(r1, CategoryId) == OptionalField(r2, CategoryId);
    assert OptionalField(r1, CurrencyId) == OptionalField(r2, CurrencyId);
    assert OptionalField(r1, Delivery) == OptionalField(r2, Delivery);
    assert OptionalField(r1, Description) == OptionalField(r2, Description);
    assert OptionalField(r1, Name) == OptionalField(r2, Name);
    assert OptionalField(r1, Oldprice) == OptionalField(r2, Oldprice);
    assert OptionalField(r1, Picture) == OptionalField(r2, Picture);
    assert OptionalField(r1, Price) == OptionalField(r2, Price);
    assert OptionalField(r1, SalesNotes) == OptionalField(r2, SalesNotes);
    assert OptionalField(r1, Topseller) == OptionalField(r2, Topseller);
  }

  /**
   * Extraction depends on nothing but the two attributes and the eleven
   * lookups: offers that agree on those give the same row or the same error.
   */
  lemma ExtractDependsOnlyOnLookups(e1: Element, e2: Element, utcOffset: int)
    requires ("available" in e1.attrib <==> "available" in e2.attrib) && ("id" in e1.attrib <==> "id" in e2.attrib)
    requires "available" in e1.attrib ==> e1.attrib["available"] == e2.attrib["available"]
    requires "id" in e1.attrib ==> e1.attrib["id"] == e2.attrib["id"]
    requires forall c: TextColumn :: SafelyGetData(e1, TagFor(c)) == SafelyGetData(e2, TagFor(c))
    requires SafelyGetData(e1, ModifiedTimeTag) == SafelyGetData(e2, ModifiedTimeTag)
    ensures ExtractRecord(e1, utcOffset) == ExtractRecord(e2, utcOffset)
  {
    assert Timestamp(e1) == Timestamp(e2);
    if ExtractRecord(e1, utcOffset).Ok? {
      ColumnsReadTheirTags(e1, utcOffset);
      ColumnsReadTheirTags(e2, utcOffset);
      RowsAgree(ExtractRecord(e1, utcOffset).value, ExtractRecord(e2, utcOffset).value);
    }
  }
}
