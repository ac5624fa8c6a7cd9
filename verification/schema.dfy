/**
 * The `Data` model: the thirteen columns of one output row, in declaration
 * order, and the MergeTree engine's date column and key tuple.
 */
module Schema {
  import opened Wrappers

  /** The field classes of the ORM: every column is a StringField except one DateField. */
  datatype ColumnKind = StringField | DateField

  datatype Column = Column(name: string, kind: ColumnKind)

  /** A table declaration: its columns, the engine's date column and its key tuple. */
  datatype TableSchema = TableSchema(columns: seq<Column>, dateColumn: string, keyColumns: seq<string>)

  const DataColumns: seq<Column> := [
    Column("available", StringField),
    Column("category_id", StringField),
    Column("currency_id", StringField),
    Column("delivery", StringField),
    Column("description", StringField),
    Column("item_id", StringField),
    Column("modified_time", DateField),
    Column("name", StringField),
    Column("oldprice", StringField),
    Column("picture", StringField),
    Column("price", StringField),
    Column("sales_notes", StringField),
    Column("topseller", StringField)
  ]

  /** MergeTree('modified_time', (the twelve other columns)). */
  const DataSchema: TableSchema := TableSchema(
    DataColumns,
    "modified_time",
    ["available", "category_id", "currency_id", "delivery", "description", "item_id",
     "name", "oldprice", "picture", "price", "sales_notes", "topseller"])

  /**
   * One row of `Data`, fields in column order. The text columns hold whatever
   * the extraction produced, Python's None included; `modifiedTime` holds the
   * `YYYY-MM-DD` text that the DateField receives.
   */
  datatype Record = Record(
    available: string,
    categoryId: Option<string>,
    currencyId: Option<string>,
    delivery: Option<string>,
    description: Option<string>,
    itemId: string,
    modifiedTime: string,
    name: Option<string>,
    oldprice: Option<string>,
    picture: Option<string>,
    price: Option<string>,
    salesNotes: Option<string>,
    topseller: Option<string>)

  function ColumnNames(columns: seq<Column>): (names: seq<string>)
    ensures |names| == |columns|
    ensures forall i :: 0 <= i < |columns| ==> names[i] == columns[i].name
  {
    seq(|columns|, i requires 0 <= i < |columns| => columns[i].name)
  }

  /**
   * The declaration's shape: thirteen distinct columns; `modified_time`, the
   * seventh, is the only DateField and is the engine's date column; the key
   * tuple is exactly the other twelve columns in declaration order.
   */
  lemma DataSchemaShape()
    ensures |DataSchema.columns| == 13
    ensures var names := ColumnNames(DataSchema.columns);
      (forall i, j :: 0 <= i < j < |names| ==> names[i] != names[j]) &&
      names[6] == DataSchema.dateColumn &&
      DataSchema.keyColumns == names[..6] + names[7..] &&
      DataSchema.dateColumn !in DataSchema.keyColumns
    ensures forall i :: 0 <= i < |DataSchema.columns| ==>
      (DataSchema.columns[i].kind == DateField <==> i == 6)
  {
    var names := ColumnNames(DataSchema.columns);
    assert names == ["available", "category_id", "currency_id", "delivery", "description", "item_id",
      "modified_time", "name", "oldprice", "picture", "price", "sales_notes", "topseller"];
  }
}
