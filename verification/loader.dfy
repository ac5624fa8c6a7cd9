/**
 * `parse_clickhouse_xml`: extract every offer in document order into
 * `data_buffer`, then create the table and insert the whole buffer. The first
 * extraction error propagates out of the loop, so neither storage call is made.
 */
module Loader {
  import opened Wrappers
  import opened Schema
  import opened Lookup
  import opened Extractor

  /** The offer, counted from 0 in document order, whose extraction raised, and the error. */
  datatype Failure = Failure(offer: nat, error: ExtractError)

  /** The extraction the loop body performs, with local time at `utcOffset` seconds east of UTC. */
  function RowOf(utcOffset: int): Element -> Result<Record, ExtractError> {
    e => ExtractRecord(e, utcOffset)
  }

  /**
   * The batch the loop accumulates over `offers` when each offer goes
   * through `extract`: one row per offer in order, or the first offer whose
   * extraction raises.
   */
  function ExtractAll(offers: seq<Element>, extract: Element -> Result<Record, ExtractError>): (r: Result<seq<Record>, Failure>)
    ensures r.Ok? ==>
      |r.value| == |offers| &&
      forall i :: 0 <= i < |offers| ==> extract(offers[i]) == Ok(r.value[i])
    ensures r.Err? ==>
      r.error.offer < |offers| &&
      extract(offers[r.error.offer]) == Err(r.error.error) &&
      forall i :: 0 <= i < r.error.offer ==> extract(offers[i]).Ok?
    decreases |offers|
  {
    if offers == [] then Ok([])
    else
      var last := |offers| - 1;
      match ExtractAll(offers[..last], extract)
      case Err(failure) => Err(failure)
      case Ok(batch) =>
        match extract(offers[last])
        case Err(error) => Err(Failure(last, error))
        case Ok(row) => Ok(batch + [row])
  }

  /** Once an offer fails, later offers change nothing: the first failure is the run's failure. */
  lemma {:induction false} FirstFailureIsFinal(offers: seq<Element>, n: nat, extract: Element -> Result<Record, ExtractError>)
    requires n <= |offers| && ExtractAll(offers[..n], extract).Err?
    ensures ExtractAll(offers, extract) == ExtractAll(offers[..n], extract)
    decreases |offers| - n
  {
    if n < |offers| {
      var init := offers[..|offers| - 1];
      assert init[..n] == offers[..n];
      FirstFailureIsFinal(init, n, extract);
    } else {
      assert offers[..n] == offers;
    }
  }

  /** One more offer that extracts: the batch grows by its row. */
  lemma ExtendBatch(offers: seq<Element>, i: nat, extract: Element -> Result<Record, ExtractError>, batch: seq<Record>)
    requires i < |offers| && ExtractAll(offers[..i], extract) == Ok(batch) && extract(offers[i]).Ok?
    ensures ExtractAll(offers[..i + 1], extract) == Ok(batch + [extract(offers[i]).value])
  {
    assert offers[..i + 1][..i] == offers[..i];
  }

  /** One more offer that raises: the run fails at that offer, whatever follows it. */
  lemma FailAt(offers: seq<Element>, i: nat, extract: Element -> Result<Record, ExtractError>, batch: seq<Record>)
    requires i < |offers| && ExtractAll(offers[..i], extract) == Ok(batch) && extract(offers[i]).Err?
    ensures ExtractAll(offers, extract) == Err(Failure(i, extract(offers[i]).error))
  {
    assert offers[..i + 1][..i] == offers[..i];
    FirstFailureIsFinal(offers, i + 1, extract);
  }

  /** When every offer extracts, the batch is complete. */
  lemma {:induction false} AllExtractedLoads(offers: seq<Element>, extract: Element -> Result<Record, ExtractError>)
    requires forall i :: 0 <= i < |offers| ==> extract(offers[i]).Ok?
    ensures ExtractAll(offers, extract).Ok?
    decreases |offers|
  {
    if offers != [] {
      var init := offers[..|offers| - 1];
      assert forall i :: 0 <= i < |init| ==> init[i] == offers[i];
      AllExtractedLoads(init, extract);
    }
  }

  /** The first offer that raises, after offers that all extract, is the failure reported. */
  lemma {:induction false} FirstRaisingOffer(offers: seq<Element>, k: nat, extract: Element -> Result<Record, ExtractError>)
    requires k < |offers| && extract(offers[k]).Err?
    requires forall i :: 0 <= i < k ==> extract(offers[i]).Ok?
    ensures ExtractAll(offers, extract) == Err(Failure(k, extract(offers[k]).error))
  {
    var init := offers[..k];
    assert forall i :: 0 <= i < |init| ==> init[i] == offers[i];
    AllExtractedLoads(init, extract);
    FailAt(offers, k, extract, ExtractAll(init, extract).value);
  }

  /** Row `i` of a complete batch is what `ExtractRecord` makes of offer `i`. */
  lemma LoadedRow(offers: seq<Element>, utcOffset: int, i: nat)
    requires ExtractAll(offers, RowOf(utcOffset)).Ok? && i < |offers|
    ensures ExtractRecord(offers[i], utcOffset) == Ok(ExtractAll(offers, RowOf(utcOffset)).value[i])
    ensures ExtractAll(offers, RowOf(utcOffset)).value[i].itemId == offers[i].attrib["id"]
  {
    assert RowOf(utcOffset)(offers[i]) == ExtractRecord(offers[i], utcOffset);
  }

  /**
   * An offer without an `available` attribute, after offers that all
   * extract, ends the run with KeyError('available') at that offer.
   */
  lemma MissingAvailableAborts(offers: seq<Element>, utcOffset: int, k: nat)
    requires k < |offers| && "available" !in offers[k].attrib
    requires forall i :: 0 <= i < k ==> ExtractRecord(offers[i], utcOffset).Ok?
    ensures ExtractAll(offers, RowOf(utcOffset)) == Err(Failure(k, MissingAttribute("available")))
  {
    var extract := RowOf(utcOffset);
    assert forall i :: 0 <= i < k ==> extract(offers[i]) == ExtractRecord(offers[i], utcOffset);
    FirstRaisingOffer(offers, k, extract);
  }

  /** The two calls made on the database: `create_table(Data)` and `insert(data_buffer)`. */
  datatype StorageCall = CreateTable(schema: TableSchema) | Insert(rows: seq<Record>)

  /** How a run ends: the storage calls it made, or the offer whose extraction raised and the error. */
  datatype RunResult = Loaded(calls: seq<StorageCall>) | Aborted(offer: nat, error: ExtractError)

  /**
   * The offers are the `offer` elements in the order the parser yields them;
   * local time is `utcOffset` seconds east of UTC.
   */
  method ParseClickhouseXml(offers: seq<Element>, utcOffset: int) returns (result: RunResult)
    ensures ExtractAll(offers, RowOf(utcOffset)).Err? ==>
      result == Aborted(ExtractAll(offers, RowOf(utcOffset)).error.offer, ExtractAll(offers, RowOf(utcOffset)).error.error)
    ensures ExtractAll(offers, RowOf(utcOffset)).Ok? ==>
      result == Loaded([CreateTable(DataSchema), Insert(ExtractAll(offers, RowOf(utcOffset)).value)])
  {
    var extract := RowOf(utcOffset);
    var dataBuffer: seq<Record> := [];
    var i := 0;
    while i < |offers|
      invariant 0 <= i <= |offers|
      invariant ExtractAll(offers[..i], extract) == Ok(dataBuffer)
    {
      var extracted := extract(offers[i]);
      if extracted.Err? {
        FailAt(offers, i, extract, dataBuffer);
        return Aborted(i, extracted.error);
      }
      ExtendBatch(offers, i, extract, dataBuffer);
      dataBuffer := dataBuffer + [extracted.value];
      i := i + 1;
    }
    assert offers[..i] == offers;
    result := Loaded([CreateTable(DataSchema), Insert(dataBuffer)]);
  }
}
