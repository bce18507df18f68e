/**
 * `catalog.py` from end to end: the catalog page gives the landing pages,
 * the landing pages give the descriptor URLs, each descriptor gives a
 * record, and the records are inserted into the freshly created table.
 */
module CatalogIngest {
  import opened Wrappers
  import opened Http
  import opened Urls
  import opened CatalogLinks
  import opened Descriptors
  import opened IndexStore

  /** The descriptor URLs the first two stages collect, or the failure that stopped them. */
  function DescriptorUrlsOf(catalog: UrlParts, catalogUrl: string, catalogPage: Fetched<Page>, getLanding: string -> Fetched<Page>): Result<seq<string>, Failure> {
    match DiscoverLandingUrls(catalog, catalogUrl, catalogPage)
    case Failure(e) => Failure(e)
    case Success(landing) => AllDescriptorUrls(catalog, getLanding, landing)
  }

  /** A whole run: the rows left committed in the new table, and the failure that ended the run, if any. */
  function Ingest(catalog: UrlParts, catalogUrl: string, catalogPage: Fetched<Page>,
                  getLanding: string -> Fetched<Page>, getDescriptor: string -> Fetched<Descriptor>): (Rows, Option<Failure>)
  {
    match DescriptorUrlsOf(catalog, catalogUrl, catalogPage, getLanding)
    case Failure(e) => (map[], Some(e))
    case Success(urls) =>
      match ExtractAll(Columns, getDescriptor, urls)
      case Failure(e) => (map[], Some(e))
      case Success(records) => InsertAll(map[], Columns, records)
  }

  /** The records built from the descriptors carry every column, and their locations are the URLs, in order. */
  lemma RecordsAreKeyedByUrl(get: string -> Fetched<Descriptor>, urls: seq<string>)
    requires ExtractAll(Columns, get, urls).Success?
    ensures Keyed(Columns, ExtractAll(Columns, get, urls).value)
    ensures Locations(Columns, ExtractAll(Columns, get, urls).value) == urls
  {
    ColumnsDistinct();
    ExtractAllOnePerUrl(Columns, get, urls);
    var records := ExtractAll(Columns, get, urls).value;
    forall i | 0 <= i < |records|
      ensures KeyedRecord(Columns, records[i]) && records[i][Columns[0]] == Some(urls[i])
    {
      RecordHasExactlyTheColumns(Columns, urls[i], get(urls[i]));
    }
  }

  /**
   * Once every page and descriptor has been read, the run succeeds exactly
   * when no descriptor URL repeats, and the table then has one row per
   * descriptor URL. A repeated URL stops the run with an integrity error.
   */
  lemma IngestSucceedsIffUrlsDistinct(catalog: UrlParts, catalogUrl: string, catalogPage: Fetched<Page>,
                                      getLanding: string -> Fetched<Page>, getDescriptor: string -> Fetched<Descriptor>)
    ensures var found := DescriptorUrlsOf(catalog, catalogUrl, catalogPage, getLanding);
            var run := Ingest(catalog, catalogUrl, catalogPage, getLanding, getDescriptor);
            found.Success? && ExtractAll(Columns, getDescriptor, found.value).Success? ==>
              && (run.1.None? <==> Distinct(found.value))
              && (run.1.None? ==> run.0.Keys == set u | u in found.value)
              && (run.1.Some? ==> run.1.value.IntegrityError?)
  {
    var found := DescriptorUrlsOf(catalog, catalogUrl, catalogPage, getLanding);
    if found.Success? && ExtractAll(Columns, getDescriptor, found.value).Success? {
      var urls := found.value;
      RecordsAreKeyedByUrl(getDescriptor, urls);
      var records := ExtractAll(Columns, getDescriptor, urls).value;
      InsertAllSucceedsIffFresh(map[], Columns, records);
      InsertKeyedFailsOnlyOnKey(map[], Columns, records);
    }
  }

  /** The script, against a newly created table. */
  method RunCatalogScript(catalog: UrlParts, catalogUrl: string, catalogPage: Fetched<Page>,
                          getLanding: string -> Fetched<Page>, getDescriptor: string -> Fetched<Descriptor>)
    returns (table: Table, err: Option<Failure>)
    ensures fresh(table)
    ensures (table.rows, err) == Ingest(catalog, catalogUrl, catalogPage, getLanding, getDescriptor)
  {
    table := new Table();
    var landing := DiscoverLandingUrls(catalog, catalogUrl, catalogPage);
    if landing.Failure? {
      return table, Some(landing.error);
    }
    var urls := ResolveDescriptorUrls(catalog, getLanding, landing.value);
    if urls.Failure? {
      return table, Some(urls.error);
    }
    var records := ExtractRecords(Columns, getDescriptor, urls.value);
    if records.Failure? {
      return table, Some(records.error);
    }
    err := InsertRecords(table, Columns, records.value);
  }
}
