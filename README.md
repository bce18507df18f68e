# THREDDS harvest and NcML catalog ingestion, modelled in Dafny

This project models two small Python pipelines and proves properties about them.

**Harvesting** (`tdsharvest/harvest.py`):
- `crawl` keeps the `(dataset id, service url)` pairs of every ISO service of the crawled datasets.
- `reap` mirrors each resource id under `isopath` and writes the fetched ISO document to `<leaf>.xml`. It records the url of every resource whose directory creation, fetch or write raised, and it never stops early.
- The main block:
  - removes the crawl-results file and the reap-retry file;
  - crawls and writes the crawl results;
  - reaps, then writes the retry file when some resource failed.
- Each fatal step ends the run with its own exit status, except a failed crawl-results write, which ends with a `NameError` (see Left out).

**Ingestion** (`catalog.py`):
- It reads a THREDDS catalog page and keeps the anchors whose href matches `^catalog\.html\?dataset=(.+)\.(nc|ncml)$`.
- It builds one landing URL per kept anchor. From each landing page it takes the stripped text of every anchor whose href contains `/ncml/` as a descriptor path.
- For each descriptor URL it builds one record. The key column holds the URL. Every other column starts as NULL and is filled from the `<attribute name= value=>` children of the descriptor's `netcdf` element.
- It inserts the records one by one into a table whose `location` key is UNIQUE and NOT NULL.

Some things become parameters of the model:

| In the source | In the model |
|---|---|
| The network (`requests.get`) | A function from URL to `Raised` or `Response(status, body)` |
| The THREDDS crawler | The datasets it yields, or the fact that it raised |
| The parsed HTML and XML | Sequences of anchors and elements |
| The disk | A map from file path to contents plus a set of directories. The paths on which `makedirs`, `open` or `remove` raise for outside reasons are a given set of faults |
| The SQLite table | A map from location to row |

Modules:
- `Text`: `str.strip`, ASCII `lower`, and splitting at a character.
- `PosixPath`: `os.path.split` and `os.path.join`.
- `Urls`: Python 2.7 `urlunsplit`.
- `Http`: `Response.ok` and the exceptions that end the ingestion script.
- `FileSystems`: the disk and the `FileSystem` class the harvester changes in place.
- `Harvest`: `crawl`, `reap` and the tracking-file texts.
- `HarvestRun`: the main block of `harvest.py`.
- `CatalogLinks`: the catalog and landing pages.
- `Descriptors`: the records.
- `IndexStore`: the named parameters, the `Table` class and the insert loop.
- `CatalogIngest`: the whole of `catalog.py`.

The model follows the code as written; in particular:
- There is no success list or success file. `reap` keeps only `errors`.
- The HTTP status of an ISO fetch is never checked, so any response is written to disk.
- Failing to remove a tracking file is fatal, with status 3 or 4.
- Failing to write the retry file is fatal, with status 5.
- A failed landing-page fetch aborts the whole ingestion.

## Model

| member | source | states |
|---|---|---|
| Text.LStripDropsLeadingSpace | catalog.py:105 | `lstrip` removes exactly the leading run of white space and leaves a non-space first character |
| Text.RStripDropsTrailingSpace | catalog.py:105 | `rstrip` removes exactly the trailing run of white space and leaves a non-space last character |
| Text.StripIsTrimmedSlice | catalog.py:105 | `strip()` returns a slice of its input with only white space outside it, and nothing to trim at either end |
| Text.StripIdempotent | catalog.py:105 | stripping a stripped text changes nothing |
| Text.Lower | catalog.py:135 | `lower()` keeps the length, leaves no ASCII capital, keeps every other character, and turns each capital into its own small letter |
| Text.LowerIdempotent | catalog.py:135-136 | a lower-cased attribute name is its own lower case |
| PosixPath.SplitTail | tdsharvest/harvest.py:74 | the `resource_name` of `os.path.split` holds no `/` and is a suffix of the id |
| PosixPath.SplitThenJoin | tdsharvest/harvest.py:74-75 | joining the head and tail of a path without `//` gives the path back |
| PosixPath.JoinThenSplit | tdsharvest/harvest.py:92 | splitting `join(dir, name)` gives back `dir` and `name` when `name` has no `/` and `dir` has no trailing `/` |
| PosixPath.JoinedNameIsTail | tdsharvest/harvest.py:92 | whatever the directory, a joined name without `/` is the last component |
| PosixPath.JoinWithHead | catalog.py:85-86 | `join(dirname(p), name)` replaces the last component of an absolute path `p` by `name` |
| Urls.UnsplitWithHost | catalog.py:87-89 | with a scheme and a host, `urlunsplit` gives `scheme://netloc` plus the path, with one `/` added before a relative path |
| CatalogLinks.DatasetHrefIsPattern | catalog.py:65-84 | the href predicate holds exactly when the regex, with its group `(.+)` and `$`, matches (both directions) |
| CatalogLinks.BodySplit | catalog.py:65 | a matching href splits into prefix, a non-empty newline-free name, and `.nc` or `.ncml` |
| CatalogLinks.PatternIsDatasetHref | catalog.py:65 | every match of the regex, including one before a final newline, is accepted by the predicate |
| CatalogLinks.DatasetHrefsMembers | catalog.py:83-84 | an href is kept exactly when some anchor carries it and it matches |
| CatalogLinks.DatasetHrefsAppend | catalog.py:83-84 | the filter keeps document order and keeps duplicates: the hrefs of `p + q` are those of `p` followed by those of `q` |
| CatalogLinks.LandingUrls | catalog.py:85-89 | one landing URL per matching anchor |
| CatalogLinks.LandingUrlReplacesFileName | catalog.py:85-89 | a landing URL is `scheme://netloc` plus the catalog path up to its last `/`, plus the href |
| CatalogLinks.LandingUrlExample | catalog.py:65-89 | `http://h/thredds/catalog/SSV-Ncml/catalog.html` with `catalog.html?dataset=foo.nc` gives `http://h/thredds/catalog/SSV-Ncml/catalog.html?dataset=foo.nc` |
| CatalogLinks.GetPage | catalog.py:72-78 | a page is parsed exactly when the fetch returned an ok response; anything else raises |
| CatalogLinks.DiscoverLandingUrls | catalog.py:72-89 | an ok catalog gives its landing URLs; a raised fetch or a 4xx/5xx status ends the script with that error |
| CatalogLinks.DescriptorPathsFailOnMissingText | catalog.py:104-105 | collecting the paths fails exactly when some `/ncml/` anchor has no text |
| CatalogLinks.DescriptorPathsAreStrippedTexts | catalog.py:104-105 | the paths are the stripped texts of the `/ncml/` anchors, one per anchor and in order |
| CatalogLinks.HrefOnlySelects | catalog.py:105 | two pages whose anchors agree on texts and on which ones are `/ncml/` anchors give the same paths, so the href only selects |
| CatalogLinks.DescriptorUrls | catalog.py:106-108 | one descriptor URL per path |
| CatalogLinks.AllDescriptorUrlsAppend | catalog.py:96-108 | the URLs of landing pages `a + b` are those of `a` followed by those of `b`, with the first failure winning |
| CatalogLinks.BadLandingPageAborts | catalog.py:97-103 | a landing page that raises or is not ok ends the loop with its error once the pages before it succeeded |
| CatalogLinks.AllDescriptorsSucceedOn | catalog.py:96-108 | the loop succeeds exactly when every landing page succeeds (both directions) |
| CatalogLinks.ResolveDescriptorUrls | catalog.py:95-108 | the landing-page loop computes exactly the concatenated descriptor URLs, or the first failure |
| Descriptors.ColumnsDistinct | catalog.py:31-46 | the table has 15 columns, all different |
| Descriptors.Extract | catalog.py:122-142 | a descriptor fails exactly when the fetch raised, the status is 4xx/5xx, or non-empty content has no `netcdf` element |
| Descriptors.BlankSlots | catalog.py:125-126 | the stub adds every interesting column as NULL and changes no other slot |
| Descriptors.FillKeepsOtherSlots | catalog.py:134-139 | filling writes only interesting slots |
| Descriptors.FillLastWins | catalog.py:134-139 | a slot holds the value of the last child that sets it, and is unchanged when no child does |
| Descriptors.RecordHasExactlyTheColumns | catalog.py:124-126 | every record has exactly the column names as keys, and `location` is the descriptor URL |
| Descriptors.EmptyDescriptorGivesStub | catalog.py:128-142 | an ok descriptor with empty content gives the URL plus NULL everywhere else |
| Descriptors.SlotHoldsLastValue | catalog.py:133-139 | an interesting slot is NULL unless a child with that lower-cased name and a non-empty value sets it; the last such child wins |
| Descriptors.OtherNamesIgnored | catalog.py:136 | names outside the columns never become keys |
| Descriptors.BuildRecord | catalog.py:123-142 | the two nested loops build exactly the specified record or error |
| Descriptors.ExtractAllFailureStops | catalog.py:123-142 | once a descriptor fails, the whole loop has failed the same way |
| Descriptors.ExtractAllOnePerUrl | catalog.py:122-142 | the loop succeeds exactly when every descriptor succeeds, and then gives one record per URL, in order |
| Descriptors.ExtractRecords | catalog.py:122-142 | the descriptor loop computes exactly `ncml_mappings` or the first failure |
| IndexStore.NamedParametersRoundTrip | catalog.py:152-153 | the parameter list reads back as the column names, in order, when no name holds a comma |
| IndexStore.Bind | catalog.py:157 | a bound row has one value per column |
| IndexStore.BindTakesColumnValues | catalog.py:157 | a mapping with every column binds, and the row holds its values in column order |
| IndexStore.ExtractedRecordBinds | catalog.py:124-157 | a record built from a descriptor binds, and its key value is the descriptor URL |
| IndexStore.Locations | catalog.py:32 | the key of each record, in order |
| IndexStore.InsertOneKeyed | catalog.py:156-158 | a keyed record is inserted exactly when its location is new, and then adds exactly that key |
| IndexStore.FreshLocationsSnoc | catalog.py:156-158 | the locations of all records are fresh exactly when those before the last are fresh and the last is new |
| IndexStore.InsertAllSucceedsIffFresh | catalog.py:156-158 | inserting keyed records succeeds exactly when their locations are distinct and new; the table then gains exactly those keys |
| IndexStore.InsertKeyedFailsOnlyOnKey | catalog.py:156-158 | for keyed records only the UNIQUE constraint can stop the loop |
| IndexStore.InsertAllFailureStops | catalog.py:156-158 | after the first failing insert, the committed rows are those of the records before it |
| IndexStore.DuplicateLocationFails | catalog.py:156-158 | a record whose location is already committed fails with an integrity error, and the earlier rows stay |
| IndexStore.Table.constructor | catalog.py:31-47 | the table starts empty |
| IndexStore.Table.Insert | catalog.py:157-158 | one `execute` plus `commit` changes the rows exactly as the key rules say |
| IndexStore.InsertRecords | catalog.py:156-158 | the insert loop leaves the table and the error exactly as specified |
| CatalogIngest.RecordsAreKeyedByUrl | catalog.py:120-126 | the built records carry every column, and their locations are the descriptor URLs, in order |
| CatalogIngest.IngestSucceedsIffUrlsDistinct | catalog.py:120-158 | once all pages and descriptors are read, the run succeeds exactly when no descriptor URL repeats, with one row per URL; a repeat fails only with an integrity error |
| CatalogIngest.RunCatalogScript | catalog.py:17-158 | the script leaves a new table holding exactly the specified rows, and the specified failure |
| FileSystems.MakeDirsOn | tdsharvest/harvest.py:64-77 | a successful `makedirs` adds the directory and changes no file |
| FileSystems.WriteOn | tdsharvest/harvest.py:94-95 | a successful write sets exactly that file's contents |
| FileSystems.RemoveOn | tdsharvest/harvest.py:114-121 | a successful `remove` deletes exactly that file |
| FileSystems.CallsKeepCoherent | tdsharvest/harvest.py:64-114 | no successful call makes a path both a file and a directory |
| FileSystems.FileSystem.constructor | tdsharvest/harvest.py:107 | the disk starts as given |
| FileSystems.FileSystem.PathExists | tdsharvest/harvest.py:113-120 | `exists` is true for a file or a directory |
| FileSystems.FileSystem.MakeDirs | tdsharvest/harvest.py:64-77 | the in-place call does what `MakeDirsOn` specifies and reports whether it raised |
| FileSystems.FileSystem.Write | tdsharvest/harvest.py:94-95 | the in-place call does what `WriteOn` specifies and reports whether it raised |
| FileSystems.FileSystem.Remove | tdsharvest/harvest.py:114-121 | the in-place call does what `RemoveOn` specifies and reports whether it raised |
| Harvest.ServiceResourcesAppend | tdsharvest/harvest.py:53-56 | within a dataset, services keep their order |
| Harvest.IsoResourcesAppend | tdsharvest/harvest.py:52-56 | datasets keep their order: resources come in dataset-then-service order |
| Harvest.ServiceResourcesMembers | tdsharvest/harvest.py:53-56 | a pair comes from a dataset exactly when it has the dataset's id and the url of one of its ISO services |
| Harvest.IsoResourcesMembers | tdsharvest/harvest.py:52-56 | `crawl` returns exactly the pairs `(dataset.id, service["url"])` whose service name is in `["ISO"]` |
| Harvest.ServiceResourcesCount | tdsharvest/harvest.py:53-56 | one pair per ISO service of the dataset |
| Harvest.IsoResourcesCount | tdsharvest/harvest.py:52-56 | the count equals the number of ISO services |
| Harvest.XmlPathLeaf | tdsharvest/harvest.py:74-92 | the file is named after the id's last component, which holds no `/`, plus `.xml` |
| Harvest.XmlPathMirrorsId | tdsharvest/harvest.py:74-92 | a relative id without `//` is written to `isopath/<id>.xml` |
| Harvest.ReapExitsOnIsopath | tdsharvest/harvest.py:63-70 | `reap` exits with status 2 exactly when `isopath` cannot be made, with the disk untouched |
| Harvest.AttemptOutcome | tdsharvest/harvest.py:76-101 | a url goes to `errors` exactly when its directory, fetch or write raised; a response of any status is written to the `.xml` path |
| Harvest.ReapLoopAppend | tdsharvest/harvest.py:71-104 | the loop over `a + b` is the loop over `a`, then over `b`, with the errors concatenated |
| Harvest.EveryResourceAttempted | tdsharvest/harvest.py:71-104 | resource `k` is always attempted and adds at most its own url; the loop then goes on with resource `k + 1` whatever happened |
| Harvest.FailedAtPrefix | tdsharvest/harvest.py:71-104 | whether attempt `k` fails depends only on the resources up to `k` |
| Harvest.ReapErrorsMembers | tdsharvest/harvest.py:76-101 | a url is in `errors` exactly when the attempt of a resource with that url failed |
| Harvest.ReapErrorsAreSubsequence | tdsharvest/harvest.py:71-104 | `errors` is an in-order subsequence of the resource urls, so `len(errors) <= len(resources)` |
| Harvest.ReapLoopKeepsFiles | tdsharvest/harvest.py:71-104 | the loop never removes a file or a directory, and a file that is no resource's `.xml` path keeps its contents |
| Harvest.Reap | tdsharvest/harvest.py:59-104 | the in-place loop leaves the disk and returns the errors or the status exactly as specified |
| Harvest.BlockShape | tdsharvest/harvest.py:129-130 | where the separators of one crawl-results block sit |
| Harvest.ParseBlock | tdsharvest/harvest.py:129-130 | one block reads back as its resource |
| Harvest.CrawlResultsRoundTrip | tdsharvest/harvest.py:129-133 | the crawl-results text reads back as the resources when no id or url holds a newline |
| Harvest.RetryRoundTrip | tdsharvest/harvest.py:140-143 | the retry text reads back, line by line, as the error urls in order |
| HarvestRun.RemoveIfExistsClears | tdsharvest/harvest.py:112-125 | removing a tracking file fails only for a directory or a faulty file; on success the path is gone and nothing else changed |
| HarvestRun.ClearedRemovesBoth | tdsharvest/harvest.py:112-125 | after the reset, neither tracking file exists and no other file changed |
| HarvestRun.ClearedIdempotent | tdsharvest/harvest.py:112-125 | repeating the reset with no tracking files present changes nothing |
| HarvestRun.RemovalFailureIsFatal | tdsharvest/harvest.py:112-125 | status 3 exactly when the crawl-results file cannot be removed, and status 4 exactly when the retry file cannot be removed |
| HarvestRun.CrawlFailureExitsOne | tdsharvest/harvest.py:46-51 | status 1 exactly when the crawler raises after the reset, with no resources and nothing written |
| HarvestRun.IsopathFailureExitsTwo | tdsharvest/harvest.py:126-138 | status 2 leaves the crawl results written and no resource attempted |
| HarvestRun.ReapedFiles | tdsharvest/harvest.py:138 | `reap` keeps every file, and changes none that is not a resource's `.xml` path |
| HarvestRun.CompletedRunTrackingFiles | tdsharvest/harvest.py:112-147 | after a completed run, the crawl-results file exists exactly when there were resources, and the retry file holds the error urls whenever there were errors; with no `.xml` path in the way, neither stale file survives |
| HarvestRun.Run | tdsharvest/harvest.py:106-148 | the main block leaves the disk and the exit exactly as specified |

## Left out

- HTTP is left out. Each fetch is an input function from URL to "raised" or a response with a status and a parsed body. Timeouts, redirects, encodings and the difference between `content` and `text` are not modelled.
- HTML and XML parsing is left out, including lxml's recovery mode and its parse errors. A page is a list of `(href, text)` anchors. A descriptor is its raw content plus the children of its `netcdf` element, if any.
- The catalog URL is given already split into scheme, netloc and path. `urlparse` itself is not modelled.
- The THREDDS crawler's own traversal and its `SELECTORS` are left out. The crawler is replaced by the datasets it yields, or by the fact that it raised.
- Logging, `print`, the progress dots, argparse and the log file are left out. `FILE_MODE` permissions are also not modelled.
- The `SSV-Ncml.txt` dump of the descriptor URLs (catalog.py:113-115) is not modelled, and neither are the cells that print the column names.
- The cells that delete and recreate the database, including `print e` on an undefined name, become "a new empty table".
- database.py is not part of this model. It only creates a table.
- SQLite type affinity, the SQL text and transactions beyond one commit per row are not modelled. The table is a map from `location` to row.
- Only ASCII white space and ASCII letters are handled by `strip` and `lower`.
- Paths are compared as strings: `iso/a` and `iso/a/` are different directories in the model. `makedirs` does not create intermediate directories. Which calls raise for reasons outside the program is a given set of faulty paths.
- A failed write leaves the disk unchanged. The model does not capture a truncated or partly written file.
- Each URL fetches to the same result every time it is asked for. That is one call per URL in the source, unless an id or url repeats.
- A failed write of the crawl-results file makes the handler refer to `CRAWL_RESULTS_WRITE_EXIT_STATUS`, which harvest.py never defines (tdsharvest/harvest.py:137). The resulting `NameError` ends the interpreter with its default status 1, the same number as a crawl failure; the model keeps it apart as the exit `Aborted`.
- HarvestRun.CompletedRunTrackingFiles: the contents of the crawl-results file and the absence of the retry file are proved only when no resource's `.xml` path equals a tracking path, because `reap` could otherwise overwrite one.
