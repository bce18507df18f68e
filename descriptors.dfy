/**
 * The third stage of `catalog.py`: every descriptor URL becomes one
 * record of the `global` table, keyed by the URL, with the interesting
 * attributes read from the `<attribute name=… value=…>` children of the
 * descriptor's `netcdf` element.
 */
module Descriptors {
  import opened Wrappers
  import opened Text
  import opened Http

  /** The columns of the `global` table, in order; the first one is the key. */
  const Columns: seq<string> := [
    "location", "cdm_data_type", "conventions", "forecaststarttime", "forecastendtime",
    "institution", "model", "wind_source", "advisory_or_cycle", "grid", "stormname",
    "stormtype", "stormyear", "id", "title"
  ]

  /** A child element of the `netcdf` element: its tag and its `name` and `value` attributes. */
  datatype Element = Element(tag: string, name: Option<string>, value: Option<string>)

  /**
   * A fetched descriptor: its raw content, and the children of the first
   * `netcdf` element that carries a `location` attribute, if there is one.
   */
  datatype Descriptor = Descriptor(content: string, netcdf: Option<seq<Element>>)

  /** The `ncml_mapping` dictionary: column name to value, `None` for SQL NULL. */
  type Record = map<string, Option<string>>

  predicate Distinct(names: seq<string>) {
    forall i, j :: 0 <= i < j < |names| ==> names[i] != names[j]
  }

  /** The key column and the interesting columns of the source's table are all different. */
  lemma ColumnsDistinct()
    ensures |Columns| == 15 && Distinct(Columns)
  {
  }

  /**
   * Whether child `e` puts a value into slot `slot`: `findall("attribute[@name]")`
   * yields it, its lower-cased name is `slot`, and its `value` is present and non-empty.
   */
  predicate Sets(e: Element, slot: string) {
    && e.tag == "attribute" && e.name.Some? && Lower(e.name.value) == slot
    && e.value.Some? && e.value.value != ""
  }

  /** `m` after `mapping[name] = None` for each of `names` in turn. */
  function Blank(m: Record, names: seq<string>): Record {
    if names == [] then m else Blank(m, names[..|names| - 1])[names[|names| - 1] := None]
  }

  /** The mapping before the descriptor is read: the key holds the URL, every interesting slot `None`. */
  function Stub(columns: seq<string>, url: string): Record
    requires |columns| > 0
  {
    Blank(map[columns[0] := Some(url)], columns[1..])
  }

  /** `m` after the loop over the attribute children, each one in document order. */
  function Fill(m: Record, interesting: seq<string>, children: seq<Element>): Record {
    if children == [] then m
    else
      var before := Fill(m, interesting, children[..|children| - 1]);
      var e := children[|children| - 1];
      if e.tag == "attribute" && e.name.Some? && Lower(e.name.value) in interesting
         && e.value.Some? && e.value.value != ""
      then before[Lower(e.name.value) := e.value]
      else before
  }

  /**
   * What building one record gives: the connection error or HTTP error that
   * ends the script, the missing `netcdf` element that makes `findall` raise,
   * the stub for an ok response with empty content, or the filled record.
   */
  function Extract(columns: seq<string>, url: string, fetched: Fetched<Descriptor>): (r: Result<Record, Failure>)
    requires |columns| > 0
    ensures r.Failure? <==>
              || fetched.Raised?
              || !IsOk(fetched.status)
              || (fetched.body.content != "" && fetched.body.netcdf.None?)
  {
    match fetched
    case Raised => Failure(ConnectionError(url))
    case Response(status, d) =>
      if IsOk(status) && d.content != "" then
        match d.netcdf
        case None => Failure(NoNetcdfElement(url))
        case Some(children) => Success(Fill(Stub(columns, url), columns[1..], children))
      else if IsOk(status) then Success(Stub(columns, url))
      else Failure(HttpError(url, status))
  }

  /** Blanking adds exactly `names` as `None` slots and leaves every other slot alone. */
  lemma {:induction false} BlankSlots(m: Record, names: seq<string>)
    ensures Blank(m, names).Keys == m.Keys + set n | n in names
    ensures forall n :: n in names ==> Blank(m, names)[n] == None
    ensures forall k :: k in m && k !in names ==> Blank(m, names)[k] == m[k]
  {
    if names != [] {
      var init := names[..|names| - 1];
      BlankSlots(m, init);
      assert names == init + [names[|names| - 1]];
    }
  }

  /** Filling only ever writes interesting slots. */
  lemma {:induction false} FillKeepsOtherSlots(m: Record, interesting: seq<string>, children: seq<Element>)
    ensures Fill(m, interesting, children).Keys == m.Keys + (set a | a in interesting && a in Fill(m, interesting, children))
    ensures forall k :: k in m && k !in interesting ==> Fill(m, interesting, children)[k] == m[k]
  {
    if children != [] {
      FillKeepsOtherSlots(m, interesting, children[..|children| - 1]);
    }
  }

  /** Child `k` is the last one that puts a value into `slot`. */
  ghost predicate LastSetter(children: seq<Element>, slot: string, k: int) {
    && 0 <= k < |children| && Sets(children[k], slot)
    && forall l :: k < l < |children| ==> !Sets(children[l], slot)
  }

  /**
   * An interesting slot ends up holding the value of the last child that
   * sets it, and keeps its value when no child does.
   */
  lemma {:induction false} FillLastWins(m: Record, interesting: seq<string>, children: seq<Element>, slot: string)
    requires slot in interesting && slot in m
    ensures slot in Fill(m, interesting, children)
    ensures (forall k :: 0 <= k < |children| ==> !Sets(children[k], slot)) ==>
              Fill(m, interesting, children)[slot] == m[slot]
    ensures forall k :: LastSetter(children, slot, k) ==> Fill(m, interesting, children)[slot] == children[k].value
  {
    if children != [] {
      var n := |children| - 1;
      var init := children[..n];
      FillLastWins(m, interesting, init, slot);
      if Sets(children[n], slot) {
        forall k | LastSetter(children, slot, k) ensures k == n { }
      } else {
        forall k | LastSetter(children, slot, k) ensures LastSetter(init, slot, k) {
          assert k != n;
          forall l | k < l < |init| ensures !Sets(init[l], slot) {
            assert init[l] == children[l];
          }
        }
        if forall k :: 0 <= k < |children| ==> !Sets(children[k], slot) {
          forall k | 0 <= k < |init| ensures !Sets(init[k], slot) {
            assert init[k] == children[k];
          }
        }
      }
    }
  }

  /**
   * Every record has exactly the columns as keys, and its key column holds
   * the descriptor URL (the interesting slots never include the key).
   */
  lemma RecordHasExactlyTheColumns(columns: seq<string>, url: string, fetched: Fetched<Descriptor>)
    requires |columns| > 0 && Distinct(columns)
    requires Extract(columns, url, fetched).Success?
    ensures Extract(columns, url, fetched).value.Keys == set c | c in columns
    ensures Extract(columns, url, fetched).value[columns[0]] == Some(url)
  {
    var interesting := columns[1..];
    var base: Record := map[columns[0] := Some(url)];
    BlankSlots(base, interesting);
    assert columns[0] !in interesting;
    assert (set c | c in columns) == base.Keys + set n | n in interesting by {
      assert columns == [columns[0]] + interesting;
    }
    var stub := Stub(columns, url);
    if fetched.Response? && fetched.body.content != "" && fetched.body.netcdf.Some? {
      FillKeepsOtherSlots(stub, interesting, fetched.body.netcdf.value);
    }
  }

  /**
   * An ok descriptor with empty content gives the stub: the key holds the
   * URL and every interesting slot is `None`.
   */
  lemma EmptyDescriptorGivesStub(columns: seq<string>, url: string, status: int, d: Descriptor)
    requires |columns| > 0 && Distinct(columns)
    requires IsOk(status) && d.content == ""
    ensures Extract(columns, url, Response(status, d)).Success?
    ensures var r := Extract(columns, url, Response(status, d)).value;
            && columns[0] in r && r[columns[0]] == Some(url)
            && forall c :: c in columns[1..] ==> c in r && r[c] == None
  {
    RecordHasExactlyTheColumns(columns, url, Response(status, d));
    BlankSlots(map[columns[0] := Some(url)], columns[1..]);
  }

  /**
   * Reading a descriptor: an interesting slot holds the value of the last
   * `attribute` child whose lower-cased name is the slot and whose value is
   * non-empty, and is `None` when there is no such child.
   */
  lemma SlotHoldsLastValue(columns: seq<string>, url: string, status: int, d: Descriptor, slot: string)
    requires |columns| > 0 && Distinct(columns)
    requires IsOk(status) && d.content != "" && d.netcdf.Some?
    requires slot in columns[1..]
    ensures Extract(columns, url, Response(status, d)).Success?
    ensures var r := Extract(columns, url, Response(status, d)).value;
            var children := d.netcdf.value;
            && slot in r
            && ((forall k :: 0 <= k < |children| ==> !Sets(children[k], slot)) ==> r[slot] == None)
            && (forall k :: LastSetter(children, slot, k) ==> r[slot] == children[k].value)
  {
    var stub := Stub(columns, url);
    BlankSlots(map[columns[0] := Some(url)], columns[1..]);
    FillLastWins(stub, columns[1..], d.netcdf.value, slot);
  }

  /** Names that are not interesting columns never reach the record. */
  lemma OtherNamesIgnored(columns: seq<string>, url: string, fetched: Fetched<Descriptor>, name: string)
    requires |columns| > 0 && Distinct(columns)
    requires Extract(columns, url, fetched).Success?
    requires name !in columns
    ensures name !in Extract(columns, url, fetched).value
  {
    RecordHasExactlyTheColumns(columns, url, fetched);
  }

  /** The loop of `catalog.py` that builds `ncml_mapping` for one descriptor URL. */
  method BuildRecord(columns: seq<string>, url: string, fetched: Fetched<Descriptor>)
    returns (r: Result<Record, Failure>)
    requires |columns| > 0
    ensures r == Extract(columns, url, fetched)
  {
    var key := columns[0];
    var interesting := columns[1..];
    var mapping: Record := map[key := Some(url)];
    var i := 0;
    while i < |interesting|
      invariant 0 <= i <= |interesting|
      invariant mapping == Blank(map[key := Some(url)], interesting[..i])
    {
      assert interesting[..i + 1][..i] == interesting[..i];
      mapping := mapping[interesting[i] := None];
      i := i + 1;
    }
    assert interesting[..i] == interesting;
    match fetched {
      case Raised =>
        return Failure(ConnectionError(url));
      case Response(status, d) =>
        if IsOk(status) && d.content != "" {
          if d.netcdf.None? {
            return Failure(NoNetcdfElement(url));
          }
          var children := d.netcdf.value;
          ghost var stub := mapping;
          var j := 0;
          while j < |children|
            invariant 0 <= j <= |children|
            invariant mapping == Fill(stub, interesting, children[..j])
          {
            assert children[..j + 1][..j] == children[..j];
            var e := children[j];
            if e.tag == "attribute" && e.name.Some? {
              var name := Lower(e.name.value);
              if name in interesting {
                var value := e.value;
                if value.Some? && value.value != "" {
                  mapping := mapping[name := value];
                }
              }
            }
            j := j + 1;
          }
          assert children[..j] == children;
          return Success(mapping);
        } else if !IsOk(status) {
          return Failure(HttpError(url, status));
        }
        return Success(mapping);
    }
  }

  /** What the loop over the descriptor URLs gives: `ncml_mappings`, or the first failure. */
  function ExtractAll(columns: seq<string>, get: string -> Fetched<Descriptor>, urls: seq<string>): Result<seq<Record>, Failure>
    requires |columns| > 0
  {
    if urls == [] then Success([])
    else
      match ExtractAll(columns, get, urls[..|urls| - 1])
      case Failure(e) => Failure(e)
      case Success(records) =>
        var last := urls[|urls| - 1];
        match Extract(columns, last, get(last))
        case Failure(e) => Failure(e)
        case Success(r) => Success(records + [r])
  }

  /** Once a prefix of the URLs has failed, the whole loop has failed the same way. */
  lemma {:induction false} ExtractAllFailureStops(columns: seq<string>, get: string -> Fetched<Descriptor>, urls: seq<string>, n: nat)
    requires |columns| > 0 && n <= |urls|
    requires ExtractAll(columns, get, urls[..n]).Failure?
    ensures ExtractAll(columns, get, urls) == ExtractAll(columns, get, urls[..n])
  {
    if n < |urls| {
      var init := urls[..|urls| - 1];
      assert init[..n] == urls[..n];
      ExtractAllFailureStops(columns, get, init, n);
    } else {
      assert urls[..n] == urls;
    }
  }

  /**
   * When no descriptor fails, there is one record per URL, in order, each
   * the record of its own URL; otherwise the loop fails.
   */
  lemma {:induction false} ExtractAllOnePerUrl(columns: seq<string>, get: string -> Fetched<Descriptor>, urls: seq<string>)
    requires |columns| > 0
    ensures ExtractAll(columns, get, urls).Success? <==>
              forall i :: 0 <= i < |urls| ==> Extract(columns, urls[i], get(urls[i])).Success?
    ensures ExtractAll(columns, get, urls).Success? ==>
              && |ExtractAll(columns, get, urls).value| == |urls|
              && forall i :: 0 <= i < |urls| ==>
                   ExtractAll(columns, get, urls).value[i] == Extract(columns, urls[i], get(urls[i])).value
  {
    if urls != [] {
      var init := urls[..|urls| - 1];
      ExtractAllOnePerUrl(columns, get, init);
      forall i | 0 <= i < |init| ensures init[i] == urls[i] { }
    }
  }

  /** The loop of `catalog.py` that appends one mapping per descriptor URL. */
  method ExtractRecords(columns: seq<string>, get: string -> Fetched<Descriptor>, urls: seq<string>)
    returns (r: Result<seq<Record>, Failure>)
    requires |columns| > 0
    ensures r == ExtractAll(columns, get, urls)
  {
    var mappings: seq<Record> := [];
    var i := 0;
    while i < |urls|
      invariant 0 <= i <= |urls|
      invariant ExtractAll(columns, get, urls[..i]) == Success(mappings)
    {
      assert urls[..i + 1][..i] == urls[..i];
      var mapping := BuildRecord(columns, urls[i], get(urls[i]));
      if mapping.Failure? {
        ExtractAllFailureStops(columns, get, urls, i + 1);
        return Failure(mapping.error);
      }
      mappings := mappings + [mapping.value];
      i := i + 1;
    }
    assert urls[..i] == urls;
    return Success(mappings);
  }
}
