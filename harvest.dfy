/**
 * `crawl` and `reap` of `tdsharvest/harvest.py`, and the texts of the two
 * tracking files its main block writes. The THREDDS crawler is replaced by
 * what it produces (or the fact that it raised), `requests.get` by a fetch
 * function, and the disk by the `FileSystems` model.
 */
module Harvest {
  import opened Wrappers
  import opened Text
  import opened PosixPath
  import opened Http
  import opened FileSystems

  const Services: seq<string> := ["ISO"]
  const Extension: string := ".xml"
  const CrawlCatalogExitStatus: nat := 1
  const ReapMkdirsIsopathExitStatus: nat := 2
  const CrawlResultsRemoveExitStatus: nat := 3
  const ReapRetryRemoveExitStatus: nat := 4
  const ReapRetryWriteExitStatus: nat := 5

  /** One entry of a dataset's `services`: its `"service"` name and its `"url"`. */
  datatype Service = Service(service: string, url: string)

  datatype Dataset = Dataset(id: string, services: seq<Service>)

  /** A `(dataset id, service url)` pair that `reap` fetches. */
  datatype Resource = Resource(id: string, url: string)

  /** What constructing the crawler for the catalog gives: it raised, or its datasets. */
  datatype Crawler = CrawlerRaised | Crawled(datasets: seq<Dataset>)

  predicate IsIso(s: Service) {
    s.service in Services
  }

  /** The inner comprehension, for one dataset's services. */
  function ServiceResources(id: string, services: seq<Service>): seq<Resource> {
    if services == [] then []
    else
      var last := services[|services| - 1];
      ServiceResources(id, services[..|services| - 1]) + (if IsIso(last) then [Resource(id, last.url)] else [])
  }

  /** The resources `crawl` returns for the crawled datasets. */
  function IsoResources(datasets: seq<Dataset>): seq<Resource> {
    if datasets == [] then []
    else
      var last := datasets[|datasets| - 1];
      IsoResources(datasets[..|datasets| - 1]) + ServiceResources(last.id, last.services)
  }

  /** `crawl(catalog)`: the resources, or the exit status when the crawler raised. */
  function Crawl(crawler: Crawler): Result<seq<Resource>, nat> {
    match crawler
    case CrawlerRaised => Failure(CrawlCatalogExitStatus)
    case Crawled(datasets) => Success(IsoResources(datasets))
  }

  /** Services keep their order within a dataset. */
  lemma {:induction false} ServiceResourcesAppend(id: string, a: seq<Service>, b: seq<Service>)
    ensures ServiceResources(id, a + b) == ServiceResources(id, a) + ServiceResources(id, b)
  {
    if b != [] {
      var n := |b| - 1;
      assert (a + b)[..|a + b| - 1] == a + b[..n];
      ServiceResourcesAppend(id, a, b[..n]);
    } else {
      assert a + b == a;
    }
  }

  /** Datasets keep their order: the resources of a concatenation are concatenated. */
  lemma {:induction false} IsoResourcesAppend(a: seq<Dataset>, b: seq<Dataset>)
    ensures IsoResources(a + b) == IsoResources(a) + IsoResources(b)
  {
    if b != [] {
      var n := |b| - 1;
      assert (a + b)[..|a + b| - 1] == a + b[..n];
      IsoResourcesAppend(a, b[..n]);
    } else {
      assert a + b == a;
    }
  }

  /** Some ISO service among `services` has this url. */
  predicate OffersIso(services: seq<Service>, url: string) {
    exists j :: 0 <= j < |services| && IsIso(services[j]) && services[j].url == url
  }

  lemma {:induction false} ServiceResourcesMembers(id: string, services: seq<Service>, r: Resource)
    ensures r in ServiceResources(id, services) <==> r.id == id && OffersIso(services, r.url)
  {
    if services != [] {
      var n := |services| - 1;
      var init := services[..n];
      ServiceResourcesMembers(id, init, r);
      if OffersIso(init, r.url) {
        var j :| 0 <= j < n && IsIso(init[j]) && init[j].url == r.url;
        assert services[j] == init[j];
      }
      if OffersIso(services, r.url) {
        var j :| 0 <= j < |services| && IsIso(services[j]) && services[j].url == r.url;
        if j < n {
          assert init[j] == services[j];
        }
      }
    }
  }

  /**
   * A pair is a resource exactly when some dataset has that id and one of
   * its ISO services has that url.
   */
  lemma {:induction false} IsoResourcesMembers(datasets: seq<Dataset>, r: Resource)
    ensures r in IsoResources(datasets) <==>
              exists i :: 0 <= i < |datasets| && datasets[i].id == r.id && OffersIso(datasets[i].services, r.url)
  {
    if datasets != [] {
      var n := |datasets| - 1;
      var init, last := datasets[..n], datasets[n];
      IsoResourcesMembers(init, r);
      ServiceResourcesMembers(last.id, last.services, r);
      assert IsoResources(datasets) == IsoResources(init) + ServiceResources(last.id, last.services);
      if r in IsoResources(init) {
        var i :| 0 <= i < |init| && init[i].id == r.id && OffersIso(init[i].services, r.url);
        assert datasets[i] == init[i];
      }
      if exists i :: 0 <= i < |datasets| && datasets[i].id == r.id && OffersIso(datasets[i].services, r.url) {
        var i :| 0 <= i < |datasets| && datasets[i].id == r.id && OffersIso(datasets[i].services, r.url);
        if i < n {
          assert init[i] == datasets[i];
        }
      }
    }
  }

  /** The positions of a dataset's ISO services. */
  function IsoPositions(services: seq<Service>): set<nat> {
    set j: nat | j < |services| && IsIso(services[j])
  }

  /** How many ISO services the datasets have in all. */
  function IsoServiceCount(datasets: seq<Dataset>): nat {
    if datasets == [] then 0
    else IsoServiceCount(datasets[..|datasets| - 1]) + |IsoPositions(datasets[|datasets| - 1].services)|
  }

  lemma {:induction false} ServiceResourcesCount(id: string, services: seq<Service>)
    ensures |ServiceResources(id, services)| == |IsoPositions(services)|
  {
    if services != [] {
      var n := |services| - 1;
      ServiceResourcesCount(id, services[..n]);
      var before := IsoPositions(services[..n]);
      assert IsoPositions(services) == before + (if IsIso(services[n]) then {n} else {});
      assert n !in before;
    } else {
      assert IsoPositions(services) == {};
    }
  }

  /** `crawl` returns one resource per ISO service. */
  lemma {:induction false} IsoResourcesCount(datasets: seq<Dataset>)
    ensures |IsoResources(datasets)| == IsoServiceCount(datasets)
  {
    if datasets != [] {
      var n := |datasets| - 1;
      IsoResourcesCount(datasets[..n]);
      ServiceResourcesCount(datasets[n].id, datasets[n].services);
    }
  }

  /** `os.path.join(isopath, resource_dir)` */
  function IsoDir(isopath: string, id: string): string {
    Join(isopath, Split(id).0)
  }

  /** `os.path.join(isodir, resource_name + EXTENSION)` */
  function XmlPath(isopath: string, id: string): string {
    Join(IsoDir(isopath, id), Split(id).1 + Extension)
  }

  /** The file a resource is written to is named after the id's last component, plus `.xml`. */
  lemma XmlPathLeaf(isopath: string, id: string)
    ensures '/' !in Split(id).1
    ensures Split(XmlPath(isopath, id)).1 == Split(id).1 + Extension
  {
    SplitTail(id);
    var name := Split(id).1 + Extension;
    assert '/' !in name;
    JoinedNameIsTail(IsoDir(isopath, id), name);
  }

  /**
   * A relative id with no `//` is mirrored under `isopath`: the file is
   * `isopath/<id>.xml`.
   */
  lemma XmlPathMirrorsId(isopath: string, id: string)
    requires isopath != "" && !EndsWith(isopath, "/")
    requires !StartsWith(id, "/") && NoDoubleSlash(id)
    ensures XmlPath(isopath, id) == isopath + "/" + id + Extension
  {
    var k := AfterLastSlash(id);
    var tail := id[k..];
    assert Split(id).1 == tail;
    assert !StartsWith(tail + Extension, "/") by {
      if tail != [] {
        assert tail[0] in tail;
      }
    }
    if k == 0 {
      assert Split(id).0 == "";
      assert IsoDir(isopath, id) == isopath + "/";
      assert tail == id;
    } else {
      assert id[0] != '/';
      assert k >= 2;
      assert id[k - 2] != '/';
      var head := id[..k - 1];
      assert id[..k][..|id[..k]| - 1] == head;
      assert RStripSlashes(id[..k]) == head;
      assert !AllSlashes(id[..k]) by {
        assert id[..k][0] != '/';
      }
      assert Split(id).0 == head;
      assert !StartsWith(head, "/") by {
        assert head[0] != '/';
      }
      assert IsoDir(isopath, id) == isopath + "/" + head;
      var dir := isopath + "/" + head;
      assert dir[|dir| - 1] == id[k - 2];
      assert !EndsWith(dir, "/");
      assert XmlPath(isopath, id) == dir + "/" + (tail + Extension);
      assert id == head + "/" + tail;
    }
  }

  /**
   * One pass of `reap`'s loop body for resource `r`: the disk afterwards, and
   * whether its url was appended to `errors`.
   */
  function Attempt(d: Disk, faults: Faults, fetch: string -> Fetched<string>, isopath: string, r: Resource): (Disk, bool) {
    match MakeDirsOn(d, faults, IsoDir(isopath, r.id))
    case None => (d, true)
    case Some(d1) =>
      match fetch(r.url)
      case Raised => (d1, true)
      case Response(_, text) =>
        match WriteOn(d1, faults, XmlPath(isopath, r.id), text)
        case None => (d1, true)
        case Some(d2) => (d2, false)
  }

  /** `reap`'s loop over the resources: the disk afterwards, and `errors`. */
  function ReapLoop(d: Disk, faults: Faults, fetch: string -> Fetched<string>, isopath: string, resources: seq<Resource>): (Disk, seq<string>) {
    if resources == [] then (d, [])
    else
      var before := ReapLoop(d, faults, fetch, isopath, resources[..|resources| - 1]);
      var last := resources[|resources| - 1];
      var after := Attempt(before.0, faults, fetch, isopath, last);
      (after.0, if after.1 then before.1 + [last.url] else before.1)
  }

  /** `reap(isopath, resources)`: the disk afterwards, and `errors` or the exit status. */
  function Reaped(d: Disk, faults: Faults, fetch: string -> Fetched<string>, isopath: string, resources: seq<Resource>): (Disk, Result<seq<string>, nat>) {
    match MakeDirsOn(d, faults, isopath)
    case None => (d, Failure(ReapMkdirsIsopathExitStatus))
    case Some(d1) =>
      var after := ReapLoop(d1, faults, fetch, isopath, resources);
      (after.0, Success(after.1))
  }

  /**
   * `reap` exits with status 2 exactly when `isopath` cannot be made, and
   * then before any resource is attempted: the disk is untouched.
   */
  lemma ReapExitsOnIsopath(d: Disk, faults: Faults, fetch: string -> Fetched<string>, isopath: string, resources: seq<Resource>)
    ensures Reaped(d, faults, fetch, isopath, resources).1.Failure? <==> MakeDirsOn(d, faults, isopath).None?
    ensures Reaped(d, faults, fetch, isopath, resources).1.Failure? ==>
              Reaped(d, faults, fetch, isopath, resources) == (d, Failure(2))
  {
  }

  /**
   * A resource's url goes to `errors` exactly when making its directory, the
   * fetch or the write raised. A response of any status is written.
   */
  lemma AttemptOutcome(d: Disk, faults: Faults, fetch: string -> Fetched<string>, isopath: string, r: Resource)
    ensures Attempt(d, faults, fetch, isopath, r).1 <==>
              || MakeDirsOn(d, faults, IsoDir(isopath, r.id)).None?
              || fetch(r.url).Raised?
              || WriteOn(MakeDirsOn(d, faults, IsoDir(isopath, r.id)).value, faults, XmlPath(isopath, r.id), fetch(r.url).body).None?
    ensures !Attempt(d, faults, fetch, isopath, r).1 ==>
              && XmlPath(isopath, r.id) in Attempt(d, faults, fetch, isopath, r).0.files
              && Attempt(d, faults, fetch, isopath, r).0.files[XmlPath(isopath, r.id)] == fetch(r.url).body
  {
  }

  /** The loop over `a + b` is the loop over `a`, then the loop over `b` from where it left the disk. */
  lemma {:induction false} ReapLoopAppend(d: Disk, faults: Faults, fetch: string -> Fetched<string>, isopath: string, a: seq<Resource>, b: seq<Resource>)
    ensures ReapLoop(d, faults, fetch, isopath, a + b) ==
              var first := ReapLoop(d, faults, fetch, isopath, a);
              var second := ReapLoop(first.0, faults, fetch, isopath, b);
              (second.0, first.1 + second.1)
  {
    if b == [] {
      assert a + b == a;
      var first := ReapLoop(d, faults, fetch, isopath, a);
      assert first.1 + [] == first.1;
    } else {
      var n := |b| - 1;
      assert (a + b)[..|a + b| - 1] == a + b[..n];
      assert (a + b)[|a + b| - 1] == b[n];
      ReapLoopAppend(d, faults, fetch, isopath, a, b[..n]);
      var first := ReapLoop(d, faults, fetch, isopath, a);
      var mid := ReapLoop(first.0, faults, fetch, isopath, b[..n]);
      var at := Attempt(mid.0, faults, fetch, isopath, b[n]);
      assert ReapLoop(first.0, faults, fetch, isopath, b) == (at.0, if at.1 then mid.1 + [b[n].url] else mid.1);
      assert ReapLoop(d, faults, fetch, isopath, a + b) == (at.0, if at.1 then first.1 + mid.1 + [b[n].url] else first.1 + mid.1);
      assert first.1 + (mid.1 + [b[n].url]) == first.1 + mid.1 + [b[n].url];
    }
  }

  /**
   * Resource `k` is always attempted, from the disk the first `k` left, and
   * whatever happens to it the loop goes on with resource `k + 1`.
   */
  lemma EveryResourceAttempted(d: Disk, faults: Faults, fetch: string -> Fetched<string>, isopath: string, resources: seq<Resource>, k: nat)
    requires k < |resources|
    ensures ReapLoop(d, faults, fetch, isopath, resources).1 ==
              var before := ReapLoop(d, faults, fetch, isopath, resources[..k]);
              var at := Attempt(before.0, faults, fetch, isopath, resources[k]);
              before.1 + (if at.1 then [resources[k].url] else []) + ReapLoop(at.0, faults, fetch, isopath, resources[k + 1..]).1
  {
    var r := resources[k];
    assert resources == resources[..k] + [r] + resources[k + 1..];
    ReapLoopAppend(d, faults, fetch, isopath, resources[..k] + [r], resources[k + 1..]);
    ReapLoopAppend(d, faults, fetch, isopath, resources[..k], [r]);
    assert [r][..0] == [];
  }

  /** Whether the attempt of resource `k`, on the disk the resources before it left, failed. */
  predicate FailedAt(d: Disk, faults: Faults, fetch: string -> Fetched<string>, isopath: string, resources: seq<Resource>, k: nat)
    requires k < |resources|
  {
    Attempt(ReapLoop(d, faults, fetch, isopath, resources[..k]).0, faults, fetch, isopath, resources[k]).1
  }

  lemma FailedAtPrefix(d: Disk, faults: Faults, fetch: string -> Fetched<string>, isopath: string, resources: seq<Resource>, n: nat, k: nat)
    requires k < n <= |resources|
    ensures FailedAt(d, faults, fetch, isopath, resources[..n], k) == FailedAt(d, faults, fetch, isopath, resources, k)
  {
    assert resources[..n][..k] == resources[..k];
  }

  /** A url is in `errors` exactly when the attempt of a resource with that url failed. */
  lemma {:induction false} ReapErrorsMembers(d: Disk, faults: Faults, fetch: string -> Fetched<string>, isopath: string, resources: seq<Resource>, url: string)
    ensures url in ReapLoop(d, faults, fetch, isopath, resources).1 <==>
              exists k :: 0 <= k < |resources| && resources[k].url == url && FailedAt(d, faults, fetch, isopath, resources, k)
  {
    if resources != [] {
      var n := |resources| - 1;
      var init := resources[..n];
      ReapErrorsMembers(d, faults, fetch, isopath, init, url);
      var before := ReapLoop(d, faults, fetch, isopath, init).1;
      var lastFailed := FailedAt(d, faults, fetch, isopath, resources, n);
      assert ReapLoop(d, faults, fetch, isopath, resources).1 ==
               before + (if lastFailed then [resources[n].url] else []);
      var errors := ReapLoop(d, faults, fetch, isopath, resources).1;
      if url in errors {
        if url in before {
          var k :| 0 <= k < |init| && init[k].url == url && FailedAt(d, faults, fetch, isopath, init, k);
          FailedAtPrefix(d, faults, fetch, isopath, resources, n, k);
          assert resources[k].url == url && FailedAt(d, faults, fetch, isopath, resources, k);
        } else {
          assert resources[n].url == url && FailedAt(d, faults, fetch, isopath, resources, n);
        }
      }
      if exists k :: 0 <= k < |resources| && resources[k].url == url && FailedAt(d, faults, fetch, isopath, resources, k) {
        var k :| 0 <= k < |resources| && resources[k].url == url && FailedAt(d, faults, fetch, isopath, resources, k);
        if k < n {
          FailedAtPrefix(d, faults, fetch, isopath, resources, n, k);
          assert init[k].url == url && FailedAt(d, faults, fetch, isopath, init, k);
          assert url in before;
          assert url in errors;
        } else {
          assert k == n;
          assert url == resources[n].url && lastFailed;
        }
      }
    }
  }

  /** The urls of the resources, in order. */
  function Urls(resources: seq<Resource>): seq<string> {
    seq(|resources|, i requires 0 <= i < |resources| => resources[i].url)
  }

  /** `xs` is `ys` with some elements left out, the rest in their order. */
  predicate IsSubsequence(xs: seq<string>, ys: seq<string>)
    decreases |ys|
  {
    if ys == [] then xs == []
    else
      || (xs != [] && xs[|xs| - 1] == ys[|ys| - 1] && IsSubsequence(xs[..|xs| - 1], ys[..|ys| - 1]))
      || IsSubsequence(xs, ys[..|ys| - 1])
  }

  lemma {:induction false} SubsequenceNoLonger(xs: seq<string>, ys: seq<string>)
    requires IsSubsequence(xs, ys)
    ensures |xs| <= |ys|
    decreases |ys|
  {
    if ys != [] {
      if xs != [] && xs[|xs| - 1] == ys[|ys| - 1] && IsSubsequence(xs[..|xs| - 1], ys[..|ys| - 1]) {
        SubsequenceNoLonger(xs[..|xs| - 1], ys[..|ys| - 1]);
      } else {
        SubsequenceNoLonger(xs, ys[..|ys| - 1]);
      }
    }
  }

  /**
   * Each resource adds at most one url: `errors` is the resources' urls with
   * some left out, in order, so it is never longer than `resources`.
   */
  lemma {:induction false} ReapErrorsAreSubsequence(d: Disk, faults: Faults, fetch: string -> Fetched<string>, isopath: string, resources: seq<Resource>)
    ensures IsSubsequence(ReapLoop(d, faults, fetch, isopath, resources).1, Urls(resources))
    ensures |ReapLoop(d, faults, fetch, isopath, resources).1| <= |resources|
  {
    if resources != [] {
      var n := |resources| - 1;
      ReapErrorsAreSubsequence(d, faults, fetch, isopath, resources[..n]);
      assert Urls(resources)[..n] == Urls(resources[..n]);
    }
    SubsequenceNoLonger(ReapLoop(d, faults, fetch, isopath, resources).1, Urls(resources));
  }

  /**
   * The loop never removes a file or a directory, and a file at a path that
   * is no resource's `.xml` path keeps its contents.
   */
  lemma {:induction false} ReapLoopKeepsFiles(d: Disk, faults: Faults, fetch: string -> Fetched<string>, isopath: string, resources: seq<Resource>, p: string)
    ensures d.files.Keys <= ReapLoop(d, faults, fetch, isopath, resources).0.files.Keys
    ensures d.dirs <= ReapLoop(d, faults, fetch, isopath, resources).0.dirs
    ensures (forall k :: 0 <= k < |resources| ==> XmlPath(isopath, resources[k].id) != p) ==>
              && (p in ReapLoop(d, faults, fetch, isopath, resources).0.files <==> p in d.files)
              && (p in d.files ==> ReapLoop(d, faults, fetch, isopath, resources).0.files[p] == d.files[p])
  {
    if resources != [] {
      var n := |resources| - 1;
      ReapLoopKeepsFiles(d, faults, fetch, isopath, resources[..n], p);
      if forall k :: 0 <= k < |resources| ==> XmlPath(isopath, resources[k].id) != p {
        assert forall k :: 0 <= k < n ==> XmlPath(isopath, resources[..n][k].id) != p;
      }
    }
  }

  /** `reap` as the script runs it, against the disk `fs`. */
  method Reap(fs: FileSystem, fetch: string -> Fetched<string>, isopath: string, resources: seq<Resource>)
    returns (result: Result<seq<string>, nat>)
    modifies fs
    ensures (fs.State(), result) == Reaped(old(fs.State()), fs.faults, fetch, isopath, resources)
  {
    var ok := fs.MakeDirs(isopath);
    if !ok {
      return Failure(ReapMkdirsIsopathExitStatus);
    }
    ghost var start := fs.State();
    var errors := [];
    for i := 0 to |resources|
      invariant (fs.State(), errors) == ReapLoop(start, fs.faults, fetch, isopath, resources[..i])
    {
      assert resources[..i + 1][..i] == resources[..i];
      var resource := resources[i];
      var split := Split(resource.id);
      var isodir := Join(isopath, split.0);
      ok := fs.MakeDirs(isodir);
      if !ok {
        errors := errors + [resource.url];
      } else {
        var response := fetch(resource.url);
        if response.Raised? {
          errors := errors + [resource.url];
        } else {
          var xmlpath := Join(isodir, split.1 + Extension);
          ok := fs.Write(xmlpath, response.body);
          if !ok {
            errors := errors + [resource.url];
          }
        }
      }
    }
    assert resources[..|resources|] == resources;
    return Success(errors);
  }

  /** One `"name = {0}\nurl = {1}\n"` block of the crawl results file. */
  function ResultBlock(r: Resource): string {
    "name = " + r.id + "\nurl = " + r.url + "\n"
  }

  /** `writelines` of the blocks: their concatenation in resource order. */
  function CrawlResultsText(resources: seq<Resource>): string {
    if resources == [] then "" else ResultBlock(resources[0]) + CrawlResultsText(resources[1..])
  }

  /** Reads a crawl results file back into its resources. */
  function ParseCrawlResults(text: string): Option<seq<Resource>>
    decreases |text|
  {
    if text == "" then Some([])
    else if !StartsWith(text, "name = ") then None
    else
      match SplitAt(text[7..], '\n')
      case None => None
      case Some((id, afterId)) =>
        if !StartsWith(afterId, "url = ") then None
        else
          match SplitAt(afterId[6..], '\n')
          case None => None
          case Some((url, more)) =>
            match ParseCrawlResults(more)
            case None => None
            case Some(rest) => Some([Resource(id, url)] + rest)
  }

  predicate NoNewline(r: Resource) {
    '\n' !in r.id && '\n' !in r.url
  }

  /** Where the separators of a block sit. */
  lemma BlockShape(r: Resource, more: string)
    ensures StartsWith(ResultBlock(r) + more, "name = ")
    ensures (ResultBlock(r) + more)[7..] == r.id + ['\n'] + ("url = " + r.url + "\n" + more)
    ensures StartsWith("url = " + r.url + "\n" + more, "url = ")
    ensures ("url = " + r.url + "\n" + more)[6..] == r.url + ['\n'] + more
  {
    var afterId := "url = " + r.url + "\n" + more;
    assert ResultBlock(r) + more == "name = " + (r.id + ['\n'] + afterId);
    assert afterId == "url = " + (r.url + ['\n'] + more);
  }

  /** Reading one block off the front of a text. */
  lemma ParseBlock(r: Resource, more: string)
    requires NoNewline(r)
    ensures ParseCrawlResults(ResultBlock(r) + more) ==
              match ParseCrawlResults(more)
              case None => None
              case Some(rest) => Some([r] + rest)
  {
    var afterId := "url = " + r.url + "\n" + more;
    BlockShape(r, more);
    SplitAtJoined(r.id, '\n', afterId);
    SplitAtJoined(r.url, '\n', more);
  }

  /** The crawl results file reads back as the resources when no id or url holds a newline. */
  lemma {:induction false} CrawlResultsRoundTrip(resources: seq<Resource>)
    requires forall i :: 0 <= i < |resources| ==> NoNewline(resources[i])
    ensures ParseCrawlResults(CrawlResultsText(resources)) == Some(resources)
  {
    if resources != [] {
      CrawlResultsRoundTrip(resources[1..]);
      ParseBlock(resources[0], CrawlResultsText(resources[1..]));
      assert [resources[0]] + resources[1..] == resources;
    }
  }

  /** `writelines([error + "\n" for error in errors])` */
  function RetryText(errors: seq<string>): string {
    if errors == [] then "" else errors[0] + "\n" + RetryText(errors[1..])
  }

  /** The lines of a text whose every line ends in `"\n"`. */
  function Lines(text: string): seq<string>
    decreases |text|
  {
    if text == "" then []
    else
      match SplitAt(text, '\n')
      case None => [text]
      case Some((line, rest)) => [line] + Lines(rest)
  }

  /** The retry file holds one line per error url, in order. */
  lemma {:induction false} RetryRoundTrip(errors: seq<string>)
    requires forall i :: 0 <= i < |errors| ==> '\n' !in errors[i]
    ensures Lines(RetryText(errors)) == errors
  {
    if errors != [] {
      var rest := RetryText(errors[1..]);
      assert RetryText(errors) == errors[0] + ['\n'] + rest;
      SplitAtJoined(errors[0], '\n', rest);
      RetryRoundTrip(errors[1..]);
      assert [errors[0]] + errors[1..] == errors;
    }
  }
}
