/**
 * The main block of `tdsharvest/harvest.py`: remove the two tracking files,
 * crawl, write the crawl results, reap, and write the retry file when some
 * resource failed.
 */
module HarvestRun {
  import opened Wrappers
  import opened Http
  import opened FileSystems
  import opened Harvest

  /** The command line; `logpath` only configures logging. */
  datatype Args = Args(catalog: string, isopath: string, logpath: string, crawlResultsPath: string, reapRetryPath: string)

  /**
   * How the script ends: normally, by `sys.exit(status)`, or by the
   * `NameError` its crawl-results handler raises.
   */
  datatype Exit = Completed | ExitStatus(status: nat) | Aborted

  /**
   * The end of a run: how it ended, the disk, and what `resources` and
   * `errors` held (empty where the run stopped before setting them).
   */
  datatype Outcome = Outcome(exit: Exit, disk: Disk, resources: seq<Resource>, errors: seq<string>)

  /** `if os.path.exists(path): os.remove(path)` */
  function RemoveIfExists(d: Disk, faults: Faults, path: string): Option<Disk> {
    if Exists(d, path) then RemoveOn(d, faults, path) else Some(d)
  }

  /**
   * Removing a tracking file fails only for a directory or a file that cannot
   * be removed; when it succeeds the path is gone and nothing else changed.
   */
  lemma RemoveIfExistsClears(d: Disk, faults: Faults, path: string)
    ensures RemoveIfExists(d, faults, path).None? <==>
              path in d.dirs || (path in d.files && path in faults.removeFails)
    ensures RemoveIfExists(d, faults, path).Some? ==>
              && !Exists(RemoveIfExists(d, faults, path).value, path)
              && RemoveIfExists(d, faults, path).value == Disk(d.files - {path}, d.dirs)
  {
    if !Exists(d, path) {
      assert d.files - {path} == d.files;
    }
  }

  /** Everything after `crawl` returned `resources`, from the disk `d`. */
  function AfterCrawl(d: Disk, faults: Faults, fetch: string -> Fetched<string>, args: Args, resources: seq<Resource>): Outcome {
    if resources == [] then Outcome(Completed, d, resources, [])
    else
      match WriteOn(d, faults, args.crawlResultsPath, CrawlResultsText(resources))
      case None => Outcome(Aborted, d, resources, [])
      case Some(d1) =>
        var reaped := Reaped(d1, faults, fetch, args.isopath, resources);
        match reaped.1
        case Failure(status) => Outcome(ExitStatus(status), reaped.0, resources, [])
        case Success(errors) =>
          if errors == [] then Outcome(Completed, reaped.0, resources, errors)
          else
            match WriteOn(reaped.0, faults, args.reapRetryPath, RetryText(errors))
            case None => Outcome(ExitStatus(ReapRetryWriteExitStatus), reaped.0, resources, errors)
            case Some(d2) => Outcome(Completed, d2, resources, errors)
  }

  /** A whole run of the script from the disk `d`; `crawl` gives the crawler for a catalog. */
  function RunOutcome(d: Disk, faults: Faults, crawl: string -> Crawler, fetch: string -> Fetched<string>, args: Args): Outcome {
    match RemoveIfExists(d, faults, args.crawlResultsPath)
    case None => Outcome(ExitStatus(CrawlResultsRemoveExitStatus), d, [], [])
    case Some(d1) =>
      match RemoveIfExists(d1, faults, args.reapRetryPath)
      case None => Outcome(ExitStatus(ReapRetryRemoveExitStatus), d1, [], [])
      case Some(d2) =>
        match Crawl(crawl(args.catalog))
        case Failure(status) => Outcome(ExitStatus(status), d2, [], [])
        case Success(resources) => AfterCrawl(d2, faults, fetch, args, resources)
  }

  /** The disk once both tracking files have been removed, if that succeeded. */
  function Cleared(d: Disk, faults: Faults, args: Args): Option<Disk> {
    match RemoveIfExists(d, faults, args.crawlResultsPath)
    case None => None
    case Some(d1) => RemoveIfExists(d1, faults, args.reapRetryPath)
  }

  /** Once cleared, neither tracking file exists, and no other file was touched. */
  lemma ClearedRemovesBoth(d: Disk, faults: Faults, args: Args)
    requires Cleared(d, faults, args).Some?
    ensures !Exists(Cleared(d, faults, args).value, args.crawlResultsPath)
    ensures !Exists(Cleared(d, faults, args).value, args.reapRetryPath)
    ensures Cleared(d, faults, args).value == Disk(d.files - {args.crawlResultsPath, args.reapRetryPath}, d.dirs)
  {
    RemoveIfExistsClears(d, faults, args.crawlResultsPath);
    var d1 := RemoveIfExists(d, faults, args.crawlResultsPath).value;
    RemoveIfExistsClears(d1, faults, args.reapRetryPath);
    assert d.files - {args.crawlResultsPath} - {args.reapRetryPath} == d.files - {args.crawlResultsPath, args.reapRetryPath};
  }

  /** Clearing again, once cleared, finds nothing to remove and changes nothing. */
  lemma ClearedIdempotent(d: Disk, faults: Faults, args: Args)
    requires Cleared(d, faults, args).Some?
    ensures Cleared(Cleared(d, faults, args).value, faults, args) == Cleared(d, faults, args)
  {
    ClearedRemovesBoth(d, faults, args);
  }

  /**
   * Failing to remove a tracking file ends the run at once: status 3 for the
   * crawl results file, 4 for the retry file, and nothing else happens.
   */
  lemma RemovalFailureIsFatal(d: Disk, faults: Faults, crawl: string -> Crawler, fetch: string -> Fetched<string>, args: Args)
    ensures RunOutcome(d, faults, crawl, fetch, args).exit == ExitStatus(3) <==>
              RemoveIfExists(d, faults, args.crawlResultsPath).None?
    ensures RunOutcome(d, faults, crawl, fetch, args).exit == ExitStatus(4) <==>
              RemoveIfExists(d, faults, args.crawlResultsPath).Some? && Cleared(d, faults, args).None?
    ensures Cleared(d, faults, args).None? ==> RunOutcome(d, faults, crawl, fetch, args).resources == []
  {
    var o := RunOutcome(d, faults, crawl, fetch, args);
    if Cleared(d, faults, args).Some? {
      var d2 := Cleared(d, faults, args).value;
      var crawled := Crawl(crawl(args.catalog));
      if crawled.Success? && crawled.value != [] {
        var written := WriteOn(d2, faults, args.crawlResultsPath, CrawlResultsText(crawled.value));
        if written.Some? {
          ReapExitsOnIsopath(written.value, faults, fetch, args.isopath, crawled.value);
        }
      }
    }
  }

  /**
   * When the crawler raises, the run exits with status 1 with no resources,
   * and the disk is left with both tracking files removed.
   */
  lemma CrawlFailureExitsOne(d: Disk, faults: Faults, crawl: string -> Crawler, fetch: string -> Fetched<string>, args: Args)
    ensures RunOutcome(d, faults, crawl, fetch, args).exit == ExitStatus(1) <==>
              Cleared(d, faults, args).Some? && crawl(args.catalog).CrawlerRaised?
    ensures RunOutcome(d, faults, crawl, fetch, args).exit == ExitStatus(1) ==>
              && RunOutcome(d, faults, crawl, fetch, args).resources == []
              && RunOutcome(d, faults, crawl, fetch, args).disk ==
                   Disk(d.files - {args.crawlResultsPath, args.reapRetryPath}, d.dirs)
  {
    if Cleared(d, faults, args).Some? {
      ClearedRemovesBoth(d, faults, args);
      var d2 := Cleared(d, faults, args).value;
      var crawled := Crawl(crawl(args.catalog));
      if crawled.Success? && crawled.value != [] {
        var written := WriteOn(d2, faults, args.crawlResultsPath, CrawlResultsText(crawled.value));
        if written.Some? {
          ReapExitsOnIsopath(written.value, faults, fetch, args.isopath, crawled.value);
        }
      }
    }
  }

  /**
   * Status 2 comes only from `reap` failing to make `isopath`, after the
   * crawl results were written and before any resource was attempted.
   */
  lemma IsopathFailureExitsTwo(d: Disk, faults: Faults, crawl: string -> Crawler, fetch: string -> Fetched<string>, args: Args)
    requires RunOutcome(d, faults, crawl, fetch, args).exit == ExitStatus(2)
    ensures RunOutcome(d, faults, crawl, fetch, args).resources != []
    ensures RunOutcome(d, faults, crawl, fetch, args).errors == []
    ensures RunOutcome(d, faults, crawl, fetch, args).disk.files ==
              (d.files - {args.crawlResultsPath, args.reapRetryPath})[args.crawlResultsPath :=
                 CrawlResultsText(RunOutcome(d, faults, crawl, fetch, args).resources)]
    ensures MakeDirsOn(RunOutcome(d, faults, crawl, fetch, args).disk, faults, args.isopath).None?
  {
    ClearedRemovesBoth(d, faults, args);
    var d2 := Cleared(d, faults, args).value;
    var resources := Crawl(crawl(args.catalog)).value;
    var d3 := WriteOn(d2, faults, args.crawlResultsPath, CrawlResultsText(resources)).value;
    ReapExitsOnIsopath(d3, faults, fetch, args.isopath, resources);
  }

  /** What the disk holds after the crawl results were written and `reap` returned. */
  lemma ReapedFiles(d: Disk, faults: Faults, fetch: string -> Fetched<string>, isopath: string, resources: seq<Resource>, p: string)
    requires Reaped(d, faults, fetch, isopath, resources).1.Success?
    ensures d.files.Keys <= Reaped(d, faults, fetch, isopath, resources).0.files.Keys
    ensures (forall k :: 0 <= k < |resources| ==> XmlPath(isopath, resources[k].id) != p) ==>
              && (p in Reaped(d, faults, fetch, isopath, resources).0.files <==> p in d.files)
              && (p in d.files ==> Reaped(d, faults, fetch, isopath, resources).0.files[p] == d.files[p])
  {
    var d1 := MakeDirsOn(d, faults, isopath).value;
    ReapLoopKeepsFiles(d1, faults, fetch, isopath, resources, p);
  }

  /**
   * After a run that completes, the crawl results file exists exactly when
   * there were resources, and the retry file holds the error urls, one per
   * line, whenever there were errors. When no resource is written over them,
   * the crawl results file holds the results and the retry file exists only
   * if there were errors: stale contents never survive.
   */
  lemma CompletedRunTrackingFiles(d: Disk, faults: Faults, crawl: string -> Crawler, fetch: string -> Fetched<string>, args: Args)
    requires RunOutcome(d, faults, crawl, fetch, args).exit == Completed
    ensures var o := RunOutcome(d, faults, crawl, fetch, args);
            args.crawlResultsPath in o.disk.files <==> o.resources != []
    ensures var o := RunOutcome(d, faults, crawl, fetch, args);
            o.errors != [] ==> args.reapRetryPath in o.disk.files && o.disk.files[args.reapRetryPath] == RetryText(o.errors)
    ensures var o := RunOutcome(d, faults, crawl, fetch, args);
            (forall k :: 0 <= k < |o.resources| ==> XmlPath(args.isopath, o.resources[k].id) != args.crawlResultsPath) &&
            args.crawlResultsPath != args.reapRetryPath && o.resources != [] ==>
              o.disk.files[args.crawlResultsPath] == CrawlResultsText(o.resources)
    ensures var o := RunOutcome(d, faults, crawl, fetch, args);
            (forall k :: 0 <= k < |o.resources| ==> XmlPath(args.isopath, o.resources[k].id) != args.reapRetryPath) &&
            args.crawlResultsPath != args.reapRetryPath ==>
              (args.reapRetryPath in o.disk.files <==> o.errors != [])
  {
    var o := RunOutcome(d, faults, crawl, fetch, args);
    ClearedRemovesBoth(d, faults, args);
    var d2 := Cleared(d, faults, args).value;
    var resources := Crawl(crawl(args.catalog)).value;
    if resources != [] {
      var d3 := WriteOn(d2, faults, args.crawlResultsPath, CrawlResultsText(resources)).value;
      var reaped := Reaped(d3, faults, fetch, args.isopath, resources);
      ReapedFiles(d3, faults, fetch, args.isopath, resources, args.crawlResultsPath);
      ReapedFiles(d3, faults, fetch, args.isopath, resources, args.reapRetryPath);
      assert args.crawlResultsPath in reaped.0.files;
    }
  }

  /** The script's main block, run against the disk `fs`. */
  method Run(fs: FileSystem, crawl: string -> Crawler, fetch: string -> Fetched<string>, args: Args) returns (exit: Exit)
    modifies fs
    ensures exit == RunOutcome(old(fs.State()), fs.faults, crawl, fetch, args).exit
    ensures fs.State() == RunOutcome(old(fs.State()), fs.faults, crawl, fetch, args).disk
  {
    var present := fs.PathExists(args.crawlResultsPath);
    if present {
      var ok := fs.Remove(args.crawlResultsPath);
      if !ok {
        return ExitStatus(CrawlResultsRemoveExitStatus);
      }
    }
    present := fs.PathExists(args.reapRetryPath);
    if present {
      var ok := fs.Remove(args.reapRetryPath);
      if !ok {
        return ExitStatus(ReapRetryRemoveExitStatus);
      }
    }
    var crawled := Crawl(crawl(args.catalog));
    if crawled.Failure? {
      return ExitStatus(crawled.error);
    }
    var resources := crawled.value;
    if resources != [] {
      var ok := fs.Write(args.crawlResultsPath, CrawlResultsText(resources));
      if !ok {
        return Aborted;
      }
      var reaped := Reap(fs, fetch, args.isopath, resources);
      if reaped.Failure? {
        return ExitStatus(reaped.error);
      }
      var errors := reaped.value;
      if errors != [] {
        ok := fs.Write(args.reapRetryPath, RetryText(errors));
        if !ok {
          return ExitStatus(ReapRetryWriteExitStatus);
        }
      }
    }
    return Completed;
  }
}
