/**
  The worker's `message` handler (scripts/scraperProcess.js): it builds the
  crawler's options from the job, announces the crawl, runs it, prunes the
  selected file types, sends the directory tree, writes the archive, sends the
  settings summary and the download link, and exits, whatever happened. A
  throw anywhere in that sequence is reported by one error log before the exit.
  The crawl itself and the bytes of the archive are outcomes given to the model.
 */
module Worker {
  import opened Wrappers
  import opened Tree
  import opened FileSystem
  import opened Messages
  import opened WorkerFs

  // ---------------------------------------------------------------------
  // Crawler options

  /** `s.indexOf(w, i)`: the first position from `i` on where `w` occurs in
      `s`, or -1. */
  function IndexFrom(s: string, w: string, i: nat): (r: int)
    requires i <= |s|
    ensures r == -1 || (i <= r && r + |w| <= |s| && s[r..r + |w|] == w)
    ensures i + |w| <= |s| && s[i..i + |w|] == w ==> r == i
    decreases |s| - i
  {
    if i + |w| > |s| then -1
    else if s[i..i + |w|] == w then i
    else IndexFrom(s, w, i + 1)
  }

  function IndexOf(s: string, w: string): int
  {
    IndexFrom(s, w, 0)
  }

  /** The crawler's `urlFilter`: `url.indexOf(websiteUrl) === 0`. */
  function UrlFilter(websiteUrl: string, url: string): bool
  {
    IndexOf(url, websiteUrl) == 0
  }

  /** The filter accepts exactly the URLs that start with the site's URL. */
  lemma UrlFilterIsPrefix(websiteUrl: string, url: string)
    ensures UrlFilter(websiteUrl, url) <==> websiteUrl <= url
  {
    var n := |websiteUrl|;
    if websiteUrl <= url {
      assert url[0..n] == websiteUrl;
    }
    if UrlFilter(websiteUrl, url) {
      assert url[..n] == websiteUrl;
    }
  }

  /** An occurrence after the start is not enough. */
  lemma UrlFilterRejectsLater()
    ensures !UrlFilter("http://a", "http://b/http://a")
  {
    var w, u := "http://a", "http://b/http://a";
    UrlFilterIsPrefix(w, u);
    assert u[..|w|][7] == 'b';
  }

  lemma UrlFilterAcceptsBelow()
    ensures UrlFilter("http://a", "http://a/b")
  {
    var w, v := "http://a", "http://a/b";
    UrlFilterIsPrefix(w, v);
    assert v[..|w|] == w;
  }

  /** The options object given to `scrape`, without its plugins. */
  datatype ScrapeOptions = ScrapeOptions(
    urls: seq<string>,
    urlFilter: string -> bool,
    directory: Path,
    maxDepth: int,
    recursive: bool,
    maxRecursiveDepth: int,
    prettifyUrls: bool,
    maxConcurrency: nat,
    ignoreErrors: bool,
    timeout: nat,
    requestInterval: nat)

  /** `maxDepth || 10` for a number: 0 is the only falsy value. */
  function DefaultDepth(maxDepth: int): int
  {
    if maxDepth == 0 then 10 else maxDepth
  }

  function Options(job: Job): ScrapeOptions
  {
    ScrapeOptions([job.websiteUrl], url => UrlFilter(job.websiteUrl, url), job.downloadDir,
      DefaultDepth(job.maxDepth), job.recursive, job.maxRecursive, true, 5, true, 60000, 1000)
  }

  /** The crawl starts from the one URL, follows only URLs below it, saves
      into the workspace, keeps the job's depth unless it is 0 (then 10),
      and passes the recursion settings through unchanged. */
  lemma OptionsRules(job: Job)
    ensures var o := Options(job);
      o.urls == [job.websiteUrl] && o.directory == job.downloadDir
      && (forall url :: o.urlFilter(url) <==> job.websiteUrl <= url)
      && o.maxDepth != 0 && (job.maxDepth != 0 ==> o.maxDepth == job.maxDepth)
      && (job.maxDepth == 0 ==> o.maxDepth == 10)
      && o.recursive == job.recursive && o.maxRecursiveDepth == job.maxRecursive
      && o.maxConcurrency == 5 && o.ignoreErrors && o.timeout == 60000 && o.requestInterval == 1000
  {
    var o := Options(job);
    forall url
      ensures o.urlFilter(url) <==> job.websiteUrl <= url
    {
      UrlFilterIsPrefix(job.websiteUrl, url);
    }
  }

  // ---------------------------------------------------------------------
  // The crawl, as an outcome

  /** A log the crawler's plugin sends while the crawl runs: its `error`
      action, or a resource that failed to download. */
  datatype PluginLog = ActionError(message: string) | ResourceError(url: string, message: string)

  function PluginPayload(l: PluginLog): string
  {
    match l
    case ActionError(m) => "<span style=\"color: red;\">[Error] " + m + "</span>"
    case ResourceError(u, m) =>
      "<span style=\"color: orange;\">[Error] Resource error: " + u + " - Error details: " + m + "</span>"
  }

  /** How `await scrape(options)` ends: the site saved in `options.directory`,
      or a rejection. */
  datatype ScrapeResult = Saved(site: Node) | ScrapeFailed(message: string)

  /** The crawl: what the plugin logged while it ran, then how it ended. */
  datatype Scrape = Scrape(logs: seq<PluginLog>, result: ScrapeResult)

  // ---------------------------------------------------------------------
  // What the worker does

  /** A message the worker sends, by meaning. */
  datatype Message =
    | Report(log: WorkerLog)
    | Plugin(pluginLog: PluginLog)
    | Directory(tree: string)
    | Link(directoryName: string, downloadLink: string)

  /** The object `process.send` puts on the IPC channel. */
  function Wire(m: Message): WorkerMsg
  {
    match m
    case Report(l) => Log(Payload(l))
    case Plugin(l) => Log(PluginPayload(l))
    case Directory(t) => TreeDirectory(t)
    case Link(d, u) => DownloadReady(d, u)
  }

  /** `process.send(...)`, or the end of the worker process: `process.exit()`
      in the `finally` block, or an uncaught error. Either way the server sees
      one `exit`. */
  datatype Step = Send(msg: Message) | Exit

  function LogStep(l: WorkerLog): Step
  {
    Send(Report(l))
  }

  /** The error log an operation may have sent. */
  function LogSteps(l: Option<WorkerLog>): (r: seq<Step>)
    ensures |r| <= 1 && (r != [] <==> l.Some?)
  {
    if l.Some? then [LogStep(l.value)] else []
  }

  function PluginSteps(ls: seq<PluginLog>): (r: seq<Step>)
    ensures |r| == |ls| && forall i :: 0 <= i < |ls| ==> r[i] == Send(Plugin(ls[i]))
  {
    if ls == [] then [] else PluginSteps(ls[..|ls| - 1]) + [Send(Plugin(ls[|ls| - 1]))]
  }

  /** The link the worker sends: `projects/<directoryName>.zip`. */
  function DownloadLink(directoryName: string): string
  {
    "projects/" + directoryName + ".zip"
  }

  function SettingsLog(job: Job): WorkerLog
  {
    Settings(job.maxDepth, job.maxRecursive, job.recursive)
  }

  /** The operations the crawler's save shows in the log. */
  function PopulateOps(root: Node, dir: Path): seq<Op>
    requires dir != []
  {
    if MkdirAll(root, Parent(dir)).Some? then [Op.Populate(dir)] else []
  }

  /** Whether `filterFiles` runs: `selectedFileTypes && selectedFileTypes.length > 0`. */
  predicate Filters(job: Job)
  {
    |job.selectedFileTypes| > 0
  }

  /** The tree once the site is saved and, when types are selected, pruned. */
  function Prepared(root: Node, job: Job, site: Node): Node
    requires job.downloadDir != []
  {
    var r1 := Installed(root, job.downloadDir, site);
    if Filters(job) then FilterEffect(r1, job.downloadDir, job.selectedFileTypes) else r1
  }

  /** The error log `filterFiles` sends, when it runs. */
  function FilterLogOf(root: Node, job: Job, site: Node): Option<WorkerLog>
    requires job.downloadDir != []
  {
    if Filters(job) then FilterLog(Installed(root, job.downloadDir, site), job.downloadDir) else None
  }

  /** The crawler's save, then the `unlink` calls of `filterFiles` when it runs. */
  function PrepareOps(root: Node, job: Job, site: Node): seq<Op>
    requires job.downloadDir != []
  {
    var dir := job.downloadDir;
    PopulateOps(root, dir)
    + if Filters(job) then Unlinks(job.selectedFileTypes, Listing(Installed(root, dir, site), dir)) else []
  }

  /** What the steps after a successful crawl report: the error logs of
      `filterFiles` and `getDirectoryTree`, and the tree text. */
  datatype Saving = Saving(filterLog: Option<WorkerLog>, treeLog: Option<WorkerLog>, tree: string)

  /** The summary and the link, sent once the archive is written. */
  function Finish(job: Job, settled: Settled): seq<Step>
  {
    if settled.Resolved? then [LogStep(SettingsLog(job))] + [Send(Link(job.directoryName, DownloadLink(job.directoryName)))] else []
  }

  /** What the `try` block sends after its first log and the crawl. */
  function Body(job: Job, saving: Option<Saving>, settled: Settled): seq<Step>
  {
    match saving
    case None => []
    case Some(v) =>
      LogSteps(v.filterLog) + LogSteps(v.treeLog) + [Send(Directory(v.tree))] + Finish(job, settled)
  }

  /** The `catch` block: one error log for whatever the `try` block threw.
      A worker that crashed never reaches it. */
  function Caught(settled: Settled): seq<Step>
  {
    match settled
    case Rejected(m) => [LogStep(PipelineFailed(m))]
    case _ => []
  }

  function Head(logs: seq<PluginLog>): seq<Step>
  {
    [LogStep(Scraping)] + PluginSteps(logs)
  }

  /** Everything the handler sends, from the first log to the end of the
      process: the `finally` exit, or the crash of an unopenable archive. */
  function Steps(job: Job, logs: seq<PluginLog>, saving: Option<Saving>, settled: Settled): seq<Step>
  {
    Head(logs) + Body(job, saving, settled) + Caught(settled) + [Exit]
  }

  /** The `try` block after the first log, on the disk: what the steps after
      the crawl report, the tree, the mutating calls, and how it ended. */
  datatype Attempt = Attempt(saving: Option<Saving>, root: Node, ops: seq<Op>, settled: Settled)

  function TryBlock(root: Node, job: Job, result: ScrapeResult, outcome: ArchiveOutcome): Attempt
    requires job.downloadDir != []
  {
    match result
    case ScrapeFailed(m) => Attempt(None, root, [], Rejected(m))
    case Saved(site) =>
      var r2 := Prepared(root, job, site);
      ArchivePathShape(job.directoryName);
      var a := Archived(r2, ArchivePath(job.directoryName), outcome);
      var v := Saving(FilterLogOf(root, job, site), TreeLog(r2, job.downloadDir), TreeText(r2, job.downloadDir));
      Attempt(Some(v), a.root, PrepareOps(root, job, site) + a.ops, a.settled)
  }

  datatype Run = Run(steps: seq<Step>, root: Node, ops: seq<Op>)

  /** The whole handler, with `scrape` the crawl and `outcome` the archive stream. */
  function Pipeline(root: Node, job: Job, scrape: Scrape, outcome: ArchiveOutcome): Run
    requires job.downloadDir != []
  {
    var t := TryBlock(root, job, scrape.result, outcome);
    Run(Steps(job, scrape.logs, t.saving, t.settled), t.root, t.ops)
  }

  /** `process.on('message', ...)`, with `scrape` the crawl's outcome and
      `outcome` the archive stream's. */
  method HandleJob(disk: Disk, job: Job, scrape: Scrape, outcome: ArchiveOutcome) returns (steps: seq<Step>)
    requires disk.Valid() && job.downloadDir != []
    requires scrape.result.Saved? ==> UniqueNames(scrape.result.site)
    modifies disk
    ensures disk.Valid()
    ensures var run := Pipeline(old(disk.root), job, scrape, outcome);
      steps == run.steps && disk.root == run.root && disk.ops == old(disk.ops) + run.ops
  {
    ghost var root0, ops0 := disk.root, disk.ops;
    steps := [LogStep(Scraping)];
    steps := steps + PluginSteps(scrape.logs);
    ghost var head := steps;
    var settled: Settled;
    match scrape.result {
      case ScrapeFailed(m) =>
        settled := Rejected(m);
        AppendNil(steps);
        AppendNil(disk.ops);
      case Saved(site) =>
        steps := Prepare(disk, job, site, steps);
        ghost var s1 := steps;
        steps, settled := Publish(disk, job, outcome, steps);
        ghost var r2 := Prepared(root0, job, site);
        ghost var v := Saving(FilterLogOf(root0, job, site), TreeLog(r2, job.downloadDir), TreeText(r2, job.downloadDir));
        ghost var rest := LogSteps(v.treeLog) + [Send(Directory(v.tree))] + Finish(job, settled);
        AppendAssoc(head, LogSteps(v.filterLog), rest);
        assert Body(job, Some(v), settled) == LogSteps(v.filterLog) + rest by {
          AppendAssoc(LogSteps(v.filterLog), LogSteps(v.treeLog), [Send(Directory(v.tree))]);
          AppendAssoc(LogSteps(v.filterLog), LogSteps(v.treeLog) + [Send(Directory(v.tree))], Finish(job, settled));
        }
        ArchivePathShape(job.directoryName);
        AppendAssoc(ops0, PrepareOps(root0, job, site), Archived(r2, ArchivePath(job.directoryName), outcome).ops);
    }
    if settled.Rejected? {
      steps := steps + [LogStep(PipelineFailed(settled.message))];
    } else {
      AppendNil(steps);
    }
    steps := steps + [Exit];
  }

  /** The crawler's save into the workspace, then `filterFiles` when types
      are selected, sending its error log if it has one. */
  method Prepare(disk: Disk, job: Job, site: Node, steps0: seq<Step>) returns (steps: seq<Step>)
    requires disk.Valid() && job.downloadDir != [] && UniqueNames(site)
    modifies disk
    ensures disk.Valid()
    ensures disk.root == Prepared(old(disk.root), job, site)
    ensures disk.ops == old(disk.ops) + PrepareOps(old(disk.root), job, site)
    ensures steps == steps0 + LogSteps(FilterLogOf(old(disk.root), job, site))
  {
    var options := Options(job);
    disk.Populate(options.directory, site);
    steps := steps0;
    if Filters(job) {
      ghost var ops1 := disk.ops;
      var log := FilterFiles(disk, job.downloadDir, job.selectedFileTypes);
      if log.Some? {
        steps := steps + [LogStep(log.value)];
      } else {
        AppendNil(steps);
      }
      AppendAssoc(old(disk.ops), ops1[|old(disk.ops)|..], disk.ops[|ops1|..]);
    } else {
      AppendNil(steps);
      AppendNil(disk.ops);
    }
  }

  /** `getDirectoryTree` and the `treeDirectory` message, `createArchive`,
      then the summary and the link once the archive is written; `settled`
      is how the promise of `createArchive` ended. */
  method Publish(disk: Disk, job: Job, outcome: ArchiveOutcome, steps0: seq<Step>)
    returns (steps: seq<Step>, settled: Settled)
    requires disk.Valid() && job.downloadDir != []
    modifies disk
    ensures disk.Valid()
    ensures ArchivePath(job.directoryName) != []
    ensures var a := Archived(old(disk.root), ArchivePath(job.directoryName), outcome);
      disk.root == a.root && disk.ops == old(disk.ops) + a.ops && settled == a.settled
      && steps == steps0 + (LogSteps(TreeLog(old(disk.root), job.downloadDir))
                            + [Send(Directory(TreeText(old(disk.root), job.downloadDir)))] + Finish(job, a.settled))
  {
    var tree, log := GetDirectoryTree(disk, job.downloadDir);
    steps := steps0;
    if log.Some? {
      steps := steps + [LogStep(log.value)];
    } else {
      AppendNil(steps);
    }
    steps := steps + [Send(Directory(tree))];
    ghost var head := LogSteps(log) + [Send(Directory(tree))];
    AppendAssoc(steps0, LogSteps(log), [Send(Directory(tree))]);
    ghost var s2 := steps;
    assert s2 == steps0 + head;
    var archivePath := ArchivePath(job.directoryName);
    ArchivePathShape(job.directoryName);
    settled := CreateArchive(disk, archivePath, outcome);
    var settings, ready := LogStep(SettingsLog(job)), Send(Link(job.directoryName, DownloadLink(job.directoryName)));
    if settled.Resolved? {
      steps := steps + [settings];
      steps := steps + [ready];
      AppendAssoc(s2, [settings], [ready]);
    } else {
      AppendNil(steps);
    }
    assert steps == s2 + Finish(job, settled);
    AppendAssoc(steps0, head, Finish(job, settled));
  }

  // ---------------------------------------------------------------------
  // Order of what the worker sends

  datatype Kind = LogKind | DirectoryKind | LinkKind | ExitKind

  function KindOf(s: Step): Kind
  {
    match s
    case Exit => ExitKind
    case Send(Directory(_)) => DirectoryKind
    case Send(Link(_, _)) => LinkKind
    case Send(_) => LogKind
  }

  /** How many steps of `ss` are of kind `k`. */
  function Count(ss: seq<Step>, k: Kind): nat
  {
    if ss == [] then 0
    else Count(ss[..|ss| - 1], k) + if KindOf(ss[|ss| - 1]) == k then 1 else 0
  }

  lemma {:induction false} CountAppend(a: seq<Step>, b: seq<Step>, k: Kind)
    ensures Count(a + b, k) == Count(a, k) + Count(b, k)
    decreases |b|
  {
    if b == [] {
      assert a + b == a;
    } else {
      var init := b[..|b| - 1];
      SplitLast(a, b);
      CountAppend(a, init, k);
    }
  }

  lemma CountOne(s: Step, k: Kind)
    ensures Count([s], k) == if KindOf(s) == k then 1 else 0
  {
    assert [s][..0] == [];
  }

  /** The crawler plugin's messages are all logs. */
  lemma {:induction false} CountPlugin(ls: seq<PluginLog>, k: Kind)
    ensures Count(PluginSteps(ls), k) == if k == LogKind then |ls| else 0
    decreases |ls|
  {
    if ls != [] {
      var r := PluginSteps(ls);
      assert r[..|r| - 1] == PluginSteps(ls[..|ls| - 1]);
      CountPlugin(ls[..|ls| - 1], k);
    }
  }

  lemma CountLogs(l: Option<WorkerLog>, k: Kind)
    ensures Count(LogSteps(l), k) == if k == LogKind && l.Some? then 1 else 0
  {
    if l.Some? {
      CountOne(LogStep(l.value), k);
    }
  }

  /** Only the crawl can fail before anything is saved. */
  predicate Coherent(saving: Option<Saving>, settled: Settled)
  {
    saving.None? ==> settled.Rejected?
  }

  lemma BodyCounts(job: Job, saving: Option<Saving>, settled: Settled, k: Kind)
    requires k != LogKind && Coherent(saving, settled)
    ensures Count(Body(job, saving, settled), k)
      == if k == DirectoryKind then (if saving.Some? then 1 else 0)
         else if k == LinkKind then (if settled.Resolved? then 1 else 0)
         else 0
  {
    match saving
    case None =>
    case Some(v) =>
      var dir := [Send(Directory(v.tree))];
      CountLogs(v.filterLog, k);
      CountLogs(v.treeLog, k);
      CountOne(dir[0], k);
      assert Count(Finish(job, settled), k) == if k == LinkKind && settled.Resolved? then 1 else 0 by {
        if settled.Resolved? {
          var s, l := LogStep(SettingsLog(job)), Send(Link(job.directoryName, DownloadLink(job.directoryName)));
          CountAppend([s], [l], k);
          CountOne(s, k);
          CountOne(l, k);
        }
      }
      CountAppend(LogSteps(v.filterLog), LogSteps(v.treeLog), k);
      CountAppend(LogSteps(v.filterLog) + LogSteps(v.treeLog), dir, k);
      CountAppend(LogSteps(v.filterLog) + LogSteps(v.treeLog) + dir, Finish(job, settled), k);
  }

  lemma HeadCounts(logs: seq<PluginLog>, k: Kind)
    requires k != LogKind
    ensures Count(Head(logs), k) == 0
  {
    CountOne(LogStep(Scraping), k);
    CountPlugin(logs, k);
    CountAppend([LogStep(Scraping)], PluginSteps(logs), k);
  }

  lemma EndCounts(settled: Settled, k: Kind)
    requires k != LogKind
    ensures Count(Caught(settled) + [Exit], k) == if k == ExitKind then 1 else 0
  {
    if settled.Rejected? {
      CountOne(LogStep(PipelineFailed(settled.message)), k);
    }
    CountOne(Exit, k);
    CountAppend(Caught(settled), [Exit], k);
  }

  /** The handler's steps: what it sent before and during the crawl, the
      rest of the `try` block, and the end. */
  lemma StepsParts(job: Job, logs: seq<PluginLog>, saving: Option<Saving>, settled: Settled)
    ensures Steps(job, logs, saving, settled)
      == Head(logs) + (Body(job, saving, settled) + (Caught(settled) + [Exit]))
    ensures var s := Steps(job, logs, saving, settled); s != [] && s[|s| - 1] == Exit
  {
    var h, b, c := Head(logs), Body(job, saving, settled), Caught(settled);
    AppendAssoc(h + b, c, [Exit]);
    AppendAssoc(h, b, c + [Exit]);
  }

  /** The worker exits exactly once, as its last step; it sends exactly one
      tree when the crawl saved the site and none otherwise, and exactly one
      download link when the whole `try` block succeeded and none otherwise. */
  lemma StepsCounts(job: Job, logs: seq<PluginLog>, saving: Option<Saving>, settled: Settled, k: Kind)
    requires k != LogKind && Coherent(saving, settled)
    ensures var s := Steps(job, logs, saving, settled);
      s != [] && s[|s| - 1] == Exit
      && Count(s, k) == if k == ExitKind then 1
                        else if k == DirectoryKind then (if saving.Some? then 1 else 0)
                        else if settled.Resolved? then 1 else 0
  {
    var h, b, e := Head(logs), Body(job, saving, settled), Caught(settled) + [Exit];
    StepsParts(job, logs, saving, settled);
    HeadCounts(logs, k);
    BodyCounts(job, saving, settled, k);
    EndCounts(settled, k);
    CountAppend(b, e, k);
    CountAppend(h, b + e, k);
  }

  /** The scraping log is the first step, followed by the plugin's logs in
      the order the crawler reported them. */
  lemma StepsStart(job: Job, logs: seq<PluginLog>, saving: Option<Saving>, settled: Settled)
    ensures var s := Steps(job, logs, saving, settled);
      |s| >= 2 + |logs| && s[0] == LogStep(Scraping)
      && forall i :: 0 <= i < |logs| ==> s[1 + i] == Send(Plugin(logs[i]))
  {
    var rest := Body(job, saving, settled) + (Caught(settled) + [Exit]);
    StepsParts(job, logs, saving, settled);
    AppendAssoc([LogStep(Scraping)], PluginSteps(logs), rest);
  }

  /** After a complete `try` block the last four steps are the tree, the
      settings summary (the job's values as given, not the defaulted depth),
      the link `projects/<directoryName>.zip`, and the exit. */
  lemma StepsSucceed(job: Job, logs: seq<PluginLog>, saving: Option<Saving>)
    requires saving.Some?
    ensures var s := Steps(job, logs, saving, Resolved);
      |s| >= 5
      && s[|s| - 4..] == [Send(Directory(saving.value.tree)),
                          LogStep(Settings(job.maxDepth, job.maxRecursive, job.recursive)),
                          Send(Link(job.directoryName, "projects/" + job.directoryName + ".zip")),
                          Exit]
  {
    var v := saving.value;
    var pre := Head(logs) + (LogSteps(v.filterLog) + LogSteps(v.treeLog));
    var tail := [Send(Directory(v.tree)), LogStep(SettingsLog(job)), Send(Link(job.directoryName, DownloadLink(job.directoryName))), Exit];
    var body := Body(job, saving, Resolved);
    assert body == (LogSteps(v.filterLog) + LogSteps(v.treeLog)) + tail[..3];
    AppendAssoc(Head(logs), LogSteps(v.filterLog) + LogSteps(v.treeLog), tail[..3]);
    AppendNil(Head(logs) + body);
    assert Steps(job, logs, saving, Resolved) == pre + tail[..3] + [tail[3]];
    AppendAssoc(pre, tail[..3], [tail[3]]);
    assert tail[..3] + [tail[3]] == tail;
  }

  /** After a throw the next-to-last step is the one error log with what was
      thrown, after the tree when the crawl had saved the site, and right
      after the plugin's logs when the crawl itself rejected. */
  lemma StepsFail(job: Job, logs: seq<PluginLog>, saving: Option<Saving>, m: string)
    ensures var s := Steps(job, logs, saving, Rejected(m));
      |s| >= 3 && s[|s| - 2] == LogStep(PipelineFailed(m)) && s[|s| - 1] == Exit
      && (saving.None? ==> |s| == 3 + |logs|)
      && (saving.Some? ==> s[|s| - 3] == Send(Directory(saving.value.tree)))
  {
    var tail := [LogStep(PipelineFailed(m)), Exit];
    var body := Body(job, saving, Rejected(m));
    AppendAssoc(Head(logs) + body, [tail[0]], [tail[1]]);
    assert [tail[0]] + [tail[1]] == tail;
    assert Steps(job, logs, saving, Rejected(m)) == Head(logs) + body + tail;
    if saving.Some? {
      var v := saving.value;
      var pre := Head(logs) + (LogSteps(v.filterLog) + LogSteps(v.treeLog));
      assert body == (LogSteps(v.filterLog) + LogSteps(v.treeLog)) + [Send(Directory(v.tree))];
      AppendAssoc(Head(logs), LogSteps(v.filterLog) + LogSteps(v.treeLog), [Send(Directory(v.tree))]);
    }
  }

  /** A crash of the worker ends the steps right after the tree: no error
      log and no link. */
  lemma StepsDie(job: Job, logs: seq<PluginLog>, saving: Option<Saving>)
    requires saving.Some?
    ensures var s := Steps(job, logs, saving, Crashed);
      |s| >= 2 && s[|s| - 2] == Send(Directory(saving.value.tree)) && s[|s| - 1] == Exit
  {
    var v := saving.value;
    var pre := Head(logs) + (LogSteps(v.filterLog) + LogSteps(v.treeLog));
    var body := Body(job, saving, Crashed);
    assert body == (LogSteps(v.filterLog) + LogSteps(v.treeLog)) + [Send(Directory(v.tree))];
    AppendAssoc(Head(logs), LogSteps(v.filterLog) + LogSteps(v.treeLog), [Send(Directory(v.tree))]);
    AppendNil(Head(logs) + body);
    assert Steps(job, logs, saving, Crashed) == pre + [Send(Directory(v.tree))] + [Exit];
  }

  // ---------------------------------------------------------------------
  // The handler's outcome

  /** Whether the `try` block ran to its end: the crawl saved the site and
      the archive was written. */
  predicate Succeeds(root: Node, job: Job, scrape: Scrape, outcome: ArchiveOutcome)
    requires job.downloadDir != []
  {
    TryBlock(root, job, scrape.result, outcome).settled.Resolved?
  }

  /** A crawl that rejects ends the `try` block with nothing saved and the
      disk as it was. */
  lemma TryBlockRejected(root: Node, job: Job, result: ScrapeResult, outcome: ArchiveOutcome)
    requires job.downloadDir != [] && result.ScrapeFailed?
    ensures var t := TryBlock(root, job, result, outcome);
      t.saving.None? && t.settled == Rejected(result.message) && t.root == root && t.ops == []
  {
  }

  /** After a saved crawl the `try` block reports the filter's log (only
      when types are selected), the tree of the pruned workspace, and the
      archive's error. */
  lemma TryBlockSaved(root: Node, job: Job, site: Node, outcome: ArchiveOutcome)
    requires job.downloadDir != []
    ensures var t := TryBlock(root, job, Saved(site), outcome);
      var r2 := Prepared(root, job, site);
      var a := Archived(r2, ArchivePath(job.directoryName), outcome);
      t.saving.Some? && t.settled == a.settled && t.root == a.root
      && t.ops == PrepareOps(root, job, site) + a.ops
      && t.saving.value.tree == TreeText(r2, job.downloadDir)
      && t.saving.value.filterLog == FilterLogOf(root, job, site)
  {
    ArchivePathShape(job.directoryName);
  }

  /** Exactly one exit, last; one tree iff the crawl saved the site; one
      link iff the `try` block succeeded. */
  lemma PipelineCounts(root: Node, job: Job, scrape: Scrape, outcome: ArchiveOutcome, k: Kind)
    requires job.downloadDir != [] && k != LogKind
    ensures var s := Pipeline(root, job, scrape, outcome).steps;
      s != [] && s[|s| - 1] == Exit
      && Count(s, k) == if k == ExitKind then 1
                        else if k == DirectoryKind then (if scrape.result.Saved? then 1 else 0)
                        else if Succeeds(root, job, scrape, outcome) then 1 else 0
  {
    var t := TryBlock(root, job, scrape.result, outcome);
    assert Coherent(t.saving, t.settled) && (t.saving.Some? <==> scrape.result.Saved?);
    StepsCounts(job, scrape.logs, t.saving, t.settled, k);
  }

  lemma PipelineStarts(root: Node, job: Job, scrape: Scrape, outcome: ArchiveOutcome)
    requires job.downloadDir != []
    ensures var s := Pipeline(root, job, scrape, outcome).steps;
      |s| >= 2 + |scrape.logs| && s[0] == LogStep(Scraping)
      && forall i :: 0 <= i < |scrape.logs| ==> s[1 + i] == Send(Plugin(scrape.logs[i]))
  {
    var t := TryBlock(root, job, scrape.result, outcome);
    StepsStart(job, scrape.logs, t.saving, t.settled);
  }

  /** On success the worker ends with the pruned workspace's tree, the
      settings, the link and the exit. */
  lemma PipelineSucceeds(root: Node, job: Job, logs: seq<PluginLog>, site: Node, outcome: ArchiveOutcome)
    requires job.downloadDir != [] && Succeeds(root, job, Scrape(logs, Saved(site)), outcome)
    ensures var s := Pipeline(root, job, Scrape(logs, Saved(site)), outcome).steps;
      |s| >= 5
      && s[|s| - 4..] == [Send(Directory(TreeText(Prepared(root, job, site), job.downloadDir))),
                          LogStep(Settings(job.maxDepth, job.maxRecursive, job.recursive)),
                          Send(Link(job.directoryName, "projects/" + job.directoryName + ".zip")),
                          Exit]
  {
    var t := TryBlock(root, job, Saved(site), outcome);
    TryBlockSaved(root, job, site, outcome);
    StepsSucceed(job, logs, t.saving);
  }

  /** A rejected crawl: the scraping log, the plugin's logs, the error log
      with the rejection, the exit, and the disk untouched. */
  lemma PipelineRejected(root: Node, job: Job, scrape: Scrape, outcome: ArchiveOutcome)
    requires job.downloadDir != [] && scrape.result.ScrapeFailed?
    ensures var run := Pipeline(root, job, scrape, outcome);
      var s := run.steps;
      |s| == 3 + |scrape.logs| && s[|s| - 2] == LogStep(PipelineFailed(scrape.result.message))
      && s[|s| - 1] == Exit && run.root == root && run.ops == []
  {
    TryBlockRejected(root, job, scrape.result, outcome);
    StepsFail(job, scrape.logs, None, scrape.result.message);
  }

  /** An archive whose stream reports an error: the tree was sent, then the
      error log with the archive's error, then the exit. */
  lemma PipelineArchiveRejected(root: Node, job: Job, site: Node, logs: seq<PluginLog>, outcome: ArchiveOutcome)
    requires job.downloadDir != []
    requires Archived(Prepared(root, job, site), ArchivePath(job.directoryName), outcome).settled.Rejected?
    ensures var s := Pipeline(root, job, Scrape(logs, Saved(site)), outcome).steps;
      var r2 := Prepared(root, job, site);
      var a := Archived(r2, ArchivePath(job.directoryName), outcome);
      |s| >= 3
      && s[|s| - 3] == Send(Directory(TreeText(r2, job.downloadDir)))
      && s[|s| - 2] == LogStep(PipelineFailed(a.settled.message)) && s[|s| - 1] == Exit
  {
    var t := TryBlock(root, job, Saved(site), outcome);
    TryBlockSaved(root, job, site, outcome);
    StepsFail(job, logs, t.saving, t.settled.message);
  }

  /** An archive that cannot be opened: the worker dies right after the
      tree, with no error log and no link. */
  lemma PipelineArchiveCrashes(root: Node, job: Job, site: Node, logs: seq<PluginLog>, outcome: ArchiveOutcome)
    requires job.downloadDir != []
    requires Archived(Prepared(root, job, site), ArchivePath(job.directoryName), outcome).settled.Crashed?
    ensures var s := Pipeline(root, job, Scrape(logs, Saved(site)), outcome).steps;
      |s| >= 2
      && s[|s| - 2] == Send(Directory(TreeText(Prepared(root, job, site), job.downloadDir))) && s[|s| - 1] == Exit
  {
    var t := TryBlock(root, job, Saved(site), outcome);
    TryBlockSaved(root, job, site, outcome);
    StepsDie(job, logs, t.saving);
  }

  /** A log of mutating calls none of which is an `unlink` or `rmdir`. */
  predicate OnlyCreates(ops: seq<Op>)
  {
    forall i :: 0 <= i < |ops| ==> ops[i].Populate? || ops[i].MakeDirs? || ops[i].WriteFile?
  }

  lemma OnlyCreatesAppend(a: seq<Op>, b: seq<Op>)
    requires OnlyCreates(a) && OnlyCreates(b)
    ensures OnlyCreates(a + b)
  {
  }

  /** The operations `createArchive` makes: the directory and the file. */
  lemma ArchivedOps(root: Node, archivePath: Path, outcome: ArchiveOutcome)
    requires archivePath != []
    ensures OnlyCreates(Archived(root, archivePath, outcome).ops)
  {
  }

  /** With no type selected nothing is unlinked: the only mutating calls are
      the crawler's save and the archive's directory and file. */
  lemma PipelineNoTypes(root: Node, job: Job, scrape: Scrape, outcome: ArchiveOutcome)
    requires job.downloadDir != [] && job.selectedFileTypes == []
    ensures OnlyCreates(Pipeline(root, job, scrape, outcome).ops)
  {
    match scrape.result
    case ScrapeFailed(_) =>
      TryBlockRejected(root, job, scrape.result, outcome);
    case Saved(site) =>
      TryBlockSaved(root, job, site, outcome);
      ArchivePathShape(job.directoryName);
      var a := Archived(Prepared(root, job, site), ArchivePath(job.directoryName), outcome);
      ArchivedOps(Prepared(root, job, site), ArchivePath(job.directoryName), outcome);
      AppendNil(PopulateOps(root, job.downloadDir));
      OnlyCreatesAppend(PopulateOps(root, job.downloadDir), a.ops);
  }
}
