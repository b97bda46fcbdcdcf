/**
  The socket handlers of the server (index.mjs): one slot for the running
  worker (`scrapingProcess`), the `isCancelled` flag, and the handlers for
  `startDownload`, `cancelDownload` and the worker's `message`, `error` and
  `exit` events. Every handler appends what it does to `emitted`: events sent
  to a browser socket, and the fork, job send and kill of a worker.
 */
module Supervision {
  import opened Wrappers
  import opened Tree
  import opened FileSystem
  import opened Messages
  import ServerFs
  import SizeFormat

  /** What a worker's handlers captured when `startDownload` attached them. */
  datatype Listener = Listener(socket: SocketId, directoryName: string, downloadDir: Path)

  datatype Event =
    | Emit(socket: SocketId, event: ClientEvent)
    | Fork(worker: WorkerId)
    | SendJob(worker: WorkerId, job: Job)
    | Kill(worker: WorkerId)

  /** The job object a valid request is forwarded as. */
  function JobFor(req: Request): Job
  {
    Job(req.websiteUrl, req.directoryName, req.selectedFileTypes, req.maxDepth,
        req.maxRecursive, req.recursive, Workspace(req.directoryName))
  }

  /** Both `websiteUrl` and `directoryName` must be non-empty. */
  predicate Accepted(req: Request)
  {
    req.websiteUrl != "" && req.directoryName != ""
  }

  /** What `startDownload` emits for an accepted request: the start notice,
      the warning when the workspace already exists, then either the fork and
      the job or the fork failure. */
  function StartEvents(socket: SocketId, req: Request, existed: bool, forkError: Option<string>, w: WorkerId): seq<Event>
  {
    [Emit(socket, LogEvent(Starting))]
    + (if existed then [Emit(socket, LogEvent(AlreadyExists(req.directoryName)))] else [])
    + match forkError
      case Some(m) => [Emit(socket, LogEvent(ForkFailed(m)))]
      case None => [Fork(w), SendJob(w, JobFor(req))]
  }

  /** What the `message` handler of a worker emits for one message; a tree
      message is answered with the counts of the worker's workspace in `root`. */
  function MessageEvents(l: Listener, msg: WorkerMsg, root: Node): seq<Event>
  {
    match msg
    case Log(p) => [Emit(l.socket, LogEvent(Relayed(p)))]
    case DownloadReady(_, _) => [Emit(l.socket, ReadyEvent(DownloadUrl(l.directoryName)))]
    case TreeDirectory(t) =>
      var items := Listing(root, l.downloadDir);
      [ Emit(l.socket, LogEvent(Done)),
        Emit(l.socket, LogEvent(TreeHeader(l.directoryName))),
        Emit(l.socket, LogEvent(TreeBody(t))),
        Emit(l.socket, LogEvent(Counts(ServerFs.DirCount(items), ServerFs.FileCount(items),
                                  SizeFormat.FormatSize(ServerFs.FileBytes(items))))) ]
  }

  /** The events of `startDownload` appended one group at a time. */
  lemma StartEventsGrouped(e0: seq<Event>, socket: SocketId, req: Request, existed: bool, forkError: Option<string>, w: WorkerId)
    ensures var start := [Emit(socket, LogEvent(Starting))];
      var warn := if existed then [Emit(socket, LogEvent(AlreadyExists(req.directoryName)))] else [];
      var tail := match forkError
        case Some(m) => [Emit(socket, LogEvent(ForkFailed(m)))]
        case None => [Fork(w), SendJob(w, JobFor(req))];
      ((e0 + start) + warn) + tail == e0 + StartEvents(socket, req, existed, forkError, w)
  {
    var start := [Emit(socket, LogEvent(Starting))];
    var warn := if existed then [Emit(socket, LogEvent(AlreadyExists(req.directoryName)))] else [];
    var tail := match forkError
      case Some(m) => [Emit(socket, LogEvent(ForkFailed(m)))]
      case None => [Fork(w), SendJob(w, JobFor(req))];
    AppendAssoc(e0, start, warn);
    AppendAssoc(e0, start + warn, tail);
  }

  class Supervisor {
    const disk: Disk
    var scrapingProcess: Option<WorkerId>
    var isCancelled: bool
    var emitted: seq<Event>
    /** The handlers attached to each forked worker. */
    var listeners: map<WorkerId, Listener>
    /** The identity the next fork gives its worker. */
    var nextWorker: WorkerId

    ghost predicate Valid()
      reads this, disk
    {
      disk.Valid()
      && (forall w :: w in listeners ==> w < nextWorker)
      && (scrapingProcess.Some? ==> scrapingProcess.value in listeners)
    }

    constructor (d: Disk)
      requires d.Valid()
      ensures Valid() && disk == d
      ensures scrapingProcess == None && !isCancelled && emitted == [] && listeners == map[] && nextWorker == 0
    {
      disk := d;
      scrapingProcess := None;
      isCancelled := false;
      emitted := [];
      listeners := map[];
      nextWorker := 0;
    }

    /** `socket.on('startDownload')`. A request without a URL or a directory
        name gets one error and changes nothing else. Otherwise an existing
        workspace is deleted, `isCancelled` is cleared and a worker is forked
        and sent the job; the slot then holds the new worker whether or not
        another one was running. `forkError` is the exception `fork` throws,
        if any. */
    method StartDownload(socket: SocketId, req: Request, forkError: Option<string>)
      requires Valid()
      modifies this, disk
      ensures Valid()
      ensures !Accepted(req) ==>
        emitted == old(emitted) + [Emit(socket, LogEvent(Required))]
        && scrapingProcess == old(scrapingProcess) && isCancelled == old(isCancelled)
        && listeners == old(listeners) && nextWorker == old(nextWorker)
        && disk.root == old(disk.root) && disk.ops == old(disk.ops)
      ensures Accepted(req) ==>
        var ws := Workspace(req.directoryName);
        var w := old(nextWorker);
        disk.root == ServerFs.Deleted(old(disk.root), ws)
        && disk.ops == old(disk.ops) + ServerFs.Deletion(old(disk.root), ws)
        && emitted == old(emitted) + StartEvents(socket, req, At(old(disk.root), ws).Some?, forkError, w)
        && !isCancelled
        && (forkError.None? ==>
              scrapingProcess == Some(w) && nextWorker == w + 1
              && listeners == old(listeners)[w := Listener(socket, req.directoryName, ws)])
        && (forkError.Some? ==>
              scrapingProcess == old(scrapingProcess) && nextWorker == w && listeners == old(listeners))
    {
      if req.websiteUrl == "" || req.directoryName == "" {
        emitted := emitted + [Emit(socket, LogEvent(Required))];
        return;
      }
      ghost var e0 := emitted;
      emitted := emitted + [Emit(socket, LogEvent(Starting))];
      var ws := Workspace(req.directoryName);
      var existed := disk.Get(ws).Some?;
      if existed {
        emitted := emitted + [Emit(socket, LogEvent(AlreadyExists(req.directoryName)))];
        ServerFs.DeleteDirectory(disk, ws);
      } else {
        AppendNil(emitted);
      }
      ghost var e1 := emitted;
      isCancelled := false;
      match forkError {
      case Some(m) =>
        emitted := emitted + [Emit(socket, LogEvent(ForkFailed(m)))];
      case None =>
        var w := nextWorker;
        nextWorker := nextWorker + 1;
        scrapingProcess := Some(w);
        emitted := emitted + [Fork(w), SendJob(w, JobFor(req))];
        listeners := listeners[w := Listener(socket, req.directoryName, ws)];
      }
      StartEventsGrouped(e0, socket, req, existed, forkError, old(nextWorker));
    }

    /** `socket.on('cancelDownload')`: with no worker in the slot nothing
        happens; otherwise the flag is set, the worker killed and one cancel
        notice sent to the requesting socket. The slot keeps the worker until
        it exits. */
    method CancelDownload(socket: SocketId)
      requires Valid()
      modifies this
      ensures Valid()
      ensures scrapingProcess == old(scrapingProcess) && listeners == old(listeners) && nextWorker == old(nextWorker)
      ensures old(scrapingProcess).None? ==> isCancelled == old(isCancelled) && emitted == old(emitted)
      ensures old(scrapingProcess).Some? ==>
        isCancelled && emitted == old(emitted) + [Kill(old(scrapingProcess).value), Emit(socket, LogEvent(Cancelled))]
    {
      if scrapingProcess.Some? {
        isCancelled := true;
        emitted := emitted + [Kill(scrapingProcess.value), Emit(socket, LogEvent(Cancelled))];
      }
    }

    /** The `message` handler attached to worker `w`: its notices go to the
        socket that started `w`, whatever the slot holds now. */
    method OnMessage(w: WorkerId, msg: WorkerMsg)
      requires Valid() && w in listeners
      modifies this
      ensures Valid()
      ensures scrapingProcess == old(scrapingProcess) && isCancelled == old(isCancelled)
      ensures listeners == old(listeners) && nextWorker == old(nextWorker)
      ensures emitted == old(emitted) + MessageEvents(listeners[w], msg, disk.root)
    {
      var l := listeners[w];
      match msg
      case Log(p) =>
        emitted := emitted + [Emit(l.socket, LogEvent(Relayed(p)))];
      case DownloadReady(_, _) =>
        emitted := emitted + [Emit(l.socket, ReadyEvent(DownloadUrl(l.directoryName)))];
      case TreeDirectory(t) =>
        var fileCount, dirCount, totalSize := ServerFs.CountFilesAndDirectories(disk, l.downloadDir);
        emitted := emitted + [
          Emit(l.socket, LogEvent(Done)),
          Emit(l.socket, LogEvent(TreeHeader(l.directoryName))),
          Emit(l.socket, LogEvent(TreeBody(t))),
          Emit(l.socket, LogEvent(Counts(dirCount, fileCount, totalSize)))];
    }

    /** The `error` handler of worker `w`: one error notice, and the slot is
        emptied. */
    method OnError(w: WorkerId, message: string)
      requires Valid() && w in listeners
      modifies this
      ensures Valid()
      ensures scrapingProcess == None && isCancelled == old(isCancelled)
      ensures listeners == old(listeners) && nextWorker == old(nextWorker)
      ensures emitted == old(emitted) + [Emit(listeners[w].socket, LogEvent(ProcessError(message)))]
    {
      emitted := emitted + [Emit(listeners[w].socket, LogEvent(ProcessError(message)))];
      scrapingProcess := None;
    }

    /** The `exit` handler of worker `w`: the closing notice unless the
        download was cancelled, and the slot is emptied, even when it holds a
        newer worker. */
    method OnExit(w: WorkerId)
      requires Valid() && w in listeners
      modifies this
      ensures Valid()
      ensures scrapingProcess == None && isCancelled == old(isCancelled)
      ensures listeners == old(listeners) && nextWorker == old(nextWorker)
      ensures emitted == old(emitted) + if old(isCancelled) then [] else [Emit(listeners[w].socket, LogEvent(Enjoy))]
    {
      if !isCancelled {
        emitted := emitted + [Emit(listeners[w].socket, LogEvent(Enjoy))];
      }
      scrapingProcess := None;
    }
  }

  /** A cancelled worker's exit sends no closing notice and empties the slot. */
  method CancelThenExit(s: Supervisor, socket: SocketId)
    requires s.Valid() && s.scrapingProcess.Some?
    modifies s
    ensures s.Valid() && s.scrapingProcess == None && s.isCancelled
    ensures s.emitted == old(s.emitted) + [Kill(old(s.scrapingProcess).value), Emit(socket, LogEvent(Cancelled))]
  {
    var w := s.scrapingProcess.value;
    s.CancelDownload(socket);
    s.OnExit(w);
  }

  /** With no already-running check, a second start replaces the running
      worker in the slot; when the first worker then exits, the slot is
      emptied although the second one is still running. */
  method StartOverRunning(s: Supervisor, socket: SocketId, req: Request)
    requires s.Valid() && s.scrapingProcess.Some? && Accepted(req)
    modifies s, s.disk
    ensures s.Valid() && s.scrapingProcess == None
    ensures old(s.nextWorker) in s.listeners && old(s.scrapingProcess).value in s.listeners
    ensures old(s.scrapingProcess).value != old(s.nextWorker)
  {
    var first := s.scrapingProcess.value;
    s.StartDownload(socket, req, None);
    assert s.scrapingProcess == Some(old(s.nextWorker));
    s.OnExit(first);
  }
}
