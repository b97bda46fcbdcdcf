/**
  What the three parties say to each other: the `startDownload` request the
  browser sends, the job the server forwards to the worker, the messages the
  worker sends back over IPC, and the events the server emits on the socket,
  with the exact text of every log line.
 */
module Messages {
  import opened Wrappers
  import opened Tree
  import SizeFormat

  type SocketId = nat
  type WorkerId = nat

  /** The checkbox values the browser puts in `selectedFileTypes`. */
  datatype Category = Html | Css | Js | Images | Media

  /** The fields of a `startDownload` payload. */
  datatype Request = Request(
    websiteUrl: string,
    directoryName: string,
    selectedFileTypes: seq<Category>,
    maxDepth: int,
    maxRecursive: int,
    recursive: bool)

  /** The object sent to the forked worker: the request and its workspace. */
  datatype Job = Job(
    websiteUrl: string,
    directoryName: string,
    selectedFileTypes: seq<Category>,
    maxDepth: int,
    maxRecursive: int,
    recursive: bool,
    downloadDir: Path)

  /** `path.join(__dirname, 'projects', directoryName)`, relative to the application directory. */
  function Workspace(directoryName: string): Path
  {
    ["projects", directoryName]
  }

  /** The browser-side link to a finished archive. */
  function DownloadUrl(directoryName: string): string
  {
    "/projects/" + directoryName + ".zip"
  }

  // ---------------------------------------------------------------------
  // Filesystem errors the program logs

  datatype Errno = ENOENT | ENOTDIR

  /** A failed `readdir` of a path. */
  datatype FsError = FsError(code: Errno, path: Path)

  function PathText(p: Path): string
  {
    if p == [] then "" else if |p| == 1 then p[0] else p[0] + "/" + PathText(p[1..])
  }

  /** Node's `err.message` for a failed `scandir`, with the path relative to
      the application directory. */
  function ErrorMessage(e: FsError): string
  {
    match e.code
    case ENOENT => "ENOENT: no such file or directory, scandir '" + PathText(e.path) + "'"
    case ENOTDIR => "ENOTDIR: not a directory, scandir '" + PathText(e.path) + "'"
  }

  /** `readdir` of `p`: the error it raises, if any. */
  function ReaddirError(root: Node, p: Path): Option<FsError>
  {
    match At(root, p)
    case None => Some(FsError(ENOENT, p))
    case Some(File(_)) => Some(FsError(ENOTDIR, p))
    case Some(Dir(_, _)) => None
  }

  // ---------------------------------------------------------------------
  // Worker to server

  /** `process.send(...)`: `{type: 'log'}`, `{type: 'treeDirectory'}` or `{type: 'downloadReady'}`. */
  datatype WorkerMsg =
    | Log(payload: string)
    | TreeDirectory(tree: string)
    | DownloadReady(directoryName: string, downloadLink: string)

  /** `${n}` of an integer. */
  function IntText(n: int): string
  {
    if n < 0 then "-" + SizeFormat.NatToString(-n) else SizeFormat.NatToString(n)
  }

  function BoolText(b: bool): string
  {
    if b then "true" else "false"
  }

  /** The log payloads the worker itself writes. */
  datatype WorkerLog =
    | Scraping
    | TreeFailed(message: string)
    | FilterFailed(message: string)
    | Settings(maxDepth: int, maxRecursive: int, recursive: bool)
    | PipelineFailed(message: string)

  function Payload(l: WorkerLog): string
  {
    match l
    case Scraping =>
      "<span style=\"color: mediumspringgreen;\">[Scraping]</span> Website scraping in progress..."
    case TreeFailed(m) =>
      "<span style=\"color: red;\">[Error]</span> Failed to get directory tree: " + m
    case FilterFailed(m) =>
      "<span style=\"color: red;\">[Error]</span> Failed to filter files: " + m
    case Settings(d, r, rec) =>
      "- Max Depth: <span style=\"color: #00fa3b;\"><b>" + IntText(d)
      + "</b></span>, MaxRecursive: <span style=\"color: #00fa3b;\"><b>" + IntText(r)
      + "</b></span>, Recursive: <span style=\"color: " + (if rec then "#00fa3b" else "#FF0000")
      + ";\"><b>" + BoolText(rec) + "</b></span>"
    case PipelineFailed(m) =>
      "<span style=\"color: red;\">[Error]</span> An error occurred during scraping: " + m
      + ". Please check the logs for more details."
  }

  // ---------------------------------------------------------------------
  // Server to browser

  /** The `log` events the server emits, by meaning. */
  datatype Notice =
    | Required
    | Starting
    | AlreadyExists(directoryName: string)
    | Relayed(payload: string)
    | Done
    | TreeHeader(directoryName: string)
    | TreeBody(tree: string)
    | Counts(dirCount: nat, fileCount: nat, totalSize: string)
    | ProcessError(message: string)
    | Enjoy
    | ForkFailed(message: string)
    | Cancelled

  /** `socket.emit('log', ...)` or `socket.emit('downloadReady', url)`. */
  datatype ClientEvent = LogEvent(notice: Notice) | ReadyEvent(url: string)

  /** The `message` field of a `log` event. */
  function Text(n: Notice): string
  {
    match n
    case Required =>
      "<span style=\"color: red;\">[Error]</span> URL and Directory Name are required."
    case Starting =>
      "Starting download...\n\n<span style=\"color: yellow;\">[Attention]</span> This process may take time, Please wait."
    case AlreadyExists(name) =>
      "<span style=\"color: yellow;\">[Warning]</span> Directory \"" + name + "\" already exists. Deleting..."
    case Relayed(p) => p
    case Done =>
      "<span style=\"color: mediumspringgreen;\">[Done]</span> The website has been downloaded successfully!"
    case TreeHeader(name) =>
      "<span style=\"color: #00fa3b;\">\n$</span> <span style=\"color: white;\">Directory Tree:</span> <u>" + name + "</u>"
    case TreeBody(t) => "<pre>" + t + "</pre>"
    case Counts(d, f, s) =>
      "- Directories: <span style=\"color: #00fa3b;\"><b>" + SizeFormat.NatToString(d)
      + "</b></span>, Files: <span style=\"color: #00fa3b;\"><b>" + SizeFormat.NatToString(f)
      + "</b></span>, Total Size: <mark style=\"background-color: #5facf8;\"><span style=\"color: black;\"><b>"
      + s + "</b></span></mark>"
    case ProcessError(m) =>
      "<span style=\"color: red;\">[Error]</span> Scraping process encountered an error: " + m
    case Enjoy =>
      "<span style=\"color: purple;\">$</span> <span style=\"color: white;\">Enjoy Your Day :)</span>"
    case ForkFailed(m) =>
      "<span style=\"color: red;\">[Error]</span> Failed to start scraping process: " + m
    case Cancelled =>
      "<span style=\"color: red;\">[Cancel]</span> Download cancellation initiated by user."
  }
}
