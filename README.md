# WebCloner, modelled in Dafny

WebCloner is a two-process website downloader.

- **The server** (`index.mjs`) receives `startDownload` and `cancelDownload` requests from a browser socket. It keeps one slot for the running worker (`scrapingProcess`) and an `isCancelled` flag. It clears an old workspace `projects/<directoryName>` by deleting it recursively. It then forks a worker and relays the worker's messages back to the socket. When the worker sends its directory tree, the server adds the number of directories and files in the workspace and their total size.
- **The worker** (`scripts/scraperProcess.js`) receives one job and runs this pipeline:
  1. It crawls the site into the workspace.
  2. When file types are selected, it deletes the files of those types.
  3. It renders the workspace as an indented tree with sizes.
  4. It zips the workspace into `projects/<directoryName>.zip`.
  5. It reports the settings and the download link.
  6. It exits, whatever happened before.

The model has these modules:

| module | file | what it holds |
|---|---|---|
| `SizeFormat` | `size_format.dfy` | `formatSize` on integers, with its two branches. It proves that the unit index is the unique power of 1024 that brackets the size, that the rounded value stays within half a hundredth, and that the printed digits read back to what was printed. |
| `Tree` | `tree.dfy` | The directory tree that `readdir`, `stat`, `existsSync` and `mkdirSync` see. It has lookup, replace and remove of the entry at a path, `mkdir -p`, and the pre-order walk. |
| `FileSystem` | `disk.dfy` | The shared disk as a class. It has the current tree and a log of every mutating call (`unlink`, `rmdir`, `mkdirSync`, a written file, the crawler's save). |
| `Messages` | `messages.dfy` | The request, the job, the IPC messages, and the socket events with their exact log texts. |
| `ServerFs` | `server_fs.dfy` | `countFilesAndDirectories` and `deleteDirectory` as methods over the disk. Each is proved against a function of the walk. |
| `Supervision` | `supervisor.dfy` | The server's socket and worker handlers as a class. It holds `scrapingProcess`, `isCancelled`, the emitted events and the listeners attached to each worker. |
| `WorkerFs` | `worker_fs.dfy` | The worker's `path.extname`, the extension table, `filterFiles`, `getDirectoryTree` and `createArchive`. |
| `Worker` | `worker.dfy` | The crawler's options, including `urlFilter`, and the `process.on('message')` pipeline. It is a method, `HandleJob`, proved against a specification function `Pipeline`. |

The crawl and the archive stream are not computed here. Each is a parameter. The crawl is the plugin's logs plus either the saved site or a rejection. The archive stream, once its output file is open, either closes after writing a number of bytes or reports an error after writing some bytes.

## Where the code and the intent differ

The model follows the code in each case below.

- **The filter deletes the selected types.** `filterFiles` unlinks every file whose extension belongs to a selected type (scripts/scraperProcess.js:86-90). The user interface presents the types as the ones to keep. `WorkerFs.FilterUnlinksExactly` states what the code does.
- **No already-running check.** `startDownload` forks a new worker even when one is running, and it overwrites the slot. When the first worker exits, the slot is emptied although the second worker still runs. `Supervision.StartOverRunning` shows this.
- **The settings log echoes the raw depth.** The summary sent after archiving prints the job's `maxDepth` as given, not the crawler's `maxDepth || 10` (scripts/scraperProcess.js:133 and 168).
- **`formatSize` can print the next unit's bound.** Rounding can give 1024.00 of a unit. For example, 1048575 bytes prints as "1024.00 KB" (`SizeFormat.FormatSizeRoundsUp`).
- **The server ignores the worker's link.** The worker sends `projects/<name>.zip`, but the server emits `/projects/<name>.zip`, which it builds itself (index.mjs:120-122 and scripts/scraperProcess.js:169).

## Model

| member | source | states |
|---|---|---|
| SizeFormat.FormatSizeSmall | index.mjs:37 | Below 1024 bytes the text is the decimal digits of the size followed by " B". It has no decimal point, and the digits read back to the size. |
| SizeFormat.FormatSizeLarge | index.mjs:38-40 | From 1024 bytes up, the text uses the unit index k ≥ 1 with 1024^k ≤ size < 1024^(k+1). The printed value is 1.00 to 1024.00 in hundredths, followed by " " and the k-th name of the unit table. The two decimals read back to the hundredths. |
| SizeFormat.UnitIndexBounds | index.mjs:38 | The unit index is the largest k with 1024^k ≤ size. |
| SizeFormat.UnitIndexUnique | index.mjs:38 | Only one k brackets a size between consecutive powers of 1024. |
| SizeFormat.PowMonotone | index.mjs:40 | Powers of 1024 grow with the exponent. |
| SizeFormat.HundredthsRange | index.mjs:40 | The value `toFixed(2)` prints is within half a hundredth of size / 1024^k, and lies between 1.00 and 1024.00. |
| SizeFormat.NatToStringDigits | index.mjs:37 | `${n}` of a non-negative integer is a non-empty run of decimal digits. It starts with '0' only for 0. |
| SizeFormat.NatToStringRoundTrip | index.mjs:37 | Parsing the decimal text of n gives n. |
| SizeFormat.DigitValueOfDigit | index.mjs:37 | Each digit character reads back to its value. |
| SizeFormat.Fixed2RoundTrip | index.mjs:40 | `toFixed(2)` prints exactly two decimals after a point, and the text reads back to the hundredths. |
| SizeFormat.FormatSizeSmallExamples | scripts/scraperProcess.js:19 | 0 prints as "0 B" and 1023 prints as "1023 B". |
| SizeFormat.FormatSizeKilobytesExample | scripts/scraperProcess.js:20-22 | 1536 prints as "1.50 KB". |
| SizeFormat.FormatSizeGigabytesExample | scripts/scraperProcess.js:20-22 | 1073741824 prints as "1.00 GB". |
| SizeFormat.FormatSizeRoundsUp | index.mjs:40 | 1048575 prints as "1024.00 KB". |
| Tree.Find | index.mjs:53 | A lookup by name returns an index whose entry has that name. |
| Tree.FindSpec | index.mjs:53 | The lookup finds the first entry with the name. It finds nothing only when no entry has the name. |
| Tree.FindSameNames | index.mjs:53 | The lookup depends only on the names in a listing. |
| Tree.AtPutSame | scripts/scraperProcess.js:54 | After writing a node at an existing path, that node is at the path. |
| Tree.AtPutRemoved | index.mjs:81-84 | With unique names, nothing is left at a path after its entry is removed. |
| Tree.AtPutApart | index.mjs:81-84 | Changing or removing the entry at p leaves every path that is neither a prefix nor an extension of p unchanged. |
| Tree.PutNest | index.mjs:79 | A change below a replaced directory equals replacing it with the changed directory. This is how the recursive deletion composes. |
| Tree.PutPutSame | index.mjs:84 | A second change at the same path overrides the first. |
| Tree.PutSelf | index.mjs:73-74 | Writing back what is at a path changes nothing. |
| Tree.ChainShape | scripts/scraperProcess.js:50 | The directories `mkdir -p` creates form one chain ending in an empty directory at the path. |
| Tree.MkdirAllMakesDir | scripts/scraperProcess.js:49-50 | After a successful `mkdirSync(p, {recursive: true})` there is a directory at p, and names stay unique. |
| Tree.MkdirAllApart | scripts/scraperProcess.js:50 | `mkdir -p` leaves every path apart from p unchanged. |
| Tree.PutUnique | index.mjs:81-84 | Replacing or removing an entry keeps names unique when the new node has unique names. |
| Tree.WalkAppend | index.mjs:51-61 | The walk over a listing is the concatenation of the walks over its parts, in enumeration order. |
| Tree.WalkComplete | index.mjs:48-61 | Every entry below a directory is visited by the walk, with its full path. |
| Tree.WalkSound | index.mjs:48-61 | With unique names, every item the walk visits lies below the directory and is the entry at its path. |
| Tree.AtUnique | index.mjs:56 | Every subtree of a tree with unique names has unique names. |
| Tree.ListingExact | index.mjs:48-61 | The walk from a directory lists exactly the entries strictly below it, each with the node at its path. |
| FileSystem.Disk.Unlink | index.mjs:81 | `unlink` removes the file at p and appends one Unlink call. |
| FileSystem.Disk.Rmdir | index.mjs:84 | `rmdir` removes the empty directory at p and appends one Rmdir call. |
| FileSystem.Disk.MakeDirs | scripts/scraperProcess.js:50 | `mkdirSync(p, {recursive: true})` succeeds exactly when no prefix of p is a file. On success the tree is the `mkdir -p` result and one MakeDirs call is logged. On failure nothing changes. |
| FileSystem.Disk.WriteFile | scripts/scraperProcess.js:54-57 | Opening a write stream needs an existing directory and no directory at the path. It creates or truncates the file, leaves the written size in it and logs one write. |
| FileSystem.Disk.Populate | scripts/scraperProcess.js:157 | The crawler's save creates the directories above the workspace and puts the site there. It logs one save, or changes nothing when a file blocks the parent path. |
| FileSystem.InstalledAt | scripts/scraperProcess.js:132 | When the parent directories could be created, the saved site is at the workspace path. |
| FileSystem.AtPutLast | scripts/scraperProcess.js:54 | Creating an entry in an existing directory makes it exist. |
| ServerFs.CountsAppend | index.mjs:55-59 | The file count, the directory count and the byte total of a concatenated walk are the sums over its parts. |
| ServerFs.CountEntries | index.mjs:50-61 | The counting loop over one directory's entries returns the number of files, the number of directories and the file bytes of that directory's walk. |
| ServerFs.CountEntry | index.mjs:53-60 | A directory counts as 1 and is walked. A file counts as 1 and adds its size. |
| ServerFs.CountStep | index.mjs:51-61 | One more loop turn adds exactly the counts of the next entry's walk. |
| ServerFs.EntryCounts | index.mjs:54-60 | A file adds 1 file and its size. A directory adds 1 directory plus its contents. |
| ServerFs.CountFilesAndDirectories | index.mjs:43-69 | The file count, directory count and formatted total size of every entry below `dir`. When `readdir(dir)` fails, the counts are 0 and "0 B". |
| ServerFs.CountsPartition | index.mjs:54-60 | Files plus directories equals the number of entries below `dir`. |
| ServerFs.DirectorySizesIgnored | index.mjs:59 | The total counts only file sizes, so directory stat sizes do not change it. |
| ServerFs.DeleteDirectory | index.mjs:71-88 | It removes the directory at `dir` and everything in it. A missing path or a file is left alone. The call log is exactly the deletion sequence. |
| ServerFs.DeleteEntry | index.mjs:77-82 | A subdirectory is deleted recursively and a file is unlinked. In both cases the entry is gone afterwards. |
| ServerFs.DeleteOpsStep | index.mjs:75-83 | One more loop turn appends exactly the next entry's calls. |
| ServerFs.RemoveFirstEntry | index.mjs:75-83 | With the first i entries removed, the next entry is still at its path. Removing it leaves the remaining entries. |
| ServerFs.DeleteEffect | index.mjs:71-88 | After deletion nothing is at `dir` (a file stays, a missing path stays missing). Every path apart from `dir` is unchanged. Calls are made exactly when `dir` is a directory. |
| ServerFs.DeleteIdempotent | index.mjs:73 | Deleting a second time changes nothing and makes no call. |
| ServerFs.OrderConcat | index.mjs:75-83 | Call sequences under different entries can be concatenated while keeping children first. |
| ServerFs.DeleteOpsShape | index.mjs:75-83 | Every call lies inside the directory under one of its entries. Children are removed before their directory. There is one call per entry below it. |
| ServerFs.DeleteEntryOpsShape | index.mjs:78-82 | An entry's calls all lie under the entry and remove children first. There is one call per entry. |
| ServerFs.DeletionOrder | index.mjs:71-88 | There is one call for every entry below the directory plus one, all below `dir` and children first. `rmdir(dir)` is last. |
| Supervision.StartEventsGrouped | index.mjs:99-152 | The events of `startDownload`, appended group by group, are the start notice, the warning when the workspace existed, and then the fork and job or the fork error. |
| Supervision.Supervisor.constructor | index.mjs:28-29 | The slot starts empty, `isCancelled` false, and nothing emitted. |
| Supervision.Supervisor.StartDownload | index.mjs:93-153 | A request without a URL or name gets one error and nothing else changes. Otherwise an existing workspace is deleted, `isCancelled` is cleared and the start events are emitted. The slot then holds the new worker with its listener, or is unchanged when `fork` throws. |
| Supervision.Supervisor.CancelDownload | index.mjs:155-162 | With a worker in the slot, it sets the flag, kills the worker and sends one cancel notice. The slot keeps the worker. Otherwise nothing changes. |
| Supervision.Supervisor.OnMessage | index.mjs:117-135 | A log is relayed to the worker's socket and a ready message becomes `/projects/<name>.zip`. A tree is answered with the done notice, the header, the tree and the counts of the workspace as it is now. Nothing else changes. |
| Supervision.Supervisor.OnError | index.mjs:137-141 | One error notice to the worker's socket, and the slot is emptied. |
| Supervision.Supervisor.OnExit | index.mjs:143-148 | The closing notice unless the download was cancelled, and the slot is emptied. |
| Supervision.CancelThenExit | index.mjs:143-162 | A cancelled worker's exit sends no closing notice. Only the kill and the cancel notice are emitted, and the slot ends empty. |
| Supervision.StartOverRunning | index.mjs:113 | A start while a worker runs puts a new worker in the slot. The first worker's exit then empties the slot although the new worker was never removed. |
| WorkerFs.LastDot | scripts/scraperProcess.js:85 | It returns the position of the last '.' of a name, or none when the name has no '.'. |
| WorkerFs.Extname | scripts/scraperProcess.js:85 | `path.extname` is empty or a suffix of the name that starts with its only '.'. |
| WorkerFs.ExtnameEmpty | scripts/scraperProcess.js:85 | The extension is empty exactly for ".." and for names with no '.' after their first character. |
| WorkerFs.ExtnameExamples | scripts/scraperProcess.js:85 | "index.html" has ".html", "archive.tar.gz" has ".gz", and "file." has ".". |
| WorkerFs.ExtnameNoneExamples | scripts/scraperProcess.js:85 | ".htaccess", "README" and ".." have no extension. |
| WorkerFs.ExtensionTable | scripts/scraperProcess.js:70-76 | Every listed extension is a dot followed by at least two characters with no further dot. No extension belongs to two types. |
| WorkerFs.LastDotSkip | scripts/scraperProcess.js:85 | The last '.' does not change when characters without a dot are appended. |
| WorkerFs.ExtnameOfListed | scripts/scraperProcess.js:85-86 | A non-empty stem followed by a listed extension has that extension and is selected by its type. |
| WorkerFs.Selected | scripts/scraperProcess.js:86 | A name is selected exactly when its extension is in the table entry of some selected type. |
| WorkerFs.FilteredNode | scripts/scraperProcess.js:84-94 | What the filter leaves of one entry: a selected file is removed, a directory is pruned, and anything else is kept. |
| WorkerFs.FilterFiles | scripts/scraperProcess.js:69-103 | The tree becomes the pruned tree and the log gets exactly the unlinks of the walk. A failing top-level `readdir` gives one error log. |
| WorkerFs.FilterEntry | scripts/scraperProcess.js:81-95 | One loop turn replaces the entry by what the filter leaves of it and logs its unlinks. |
| WorkerFs.UnlinksAppend | scripts/scraperProcess.js:81-95 | The unlinks of a concatenated walk are the unlinks of its parts, in order. |
| WorkerFs.FilteredNames | scripts/scraperProcess.js:84-94 | Filtering only removes entries and names no new ones. |
| WorkerFs.FilterStep | scripts/scraperProcess.js:81-95 | One more loop turn filters the next entry and walks it. |
| WorkerFs.FilterRootStep | scripts/scraperProcess.js:81-95 | With the first i entries filtered in place, the next entry is at its path and filtering it advances the loop. |
| WorkerFs.UnlinksStep | scripts/scraperProcess.js:81-95 | One more loop turn appends exactly the next entry's unlinks. |
| WorkerFs.EntryUnlinks | scripts/scraperProcess.js:84-94 | A selected file is unlinked. A directory's unlinks are those of its contents. |
| WorkerFs.FilterWalk | scripts/scraperProcess.js:78-100 | After filtering, the walk's files are exactly the unselected files in their original order, the directories are all still there, and nothing is left to unlink. |
| WorkerFs.FilterWalkEntry | scripts/scraperProcess.js:84-94 | The same for one entry. |
| WorkerFs.SingleLists | scripts/scraperProcess.js:84-94 | What one walked item contributes to the files, the kept files, the directories and the unlinks. |
| WorkerFs.FilteredIdempotent | scripts/scraperProcess.js:78-100 | Filtering twice is filtering once. |
| WorkerFs.FilteredAppend | scripts/scraperProcess.js:81-95 | Filtering distributes over concatenation of listings. |
| WorkerFs.UnlinksMember | scripts/scraperProcess.js:84-91 | A path is unlinked exactly when the walk lists it as a selected file. The filter only unlinks. |
| WorkerFs.FilterUnlinksExactly | scripts/scraperProcess.js:69-103 | On the disk, `filterFiles(dir)` unlinks `dir + q` exactly when it is a file whose name has a selected extension. It makes no other kind of call. |
| WorkerFs.UnlinkedIsFile | scripts/scraperProcess.js:84-89 | Every unlinked path is a selected file on the disk. |
| WorkerFs.FileIsUnlinked | scripts/scraperProcess.js:84-89 | Every selected file below the directory is listed by the walk. |
| WorkerFs.ConcatAppend | scripts/scraperProcess.js:33 | Joining the lines of two parts gives the two texts, in order. |
| WorkerFs.LinesAppend | scripts/scraperProcess.js:33 | The lines of two parts are the lines of each, in order. |
| WorkerFs.TextAppend | scripts/scraperProcess.js:33 | The tree text of two parts is their texts, in order. |
| WorkerFs.TextOne | scripts/scraperProcess.js:33 | One line's text is its rendered line. |
| WorkerFs.ItemLinesAppend | scripts/scraperProcess.js:30-37 | The lines of a concatenated walk are the lines of its parts. |
| WorkerFs.RenderedIsWalk | scripts/scraperProcess.js:27-37 | The recursive rendering of a listing produces one line per walked item, in walk order. |
| WorkerFs.RenderedEntryIsWalk | scripts/scraperProcess.js:33-36 | An entry's line is followed by the lines of its contents, one level deeper. |
| WorkerFs.WalkBelow | scripts/scraperProcess.js:31 | Every walked path is longer than the directory's path. |
| WorkerFs.WalkEntryBelow | scripts/scraperProcess.js:31 | Every path under an entry is longer than its parent's path. |
| WorkerFs.ItemLinesExact | scripts/scraperProcess.js:33 | Line k names the k-th walked entry. Its indent is its depth below the directory and it carries its stat size. |
| WorkerFs.TreeLines | scripts/scraperProcess.js:25-45 | The tree text has one line per entry below the directory, in walk order. Each line is the entry's name indented once per directory between it and `dir`, with its size. |
| WorkerFs.RenderEntries | scripts/scraperProcess.js:27-37 | The loop over a listing appends exactly the rendering of its entries. |
| WorkerFs.RenderEntry | scripts/scraperProcess.js:33-36 | One loop turn appends the entry's line and, for a directory, the rendering of its contents with the longer prefix. |
| WorkerFs.RenderStep | scripts/scraperProcess.js:30-37 | One more loop turn extends the text by the next entry's rendering. |
| WorkerFs.LineStep | scripts/scraperProcess.js:33 | The line for an entry is its prefix, "├── ", its name and its formatted size in a span. A file renders as that one line. |
| WorkerFs.DirStep | scripts/scraperProcess.js:33-36 | A directory's rendering is its line followed by its contents at the next depth. |
| WorkerFs.GetDirectoryTree | scripts/scraperProcess.js:25-45 | It returns the tree text of the directory. When `readdir` fails at the top, it returns one error log and an empty tree. |
| WorkerFs.JoinPrefixes | scripts/scraperProcess.js:166 | Joining "scripts", ".." and "projects" gives "projects". |
| WorkerFs.ArchivePathShape | scripts/scraperProcess.js:166 | The archive path is `projects/<directoryName>.zip`. Its parent is `projects` and it lies apart from the workspace. |
| WorkerFs.CreateArchive | scripts/scraperProcess.js:47-67 | It creates the archive's directory when it is missing. An output file that cannot be opened ends the worker uncaught. Otherwise the file is created or truncated and written, and the promise resolves on `close` or rejects with the stream's error. The disk, the call log and the settlement are exactly those of the specification of the archive step. |
| WorkerFs.MakeProjects | scripts/scraperProcess.js:49-50 | Making a missing `projects` adds only an empty `projects`. Every other path keeps what it had. |
| WorkerFs.Opens | scripts/scraperProcess.js:49-54 | Whether the output file can be opened: `projects` is missing or a directory, and no directory is at the archive's path. |
| WorkerFs.ArchiveDirectory | scripts/scraperProcess.js:49-51 | A missing `projects` is made. The output file is then writable exactly when the archive opens, and every path apart from the archive is unchanged. |
| WorkerFs.ArchivedAt | scripts/scraperProcess.js:47-67 | The worker crashes exactly when the output file cannot be opened. The promise resolves exactly when it opens and the stream closes. A stream error after opening rejects with that error. An opened file holds the bytes written, and every path apart from it, such as the workspace, is unchanged. |
| WorkerFs.ArchiveOverDirectory | scripts/scraperProcess.js:54 | A directory at the archive's path cannot be opened: the worker crashes and the disk is unchanged. |
| WorkerFs.WorkspaceIsArchive | scripts/scraperProcess.js:166 | The workspace of a job named `<n>.zip` is the archive path of a job named `n`. |
| Worker.IndexFrom | scripts/scraperProcess.js:131 | `indexOf` from i returns -1 or a position where the needle occurs. If the needle occurs at i, it returns i. |
| Worker.UrlFilterIsPrefix | scripts/scraperProcess.js:131 | `url.indexOf(websiteUrl) === 0` holds exactly when the URL starts with the site's URL. |
| Worker.UrlFilterRejectsLater | scripts/scraperProcess.js:131 | An occurrence of the site's URL after the start is rejected. |
| Worker.UrlFilterAcceptsBelow | scripts/scraperProcess.js:131 | A URL below the site's URL is accepted. |
| Worker.OptionsRules | scripts/scraperProcess.js:129-140 | The crawl starts from the one URL, follows only URLs that start with it, and saves into the workspace. It keeps the job's depth unless it is 0, in which case the depth is 10. It passes the recursion settings through, with concurrency 5, errors ignored, a 60000 ms timeout and a 1000 ms request interval. |
| Worker.LogSteps | scripts/scraperProcess.js:40 | An operation's error log is sent at most once, and only when it failed. |
| Worker.PluginSteps | scripts/scraperProcess.js:105-124 | The plugin's logs are sent one step each, in the order the crawler reported them. |
| Worker.HandleJob | scripts/scraperProcess.js:126-177 | The steps the worker sends, the disk tree and the disk's call log are exactly those of the pipeline's specification. This includes a worker that ends uncaught when the archive cannot be opened. |
| Worker.Prepare | scripts/scraperProcess.js:157-161 | The site is saved into the workspace. When types are selected it is pruned, and its error log is sent if it has one. |
| Worker.Publish | scripts/scraperProcess.js:163-169 | It sends the tree error log and the tree, then runs the archive step. It sends the settings and the link only when the archive's promise resolved. Its settlement is the archive's. |
| Worker.CountAppend | scripts/scraperProcess.js:155-176 | The count of each kind of step is additive over concatenation. |
| Worker.CountPlugin | scripts/scraperProcess.js:109-120 | The crawler plugin sends only logs. |
| Worker.CountLogs | scripts/scraperProcess.js:40 | An operation's error log is one log, or nothing. |
| Worker.BodyCounts | scripts/scraperProcess.js:159-169 | After the crawl, the `try` block sends one tree when the site was saved and one link when nothing threw. |
| Worker.HeadCounts | scripts/scraperProcess.js:156-157 | Before the crawl ends only logs are sent. |
| Worker.EndCounts | scripts/scraperProcess.js:171-176 | The `catch` and `finally` blocks give one exit, and otherwise only logs. |
| Worker.StepsParts | scripts/scraperProcess.js:155-176 | The steps are those before and during the crawl, the rest of the `try` block and the end, with the exit last. |
| Worker.StepsCounts | scripts/scraperProcess.js:155-176 | The worker exits exactly once, as its last step. It sends exactly one tree when the crawl saved the site, else none. It sends exactly one link when the `try` block succeeded, else none. |
| Worker.StepsStart | scripts/scraperProcess.js:156-157 | The scraping log comes first, followed by the plugin's logs in order. |
| Worker.StepsSucceed | scripts/scraperProcess.js:163-175 | A complete `try` block ends with the tree, the settings summary with the job's values as given, the link `projects/<name>.zip`, and the exit. |
| Worker.StepsDie | scripts/scraperProcess.js:163-169 | When the worker crashes after the tree, the tree and the end of the process are its last two steps. No error log or link follows. |
| Worker.StepsFail | scripts/scraperProcess.js:171-175 | After a throw, the next-to-last step is the one error log with the thrown message, after the tree when the site was saved. A rejected crawl gives exactly 3 steps plus the plugin's logs. |
| Worker.TryBlockRejected | scripts/scraperProcess.js:157 | A crawl that rejects saves nothing, reports its message and leaves the disk as it was. |
| Worker.TryBlockSaved | scripts/scraperProcess.js:157-167 | After a saved crawl, the `try` block reports the filter's log and the tree of the pruned workspace. It ends exactly as the archive's promise settles: resolved, rejected with its error, or crashed. |
| Worker.PipelineCounts | scripts/scraperProcess.js:126-177 | For the whole handler: one exit, last; one tree exactly when the crawl saved the site; one link exactly when the `try` block succeeded. |
| Worker.PipelineStarts | scripts/scraperProcess.js:155-157 | The handler starts with the scraping log and then the plugin's logs in order. |
| Worker.PipelineSucceeds | scripts/scraperProcess.js:159-175 | When the archive's promise resolves, the handler ends with the tree of the saved and pruned workspace, the settings, the link and the exit. |
| Worker.PipelineRejected | scripts/scraperProcess.js:155-176 | A rejected crawl gives the scraping log, the plugin's logs, the error log with the rejection and the exit. The disk is untouched. |
| Worker.PipelineArchiveRejected | scripts/scraperProcess.js:163-176 | When the archive's stream reports an error, the tree has been sent, followed by the error log with that error and the exit. |
| Worker.PipelineArchiveCrashes | scripts/scraperProcess.js:54-169 | When the output file cannot be opened, the tree is the last thing sent before the process ends. There is no error log and no link. |
| Worker.OnlyCreatesAppend | scripts/scraperProcess.js:157-167 | Two call logs that only create concatenate into one that only creates. |
| Worker.ArchivedOps | scripts/scraperProcess.js:47-67 | `createArchive` only makes a directory and writes a file. |
| Worker.PipelineNoTypes | scripts/scraperProcess.js:159-161 | With no type selected nothing is unlinked or removed. The only calls are the crawler's save and the archive's directory and file. |

## Left out

- The crawler: `website-scraper` with its Puppeteer, stealth and adblock plugins is a parameter. The plugin logs are given, and the result is either the saved site or a rejection. Its options are modelled without the `plugins` entry. `onResourceSaved` only writes to the console.
- A crawl that writes part of a site and then rejects is not modelled. A rejection leaves the disk as it was.
- The archive: the zip bytes and the compression level are left out. Once the output file is open, the archive stream is a parameter that closes after writing some bytes or reports an error after writing some bytes.
- WorkerFs.Archived: an output file that cannot be opened is modelled as a crash of the worker. Its error has no listener, and the pipe from the `archiver` stream re-emits it. The message Node prints on stderr is not modelled. A `readable-stream` 3 pipe, which swallows that error and lets `close` resolve the promise, is not modelled.
- WorkerFs.Archived: a `mkdir` failure only arises for an archive directory below a file. It is rejected with `ENOTDIR`. For `projects` it cannot arise, because `existsSync` holds for a file there and the `mkdir` is skipped.
- The stream and handler wiring: `socket.io`, `express`, the HTTP server and the static routes are not modelled. Each handler is a method called with its event's data.
- Processes: `fork`, IPC, `kill` and scheduling are events in a log. Interleavings are modelled only as sequences of handler calls. A throwing `fork` is the parameter `forkError`.
- Console output: every `console.log` and `console.error` is left out, including the messages of the caught errors in `countFilesAndDirectories` and `deleteDirectory`.
- Filesystem errors below the top directory are left out. Only a top-level `readdir` that fails, because the path is missing or is a file, is modelled. The disk is otherwise taken not to change under a walk.
- Paths are relative to the application directory, so error messages show the relative path where Node shows an absolute one. `directoryName` is treated as one path segment. A name containing "/" or ".." is not modelled.
- SizeFormat.FormatSizeLarge: computes the unit index on integers, not with floating `Math.log`. It also rounds half up exactly, where `toFixed(2)` rounds the binary double. The two can differ at exact powers of 1024, where the floating quotient of the logarithms can fall just below an integer.
- SizeFormat.UnitName: sizes of 1024^5 bytes and more print the unit "undefined", as JavaScript interpolates a missing table entry. Nothing further is proved about them.
- `maxDepth`, `maxRecursive` and `recursive` are typed (integer, integer, boolean), so `maxDepth || 10` replaces only 0. Missing fields and values that are not numbers are not modelled.
- Worker.HandleJob: it requires the workspace path to be non-empty, which the server always provides. It is not proved that the crawler's save and the filter keep names unique beyond what the disk's invariant states.
- The `try`/`catch` around the counts in the `treeDirectory` branch is not modelled as a separate path, because `countFilesAndDirectories` catches its own errors and so never throws.
- Supervision.Supervisor.StartDownload: it is one atomic step. In the server, the `await deleteDirectory` at index.mjs:107 lets a cancel, a worker's exit or a second start run before the fork. Those interleavings are not modelled.
- Supervision.Supervisor.OnMessage: it answers a tree in one atomic step. In the server, the `await countFilesAndDirectories` at index.mjs:125 lets later messages and the exit's notice go out before the done notice, the header, the tree and the counts. The counts are then taken from the disk at that later time. This reordering is not modelled.
- FileSystem.Disk.Populate: when a file blocks the workspace's parent path, the save changes nothing and the pipeline goes on as if the site had been saved. The crawler would reject there instead. Such a crawl is only modelled faithfully when it is given as a rejection.
- `public/script.js`, the browser side, is not part of this model.
