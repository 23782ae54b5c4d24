# File-system batch helpers: a Dafny model

This project models the decision logic of a small Node.js module of
file-system helpers (`index.js`). The module offers `unlink` (delete a list
of files), `read`, `write`, `mkdir` (create every ancestor of a list of
target directories) and `copy` (mirror a directory tree, copying only files
whose target is missing or older). Most of it is a thin wrapper over Node's
`fs` module. The model keeps the parts that compute or decide something:

- **`mkdir`, building the path list** (`Mkdir.BuildPaths`). Each target is
  normalised and split on `/`. Every cumulative prefix `segs.slice(0, k).join('/')`
  is pushed onto `paths` unless `paths.indexOf` already finds it. The model
  keeps JavaScript's `split('/')` and `join('/')` on strings
  (`PathSegments`) and the "push unless present" idiom (`FirstSeen`). It
  proves four properties of the list:
  - it has no duplicates;
  - it holds exactly the ancestors of the targets, each target included;
  - every proper ancestor of an entry stands earlier in the list;
  - it keeps first-seen order.
  An ancestor is defined independently, on strings: a prefix of the target
  that ends at a `/` or at the end (`IsAncestorPath`).
- **`mkdir`, serial creation** (`Mkdir.CreateSerially`, `Mkdir.MakeDirectories`).
  The directories are created one at a time, in list order. "Already exists"
  (EEXIST) counts as success. The first other error stops the run and is
  what the callback receives.
- **`unlink`'s error mapping** (`FsErrors.Swallow`, `Unlink.UnlinkFiles`).
  A missing file (ENOENT) counts as deleted. Any other error is passed on.
- **`copy`'s per-directory step** (`Copy.CopyStats`). The counters
  `directories` and `files` are fields of a class. The methods update them
  as the source does:
  - a directory counts only when `mkdir` really created it;
  - a file is copied, and counted, iff its target is missing or its source
    modification time is strictly greater.
  Lemmas state what a second run over an unchanged source does, and what a
  run does after one source file is touched.

How the environment is represented:

- Errors are `Error(code)`. A callback's error argument is an
  `Option<Error>` (`None` is `null`).
- `path.normalize` is a function parameter `normalize: string -> string`,
  left uninterpreted.
- What `fs.mkdir` reports during one run is a function parameter
  `fsMkdir: string -> Option<Error>`. A function of the path suffices: the
  path list has no duplicates, so each path string is attempted at most
  once. Two spellings of one directory, such as `a/b` and `a/b/` (a target
  `a/b/` yields both), are two strings, and the function gives each its own
  outcome.
- What `fs.unlink` reports is a parameter `fsUnlink: string -> Option<Error>`
  as well. Here the list is not deduplicated (`files.map`, index.js:16), so
  a path may be deleted twice. A function of the path still suffices. When
  the first deletion succeeds, the second reports ENOENT, and that maps to
  `null` just as the success does. When the first fails (EACCES, say), the
  second reports the same failure.
- Modification times are integers.
- A directory listing is a sequence of `Entry` values. Each entry carries
  what `statSync` reports for the source item and, for a file, for its
  target.

Behaviour worth knowing, proved in the model:

- An absolute target such as `/tmp/x` splits into `["", "tmp", "x"]`, so
  its first cumulative prefix is the empty path `""`. When the first target
  is absolute, `""` is the first entry of the list
  (`Mkdir.AbsoluteTargetFirstEntry`), and the helper asks the file system to
  create `""` before anything else. A later absolute target puts `""` after
  the earlier targets' prefixes: `["a", "/tmp"]` gives `["a", "", "/tmp"]`
  (`Mkdir.LaterAbsoluteTargetExample`).
  What Node does with that call is outside this model.
- A file whose target has exactly the same modification time as its source
  is not copied: the comparison at index.js:159 is strict (`Copy.ShouldCopy`).

## Model

| member | source | states |
|---|---|---|
| `PathSegments.Split` | index.js:80 | `split('/')` always returns at least one piece, and no piece contains `/` |
| `PathSegments.JoinFirstSegment` | index.js:83 | `join('/')` starts with the first segment and, when there are two or more, puts a separator right after it |
| `PathSegments.Ancestors` | index.js:80-83 | a target has one cumulative prefix per piece of its split, and the last of them is the target itself |
| `PathSegments.JoinSplit` | index.js:80-83 | joining the pieces of a split path with `/` gives the path back |
| `PathSegments.SplitJoin` | index.js:80-83 | splitting the join of one or more `/`-free segments gives the segments back |
| `PathSegments.AncestorsCharacterized` | index.js:82-83 | the cumulative prefixes `slice(0, k).join('/')` are exactly the prefixes of the target that end at a `/` or at its end |
| `PathSegments.AncestorsLengthIncreasing` | index.js:82-83 | later cumulative prefixes are strictly longer, so a target's prefixes are pairwise distinct |
| `PathSegments.ProperAncestorEarlier` | index.js:82-83 | a proper ancestor of a target's `k`-th cumulative prefix is one of its earlier prefixes |
| `FirstSeen.FirstIndex` | index.js:86 | `indexOf` finds a position holding the value with no earlier occurrence |
| `FirstSeen.AddNewGuard` | index.js:86-88 | the guarded push only appends, always leaves the value in the list, adds nothing else, and never creates a duplicate |
| `FirstSeen.Dedup` | index.js:85-88 | the push-unless-present idiom yields a list without duplicates that holds exactly the values fed to it |
| `FirstSeen.DedupFirstSeenOrder` | index.js:85-88 | of two values fed to the idiom, one stands before the other in the result iff it was first seen earlier |
| `Mkdir.BuildPaths` | index.js:76-90 | the nested loops build the path list; it has no duplicates, holds exactly the ancestors of the normalised targets, and lists every ancestor of an entry before the entry |
| `Mkdir.PushAncestors` | index.js:80-89 | handling one target extends the list exactly as feeding that target's cumulative prefixes, shortest first, through the duplicate guard |
| `Mkdir.PathListMembers` | index.js:79-89 | nothing missing, nothing extra: a path is in the list iff it is an ancestor of some target |
| `Mkdir.PathListParentsFirst` | index.js:79-89 | every proper ancestor of an entry occurs earlier in the list |
| `Mkdir.SiblingTargetsExample` | index.js:79-89 | targets `["a/b/c", "a/b/d"]` give `["a", "a/b", "a/b/c", "a/b/d"]` |
| `Mkdir.AbsoluteTargetFirstEntry` | index.js:80-83 | when the first target starts with `/`, the empty path is the first entry of the list |
| `Mkdir.LaterAbsoluteTargetExample` | index.js:79-89 | targets `["a", "/tmp"]` give `["a", "", "/tmp"]`: a later absolute target puts the empty path after the earlier prefixes |
| `Mkdir.CreateSerially` | index.js:93-108 | directories are tried in list order; EEXIST counts as success; the run stops at the first other error, which is the result and the last directory tried; no error iff every directory was tried and succeeded or existed |
| `Mkdir.MakeDirectories` | index.js:75-109 | the calls are a prefix of the path list, without duplicates and parents first; every call but the last succeeded or found the directory existing; the error is the first non-EEXIST failure in list order, and it is the last call; no error iff every ancestor of every target was created or already existed, and then every ancestor was tried |
| `FsErrors.Swallow` | index.js:19-28 | the task's error is null iff the call succeeded or failed with the ignored code; any other error is passed on unchanged |
| `FsErrors.FirstFailure` | index.js:93-108 | the position of the first task that reported an error: every earlier task reported none, and there is one at that position unless no task failed |
| `FsErrors.FirstError` | index.js:93-108 | the joined callback gets no error iff no task reported one; otherwise it gets the error of a task before which no task reported one |
| `Unlink.UnlinkFiles` | index.js:14-32 | whatever the completion order, the result is null iff every file was deleted or was already missing; otherwise it is the error, not ENOENT, of one of the files, and every task that completed before it reported success or ENOENT |
| `Copy.ShouldCopy` | index.js:159 | a file is copied iff its target is missing or the source's modification time is strictly greater: a missing target or a strictly older one means copy, and a target as new as the source or newer (equal times included) means no copy |
| `Copy.AfterCopy` | index.js:159-161 | after the step the listing keeps its names, kinds and source times, every file has a target, each copied file's target carries the write time, and entries that were not copied are unchanged |
| `Copy.Copied` | index.js:159-161 | a name is among the copied files iff a file entry with that name is missing on the target side or strictly older there |
| `Copy.Descended` | index.js:156-158 | a name is among the new recursive branches iff it is a subdirectory entry of the listing |
| `Copy.CopyAgainCopiesNothing` | index.js:159-161 | once every copied file's target carries the copy's time, a second run over an unchanged source copies nothing and descends into the same subdirectories |
| `Copy.TouchedFileIsCopiedAlone` | index.js:159-161 | after a run, giving one source file a later modification time makes the next run copy exactly that file |
| `Copy.CopyStats.constructor` | index.js:113-115 | both counters start at zero |
| `Copy.CopyStats.TargetCreated` | index.js:136-142 | processing goes on unless `mkdir(target)` failed with something other than EEXIST; `directories` grows by one iff `mkdir` returned no error |
| `Copy.CopyStats.ProcessFile` | index.js:159-162 | the file is copied iff its target is missing or strictly older, and `files` grows by exactly one iff it is copied |
| `Copy.CopyStats.ProcessEntries` | index.js:150-163 | walking the listing launches exactly the subdirectories and copies exactly the due files, in listing order; `files` grows by the number copied |
| `Copy.CopyStats.ProcessDirectory` | index.js:136-163 | a hard `mkdir` error or a `readdir` error ends the step with that error; otherwise the listing is walked; the counters change as above |

## Left out

- `read` (index.js:35-49) and `write` (index.js:52-72): these only pass data between Node's `fs` and the logger. Their one decision, writing `''` when `data` is missing (index.js:57), is not modelled.
- Logging and colour formatting (`log.info`, `log.fail`, `log.colors`) have no effect on results.
- The `cjs-async` task runner is not part of this model. The serial runner is modelled by its observable rule: run tasks in order and stop at the first error. For `async.parallel`, the joined callback is taken to receive the first error in completion order. That order is a parameter of `Unlink.UnlinkFiles`.
- `path.normalize` and `path.join` are not modelled. Normalisation is an uninterpreted parameter. Entries of a listing are identified by name only.
- Real file-system calls are not modelled: `fs.mkdir`, `fs.unlink`, `fs.readdir`, `statSync`, `existsSync`, `readFileSync` and `writeFileSync`. The errors of `mkdir`, `readdir` and `unlink` are parameters. A listing is a parameter, and so are the modification times `statSync` reports. File contents are not modelled.
- `Copy.CopyStats.ProcessFile`, `Copy.CopyStats.ProcessEntries`: the model assumes that the synchronous calls `statSync`, `readFileSync` and `writeFileSync` succeed (index.js:154, 159-160); `existsSync` never throws, it reports `false` on any error. In the source, a throw from any of these three escapes the `readdir` callback uncaught. EISDIR, when the target name is an existing directory, is one example. Then that file is not counted, the rest of the listing is not walked, and `level--` never runs.
- `copy`'s `level` counter and its completion protocol (index.js:113, 134, 165-169, 117-131) are not modelled. That protocol joins concurrent recursive branches, and it has quirks:
  - a directory with an empty listing never decrements `level`, so completion is never signalled (index.js:148);
  - errors can call `finish` more than once;
  - a missing source calls `finish` without a callback. Its message is `source + "doesn't exists"`, with no space before "doesn't" (index.js:176-182).
- The recursion of `copy` over a real directory tree is not modelled. One call of `process` is modelled; the subdirectories it hands to new branches are its result (`Copy.Step`).
- `Copy.CopyAgainCopiesNothing`, `Copy.TouchedFileIsCopiedAlone`: the time a write stamps on the target is a parameter. These lemmas assume it is not earlier than the source's modification time, as it is on a file system with a monotonic clock. `Copy.TouchedFileIsCopiedAlone` also assumes that no existing target was modified after that time, that is, that nothing else wrote to the target tree between the two runs.
