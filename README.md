# verless `fs` package: streaming the files of a content tree

verless builds a static site from a directory of Markdown files. Its `fs` package finds those
files. `StreamFiles(path, files, filters...)` walks the tree below `path` and sends through the
`files` channel every path that is not a directory and that every filter lets pass. The two
predefined filters are `MarkdownOnly` (extension exactly `.md`) and `NoUnderscores` (base name
not starting with `_`). When nothing exists at `path`, StreamFiles closes the channel and returns
no error. Otherwise it closes the channel after the walk and returns the walk's error. The first
error the walk reports ends the walk.

The model has four modules:

- `FilePath` (`filepath.dfy`) holds the parts of Go's `path/filepath` that the package relies on,
  for a Unix host where `/` is the only separator. These are `Ext`, `Base`, and the `Join` that
  `filepath.Walk` uses to name a directory's entries.
- `Filters` (`filters.dfy`) holds the two filters and the filter chain (`AllPass`).
- `Walk` (`walk.dfy`) is the reference semantics.
  - The filesystem below the root is a tree (`Node`): a file, a directory with its entries in
    listing order, or a node whose lstat or directory read fails (`Broken`).
  - `os.Stat` of the root finds a tree or nothing (`Lookup`).
  - `Visits` is the sequence of callback calls `filepath.Walk` makes: the root first, then depth
    first in listing order.
  - `Stream` is what StreamFiles sends and returns: `Emitted` and `FirstError` of those visits.
  - `Matching` describes the walk of a tree without failures independently of the visit sequence.
- `Streaming` (`streaming.dfy`) is StreamFiles as the source runs it.
  - The channel is a `Channel` object holding an append-only `sent` sequence and a `closed` flag.
  - The walk callback, its loop over the filters, the recursive walk and StreamFiles itself are
    methods. Each is proved against the `Walk` semantics.

## Model

| member | source | states |
|---|---|---|
| FilePath.Ext | fs/fs.go:13 | The result is a suffix of the path. A non-empty result starts with a `.` and holds no other `.` and no separator, so it starts at the last `.` of the final element. |
| FilePath.ExtEmptyIffNoDotInLastElement | fs/fs.go:13 | The extension is empty exactly when every `.` in the path is followed by a separator, i.e. the final element holds no `.`. |
| FilePath.Base | fs/fs.go:19 | `""` gives `.`, and a path of only separators gives `/`. Any other path gives its last element: non-empty, without separators, and followed only by trailing separators. |
| FilePath.JoinShape | fs/fs.go:36 | The path Walk gives a directory entry ends with the entry's name, which starts a new element, and begins with the directory's path. |
| FilePath.BaseOfElement | fs/fs.go:19 | Converse of `Base`: `d + name + t` has base `name` whenever `d` ends at an element boundary and `t` holds only separators. |
| FilePath.ExtOfElement | fs/fs.go:13 | A prefix ending at an element boundary does not change the extension: a `.` in a parent directory does not count. |
| FilePath.JoinElement | fs/fs.go:36 | The path Walk gives an entry has the entry's name as base and the entry name's extension. |
| Filters.AllPassPair | fs/fs.go:43-47 | A chain of two filters passes a path exactly when both filters do. |
| Filters.MarkdownOnlyIffSuffix | fs/fs.go:12-14 | MarkdownOnly holds exactly when the path ends in `.md`. The comparison is case-sensitive. |
| Filters.MarkdownOnlyOfEntry | fs/fs.go:12-14 | For a path the walk builds, MarkdownOnly depends only on the entry's own name. |
| Filters.NoUnderscoresOfEntry | fs/fs.go:18-21 | For a path the walk builds, NoUnderscores rejects exactly when the entry's name starts with `_`. |
| Filters.NoUnderscoresOfElement | fs/fs.go:18-21 | NoUnderscores rejects `d + name + t` exactly when `name` starts with `_`, whatever trailing separators follow. |
| Filters.MarkdownOnlyExamples | fs/fs.go:12-14 | `x.MD`, `a.md/b` and `a` fail MarkdownOnly; `a.md` and `d.x/a.md` pass. |
| Filters.UnderscoreInParentPasses | fs/fs.go:18-21 | `_d/x.md` passes NoUnderscores: an underscore in a parent directory does not reject. |
| Filters.UnderscoreInBaseRejects | fs/fs.go:18-21 | `d/_x.md` fails NoUnderscores. |
| Walk.Visits | fs/fs.go:36 | A walk visits its root first, with the root's kind. Below a non-directory it visits nothing else. |
| Walk.FailureIndex | fs/fs.go:37-39 | Gives the position of the first failed visit, or the number of visits when none failed. No visit before it failed. |
| Walk.EntryVisitsAppend | fs/fs.go:36 | The visits of a listing are the visits of its first part followed by those of the rest. |
| Walk.SelectedAppend | fs/fs.go:43-49 | The paths the callback selects from two runs of visits are those of the first run, then those of the second. |
| Walk.FailureIndexAppend | fs/fs.go:37-39 | The first failure of `a + b` is `a`'s if `a` fails, else `b`'s, shifted by the length of `a`. |
| Walk.WalkAppendAfterFailure | fs/fs.go:37-39 | Once a run of visits fails, nothing after it is sent and the error is that run's. |
| Walk.WalkAppendWithoutFailure | fs/fs.go:36-52 | After a run without failure, the walk sends everything that run selects and then continues into the next run. |
| Walk.WalkOfOneVisit | fs/fs.go:36-52 | A single visit sends its path exactly when the callback would, and fails exactly when its info is a failure. |
| Walk.WalkOfDirectory | fs/fs.go:40-42 | The visit of a directory sends nothing and does not fail. The walk of the directory is that of its entries. |
| Walk.WalkThroughEntry | fs/fs.go:36-52 | One round of the loop over a directory's entries ends the walk with that entry's error, or extends the failure-free prefix by one entry. |
| Walk.PositionsSelect | fs/fs.go:43-49 | Each listed position is that of a sent visit, and the selected paths are the paths at those positions. |
| Walk.PositionsIncrease | fs/fs.go:49 | Positions strictly increase, so no visit is sent twice or out of order. |
| Walk.PositionsComplete | fs/fs.go:43-49 | Every visit the callback would send has its position listed. |
| Walk.StreamIsOrderedSelection | fs/fs.go:36-52 | What StreamFiles emits is, in visit order and each once, exactly the non-directory visits before the first failure that pass every filter. Directories are never emitted. |
| Walk.NoFiltersEmitEveryFile | fs/fs.go:43-47 | With no filters, every file visited before the first failure is emitted. |
| Walk.FirstFailureDecides | fs/fs.go:37-39 | A run of visits ends without error exactly when none of its visits fails, and then sends all it selects. Otherwise the error is the first failure's and only the visits before it count. |
| Walk.StreamErrorIsFirstFailure | fs/fs.go:36-55 | The corollary of `FirstFailureDecides` for `Stream`: the stream returns an error exactly when some visit fails. The error is the first failure's. What is emitted is the selection of the visits before it, or of all visits when none fails. |
| Walk.WellFormedNamesDistinct | fs/fs.go:36 | In a well-formed directory, whose names are sorted strictly as the walk reads them, no two entries share a name. |
| Walk.MarkdownListingIsWellFormed | fs/fs.go:36 | The listing `_c.md`, `a.md`, `b.txt` of `MarkdownWithoutUnderscores` is well-formed: element names, strictly sorted in byte order. |
| Walk.UnreadableListingIsWellFormed | fs/fs.go:36 | The listing `a.md`, `private`, `z.md` of `UnreadableDirectoryEndsStream` is well-formed. |
| Walk.VisitsOfIntact | fs/fs.go:36-52 | Over a tree without failures, no visit fails and the selected paths are `Matching`. |
| Walk.EntryVisitsOfIntact | fs/fs.go:36-52 | The same as `VisitsOfIntact`, for a directory listing. |
| Walk.StreamOfIntactTree | fs/fs.go:29-56 | Over an existing tree without failures, StreamFiles emits exactly the matching files, depth first in listing order, and returns no error. |
| Walk.MissingRootStreamsNothing | fs/fs.go:31-34 | When nothing exists at the root, nothing is emitted and no error is returned. |
| Walk.MarkdownWithoutUnderscores | fs/fs.go:12-21 | With MarkdownOnly and NoUnderscores over `_c.md`, `a.md` and `b.txt`, only `a.md` is emitted, with no error. |
| Walk.BrokenEntryStopsStream | fs/fs.go:37-39 | In a directory of a passing file, an unreadable entry and another file: the first file is sent, the third is never visited, and the unreadable entry's error is returned. |
| Walk.UnreadableDirectoryEndsStream | fs/fs.go:37-39 | A concrete case of `BrokenEntryStopsStream`: an unreadable directory `private` after `a.md` ends the stream with `private`'s error. |
| Streaming.Channel.constructor | fs/fs.go:29 | A new channel is open and has nothing sent. |
| Streaming.Channel.Send | fs/fs.go:49 | Sending appends exactly the sent path. It needs an open channel and leaves it open. |
| Streaming.Channel.Close | fs/fs.go:54 | Closing needs an open channel and leaves what was sent unchanged. Closing twice is not allowed. |
| Streaming.PassesFilters | fs/fs.go:43-47 | The loop over the filters returns true exactly when every filter lets the path pass. |
| Streaming.VisitFile | fs/fs.go:36-52 | The callback returns the reported error unchanged. It sends nothing for a directory or a failure. It sends exactly the path when every filter passes it. |
| Streaming.WalkTree | fs/fs.go:36 | The walk below a path sends what `Emitted` of its visits is, in order, returns the first failure's error, and leaves the channel open. |
| Streaming.WalkEntries | fs/fs.go:36 | The walk through a directory's listing sends what `Emitted` of the listing's visits is and returns its first failure's error. |
| Streaming.StreamFiles | fs/fs.go:29-56 | On every return path (missing root, success, error) the channel ends closed, having been open on entry. The sent paths are `Stream(...).emitted` and the result is `Stream(...).err`. |

## Left out

- Real I/O. `os.Stat` and the lstat and directory reads of `filepath.Walk` are replaced by a `Lookup` and a `Node` tree that the caller supplies. Symbolic links, and `os.FileInfo` beyond directory versus non-directory, are not modelled.
- Any `os.Stat` error other than "does not exist" is modelled as `Present(Broken(...))`. In the source such an error falls through to `filepath.Walk`, whose lstat then reports it to the callback.
- `Broken` is exact for both ways a node can fail. When lstat fails, `filepath.Walk` calls the callback once with the error. When a directory's listing cannot be read, it calls the callback once for that directory, with its info and the read error, and the callback returns that error (fs/fs.go:37-39) before it looks at the info.
- The sort of directory names that `filepath.Walk` performs. A `Dir` lists its entries in the order the walk takes them. `WellFormed` states what a real listing satisfies (names are path elements other than `.` and `..`, strictly sorted), but the walk lemmas hold for every tree and do not require it.
- `filepath.Join` also cleans its result, and the root is not cleaned. `Join` is exact for a `WellFormed` tree whose root path is clean (no `//`, `.` or `..` elements except the root `.` itself) or is a clean path other than `.` and `/` followed by one `/`, such as `a/`. Every entry path it builds is then clean.
- Channel semantics. Blocking, back-pressure and the goroutine that reads the channel are not modelled: the channel is the sequence of sent paths plus a closed flag. The model does not capture that paths become visible to the reader one by one while the walk runs.
- The package-level `ErrStreaming` variable (fs/fs.go:24) is not modelled. It is shared by concurrent calls, and StreamFiles returns its value, so the error is modelled as each call's own result.
- File names are modelled as `string`, a sequence of Unicode scalar values, while Linux names are byte strings, so a name that is not valid UTF-8 cannot be represented. For valid names nothing changes: `.` and `/` are ASCII, and UTF-8 preserves code-point order, so `Ext`, `Base` and `NameBefore` agree with Go on them.
- Go errors are modelled as `WalkError(path, reason)`: the path reported together with the cause.
- `writer/writer_test.go` exercises `fs.Rmdir` and `writer.New`, whose source is not part of this model.
