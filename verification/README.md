# AList-STRM in Dafny

AList-STRM mirrors a remote WebDAV tree (an AList server) into a local
directory. Video files become `.strm` pointer files holding a direct-link
URL. Files with a "download" extension are copied in full. Everything else
is ignored. The repository holds two versions of the tool: a Go program
(`main.go`) and a Python one (`main.py`).

This project models the deterministic core of both versions as pure
functions over strings, sequences and finite trees, and proves properties
about them:

- **Go `parse`** (`goparse.dfy`, with `gopath.dfy`, `gosort.dfy`, `text.dfy`).
  It takes the extension with `filepath.Ext`, sorts copies of both extension
  lists and looks the extension up by binary search (`sort.SearchStrings`).
  The strm list is consulted first, then the download list. The result is an
  `Effect` value holding the paths and content that `generateSTRM` or
  `downloadFile` would write. `GoParse.GenerateStrm` and `GoParse.DownloadFile`
  build these values; their properties are stated by `GoParse.StrmTarget` and
  `GoParse.DownloadTarget`.
- **Go `walk`** (`gowalk.dfy`), over an abstract tree in which each
  directory's listing is either a `ReadDir` error or its entries. The
  callback is a function parameter. It is modelled as written: it returns
  after the first entry of each directory. A corrected walker, `WalkAll`,
  and a pre-order reference listing, `AllFiles`, are proved against it (see
  Findings).
- **Python `get_files`** (`pywalk.dfy`, with `pynames.dfy`). It drops the first
  listed name, recurses into names ending in `/` with `dir + name`, and
  splits every other name into a name and a lower-cased extension. Its
  result is tied to tree addresses: each yielded record comes from the file
  entry at a matching address, addresses increase strictly in pre-order, and
  every file entry is reached when no listing raised.
- **Python `generate_strm_by_files`** (`pydispatch.dfy`). The local
  filesystem is a set of existing paths. The download list takes precedence,
  and an existing target is skipped. Over a whole run, no path is written
  twice, and a second run writes nothing.
- **Python connect-retry loop** in `StrmGenerator.__init__` (`pyconnect.dfy`).
  The outcomes of successive `client.check` calls are a parameter.

Go compares strings byte by byte. On UTF-8 text that equals code-point order,
which is the order used on Dafny `char`.

## Model

| member | source | states |
|---|---|---|
| Text.TrimSuffix | main.go:130 | when the suffix is present, the trimmed string plus the suffix is the original; otherwise the string is unchanged |
| Text.IndexOf | main.go:120 | the result is an occurrence of the pattern with no earlier occurrence; none means the pattern occurs nowhere |
| Text.ReplaceFirst | main.go:120 | with no occurrence the string is unchanged; otherwise only the first occurrence is replaced, and the text before and after it is kept |
| Text.ReplaceChar | main.py:60 | same length; every occurrence of the character is replaced and every other character is kept |
| GoPath.ExtScan | main.go:125 | the backward scan for `filepath.Ext` stops at the first '.' or '/' from the end; the result is empty or a '.'-led suffix with no further '.' or '/' |
| GoPath.Ext | main.go:125 | `filepath.Ext` is empty exactly when no '.' lies in the last path element; otherwise it is the suffix from the last '.', with no other '.' or '/' |
| GoPath.StripTrailingSlashes | main.go:97 | the result is a prefix with no trailing '/', and only '/' characters were removed |
| GoPath.LastSlash | main.go:97 | the index found holds a '/' with none after it; none means the string has no '/' |
| GoPath.Base | main.go:97 | `path.Base` is never empty, is "." for the empty path, and is "/" or free of '/' |
| GoPath.BaseOfJoin | main.go:97-98 | `path.Base(dir + "/" + name)` is `name` for a non-empty `name` without '/' |
| GoSort.LessIrreflexive | main.go:126-127 | Go's string order is irreflexive |
| GoSort.LessTotal | main.go:126-127 | Go's string order is total on distinct strings |
| GoSort.LessTransitive | main.go:126-127 | Go's string order is transitive |
| GoSort.LessEqTransitive | main.go:126-127 | the non-strict order is transitive |
| GoSort.Insert | main.go:126-127 | inserting into a sorted list keeps it sorted and adds exactly that element |
| GoSort.SortStrings | main.go:126-127 | `sort.Strings` yields a sorted permutation of its input |
| GoSort.SortKeepsMembers | main.go:126-129 | sorting neither adds nor removes a member |
| GoSort.SearchStrings | main.go:128 | binary search returns the boundary: every element before it is less than the key, and none from it on is |
| GoSort.SearchFindsMember | main.go:129 | "index in range and element equals key" holds exactly when the key is in the sorted list |
| GoParse.Parse | main.go:124-136 | the chosen effect is a pointer file when the extension is on the strm list, else a download when it is on the download list, else nothing; each effect has exactly the arguments `parse` passes |
| GoParse.Classify | main.go:128-135 | which action an extension gets; its properties are stated by `GoParse.Parse` (classification by plain membership in the unsorted lists) and `GoParse.StrmTakesPrecedence` |
| GoParse.DirectLink | main.go:120 | the host with only its first "/dav" turned into "/d"; unchanged when "/dav" is absent |
| GoParse.GenerateStrm | main.go:108-122 | the pointer file `generateSTRM` creates; its directory, file name and content are stated by `GoParse.StrmTarget` |
| GoParse.DownloadFile | main.go:87-106 | the copy `downloadFile` makes; that it lands at `localDir/path/filename` is stated by `GoParse.DownloadTarget` |
| GoParse.StrmName | main.go:130 | the pointer file name ends in ".strm", and the part before ".strm" followed by the extension is the original name |
| GoParse.StrmTakesPrecedence | main.go:128-131 | an extension on both lists is classified as a pointer file |
| GoParse.ExtSplitsName | main.go:125-130 | trimming the extension and appending it again gives the name; the extension is empty exactly when the last element has no '.', and so when the name has no '.' |
| GoParse.StrmNameShape | main.go:130 | the pointer file name ends in ".strm", and the part before it plus the extension is the original name |
| GoParse.StrmTarget | main.go:108-130 | the pointer file is written in `localDir/path`, is named `localDir/path/<stem>.strm`, and holds the direct link, then "/", then `path/filename` |
| GoParse.DownloadTarget | main.go:97-98 | for a non-empty name without '/', the copy of `path/filename` lands at `localDir/path/filename` |
| GoWalk.Walk | main.go:72-85 | at most one callback per call; when a callback is made, walk returns its result |
| GoWalk.AllFiles | main.go:77-83 | the reference pre-order listing of every file under a directory; `GoWalk.AllFilesComplete` and `GoWalk.AllFilesSound` state that it holds exactly the files some address reaches |
| GoWalk.WalkListingError | main.go:73-76 | a listing error is returned unchanged, with no callback |
| GoWalk.WalkEmptyListing | main.go:77-84 | an empty listing returns nil, with no callback |
| GoWalk.WalkIsPrefixOfAllFiles | main.go:77-83 | whatever walk visits is a prefix of the full pre-order file listing |
| GoWalk.WalkReachesOnlyFirstEntries | main.go:77-83 | the file handed to the callback sits at an address made only of index 0 |
| GoWalk.OnlyFirstEntryReached | main.go:77-83 | in a directory holding two files, only the first reaches the callback |
| GoWalk.EmptyFirstDirHidesSiblings | main.go:77-84 | an empty first subdirectory hides every later entry: nothing is visited and nil is returned |
| GoWalk.WalkAll | main.go:72-85 | the corrected walker's visits are always a prefix of the full pre-order listing, and equal it when no error occurs |
| GoWalk.WalkAllFrom | main.go:77-83 | the corrected loop over the entries from index i has the same prefix/equality guarantee |
| GoWalk.WalkAllVisitsEveryFile | main.go:72-85 | on a readable tree whose callback never fails, the corrected walker visits every file in pre-order and returns nil |
| GoWalk.WalkAllFromVisitsEveryFile | main.go:77-83 | the corrected loop over the entries reports no error on a readable tree whose callback never fails |
| GoWalk.AllFilesComplete | main.go:77-83 | every file that some address reaches is in the full pre-order listing |
| GoWalk.AllFilesSound | main.go:77-83 | every file in the full pre-order listing is reached by some address |
| GoWalk.EntryFilesInAllFiles | main.go:77-83 | the files of every later entry are in the listing that starts at an earlier entry |
| GoWalk.AllFilesOfSound | main.go:77-83 | a file in the listing from entry i is reached by an address |
| PyNames.Split | main.py:46 | `str.split` gives at least one piece, and no piece holds the separator |
| PyNames.Join | main.py:51 | `'.'.join`; its properties are stated by `PyNames.JoinSplit` (it undoes a split) and `PyNames.JoinSnoc` |
| PyNames.JoinSplit | main.py:46-51 | joining the pieces of a split with the separator gives the string back |
| PyNames.SplitSingle | main.py:48 | a split has a single piece exactly when the separator is absent |
| PyNames.JoinSnoc | main.py:51 | joining all pieces but the last, then the separator and the last piece, is joining all pieces |
| PyNames.Lower | main.py:52 | `str.lower` keeps the length and lower-cases each character (ASCII letters) |
| PyNames.SplitName | main.py:46-52 | the name/extension split; `PyNames.SplitNameWithoutDot` states that an entry without '.' is kept whole with an empty extension, and `PyNames.SplitNameWithDot` that otherwise the name, a '.' and the last piece rebuild the entry and the extension holds no '.' |
| PyNames.SplitNameWithoutDot | main.py:46-49 | an entry without '.' gives name = the whole entry and ext = '' |
| PyNames.SplitNameWithDot | main.py:46-52 | with a '.', name + '.' + the last piece is the entry; ext is that piece lower-cased and holds no '.' |
| PyNames.SplitWithoutSep | main.py:46 | a string without the separator splits into itself alone |
| PyNames.SplitAtFirst | main.py:46 | splitting at a first separator gives the part before it, then the split of the rest |
| PyNames.StemAndExtension | main.py:46-52 | "stem.ext" (neither part holding '.') splits into the stem and the lower-cased ext |
| PyWalk.MakeFile | main.py:46-52 | the record keeps the directory it was listed in, and its extension holds no '.'; an entry without '.' becomes (dir, entry, '') |
| PyWalk.GetFiles | main.py:40-52 | every yielded record's directory extends the starting directory, and no extension holds a '.'; `PyWalk.PositionsAligned`, `PyWalk.PositionsOrdered` and `PyWalk.PositionsComplete` state which entries are yielded and in what order |
| PyWalk.GetFrom | main.py:41-52 | the same for the names from index i on |
| PyWalk.RecordOfStemAndExtension | main.py:46-52 | the record yielded for "stem.ext" in dir is (dir, stem, lower(ext)) |
| PyWalk.PositionsAligned | main.py:40-52 | each yielded record is made from the non-directory entry at its matching address, in the directory listed there |
| PyWalk.PositionsFromAligned | main.py:41-52 | the same alignment for the entries from index i on |
| PyWalk.PositionsOrdered | main.py:40-45 | the yielded records' addresses strictly increase (listing order, depth-first), so no entry is yielded twice |
| PyWalk.PositionsFromOrdered | main.py:41-45 | the same ordering for the entries from index i on; every address there starts at index i or later |
| PyWalk.PositionsComplete | main.py:40-55 | when no listing raised, every file entry after the first listed name of every reached directory is yielded |
| PyWalk.PositionsFromComplete | main.py:41-52 | the same completeness for the entries from index i on |
| PyWalk.ListableNeverRaises | main.py:41 | the generator raises only when some reached listing raises |
| PyWalk.ListableFromNeverRaises | main.py:41-44 | the same for the entries from index i on |
| PyWalk.TwoFileDirectory | main.py:41-52 | a listing of itself and two files: the first name is skipped, and both files are yielded in order with lower-cased extensions |
| PyDispatch.Decide | main.py:59-75 | the local directory is created exactly when missing; a file is written exactly when the extension is listed and its target is missing; a download when the extension is on the download list, otherwise a pointer file holding the rewritten URL |
| PyDispatch.RunAll | main.py:59-76 | over a run, every intended target ends up existing, nothing that existed is written, and no path is written twice |
| PyDispatch.DownloadTakesPrecedence | main.py:66-70 | an extension on both lists is downloaded, never turned into a pointer file |
| PyDispatch.UnlistedWritesNothing | main.py:66-72 | an extension on neither list writes no file |
| PyDispatch.ExistingTargetSkipped | main.py:66-72 | when `save_path` or `name.strm` already exists, nothing is written |
| PyDispatch.StrmContentRewritesFirstDav | main.py:75 | the pointer text is the host, then the remote path with only its first "/dav" turned into "/d" |
| PyDispatch.RunTwiceWritesNothing | main.py:66-72 | a second run over the same records writes nothing |
| PyDispatch.GenerateTwiceWritesNothing | main.py:78-80 | re-running generate against an unchanged remote tree rewrites no output |
| PyDispatch.RemotePathUsesLowerCaseExtension | main.py:60 | the remote path is rebuilt from the record, so it carries the lower-cased extension |
| PyDispatch.AbsolutePath | main.py:60 | the remote path rebuilt from the record; `PyDispatch.RemotePathUsesLowerCaseExtension` states that it carries the lower-cased extension, `PyDispatch.PathsUseForwardSlashes` that it holds no `\` |
| PyDispatch.SavePath | main.py:61-62 | the local path under `save_dir`; `PyDispatch.Decide` states when it is downloaded to, `PyDispatch.PathsUseForwardSlashes` that it holds no `\` |
| PyDispatch.PathsUseForwardSlashes | main.py:60-62 | `absolute_path` and `save_path` hold no `\`, whatever the platform's path functions return |
| PyDispatch.LocalDir | main.py:63 | the inner `save_dir`; `PyDispatch.Decide` states that it is created exactly when missing |
| PyDispatch.StrmPath | main.py:71-73 | the `name.strm` path beside the local copy; `PyDispatch.Decide` and `PyDispatch.ExistingTargetSkipped` state when it is written |
| PyDispatch.StrmContent | main.py:75 | the pointer text; `PyDispatch.StrmContentRewritesFirstDav` states that only the first "/dav" is rewritten |
| PyDispatch.Generate | main.py:54-55 | generate never raises on a tree whose reached listings all return, and never removes an existing path; `PyDispatch.GenerateTwiceWritesNothing` states that a second run writes nothing |
| PyConnect.Connect | main.py:28-37 | at most `retry_times` checks; success stops at the first success; an uncaught exception propagates at once; ConnectionException is raised exactly when every one of the `retry_times` attempts failed (or `retry_times <= 0`) |

## Left out

- The WebDAV clients (`gowebdav`, `webdav3`) are network I/O: `Connect`, `ReadDir`, `ReadStream`, `list`, `check` and `download_sync`. Listings and check outcomes are inputs. Copying the bytes, and the errors a transfer can raise or return, are not modelled.
- Local filesystem effects (`os.Stat`, `MkdirAll`, `os.Create`, `io.Copy`, `os.makedirs`, `open`/`write`) are modelled only as the paths and content they receive. Their failures are not modelled.
- Go `generate` (main.go:38-70), with its goroutine pool, `sync.WaitGroup`, token channel and `sync.Once`, is concurrency and is not modelled. Note that `once.Do` assigns to the callback's own named result. Worker errors therefore do not reliably reach `generate`'s return value, so no error aggregation is modelled.
- `sort.Strings` in `parse` sorts the caller's shared slices in place, from concurrent workers. The model sorts a copy, which gives the same membership answers.
- Flag parsing and comma-splitting of options (main.go:16-36), the hard-coded `__main__` configuration (main.py:83-91) and `time.sleep` (main.py:76) are left out.
- `os.path.normpath`, `relpath`, `join` and `dirname` are function fields of `PathLib`. Their library semantics are not modelled. The backslash replacement is modelled.
- PyDispatch.Decide: `os.makedirs` also creates missing parents, but the model records only the leaf directory as created.
- PyConnect.Connect: `retry_times` defaults to 3 in the source; the model takes it as a required argument, because Dafny functions and methods have no default arguments.
- PyDispatch.Config: the default extension tuples of `generate` (main.py:78-79) are not built in; `downloadExts` and `strmExts` are required fields, because the model has no default arguments.
- GoPath.Ext: stops only at '/', while Go's `filepath.Ext` stops at every `os.IsPathSeparator`, which also includes `\` on Windows; the model fixes a slash-separated platform.
- PyNames.Lower: lower-cases ASCII letters only, because full Unicode case mapping is not modelled.
- GoSort.Less: compares `char` code points, not UTF-8 bytes. The two orders agree on valid UTF-8.
- Python `list_files` (main.py:54-55) only delegates to `get_files` from `remote_path`. This call appears inside `PyDispatch.Generate`.

## Findings

| source | as written | input that shows it | evidently intended | confidence | as-written member | corrected member |
|---|---|---|---|---|---|---|
| main.go:77-83 | the loop returns on its first entry: it recurses into a first subdirectory or calls the callback on a first file, and never looks at later entries | a directory listing `a.mkv`, `b.mkv` hands only `a.mkv` to the callback; a directory whose first entry is an empty subdirectory hands nothing on and returns nil | every entry of every directory is handled, as the Python traversal does | high; not executed | GoWalk.Walk, GoWalk.OnlyFirstEntryReached, GoWalk.EmptyFirstDirHidesSiblings | GoWalk.WalkAll, GoWalk.WalkAllVisitsEveryFile |
