# ares-files directory scan, modelled in Dafny

This project models the filesystem helpers of `index.js` that have behaviour of
their own. These are the recursive directory scan `getFiles`, its wrapper
`getFilesRecursively`, and the existence checks `isDirectory`, `isFile` and
`fileExists`. It proves what these helpers promise their callers.

The host filesystem is an immutable, finite tree (`FsTree.Node`): a `File` or a
`Dir` with an ordered sequence of children. The order of the children stands
for the host's directory enumeration order. A path is the sequence of entry
names from the filesystem root, so `join(dir, name)` is `dir + [name]`.
`FsTree.Resolve` plays the part of `statSync`/`readdirSync`. A missing name
gives `NoEntry` (ENOENT). Stepping through a file gives `NotADirectory`
(ENOTDIR). A raised exception is the `Err` case of `FsTree.Result`.

The pattern test `filePath.match(pattern)` is a total predicate
`matches: Path -> bool` that the caller supplies. Nothing is assumed about it.
The `recursively` argument is `Scanner.Recursion`, which is either a boolean
`Flag` or a `Number`. The source consults only its truthiness and its `typeof`
tag. The decrement at index.js:88 is guarded by `typeof recursively == "int"`.
That comparison never holds, because `typeof` yields `"number"` or
`"boolean"`. So the argument is passed down unchanged: any non-zero number
recurses without limit and `0` does not recurse. The guard suggests a depth
budget was meant, but the code never applies it. The model follows the code,
and `ScanTheorems.NumberActsAsFlag` states the behaviour as written.

Only `fileExists` swallows the stat failure. `isDirectory` lets it propagate,
and so does `isFile`, because it stats the path before it calls `fileExists`.

The scan is a pair of mutually recursive functions. `Scanner.ScanEntries` is the
`forEach` and threads the accumulator. `Scanner.VisitEntry` is the body for one
entry. `ScannerProps` relates them to an independent reference that does not
use an accumulator. `Walk` and `Block` give the pre-order enumeration of every
entry below a directory, `Listing` gives its direct entries, and `Selected`
applies the pattern and `onlyFiles` filter. `ScanTheorems` lifts these results
to whole-filesystem statements about `getFiles`.

Files: `fs_tree.dfy` (tree, paths, resolution, well-formedness),
`scanner.dfy` (the scan), `scanner_props.dfy` (reference traversal and the
equivalence proofs), `existence.dfy` (existence checks),
`scan_theorems.dfy` (caller-level properties and worked examples).

## Model

| member | source | states |
|---|---|---|
| FsTree.ResolveAppend | index.js:73-74 | Statting `join(dir, name…)` resolves `dir` first and then the rest below it, raising ENOENT or ENOTDIR at the first component that fails |
| FsTree.ChildResolves | index.js:71-74 | On a filesystem with unique names per directory, statting `join(dir, file)` for an entry `file` that `readdirSync(dir)` listed finds exactly that entry, so the scan may use the listed node in place of re-reading the joined path |
| Scanner.Next | index.js:88 | The recursion argument handed to a nested scan equals the one received: the decrement never happens |
| Scanner.ScanEntries | index.js:72-92 | The incoming accumulator is a prefix of the result. Every appended path passes the pattern and lies strictly below the scanned directory. With a falsy recursion argument every appended path is exactly one level below it |
| Scanner.VisitEntry | index.js:73-91 | For one entry: the accumulator is kept as a prefix, and everything appended (the entry and its subtree's results) matches the pattern and lies below the directory. Nothing deeper than one level is appended when recursion is off |
| Scanner.GetFiles | index.js:62-95 | Returns a list exactly when the root resolves to a directory. A missing root raises the stat error and a file root raises ENOTDIR, never an empty list. The caller's array is a prefix and all appended paths match |
| Scanner.GetFilesRecursively | index.js:39-46 | Same failure condition as `getFiles`, and the caller's array is kept as a prefix |
| ScannerProps.VisitSplit | index.js:75-91 | Visiting an entry appends the same paths whatever accumulator it receives |
| ScannerProps.AccumulatorSplit | index.js:79-90 | The scan returns the caller's accumulator followed by exactly what a scan from an empty accumulator returns, which is how every nested call starts |
| ScannerProps.ScanConcat | index.js:72 | Entries are processed in enumeration order: scanning `a + b` yields the results for `a`, then those for `b` |
| ScannerProps.ScanIsWalk | index.js:72-92 | With a truthy recursion argument, the scan equals the filtered pre-order walk of the whole subtree, at every finite depth |
| ScannerProps.VisitIsBlock | index.js:75-91 | With recursion on, a visited entry that passes the filter is appended immediately before the filtered results of its own subtree |
| ScannerProps.ScanIsListing | index.js:81 | With a falsy recursion argument, the scan equals the filtered list of direct entries: no directory is descended into |
| ScanTheorems.GetFilesNeedsDirectory | index.js:70 | `getFiles` succeeds exactly when `isDirectory(root)` is true. On a missing root it raises the same error as `isDirectory`, and on a file root it raises ENOTDIR |
| ScanTheorems.GetFilesKeepsArray | index.js:67-90 | The caller's `fileArray` comes back unchanged as a prefix, followed by what a call with the default empty array returns |
| ScanTheorems.GetFilesIsWalk | index.js:72-92 | With recursion on, the result is the caller's array followed by the pre-order walk below the root, filtered by pattern and `onlyFiles` |
| ScanTheorems.GetFilesIsListing | index.js:72-81 | With recursion off, the result is the caller's array followed by the root's direct entries, filtered by pattern and `onlyFiles` |
| ScanTheorems.NumberActsAsFlag | index.js:81-88 | A numeric recursion argument behaves exactly like its truthiness: non-zero means unlimited depth and zero means none |
| ScanTheorems.GetFilesRecursivelyIsWalk | index.js:39-46 | `getFilesRecursively` equals `getFiles` under every truthy recursion argument, and it returns the filtered pre-order walk below the root |
| ScanTheorems.GetFilesSound | index.js:73-80 | Every appended path satisfies the pattern, exists, and lies strictly below the root. It is a file (`isFile` true) whenever `onlyFiles` is set, even when a directory matches. It lies one level below the root when recursion is off |
| ScanTheorems.GetFilesCompleteRecursive | index.js:72-91 | With recursion on, every existing path below the root that matches and passes `onlyFiles` is returned |
| ScanTheorems.GetFilesCompleteFlat | index.js:72-80 | With recursion off, every existing direct entry of the root that matches and passes `onlyFiles` is returned |
| ScanTheorems.GetFilesNoDuplicates | index.js:72-92 | On a filesystem with unique names per directory, no path is appended twice |
| ScanTheorems.TxtExampleRecursive | index.js:62-95 | On `root/{a.txt, sub/{b.txt}}` with pattern `.txt$` and `onlyFiles`, a recursive scan returns `root/a.txt` then `root/sub/b.txt` |
| ScanTheorems.TxtExampleFlat | index.js:72-81 | The same scan without recursion returns only `root/a.txt` |
| ScanTheorems.MissingRootExample | index.js:70 | Scanning a root that does not exist raises ENOENT instead of returning an empty list |
| Existence.IsDirectory | index.js:110-112 | Raises the stat error exactly when the path does not resolve, and is true exactly for a directory |
| Existence.IsFile | index.js:127-129 | Raises exactly when `fileExists` is false, because stat is consulted first. It is true exactly for an existing file |
| Existence.FileExists | index.js:307-314 | Never raises, and is true exactly when the path resolves |
| Existence.ExistenceAgreement | index.js:127-129 | On an existing path, exactly one of `isFile` and `isDirectory` is true. On a missing path both raise the same error and `fileExists` is false |
| Existence.NothingBelowAFile | index.js:110-112 | A path that continues below an existing file does not exist, and `isDirectory` raises ENOTDIR for it |

## Left out

- `getFileContent` and `setFileContent` (index.js:146-185) are file I/O and are not modelled. The write is asynchronous and callback-based, and its errors are only logged, so it returns nothing that a contract could constrain.
- `getAbsolutePath`, `getFile`, `getFileExtension`, `getBaseName`, `getParent` and `getRelativePathFrom` are not modelled. Each is a one-line delegation to Node's `path` module, whose implementation is not part of this model.
- `getFileName` (index.js:237-242) is not modelled. It builds a regular expression from `extname` output, and modelling it would need JavaScript regular-expression semantics.
- Regular-expression semantics of `String.prototype.match` are not modelled. The pattern is an arbitrary total predicate. A pattern string that is not a valid regular expression makes `match` throw, and that failure is not modelled.
- Console logging (index.js:69) is a side effect with no bearing on the result.
- Caller array aliasing is not modelled. `fileArray.push` mutates the caller's array object until the first directory descent replaces `fileArray` with a fresh array. The model describes only the returned array.
- Symbolic links, cycles, permissions, and changes to the filesystem during a scan are outside the finite immutable tree. So a nested `readdirSync`/`statSync` never fails in the model, and only the root listing can raise.
- JavaScript values other than booleans and integers for `recursively` and `onlyFiles` are not modelled. This covers strings, `undefined`, `NaN` and fractions. The defaults (`onlyFiles = false`, `recursively = false`, `fileArray = []`) become explicit arguments.
- The nested `statSync(filePath)` and `getFiles(filePath, …)` are not re-resolved from the filesystem root. The scan uses the node the listing enumerated. `FsTree.ChildResolves` shows this is the node a re-stat finds whenever names are unique within each directory, as on a real filesystem. On a tree with duplicate names the two could differ.
- Path normalisation is not modelled. This covers `normalize` in `fileExists`, and `join`'s handling of `.`, `..`, empty or slash-containing names. Paths are sequences of plain names, which are already normal.
- Scanner.GetFilesRecursively: its own contract states only the failure condition and the prefix. The full result is stated by `ScanTheorems.GetFilesRecursivelyIsWalk`.
