/**
 The recursive directory scan `getFiles` and its wrapper
 `getFilesRecursively` over the immutable filesystem tree.

 The pattern test `filePath.match(pattern)` is the caller-supplied total
 predicate `matches`; nothing about regular expressions is assumed.
 */
module Scanner {
  import opened FsTree

  /**
   The `recursively` argument as the source receives it: a boolean or a
   number. Only its truthiness and its `typeof` tag are ever consulted.
   */
  datatype Recursion = Flag(on: bool) | Number(depth: int)

  /** JavaScript truthiness of the recursion argument. */
  predicate Truthy(rc: Recursion)
  {
    match rc
    case Flag(b) => b
    case Number(n) => n != 0
  }

  /** The tag JavaScript's `typeof` yields for the recursion argument. */
  function TypeOf(rc: Recursion): string
  {
    if rc.Flag? then "boolean" else "number"
  }

  /**
   The recursion argument handed to a nested scan. The decrement is guarded
   by a comparison of `typeof` with "int", a tag `typeof` never produces, so
   the argument is passed down unchanged.
   */
  function Next(rc: Recursion): (next: Recursion)
    ensures next == rc
  {
    match rc
    case Number(n) => if TypeOf(rc) == "int" then Number(n - 1) else rc
    case Flag(_) => rc
  }

  /** Whether a just-stated entry is appended: the pattern test and the `onlyFiles` filter. */
  predicate Keep(matches: Path -> bool, onlyFiles: bool, p: Path, isDir: bool)
  {
    matches(p) && (if onlyFiles then !isDir else true)
  }

  /**
   The `forEach` over the entries `cs` of directory `dir`, threading the
   accumulator `acc` from entry to entry in enumeration order.
   */
  function ScanEntries(cs: seq<Node>, dir: Path, matches: Path -> bool, onlyFiles: bool,
                       rc: Recursion, acc: seq<Path>): (r: seq<Path>)
    ensures acc <= r
    ensures forall i :: |acc| <= i < |r| ==> matches(r[i])
    ensures forall i :: |acc| <= i < |r| ==> dir < r[i]
    ensures !Truthy(rc) ==> forall i :: |acc| <= i < |r| ==> |r[i]| == |dir| + 1
    decreases cs
  {
    if cs == [] then acc
    else ScanEntries(cs[1..], dir, matches, onlyFiles, rc, VisitEntry(cs[0], dir, matches, onlyFiles, rc, acc))
  }

  /**
   The body of the `forEach` for one entry `c` of directory `dir`. A
   matching entry is pushed; a directory is then scanned by a nested call
   that receives no accumulator, so starts from an empty one, and that
   call's result is appended.
   */
  function VisitEntry(c: Node, dir: Path, matches: Path -> bool, onlyFiles: bool,
                      rc: Recursion, acc: seq<Path>): (r: seq<Path>)
    ensures acc <= r
    ensures forall i :: |acc| <= i < |r| ==> matches(r[i])
    ensures forall i :: |acc| <= i < |r| ==> dir < r[i]
    ensures !Truthy(rc) ==> forall i :: |acc| <= i < |r| ==> |r[i]| == |dir| + 1
    decreases c
  {
    var filePath := dir + [c.name];
    var pushed := if Keep(matches, onlyFiles, filePath, c.Dir?) then acc + [filePath] else acc;
    if c.Dir? && Truthy(rc)
    then pushed + ScanEntries(c.children, filePath, matches, onlyFiles, Next(rc), [])
    else pushed
  }

  /**
   `getFiles(root, pattern, onlyFiles, recursively, fileArray)`. Listing the
   root fails exactly when it does not resolve to a directory, and the
   failure is propagated: a missing root never yields an empty list.
   */
  function GetFiles(fs: Node, root: Path, matches: Path -> bool, onlyFiles: bool,
                    rc: Recursion, fileArray: seq<Path>): (r: Result<seq<Path>>)
    ensures r.Ok? <==> Resolve(fs, root).Ok? && Resolve(fs, root).value.Dir?
    ensures Resolve(fs, root).Err? ==> r == Err(Resolve(fs, root).error)
    ensures Resolve(fs, root).Ok? && Resolve(fs, root).value.File? ==> r == Err(NotADirectory)
    ensures r.Ok? ==> fileArray <= r.value
    ensures r.Ok? ==> forall i :: |fileArray| <= i < |r.value| ==> matches(r.value[i])
  {
    match Resolve(fs, root)
    case Err(e) => Err(e)
    case Ok(File(_)) => Err(NotADirectory)
    case Ok(Dir(_, cs)) => Ok(ScanEntries(cs, root, matches, onlyFiles, rc, fileArray))
  }

  /** `getFilesRecursively`: the scan with recursion switched on. */
  function GetFilesRecursively(fs: Node, root: Path, matches: Path -> bool, onlyFiles: bool,
                               fileArray: seq<Path>): (r: Result<seq<Path>>)
    ensures r.Ok? <==> Resolve(fs, root).Ok? && Resolve(fs, root).value.Dir?
    ensures r.Ok? ==> fileArray <= r.value
  {
    GetFiles(fs, root, matches, onlyFiles, Flag(true), fileArray)
  }
}
