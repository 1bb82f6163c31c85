/**
 The existence helpers `isDirectory`, `isFile` and `fileExists`. Each
 consults the host's stat, which fails for a path that does not resolve.
 `isDirectory` and `isFile` let that failure propagate; `fileExists`
 swallows it.
 */
module Existence {
  import opened FsTree

  /**
   What a successful stat reports. A successful stat always carries a change
   time, so the source's `ctime != null` test is always true and is not a field.
   */
  datatype Stats = Stats(isDirectory: bool)

  /** The host's stat: the entry's kind, or the error that resolving its path raises. */
  function StatSync(fs: Node, p: Path): Result<Stats>
  {
    match Resolve(fs, p)
    case Err(e) => Err(e)
    case Ok(n) => Ok(Stats(n.Dir?))
  }

  /** `isDirectory`: the stat's verdict; a missing path raises the stat's error. */
  function IsDirectory(fs: Node, p: Path): (r: Result<bool>)
    ensures r.Err? <==> Resolve(fs, p).Err?
    ensures r.Err? ==> r.error == Resolve(fs, p).error
    ensures r == Ok(true) <==> Resolve(fs, p).Ok? && Resolve(fs, p).value.Dir?
  {
    match StatSync(fs, p)
    case Err(e) => Err(e)
    case Ok(s) => Ok(s.isDirectory)
  }

  /** `fileExists`: never raises; false exactly when stat fails. */
  function FileExists(fs: Node, p: Path): (r: bool)
    ensures r <==> Resolve(fs, p).Ok?
  {
    match StatSync(fs, p)
    case Err(_) => false
    case Ok(_) => true
  }

  /**
   `isFile`: the stat is consulted first and its failure propagates, so a
   missing path raises rather than answering false; `fileExists` is only
   asked about a path that is not a directory.
   */
  function IsFile(fs: Node, p: Path): (r: Result<bool>)
    ensures r.Err? <==> !FileExists(fs, p)
    ensures r.Err? ==> r.error == Resolve(fs, p).error
    ensures r == Ok(true) <==> Resolve(fs, p).Ok? && Resolve(fs, p).value.File?
  {
    match StatSync(fs, p)
    case Err(e) => Err(e)
    case Ok(s) => Ok(!s.isDirectory && FileExists(fs, p))
  }

  /**
   The three helpers agree: on an existing path exactly one of `isFile` and
   `isDirectory` holds; on a missing one both raise the same error while
   `fileExists` answers false.
   */
  lemma ExistenceAgreement(fs: Node, p: Path)
    ensures FileExists(fs, p) <==> IsDirectory(fs, p).Ok?
    ensures FileExists(fs, p) <==> IsFile(fs, p).Ok?
    ensures FileExists(fs, p) ==> IsFile(fs, p).value != IsDirectory(fs, p).value
    ensures !FileExists(fs, p) ==> IsFile(fs, p) == IsDirectory(fs, p)
  {
  }

  /** A path below an existing file does not exist: stat reports ENOTDIR. */
  lemma NothingBelowAFile(fs: Node, p: Path, q: Path)
    requires IsFile(fs, p) == Ok(true)
    requires q != []
    ensures !FileExists(fs, p + q)
    ensures IsDirectory(fs, p + q) == Err(NotADirectory)
  {
    ResolveAppend(fs, p, q);
  }
}
