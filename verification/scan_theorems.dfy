/**
 What `getFiles` and `getFilesRecursively` promise their callers, stated
 over the whole filesystem: which paths come back, in which order, how deep,
 and when the call raises instead.
 */
module ScanTheorems {
  import opened FsTree
  import opened Scanner
  import opened ScannerProps
  import opened Existence

  /** The scan succeeds exactly when `isDirectory` answers true for the root. */
  lemma GetFilesNeedsDirectory(fs: Node, root: Path, matches: Path -> bool, onlyFiles: bool,
                               rc: Recursion, fileArray: seq<Path>)
    ensures GetFiles(fs, root, matches, onlyFiles, rc, fileArray).Ok? <==> IsDirectory(fs, root) == Ok(true)
    ensures IsDirectory(fs, root).Err? ==>
              GetFiles(fs, root, matches, onlyFiles, rc, fileArray) == Err(IsDirectory(fs, root).error)
    ensures IsDirectory(fs, root) == Ok(false) ==>
              GetFiles(fs, root, matches, onlyFiles, rc, fileArray) == Err(NotADirectory)
  {
  }

  /**
   The caller's array is kept unchanged as a prefix of the result; what
   follows it is what a call without an array returns.
   */
  lemma GetFilesKeepsArray(fs: Node, root: Path, matches: Path -> bool, onlyFiles: bool,
                           rc: Recursion, fileArray: seq<Path>)
    ensures GetFiles(fs, root, matches, onlyFiles, rc, fileArray).Ok? ==>
              GetFiles(fs, root, matches, onlyFiles, rc, []).Ok? &&
              GetFiles(fs, root, matches, onlyFiles, rc, fileArray).value
                == fileArray + GetFiles(fs, root, matches, onlyFiles, rc, []).value
  {
    match Resolve(fs, root)
    case Err(_) =>
    case Ok(n) =>
      if n.Dir? {
        AccumulatorSplit(n.children, root, matches, onlyFiles, rc, fileArray);
      }
  }

  /** With a truthy recursion argument the result is the filtered pre-order walk below the root. */
  lemma GetFilesIsWalk(fs: Node, root: Path, matches: Path -> bool, onlyFiles: bool,
                       rc: Recursion, fileArray: seq<Path>)
    requires Truthy(rc)
    requires Resolve(fs, root).Ok? && Resolve(fs, root).value.Dir?
    ensures GetFiles(fs, root, matches, onlyFiles, rc, fileArray)
         == Ok(fileArray + Selected(Walk(Resolve(fs, root).value.children, root), matches, onlyFiles))
  {
    ScanIsWalk(Resolve(fs, root).value.children, root, matches, onlyFiles, rc, fileArray);
  }

  /** With a falsy recursion argument the result is the filtered listing of the root alone. */
  lemma GetFilesIsListing(fs: Node, root: Path, matches: Path -> bool, onlyFiles: bool,
                          rc: Recursion, fileArray: seq<Path>)
    requires !Truthy(rc)
    requires Resolve(fs, root).Ok? && Resolve(fs, root).value.Dir?
    ensures GetFiles(fs, root, matches, onlyFiles, rc, fileArray)
         == Ok(fileArray + Selected(Listing(Resolve(fs, root).value.children, root), matches, onlyFiles))
  {
    ScanIsListing(Resolve(fs, root).value.children, root, matches, onlyFiles, rc, fileArray);
  }

  /**
   A numeric recursion argument acts only through its truthiness: any
   non-zero number descends without limit, zero does not descend at all.
   */
  lemma NumberActsAsFlag(fs: Node, root: Path, matches: Path -> bool, onlyFiles: bool,
                         n: int, fileArray: seq<Path>)
    ensures GetFiles(fs, root, matches, onlyFiles, Number(n), fileArray)
         == GetFiles(fs, root, matches, onlyFiles, Flag(n != 0), fileArray)
  {
    if Resolve(fs, root).Ok? && Resolve(fs, root).value.Dir? {
      if n != 0 {
        GetFilesIsWalk(fs, root, matches, onlyFiles, Number(n), fileArray);
        GetFilesIsWalk(fs, root, matches, onlyFiles, Flag(true), fileArray);
      } else {
        GetFilesIsListing(fs, root, matches, onlyFiles, Number(n), fileArray);
        GetFilesIsListing(fs, root, matches, onlyFiles, Flag(false), fileArray);
      }
    }
  }

  /**
   `getFilesRecursively` is the filtered pre-order walk below the root, and
   agrees with `getFiles` under every truthy recursion argument.
   */
  lemma GetFilesRecursivelyIsWalk(fs: Node, root: Path, matches: Path -> bool, onlyFiles: bool,
                                  rc: Recursion, fileArray: seq<Path>)
    requires Truthy(rc)
    ensures GetFilesRecursively(fs, root, matches, onlyFiles, fileArray)
         == GetFiles(fs, root, matches, onlyFiles, rc, fileArray)
    ensures Resolve(fs, root).Ok? && Resolve(fs, root).value.Dir? ==>
              GetFilesRecursively(fs, root, matches, onlyFiles, fileArray)
                == Ok(fileArray + Selected(Walk(Resolve(fs, root).value.children, root), matches, onlyFiles))
  {
    if Resolve(fs, root).Ok? && Resolve(fs, root).value.Dir? {
      GetFilesIsWalk(fs, root, matches, onlyFiles, rc, fileArray);
      GetFilesIsWalk(fs, root, matches, onlyFiles, Flag(true), fileArray);
    }
  }

  /** A walked entry below a well-formed root resolves from the filesystem root, with its kind. */
  lemma WalkedEntryResolves(fs: Node, root: Path, e: Entry)
    requires WellFormed(fs)
    requires Resolve(fs, root).Ok? && Resolve(fs, root).value.Dir?
    requires e in Walk(Resolve(fs, root).value.children, root)
    ensures root < e.path
    ensures Resolve(fs, e.path).Ok? && Resolve(fs, e.path).value.Dir? == e.isDir
  {
    var d := Resolve(fs, root).value;
    ResolveWellFormed(fs, root);
    WalkSound(d.name, d.children, root, e);
    var q := e.path[|root|..];
    assert root + q == e.path;
    ResolveAppend(fs, root, q);
  }

  /**
   Every path the scan appends exists, lies strictly below the root,
   satisfies the pattern, is a file whenever `onlyFiles` is set, and lies
   one level below the root whenever recursion is off.
   */
  lemma GetFilesSound(fs: Node, root: Path, matches: Path -> bool, onlyFiles: bool,
                      rc: Recursion, fileArray: seq<Path>, i: nat)
    requires WellFormed(fs)
    requires GetFiles(fs, root, matches, onlyFiles, rc, fileArray).Ok?
    requires |fileArray| <= i < |GetFiles(fs, root, matches, onlyFiles, rc, fileArray).value|
    ensures var p := GetFiles(fs, root, matches, onlyFiles, rc, fileArray).value[i];
            && matches(p)
            && root < p
            && FileExists(fs, p)
            && (onlyFiles ==> IsFile(fs, p) == Ok(true))
            && (!Truthy(rc) ==> |p| == |root| + 1)
  {
    var r := GetFiles(fs, root, matches, onlyFiles, rc, fileArray).value;
    var cs := Resolve(fs, root).value.children;
    var p := r[i];
    var es := if Truthy(rc) then Walk(cs, root) else Listing(cs, root);
    if Truthy(rc) {
      GetFilesIsWalk(fs, root, matches, onlyFiles, rc, fileArray);
    } else {
      GetFilesIsListing(fs, root, matches, onlyFiles, rc, fileArray);
    }
    assert r == fileArray + Selected(es, matches, onlyFiles);
    assert p == Selected(es, matches, onlyFiles)[i - |fileArray|];
    SelectedSound(es, matches, onlyFiles, p);
    var e :| e in es && e.path == p && Keep(matches, onlyFiles, e.path, e.isDir);
    if !Truthy(rc) {
      ListingDepth(cs, root, e);
      ListingInWalk(cs, root, e);
    }
    WalkedEntryResolves(fs, root, e);
  }

  /**
   With recursion on, every existing path strictly below the root that
   passes the pattern and the `onlyFiles` filter is returned.
   */
  lemma GetFilesCompleteRecursive(fs: Node, root: Path, matches: Path -> bool, onlyFiles: bool,
                                  rc: Recursion, fileArray: seq<Path>, p: Path)
    requires Truthy(rc)
    requires IsDirectory(fs, root) == Ok(true)
    requires root < p && FileExists(fs, p)
    requires matches(p) && (onlyFiles ==> IsFile(fs, p) == Ok(true))
    ensures p in GetFiles(fs, root, matches, onlyFiles, rc, fileArray).value[|fileArray|..]
  {
    var d := Resolve(fs, root).value;
    var q := p[|root|..];
    assert root + q == p;
    ResolveAppend(fs, root, q);
    WalkComplete(d.name, d.children, root, q);
    var e := Entry(p, Resolve(fs, p).value.Dir?);
    SelectedComplete(Walk(d.children, root), matches, onlyFiles, e);
    GetFilesIsWalk(fs, root, matches, onlyFiles, rc, fileArray);
    var r := GetFiles(fs, root, matches, onlyFiles, rc, fileArray).value;
    assert r[|fileArray|..] == Selected(Walk(d.children, root), matches, onlyFiles);
  }

  /**
   With recursion off, every existing direct entry of the root that passes
   the pattern and the `onlyFiles` filter is returned.
   */
  lemma GetFilesCompleteFlat(fs: Node, root: Path, matches: Path -> bool, onlyFiles: bool,
                             rc: Recursion, fileArray: seq<Path>, p: Path)
    requires !Truthy(rc)
    requires IsDirectory(fs, root) == Ok(true)
    requires root < p && |p| == |root| + 1 && FileExists(fs, p)
    requires matches(p) && (onlyFiles ==> IsFile(fs, p) == Ok(true))
    ensures p in GetFiles(fs, root, matches, onlyFiles, rc, fileArray).value[|fileArray|..]
  {
    var d := Resolve(fs, root).value;
    var q := p[|root|..];
    assert root + q == p;
    assert q == [p[|root|]];
    ResolveAppend(fs, root, q);
    var c := FindChild(d.children, q[0]).value;
    assert Resolve(fs, p) == Ok(c);
    ListingComplete(d.children, root, c);
    var e := Entry(root + [c.name], c.Dir?);
    assert e.path == p;
    SelectedComplete(Listing(d.children, root), matches, onlyFiles, e);
    GetFilesIsListing(fs, root, matches, onlyFiles, rc, fileArray);
    var r := GetFiles(fs, root, matches, onlyFiles, rc, fileArray).value;
    assert r[|fileArray|..] == Selected(Listing(d.children, root), matches, onlyFiles);
  }

  /** On a well-formed filesystem the scan appends each path at most once. */
  lemma GetFilesNoDuplicates(fs: Node, root: Path, matches: Path -> bool, onlyFiles: bool,
                             rc: Recursion, fileArray: seq<Path>)
    requires WellFormed(fs)
    requires GetFiles(fs, root, matches, onlyFiles, rc, fileArray).Ok?
    ensures Distinct(GetFiles(fs, root, matches, onlyFiles, rc, fileArray).value[|fileArray|..])
  {
    var d := Resolve(fs, root).value;
    ResolveWellFormed(fs, root);
    var r := GetFiles(fs, root, matches, onlyFiles, rc, fileArray).value;
    if Truthy(rc) {
      GetFilesIsWalk(fs, root, matches, onlyFiles, rc, fileArray);
      WalkDistinct(d.children, root);
      SelectedDistinct(Walk(d.children, root), matches, onlyFiles);
      assert r[|fileArray|..] == Selected(Walk(d.children, root), matches, onlyFiles);
    } else {
      GetFilesIsListing(fs, root, matches, onlyFiles, rc, fileArray);
      ListingDistinct(d.children, root);
      SelectedDistinct(Listing(d.children, root), matches, onlyFiles);
      assert r[|fileArray|..] == Selected(Listing(d.children, root), matches, onlyFiles);
    }
  }

  /**
   A last name ending in the literal `.txt`. It agrees with the regular
   expression `.txt$` on the example's paths.
   */
  predicate TxtPattern(p: Path)
  {
    |p| > 0 && |p[|p| - 1]| >= 4 && p[|p| - 1][|p[|p| - 1]| - 4..] == ".txt"
  }

  /** A root directory holding `a.txt` and `sub/b.txt`. */
  function ExampleFs(): Node
  {
    Dir("", [Dir("root", [File("a.txt"), Dir("sub", [File("b.txt")])])])
  }

  /** The walk below the example's root. */
  lemma ExampleWalk()
    ensures Walk([File("a.txt"), Dir("sub", [File("b.txt")])], ["root"])
         == [Entry(["root", "a.txt"], false), Entry(["root", "sub"], true), Entry(["root", "sub", "b.txt"], false)]
  {
    var a := File("a.txt");
    var b := File("b.txt");
    var sub := Dir("sub", [b]);
    var pa: Path := ["root", "a.txt"];
    var ps: Path := ["root", "sub"];
    var pb: Path := ["root", "sub", "b.txt"];
    assert ps + [b.name] == pb;
    assert Block(b, ps) == [Entry(pb, false)];
    assert [b][1..] == [];
    assert Walk([b], ps) == Block(b, ps) + Walk([], ps);
    assert ["root"] + [sub.name] == ps;
    assert Block(sub, ["root"]) == [Entry(ps, true)] + Walk([b], ps);
    assert [sub][1..] == [];
    assert Walk([sub], ["root"]) == Block(sub, ["root"]) + Walk([], ["root"]);
    assert ["root"] + [a.name] == pa;
    assert Block(a, ["root"]) == [Entry(pa, false)];
    assert [a, sub][1..] == [sub];
    assert Walk([a, sub], ["root"]) == Block(a, ["root"]) + Walk([sub], ["root"]);
  }

  /** Of the example's walk, the ".txt" files are selected, and the directory is not. */
  lemma ExampleSelected()
    ensures Selected([Entry(["root", "a.txt"], false), Entry(["root", "sub"], true),
                      Entry(["root", "sub", "b.txt"], false)], TxtPattern, true)
         == [["root", "a.txt"], ["root", "sub", "b.txt"]]
  {
    var pa: Path := ["root", "a.txt"];
    var ps: Path := ["root", "sub"];
    var pb: Path := ["root", "sub", "b.txt"];
    var es := [Entry(pa, false), Entry(ps, true), Entry(pb, false)];
    assert TxtPattern(pa) by {
      assert pa[1] == "a.txt";
      assert "a.txt"[1..] == ".txt";
    }
    assert TxtPattern(pb) by {
      assert pb[2] == "b.txt";
      assert "b.txt"[1..] == ".txt";
    }
    assert es[1..] == [Entry(ps, true), Entry(pb, false)];
    assert es[1..][1..] == [Entry(pb, false)];
    SelectedSingle(Entry(pb, false), TxtPattern, true);
    assert Selected(es[1..], TxtPattern, true) == [] + Selected(es[1..][1..], TxtPattern, true);
    assert Selected(es, TxtPattern, true) == [pa] + Selected(es[1..], TxtPattern, true);
  }

  /** Recursively, both ".txt" files come back, the root's own entry first. */
  lemma TxtExampleRecursive()
    ensures GetFiles(ExampleFs(), ["root"], TxtPattern, true, Flag(true), [])
         == Ok([["root", "a.txt"], ["root", "sub", "b.txt"]])
  {
    var rootDir := Dir("root", [File("a.txt"), Dir("sub", [File("b.txt")])]);
    assert Resolve(ExampleFs(), ["root"]) == Ok(rootDir);
    GetFilesIsWalk(ExampleFs(), ["root"], TxtPattern, true, Flag(true), []);
    ExampleWalk();
    ExampleSelected();
    var r: seq<Path> := [["root", "a.txt"], ["root", "sub", "b.txt"]];
    assert [] + r == r;
  }

  /** Without recursion, only the root's own ".txt" file comes back. */
  lemma TxtExampleFlat()
    ensures GetFiles(ExampleFs(), ["root"], TxtPattern, true, Flag(false), []) == Ok([["root", "a.txt"]])
  {
    var a := File("a.txt");
    var sub := Dir("sub", [File("b.txt")]);
    assert Resolve(ExampleFs(), ["root"]) == Ok(Dir("root", [a, sub]));
    var pa: Path := ["root", "a.txt"];
    var ps: Path := ["root", "sub"];
    assert ["root"] + [a.name] == pa;
    assert ["root"] + [sub.name] == ps;
    assert [a, sub][1..] == [sub];
    assert [sub][1..] == [];
    assert Listing([sub], ["root"]) == [Entry(ps, true)] + Listing([], ["root"]);
    assert Listing([a, sub], ["root"]) == [Entry(pa, false)] + Listing([sub], ["root"]);
    assert Listing([a, sub], ["root"]) == [Entry(pa, false), Entry(ps, true)];
    assert TxtPattern(pa) by {
      assert pa[1] == "a.txt";
      assert "a.txt"[1..] == ".txt";
    }
    SelectedSingle(Entry(ps, true), TxtPattern, true);
    assert [Entry(pa, false), Entry(ps, true)][1..] == [Entry(ps, true)];
    assert Selected([Entry(pa, false), Entry(ps, true)], TxtPattern, true) == [pa] + [];
    GetFilesIsListing(ExampleFs(), ["root"], TxtPattern, true, Flag(false), []);
    assert [] + [pa] == [pa];
  }

  /** A missing root raises instead of answering with an empty list. */
  lemma MissingRootExample()
    ensures GetFiles(ExampleFs(), ["missing"], TxtPattern, true, Flag(true), []) == Err(NoEntry)
  {
    assert FindChild(ExampleFs().children, "missing") == None;
  }
}
