/**
 Properties of the directory scan. The scan is related to an independent
 reference: `Walk`, the pre-order enumeration of every entry below a
 directory, and `Listing`, the enumeration of its direct entries, each
 filtered by `Selected`. The reference does not thread an accumulator and
 does not filter while it descends.
 */
module ScannerProps {
  import opened FsTree
  import opened Scanner

  /** An entry met by a traversal: its full path and whether it is a directory. */
  datatype Entry = Entry(path: Path, isDir: bool)

  /** Every entry below `dir`, in pre-order: the entries' blocks in enumeration order. */
  function Walk(cs: seq<Node>, dir: Path): seq<Entry>
    decreases cs
  {
    if cs == [] then [] else Block(cs[0], dir) + Walk(cs[1..], dir)
  }

  /** Entry `c` of `dir`, immediately followed, when it is a directory, by the walk of its subtree. */
  function Block(c: Node, dir: Path): seq<Entry>
    decreases c
  {
    var p := dir + [c.name];
    [Entry(p, c.Dir?)] + (if c.Dir? then Walk(c.children, p) else [])
  }

  /** The direct entries of `dir`, in enumeration order. */
  function Listing(cs: seq<Node>, dir: Path): seq<Entry>
  {
    if cs == [] then [] else [Entry(dir + [cs[0].name], cs[0].Dir?)] + Listing(cs[1..], dir)
  }

  /** The paths of the entries the pattern test and the `onlyFiles` filter keep, in order. */
  function Selected(es: seq<Entry>, matches: Path -> bool, onlyFiles: bool): seq<Path>
  {
    if es == [] then []
    else
      (if Keep(matches, onlyFiles, es[0].path, es[0].isDir) then [es[0].path] else [])
      + Selected(es[1..], matches, onlyFiles)
  }

  // ---------------------------------------------------------------------
  // Facts about the reference enumeration
  // ---------------------------------------------------------------------

  lemma {:induction false} SelectedAppend(a: seq<Entry>, b: seq<Entry>, matches: Path -> bool, onlyFiles: bool)
    ensures Selected(a + b, matches, onlyFiles) == Selected(a, matches, onlyFiles) + Selected(b, matches, onlyFiles)
    decreases a
  {
    if a == [] {
      assert a + b == b;
    } else {
      var ab := a + b;
      assert ab[0] == a[0] && ab[1..] == a[1..] + b;
      var h: seq<Path> := if Keep(matches, onlyFiles, a[0].path, a[0].isDir) then [a[0].path] else [];
      assert Selected(ab, matches, onlyFiles) == h + Selected(a[1..] + b, matches, onlyFiles);
      assert Selected(a, matches, onlyFiles) == h + Selected(a[1..], matches, onlyFiles);
      SelectedAppend(a[1..], b, matches, onlyFiles);
      ConcatAssoc(h, Selected(a[1..], matches, onlyFiles), Selected(b, matches, onlyFiles));
    }
  }

  /** A single entry is selected exactly when it passes the filter. */
  lemma SelectedSingle(e: Entry, matches: Path -> bool, onlyFiles: bool)
    ensures Selected([e], matches, onlyFiles)
         == if Keep(matches, onlyFiles, e.path, e.isDir) then [e.path] else []
  {
    assert [e][1..] == [];
    var s: seq<Path> := if Keep(matches, onlyFiles, e.path, e.isDir) then [e.path] else [];
    assert s + [] == s;
  }

  /** A selected path comes from an entry that passed the filter. */
  lemma {:induction false} SelectedSound(es: seq<Entry>, matches: Path -> bool, onlyFiles: bool, x: Path)
    requires x in Selected(es, matches, onlyFiles)
    ensures exists e :: e in es && e.path == x && Keep(matches, onlyFiles, e.path, e.isDir)
    decreases es
  {
    if !(Keep(matches, onlyFiles, es[0].path, es[0].isDir) && x == es[0].path) {
      SelectedSound(es[1..], matches, onlyFiles, x);
      var e :| e in es[1..] && e.path == x && Keep(matches, onlyFiles, e.path, e.isDir);
      assert e in es;
    }
  }

  /** Every entry that passes the filter has its path selected. */
  lemma {:induction false} SelectedComplete(es: seq<Entry>, matches: Path -> bool, onlyFiles: bool, e: Entry)
    requires e in es
    requires Keep(matches, onlyFiles, e.path, e.isDir)
    ensures e.path in Selected(es, matches, onlyFiles)
    decreases es
  {
    if e != es[0] {
      SelectedComplete(es[1..], matches, onlyFiles, e);
    }
  }

  predicate DistinctPaths(es: seq<Entry>)
  {
    forall i, j :: 0 <= i < j < |es| ==> es[i].path != es[j].path
  }

  predicate Distinct(ps: seq<Path>)
  {
    forall i, j :: 0 <= i < j < |ps| ==> ps[i] != ps[j]
  }

  /** Filtering entries with distinct paths yields distinct paths. */
  lemma {:induction false} SelectedDistinct(es: seq<Entry>, matches: Path -> bool, onlyFiles: bool)
    requires DistinctPaths(es)
    ensures Distinct(Selected(es, matches, onlyFiles))
    decreases es
  {
    if es != [] {
      var rest := Selected(es[1..], matches, onlyFiles);
      SelectedDistinct(es[1..], matches, onlyFiles);
      if es[0].path in rest {
        SelectedSound(es[1..], matches, onlyFiles, es[0].path);
        assert false;
      }
    }
  }

  lemma WalkCases(cs: seq<Node>, dir: Path, e: Entry)
    requires e in Walk(cs, dir)
    ensures cs != [] && (e in Block(cs[0], dir) || e in Walk(cs[1..], dir))
  {
  }

  lemma WalkHas(cs: seq<Node>, dir: Path, e: Entry)
    requires cs != [] && (e in Block(cs[0], dir) || e in Walk(cs[1..], dir))
    ensures e in Walk(cs, dir)
  {
  }

  lemma BlockCases(c: Node, dir: Path, e: Entry)
    requires e in Block(c, dir)
    ensures e == Entry(dir + [c.name], c.Dir?) || (c.Dir? && e in Walk(c.children, dir + [c.name]))
  {
  }

  lemma BlockHas(c: Node, dir: Path, e: Entry)
    requires e == Entry(dir + [c.name], c.Dir?) || (c.Dir? && e in Walk(c.children, dir + [c.name]))
    ensures e in Block(c, dir)
  {
  }

  /** Every entry of the walk lies below `dir`, under one of the direct entries' names. */
  lemma {:induction false} WalkBelow(cs: seq<Node>, dir: Path, e: Entry)
    requires e in Walk(cs, dir)
    ensures dir < e.path
    ensures e.path[|dir|] in Names(cs)
    decreases cs
  {
    WalkCases(cs, dir, e);
    assert Names(cs) == [cs[0].name] + Names(cs[1..]);
    if e in Block(cs[0], dir) {
      BlockBelow(cs[0], dir, e);
      assert e.path[..|dir| + 1] == dir + [cs[0].name];
    } else {
      WalkBelow(cs[1..], dir, e);
    }
  }

  /** Every entry of a block lies at or below the block's own entry. */
  lemma {:induction false} BlockBelow(c: Node, dir: Path, e: Entry)
    requires e in Block(c, dir)
    ensures dir + [c.name] <= e.path
    decreases c
  {
    BlockCases(c, dir, e);
    if e != Entry(dir + [c.name], c.Dir?) {
      WalkBelow(c.children, dir + [c.name], e);
    }
  }

  /** The direct listing is part of the full walk. */
  lemma {:induction false} ListingInWalk(cs: seq<Node>, dir: Path, e: Entry)
    requires e in Listing(cs, dir)
    ensures e in Walk(cs, dir)
    decreases cs
  {
    if e == Entry(dir + [cs[0].name], cs[0].Dir?) {
      BlockHas(cs[0], dir, e);
    } else {
      ListingInWalk(cs[1..], dir, e);
    }
    WalkHas(cs, dir, e);
  }

  /** Every direct entry appears in the listing, with its own kind. */
  lemma {:induction false} ListingComplete(cs: seq<Node>, dir: Path, c: Node)
    requires c in cs
    ensures Entry(dir + [c.name], c.Dir?) in Listing(cs, dir)
    decreases cs
  {
    if c != cs[0] {
      ListingComplete(cs[1..], dir, c);
    }
  }

  /** The entries of a listing are exactly one level below `dir`. */
  lemma {:induction false} ListingDepth(cs: seq<Node>, dir: Path, e: Entry)
    requires e in Listing(cs, dir)
    ensures |e.path| == |dir| + 1
    decreases cs
  {
    if e != Entry(dir + [cs[0].name], cs[0].Dir?) {
      ListingDepth(cs[1..], dir, e);
    }
  }

  /** The listing's `k`-th entry is the directory's `k`-th entry. */
  lemma {:induction false} ListingAt(cs: seq<Node>, dir: Path, k: nat)
    requires k < |cs|
    ensures |Listing(cs, dir)| == |cs|
    ensures Listing(cs, dir)[k] == Entry(dir + [cs[k].name], cs[k].Dir?)
    decreases cs
  {
    if k == 0 {
      ListingLength(cs, dir);
    } else {
      ListingAt(cs[1..], dir, k - 1);
    }
  }

  lemma {:induction false} ListingLength(cs: seq<Node>, dir: Path)
    ensures |Listing(cs, dir)| == |cs|
    decreases cs
  {
    if cs != [] {
      ListingLength(cs[1..], dir);
    }
  }

  /** With unique names, the listing meets every path at most once. */
  lemma ListingDistinct(cs: seq<Node>, dir: Path)
    requires UniqueNames(cs)
    ensures DistinctPaths(Listing(cs, dir))
  {
    var l := Listing(cs, dir);
    ListingLength(cs, dir);
    forall i, j | 0 <= i < j < |l| ensures l[i].path != l[j].path {
      ListingAt(cs, dir, i);
      ListingAt(cs, dir, j);
      assert l[i].path[|dir|] == cs[i].name;
      assert l[j].path[|dir|] == cs[j].name;
    }
  }

  /** Names that resolve in a directory with unique names resolve the same without its first entry. */
  lemma SkipFirst(nm: Name, cs: seq<Node>, q: Path)
    requires UniqueNames(cs)
    requires cs != [] && q != []
    requires Resolve(Dir(nm, cs[1..]), q).Ok?
    ensures Resolve(Dir(nm, cs), q) == Resolve(Dir(nm, cs[1..]), q)
  {
    var c := FindChild(cs[1..], q[0]).value;
    var j :| 0 <= j < |cs[1..]| && cs[1..][j] == c;
    assert cs[j + 1] == c;
    assert cs[0].name != q[0];
  }

  /**
   With unique names, each walked entry is found again by resolving its
   path, and has the kind the walk recorded.
   */
  lemma {:induction false} WalkSound(nm: Name, cs: seq<Node>, dir: Path, e: Entry)
    requires UniqueNames(cs) && WellFormedList(cs)
    requires e in Walk(cs, dir)
    ensures dir < e.path
    ensures Resolve(Dir(nm, cs), e.path[|dir|..]).Ok?
    ensures Resolve(Dir(nm, cs), e.path[|dir|..]).value.Dir? == e.isDir
    decreases cs
  {
    WalkCases(cs, dir, e);
    WalkBelow(cs, dir, e);
    var q := e.path[|dir|..];
    if e in Block(cs[0], dir) {
      var c := cs[0];
      var p := dir + [c.name];
      assert WellFormed(c);
      BlockSound(c, dir, e);
      assert q == [c.name] + e.path[|p|..];
      FindChildUnique(cs, 0);
      assert Resolve(Dir(nm, cs), q) == Resolve(c, e.path[|p|..]) by {
        assert q[0] == c.name && q[1..] == e.path[|p|..];
      }
    } else {
      WellFormedTail(cs);
      WalkSound(nm, cs[1..], dir, e);
      SkipFirst(nm, cs, q);
    }
  }

  /** A block's entries are found by resolving, below the block's own node, what follows its path. */
  lemma {:induction false} BlockSound(c: Node, dir: Path, e: Entry)
    requires WellFormed(c)
    requires e in Block(c, dir)
    ensures dir + [c.name] <= e.path
    ensures Resolve(c, e.path[|dir| + 1..]).Ok?
    ensures Resolve(c, e.path[|dir| + 1..]).value.Dir? == e.isDir
    decreases c
  {
    var p := dir + [c.name];
    BlockCases(c, dir, e);
    if e == Entry(p, c.Dir?) {
      assert e.path[|p|..] == [];
    } else {
      WalkSound(c.name, c.children, p, e);
    }
  }

  /** Every entry that resolves strictly below the directory is walked, with its kind. */
  lemma {:induction false} WalkComplete(nm: Name, cs: seq<Node>, dir: Path, q: Path)
    requires q != []
    requires Resolve(Dir(nm, cs), q).Ok?
    ensures Entry(dir + q, Resolve(Dir(nm, cs), q).value.Dir?) in Walk(cs, dir)
    decreases cs
  {
    var c := cs[0];
    var e := Entry(dir + q, Resolve(Dir(nm, cs), q).value.Dir?);
    if c.name == q[0] {
      var p := dir + [c.name];
      var q' := q[1..];
      assert Resolve(Dir(nm, cs), q) == Resolve(c, q');
      assert dir + q == p + q' by {
        assert q == [c.name] + q';
      }
      if q' == [] {
        BlockHas(c, dir, e);
      } else {
        assert c.Dir?;
        assert Resolve(c, q') == Resolve(Dir(c.name, c.children), q');
        WalkComplete(c.name, c.children, p, q');
        BlockHas(c, dir, e);
      }
    } else {
      assert Resolve(Dir(nm, cs), q) == Resolve(Dir(nm, cs[1..]), q);
      WalkComplete(nm, cs[1..], dir, q);
    }
    WalkHas(cs, dir, e);
  }

  /** Two sequences of entries with distinct paths and no path in common concatenate to one. */
  lemma DistinctConcat(a: seq<Entry>, b: seq<Entry>)
    requires DistinctPaths(a) && DistinctPaths(b)
    requires forall x, y :: x in a && y in b ==> x.path != y.path
    ensures DistinctPaths(a + b)
  {
    var w := a + b;
    forall i, j | 0 <= i < j < |w| ensures w[i].path != w[j].path {
      if j < |a| {
        assert w[i] == a[i] && w[j] == a[j];
      } else if i < |a| {
        assert w[i] == a[i] && w[j] == b[j - |a|];
        assert w[i] in a && w[j] in b;
      } else {
        assert w[i] == b[i - |a|] && w[j] == b[j - |a|];
      }
    }
  }

  /** With unique names, the walk meets every path at most once. */
  lemma {:induction false} WalkDistinct(cs: seq<Node>, dir: Path)
    requires UniqueNames(cs) && WellFormedList(cs)
    ensures DistinctPaths(Walk(cs, dir))
    decreases cs
  {
    if cs != [] {
      var c := cs[0];
      assert WellFormed(c);
      WellFormedTail(cs);
      BlockDistinct(c, dir);
      WalkDistinct(cs[1..], dir);
      forall x, y | x in Block(c, dir) && y in Walk(cs[1..], dir) ensures x.path != y.path {
        BlockBelow(c, dir, x);
        assert x.path[|dir|] == c.name by {
          assert x.path[..|dir| + 1] == dir + [c.name];
        }
        WalkBelow(cs[1..], dir, y);
        var k :| 0 <= k < |cs[1..]| && Names(cs[1..])[k] == y.path[|dir|];
        assert cs[k + 1].name == y.path[|dir|];
      }
      DistinctConcat(Block(c, dir), Walk(cs[1..], dir));
    }
  }

  /** A block meets every path at most once: its own entry, then its subtree's. */
  lemma {:induction false} BlockDistinct(c: Node, dir: Path)
    requires WellFormed(c)
    ensures DistinctPaths(Block(c, dir))
    decreases c
  {
    var p := dir + [c.name];
    var head := [Entry(p, c.Dir?)];
    var sub := if c.Dir? then Walk(c.children, p) else [];
    assert Block(c, dir) == head + sub;
    if c.Dir? {
      WalkDistinct(c.children, p);
      forall x, y | x in head && y in sub ensures x.path != y.path {
        WalkBelow(c.children, p, y);
      }
    }
    DistinctConcat(head, sub);
  }

  // ---------------------------------------------------------------------
  // The scan against the reference
  // ---------------------------------------------------------------------

  /** The caller's accumulator is kept as a prefix of what one entry's visit yields. */
  lemma VisitSplit(c: Node, dir: Path, matches: Path -> bool, onlyFiles: bool, rc: Recursion, acc: seq<Path>)
    ensures VisitEntry(c, dir, matches, onlyFiles, rc, acc) == acc + VisitEntry(c, dir, matches, onlyFiles, rc, [])
  {
    var filePath := dir + [c.name];
    var keep := Keep(matches, onlyFiles, filePath, c.Dir?);
    var pushed0: seq<Path> := if keep then [filePath] else [];
    var pushed := acc + pushed0;
    assert pushed == (if keep then acc + [filePath] else acc) by {
      if !keep {
        assert acc + [] == acc;
      }
    }
    assert pushed0 == (if keep then [] + [filePath] else []) by {
      if keep {
        assert [] + [filePath] == [filePath];
      }
    }
    if c.Dir? && Truthy(rc) {
      var sub := ScanEntries(c.children, filePath, matches, onlyFiles, Next(rc), []);
      assert VisitEntry(c, dir, matches, onlyFiles, rc, acc) == pushed + sub;
      assert VisitEntry(c, dir, matches, onlyFiles, rc, []) == pushed0 + sub;
      ConcatAssoc(acc, pushed0, sub);
    } else {
      assert VisitEntry(c, dir, matches, onlyFiles, rc, acc) == pushed;
      assert VisitEntry(c, dir, matches, onlyFiles, rc, []) == pushed0;
    }
  }

  /**
   The caller's accumulator is kept unchanged as a prefix, and the rest is
   what a scan from an empty accumulator (as every nested call starts) yields.
   */
  lemma {:induction false} AccumulatorSplit(cs: seq<Node>, dir: Path, matches: Path -> bool, onlyFiles: bool,
                                            rc: Recursion, acc: seq<Path>)
    ensures ScanEntries(cs, dir, matches, onlyFiles, rc, acc)
         == acc + ScanEntries(cs, dir, matches, onlyFiles, rc, [])
    decreases cs
  {
    if cs == [] {
      assert acc + [] == acc;
    } else {
      var v := VisitEntry(cs[0], dir, matches, onlyFiles, rc, []);
      var tail := ScanEntries(cs[1..], dir, matches, onlyFiles, rc, []);
      VisitSplit(cs[0], dir, matches, onlyFiles, rc, acc);
      AccumulatorSplit(cs[1..], dir, matches, onlyFiles, rc, acc + v);
      AccumulatorSplit(cs[1..], dir, matches, onlyFiles, rc, v);
      ConcatAssoc(acc, v, tail);
    }
  }

  /** Entries are visited in enumeration order: scanning `a + b` scans `a`, then `b`. */
  lemma {:induction false} ScanConcat(a: seq<Node>, b: seq<Node>, dir: Path, matches: Path -> bool,
                                      onlyFiles: bool, rc: Recursion, acc: seq<Path>)
    ensures ScanEntries(a + b, dir, matches, onlyFiles, rc, acc)
         == ScanEntries(a, dir, matches, onlyFiles, rc, acc) + ScanEntries(b, dir, matches, onlyFiles, rc, [])
    decreases a
  {
    if a == [] {
      assert a + b == b;
      AccumulatorSplit(b, dir, matches, onlyFiles, rc, acc);
    } else {
      assert (a + b)[0] == a[0];
      assert (a + b)[1..] == a[1..] + b;
      ScanConcat(a[1..], b, dir, matches, onlyFiles, rc, VisitEntry(a[0], dir, matches, onlyFiles, rc, acc));
    }
  }

  /**
   With a truthy recursion argument the scan is the filtered pre-order walk
   of the whole subtree: descent is unbounded over all finite levels.
   */
  lemma {:induction false} ScanIsWalk(cs: seq<Node>, dir: Path, matches: Path -> bool, onlyFiles: bool,
                                      rc: Recursion, acc: seq<Path>)
    requires Truthy(rc)
    ensures ScanEntries(cs, dir, matches, onlyFiles, rc, acc)
         == acc + Selected(Walk(cs, dir), matches, onlyFiles)
    decreases cs
  {
    if cs == [] {
      assert acc + [] == acc;
    } else {
      var v := VisitEntry(cs[0], dir, matches, onlyFiles, rc, acc);
      var blk := Block(cs[0], dir);
      var rest := Walk(cs[1..], dir);
      VisitIsBlock(cs[0], dir, matches, onlyFiles, rc, acc);
      ScanIsWalk(cs[1..], dir, matches, onlyFiles, rc, v);
      SelectedAppend(blk, rest, matches, onlyFiles);
      ConcatAssoc(acc, Selected(blk, matches, onlyFiles), Selected(rest, matches, onlyFiles));
    }
  }

  /**
   With a truthy recursion argument, visiting an entry appends, in order,
   the entry itself when it passes the filter and then the filtered walk of
   its subtree.
   */
  lemma {:induction false} VisitIsBlock(c: Node, dir: Path, matches: Path -> bool, onlyFiles: bool,
                                        rc: Recursion, acc: seq<Path>)
    requires Truthy(rc)
    ensures VisitEntry(c, dir, matches, onlyFiles, rc, acc)
         == acc + Selected(Block(c, dir), matches, onlyFiles)
    decreases c
  {
    var p := dir + [c.name];
    var keep := Keep(matches, onlyFiles, p, c.Dir?);
    var head := [Entry(p, c.Dir?)];
    var subWalk := if c.Dir? then Walk(c.children, p) else [];
    var selHead := Selected(head, matches, onlyFiles);
    var selSub := Selected(subWalk, matches, onlyFiles);
    SelectedSingle(head[0], matches, onlyFiles);
    var pushed := if keep then acc + [p] else acc;
    assert pushed == acc + selHead by {
      if !keep {
        assert acc + [] == acc;
      }
    }
    assert Block(c, dir) == head + subWalk;
    SelectedAppend(head, subWalk, matches, onlyFiles);
    if c.Dir? {
      var sub := ScanEntries(c.children, p, matches, onlyFiles, Next(rc), []);
      ScanIsWalk(c.children, p, matches, onlyFiles, rc, []);
      assert sub == selSub by {
        assert [] + selSub == selSub;
      }
      assert VisitEntry(c, dir, matches, onlyFiles, rc, acc) == pushed + sub;
      ConcatAssoc(acc, selHead, selSub);
    } else {
      assert selSub == [];
      assert VisitEntry(c, dir, matches, onlyFiles, rc, acc) == pushed;
      assert selHead + [] == selHead;
    }
  }

  /** With a falsy recursion argument the scan is the filtered direct listing. */
  lemma {:induction false} ScanIsListing(cs: seq<Node>, dir: Path, matches: Path -> bool, onlyFiles: bool,
                                         rc: Recursion, acc: seq<Path>)
    requires !Truthy(rc)
    ensures ScanEntries(cs, dir, matches, onlyFiles, rc, acc)
         == acc + Selected(Listing(cs, dir), matches, onlyFiles)
    decreases cs
  {
    if cs == [] {
      assert acc + [] == acc;
    } else {
      var c := cs[0];
      var p := dir + [c.name];
      var head := [Entry(p, c.Dir?)];
      var v := VisitEntry(c, dir, matches, onlyFiles, rc, acc);
      SelectedSingle(head[0], matches, onlyFiles);
      assert v == acc + Selected(head, matches, onlyFiles) by {
        if !Keep(matches, onlyFiles, p, c.Dir?) {
          assert acc + [] == acc;
        }
      }
      ScanIsListing(cs[1..], dir, matches, onlyFiles, rc, v);
      SelectedAppend(head, Listing(cs[1..], dir), matches, onlyFiles);
      assert Listing(cs, dir) == head + Listing(cs[1..], dir);
      ConcatAssoc(acc, Selected(head, matches, onlyFiles), Selected(Listing(cs[1..], dir), matches, onlyFiles));
    }
  }
}
