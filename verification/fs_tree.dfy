/**
 An immutable, finite model of the host filesystem as seen by the helpers in
 index.js. The whole filesystem is one root directory node; a path is the
 sequence of entry names leading from that root to an entry, so joining a
 directory path with an entry name is sequence append. The order of a
 directory's `children` stands for the order in which the host enumerates the
 directory.
 */
module FsTree {

  type Name = string

  /** A path from the filesystem root; `[]` names the root itself. */
  type Path = seq<Name>

  datatype Node = File(name: Name) | Dir(name: Name, children: seq<Node>)

  /** The two ways in which a stat or a directory listing fails. */
  datatype IoError =
    | NoEntry        // ENOENT: some component of the path does not exist
    | NotADirectory  // ENOTDIR: a directory was required but a file was found

  /** The exception a filesystem primitive raises, or the value it returns. */
  datatype Result<T> = Ok(value: T) | Err(error: IoError)

  datatype Option<T> = None | Some(value: T)

  /** The names of a directory's entries, in enumeration order. */
  function Names(cs: seq<Node>): (ns: seq<Name>)
    ensures |ns| == |cs|
    ensures forall i :: 0 <= i < |cs| ==> ns[i] == cs[i].name
  {
    if cs == [] then [] else [cs[0].name] + Names(cs[1..])
  }

  /** The first entry of a directory listing that carries the given name. */
  function FindChild(cs: seq<Node>, nm: Name): (r: Option<Node>)
    ensures r.Some? ==> r.value in cs && r.value.name == nm
    ensures r.None? ==> forall i :: 0 <= i < |cs| ==> cs[i].name != nm
  {
    if cs == [] then None
    else if cs[0].name == nm then Some(cs[0])
    else FindChild(cs[1..], nm)
  }

  /**
   Resolution of a path below a node, with the error the host reports when it
   fails: a missing name is ENOENT, stepping through a file is ENOTDIR.
   */
  function Resolve(n: Node, p: Path): (r: Result<Node>)
    decreases p
  {
    if p == [] then Ok(n)
    else match n
      case File(_) => Err(NotADirectory)
      case Dir(_, cs) =>
        match FindChild(cs, p[0])
        case None => Err(NoEntry)
        case Some(c) => Resolve(c, p[1..])
  }

  /** One step of resolution: through the directory entry named by the path's first component. */
  lemma ResolveStep(n: Node, p: Path)
    requires p != []
    requires Resolve(n, p).Ok? || (n.Dir? && FindChild(n.children, p[0]).Some?)
    ensures n.Dir? && FindChild(n.children, p[0]).Some?
    ensures Resolve(n, p) == Resolve(FindChild(n.children, p[0]).value, p[1..])
  {
  }

  /** Resolving a path in two steps is the same as resolving it at once. */
  lemma {:induction false} ResolveAppend(n: Node, a: Path, b: Path)
    requires Resolve(n, a).Ok?
    ensures Resolve(n, a + b) == Resolve(Resolve(n, a).value, b)
    decreases a
  {
    if a == [] {
      assert a + b == b;
    } else {
      ResolveStep(n, a);
      var ab := a + b;
      assert ab[0] == a[0] && ab[1..] == a[1..] + b;
      ResolveStep(n, ab);
      ResolveAppend(FindChild(n.children, a[0]).value, a[1..], b);
    }
  }

  /** A path that fails to resolve cannot be extended into one that does. */
  lemma {:induction false} ResolveErrPropagates(n: Node, a: Path, b: Path)
    requires Resolve(n, a).Err?
    ensures Resolve(n, a + b) == Resolve(n, a)
    decreases a
  {
    assert a != [];
    assert (a + b)[0] == a[0];
    assert (a + b)[1..] == a[1..] + b;
    match n
    case File(_) =>
    case Dir(_, cs) =>
      match FindChild(cs, a[0])
      case None =>
      case Some(c) => ResolveErrPropagates(c, a[1..], b);
  }

  /** Entry names are unique within every directory, as on a real filesystem. */
  predicate WellFormed(n: Node)
  {
    match n
    case File(_) => true
    case Dir(_, cs) => UniqueNames(cs) && WellFormedList(cs)
  }

  predicate WellFormedList(cs: seq<Node>)
  {
    forall i :: 0 <= i < |cs| ==> WellFormed(cs[i])
  }

  predicate UniqueNames(cs: seq<Node>)
  {
    forall i, j :: 0 <= i < j < |cs| ==> cs[i].name != cs[j].name
  }

  /** Every entry of a well-formed tree is itself well formed. */
  lemma {:induction false} ResolveWellFormed(n: Node, p: Path)
    requires WellFormed(n)
    requires Resolve(n, p).Ok?
    ensures WellFormed(Resolve(n, p).value)
    decreases p
  {
    if p != [] {
      var c := FindChild(n.children, p[0]).value;
      var k :| 0 <= k < |n.children| && n.children[k] == c;
      assert WellFormed(n.children[k]);
      ResolveWellFormed(c, p[1..]);
    }
  }

  /** The entries after the first of a well-formed directory are well formed too. */
  lemma WellFormedTail(cs: seq<Node>)
    requires cs != []
    requires UniqueNames(cs) && WellFormedList(cs)
    ensures UniqueNames(cs[1..]) && WellFormedList(cs[1..])
  {
    forall i | 0 <= i < |cs[1..]| ensures WellFormed(cs[1..][i]) {
      assert cs[1..][i] == cs[i + 1];
    }
    forall i, j | 0 <= i < j < |cs[1..]| ensures cs[1..][i].name != cs[1..][j].name {
      assert cs[1..][i] == cs[i + 1] && cs[1..][j] == cs[j + 1];
    }
  }

  /** With unique names, the lookup by name finds exactly the listed entry. */
  lemma FindChildUnique(cs: seq<Node>, k: nat)
    requires UniqueNames(cs)
    requires k < |cs|
    ensures FindChild(cs, cs[k].name) == Some(cs[k])
  {
    if k > 0 {
      assert cs[0].name != cs[k].name;
      assert cs[1..][k - 1] == cs[k];
      FindChildUnique(cs[1..], k - 1);
    }
  }

  /**
   On a well-formed filesystem, joining a directory's path with the name of
   one of its entries resolves to exactly that entry: re-statting the joined
   path finds the node the listing enumerated.
   */
  lemma ChildResolves(n: Node, dir: Path, k: nat)
    requires WellFormed(n)
    requires Resolve(n, dir).Ok? && Resolve(n, dir).value.Dir?
    requires k < |Resolve(n, dir).value.children|
    ensures Resolve(n, dir + [Resolve(n, dir).value.children[k].name])
         == Ok(Resolve(n, dir).value.children[k])
  {
    var d := Resolve(n, dir).value;
    var c := d.children[k];
    ResolveWellFormed(n, dir);
    FindChildUnique(d.children, k);
    ResolveAppend(n, dir, [c.name]);
    assert [c.name][1..] == [];
  }

  /** Concatenation regroups freely. */
  lemma ConcatAssoc<T>(a: seq<T>, b: seq<T>, c: seq<T>)
    ensures (a + b) + c == a + (b + c)
  {
  }
}
