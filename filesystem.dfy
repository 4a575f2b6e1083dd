/**
 * An in-memory model of the part of the operating system's filesystem that
 * the repository bootstrapper touches: `os.Stat`, `os.Mkdir`,
 * `ioutil.ReadDir`, `os.OpenFile(O_WRONLY|O_CREATE)` and `File.WriteString`.
 */
module FileSystem {
  import opened Wrappers

  /** A path as its sequence of components; the root directory is []. */
  type Path = seq<string>

  datatype Node = Dir | File(content: string)

  /** A snapshot of the filesystem: every existing path and what is there. */
  type Tree = map<Path, Node>

  /** `filepath.Dir` on component paths; the parent of the root is the root. */
  function Parent(p: Path): Path
  {
    if p == [] then [] else p[..|p| - 1]
  }

  predicate IsDir(t: Tree, p: Path)
  {
    p in t && t[p].Dir?
  }

  predicate IsFile(t: Tree, p: Path)
  {
    p in t && t[p].File?
  }

  /** The root exists as a directory and every other entry lives in a directory. */
  predicate WellFormed(t: Tree)
  {
    && IsDir(t, [])
    && forall p {:trigger Parent(p)} | p in t && p != [] :: IsDir(t, Parent(p))
  }

  /**
   * Resolving `p` stops at a regular file: the nearest existing proper
   * ancestor of `p` is a file, so `os.Stat(p)` fails with "not a directory"
   * (ENOTDIR) rather than "does not exist".
   */
  predicate UnderFile(t: Tree, p: Path)
    decreases |p|
  {
    p != [] && if Parent(p) in t then t[Parent(p)].File? else UnderFile(t, Parent(p))
  }

  /**
   * `os.Stat` fails with "not a directory": a file stands in the way of `p`,
   * or `p` is a file but was named with a trailing slash (`dirSyntax`),
   * which asks for a directory.
   */
  predicate StatNotDir(t: Tree, p: Path, dirSyntax: bool)
  {
    if p in t then dirSyntax && t[p].File? else UnderFile(t, p)
  }

  /** The two ways `os.Stat` fails in this model. */
  datatype StatError = NotExist | NotDir

  /** `ioutil.ReadDir(p)` would list at least one entry. */
  predicate HasEntries(t: Tree, p: Path)
  {
    exists q | q in t && q != [] :: Parent(q) == p
  }

  /** `os.OpenFile(p, O_WRONLY|O_CREATE, …)` succeeds: an existing regular file, or a new one in an existing directory. */
  predicate CanOpenForWrite(t: Tree, p: Path)
  {
    IsFile(t, p) || (p !in t && IsDir(t, Parent(p)))
  }

  /**
   * The content of a file after writing `s` at offset 0 of a file that held
   * `prior`, without O_TRUNC: `s` replaces a prefix and the tail survives.
   */
  function Overlay(prior: string, s: string): (r: string)
    ensures |r| == if |prior| > |s| then |prior| else |s|
    ensures r[..|s|] == s
    ensures forall i | |s| <= i < |r| :: r[i] == prior[i]
  {
    if |prior| > |s| then s + prior[|s|..] else s
  }

  /** The content of the file at `p`, or nothing when there is none. */
  function Prior(t: Tree, p: Path): string
  {
    if IsFile(t, p) then t[p].content else []
  }

  lemma ParentOfExtension(base: Path, rel: Path)
    requires rel != []
    ensures Parent(base + rel) == base + Parent(rel)
  {
    assert (base + rel)[..|base + rel| - 1] == base + rel[..|rel| - 1];
  }

  /** The filesystem as a mutable object: the operations below change `nodes` in place. */
  class Disk {
    var nodes: Tree

    ghost predicate Valid()
      reads this
    {
      WellFormed(nodes)
    }

    constructor (t: Tree)
      requires WellFormed(t)
      ensures Valid() && nodes == t
    {
      nodes := t;
    }

    /**
     * `os.Stat` of `p`, named with a trailing slash when `dirSyntax`: what is
     * there, or why nothing can be reported: `NotDir` when a file stands in
     * the way (`os.IsNotExist` is false for it), `NotExist` otherwise.
     */
    method Stat(p: Path, dirSyntax: bool) returns (r: Result<Node, StatError>)
      ensures r.Success? <==> p in nodes && !StatNotDir(nodes, p, dirSyntax)
      ensures r.Success? ==> r.value == nodes[p]
      ensures r.Failure? ==> (r.error == NotDir <==> StatNotDir(nodes, p, dirSyntax))
    {
      if StatNotDir(nodes, p, dirSyntax) {
        r := Failure(NotDir);
      } else if p in nodes {
        r := Success(nodes[p]);
      } else {
        r := Failure(NotExist);
      }
    }

    /** `len(ioutil.ReadDir(p)) != 0` for a directory `p`. */
    method ReadDirNonEmpty(p: Path) returns (b: bool)
      requires IsDir(nodes, p)
      ensures b <==> HasEntries(nodes, p)
    {
      b := exists q | q in nodes && q != [] :: Parent(q) == p;
    }

    /** `os.Mkdir`: creates the leaf only; fails when `p` exists or its parent is not a directory. */
    method Mkdir(p: Path) returns (ok: bool)
      requires Valid()
      modifies this
      ensures Valid()
      ensures ok <==> p !in old(nodes) && IsDir(old(nodes), Parent(p))
      ensures nodes == if ok then old(nodes)[p := Dir] else old(nodes)
    {
      ok := p !in nodes && IsDir(nodes, Parent(p));
      if ok {
        nodes := nodes[p := Dir];
      }
    }

    /** `os.OpenFile(p, O_WRONLY|O_CREATE, …)`: creates an empty file when none is there, never truncates. */
    method OpenForWrite(p: Path) returns (ok: bool)
      requires Valid()
      modifies this
      ensures Valid()
      ensures ok <==> CanOpenForWrite(old(nodes), p)
      ensures nodes == if ok && p !in old(nodes) then old(nodes)[p := File([])] else old(nodes)
    {
      ok := CanOpenForWrite(nodes, p);
      if ok && p !in nodes {
        nodes := nodes[p := File([])];
      }
    }

    /** `WriteString` on a freshly opened handle: writes `s` at offset 0 and reports the bytes written. */
    method WriteAtStart(p: Path, s: string) returns (n: nat)
      requires Valid() && IsFile(nodes, p)
      modifies this
      ensures Valid()
      ensures n == |s|
      ensures nodes == old(nodes)[p := File(Overlay(old(nodes)[p].content, s))]
    {
      nodes := nodes[p := File(Overlay(nodes[p].content, s))];
      n := |s|;
    }
  }
}
