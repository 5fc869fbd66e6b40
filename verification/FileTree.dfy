/** A directory tree as a map from component lists to nodes, with the file
    operations that webdav.Dir and Python's os module pass to the kernel. */
module FileTree {
  import opened PathNames

  datatype Node = Dir | File(content: string)

  type Tree = map<Path, Node>

  datatype FsError = NotExist | NotDirectory | IsDirectory | NotEmpty | Exists | Invalid

  datatype Stat = Found(node: Node) | Failed(error: FsError)

  datatype FsResult = Done(tree: Tree) | Refused(error: FsError)

  predicate IsDir(t: Tree, p: Path) { p in t && t[p].Dir? }

  ghost predicate WellFormed(t: Tree) {
    && IsDir(t, [])
    && forall p {:trigger Parent(p)} :: p in t && p != [] ==> IsDir(t, Parent(p))
  }

  predicate BlockedByFile(t: Tree, p: Path) {
    exists k :: 0 <= k < |p| && p[..k] in t && t[p[..k]].File?
  }

  /** Why a name that is not in the tree cannot be found. */
  function LookupError(t: Tree, p: Path): FsError {
    if BlockedByFile(t, p) then NotDirectory else NotExist
  }

  /** os.Stat */
  function StatAt(t: Tree, p: Path): Stat {
    if p in t then Found(t[p]) else Failed(LookupError(t, p))
  }

  /** os.Mkdir: one level only. */
  function Mkdir(t: Tree, p: Path): FsResult {
    if p in t then Refused(Exists)
    else if Parent(p) !in t then Refused(LookupError(t, p))
    else if t[Parent(p)].File? then Refused(NotDirectory)
    else Done(t[p := Dir])
  }

  /** The place whose node ends up at `q` when `src` becomes `dst`. */
  function Origin(src: Path, dst: Path, q: Path): Path {
    if dst <= q then src + q[|dst|..] else q
  }

  /** The tree after the subtree at `src` has become the subtree at `dst`. */
  function Relocate(t: Tree, src: Path, dst: Path): (r: Tree)
    ensures forall q :: q in r <==> (if dst <= q then src + q[|dst|..] in t else q in t && !(src <= q))
    ensures forall q :: q in r ==> r[q] == t[Origin(src, dst, q)]
  {
    var moved := set q | q in t && src <= q :: dst + q[|src|..];
    var kept := set q | q in t && !(src <= q) && !(dst <= q);
    assert forall q | q in moved :: dst <= q && src + q[|dst|..] in t by {
      forall q | q in moved ensures dst <= q && src + q[|dst|..] in t {
        var o :| o in t && src <= o && q == dst + o[|src|..];
        assert src + q[|dst|..] == o;
      }
    }
    assert forall q | dst <= q && src + q[|dst|..] in t :: q in moved by {
      forall q | dst <= q && src + q[|dst|..] in t ensures q in moved {
        var o := src + q[|dst|..];
        assert o in t && src <= o && q == dst + o[|src|..];
      }
    }
    map q | q in moved + kept :: t[Origin(src, dst, q)]
  }

  predicate IsEmptyDir(t: Tree, p: Path) {
    IsDir(t, p) && forall q :: q in t && p <= q ==> q == p
  }

  /** rename(2), which is also Python's os.rename on Unix. */
  function Rename(t: Tree, src: Path, dst: Path): FsResult {
    if src !in t then Refused(LookupError(t, src))
    else if src == dst then Done(t)
    else if src <= dst || dst == [] then Refused(Invalid)
    else if Parent(dst) !in t then Refused(LookupError(t, dst))
    else if t[Parent(dst)].File? then Refused(NotDirectory)
    else if dst !in t then Done(Relocate(t, src, dst))
    else if t[dst].File? then
      if t[src].File? then Done(Relocate(t, src, dst)) else Refused(NotDirectory)
    else if t[src].File? then Refused(IsDirectory)
    else if IsEmptyDir(t, dst) then Done(Relocate(t, src, dst))
    else Refused(NotEmpty)
  }

  /** webdav.Dir.Rename over Go's os.Rename: the root is never renamed, and an
      existing directory is never a target. */
  function WebdavRename(t: Tree, src: Path, dst: Path): FsResult {
    if src == [] || dst == [] then Refused(Invalid)
    else if IsDir(t, dst) then
      if src in t then Refused(Exists) else Refused(LookupError(t, src))
    else Rename(t, src, dst)
  }

  /** Everything at and below `p`, named relative to `p`. */
  ghost function Subtree(t: Tree, p: Path): imap<Path, Node> {
    imap rel | p + rel in t :: t[p + rel]
  }

  function FilesWith(t: Tree, content: string): set<Path> {
    set p | p in t && t[p] == File(content)
  }

  predicate Nested(p: Path, q: Path) { p <= q || q <= p }

  lemma {:induction false} AncestorIsDir(t: Tree, p: Path, k: nat)
    requires WellFormed(t) && p in t && k < |p|
    ensures IsDir(t, p[..k])
    decreases |p| - k
  {
    if k + 1 == |p| {
      assert Parent(p) == p[..k];
    } else {
      AncestorIsDir(t, p, k + 1);
      assert Parent(p[..k + 1]) == p[..k];
    }
  }

  /** In a well-formed tree whatever lies above an existing node exists. */
  lemma PrefixExists(t: Tree, p: Path, q: Path)
    requires WellFormed(t) && p in t && q <= p
    ensures q in t && (q != p ==> t[q].Dir?)
  {
    if q != p {
      AncestorIsDir(t, p, |q|);
      assert p[..|q|] == q;
    }
  }

  lemma MkdirKeepsWellFormed(t: Tree, p: Path)
    requires WellFormed(t) && Mkdir(t, p).Done?
    ensures WellFormed(Mkdir(t, p).tree)
  {}

  lemma RelocateKeepsWellFormed(t: Tree, src: Path, dst: Path)
    requires WellFormed(t) && src in t && src != [] && dst !in t && !(src <= dst)
    requires IsDir(t, Parent(dst))
    ensures WellFormed(Relocate(t, src, dst))
  {
    var r := Relocate(t, src, dst);
    forall p | p in r && p != [] ensures IsDir(r, Parent(p)) {
      if p == dst {
        BelowParent(src, dst);
      } else if dst <= p {
        var o := Origin(src, dst, p);
        assert Parent(o) == Origin(src, dst, Parent(p));
        assert dst <= Parent(p);
      } else {
        BelowParent(dst, p);
        BelowParent(src, p);
      }
    }
  }

  lemma BelowParent(above: Path, p: Path)
    ensures above <= Parent(p) ==> above <= p
  {}

  /** The moved subtree is the old one, node for node. */
  lemma RelocatedSubtree(t: Tree, src: Path, dst: Path)
    ensures Subtree(Relocate(t, src, dst), dst) == Subtree(t, src)
  {
    var r := Relocate(t, src, dst);
    forall rel: Path ensures dst + rel in r <==> src + rel in t
                     ensures dst + rel in r ==> r[dst + rel] == t[src + rel]
    {
      assert (dst + rel)[|dst|..] == rel;
      assert dst <= dst + rel;
    }
  }

  /** Every subtree apart from the two ends of the move is untouched. */
  lemma UnrelatedSubtree(t: Tree, src: Path, dst: Path, u: Path)
    requires !Nested(u, src) && !Nested(u, dst)
    ensures Subtree(Relocate(t, src, dst), u) == Subtree(t, u)
  {
    var r := Relocate(t, src, dst);
    forall rel: Path ensures u + rel in r <==> u + rel in t
                     ensures u + rel in r ==> r[u + rel] == t[u + rel]
    {
      NotBelowBoth(u, dst, rel);
      NotBelowBoth(u, src, rel);
    }
  }

  lemma NotBelowBoth(u: Path, v: Path, rel: Path)
    ensures v <= u + rel ==> Nested(u, v)
  {}

  /** Moving a subtree there and back is the identity. */
  lemma RelocateBack(t: Tree, src: Path, dst: Path)
    requires !Nested(src, dst)
    requires forall q :: q in t ==> !(dst <= q)
    ensures Relocate(Relocate(t, src, dst), dst, src) == t
  {
    var r := Relocate(t, src, dst);
    var b := Relocate(r, dst, src);
    forall q ensures q in b <==> q in t
             ensures q in b ==> b[q] == t[q]
    {
      if src <= q {
        var o := dst + q[|src|..];
        assert o[|dst|..] == q[|src|..];
        assert dst <= o;
        assert src + q[|src|..] == q;
      }
    }
  }

  /** A relocation onto a free place is a bijection on files: for every content
      there are as many files holding it as before. */
  lemma RelocateConservesFiles(t: Tree, src: Path, dst: Path, content: string)
    requires forall q :: q in t ==> !(dst <= q)
    ensures |FilesWith(Relocate(t, src, dst), content)| == |FilesWith(t, content)|
  {
    var r := Relocate(t, src, dst);
    var a, b := FilesWith(r, content), FilesWith(t, content);
    var image := set q | q in a :: Origin(src, dst, q);
    forall p | p in b ensures p in image {
      var q := if src <= p then dst + p[|src|..] else p;
      if src <= p {
        assert q[|dst|..] == p[|src|..];
        assert src + p[|src|..] == p;
        assert dst <= q;
      }
      assert Origin(src, dst, q) == p && q in a;
    }
    assert image == b;
    forall p, q | p in a && q in a && Origin(src, dst, p) == Origin(src, dst, q) ensures p == q {
      OriginInjective(t, src, dst, p, q);
    }
    ImageSize(a, q => Origin(src, dst, q), image);
  }

  lemma OriginInjective(t: Tree, src: Path, dst: Path, p: Path, q: Path)
    requires p in Relocate(t, src, dst) && q in Relocate(t, src, dst)
    requires Origin(src, dst, p) == Origin(src, dst, q)
    ensures p == q
  {
    if dst <= p && dst <= q {
      var o := Origin(src, dst, p);
      assert p == dst + o[|src|..] && q == dst + o[|src|..];
    }
  }

  /** An injective image has the size of its source. */
  lemma {:induction false} ImageSize<A(!new), B>(a: set<A>, f: A -> B, image: set<B>)
    requires image == set x | x in a :: f(x)
    requires forall x, y :: x in a && y in a && f(x) == f(y) ==> x == y
    ensures |image| == |a|
    decreases |a|
  {
    if a != {} {
      var x :| x in a;
      var rest := set y | y in a - {x} :: f(y);
      assert image == rest + {f(x)};
      ImageSize(a - {x}, f, rest);
    }
  }
}
