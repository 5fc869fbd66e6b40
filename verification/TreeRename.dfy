/** refactor_filenames.py over a directory tree: the bottom-up walk that plans the
    renames, the loop that performs them, and the proof that the planned paths,
    all computed beforehand, stay right while the tree changes. Paths are relative
    to the scanned root. */
module TreeRename {
  import opened Options
  import opened PathNames
  import opened FileTree
  import opened Kebab

  datatype Renaming = Renaming(source: Path, target: Path)

  function Last(p: Path): string
    requires p != []
  {
    p[|p| - 1]
  }

  /** The relative path starts, as a string, with a normalised ignore entry. */
  predicate Ignored(p: Path, ignores: seq<string>) {
    exists i :: 0 <= i < |ignores| && Clean(ignores[i]) <= Join(p)
  }

  function NewName(t: Tree, p: Path): string
    requires p in t && p != []
  {
    if t[p].Dir? then ToKebab(Last(p)) else KebabFile(Last(p))
  }

  function Target(t: Tree, p: Path): Path
    requires p in t && p != []
  {
    Parent(p) + [NewName(t, p)]
  }

  predicate Wanted(t: Tree, ignores: seq<string>, p: Path): (r: bool)
    ensures r ==> p in t && p != []
  {
    && p in t && p != []
    && !Ignored(p, ignores)
    && HasUpper(Last(p))
    && Target(t, p) != p
  }

  function WantedPaths(t: Tree, ignores: seq<string>): set<Path> {
    set p | p in t && Wanted(t, ignores, p)
  }

  // The walk.

  predicate Below(dir: Path, p: Path) { dir <= p && p != dir }

  function PathsBelow(t: Tree, dir: Path): set<Path> {
    set p | p in t && Below(dir, p)
  }

  function Children(t: Tree, dir: Path): (r: set<Path>)
    ensures forall p :: p in r ==> p in t && p != []
  {
    set p | p in t && Below(dir, p) && |p| == |dir| + 1
  }

  /** `plan` lists the wanted paths of `scope`, each once with its target, and none
      before something at or below it. */
  ghost predicate IsPlan(t: Tree, ignores: seq<string>, scope: set<Path>, plan: seq<Renaming>) {
    && (forall i :: 0 <= i < |plan| ==>
          plan[i].source in scope && Wanted(t, ignores, plan[i].source) && plan[i].target == Target(t, plan[i].source))
    && (forall p :: p in scope && Wanted(t, ignores, p) ==> exists i :: 0 <= i < |plan| && plan[i].source == p)
    && (forall i, j :: 0 <= i < j < |plan| ==> !(plan[i].source <= plan[j].source))
  }

  lemma PlanAppend(t: Tree, ignores: seq<string>, s1: set<Path>, plan1: seq<Renaming>,
                   s2: set<Path>, plan2: seq<Renaming>)
    requires IsPlan(t, ignores, s1, plan1) && IsPlan(t, ignores, s2, plan2)
    requires forall p, q :: p in s1 && q in s2 ==> !(p <= q)
    ensures IsPlan(t, ignores, s1 + s2, plan1 + plan2)
  {
    var plan := plan1 + plan2;
    forall p | p in s1 + s2 && Wanted(t, ignores, p) ensures exists i :: 0 <= i < |plan| && plan[i].source == p {
      if p in s1 {
        var i :| 0 <= i < |plan1| && plan1[i].source == p;
        assert plan[i].source == p;
      } else {
        var i :| 0 <= i < |plan2| && plan2[i].source == p;
        assert plan[|plan1| + i].source == p;
      }
    }
  }

  function PlanOne(t: Tree, ignores: seq<string>, p: Path): (plan: seq<Renaming>)
    requires p in t && p != []
    ensures IsPlan(t, ignores, {p}, plan)
  {
    if Wanted(t, ignores, p) then
      var plan := [Renaming(p, Target(t, p))];
      assert plan[0].source == p;
      plan
    else []
  }

  function UnionBelow(t: Tree, dirs: set<Path>): set<Path> {
    set p, d | d in dirs && p in PathsBelow(t, d) :: p
  }

  lemma DeeperIsBelowChild(t: Tree, dir: Path, p: Path)
    requires WellFormed(t) && p in t && Below(dir, p) && |p| > |dir| + 1
    ensures var d := p[..|dir| + 1];
      d in Children(t, dir) && t[d].Dir? && Below(d, p)
  {
    AncestorIsDir(t, p, |dir| + 1);
  }

  lemma ChildrenSplit(t: Tree, dir: Path, files: set<Path>, dirs: set<Path>)
    requires WellFormed(t) && IsDir(t, dir)
    requires dirs == set p | p in Children(t, dir) && t[p].Dir?
    requires files == Children(t, dir) - dirs
    ensures PathsBelow(t, dir) == UnionBelow(t, dirs) + files + dirs
  {
    forall p | p in PathsBelow(t, dir) ensures p in UnionBelow(t, dirs) + files + dirs {
      if |p| > |dir| + 1 {
        DeeperIsBelowChild(t, dir, p);
        assert p in PathsBelow(t, p[..|dir| + 1]);
      } else {
        assert p in Children(t, dir);
      }
    }
  }

  lemma SmallerBelow(t: Tree, dir: Path, d: Path)
    requires d in Children(t, dir)
    ensures |PathsBelow(t, d)| < |PathsBelow(t, dir)|
  {
    assert PathsBelow(t, d) <= PathsBelow(t, dir) - {d};
    CardinalityOfSubset(PathsBelow(t, d), PathsBelow(t, dir) - {d});
  }

  lemma {:induction false} CardinalityOfSubset(a: set<Path>, b: set<Path>)
    requires a <= b
    ensures |a| <= |b|
    decreases |a|
  {
    if a != {} {
      var x :| x in a;
      CardinalityOfSubset(a - {x}, b - {x});
    }
  }

  /** find_rename_targets from `dir` down: the directories below in any order first,
      then the files of `dir`, then its directories. */
  method FindRenameTargets(t: Tree, dir: Path, ignores: seq<string>) returns (plan: seq<Renaming>)
    requires WellFormed(t) && IsDir(t, dir)
    ensures IsPlan(t, ignores, PathsBelow(t, dir), plan)
    decreases |PathsBelow(t, dir)|
  {
    hide *;
    plan := [];
    var dirs := set p | p in Children(t, dir) && t[p].Dir?;
    var files := Children(t, dir) - dirs;
    var todo := dirs;
    ghost var done: set<Path> := {};
    Regroup(dirs, {}, {});
    EmptyPlan(t, ignores);
    while todo != {}
      invariant todo !! done && todo + done == dirs
      invariant IsPlan(t, ignores, UnionBelow(t, done), plan)
      decreases |todo|
    {
      var d :| d in todo;
      SmallerBelow(t, dir, d);
      DirOfChild(t, dir, d);
      var sub := FindRenameTargets(t, d, ignores);
      SiblingsApart(t, dir, done, d);
      PlanAppend(t, ignores, UnionBelow(t, done), plan, PathsBelow(t, d), sub);
      UnionBelowStep(t, done, d);
      plan := plan + sub;
      Handled(todo, done, d);
      todo, done := todo - {d}, done + {d};
    }
    Regroup(UnionBelow(t, dirs), {}, {});
    AllHandled(dirs, files, Children(t, dir));
    plan := PlanChildren(t, ignores, files, plan, dir, dirs, {});
    plan := PlanChildren(t, ignores, dirs, plan, dir, dirs, {} + files);
    ChildrenSplit(t, dir, files, dirs);
    Regroup(UnionBelow(t, dirs), files, dirs);
  }

  /** The loop over the names of one directory, first its files, then its
      directories, after what the plan already holds for `planned`. */
  method PlanChildren(t: Tree, ignores: seq<string>, children: set<Path>, plan0: seq<Renaming>,
                      ghost dir: Path, ghost dirs: set<Path>, ghost planned: set<Path>)
    returns (plan: seq<Renaming>)
    requires dirs <= Children(t, dir) && planned <= Children(t, dir)
    requires children <= Children(t, dir) && children !! planned
    requires IsPlan(t, ignores, UnionBelow(t, dirs) + planned, plan0)
    ensures IsPlan(t, ignores, UnionBelow(t, dirs) + (planned + children), plan)
  {
    hide *;
    plan := plan0;
    var todo := children;
    ghost var done := planned;
    while todo != {}
      invariant todo !! done && todo + done == planned + children
      invariant IsPlan(t, ignores, UnionBelow(t, dirs) + done, plan)
      decreases |todo|
    {
      var c :| c in todo;
      AppendChild(t, dir, ignores, dirs, done, plan, c);
      plan := plan + PlanOne(t, ignores, c);
      Handled(todo, done, c);
      todo, done := todo - {c}, done + {c};
    }
  }

  lemma Regroup<T>(a: set<T>, b: set<T>, c: set<T>)
    ensures a + {} == a && a + ({} + b + c) == a + b + c
  {}

  lemma AllHandled<T>(dirs: set<T>, files: set<T>, all: set<T>)
    requires dirs <= all && files == all - dirs
    ensures files !! {} && dirs !! {} + files && {} + files <= all
  {}

  lemma Handled<T>(todo: set<T>, done: set<T>, x: T)
    requires x in todo && todo !! done
    ensures (todo - {x}) !! (done + {x}) && (todo - {x}) + (done + {x}) == todo + done
  {}

  lemma DirOfChild(t: Tree, dir: Path, d: Path)
    requires d in Children(t, dir) && t[d].Dir?
    ensures IsDir(t, d)
  {}

  lemma EmptyPlan(t: Tree, ignores: seq<string>)
    ensures IsPlan(t, ignores, UnionBelow(t, {}), [])
  {}

  lemma UnionBelowStep(t: Tree, done: set<Path>, d: Path)
    ensures UnionBelow(t, done + {d}) == UnionBelow(t, done) + PathsBelow(t, d)
  {}

  lemma AppendChild(t: Tree, dir: Path, ignores: seq<string>, dirs: set<Path>, others: set<Path>,
                    plan: seq<Renaming>, c: Path)
    requires dirs <= Children(t, dir) && others <= Children(t, dir)
    requires c in Children(t, dir) && c !in others
    requires IsPlan(t, ignores, UnionBelow(t, dirs) + others, plan)
    ensures IsPlan(t, ignores, UnionBelow(t, dirs) + (others + {c}), plan + PlanOne(t, ignores, c))
  {
    hide IsPlan, UnionBelow, PlanOne;
    NoneAboveChild(t, dir, dirs, others, c);
    PlanAppend(t, ignores, UnionBelow(t, dirs) + others, plan, {c}, PlanOne(t, ignores, c));
    assert UnionBelow(t, dirs) + others + {c} == UnionBelow(t, dirs) + (others + {c});
  }

  lemma NoneAboveChild(t: Tree, dir: Path, dirs: set<Path>, others: set<Path>, c: Path)
    requires dirs <= Children(t, dir) && others <= Children(t, dir)
    requires c in Children(t, dir) && c !in others
    ensures forall p :: p in UnionBelow(t, dirs) + others ==> !(p <= c)
  {
    forall p | p in UnionBelow(t, dirs) + others ensures !(p <= c) {
      if p in UnionBelow(t, dirs) {
        var d :| d in dirs && p in PathsBelow(t, d);
        assert |p| > |c|;
      } else {
        assert p <= c ==> p == c;
      }
    }
  }

  lemma SiblingsApart(t: Tree, dir: Path, done: set<Path>, d: Path)
    requires done <= Children(t, dir) && d in Children(t, dir) && d !in done
    ensures forall p, q :: p in UnionBelow(t, done) && q in PathsBelow(t, d) ==> !(p <= q)
  {
    forall p, q | p in UnionBelow(t, done) && q in PathsBelow(t, d) ensures !(p <= q) {
      var e :| e in done && p in PathsBelow(t, e);
      assert p[..|dir| + 1] == e && q[..|dir| + 1] == d;
      SamePrefix(p, q, |dir| + 1);
    }
  }

  lemma SamePrefix(p: Path, q: Path, n: nat)
    requires n <= |p| && n <= |q|
    ensures p <= q ==> p[..n] == q[..n]
  {}

  // What is ignored.

  /** A node is renamed, in its directory, exactly if its name has an upper-case letter
      and would change, and no cleaned entry is a string prefix of its relative path. A
      directory is renamed as a word, a file as its stem is. */
  lemma PlannedUnlessIgnored(t: Tree, ignores: seq<string>, plan: seq<Renaming>, p: Path)
    requires IsPlan(t, ignores, PathsBelow(t, []), plan) && p in t && p != []
    ensures var last := p[|p| - 1];
      var name := if t[p].Dir? then ToKebab(last) else KebabFile(last);
      && ((exists i :: 0 <= i < |plan| && plan[i] == Renaming(p, p[..|p| - 1] + [name])) <==>
            && (exists c :: c in last && 'A' <= c <= 'Z')
            && name != last
            && forall k :: 0 <= k < |ignores| ==> !(Clean(ignores[k]) <= Join(p)))
      && forall i :: 0 <= i < |plan| && plan[i].source == p ==> plan[i].target == p[..|p| - 1] + [name]
  {
    WantedExactly(t, ignores, p);
    hide Clean, Wanted, Join, PathsBelow, ToKebab, KebabFile;
    InWholeTree(t, p);
    if Wanted(t, ignores, p) {
      var i :| 0 <= i < |plan| && plan[i].source == p;
      assert plan[i] == Renaming(p, Target(t, p));
    }
  }

  lemma WantedExactly(t: Tree, ignores: seq<string>, p: Path)
    requires p in t && p != []
    ensures Wanted(t, ignores, p) <==>
      && (exists c :: c in Last(p) && 'A' <= c <= 'Z')
      && NewName(t, p) != p[|p| - 1]
      && forall k :: 0 <= k < |ignores| ==> !(Clean(ignores[k]) <= Join(p))
  {
    hide NewName, Clean, HasUpper, Join;
    assert Target(t, p)[|p| - 1] == NewName(t, p);
    HasUpperLetter(Last(p));
  }

  lemma InWholeTree(t: Tree, p: Path)
    requires p in t && p != []
    ensures p in PathsBelow(t, [])
  {}

  lemma HasUpperLetter(s: string)
    ensures HasUpper(s) <==> exists c :: c in s && 'A' <= c <= 'Z'
  {
    if c :| c in s && 'A' <= c <= 'Z' {
      var i :| 0 <= i < |s| && s[i] == c;
      assert IsUpper(s[i]);
    }
    if i :| 0 <= i < |s| && IsUpper(s[i]) { assert s[i] in s; }
  }

  /** Nothing at or below a folder that is ignored is renamed, nor anything else whose
      relative path begins with the same letters. */
  lemma IgnoredFolderIsKept(t: Tree, ignores: seq<string>, plan: seq<Renaming>, k: nat, q: Path)
    requires IsPlan(t, ignores, PathsBelow(t, []), plan)
    requires k < |ignores| && q != [] && Clean(ignores[k]) == Join(q)
    ensures forall i :: 0 <= i < |plan| ==> !(q <= plan[i].source) && !(Join(q) <= Join(plan[i].source))
  {
    forall i | 0 <= i < |plan| ensures !(q <= plan[i].source) && !(Join(q) <= Join(plan[i].source)) {
      assert !Ignored(plan[i].source, ignores);
      if q <= plan[i].source { JoinOfPrefix(q, plan[i].source); }
    }
  }

  lemma {:induction false} JoinOfPrefix(q: Path, p: Path)
    requires q <= p
    ensures Join(q) <= Join(p)
  {
    if |q| > 1 {
      assert q[1..] <= p[1..];
      JoinOfPrefix(q[1..], p[1..]);
      assert q[0] == p[0];
    } else if |q| == 1 {
      assert Join(q) == q[0] == p[0];
    }
  }

  // The renames.

  datatype Outcome = Outcome(tree: Tree, failure: Option<FsError>)

  /** os.rename over the plan in list order, stopping at the first error. */
  function RunPlan(t: Tree, plan: seq<Renaming>): Outcome
    decreases |plan|
  {
    if plan == [] then Outcome(t, None)
    else match Rename(t, plan[0].source, plan[0].target)
      case Refused(error) => Outcome(t, Some(error))
      case Done(t') => RunPlan(t', plan[1..])
  }

  /** A loop of renames that fails has done all before the one that is refused, and
      nothing after it. */
  lemma {:induction false} RunEndsAtFirst(t: Tree, plan: seq<Renaming>) returns (k: nat)
    ensures k <= |plan| && RunPlan(t, plan[..k]) == Outcome(RunPlan(t, plan).tree, None)
    ensures RunPlan(t, plan).failure.None? <==> k == |plan|
    ensures k < |plan| ==> var r := RunPlan(t, plan);
      r.failure.Some? && Rename(r.tree, plan[k].source, plan[k].target) == Refused(r.failure.value)
    decreases |plan|
  {
    hide Rename;
    if plan == [] || Rename(t, plan[0].source, plan[0].target).Refused? {
      k := 0;
    } else {
      var next := Rename(t, plan[0].source, plan[0].target).tree;
      var j := RunEndsAtFirst(next, plan[1..]);
      k := j + 1;
      assert plan[..k][0] == plan[0] && plan[..k][1..] == plan[1..][..j] && plan[k..] == plan[1..][j..];
    }
  }

  method PerformRenames(t: Tree, plan: seq<Renaming>) returns (r: Outcome)
    ensures r == RunPlan(t, plan)
  {
    var tree := t;
    for i := 0 to |plan|
      invariant RunPlan(tree, plan[i..]) == RunPlan(t, plan)
    {
      assert plan[i..][1..] == plan[i + 1..];
      match Rename(tree, plan[i].source, plan[i].target) {
        case Refused(error) => return Outcome(tree, Some(error));
        case Done(renamed) => tree := renamed;
      }
    }
    return Outcome(tree, None);
  }

  /** The name of `p` once the paths of `done` are renamed. */
  function NameAt(t: Tree, done: set<Path>, p: Path): string
    requires p != []
  {
    if p in done && p in t then NewName(t, p) else Last(p)
  }

  /** The place of `p` once the paths of `done` are renamed: each component that
      names a renamed path has its new name. */
  function PlaceAt(t: Tree, done: set<Path>, p: Path): (r: Path)
    ensures |r| == |p|
  {
    if p == [] then [] else PlaceAt(t, done, Parent(p)) + [NameAt(t, done, p)]
  }

  /** `now` is the original tree with every node at its place, and nothing else. */
  ghost predicate IsImage(t: Tree, done: set<Path>, now: Tree) {
    EveryNodePlaced(t, done, now) && EveryPlaceHeld(t, done, now)
  }

  ghost predicate EveryNodePlaced(t: Tree, done: set<Path>, now: Tree) {
    forall p :: p in t ==> PlaceAt(t, done, p) in now && now[PlaceAt(t, done, p)] == t[p]
  }

  ghost predicate EveryPlaceHeld(t: Tree, done: set<Path>, now: Tree) {
    forall q :: q in now ==> exists p :: p in t && PlaceAt(t, done, p) == q
  }

  /** Siblings have distinct final names, and extensions are in lower case. */
  ghost predicate Renamable(t: Tree, ignores: seq<string>) {
    && WellFormed(t)
    && (forall p, q :: p in t && q in t && p != [] && q != [] && p != q && Parent(p) == Parent(q) ==>
          NameAt(t, WantedPaths(t, ignores), p) != NameAt(t, WantedPaths(t, ignores), q))
    && (forall p :: p in t && p != [] && t[p].File? ==> !HasUpper(Extension(Last(p))))
  }

  lemma {:induction false} PlacePrefix(t: Tree, done: set<Path>, p: Path, k: nat)
    requires k <= |p|
    ensures PlaceAt(t, done, p)[..k] == PlaceAt(t, done, p[..k])
    decreases |p|
  {
    hide NameAt;
    if k == |p| {
      assert p[..k] == p;
    } else {
      PlacePrefix(t, done, Parent(p), k);
      assert Parent(p)[..k] == p[..k];
    }
  }

  lemma {:induction false} PlaceUntouched(t: Tree, done: set<Path>, p: Path)
    requires forall q :: q in done ==> !(q <= p)
    ensures PlaceAt(t, done, p) == p
    decreases |p|
  {
    if p != [] {
      forall q | q in done ensures !(q <= Parent(p)) { BelowParent(q, p); }
      PlaceUntouched(t, done, Parent(p));
    }
  }

  /** A new name has no upper-case letter, so it is not one still to be renamed. */
  lemma NewNameIsFinal(t: Tree, ignores: seq<string>, p: Path)
    requires Renamable(t, ignores) && Wanted(t, ignores, p)
    ensures !HasUpper(NewName(t, p)) && NewName(t, p) != Last(p)
  {
    hide ToKebab, KebabFile, HasUpper, Ignored;
    assert Parent(p) + [Last(p)] == p;
    if t[p].Dir? { KebabIsLower(Last(p)); } else { KebabFileIsLower(Last(p)); }
  }

  /** At every moment siblings have distinct names. */
  lemma SiblingsStayDistinct(t: Tree, ignores: seq<string>, done: set<Path>, p: Path, q: Path)
    requires Renamable(t, ignores) && done <= WantedPaths(t, ignores)
    requires p in t && q in t && p != [] && q != [] && p != q && Parent(p) == Parent(q)
    ensures NameAt(t, done, p) != NameAt(t, done, q)
  {
    hide NewName, HasUpper, Ignored, Extension, WellFormed, Target;
    assert p == Parent(p) + [Last(p)] && q == Parent(q) + [Last(q)];
    if p in done && q !in done {
      NewNameIsFinal(t, ignores, p);
    } else if q in done && p !in done {
      NewNameIsFinal(t, ignores, q);
    }
  }

  lemma {:induction false} PlaceInjective(t: Tree, ignores: seq<string>, done: set<Path>, p: Path, q: Path)
    requires Renamable(t, ignores) && done <= WantedPaths(t, ignores)
    requires p in t && q in t && PlaceAt(t, done, p) == PlaceAt(t, done, q)
    ensures p == q
    decreases |p|
  {
    hide NameAt, Wanted, WantedPaths;
    if p != [] {
      var a, b := PlaceAt(t, done, Parent(p)), PlaceAt(t, done, Parent(q));
      assert PlaceAt(t, done, p)[..|p| - 1] == a && PlaceAt(t, done, q)[..|q| - 1] == b;
      PlaceInjective(t, ignores, done, Parent(p), Parent(q));
      if p != q { SiblingsStayDistinct(t, ignores, done, p, q); }
    }
  }

  /** Only what is below `src` has a place below `src` while `src` is untouched. */
  lemma PlaceBelow(t: Tree, ignores: seq<string>, done: set<Path>, src: Path, p: Path)
    requires Renamable(t, ignores) && done <= WantedPaths(t, ignores)
    requires src in t && p in t && forall q :: q in done ==> !(q <= src)
    ensures src <= PlaceAt(t, done, p) <==> src <= p
  {
    PlaceUntouched(t, done, src);
    if src <= PlaceAt(t, done, p) || src <= p {
      PlacePrefix(t, done, p, |src|);
      PrefixExists(t, p, p[..|src|]);
    }
    if src <= PlaceAt(t, done, p) {
      PlaceInjective(t, ignores, done, p[..|src|], src);
    }
    assert src <= p ==> p[..|src|] == src;
  }

  /** How the next rename changes a place. */
  lemma {:induction false} PlaceStep(t: Tree, done: set<Path>, src: Path, p: Path)
    requires src in t && src != [] && forall q :: q in done ==> !(q <= src)
    ensures PlaceAt(t, done + {src}, p) ==
      if src <= p then Target(t, src) + PlaceAt(t, done, p)[|src|..] else PlaceAt(t, done, p)
    decreases |p|
  {
    hide NewName;
    if p == src {
      forall q | q in done + {src} ensures !(q <= Parent(src)) { BelowParent(q, src); }
      PlaceUntouched(t, done + {src}, Parent(src));
    } else if p != [] {
      PlaceStep(t, done, src, Parent(p));
      PlaceStepBelow(t, done, src, p);
    }
  }

  lemma PlaceStepBelow(t: Tree, done: set<Path>, src: Path, p: Path)
    requires src in t && src != [] && p != [] && p != src
    requires PlaceAt(t, done + {src}, Parent(p)) ==
      if src <= Parent(p) then Target(t, src) + PlaceAt(t, done, Parent(p))[|src|..] else PlaceAt(t, done, Parent(p))
    ensures PlaceAt(t, done + {src}, p) ==
      if src <= p then Target(t, src) + PlaceAt(t, done, p)[|src|..] else PlaceAt(t, done, p)
  {
    PlaceOfParent(t, done, p);
    PlaceOfParent(t, done + {src}, p);
    hide Target, PlaceAt, NewName;
    BelowParent(src, p);
    assert src <= p ==> src <= Parent(p);
  }

  lemma PlaceOfParent(t: Tree, done: set<Path>, p: Path)
    requires p != []
    ensures PlaceAt(t, done, p) == PlaceAt(t, done, Parent(p)) + [NameAt(t, done, p)]
  {}

  /** The target of the next rename is free. */
  lemma TargetIsFree(t: Tree, ignores: seq<string>, done: set<Path>, now: Tree, src: Path)
    requires Renamable(t, ignores) && done <= WantedPaths(t, ignores) && IsImage(t, done, now)
    requires Wanted(t, ignores, src) && forall q :: q in done ==> !(q <= src)
    ensures Target(t, src) !in now
  {
    if Target(t, src) in now {
      var p :| p in t && PlaceAt(t, done, p) == Target(t, src);
      NoPlaceAtTarget(t, ignores, done, src, p);
    }
  }

  lemma NoPlaceAtTarget(t: Tree, ignores: seq<string>, done: set<Path>, src: Path, p: Path)
    requires Renamable(t, ignores) && done <= WantedPaths(t, ignores) && p in t
    requires Wanted(t, ignores, src) && forall q :: q in done ==> !(q <= src)
    ensures PlaceAt(t, done, p) != Target(t, src)
  {
    hide NewName;
    if PlaceAt(t, done, p) == Target(t, src) {
      forall q | q in done ensures !(q <= Parent(src)) { BelowParent(q, src); }
      PlaceUntouched(t, done, Parent(src));
      assert PlaceAt(t, done, p)[..|p| - 1] == Parent(src) == PlaceAt(t, done, Parent(src));
      PlaceInjective(t, ignores, done, Parent(p), Parent(src));
      assert NameAt(t, done, p) == NewName(t, src);
      NewNameIsFinal(t, ignores, src);
      if p != src { SiblingsStayDistinct(t, ignores, done + {src}, p, src); }
    }
  }

  /** One rename: it is not refused, and the tree stays an image of the original. */
  lemma RenameStep(t: Tree, ignores: seq<string>, done: set<Path>, now: Tree, src: Path)
    requires Renamable(t, ignores) && done <= WantedPaths(t, ignores) && IsImage(t, done, now)
    requires Wanted(t, ignores, src) && forall q :: q in done ==> !(q <= src)
    ensures Rename(now, src, Target(t, src)) == Done(Relocate(now, src, Target(t, src)))
    ensures IsImage(t, done + {src}, Relocate(now, src, Target(t, src)))
  {
    hide NewName, NameAt, PlaceAt, Wanted, WantedPaths, Renamable, IsImage;
    TargetIsFree(t, ignores, done, now, src);
    TargetHasHome(t, ignores, done, now, src);
    RenameInPlace(now, src, Target(t, src));
    RelocationIsImage(t, ignores, done, now, src);
  }

  lemma RenameInPlace(t: Tree, src: Path, dst: Path)
    requires src in t && src != dst && |src| == |dst| && dst != []
    requires dst !in t && IsDir(t, Parent(dst))
    ensures Rename(t, src, dst) == Done(Relocate(t, src, dst))
  {
    hide Relocate;
  }

  lemma RelocationIsImage(t: Tree, ignores: seq<string>, done: set<Path>, now: Tree, src: Path)
    requires Renamable(t, ignores) && done <= WantedPaths(t, ignores) && IsImage(t, done, now)
    requires Wanted(t, ignores, src) && forall q :: q in done ==> !(q <= src)
    requires Target(t, src) !in now
    ensures IsImage(t, done + {src}, Relocate(now, src, Target(t, src)))
  {
    hide Target, Relocate, EveryNodePlaced, EveryPlaceHeld;
    NodesStayPlaced(t, ignores, done, now, src);
    PlacesStayHeld(t, ignores, done, now, src);
  }

  lemma NodesStayPlaced(t: Tree, ignores: seq<string>, done: set<Path>, now: Tree, src: Path)
    requires Renamable(t, ignores) && done <= WantedPaths(t, ignores) && IsImage(t, done, now)
    requires Wanted(t, ignores, src) && forall q :: q in done ==> !(q <= src)
    requires Target(t, src) !in now
    ensures EveryNodePlaced(t, done + {src}, Relocate(now, src, Target(t, src)))
  {
    hide NewName, NameAt, PlaceAt, Wanted, WantedPaths, Renamable, Target, Relocate, IsImage;
    var next := Relocate(now, src, Target(t, src));
    forall p | p in t ensures PlaceAt(t, done + {src}, p) in next && next[PlaceAt(t, done + {src}, p)] == t[p] {
      ImageOfOne(t, ignores, done, now, src, p);
    }
  }

  lemma PlacesStayHeld(t: Tree, ignores: seq<string>, done: set<Path>, now: Tree, src: Path)
    requires Renamable(t, ignores) && done <= WantedPaths(t, ignores) && IsImage(t, done, now)
    requires Wanted(t, ignores, src) && forall q :: q in done ==> !(q <= src)
    ensures EveryPlaceHeld(t, done + {src}, Relocate(now, src, Target(t, src)))
  {
    hide NewName, NameAt, PlaceAt, Wanted, WantedPaths, Renamable, Target, Relocate, IsImage;
    forall q | q in Relocate(now, src, Target(t, src)) ensures exists p :: p in t && PlaceAt(t, done + {src}, p) == q {
      var p := OriginOfOne(t, ignores, done, now, src, q);
    }
  }

  lemma TargetHasHome(t: Tree, ignores: seq<string>, done: set<Path>, now: Tree, src: Path)
    requires Renamable(t, ignores) && IsImage(t, done, now)
    requires Wanted(t, ignores, src) && forall q :: q in done ==> !(q <= src)
    ensures src in now && src != Target(t, src) && Parent(Target(t, src)) == Parent(src) && IsDir(now, Parent(src))
  {
    forall q | q in done ensures !(q <= Parent(src)) { BelowParent(q, src); }
    PlaceUntouched(t, done, src);
    PlaceUntouched(t, done, Parent(src));
    assert Parent(Target(t, src)) == Parent(src);
    assert IsDir(t, Parent(src));
  }

  lemma ImageOfOne(t: Tree, ignores: seq<string>, done: set<Path>, now: Tree, src: Path, p: Path)
    requires Renamable(t, ignores) && done <= WantedPaths(t, ignores) && IsImage(t, done, now)
    requires Wanted(t, ignores, src) && forall q :: q in done ==> !(q <= src)
    requires Target(t, src) !in now && p in t
    ensures var next, place := Relocate(now, src, Target(t, src)), PlaceAt(t, done + {src}, p);
      place in next && next[place] == t[p]
  {
    hide PlaceAt, NewName, Wanted, WantedPaths, Relocate, Renamable;
    var before := PlaceAt(t, done, p);
    PlaceMoves(t, ignores, done, now, src, p);
    if src <= p {
      RelocatedAt(now, src, Target(t, src), before);
    } else {
      KeptAt(now, src, Target(t, src), before);
    }
  }

  /** Where the next rename takes a place, and that it meets no other. */
  lemma PlaceMoves(t: Tree, ignores: seq<string>, done: set<Path>, now: Tree, src: Path, p: Path)
    requires Renamable(t, ignores) && done <= WantedPaths(t, ignores) && IsImage(t, done, now)
    requires Wanted(t, ignores, src) && forall q :: q in done ==> !(q <= src)
    requires Target(t, src) !in now && p in t
    ensures var before, after := PlaceAt(t, done, p), PlaceAt(t, done + {src}, p);
      && (src <= before <==> src <= p)
      && after == (if src <= p then Target(t, src) + before[|src|..] else before)
      && !(Target(t, src) <= before)
  {
    hide PlaceAt, Wanted, WantedPaths, IsImage, Target;
    PlaceBelow(t, ignores, done, src, p);
    PlaceStep(t, done, src, p);
    NoPlaceBelow(t, done, now, Target(t, src), p);
  }

  lemma NoPlaceBelow(t: Tree, done: set<Path>, now: Tree, free: Path, p: Path)
    requires WellFormed(t) && IsImage(t, done, now) && free !in now && p in t
    ensures !(free <= PlaceAt(t, done, p))
  {
    hide PlaceAt;
    if free <= PlaceAt(t, done, p) {
      var above := p[..|free|];
      assert PlaceAt(t, done, p)[..|free|] == free;
      PlacePrefix(t, done, p, |free|);
      PrefixExists(t, p, above);
    }
  }

  lemma KeptAt(t: Tree, src: Path, dst: Path, p: Path)
    requires p in t && !(src <= p) && !(dst <= p)
    ensures p in Relocate(t, src, dst) && Relocate(t, src, dst)[p] == t[p]
  {}

  lemma RelocatedAt(t: Tree, src: Path, dst: Path, p: Path)
    requires p in t && src <= p
    ensures var q := dst + p[|src|..];
      q in Relocate(t, src, dst) && Relocate(t, src, dst)[q] == t[p]
  {
    assert src + p[|src|..] == p;
    assert (dst + p[|src|..])[|dst|..] == p[|src|..];
  }

  lemma OriginOfOne(t: Tree, ignores: seq<string>, done: set<Path>, now: Tree, src: Path, q: Path) returns (p: Path)
    requires Renamable(t, ignores) && done <= WantedPaths(t, ignores) && IsImage(t, done, now)
    requires Wanted(t, ignores, src) && forall q :: q in done ==> !(q <= src)
    requires q in Relocate(now, src, Target(t, src))
    ensures p in t && PlaceAt(t, done + {src}, p) == q
  {
    assert src in t && src != [];
    hide PlaceAt, Renamable, WantedPaths, NewName, Wanted;
    var target := Target(t, src);
    var o := Origin(src, target, q);
    p :| p in t && PlaceAt(t, done, p) == o;
    PlaceBelow(t, ignores, done, src, p);
    PlaceStep(t, done, src, p);
    if target <= q {
      assert o[|src|..] == q[|target|..] && target + q[|target|..] == q;
    }
  }

  function SourcesOf(plan: seq<Renaming>): set<Path> {
    set i | 0 <= i < |plan| :: plan[i].source
  }

  lemma {:induction false} RunFrom(t: Tree, ignores: seq<string>, plan: seq<Renaming>, k: nat, now: Tree)
    requires Renamable(t, ignores) && IsPlan(t, ignores, PathsBelow(t, []), plan) && k <= |plan|
    requires IsImage(t, SourcesOf(plan[..k]), now)
    ensures RunPlan(now, plan[k..]).failure.None?
    ensures IsImage(t, WantedPaths(t, ignores), RunPlan(now, plan[k..]).tree)
    decreases |plan| - k
  {
    hide NewName, NameAt, PlaceAt, IsImage, WellFormed, Relocate;
    var done := SourcesOf(plan[..k]);
    if k == |plan| {
      assert plan[..k] == plan && plan[k..] == [];
      PlanCoversWanted(t, ignores, plan);
    } else {
      var src := plan[k].source;
      assert plan[k..][1..] == plan[k + 1..];
      SourcesStep(plan, k);
      SourcesBefore(t, ignores, plan, k);
      RenameStep(t, ignores, done, now, src);
      RunFrom(t, ignores, plan, k + 1, Relocate(now, src, plan[k].target));
    }
  }

  lemma PlanCoversWanted(t: Tree, ignores: seq<string>, plan: seq<Renaming>)
    requires IsPlan(t, ignores, PathsBelow(t, []), plan)
    ensures SourcesOf(plan) == WantedPaths(t, ignores)
  {
    forall p | p in WantedPaths(t, ignores) ensures p in SourcesOf(plan) {
      assert p in PathsBelow(t, []);
      var i :| 0 <= i < |plan| && plan[i].source == p;
    }
  }

  lemma SourcesStep(plan: seq<Renaming>, k: nat)
    requires k < |plan|
    ensures SourcesOf(plan[..k + 1]) == SourcesOf(plan[..k]) + {plan[k].source}
  {
    var a, b := plan[..k], plan[..k + 1];
    assert b[k].source == plan[k].source;
    forall p | p in SourcesOf(a) ensures p in SourcesOf(b) {
      var i :| 0 <= i < k && a[i].source == p;
      assert b[i].source == p;
    }
    forall p | p in SourcesOf(b) ensures p in SourcesOf(a) || p == plan[k].source {
      var i :| 0 <= i < k + 1 && b[i].source == p;
      if i < k { assert a[i].source == p; }
    }
  }

  lemma SourcesBefore(t: Tree, ignores: seq<string>, plan: seq<Renaming>, k: nat)
    requires IsPlan(t, ignores, PathsBelow(t, []), plan) && k < |plan|
    ensures SourcesOf(plan[..k]) <= WantedPaths(t, ignores)
    ensures forall q :: q in SourcesOf(plan[..k]) ==> !(q <= plan[k].source)
  {
    forall q | q in SourcesOf(plan[..k]) ensures q in WantedPaths(t, ignores) && !(q <= plan[k].source) {
      var i :| 0 <= i < k && plan[..k][i].source == q;
      assert plan[i].source == q;
    }
  }

  /** Main result: over the planned list, in its order, no rename is refused, and the
      final tree is the original with every wanted name, at every level, in its
      kebab form. */
  lemma RenamesReachKebab(t: Tree, ignores: seq<string>, plan: seq<Renaming>)
    requires Renamable(t, ignores) && IsPlan(t, ignores, PathsBelow(t, []), plan)
    ensures RunPlan(t, plan).failure.None?
    ensures IsImage(t, WantedPaths(t, ignores), RunPlan(t, plan).tree)
  {
    hide *;
    NothingRenamed(t, plan);
    assert plan[0..] == plan;
    RunFrom(t, ignores, plan, 0, t);
  }

  lemma NothingRenamed(t: Tree, plan: seq<Renaming>)
    ensures IsImage(t, SourcesOf(plan[..0]), t)
  {
    hide PlaceAt;
    assert SourcesOf(plan[..0]) == {};
    forall p | p in t ensures PlaceAt(t, {}, p) == p { PlaceUntouched(t, {}, p); }
  }

  /** There is only one such tree. */
  lemma ImageUnique(t: Tree, done: set<Path>, a: Tree, b: Tree)
    requires IsImage(t, done, a) && IsImage(t, done, b)
    ensures a == b
  {
    assert forall q :: q in a <==> q in b;
  }
}
