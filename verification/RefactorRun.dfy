/** Whole runs of refactor_filenames.py: plan, rewriting of all source files, renames.
    The rewriting keeps the plan, the final tree is the rewritten one with its kebab
    names, and a second run changes nothing. */
module RefactorRun {
  import opened Options
  import opened PathNames
  import opened FileTree
  import opened Kebab
  import opened TreeRename
  import opened ImportScan
  import opened ImportRewrite
  import opened SourceImports

  predicate EndsIn(name: string, suffix: string) {
    |suffix| <= |name| && name[|name| - |suffix|..] == suffix
  }

  /** A file that update_file_imports looks at. */
  predicate IsSource(t: Tree, p: Path) {
    p in t && p != [] && t[p].File? && (EndsIn(Last(p), ".tsx") || EndsIn(Last(p), ".ts"))
  }

  function SourceFiles(t: Tree): set<Path> { set p | p in t && IsSource(t, p) }

  /** The node at `p` once its imports are rewritten. */
  function Updated(t: Tree, lookup: map<Path, Path>, root: Path, p: Path): Node
    requires p in t
  {
    if IsSource(t, p) then File(RewriteText(t[p].content, lookup, root, root + p)) else t[p]
  }

  /** The tree after update_file_imports. */
  function UpdatedTree(t: Tree, lookup: map<Path, Path>, root: Path): Tree {
    map p | p in t :: Updated(t, lookup, root, p)
  }

  /** update_file_imports: the loop over the source files, in any order. */
  method UpdateImports(t: Tree, lookup: map<Path, Path>, root: Path) returns (tree: Tree)
    ensures tree == UpdatedTree(t, lookup, root)
  {
    hide RewriteText, UpdatedTree, PartlyUpdated, IsSource;
    if lookup == map[] {
      EmptyLookup(t, root);
      return t;
    }
    tree := t;
    var todo := SourceFiles(t);
    NothingUpdated(t, lookup, root);
    while todo != {}
      invariant forall p :: p in todo ==> p in t && IsSource(t, p)
      invariant tree == PartlyUpdated(t, todo, lookup, root)
      decreases |todo|
    {
      var p :| p in todo;
      OneUpdated(t, todo, lookup, root, p);
      var content := UpdateFileImports(tree[p].content, lookup, root, root + p);
      if content != tree[p].content { tree := tree[p := File(content)]; }
      todo := todo - {p};
    }
    AllUpdated(t, lookup, root);
  }

  /** The tree while the files of `todo` are still as they were. */
  function PartlyUpdated(t: Tree, todo: set<Path>, lookup: map<Path, Path>, root: Path): Tree {
    map p | p in t :: if p in todo then t[p] else Updated(t, lookup, root, p)
  }

  lemma NothingUpdated(t: Tree, lookup: map<Path, Path>, root: Path)
    ensures PartlyUpdated(t, SourceFiles(t), lookup, root) == t
  {
    hide RewriteText;
  }

  lemma AllUpdated(t: Tree, lookup: map<Path, Path>, root: Path)
    ensures PartlyUpdated(t, {}, lookup, root) == UpdatedTree(t, lookup, root)
  {}

  lemma OneUpdated(t: Tree, todo: set<Path>, lookup: map<Path, Path>, root: Path, p: Path)
    requires p in todo && IsSource(t, p)
    ensures var u, now := PartlyUpdated(t, todo, lookup, root), PartlyUpdated(t, todo - {p}, lookup, root);
      && p in u && u[p].File?
      && now == u[p := File(RewriteText(u[p].content, lookup, root, root + p))]
  {
    hide RewriteText;
  }

  /** Without renames no file is rewritten. */
  lemma EmptyLookup(t: Tree, root: Path)
    ensures UpdatedTree(t, map[], root) == t
  {
    hide FindFrom;
    forall p | p in t ensures Updated(t, map[], root, p) == t[p] {
      if IsSource(t, p) {
        NothingToRewrite(t[p].content, FindFrom(t[p].content, 0), map[], root, root + p);
      }
    }
  }

  /** What main leaves of a tree, by a plan. */
  function RefactorBy(t: Tree, root: Path, plan: seq<Renaming>): Outcome {
    RunPlan(UpdatedTree(t, Lookup(root, plan), root), plan)
  }

  /** main, without the dry run. */
  method Refactor(t: Tree, root: Path, ignores: seq<string>) returns (plan: seq<Renaming>, r: Outcome)
    requires WellFormed(t)
    ensures IsPlan(t, ignores, PathsBelow(t, []), plan)
    ensures r == RefactorBy(t, root, plan)
  {
    hide IsPlan, UpdatedTree, RunPlan;
    plan := FindRenameTargets(t, [], ignores);
    var tree := UpdateImports(t, Lookup(root, plan), root);
    r := PerformRenames(tree, plan);
  }

  // Which files are rewritten.

  lemma EndsInSuffix(name: string, suffix: string)
    ensures EndsIn(name, suffix) <==> exists stem :: name == stem + suffix
  {
    if EndsIn(name, suffix) { assert name == name[..|name| - |suffix|] + suffix; }
  }

  /** A file has its text rewritten exactly if its name is some stem with ".tsx" or ".ts";
      everything else is as it was. */
  lemma SourcesAreRewritten(t: Tree, lookup: map<Path, Path>, root: Path, p: Path)
    requires p in t
    ensures UpdatedTree(t, lookup, root).Keys == t.Keys
    ensures UpdatedTree(t, lookup, root)[p] ==
      if p != [] && t[p].File? && exists stem :: Last(p) == stem + ".tsx" || Last(p) == stem + ".ts"
      then File(RewriteText(t[p].content, lookup, root, root + p))
      else t[p]
  {
    hide RewriteText, EndsIn;
    if p != [] {
      EndsInSuffix(Last(p), ".tsx");
      EndsInSuffix(Last(p), ".ts");
    }
  }

  /** The same of a whole run, at the places where the nodes end up. */
  lemma RunRewritesSources(t: Tree, ignores: seq<string>, root: Path, plan: seq<Renaming>, p: Path)
    requires Renamable(t, ignores) && IsPlan(t, ignores, PathsBelow(t, []), plan) && p in t
    ensures var now, place := RefactorBy(t, root, plan).tree, FinalPlace(t, ignores, p);
      && place in now
      && now[place] ==
           if p != [] && t[p].File? && exists stem :: Last(p) == stem + ".tsx" || Last(p) == stem + ".ts"
           then File(RewriteText(t[p].content, Lookup(root, plan), root, root + p))
           else t[p]
  {
    hide Renamable, IsPlan, RefactorBy, Updated, FinalPlace, Lookup;
    RunReachesKebab(t, ignores, root, plan);
    SourcesAreRewritten(t, Lookup(root, plan), root, p);
  }

  // Rewriting keeps the plan.

  /** The same places, with nodes of the same kind. */
  ghost predicate SameShape(t: Tree, u: Tree) {
    t.Keys == u.Keys && forall p :: p in t ==> (t[p].Dir? <==> u[p].Dir?)
  }

  lemma UpdateKeepsShape(t: Tree, lookup: map<Path, Path>, root: Path)
    ensures SameShape(t, UpdatedTree(t, lookup, root))
  {
    hide RewriteText;
  }

  lemma ShapeKeepsWanted(t: Tree, u: Tree, ignores: seq<string>)
    requires SameShape(t, u)
    ensures forall p :: p in t && p != [] ==> NewName(t, p) == NewName(u, p) && Target(t, p) == Target(u, p)
    ensures forall p :: Wanted(t, ignores, p) <==> Wanted(u, ignores, p)
    ensures WantedPaths(t, ignores) == WantedPaths(u, ignores)
    ensures PathsBelow(t, []) == PathsBelow(u, [])
  {
    hide ToKebab, KebabFile, HasUpper, Ignored;
    forall p ensures p in PathsBelow(t, []) <==> p in PathsBelow(u, []) {}
    forall p ensures p in WantedPaths(t, ignores) <==> p in WantedPaths(u, ignores) {}
  }

  lemma ShapeKeepsPlan(t: Tree, u: Tree, ignores: seq<string>, plan: seq<Renaming>)
    requires SameShape(t, u) && IsPlan(t, ignores, PathsBelow(t, []), plan)
    ensures IsPlan(u, ignores, PathsBelow(u, []), plan)
  {
    hide Wanted, Target, PathsBelow;
    ShapeKeepsWanted(t, u, ignores);
  }

  lemma ShapeKeepsRenamable(t: Tree, u: Tree, ignores: seq<string>)
    requires SameShape(t, u) && Renamable(t, ignores)
    ensures Renamable(u, ignores)
  {
    hide NameAt, WantedPaths, HasUpper, Extension;
    ShapeKeepsWanted(t, u, ignores);
    ShapeKeepsNames(t, u, WantedPaths(t, ignores));
  }

  lemma ShapeKeepsNames(t: Tree, u: Tree, done: set<Path>)
    requires SameShape(t, u)
    ensures forall p :: p != [] ==> NameAt(t, done, p) == NameAt(u, done, p)
  {
    hide ToKebab, KebabFile;
  }

  lemma {:induction false} ShapeKeepsPlaces(t: Tree, u: Tree, ignores: seq<string>, p: Path)
    requires SameShape(t, u)
    ensures FinalPlace(t, ignores, p) == FinalPlace(u, ignores, p)
    decreases |p|
  {
    hide Wanted, WantedPaths, NewName;
    ShapeKeepsWanted(t, u, ignores);
    if p != [] { ShapeKeepsPlaces(t, u, ignores, Parent(p)); }
  }

  // What a run makes.

  /** Where a node is after the renames. */
  function FinalPlace(t: Tree, ignores: seq<string>, p: Path): Path {
    PlaceAt(t, WantedPaths(t, ignores), p)
  }

  /** Main result for a run: no rename is refused, and every node is at its final place,
      with its imports rewritten and otherwise as it was; nothing else is in the tree. */
  lemma RunReachesKebab(t: Tree, ignores: seq<string>, root: Path, plan: seq<Renaming>)
    requires Renamable(t, ignores) && IsPlan(t, ignores, PathsBelow(t, []), plan)
    ensures var r, lookup := RefactorBy(t, root, plan), Lookup(root, plan);
      && r.failure.None?
      && (forall p :: p in t ==>
            var place := FinalPlace(t, ignores, p);
            place in r.tree && r.tree[place] == Updated(t, lookup, root, p))
      && (forall q :: q in r.tree ==> exists p :: p in t && FinalPlace(t, ignores, p) == q)
  {
    hide *;
    var u := UpdatedTree(t, Lookup(root, plan), root);
    UpdateKeepsShape(t, Lookup(root, plan), root);
    ShapeKeepsPlan(t, u, ignores, plan);
    ShapeKeepsRenamable(t, u, ignores);
    RenamesReachKebab(u, ignores, plan);
    forall p { ShapeKeepsPlaces(t, u, ignores, p); }
    ImageOfUpdated(t, ignores, root, plan, u);
  }

  lemma ImageOfUpdated(t: Tree, ignores: seq<string>, root: Path, plan: seq<Renaming>, u: Tree)
    requires u == UpdatedTree(t, Lookup(root, plan), root)
    requires forall p :: FinalPlace(t, ignores, p) == FinalPlace(u, ignores, p)
    requires RunPlan(u, plan).failure.None? && IsImage(u, WantedPaths(u, ignores), RunPlan(u, plan).tree)
    ensures var r, lookup := RefactorBy(t, root, plan), Lookup(root, plan);
      && r.failure.None?
      && (forall p :: p in t ==>
            var place := FinalPlace(t, ignores, p);
            place in r.tree && r.tree[place] == Updated(t, lookup, root, p))
      && (forall q :: q in r.tree ==> exists p :: p in t && FinalPlace(t, ignores, p) == q)
  {
    hide RunPlan, PlaceAt, WantedPaths, Updated, Lookup;
    var r := RefactorBy(t, root, plan);
    forall q | q in r.tree ensures exists p :: p in t && FinalPlace(t, ignores, p) == q {
      var p :| p in u && PlaceAt(u, WantedPaths(u, ignores), p) == q;
      assert p in t && FinalPlace(u, ignores, p) == q;
    }
  }

  /** After a run every node at or below an ignored folder still has its name. */
  lemma IgnoredNamesStay(t: Tree, ignores: seq<string>, root: Path, plan: seq<Renaming>, k: nat, q: Path, p: Path)
    requires Renamable(t, ignores) && IsPlan(t, ignores, PathsBelow(t, []), plan)
    requires k < |ignores| && q != [] && Clean(ignores[k]) == Join(q) && q <= p && p in t
    ensures var place := FinalPlace(t, ignores, p);
      place in RefactorBy(t, root, plan).tree && place != [] && Last(place) == Last(p)
  {
    hide Renamable, IsPlan, RefactorBy, NewName, HasUpper, Clean;
    RunReachesKebab(t, ignores, root, plan);
    JoinOfPrefix(q, p);
    assert Ignored(p, ignores);
    assert Last(FinalPlace(t, ignores, p)) == NameAt(t, WantedPaths(t, ignores), p);
  }

  /** After a run nothing is left to rename but what was ignored. */
  lemma NothingLeftToRename(t: Tree, ignores: seq<string>, root: Path, plan: seq<Renaming>, p: Path)
    requires Renamable(t, ignores) && IsPlan(t, ignores, PathsBelow(t, []), plan)
    requires p in t && !Ignored(p, ignores)
    ensures !Wanted(RefactorBy(t, root, plan).tree, ignores, FinalPlace(t, ignores, p))
  {
    hide HasUpper, Renamable, NewName, RefactorBy, Ignored, RewriteText;
    var now := RefactorBy(t, root, plan).tree;
    RunReachesKebab(t, ignores, root, plan);
    if p != [] {
      assert Last(FinalPlace(t, ignores, p)) == NameAt(t, WantedPaths(t, ignores), p);
      if Wanted(t, ignores, p) {
        NewNameIsFinal(t, ignores, p);
      } else if HasUpper(Last(p)) {
        assert Target(t, p)[|p| - 1] == NewName(t, p);
        SameNewName(t, p, now, FinalPlace(t, ignores, p));
      }
    }
  }

  lemma SameNewName(t: Tree, p: Path, now: Tree, place: Path)
    requires p in t && p != [] && place in now && place != []
    requires (now[place].Dir? <==> t[p].Dir?) && Last(place) == Last(p) && NewName(t, p) == Last(p)
    ensures Target(now, place) == place
  {
    hide ToKebab, KebabFile;
  }

  /** A second run without ignored paths plans nothing and leaves the tree as it is. */
  lemma SecondRunChangesNothing(t: Tree, root: Path, plan: seq<Renaming>, again: seq<Renaming>)
    requires Renamable(t, []) && IsPlan(t, [], PathsBelow(t, []), plan)
    requires var now := RefactorBy(t, root, plan).tree; IsPlan(now, [], PathsBelow(now, []), again)
    ensures again == []
    ensures var now := RefactorBy(t, root, plan).tree; RefactorBy(now, root, again) == Outcome(now, None)
  {
    hide Wanted, Renamable, RefactorBy, Updated, PathsBelow, PlaceAt;
    var now := RefactorBy(t, root, plan).tree;
    if again != [] {
      var place := again[0].source;
      RunReachesKebab(t, [], root, plan);
      SourceIsThere(now, [], again);
      var p :| p in t && FinalPlace(t, [], p) == place;
      NothingLeftToRename(t, [], root, plan, p);
    }
    EmptyRun(now, root);
  }

  lemma SourceIsThere(t: Tree, ignores: seq<string>, plan: seq<Renaming>)
    requires IsPlan(t, ignores, PathsBelow(t, []), plan) && plan != []
    ensures Wanted(t, ignores, plan[0].source)
  {}

  lemma EmptyRun(t: Tree, root: Path)
    ensures RefactorBy(t, root, []) == Outcome(t, None)
  {
    hide UpdatedTree;
    EmptyLookup(t, root);
  }
}
