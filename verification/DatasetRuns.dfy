/** Safety of the storage service over whole runs: through any sequence of dataset
    moves, restores, provisioning passes and user moves, each dataset's URL names
    an existing node with its original content. */
module DatasetRuns {
  import opened Options
  import opened PathNames
  import opened FileTree
  import opened DatasetService
  import Routing = SpaceRouting

  datatype Step =
    | MoveDataset(id: nat, updateOk: bool)
    | Restore(id: nat, dst: string, updateOk: bool)
    | Check(users: Option<seq<string>>, accounts: Option<seq<string>>)
    | UserMove(src: string, dst: string)

  function Next(cfg: Routing.Config, s: State, step: Step): State {
    match step
    case MoveDataset(id, updateOk) => AfterMoveDataset(s, id, updateOk)
    case Restore(id, dst, updateOk) => AfterRestore(s, id, dst, updateOk)
    case Check(users, accounts) => s.(tree := EnsureDirs(s.tree, Provisioned(cfg, users, accounts)))
    case UserMove(src, dst) => s.(tree := TreeAfterMove(s.tree, src, dst))
  }

  function Run(cfg: Routing.Config, s: State, steps: seq<Step>): State
    decreases |steps|
  {
    if steps == [] then s else Run(cfg, Next(cfg, s, steps[0]), steps[1..])
  }

  predicate Managed(p: Path) { [MODEL_PREFIX] <= p || [DATASET_PREFIX] <= p }

  /** At or above a directory that provisioning makes at the root. */
  predicate AboveBase(cfg: Routing.Config, p: Path) {
    exists i :: 0 <= i < |BaseDirs(cfg)| && p <= BaseDirs(cfg)[i]
  }

  /** No space prefix lies at or below the managed place of a dataset. */
  predicate BasesOutsideSlots(cfg: Routing.Config) {
    forall i :: 0 <= i < |BaseDirs(cfg)| && Managed(BaseDirs(cfg)[i]) ==> |BaseDirs(cfg)[i]| < 3
  }

  /** What an administrator sets up: URLs that end in a name, exist, are pairwise
      non-nested, and lie outside the managed prefixes and not above a space prefix. */
  ghost predicate Initial(cfg: Routing.Config, s: State) {
    && WellFormed(s.tree) && BasesOutsideSlots(cfg)
    && (forall id :: id in s.table ==>
          Ordinary(BaseOf(s.table[id].url)) &&
          s.table[id].Place() in s.tree && !Managed(s.table[id].Place()) && !AboveBase(cfg, s.table[id].Place()))
    && (forall i, j :: i in s.table && j in s.table && i != j ==> !Nested(s.table[i].Place(), s.table[j].Place()))
  }

  /** A URL inside the managed prefixes is the place kept for its own ID. */
  predicate InOwnSlot(id: nat, url: Path) {
    |url| == 3 && url[1] == FormatUint(id)
  }

  /** The agreement of table and tree that every step keeps. */
  ghost predicate Agreement(cfg: Routing.Config, s: State) {
    && WellFormed(s.tree) && BasesOutsideSlots(cfg)
    && (forall id :: id in s.table ==> Placed(cfg, s.tree, id, s.table[id]))
    && (forall i, j :: i in s.table && j in s.table && i != j ==> !Nested(s.table[i].Place(), s.table[j].Place()))
  }

  ghost predicate Placed(cfg: Routing.Config, t: Tree, id: nat, dataset: Dataset) {
    && Ordinary(BaseOf(dataset.url))
    && dataset.Place() in t
    && !AboveBase(cfg, dataset.Place())
    && (Managed(dataset.Place()) ==> InOwnSlot(id, dataset.Place()))
  }

  /** Relocating dataset `id` to `dst` reaches into no other dataset's tree and makes
      no directory inside its own. */
  ghost predicate ClearFor(s: State, id: nat, dst: string)
    requires id in s.table
  {
    && (forall j :: j in s.table && j != id ==> !(s.table[j].Place() <= Resolve(dst)))
    && !(s.table[id].Place() <= Home(dst) && MakesHome(s.tree, dst))
  }

  ghost predicate ClearOfDatasets(s: State, p: Path) {
    forall id :: id in s.table ==> !(s.table[id].Place() <= p)
  }

  /** The steps a run may take: the database update of a move that went through
      succeeds; restore destinations lie outside the managed prefixes and the other
      datasets' trees, not above a space prefix, and make no directory in the
      dataset's own tree; space names are single; and users move nothing out of, over
      or into a dataset's tree. */
  ghost predicate Allowed(cfg: Routing.Config, s: State, step: Step) {
    match step
    case MoveDataset(id, updateOk) => updateOk
    case Restore(id, dst, updateOk) =>
      && updateOk
      && (id in s.table ==>
            var target := RestoreTarget(s.tree, s.table[id].url, dst);
            !Managed(Resolve(target)) && !AboveBase(cfg, Resolve(target)) && ClearFor(s, id, target))
    case Check(users, accounts) => SpacesInPrefixes(cfg, users, accounts)
    case UserMove(src, dst) =>
      && ClearOfDatasets(s, Resolve(dst))
      && forall id :: id in s.table ==> !Nested(s.table[id].Place(), Resolve(src))
  }

  ghost predicate AllowedRun(cfg: Routing.Config, s: State, steps: seq<Step>)
    decreases |steps|
  {
    steps == [] || (Allowed(cfg, s, steps[0]) && AllowedRun(cfg, Next(cfg, s, steps[0]), steps[1..]))
  }

  /** Every dataset is still there and holds exactly what it held. */
  ghost predicate ContentKept(s: State, s': State) {
    && s'.table.Keys == s.table.Keys
    && forall id :: id in s.table ==>
         && s'.table[id].kind == s.table[id].kind
         && s'.table[id].Place() in s'.tree
         && Subtree(s'.tree, s'.table[id].Place()) == Subtree(s.tree, s.table[id].Place())
  }

  /** A move without success shows only in a tree that it makes a directory in. */
  lemma FailedMoveShowsNowhere(s: State, src: string, dst: string, u: Path)
    requires WellFormed(s.tree) && u in s.tree && !CanMove(s.tree, src, dst)
    requires !(u <= Home(dst) && MakesHome(s.tree, dst))
    ensures u in TreeAfterMove(s.tree, src, dst)
    ensures Subtree(TreeAfterMove(s.tree, src, dst), u) == Subtree(s.tree, u)
  {
    SubtreeWithHome(s.tree, dst, u);
  }

  lemma MakesNothingIn(t: Tree, dst: string, u: Path)
    requires WellFormed(t) && !(u <= Resolve(dst))
    ensures !(u <= Home(dst) && MakesHome(t, dst))
  {
    hide Resolve, DirOf;
    if MakesHome(t, dst) { HomeIsOnTheWay(t, dst); }
  }

  /** A move with success carries its source and shows in no tree apart from it. */
  lemma MoveShowsOnlyAtEnds(t: Tree, src: string, dst: string, u: Path)
    requires WellFormed(t) && u in t && CanMove(t, src, dst)
    requires !Nested(u, Resolve(src)) && !(u <= Resolve(dst))
    ensures u in TreeAfterMove(t, src, dst)
    ensures Subtree(TreeAfterMove(t, src, dst), u) == Subtree(t, u)
  {
    hide Resolve, DirOf;
    NothingBelowMissing(t, Resolve(dst));
    MakesNothingIn(t, dst, u);
    SubtreeWithHome(t, dst, u);
    UnrelatedSubtree(WithHome(t, dst), Resolve(src), Resolve(dst), u);
    assert !(Resolve(dst) <= u);
  }

  /** Relocating dataset `id` to a place clear of every other dataset. */
  lemma RelocationKeepsContent(cfg: Routing.Config, s: State, id: nat, dest: string)
    requires Agreement(cfg, s) && id in s.table
    requires Resolve(dest) in s.tree || ClearFor(s, id, dest)
    ensures WellFormed(Relocated(s, id, dest, true).tree)
    ensures ContentKept(s, Relocated(s, id, dest, true))
  {
    hide Resolve, DirOf, TreeAfterMove, CanMove, Subtree;
    var url, s' := s.table[id].url, Relocated(s, id, dest, true);
    MoveKeepsWellFormed(s.tree, url, dest);
    forall j | j in s.table
      ensures s'.table[j].Place() in s'.tree
      ensures Subtree(s'.tree, s'.table[j].Place()) == Subtree(s.tree, s.table[j].Place())
    {
      OneStays(cfg, s, id, dest, j);
    }
  }

  lemma OneStays(cfg: Routing.Config, s: State, id: nat, dest: string, j: nat)
    requires Agreement(cfg, s) && id in s.table && j in s.table
    requires Resolve(dest) in s.tree || ClearFor(s, id, dest)
    ensures var s' := Relocated(s, id, dest, true);
      && s'.table[j].Place() in s'.tree
      && Subtree(s'.tree, s'.table[j].Place()) == Subtree(s.tree, s.table[j].Place())
  {
    hide Resolve, DirOf, TreeAfterMove, Subtree;
    var url, u := s.table[id].url, s.table[j].Place();
    assert Placed(cfg, s.tree, j, s.table[j]);
    if !CanMove(s.tree, url, dest) {
      if Resolve(dest) !in s.tree && !(u <= Resolve(dest)) { MakesNothingIn(s.tree, dest, u); }
      FailedMoveShowsNowhere(s, url, dest, u);
    } else if j != id {
      MoveShowsOnlyAtEnds(s.tree, url, dest, u);
    } else {
      MovedSubtree(s.tree, url, dest);
    }
  }

  lemma MovedSubtree(t: Tree, src: string, dst: string)
    requires WellFormed(t) && CanMove(t, src, dst)
    ensures Resolve(dst) in TreeAfterMove(t, src, dst)
    ensures Subtree(TreeAfterMove(t, src, dst), Resolve(dst)) == Subtree(t, Resolve(src))
  {
    hide Resolve, DirOf, TreeAfterMove;
    MoveConserves(t, src, dst);
    var p, q := Resolve(src), Resolve(dst);
    assert q + [] == q && p + [] == p;
    assert [] in Subtree(t, p);
    assert [] in Subtree(TreeAfterMove(t, src, dst), q);
  }

  lemma RelocationKeepsAgreement(cfg: Routing.Config, s: State, id: nat, dest: string)
    requires Agreement(cfg, s) && id in s.table
    requires Resolve(dest) in s.tree || ClearFor(s, id, dest)
    requires !AboveBase(cfg, Resolve(dest)) && (Managed(Resolve(dest)) ==> InOwnSlot(id, Resolve(dest)))
    ensures Agreement(cfg, Relocated(s, id, dest, true))
    ensures ContentKept(s, Relocated(s, id, dest, true))
  {
    hide Resolve, DirOf, BaseOf, TreeAfterMove, Subtree, AboveBase, Managed, InOwnSlot;
    var s' := Relocated(s, id, dest, true);
    RelocationKeepsContent(cfg, s, id, dest);
    var moved := CanMove(s.tree, s.table[id].url, dest);
    if moved { LastPartIsBase(dest); }
    forall j | j in s'.table ensures Placed(cfg, s'.tree, j, s'.table[j]) {
      assert Placed(cfg, s.tree, j, s.table[j]);
    }
    if moved {
      forall j | j in s.table && j != id ensures !Nested(s.table[j].Place(), Resolve(dest)) {
        assert Placed(cfg, s.tree, j, s.table[j]);
        NotAboveExisting(s.tree, s.table[j].Place(), Resolve(dest));
      }
    }
    UrlsStayApart(s.table, s'.table, id, dest);
  }

  lemma NotAboveExisting(t: Tree, u: Path, p: Path)
    requires WellFormed(t) && u in t && p !in t
    ensures !(p <= u)
  {
    NothingBelowMissing(t, p);
  }

  lemma UrlsStayApart(table: Table, table': Table, id: nat, dest: string)
    requires id in table && (table' == table || table' == table[id := table[id].(url := dest)])
    requires forall i, j :: i in table && j in table && i != j ==> !Nested(table[i].Place(), table[j].Place())
    requires table' != table ==> forall j :: j in table && j != id ==> !Nested(table[j].Place(), Resolve(dest))
    ensures forall i, j :: i in table' && j in table' && i != j ==> !Nested(table'[i].Place(), table'[j].Place())
  {
    hide Resolve;
  }

  /** No dataset but the one moved stands on the way to a managed slot. */
  lemma SlotIsClear(cfg: Routing.Config, s: State, id: nat)
    requires Agreement(cfg, s) && id in s.table
    ensures var dest := ManagedUrl(id, s.table[id]);
      && (Resolve(dest) in s.tree || ClearFor(s, id, dest))
      && !AboveBase(cfg, Resolve(dest)) && InOwnSlot(id, Resolve(dest))
  {
    hide ManagedUrl, BaseOf, DirOf, Resolve;
    var dest := ManagedUrl(id, s.table[id]);
    var q := Resolve(dest);
    assert Placed(cfg, s.tree, id, s.table[id]);
    ManagedPlace(id, s.table[id]);
    RootIsAboveBase(cfg);
    assert [q[0]] <= q;
    forall j | j in s.table && s.table[j].Place() <= q ensures q in s.tree {
      assert Placed(cfg, s.tree, j, s.table[j]);
      PrefixOfSlot(cfg, s.table[j].Place(), q);
    }
    assert Home(dest) <= q;
  }

  lemma RootIsAboveBase(cfg: Routing.Config)
    ensures AboveBase(cfg, [])
  {
    assert [] <= BaseDirs(cfg)[0];
  }

  lemma PrefixOfSlot(cfg: Routing.Config, u: Path, dest: Path)
    requires !AboveBase(cfg, u) && u <= dest && |dest| == 3
    requires dest[0] == MODEL_PREFIX || dest[0] == DATASET_PREFIX
    requires Managed(u) ==> |u| == 3
    ensures u == dest
  {
    RootIsAboveBase(cfg);
    assert u[0] == dest[0];
    assert [u[0]] <= u;
  }

  lemma CheckKeepsAgreement(cfg: Routing.Config, s: State, users: Option<seq<string>>, accounts: Option<seq<string>>)
    requires Agreement(cfg, s) && SpacesInPrefixes(cfg, users, accounts)
    ensures var s' := s.(tree := EnsureDirs(s.tree, Provisioned(cfg, users, accounts)));
      Agreement(cfg, s') && ContentKept(s, s')
  {
    var dirs := Provisioned(cfg, users, accounts);
    EnsureDirsOnlyAdds(s.tree, dirs);
    forall j | j in s.table
      ensures Placed(cfg, EnsureDirs(s.tree, dirs), j, s.table[j])
      ensures Subtree(EnsureDirs(s.tree, dirs), s.table[j].Place()) == Subtree(s.tree, s.table[j].Place())
    {
      var u := s.table[j].Place();
      assert Placed(cfg, s.tree, j, s.table[j]);
      forall p | p in dirs && u <= p ensures p == u {
        ProvisionedReachesNoDataset(cfg, users, accounts, u, p);
      }
      PassShowsNotIn(s.tree, dirs, u);
    }
  }

  lemma PassShowsNotIn(t: Tree, dirs: seq<Path>, u: Path)
    requires WellFormed(t) && u in t
    requires forall p :: p in dirs && u <= p ==> p == u
    ensures u in EnsureDirs(t, dirs) && Subtree(EnsureDirs(t, dirs), u) == Subtree(t, u)
  {
    EnsureDirsOnlyAdds(t, dirs);
    forall rel: Path ensures u + rel in EnsureDirs(t, dirs) <==> u + rel in t {
      assert u <= u + rel;
    }
  }

  /** A directory of a provisioning list lies strictly below nothing but a base. */
  lemma ProvisionedReachesNoDataset(cfg: Routing.Config, users: Option<seq<string>>, accounts: Option<seq<string>>,
                                    u: Path, p: Path)
    requires SpacesInPrefixes(cfg, users, accounts) && p in Provisioned(cfg, users, accounts)
    requires u <= p
    ensures u == p || AboveBase(cfg, u)
  {
    if p in BaseDirs(cfg) {
      var i :| 0 <= i < |BaseDirs(cfg)| && BaseDirs(cfg)[i] == p;
      assert u <= BaseDirs(cfg)[i];
    } else {
      var b := SpaceDirShape(cfg, users, accounts, p);
      if u != p { assert u <= Parent(p); }
      assert u <= BaseDirs(cfg)[b] ==> AboveBase(cfg, u);
    }
  }

  lemma UserMoveKeepsAgreement(cfg: Routing.Config, s: State, src: string, dst: string)
    requires Agreement(cfg, s) && Allowed(cfg, s, UserMove(src, dst))
    ensures var s' := s.(tree := TreeAfterMove(s.tree, src, dst));
      Agreement(cfg, s') && ContentKept(s, s')
  {
    var t' := TreeAfterMove(s.tree, src, dst);
    MoveKeepsWellFormed(s.tree, src, dst);
    forall j | j in s.table
      ensures Placed(cfg, t', j, s.table[j])
      ensures Subtree(t', s.table[j].Place()) == Subtree(s.tree, s.table[j].Place())
    {
      var u := s.table[j].Place();
      assert Placed(cfg, s.tree, j, s.table[j]);
      if CanMove(s.tree, src, dst) {
        MoveShowsOnlyAtEnds(s.tree, src, dst, u);
      } else {
        MakesNothingIn(s.tree, dst, u);
        FailedMoveShowsNowhere(s, src, dst, u);
      }
    }
  }

  /** What every step keeps. */
  lemma StepKeepsAgreement(cfg: Routing.Config, s: State, step: Step)
    requires Agreement(cfg, s) && Allowed(cfg, s, step)
    ensures Agreement(cfg, Next(cfg, s, step)) && ContentKept(s, Next(cfg, s, step))
  {
    forall id | id in s.table ensures s.table[id].Place() in s.tree {
      assert Placed(cfg, s.tree, id, s.table[id]);
    }
    match step
    case MoveDataset(id, _) =>
      if Next(cfg, s, step) != s {
        SlotIsClear(cfg, s, id);
        RelocationKeepsAgreement(cfg, s, id, ManagedUrl(id, s.table[id]));
      }
    case Restore(id, dst, _) =>
      if Next(cfg, s, step) != s {
        RelocationKeepsAgreement(cfg, s, id, RestoreTarget(s.tree, s.table[id].url, dst));
      }
    case Check(users, accounts) => CheckKeepsAgreement(cfg, s, users, accounts);
    case UserMove(src, dst) => UserMoveKeepsAgreement(cfg, s, src, dst);
  }

  lemma {:induction false} AgreementOverRuns(cfg: Routing.Config, s: State, steps: seq<Step>)
    requires Agreement(cfg, s) && AllowedRun(cfg, s, steps)
    ensures Agreement(cfg, Run(cfg, s, steps)) && ContentKept(s, Run(cfg, s, steps))
    decreases |steps|
  {
    if steps == [] {
      forall id | id in s.table ensures s.table[id].Place() in s.tree {
        assert Placed(cfg, s.tree, id, s.table[id]);
      }
    } else {
      var s1 := Next(cfg, s, steps[0]);
      StepKeepsAgreement(cfg, s, steps[0]);
      AgreementOverRuns(cfg, s1, steps[1..]);
    }
  }

  /** Main result: from any initial state, after every allowed run each dataset's
      URL names an existing node whose subtree is the original one. */
  lemma DatasetsSurviveRuns(cfg: Routing.Config, s: State, steps: seq<Step>)
    requires Initial(cfg, s) && AllowedRun(cfg, s, steps)
    ensures ContentKept(s, Run(cfg, s, steps))
    ensures Agreement(cfg, Run(cfg, s, steps))
  {
    AgreementOverRuns(cfg, s, steps);
  }

  /** The update of the table is needed: after a relocation that went through in the
      tree, the dataset's URL names a node exactly when the update succeeded. */
  lemma UpdateDecidesAgreement(s: State, id: nat, dest: string, updateOk: bool)
    requires WellFormed(s.tree) && id in s.table && CanMove(s.tree, s.table[id].url, dest)
    ensures var s' := Relocated(s, id, dest, updateOk);
      s'.table[id].Place() in s'.tree <==> updateOk
  {
    hide Resolve, DirOf;
    MovedSubtree(s.tree, s.table[id].url, dest);
    MoveConserves(s.tree, s.table[id].url, dest);
  }

  /** One such move: the dataset at /d, moved with a failing update, is lost. */
  lemma FailedUpdateExample() returns (s: State)
    ensures WellFormed(s.tree) && 7 in s.table && s.table[7].Place() in s.tree
    ensures s.table[7].Place() !in AfterMoveDataset(s, 7, false).tree
    ensures AfterMoveDataset(s, 7, false).table == s.table
  {
    hide Resolve, DirOf, ManagedUrl, BaseOf;
    var root, d, prefix: Path := [], ["d"], [DATASET_PREFIX];
    s := State(map[root := Dir, d := Dir, prefix := Dir], map[7 := Dataset("d", DatasetKind)]);
    assert Parent(d) == [] && Parent(prefix) == [];
    NamePlace("d");
    LastPartIsBase("d");
    ManagedPlace(7, s.table[7]);
    HomeOfManaged(s.tree, 7, s.table[7]);
    UpdateDecidesAgreement(s, 7, ManagedUrl(7, s.table[7]), false);
  }

  /** The guard against a dataset's own tree is needed, and exact: a restore leaves
      the dataset's content as it was unless it makes a directory inside it. */
  lemma RestoreIntoOwnTree(s: State, id: nat, dst: string)
    requires WellFormed(s.tree) && id != 0 && dst != "" && id in s.table && s.table[id].Place() in s.tree
    ensures var place := s.table[id].Place();
      var s' := AfterRestore(s, id, dst, true);
      var target := RestoreTarget(s.tree, s.table[id].url, dst);
      var kept := Subtree(s'.tree, s'.table[id].Place()) == Subtree(s.tree, place);
      kept <==> !(place <= Home(target) && MakesHome(s.tree, target))
  {
    var url, place := s.table[id].url, s.table[id].Place();
    var target := RestoreTarget(s.tree, url, dst);
    hide Resolve, DirOf, RestoreTarget;
    var made := Home(target);
    if CanMove(s.tree, url, target) {
      MovedSubtree(s.tree, url, target);
      HomeIsParent(target);
      BelowParent(place, Resolve(target));
    } else if place <= made && MakesHome(s.tree, target) {
      var rel := made[|place|..];
      assert place + rel == made;
      assert rel in Subtree(WithHome(s.tree, target), place) && rel !in Subtree(s.tree, place);
    } else {
      SubtreeWithHome(s.tree, target, place);
    }
  }

  /** One such restore: the dataset at /d, restored to /d/x/y, gains /d/x. */
  lemma RestoreIntoOwnTreeExample() returns (s: State, dst: string)
    ensures WellFormed(s.tree) && 7 in s.table && s.table[7].Place() in s.tree
    ensures var s' := AfterRestore(s, 7, dst, true);
      Subtree(s'.tree, s'.table[7].Place()) != Subtree(s.tree, s.table[7].Place())
  {
    hide Resolve, DirOf, LastPart, AfterRestore, MakesHome, RestoreTarget, Subtree;
    var root, d, x: Path := [], ["d"], ["d", "x"];
    dst := "d/x" + "/" + "y";
    s := State(map[root := Dir, d := Dir], map[7 := Dataset("d", DatasetKind)]);
    NamePlace("d");
    assert "d" + "/" + "x" == "d/x" && d + ["x"] == x && x + ["y"] == ["d", "x", "y"];
    NameBelow("d", "x");
    NameBelow("d/x", "y");
    ExampleTree(s.tree, root, d, x);
    RestoreExampleTarget(s, dst);
    PlaceOfUrl(s.table[7]);
    RestoreIntoOwnTree(s, 7, dst);
  }

  lemma ExampleTree(t: Tree, root: Path, d: Path, x: Path)
    requires root == [] && d == ["d"] && x == ["d", "x"] && t == map[root := Dir, d := Dir]
    ensures WellFormed(t) && Parent(x) == d && IsDir(t, d) && x !in t && ["d", "x", "y"] !in t
  {
    assert Parent(d) == root;
  }

  lemma PlaceOfUrl(dataset: Dataset)
    ensures dataset.Place() == Resolve(dataset.url)
  {}

  lemma RestoreExampleTarget(s: State, dst: string)
    requires Resolve(dst) !in s.tree && Home(dst) !in s.tree && IsDir(s.tree, Parent(Home(dst)))
    ensures MakesHome(s.tree, dst) && forall url :: RestoreTarget(s.tree, url, dst) == dst
  {}
}
