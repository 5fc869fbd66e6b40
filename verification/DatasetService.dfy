/** The operations of the storage service that change its directory tree and the
    table of dataset URLs. Each method is proved against a closed form of what it
    does; the closed forms are what the lemmas here and in DatasetRuns reason about. */
module DatasetService {
  import opened Options
  import opened PathNames
  import opened FileTree
  import Routing = SpaceRouting

  const MODEL_PREFIX := "crater-model"
  const DATASET_PREFIX := "crater-dataset"

  datatype Kind = ModelKind | DatasetKind | OtherKind

  datatype Dataset = Dataset(url: string, kind: Kind) {
    /** Where the URL leads in the tree. */
    function Place(): Path { Resolve(url) }
  }

  type Table = map<nat, Dataset>

  datatype State = State(tree: Tree, table: Table)

  datatype Response =
    | Success
    | BadRequest
    | Unauthorized
    | DatasetMissing
    | WrongType
    | RouteFailed(route: Routing.RouteError)
    | MoveFailed(error: FsError)
    | UpdateFailed

  /** strconv.FormatUint in base 10 */
  function FormatUint(n: nat): (digits: string)
    ensures digits != ""
  {
    var last := [(n % 10) as char + '0'];
    if n < 10 then last else FormatUint(n / 10) + last
  }

  /** The number that a string of decimal digits stands for. */
  function DecimalValue(digits: string): int {
    if digits == "" then 0
    else 10 * DecimalValue(digits[..|digits| - 1]) + (digits[|digits| - 1] as int - '0' as int)
  }

  /** The printed digits stand for the number, with no zero in front of it. */
  lemma {:induction false} FormatUintIsDecimal(n: nat)
    ensures DecimalValue(FormatUint(n)) == n
    ensures forall c :: c in FormatUint(n) ==> '0' <= c <= '9'
    ensures n > 0 ==> FormatUint(n)[0] != '0'
    ensures n == 0 ==> FormatUint(n) == "0"
  {
    var digits := FormatUint(n);
    if n >= 10 {
      FormatUintIsDecimal(n / 10);
      assert digits[..|digits| - 1] == FormatUint(n / 10);
    } else {
      assert digits[..0] == "";
    }
  }

  lemma FormatUintInjective(m: nat, n: nat)
    requires FormatUint(m) == FormatUint(n)
    ensures m == n
  {
    FormatUintIsDecimal(m);
    FormatUintIsDecimal(n);
  }

  // moveFiles

  /** moveFiles has to make the directory of `dst` and can, by one single-level Mkdir. */
  predicate MakesHome(t: Tree, dst: string) {
    Resolve(dst) !in t && Home(dst) !in t && IsDir(t, Parent(Home(dst)))
  }

  function WithHome(t: Tree, dst: string): Tree {
    if MakesHome(t, dst) then t[Home(dst) := Dir] else t
  }

  /** When moveFiles succeeds. A destination that does not end in an ordinary name,
      such as one with a trailing slash, is never moved to: its filepath.Dir is not
      its parent. */
  predicate CanMove(t: Tree, src: string, dst: string) {
    var p, q := Resolve(src), Resolve(dst);
    && p in t && p != []
    && q !in t && !(p <= q) && Ordinary(LastPart(dst))
    && (IsDir(t, Home(dst)) || MakesHome(t, dst))
  }

  function TreeAfterMove(t: Tree, src: string, dst: string): Tree {
    var w := WithHome(t, dst);
    if CanMove(t, src, dst) then Relocate(w, Resolve(src), Resolve(dst)) else w
  }

  lemma WithHomeKeepsWellFormed(t: Tree, dst: string)
    requires WellFormed(t)
    ensures WellFormed(WithHome(t, dst))
    ensures MakesHome(t, dst) ==> Mkdir(t, Home(dst)) == Done(WithHome(t, dst))
  {
    if MakesHome(t, dst) {
      MkdirKeepsWellFormed(t, Home(dst));
    }
  }

  /** A directory that is made is the destination or its parent. */
  lemma HomeIsOnTheWay(t: Tree, dst: string)
    requires WellFormed(t) && MakesHome(t, dst)
    ensures Home(dst) <= Resolve(dst)
    ensures Home(dst) == Resolve(dst) || Home(dst) == Parent(Resolve(dst))
  {
    HomeIsParent(dst);
  }

  lemma NothingBelowMissing(t: Tree, p: Path)
    requires WellFormed(t) && p !in t
    ensures forall q :: q in t ==> !(p <= q)
  {
    forall q | q in t && p <= q ensures false {
      PrefixExists(t, q, p);
    }
  }

  lemma NothingBelowTarget(t: Tree, dst: string)
    requires WellFormed(t) && Resolve(dst) !in t && Ordinary(LastPart(dst))
    ensures forall q :: q in WithHome(t, dst) ==> !(Resolve(dst) <= q)
  {
    HomeIsParent(dst);
    NothingBelowMissing(t, Resolve(dst));
  }

  lemma MoveKeepsWellFormed(t: Tree, src: string, dst: string)
    requires WellFormed(t)
    ensures WellFormed(TreeAfterMove(t, src, dst))
  {
    WithHomeKeepsWellFormed(t, dst);
    if CanMove(t, src, dst) {
      HomeIsParent(dst);
      RelocateKeepsWellFormed(WithHome(t, dst), Resolve(src), Resolve(dst));
    }
  }

  lemma UnderFile(t: Tree, p: Path)
    requires WellFormed(t) && BlockedByFile(t, p)
    ensures p !in t && !IsDir(t, Parent(p))
    ensures Parent(p) !in t ==> !IsDir(t, Parent(Parent(p)))
  {
    var k :| 0 <= k < |p| && p[..k] in t && t[p[..k]].File?;
    if p in t { PrefixExists(t, p, p[..k]); }
    if k + 1 == |p| {
      assert Parent(p) == p[..k];
    } else {
      assert p[..k] <= Parent(p) && p[..k] <= Parent(Parent(p));
      if IsDir(t, Parent(p)) { PrefixExists(t, Parent(p), p[..k]); }
      if IsDir(t, Parent(Parent(p))) { PrefixExists(t, Parent(Parent(p)), p[..k]); }
    }
  }

  lemma BlockedMakesNothing(t: Tree, src: string, dst: string)
    requires WellFormed(t) && (BlockedByFile(t, Resolve(dst)) || BlockedByFile(t, Home(dst)))
    ensures !MakesHome(t, dst) && !CanMove(t, src, dst)
  {
    HomeIsParent(dst);
    if BlockedByFile(t, Resolve(dst)) { UnderFile(t, Resolve(dst)); }
    if BlockedByFile(t, Home(dst)) { UnderFile(t, Home(dst)); }
  }

  /** Without overwrite no move loses a file: on success exactly the subtree at the
      source has become the subtree at the destination, and nothing is left of it at
      the source; on failure nothing but at most one new empty directory has changed;
      and on every exit each content is held by as many files as before. */
  lemma MoveConserves(t: Tree, src: string, dst: string)
    requires WellFormed(t)
    ensures var t', p, q := TreeAfterMove(t, src, dst), Resolve(src), Resolve(dst);
      && (forall content :: |FilesWith(t', content)| == |FilesWith(t, content)|)
      && (CanMove(t, src, dst) ==>
            && Subtree(t', q) == Subtree(t, p)
            && (forall x :: x in t' ==> !(p <= x))
            && (forall x :: x in t && !(p <= x) ==> x in t' && t'[x] == t[x])
            && (forall x :: x in t' && !(q <= x) && x !in t ==> x == Parent(q) && t'[x] == Dir))
      && (!CanMove(t, src, dst) ==>
            || t' == t
            || (Home(dst) !in t && t' == t[Home(dst) := Dir] && IsEmptyDir(t', Home(dst))))
  {
    hide *;
    forall content ensures |FilesWith(TreeAfterMove(t, src, dst), content)| == |FilesWith(t, content)| {
      MoveConservesFiles(t, src, dst, content);
    }
    if CanMove(t, src, dst) { MoveRelocates(t, src, dst); } else { FailedMoveAddsOneDir(t, src, dst); }
  }

  lemma MoveRelocates(t: Tree, src: string, dst: string)
    requires WellFormed(t) && CanMove(t, src, dst)
    ensures var t', p, q := TreeAfterMove(t, src, dst), Resolve(src), Resolve(dst);
      && Subtree(t', q) == Subtree(t, p)
      && (forall x :: x in t' ==> !(p <= x))
      && (forall x :: x in t && !(p <= x) ==> x in t' && t'[x] == t[x])
      && (forall x :: x in t' && !(q <= x) && x !in t ==> x == Parent(q) && t'[x] == Dir)
  {
    hide Subtree, Resolve, DirOf;
    var w, p, q := WithHome(t, dst), Resolve(src), Resolve(dst);
    HomeIsParent(dst);
    assert TreeAfterMove(t, src, dst) == Relocate(w, p, q);
    NothingBelowTarget(t, dst);
    RelocatedSubtree(w, p, q);
    BelowParent(p, q);
    SubtreeWithHome(t, dst, p);
    forall x | x in t && !(p <= x) ensures x in Relocate(w, p, q) && Relocate(w, p, q)[x] == t[x] {
      assert x in w && w[x] == t[x] && !(q <= x);
    }
    forall x | x in Relocate(w, p, q) ensures !(p <= x) {
      if q <= x && p <= x { PrefixesAreNested(p, q, x); }
    }
  }

  lemma PrefixesAreNested(p: Path, q: Path, x: Path)
    requires p <= x && q <= x
    ensures Nested(p, q)
  {}

  lemma FailedMoveAddsOneDir(t: Tree, src: string, dst: string)
    requires WellFormed(t) && !CanMove(t, src, dst)
    ensures var t' := TreeAfterMove(t, src, dst);
      t' == t || (Home(dst) !in t && t' == t[Home(dst) := Dir] && IsEmptyDir(t', Home(dst)))
  {
    if MakesHome(t, dst) { NothingBelowMissing(t, Home(dst)); }
  }

  lemma MoveConservesFiles(t: Tree, src: string, dst: string, content: string)
    requires WellFormed(t)
    ensures |FilesWith(TreeAfterMove(t, src, dst), content)| == |FilesWith(t, content)|
  {
    var w := WithHome(t, dst);
    assert FilesWith(w, content) == FilesWith(t, content);
    if CanMove(t, src, dst) {
      NothingBelowTarget(t, dst);
      RelocateConservesFiles(w, Resolve(src), Resolve(dst), content);
    }
  }

  /** Making the directory of `dst` shows only in trees that reach down to it. */
  lemma SubtreeWithHome(t: Tree, dst: string, u: Path)
    requires !(u <= Home(dst)) || !MakesHome(t, dst)
    ensures Subtree(WithHome(t, dst), u) == Subtree(t, u)
  {
    hide Home;
    var w := WithHome(t, dst);
    forall rel: Path ensures u + rel in w <==> u + rel in t
                     ensures u + rel in w ==> w[u + rel] == Subtree(t, u)[rel]
    {
      assert u <= u + rel;
    }
  }

  /** A destination that does not end in a name, as one with a trailing slash, keeps a
      move from succeeding: where filepath.Dir is the destination itself, moveFiles
      makes it and is then refused; otherwise nothing changes. */
  lemma OnlyNamesAreMovedTo(t: Tree, src: string, dst: string)
    requires WellFormed(t) && !Ordinary(LastPart(dst))
    ensures var q := Resolve(dst);
      && !CanMove(t, src, dst)
      && TreeAfterMove(t, src, dst)
           == if Home(dst) == q && q !in t && IsDir(t, Parent(q)) then t[q := Dir] else t
  {
    hide Resolve, DirOf;
    HomeIsParent(dst);
  }

  /** What a move that fails leaves behind for a destination that ends in a name: its
      directory, if that was missing, its own parent was there, and the destination was
      not taken. */
  lemma FailedMoveLeaves(t: Tree, src: string, dst: string)
    requires WellFormed(t) && Ordinary(LastPart(dst)) && !CanMove(t, src, dst)
    ensures var q := Resolve(dst);
      TreeAfterMove(t, src, dst) ==
        if q !in t && Parent(q) !in t && IsDir(t, Parent(Parent(q))) then t[Parent(q) := Dir] else t
  {
    hide Resolve, DirOf;
    HomeIsParent(dst);
  }

  /** Moving "a" to "b/" fails and leaves an empty directory "b"; to "b" it succeeds. */
  lemma TrailingSlashExample() returns (t: Tree, src: string, dst: string)
    ensures WellFormed(t) && !CanMove(t, src, dst + "/") && CanMove(t, src, dst)
    ensures TreeAfterMove(t, src, dst + "/") == t[Resolve(dst) := Dir] != t
  {
    hide Resolve, DirOf;
    var root, a: Path := [], ["a"];
    t, src, dst := map[root := Dir, a := Dir], "a", "b";
    assert Parent(a) == [] && Parent(["b"]) == [];
    NamePlace("a");
    NamePlace("b");
    OnlyNamesAreMovedTo(t, src, dst + "/");
  }

  lemma NamePlace(name: string)
    requires Ordinary(name)
    ensures Resolve(name) == [name] && Home(name) == [] && LastPart(name) == name
    ensures Resolve(name + "/") == Home(name + "/") == [name] && LastPart(name + "/") == ""
  {
    SplitOfName(name);
    SplitOfName("");
    SplitAtSlash(name, "");
    assert name + "/" + "" == name + "/" && Split(name + "/") == [name] + [""];
    HomeByParts(name);
    HomeByParts(name + "/");
    assert FrontParts(name + "/") == [name] && FrontParts(name) == [];
  }

  // MoveDatasetOrModel and RestoreDatasetOrModel

  function ManagedPrefix(kind: Kind): string {
    if kind.ModelKind? then MODEL_PREFIX else DATASET_PREFIX
  }

  function ManagedUrl(id: nat, dataset: Dataset): string {
    JoinNames(ManagedPrefix(dataset.kind) + "/" + FormatUint(id), BaseOf(dataset.url))
  }

  /** Relocating one dataset: the tree moves, and the table follows if its update
      succeeds. */
  function Relocated(s: State, id: nat, dest: string, updateOk: bool): State
    requires id in s.table
  {
    var dataset := s.table[id];
    var moved := CanMove(s.tree, dataset.url, dest);
    State(TreeAfterMove(s.tree, dataset.url, dest),
          if moved && updateOk then s.table[id := dataset.(url := dest)] else s.table)
  }

  function AfterMoveDataset(s: State, id: nat, updateOk: bool): State {
    if id == 0 || id !in s.table || s.table[id].kind.OtherKind? then s
    else Relocated(s, id, ManagedUrl(id, s.table[id]), updateOk)
  }

  /** An existing directory as destination means a place inside it. */
  function RestoreTarget(t: Tree, url: string, dst: string): string {
    if IsDir(t, Resolve(dst)) then JoinNames(dst, BaseOf(url)) else dst
  }

  function AfterRestore(s: State, id: nat, dst: string, updateOk: bool): State {
    if id == 0 || dst == "" || id !in s.table then s
    else Relocated(s, id, RestoreTarget(s.tree, s.table[id].url, dst), updateOk)
  }

  lemma DigitsAreOrdinary(n: nat)
    ensures Ordinary(FormatUint(n))
  {
    FormatUintIsDecimal(n);
    var d := FormatUint(n);
    assert d[0] in d;
  }

  /** The managed place of a dataset whose URL ends in a name. */
  lemma ManagedPlace(id: nat, dataset: Dataset)
    requires Ordinary(BaseOf(dataset.url))
    ensures var dest, base := ManagedUrl(id, dataset), BaseOf(dataset.url);
      && Resolve(dest) == [ManagedPrefix(dataset.kind), FormatUint(id), base]
      && Home(dest) == [ManagedPrefix(dataset.kind), FormatUint(id)]
      && LastPart(dest) == base && BaseOf(dest) == base
  {
    var prefix, digits := ManagedPrefix(dataset.kind), FormatUint(id);
    hide JoinNames, BaseOf, Resolve, DirOf;
    DigitsAreOrdinary(id);
    PlaceOfTwo(prefix, digits);
    JoinOrdinary(prefix + "/" + digits, BaseOf(dataset.url));
  }

  /** A model moves below "crater-model" and a dataset below "crater-dataset", to the
      directory of its ID and under its own name: exactly if it is there, that place is
      free and not inside it, and the ID's directory is there or can be made. Then it is
      all there, and the table changes in its URL only, if the update succeeds. */
  lemma MovedByKind(s: State, id: nat, updateOk: bool)
    requires WellFormed(s.tree) && id in s.table && Ordinary(BaseOf(s.table[id].url))
    ensures var dataset, s' := s.table[id], AfterMoveDataset(s, id, updateOk);
      var p, prefix := Resolve(dataset.url), if dataset.kind == ModelKind then "crater-model" else "crater-dataset";
      var place := [prefix, FormatUint(id), BaseOf(dataset.url)];
      var moved := p in s.tree && p !in s'.tree;
      && (moved <==>
            && id > 0 && (dataset.kind == ModelKind || dataset.kind == DatasetKind)
            && p in s.tree && place !in s.tree && !(p <= place)
            && (IsDir(s.tree, place[..2]) || (place[..2] !in s.tree && IsDir(s.tree, place[..1]))))
      && (moved ==> place in s'.tree && Subtree(s'.tree, place) == Subtree(s.tree, p))
      && (moved && updateOk ==> s'.table == s.table[id := dataset.(url := s'.table[id].url)])
      && (moved && updateOk ==> Resolve(s'.table[id].url) == place)
      && (!moved || !updateOk ==> s'.table == s.table)
  {
    hide CanMove, TreeAfterMove, ManagedUrl, Resolve, BaseOf;
    var dataset := s.table[id];
    ManagedExactly(s.tree, id, dataset);
    MoveShows(s.tree, dataset.url, ManagedUrl(id, dataset));
  }

  /** A move shows in the tree exactly if it goes through. */
  lemma MoveShows(t: Tree, src: string, dst: string)
    requires WellFormed(t)
    ensures var t', p, q := TreeAfterMove(t, src, dst), Resolve(src), Resolve(dst);
      && (CanMove(t, src, dst) <==> p in t && p !in t')
      && (CanMove(t, src, dst) ==> q in t' && q !in t && Subtree(t', q) == Subtree(t, p))
  {
    hide Resolve, DirOf, Subtree;
    if CanMove(t, src, dst) {
      var p, q := Resolve(src), Resolve(dst);
      MoveRelocates(t, src, dst);
      assert p + q[|q|..] == p;
    }
  }

  lemma ManagedExactly(t: Tree, id: nat, dataset: Dataset)
    requires Ordinary(BaseOf(dataset.url))
    ensures var p, dest := Resolve(dataset.url), ManagedUrl(id, dataset);
      var prefix := if dataset.kind == ModelKind then "crater-model" else "crater-dataset";
      var place := [prefix, FormatUint(id), BaseOf(dataset.url)];
      && Resolve(dest) == place && Home(dest) == place[..2]
      && (CanMove(t, dataset.url, dest) <==>
            && p in t && place !in t && !(p <= place)
            && (IsDir(t, place[..2]) || (place[..2] !in t && IsDir(t, place[..1]))))
  {
    hide ManagedUrl, Resolve, BaseOf, DirOf, FormatUint;
    ManagedPlace(id, dataset);
    BaseIsLast(dataset.url);
    var place := Resolve(ManagedUrl(id, dataset));
    assert Parent(place[..2]) == place[..1];
  }

  lemma PlaceOfTwo(a: string, b: string)
    requires Ordinary(a) && Ordinary(b)
    ensures Resolve(a + "/" + b) == [a, b]
  {
    SplitOfName(a);
    SplitOfName(b);
    SplitAtSlash(a, b);
    ReduceOrdinary([], [a, b], true);
  }

  /** A restore leads to the destination itself, and inside it, under the dataset's own
      name, if it is a directory: exactly if the dataset is there, the place is free and
      not inside it, and its directory is there or can be made. */
  lemma RestoredPlace(s: State, id: nat, dst: string, updateOk: bool)
    requires WellFormed(s.tree) && id in s.table && Ordinary(BaseOf(s.table[id].url))
    ensures var dataset, s' := s.table[id], AfterRestore(s, id, dst, updateOk);
      var p, into := Resolve(dataset.url), IsDir(s.tree, Resolve(dst));
      var place := if into then Resolve(dst) + [BaseOf(dataset.url)] else Resolve(dst);
      var moved := p in s.tree && p !in s'.tree;
      && (moved <==>
            && id > 0 && dst != ""
            && p in s.tree && place !in s.tree && !(p <= place)
            && (into || (Ordinary(LastPart(dst)) &&
                  (IsDir(s.tree, Parent(place))
                   || (Parent(place) !in s.tree && IsDir(s.tree, Parent(Parent(place))))))))
      && (moved ==> place in s'.tree && Subtree(s'.tree, place) == Subtree(s.tree, p))
      && (moved && updateOk ==> s'.table == s.table[id := dataset.(url := s'.table[id].url)])
      && (moved && updateOk ==> Resolve(s'.table[id].url) == place)
      && (!moved || !updateOk ==> s'.table == s.table)
  {
    hide TreeAfterMove, Resolve, BaseOf, DirOf, JoinNames, Subtree, WellFormed;
    var url := s.table[id].url;
    BaseIsLast(url);
    HomeIsParent(dst);
    MoveShows(s.tree, url, RestoreTarget(s.tree, url, dst));
    if IsDir(s.tree, Resolve(dst)) { JoinOrdinary(dst, BaseOf(url)); }
  }

  /** Move, then restore into the original parent directory, under any name for it:
      the tree is back, up to the managed directory the move may have made, and the
      URL names the original place again. */
  lemma MoveThenRestore(s: State, id: nat, dst: string)
    requires WellFormed(s.tree) && id != 0 && id in s.table && !s.table[id].kind.OtherKind?
    requires Ordinary(BaseOf(s.table[id].url))
    requires CanMove(s.tree, s.table[id].url, ManagedUrl(id, s.table[id]))
    requires dst != "" && Resolve(dst) == Parent(s.table[id].Place())
    ensures var url := s.table[id].url;
      var back := JoinNames(dst, BaseOf(url));
      && AfterRestore(AfterMoveDataset(s, id, true), id, dst, true)
           == State(WithHome(s.tree, ManagedUrl(id, s.table[id])), s.table[id := s.table[id].(url := back)])
      && Resolve(back) == Resolve(url)
  {
    var url, dest := s.table[id].url, ManagedUrl(id, s.table[id]);
    var back := JoinNames(dst, BaseOf(url));
    hide ManagedUrl, JoinNames, BaseOf, Resolve, TreeAfterMove, CanMove, Relocated;
    ManagedPlace(id, s.table[id]);
    BaseIsLast(url);
    JoinOrdinary(dst, BaseOf(url));
    RelocatedBack(s, id, dest, back);
    assert RestoreTarget(Relocated(s, id, dest, true).tree, dest, dst) == back;
  }

  lemma RelocatedBack(s: State, id: nat, dest: string, back: string)
    requires WellFormed(s.tree) && id in s.table && CanMove(s.tree, s.table[id].url, dest)
    requires Resolve(back) == s.table[id].Place() && Ordinary(LastPart(back))
    ensures var s1 := Relocated(s, id, dest, true);
      && s1.table.Keys == s.table.Keys && s1.table[id] == s.table[id].(url := dest)
      && IsDir(s1.tree, Parent(s.table[id].Place()))
      && Relocated(s1, id, back, true) == State(WithHome(s.tree, dest), s.table[id := s.table[id].(url := back)])
  {
    hide Resolve, TreeAfterMove, CanMove, WithHome;
    ThereAndBack(s.tree, s.table[id].url, dest, back);
  }

  /** For a clean URL and its own directory the whole state is back. */
  lemma MoveThenRestoreToDir(s: State, id: nat)
    requires WellFormed(s.tree) && id != 0 && id in s.table && !s.table[id].kind.OtherKind?
    requires CanMove(s.tree, s.table[id].url, ManagedUrl(id, s.table[id]))
    requires var url := s.table[id].url; Clean(url) == url && Ordinary(LastPart(url))
    ensures AfterRestore(AfterMoveDataset(s, id, true), id, DirOf(s.table[id].url), true)
         == State(WithHome(s.tree, ManagedUrl(id, s.table[id])), s.table)
  {
    var url := s.table[id].url;
    hide ManagedUrl, TreeAfterMove, CanMove;
    LastPartIsBase(url);
    HomeIsParent(url);
    DirByParts(url);
    JoinOfDirAndBase(url);
    MoveThenRestore(s, id, DirOf(url));
    assert s.table[id := s.table[id].(url := url)] == s.table;
  }

  /** The way back from `dst` is open, and taking it undoes the move. */
  lemma ThereAndBack(t: Tree, src: string, dst: string, back: string)
    requires WellFormed(t) && CanMove(t, src, dst)
    requires Resolve(back) == Resolve(src) && Ordinary(LastPart(back))
    ensures var t1 := TreeAfterMove(t, src, dst);
      && IsDir(t1, Parent(Resolve(src))) && CanMove(t1, dst, back)
      && TreeAfterMove(t1, dst, back) == WithHome(t, dst)
  {
    hide Resolve, DirOf;
    var w, t1, p, q := WithHome(t, dst), TreeAfterMove(t, src, dst), Resolve(src), Resolve(dst);
    HomeIsParent(dst);
    HomeIsParent(back);
    WithHomeKeepsWellFormed(t, dst);
    NothingBelowTarget(t, dst);
    assert p in w && !(q <= p);
    assert !(p <= Parent(p));
    BelowParent(q, p);
    assert IsDir(w, Parent(p));
    assert IsDir(t1, Parent(p));
    assert q in t1 by { assert p + q[|q|..] == p; }
    assert p !in t1;
    RelocateBack(w, p, q);
  }

  /** A second move after a successful one is refused and changes nothing. */
  lemma SecondMoveRefused(s: State, id: nat, again: bool)
    requires WellFormed(s.tree) && id != 0 && id in s.table && !s.table[id].kind.OtherKind?
    requires Ordinary(BaseOf(s.table[id].url))
    requires CanMove(s.tree, s.table[id].url, ManagedUrl(id, s.table[id]))
    ensures var s1 := AfterMoveDataset(s, id, true);
      && id in s1.table
      && !CanMove(s1.tree, s1.table[id].url, ManagedUrl(id, s1.table[id]))
      && AfterMoveDataset(s1, id, again) == s1
  {
    var url, dest := s.table[id].url, ManagedUrl(id, s.table[id]);
    var s1 := AfterMoveDataset(s, id, true);
    hide ManagedUrl, Resolve, BaseOf;
    ManagedPlace(id, s.table[id]);
    ManagedPlace(id, s1.table[id]);
    assert Resolve(ManagedUrl(id, s1.table[id])) == Resolve(dest);
    assert Resolve(dest) in s1.tree by { assert Resolve(url) + Resolve(dest)[|Resolve(dest)|..] == Resolve(url); }
  }

  /** Managed places of different datasets, or of one ID under two kinds, are
      never equal and never one inside the other. */
  lemma ManagedUrlsApart(i: nat, a: Dataset, j: nat, b: Dataset)
    requires Ordinary(BaseOf(a.url)) && Ordinary(BaseOf(b.url))
    requires i != j || ManagedPrefix(a.kind) != ManagedPrefix(b.kind)
    ensures !Nested(Resolve(ManagedUrl(i, a)), Resolve(ManagedUrl(j, b)))
  {
    hide ManagedUrl, BaseOf, Resolve;
    var p, q := Resolve(ManagedUrl(i, a)), Resolve(ManagedUrl(j, b));
    if FormatUint(i) == FormatUint(j) { FormatUintInjective(i, j); }
    ManagedPlace(i, a);
    ManagedPlace(j, b);
    assert p[0] == ManagedPrefix(a.kind) && q[0] == ManagedPrefix(b.kind);
    assert p[1] == FormatUint(i) && q[1] == FormatUint(j);
  }

  // checkSpace

  function SpaceDir(prefix: string, space: string): Path { Resolve(prefix + "/" + space) }

  function BaseDirs(cfg: Routing.Config): seq<Path> {
    [Resolve(cfg.accountPrefix), Resolve(cfg.userPrefix), Resolve(cfg.publicPrefix), [DATASET_PREFIX], [MODEL_PREFIX]]
  }

  function SpaceDirs(prefix: string, spaces: seq<string>): (dirs: seq<Path>)
    ensures |dirs| == |spaces| && forall i :: 0 <= i < |spaces| ==> dirs[i] == SpaceDir(prefix, spaces[i])
  {
    seq(|spaces|, i requires 0 <= i < |spaces| => SpaceDir(prefix, spaces[i]))
  }

  /** The space directories of a pass, for which both queries must have answered. */
  function SpacesToMake(cfg: Routing.Config, users: Option<seq<string>>, accounts: Option<seq<string>>): seq<Path> {
    if users.None? || accounts.None? then []
    else SpaceDirs(cfg.userPrefix, users.value) + SpaceDirs(cfg.accountPrefix, accounts.value)
  }

  /** What a pass provisions, in order. */
  function Provisioned(cfg: Routing.Config, users: Option<seq<string>>, accounts: Option<seq<string>>): seq<Path> {
    BaseDirs(cfg) + SpacesToMake(cfg, users, accounts)
  }

  /** Making the missing directories in order, stopping at the first that cannot
      be made. A Stat error other than "does not exist" is passed over. */
  function EnsureDirs(t: Tree, dirs: seq<Path>): Tree
    decreases |dirs|
  {
    if dirs == [] then t
    else if StatAt(t, dirs[0]) != Failed(NotExist) then EnsureDirs(t, dirs[1..])
    else match Mkdir(t, dirs[0])
      case Done(t') => EnsureDirs(t', dirs[1..])
      case Refused(_) => t
  }

  /** Whether all of the list was gone through. */
  function Completes(t: Tree, dirs: seq<Path>): bool
    decreases |dirs|
  {
    if dirs == [] then true
    else if StatAt(t, dirs[0]) != Failed(NotExist) then Completes(t, dirs[1..])
    else match Mkdir(t, dirs[0])
      case Done(t') => Completes(t', dirs[1..])
      case Refused(_) => false
  }

  lemma {:induction false} EnsureDirsConcat(t: Tree, a: seq<Path>, b: seq<Path>)
    ensures EnsureDirs(t, a + b) == if Completes(t, a) then EnsureDirs(EnsureDirs(t, a), b) else EnsureDirs(t, a)
    decreases |a|
  {
    if a == [] {
      assert a + b == b;
    } else {
      assert (a + b)[0] == a[0] && (a + b)[1..] == a[1..] + b;
      if StatAt(t, a[0]) != Failed(NotExist) {
        EnsureDirsConcat(t, a[1..], b);
      } else if Mkdir(t, a[0]).Done? {
        EnsureDirsConcat(Mkdir(t, a[0]).tree, a[1..], b);
      }
    }
  }

  /** A pass removes nothing, changes nothing and adds directories of its list. */
  lemma {:induction false} EnsureDirsOnlyAdds(t: Tree, dirs: seq<Path>)
    requires WellFormed(t)
    ensures var t' := EnsureDirs(t, dirs);
      && WellFormed(t')
      && (forall p :: p in t ==> p in t' && t'[p] == t[p])
      && (forall p :: p in t' && p !in t ==> p in dirs && t'[p] == Dir)
    decreases |dirs|
  {
    if dirs != [] {
      if StatAt(t, dirs[0]) != Failed(NotExist) {
        EnsureDirsOnlyAdds(t, dirs[1..]);
      } else if Mkdir(t, dirs[0]).Done? {
        MkdirKeepsWellFormed(t, dirs[0]);
        EnsureDirsOnlyAdds(Mkdir(t, dirs[0]).tree, dirs[1..]);
      }
    }
  }

  /** Every directory's parent is there or earlier in the list, and no file stands
      where a directory is to be. */
  ghost predicate Provisionable(t: Tree, dirs: seq<Path>) {
    && (forall p :: p in dirs && p in t ==> t[p].Dir?)
    && (forall i :: 0 <= i < |dirs| ==> IsDir(t, Parent(dirs[i])) || Parent(dirs[i]) in dirs[..i])
  }

  function WithDirs(t: Tree, dirs: seq<Path>): (r: Tree)
    ensures forall p :: p in r <==> p in t || p in dirs
    ensures forall p :: p in r ==> r[p] == if p in t then t[p] else Dir
  {
    t + map p | p in dirs && p !in t :: Dir
  }

  lemma {:induction false} EnsureDirsMakesAll(t: Tree, dirs: seq<Path>)
    requires WellFormed(t) && Provisionable(t, dirs)
    ensures EnsureDirs(t, dirs) == WithDirs(t, dirs)
    decreases |dirs|
  {
    if dirs == [] {
      assert WithDirs(t, dirs) == t;
    } else {
      var d, rest := dirs[0], dirs[1..];
      assert d in dirs && dirs[..0] == [];
      assert IsDir(t, Parent(d));
      if d !in t { NotBlockedInDir(t, d); }
      var t' := if d in t then t else t[d := Dir];
      assert EnsureDirs(t, dirs) == EnsureDirs(t', rest);
      if d !in t { MkdirKeepsWellFormed(t, d); }
      RestProvisionable(t, t', dirs);
      EnsureDirsMakesAll(t', rest);
      WithDirsStep(t, t', dirs);
    }
  }

  lemma WithDirsStep(t: Tree, t': Tree, dirs: seq<Path>)
    requires dirs != [] && t' == if dirs[0] in t then t else t[dirs[0] := Dir]
    ensures WithDirs(t', dirs[1..]) == WithDirs(t, dirs)
  {
    hide WithDirs;
    forall p ensures p in WithDirs(t', dirs[1..]) <==> p in WithDirs(t, dirs) {
      assert p in dirs <==> p == dirs[0] || p in dirs[1..];
    }
  }

  lemma RestProvisionable(t: Tree, t': Tree, dirs: seq<Path>)
    requires dirs != [] && Provisionable(t, dirs)
    requires t' == if dirs[0] in t then t else t[dirs[0] := Dir]
    ensures Provisionable(t', dirs[1..])
  {
    var d, rest := dirs[0], dirs[1..];
    forall p | p in rest && p in t' ensures t'[p].Dir? {
      assert p in dirs;
    }
    assert d in dirs;
    forall i | 0 <= i < |rest| ensures IsDir(t', Parent(rest[i])) || Parent(rest[i]) in rest[..i] {
      assert rest[i] == dirs[i + 1] && dirs[..i + 1] == [d] + rest[..i];
    }
  }

  lemma NotBlockedInDir(t: Tree, p: Path)
    requires WellFormed(t) && IsDir(t, Parent(p)) && p !in t
    ensures StatAt(t, p) == Failed(NotExist)
  {
    if BlockedByFile(t, p) { UnderFile(t, p); }
  }

  /** Single-component names: the prefixes sit at the root, each space in its prefix. */
  ghost predicate SingleNames(cfg: Routing.Config, users: Option<seq<string>>, accounts: Option<seq<string>>) {
    (forall b :: b in BaseDirs(cfg) ==> |b| == 1) && SpacesInPrefixes(cfg, users, accounts)
  }

  predicate SpacesInPrefixes(cfg: Routing.Config, users: Option<seq<string>>, accounts: Option<seq<string>>) {
    && (users.Some? ==> forall s :: s in users.value ==> InPrefix(cfg.userPrefix, s))
    && (accounts.Some? ==> forall s :: s in accounts.value ==> InPrefix(cfg.accountPrefix, s))
  }

  predicate InPrefix(prefix: string, space: string) {
    var dir := SpaceDir(prefix, space);
    dir == Resolve(prefix) || (dir != [] && Parent(dir) == Resolve(prefix))
  }

  /** The usual forms of a space name are single names: empty, plain, or with a
      leading slash. */
  lemma PlainSpacesAreInPrefix(prefix: string, name: string)
    requires Ordinary(name)
    ensures InPrefix(prefix, "") && InPrefix(prefix, name) && InPrefix(prefix, "/" + name)
    ensures SpaceDir(prefix, name) == SpaceDir(prefix, "/" + name) == Resolve(prefix) + [name]
  {
    var r := Resolve(prefix);
    SplitOfName(name);
    assert Split("") == [""] && Split("/" + name) == ["", name] by { assert ("/" + name)[1..] == name; }
    SplitAtSlash(prefix, "");
    SplitAtSlash(prefix, name);
    SplitAtSlash(prefix, "/" + name);
    ReduceConcat([], Split(prefix), [""], true);
    ReduceConcat([], Split(prefix), [name], true);
    ReduceConcat([], Split(prefix), ["", name], true);
    assert Reduce(r, [""], true) == r;
    assert Reduce(r, [name], true) == r + [name];
    assert ["", name][1..] == [name];
    assert Reduce(r, ["", name], true) == r + [name];
    assert Parent(r + [name]) == r;
  }

  /** Main result of checkSpace: with single names and no file in the way a pass
      makes every prefix, user and account directory and nothing else, and a second
      pass changes nothing. */
  lemma CheckSpaceProvisions(t: Tree, cfg: Routing.Config, users: Option<seq<string>>, accounts: Option<seq<string>>)
    requires WellFormed(t) && SingleNames(cfg, users, accounts)
    requires forall p :: p in Provisioned(cfg, users, accounts) && p in t ==> t[p].Dir?
    ensures var dirs := Provisioned(cfg, users, accounts);
      && EnsureDirs(t, dirs) == WithDirs(t, dirs)
      && EnsureDirs(EnsureDirs(t, dirs), dirs) == EnsureDirs(t, dirs)
  {
    var dirs, bases := Provisioned(cfg, users, accounts), BaseDirs(cfg);
    forall i | 0 <= i < |dirs| ensures IsDir(t, Parent(dirs[i])) || Parent(dirs[i]) in dirs[..i] {
      if i < |bases| {
        assert dirs[i] == bases[i] && bases[i] in bases;
        assert Parent(dirs[i]) == [];
      } else {
        SpaceParentIsEarlier(t, cfg, users, accounts, i);
      }
    }
    EnsureDirsMakesAll(t, dirs);
    SecondPassIdle(t, dirs);
  }

  /** What a pass makes, named one by one: with single names and no file in the way, the
      three configured prefixes and the two managed ones, and, if both queries have
      answered, the space of every user and of every account; nothing else is new. */
  lemma CheckSpaceMakes(t: Tree, cfg: Routing.Config, users: Option<seq<string>>, accounts: Option<seq<string>>)
    requires WellFormed(t) && SingleNames(cfg, users, accounts)
    requires forall p :: p in Provisioned(cfg, users, accounts) && p in t ==> t[p].Dir?
    ensures var t' := EnsureDirs(t, Provisioned(cfg, users, accounts));
      var answered := users.Some? && accounts.Some?;
      && IsDir(t', Resolve(cfg.accountPrefix)) && IsDir(t', Resolve(cfg.userPrefix))
      && IsDir(t', Resolve(cfg.publicPrefix))
      && IsDir(t', ["crater-dataset"]) && IsDir(t', ["crater-model"])
      && (answered ==> forall user :: user in users.value ==> IsDir(t', Resolve(cfg.userPrefix + "/" + user)))
      && (answered ==> forall acc :: acc in accounts.value ==> IsDir(t', Resolve(cfg.accountPrefix + "/" + acc)))
      && (forall p :: p in t ==> p in t' && t'[p] == t[p])
      && (forall p :: p in t' && p !in t ==>
            || p == Resolve(cfg.accountPrefix) || p == Resolve(cfg.userPrefix) || p == Resolve(cfg.publicPrefix)
            || p == ["crater-dataset"] || p == ["crater-model"]
            || (answered && exists user :: user in users.value && p == Resolve(cfg.userPrefix + "/" + user))
            || (answered && exists acc :: acc in accounts.value && p == Resolve(cfg.accountPrefix + "/" + acc)))
  {
    hide *;
    CheckSpaceProvisions(t, cfg, users, accounts);
    BasesAreListed(cfg, users, accounts);
    forall p | p in Provisioned(cfg, users, accounts) { ListedByName(cfg, users, accounts, p); }
    MadeOrThere(t, Provisioned(cfg, users, accounts));
    if users.Some? && accounts.Some? {
      forall user | user in users.value { UserIsListed(cfg, users, accounts, user); }
      forall acc | acc in accounts.value { AccountIsListed(cfg, users, accounts, acc); }
    }
  }

  lemma MadeOrThere(t: Tree, dirs: seq<Path>)
    requires forall p :: p in dirs && p in t ==> t[p].Dir?
    ensures forall p :: p in dirs ==> IsDir(WithDirs(t, dirs), p)
    ensures forall p :: p in t ==> p in WithDirs(t, dirs) && WithDirs(t, dirs)[p] == t[p]
    ensures forall p :: p in WithDirs(t, dirs) && p !in t ==> p in dirs
  {
    hide WithDirs;
  }

  lemma BasesAreListed(cfg: Routing.Config, users: Option<seq<string>>, accounts: Option<seq<string>>)
    ensures var dirs := Provisioned(cfg, users, accounts);
      && Resolve(cfg.accountPrefix) in dirs && Resolve(cfg.userPrefix) in dirs && Resolve(cfg.publicPrefix) in dirs
      && ["crater-dataset"] in dirs && ["crater-model"] in dirs
  {
    hide Resolve, SpacesToMake;
    var bases := BaseDirs(cfg);
    assert bases[0] in bases && bases[1] in bases && bases[2] in bases && bases[3] in bases && bases[4] in bases;
  }

  lemma UserIsListed(cfg: Routing.Config, users: Option<seq<string>>, accounts: Option<seq<string>>, user: string)
    requires users.Some? && accounts.Some? && user in users.value
    ensures Resolve(cfg.userPrefix + "/" + user) in Provisioned(cfg, users, accounts)
  {
    SpacesAreListed(cfg.userPrefix, users.value);
    hide Resolve, SpaceDirs, BaseDirs;
  }

  lemma AccountIsListed(cfg: Routing.Config, users: Option<seq<string>>, accounts: Option<seq<string>>, acc: string)
    requires users.Some? && accounts.Some? && acc in accounts.value
    ensures Resolve(cfg.accountPrefix + "/" + acc) in Provisioned(cfg, users, accounts)
  {
    SpacesAreListed(cfg.accountPrefix, accounts.value);
    hide Resolve, SpaceDirs, BaseDirs;
  }

  lemma ListedByName(cfg: Routing.Config, users: Option<seq<string>>, accounts: Option<seq<string>>, p: Path)
    requires p in Provisioned(cfg, users, accounts)
    ensures var answered := users.Some? && accounts.Some?;
      || p == Resolve(cfg.accountPrefix) || p == Resolve(cfg.userPrefix) || p == Resolve(cfg.publicPrefix)
      || p == ["crater-dataset"] || p == ["crater-model"]
      || (answered && exists user :: user in users.value && p == Resolve(cfg.userPrefix + "/" + user))
      || (answered && exists acc :: acc in accounts.value && p == Resolve(cfg.accountPrefix + "/" + acc))
  {
    hide Resolve, SpaceDirs;
    if users.Some? && accounts.Some? {
      SpacesAreListed(cfg.userPrefix, users.value);
      SpacesAreListed(cfg.accountPrefix, accounts.value);
    }
  }

  lemma SpacesAreListed(prefix: string, spaces: seq<string>)
    ensures forall p :: p in SpaceDirs(prefix, spaces) <==>
              exists space :: space in spaces && p == Resolve(prefix + "/" + space)
  {
    hide Resolve;
    var dirs := SpaceDirs(prefix, spaces);
    forall space | space in spaces ensures Resolve(prefix + "/" + space) in dirs {
      var i :| 0 <= i < |spaces| && spaces[i] == space;
      assert dirs[i] == Resolve(prefix + "/" + space);
    }
  }

  /** Where a pass over any list ends: before the first directory that is to be made and
      has no parent directory, if there is one. All before are there or under a file, and
      nothing after is made. */
  lemma {:induction false} PassEndsAtFirst(t: Tree, dirs: seq<Path>) returns (k: nat)
    requires WellFormed(t)
    ensures k <= |dirs|
    ensures var t' := EnsureDirs(t, dirs);
      && (forall i :: 0 <= i < k ==> dirs[i] in t' || BlockedByFile(t', dirs[i]))
      && (k < |dirs| ==> dirs[k] !in t' && !BlockedByFile(t', dirs[k]) && !IsDir(t', Parent(dirs[k])))
      && (forall p :: p in t' && p !in t ==> p in dirs[..k])
    ensures Completes(t, dirs) <==> k == |dirs|
    decreases |dirs|
  {
    if dirs == [] {
      k := 0;
    } else {
      var d, rest := dirs[0], dirs[1..];
      if StatAt(t, d) == Failed(NotExist) && Mkdir(t, d).Refused? {
        k := 0;
      } else {
        var next := if StatAt(t, d) == Failed(NotExist) then Mkdir(t, d).tree else t;
        if StatAt(t, d) == Failed(NotExist) { MkdirKeepsWellFormed(t, d); }
        var j := PassEndsAtFirst(next, rest);
        k := j + 1;
        EnsureDirsOnlyAdds(next, rest);
        var t' := EnsureDirs(t, dirs);
        assert dirs[..k] == [d] + rest[..j];
        if d !in t' { FileStaysInWay(next, t', d); }
      }
    }
  }

  lemma FileStaysInWay(t: Tree, t': Tree, p: Path)
    requires BlockedByFile(t, p) && forall q :: q in t ==> q in t' && t'[q] == t[q]
    ensures BlockedByFile(t', p)
  {}

  lemma SecondPassIdle(t: Tree, dirs: seq<Path>)
    requires WellFormed(t) && Provisionable(t, dirs)
    ensures EnsureDirs(EnsureDirs(t, dirs), dirs) == EnsureDirs(t, dirs)
  {
    var t' := EnsureDirs(t, dirs);
    EnsureDirsMakesAll(t, dirs);
    EnsureDirsOnlyAdds(t, dirs);
    assert forall p :: p in t' && p !in t ==> t'[p] == Dir;
    forall i | 0 <= i < |dirs| ensures IsDir(t', Parent(dirs[i])) {
      assert dirs[i] in dirs;
    }
    EnsureDirsMakesAll(t', dirs);
    assert WithDirs(t', dirs) == t';
  }

  /** Each space directory is, or lies directly in, the account or user prefix. */
  lemma SpaceDirShape(cfg: Routing.Config, users: Option<seq<string>>, accounts: Option<seq<string>>, p: Path)
    returns (b: nat)
    requires SpacesInPrefixes(cfg, users, accounts)
    requires p in SpacesToMake(cfg, users, accounts)
    ensures b < 2
    ensures p == BaseDirs(cfg)[b] || (p != [] && Parent(p) == BaseDirs(cfg)[b])
  {
    if p in SpaceDirs(cfg.userPrefix, users.value) {
      b := 1;
      SpaceDirInPrefix(cfg.userPrefix, users.value, p);
    } else {
      b := 0;
      SpaceDirInPrefix(cfg.accountPrefix, accounts.value, p);
    }
  }

  lemma SpaceDirInPrefix(prefix: string, spaces: seq<string>, p: Path)
    requires forall s :: s in spaces ==> InPrefix(prefix, s)
    requires p in SpaceDirs(prefix, spaces)
    ensures p == Resolve(prefix) || (p != [] && Parent(p) == Resolve(prefix))
  {
    var i :| 0 <= i < |spaces| && SpaceDirs(prefix, spaces)[i] == p;
    assert spaces[i] in spaces;
  }

  lemma SpaceParentIsEarlier(t: Tree, cfg: Routing.Config, users: Option<seq<string>>,
                             accounts: Option<seq<string>>, i: nat)
    requires WellFormed(t) && SingleNames(cfg, users, accounts)
    requires |BaseDirs(cfg)| <= i < |Provisioned(cfg, users, accounts)|
    ensures var dirs := Provisioned(cfg, users, accounts);
      IsDir(t, Parent(dirs[i])) || Parent(dirs[i]) in dirs[..i]
  {
    var dirs, bases := Provisioned(cfg, users, accounts), BaseDirs(cfg);
    var b := SpaceDirShape(cfg, users, accounts, dirs[i]);
    assert dirs[..i][b] == dirs[b] == bases[b];
    assert bases[b] in bases;
    if dirs[i] == bases[b] { assert Parent(dirs[i]) == []; }
  }

  /** After a pass the single-level Mkdir of a dataset or model move never lacks
      its parent: the move then succeeds unless the destination is taken, the source
      is missing or holds the destination, or a file stands at the ID's directory. */
  lemma CheckedSpaceHasHome(t: Tree, cfg: Routing.Config, users: Option<seq<string>>, accounts: Option<seq<string>>,
                            id: nat, dataset: Dataset)
    requires WellFormed(t) && SingleNames(cfg, users, accounts)
    requires forall p :: p in Provisioned(cfg, users, accounts) && p in t ==> t[p].Dir?
    requires Ordinary(BaseOf(dataset.url))
    ensures var t' := EnsureDirs(t, Provisioned(cfg, users, accounts));
      var dest := ManagedUrl(id, dataset);
      CanMove(t', dataset.url, dest) <==>
        && dataset.Place() in t' && Resolve(dest) !in t' && !(dataset.Place() <= Resolve(dest))
        && (Home(dest) in t' ==> t'[Home(dest)].Dir?)
  {
    hide ManagedUrl, Resolve, BaseOf, EnsureDirs, DirOf, CanMove;
    var dirs := Provisioned(cfg, users, accounts);
    CheckSpaceProvisions(t, cfg, users, accounts);
    assert BaseDirs(cfg)[3] == [DATASET_PREFIX] && BaseDirs(cfg)[4] == [MODEL_PREFIX];
    assert [ManagedPrefix(dataset.kind)] in BaseDirs(cfg);
    HomeOfManaged(WithDirs(t, dirs), id, dataset);
  }

  lemma HomeOfManaged(t: Tree, id: nat, dataset: Dataset)
    requires Ordinary(BaseOf(dataset.url)) && IsDir(t, [ManagedPrefix(dataset.kind)])
    ensures var dest := ManagedUrl(id, dataset);
      CanMove(t, dataset.url, dest) <==>
        && dataset.Place() in t && Resolve(dest) !in t && !(dataset.Place() <= Resolve(dest))
        && (Home(dest) in t ==> t[Home(dest)].Dir?)
  {
    hide ManagedUrl, Resolve, BaseOf;
    ManagedPlace(id, dataset);
    BaseIsLast(dataset.url);
    assert Parent(Home(ManagedUrl(id, dataset))) == [ManagedPrefix(dataset.kind)];
  }

  /** The empty path names the root, which is always there. */
  lemma RootIsTaken(t: Tree, src: string)
    requires WellFormed(t)
    ensures Resolve("") in t && !CanMove(t, src, "") && TreeAfterMove(t, src, "") == t
  {
    assert Resolve("") == [];
  }

  /** A move that goes through has another name to go to, and changes the tree. */
  lemma MoveIsSeen(t: Tree, src: string, dst: string)
    requires WellFormed(t) && CanMove(t, src, dst)
    ensures src != dst && TreeAfterMove(t, src, dst) != t
  {
    hide TreeAfterMove, Resolve;
    MoveShows(t, src, dst);
  }

  /** The answer to a relocation that was attempted. */
  predicate Answers(response: Response, t: Tree, src: string, dst: string, updateOk: bool) {
    if !CanMove(t, src, dst) then response.MoveFailed? && (Resolve(dst) in t ==> response.error == Exists)
    else response == if updateOk then Success else UpdateFailed
  }

  predicate MayMove(src: string, dst: string, token: Routing.Token, tables: Routing.Tables) {
    && Routing.GetPermission(src, token, tables) == Routing.READ_WRITE
    && Routing.GetPermission(dst, token, tables) == Routing.READ_WRITE
  }

  /** The path names a space to which the caller has write access. */
  ghost predicate InWritableSpace(path: string, token: Routing.Token, tables: Routing.Tables) {
    exists space :: Routing.Names(Routing.Parts(path)[0], space) && Routing.Access(space, token, tables) == 3
  }

  /** On clean paths a move takes write access to the spaces of both ends. */
  lemma MovesNeedWriteAccess(src: string, dst: string, token: Routing.Token, tables: Routing.Tables)
    requires Routing.CleanPath(src) && Routing.CleanPath(dst)
    ensures MayMove(src, dst, token, tables) <==>
      InWritableSpace(src, token, tables) && InWritableSpace(dst, token, tables)
  {
    hide Routing.GetPermission, Routing.CleanPath, Routing.Parts, Routing.Access;
    Routing.PermissionFollowsTable(src, token, tables);
    Routing.PermissionFollowsTable(dst, token, tables);
  }

  /** The service's state: the tree below the served root, and the dataset table. */
  class StorageService {
    var tree: Tree
    var table: Table

    ghost predicate Valid()
      reads this
    {
      WellFormed(tree)
    }

    function Current(): State
      reads this
    {
      State(tree, table)
    }

    constructor (tree: Tree, table: Table)
      requires WellFormed(tree)
      ensures Valid() && Current() == State(tree, table)
    {
      this.tree := tree;
      this.table := table;
    }

    /** moveFiles with overwrite off */
    method MoveFiles(src: string, dst: string) returns (failure: Option<FsError>)
      requires Valid()
      modifies this`tree
      ensures Valid()
      ensures tree == TreeAfterMove(old(tree), src, dst)
      ensures failure.None? <==> CanMove(old(tree), src, dst)
      ensures Resolve(dst) in old(tree) ==> failure == Some(Exists)
    {
      hide Resolve, DirOf;
      MoveKeepsWellFormed(tree, src, dst);
      WithHomeKeepsWellFormed(tree, dst);
      HomeIsParent(dst);
      if BlockedByFile(tree, Resolve(dst)) || BlockedByFile(tree, Home(dst)) { BlockedMakesNothing(tree, src, dst); }
      match StatAt(tree, Resolve(dst)) {
        case Found(_) => return Some(Exists);
        case Failed(error) =>
          if error != NotExist { return Some(error); }
      }
      var dstDir := DirOf(dst);
      match StatAt(tree, Resolve(dstDir)) {
        case Found(_) =>
        case Failed(error) =>
          if error != NotExist { return Some(error); }
          match Mkdir(tree, Resolve(dstDir)) {
            case Refused(refusal) => return Some(refusal);
            case Done(made) => tree := made;
          }
      }
      match WebdavRename(tree, Resolve(src), Resolve(dst)) {
        case Refused(refusal) => return Some(refusal);
        case Done(renamed) =>
          tree := renamed;
          return None;
      }
    }

    method MoveDatasetOrModel(token: Routing.Token, id: nat, updateOk: bool) returns (response: Response)
      requires Valid()
      modifies this
      ensures Valid()
      ensures token.rolePlatform != Routing.ROLE_ADMIN ==> Current() == old(Current())
      ensures token.rolePlatform == Routing.ROLE_ADMIN ==> Current() == AfterMoveDataset(old(Current()), id, updateOk)
      ensures if id == 0 then response == BadRequest
        else if token.rolePlatform != Routing.ROLE_ADMIN then response == Unauthorized
        else if id !in old(table) then response == DatasetMissing
        else if old(table)[id].kind.OtherKind? then response == WrongType
        else Answers(response, old(tree), old(table)[id].url, ManagedUrl(id, old(table)[id]), updateOk)
      ensures response == Success <==> table != old(table)
      ensures response == UpdateFailed ==> tree != old(tree)
    {
      hide CanMove, TreeAfterMove, Resolve, JoinNames, BaseOf, FormatUint, WellFormed;
      if id == 0 { return BadRequest; }
      if token.rolePlatform != Routing.ROLE_ADMIN { return Unauthorized; }
      if id !in table { return DatasetMissing; }
      var dataset := table[id];
      var dest: string;
      if dataset.kind == ModelKind {
        dest := MODEL_PREFIX;
      } else if dataset.kind == DatasetKind {
        dest := DATASET_PREFIX;
      } else {
        return WrongType;
      }
      dest := dest + "/" + FormatUint(id);
      dest := JoinNames(dest, BaseOf(dataset.url));
      ghost var before := tree;
      var failure := MoveFiles(dataset.url, dest);
      if failure.Some? { return MoveFailed(failure.value); }
      MoveIsSeen(before, dataset.url, dest);
      dataset := dataset.(url := dest);
      if !updateOk { return UpdateFailed; }
      table := table[id := dataset];
      return Success;
    }

    method RestoreDatasetOrModel(token: Routing.Token, id: nat, dst: string, updateOk: bool)
      returns (response: Response)
      requires Valid()
      modifies this
      ensures Valid()
      ensures token.rolePlatform != Routing.ROLE_ADMIN ==> Current() == old(Current())
      ensures token.rolePlatform == Routing.ROLE_ADMIN ==> Current() == AfterRestore(old(Current()), id, dst, updateOk)
      ensures if id == 0 || dst == "" then response == BadRequest
        else if token.rolePlatform != Routing.ROLE_ADMIN then response == Unauthorized
        else if id !in old(table) then response == DatasetMissing
        else Answers(response, old(tree), old(table)[id].url,
                     RestoreTarget(old(tree), old(table)[id].url, dst), updateOk)
      ensures response == Success <==> table != old(table)
      ensures response == UpdateFailed ==> tree != old(tree)
    {
      hide CanMove, TreeAfterMove, Resolve, JoinNames, BaseOf, WellFormed;
      if id == 0 || dst == "" { return BadRequest; }
      if token.rolePlatform != Routing.ROLE_ADMIN { return Unauthorized; }
      if id !in table { return DatasetMissing; }
      var dataset := table[id];
      var source, dstPath := dataset.url, dst;
      var stat := StatAt(tree, Resolve(dstPath));
      if stat.Found? && stat.node.Dir? {
        dstPath := JoinNames(dstPath, BaseOf(source));
      }
      ghost var before := tree;
      var failure := MoveFiles(source, dstPath);
      if failure.Some? { return MoveFailed(failure.value); }
      MoveIsSeen(before, source, dstPath);
      dataset := dataset.(url := dstPath);
      if !updateOk { return UpdateFailed; }
      table := table[id := dataset];
      return Success;
    }

    /** A user's move between virtual paths. A destination that Redirect refuses is
        reported but not left at: the move goes on with the empty path, which names
        the root and so is taken. */
    method MoveFile(token: Routing.Token, tables: Routing.Tables, cfg: Routing.Config, src: string, dst: string)
      returns (response: Response)
      requires Valid()
      modifies this`tree
      ensures Valid()
      ensures MayMove(src, dst, token, tables) && Routing.CleanPath(src) && Routing.CleanPath(dst) ==>
                Routing.Redirect(src, token, tables, cfg).To? && Routing.Redirect(dst, token, tables, cfg).To?
      ensures var from, to := Routing.Redirect(src, token, tables, cfg), Routing.Redirect(dst, token, tables, cfg);
        if dst == "" then response == BadRequest && tree == old(tree)
        else if !MayMove(src, dst, token, tables) then response == Unauthorized && tree == old(tree)
        else if from.Refused? then response == RouteFailed(from.error) && tree == old(tree)
        else if to.Refused? then response == MoveFailed(Exists) && tree == old(tree)
        else
          && tree == TreeAfterMove(old(tree), from.path, to.path)
          && Answers(response, old(tree), from.path, to.path, true)
          && (response == Success <==> Resolve(from.path) in old(tree) && Resolve(from.path) !in tree)
    {
      hide CanMove, TreeAfterMove, Resolve, WellFormed;
      if dst == "" { return BadRequest; }
      var sourcePermission := Routing.GetPermission(src, token, tables);
      var dstPermission := Routing.GetPermission(dst, token, tables);
      if sourcePermission != Routing.READ_WRITE || dstPermission != Routing.READ_WRITE {
        return Unauthorized;
      }
      if Routing.CleanPath(src) && Routing.CleanPath(dst) {
        ghost var from := Routing.PermittedPathsRedirect(src, token, tables, cfg);
        ghost var to := Routing.PermittedPathsRedirect(dst, token, tables, cfg);
      }
      var realPath := Routing.Redirect(src, token, tables, cfg);
      if realPath.Refused? { return RouteFailed(realPath.error); }
      var realDst := Routing.Redirect(dst, token, tables, cfg);
      var target := "";
      if realDst.Refused? {
        response := RouteFailed(realDst.error);
        RootIsTaken(tree, realPath.path);
      } else {
        target := realDst.path;
      }
      MoveShows(tree, realPath.path, target);
      var failure := MoveFiles(realPath.path, target);
      if failure.Some? { return MoveFailed(failure.value); }
      return Success;
    }

    /** The body that checkSpace repeats for its three lists: Stat, and Mkdir what
        does not exist, giving up at the first refusal. */
    method MakeMissing(dirs: seq<Path>) returns (completed: bool)
      requires Valid()
      modifies this`tree
      ensures Valid()
      ensures tree == EnsureDirs(old(tree), dirs) && completed == Completes(old(tree), dirs)
    {
      EnsureDirsOnlyAdds(tree, dirs);
      for i := 0 to |dirs|
        invariant EnsureDirs(tree, dirs[i..]) == EnsureDirs(old(tree), dirs)
        invariant Completes(tree, dirs[i..]) == Completes(old(tree), dirs)
      {
        assert dirs[i..][1..] == dirs[i + 1..];
        var stat := StatAt(tree, dirs[i]);
        if stat == Failed(NotExist) {
          var made := Mkdir(tree, dirs[i]);
          if made.Refused? { return false; }
          tree := made.tree;
        }
      }
      return true;
    }

    /** One pass of checkSpace over the query results for users and accounts. */
    method CheckSpace(cfg: Routing.Config, users: Option<seq<string>>, accounts: Option<seq<string>>)
      requires Valid()
      modifies this`tree
      ensures Valid()
      ensures tree == EnsureDirs(old(tree), Provisioned(cfg, users, accounts))
    {
      EnsureDirsConcat(tree, BaseDirs(cfg), SpacesToMake(cfg, users, accounts));
      var completed := MakeMissing(BaseDirs(cfg));
      if !completed { return; }
      if users.None? || accounts.None? { return; }
      EnsureDirsConcat(tree, SpaceDirs(cfg.userPrefix, users.value), SpaceDirs(cfg.accountPrefix, accounts.value));
      completed := MakeMissing(SpaceDirs(cfg.userPrefix, users.value));
      if !completed { return; }
      completed := MakeMissing(SpaceDirs(cfg.accountPrefix, accounts.value));
    }
  }
}
