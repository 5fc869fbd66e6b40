/** Imports after a whole run of refactor_filenames.py, in which files and folders get
    new names: exactly which imports of a file lead to where the file now is. */
module RefactorImports {
  import opened Options
  import opened PathNames
  import opened FileTree
  import opened PyStrings
  import opened Kebab
  import opened TreeRename
  import opened ImportScan
  import opened ImportRewrite
  import opened SourceImports
  import opened RefactorRun

  /** Names are as a file system has them, and renamed ones hold no quotes. */
  ghost predicate PlainNames(t: Tree, ignores: seq<string>) {
    && (forall p :: p in t && p != [] ==> Ordinary(Last(p)))
    && (forall p :: p in t && Wanted(t, ignores, p) ==> QuoteFree(Last(p)))
  }

  // Where a walk over the parts of a path leads from another start.

  /** How many components of its start a walk keeps, and what it adds to them. */
  function Walked(kept: nat, tail: Path, parts: seq<string>): (nat, Path)
    decreases |parts|
  {
    if parts == [] then (kept, tail)
    else
      var c, rest := parts[0], parts[1..];
      if c == "" || c == "." then Walked(kept, tail, rest)
      else if c != Up then Walked(kept, tail + [c], rest)
      else if tail != [] then Walked(kept, tail[..|tail| - 1], rest)
      else Walked(if kept > 0 then kept - 1 else 0, [], rest)
  }

  lemma {:induction false} WalkedIsReduce(start: Path, kept: nat, tail: Path, parts: seq<string>)
    requires kept <= |start| && Up !in start && Up !in tail
    ensures var (k, added) := Walked(kept, tail, parts);
      k <= kept && Reduce(start[..kept] + tail, parts, true) == start[..k] + added
    decreases |parts|
  {
    if parts != [] {
      var c, rest, stack := parts[0], parts[1..], start[..kept] + tail;
      assert Reduce(stack, parts, true) == Reduce(Push(stack, c, true), rest, true);
      if c == "" || c == "." {
        WalkedIsReduce(start, kept, tail, rest);
      } else if c != Up {
        assert stack + [c] == start[..kept] + (tail + [c]);
        WalkedIsReduce(start, kept, tail + [c], rest);
      } else if tail != [] {
        assert stack[|stack| - 1] == tail[|tail| - 1] && tail[|tail| - 1] in tail;
        assert stack[..|stack| - 1] == start[..kept] + tail[..|tail| - 1];
        WalkedIsReduce(start, kept, tail[..|tail| - 1], rest);
      } else if kept > 0 {
        assert stack == start[..kept] && stack[kept - 1] == start[kept - 1] && start[kept - 1] in start;
        assert stack[..kept - 1] == start[..kept - 1] + [];
        WalkedIsReduce(start, kept - 1, [], rest);
      } else {
        assert stack == [];
        WalkedIsReduce(start, 0, [], rest);
      }
    }
  }

  /** How many folders below the root an import path takes from where it is written, not
      by their names. An alias path takes none. */
  function Taken(root: Path, folder: Path, parts: seq<string>): nat
    requires parts != []
  {
    if IsAlias(parts) then 0
    else
      var (kept, _) := Walked(|root| + |folder|, [], parts[..|parts| - 1]);
      if kept >= |root| then kept - |root| else 0
  }

  // Places after the run.

  lemma PlaceOfChild(t: Tree, ignores: seq<string>, p: Path)
    requires p in t && p != []
    ensures FinalPlace(t, ignores, p) != []
    ensures Parent(FinalPlace(t, ignores, p)) == FinalPlace(t, ignores, Parent(p))
    ensures Last(FinalPlace(t, ignores, p)) == if Wanted(t, ignores, p) then NewName(t, p) else Last(p)
  {
    hide Wanted, NewName;
  }

  lemma NoClimbingName(t: Tree, ignores: seq<string>, p: Path)
    requires PlainNames(t, ignores) && p in t && p != []
    ensures Last(FinalPlace(t, ignores, p)) != Up
  {
    hide WantedPaths, PlaceAt, ToKebab, KebabFile, Ignored;
    PlaceOfChild(t, ignores, p);
    if Wanted(t, ignores, p) {
      assert p == Parent(p) + [Last(p)];
      StemOfName(t, p);
      UpIsWhole();
    }
  }

  lemma UpIsWhole()
    ensures BaseName(Up) == Up
  {
    assert Up[..2] == Up;
  }

  /** No place has "..". */
  lemma {:induction false} NoClimbing(t: Tree, ignores: seq<string>, p: Path)
    requires WellFormed(t) && PlainNames(t, ignores) && p in t
    ensures Up !in p && Up !in FinalPlace(t, ignores, p)
    decreases |p|
  {
    hide Wanted, NewName;
    if p != [] {
      NoClimbing(t, ignores, Parent(p));
      NoClimbingName(t, ignores, p);
      PlaceOfChild(t, ignores, p);
      var q := FinalPlace(t, ignores, p);
      assert p == Parent(p) + [Last(p)] && q == Parent(q) + [Last(q)];
    } else {
      assert FinalPlace(t, ignores, p) == [];
    }
  }

  /** The folders that a path names keep their names: those of the imported file's folder
      that the path does not take from where it is written. */
  predicate FoldersKeep(t: Tree, ignores: seq<string>, root: Path, importer: Path, path: string, folder: Path) {
    var k := Taken(root, Parent(importer), Split(path));
    k <= |folder| && FinalPlace(t, ignores, folder)[k..] == folder[k..]
  }

  /** Read from the importer's final place, a path's folder is the final place of the
      folder it named exactly when the folders that it names keep their names. */
  lemma FolderAfterRun(t: Tree, ignores: seq<string>, root: Path, importer: Path, path: string, folder: Path)
    requires WellFormed(t) && PlainNames(t, ignores) && Up !in root
    requires importer in t && importer != [] && folder in t
    requires IsAlias(Split(path)) || IsRelative(Split(path))
    requires Folder(root, root + importer, Split(path)) == root + folder
    ensures Folder(root, root + FinalPlace(t, ignores, importer), Split(path)) == root + FinalPlace(t, ignores, folder)
       <==> FoldersKeep(t, ignores, root, importer, path, folder)
  {
    hide *;
    var parts, here := Split(path), FinalPlace(t, ignores, importer);
    var a, b := Parent(importer), FinalPlace(t, ignores, folder);
    PlaceOfChild(t, ignores, importer);
    SameLength(t, ignores, folder);
    KeepByTaken(t, ignores, root, importer, path, folder);
    if IsAlias(parts) {
      AliasFolder(root, root + importer, root + here, parts);
      SameBelowRoot(root, folder, b);
    } else {
      var front, a' := parts[..|parts| - 1], FinalPlace(t, ignores, a);
      var (kept, added) := Walked(|root| + |a|, [], front);
      BelowRoot(root, importer);
      BelowRoot(root, here);
      RelativeFolder(root, root + importer, parts);
      RelativeFolder(root, root + here, parts);
      SameLength(t, ignores, a);
      ParentInTree(t, importer);
      NoClimbing(t, ignores, a);
      WalkFrom(root + a, front);
      WalkFrom(root + a', front);
      FolderByWalk(t, ignores, root, a, folder, kept, added);
    }
  }

  lemma KeepByTaken(t: Tree, ignores: seq<string>, root: Path, importer: Path, path: string, folder: Path)
    ensures var parts, a := Split(path), Parent(importer);
      var (kept, _) := Walked(|root| + |a|, [], parts[..|parts| - 1]);
      var k := if IsAlias(parts) then 0 else if kept >= |root| then kept - |root| else 0;
      FoldersKeep(t, ignores, root, importer, path, folder) <==>
        k <= |folder| && FinalPlace(t, ignores, folder)[k..] == folder[k..]
    ensures |FinalPlace(t, ignores, folder)| == |folder|
  {
    hide FinalPlace, Walked, Split, IsAlias, Parent;
    SameLength(t, ignores, folder);
  }

  lemma AliasFolder(root: Path, file: Path, other: Path, parts: seq<string>)
    requires IsAlias(parts)
    ensures Folder(root, file, parts) == Folder(root, other, parts)
  {}

  lemma RelativeFolder(root: Path, file: Path, parts: seq<string>)
    requires IsRelative(parts) && !IsAlias(parts)
    ensures parts != [] && Folder(root, file, parts) == Reduce(Parent(file), parts[..|parts| - 1], true)
  {}

  lemma ParentInTree(t: Tree, p: Path)
    requires WellFormed(t) && p in t && p != []
    ensures Parent(p) in t
  {}

  lemma SameLength(t: Tree, ignores: seq<string>, p: Path)
    ensures |FinalPlace(t, ignores, p)| == |p|
  {
    hide PlaceAt;
  }

  lemma SameBelowRoot(root: Path, a: Path, b: Path)
    ensures root + a == root + b <==> a == b
    ensures a[0..] == a && b[0..] == b
  {
    assert (root + a)[|root|..] == a && (root + b)[|root|..] == b;
  }

  lemma WalkFrom(start: Path, parts: seq<string>)
    requires Up !in start
    ensures var (kept, added) := Walked(|start|, [], parts);
      kept <= |start| && Reduce(start, parts, true) == start[..kept] + added
  {
    hide Walked, Reduce;
    WalkedIsReduce(start, |start|, [], parts);
    assert start[..|start|] + [] == start;
  }

  /** The same walk from a folder and from its final place. */
  lemma FolderByWalk(t: Tree, ignores: seq<string>, root: Path, a: Path, folder: Path, kept: nat, added: Path)
    requires kept <= |root| + |a| && (root + a)[..kept] + added == root + folder
    ensures var k := if kept >= |root| then kept - |root| else 0;
      var a', b := FinalPlace(t, ignores, a), FinalPlace(t, ignores, folder);
      && |a'| == |a| && |b| == |folder| && k <= |folder|
      && ((root + a')[..kept] + added == root + b <==> b[k..] == folder[k..])
  {
    hide PlaceAt, WantedPaths;
    var a', b := FinalPlace(t, ignores, a), FinalPlace(t, ignores, folder);
    var k := if kept >= |root| then kept - |root| else 0;
    if kept >= |root| {
      TakenFolders(root, a, kept, added);
      SameBelowRoot(root, a[..k] + added, folder);
      assert a[..k] == folder[..k] && added == folder[k..];
      PlacePrefix(t, WantedPaths(t, ignores), a, k);
      PlacePrefix(t, WantedPaths(t, ignores), folder, k);
      TakenFolders(root, a', kept, added);
      SameBelowRoot(root, a'[..k] + added, b);
      assert a'[..k] == b[..k] && b == b[..k] + b[k..];
      assert a'[..k] + added == b <==> added == b[k..] by {
        assert (a'[..k] + added)[k..] == added;
      }
    } else {
      assert (root + a)[..kept] == root[..kept] == (root + a')[..kept];
      SameBelowRoot(root, folder, b);
    }
  }

  lemma TakenFolders(root: Path, a: Path, kept: nat, added: Path)
    requires |root| <= kept <= |root| + |a|
    ensures (root + a)[..kept] + added == root + (a[..kept - |root|] + added)
  {
    assert (root + a)[..kept] == root + a[..kept - |root|];
  }

  lemma BelowRoot(root: Path, p: Path)
    requires p != []
    ensures Parent(root + p) == root + Parent(p)
  {}

  lemma SourceIsUpdated(t: Tree, lookup: map<Path, Path>, root: Path, p: Path, content: string)
    requires p in t && t[p] == File(content)
    requires p != [] && exists stem :: Last(p) == stem + ".tsx" || Last(p) == stem + ".ts"
    ensures Updated(t, lookup, root, p) == File(RewriteText(content, lookup, root, root + p))
  {
    hide RewriteText, EndsIn;
    EndsInSuffix(Last(p), ".tsx");
    EndsInSuffix(Last(p), ".ts");
  }

  lemma RenamableIsWellFormed(t: Tree, ignores: seq<string>)
    requires Renamable(t, ignores)
    ensures WellFormed(t)
  {}

  lemma InPlan(t: Tree, ignores: seq<string>, plan: seq<Renaming>, p: Path) returns (i: nat)
    requires IsPlan(t, ignores, PathsBelow(t, []), plan) && p in t && Wanted(t, ignores, p)
    ensures p != [] && i < |plan| && plan[i] == Renaming(p, Target(t, p))
  {
    i :| 0 <= i < |plan| && plan[i].source == p;
  }

  lemma PlanIsPlain(t: Tree, ignores: seq<string>, plan: seq<Renaming>)
    requires PlainNames(t, ignores) && IsPlan(t, ignores, PathsBelow(t, []), plan)
    ensures PlainPlan(t, ignores, plan)
  {
    hide Wanted, Target;
    forall i | 0 <= i < |plan| ensures plan[i].source in t && plan[i].source != [] {
      WantedInTree(t, ignores, plan[i].source);
    }
  }

  lemma WantedInTree(t: Tree, ignores: seq<string>, p: Path)
    requires Wanted(t, ignores, p)
    ensures p in t && p != []
  {}

  /** What the lookup makes of the stem of a file that gets a new name: the stem of its
      final name. The lookup may know the stem of a file that keeps its name from another. */
  lemma NewStemOfImported(t: Tree, ignores: seq<string>, plan: seq<Renaming>, root: Path, p: Path)
    requires PlainPlan(t, ignores, plan) && IsPlan(t, ignores, PathsBelow(t, []), plan)
    requires p in t && p != []
    ensures var lookup, k := Lookup(root, plan), Stem(root + p);
      && k != [] && Last(k) == BaseName(Last(p)) && Parent(k) == root + Parent(p)
      && (k in lookup ==> lookup[k] != [] && IsStemRenaming(k, lookup[k]))
      && (Wanted(t, ignores, p) ==> k in lookup)
      && BaseName(Last(FinalPlace(t, ignores, p))) == if Wanted(t, ignores, p) then Last(lookup[k]) else Last(k)
  {
    hide Wanted, IsPlan, PlainPlan, WantedPaths, PlaceAt, NewName, BaseName, IsStemRenaming, Lookup;
    PlaceOfChild(t, ignores, p);
    StemBelow(root, p);
    LookupOfPlan(t, ignores, plan, root);
    NewStemsNotEmpty(Lookup(root, plan));
    if Wanted(t, ignores, p) {
      var i := InPlan(t, ignores, plan, p);
      assert Target(t, p) == Parent(p) + [NewName(t, p)];
      StemBelow(root, Target(t, p));
    }
  }

  lemma NewStemsNotEmpty(lookup: map<Path, Path>)
    requires GoodLookup(lookup)
    ensures forall k :: k in lookup ==> lookup[k] != [] && IsStemRenaming(k, lookup[k])
  {}

  lemma StemBelow(root: Path, p: Path)
    requires p != []
    ensures Stem(root + p) == root + Parent(p) + [BaseName(Last(p))]
    ensures Stem(root + p) != [] && Last(Stem(root + p)) == BaseName(Last(p))
    ensures Parent(Stem(root + p)) == root + Parent(p)
  {
    hide BaseName;
    assert Parent(root + p) == root + Parent(p);
  }

  /** Where an import path of ordinary last part leads with that part replaced. */
  lemma ResolvedWith(root: Path, file: Path, path: string, name: string)
    requires ResolveImport(root, file, path).Some? && Ordinary(LastPart(path)) && Ordinary(name)
    requires "." <= LastPart(path) ==> "." <= name
    ensures IsAlias(Split(path)) || IsRelative(Split(path))
    ensures forall other ::
              ResolveImport(root, other, WithLastPart(path, name)) == Some(Folder(root, other, Split(path)) + [name])
  {
    hide Reduce, Folder, ResolveImport;
    ResolveIsByParts(root, file, path);
    forall other
      ensures ResolveImport(root, other, WithLastPart(path, name)) == Some(Folder(root, other, Split(path)) + [name])
    {
      ResolveIsByParts(root, other, WithLastPart(path, name));
      PartsOfRewritten(path, name);
      SameFolder(root, other, Split(path), name);
    }
  }

  lemma WithOwnLast(path: string, name: string)
    requires Ordinary(name)
    ensures WithLastPart(path, LastPart(path)) == path
    ensures WithLastPart(path, name) == path <==> name == LastPart(path)
  {
    JoinOfSplit(path);
    PartsOfRewritten(path, name);
    assert Split(path)[..|Split(path)| - 1] + [LastPart(path)] == Split(path);
  }

  /** Main result for the imports. After a run in which files and folders get new names,
      take an import that named a file, as the language has imports: it is still one in
      the importer's text, and from where the importer now is, it leads to where the file
      now is if and only if the folders that it names keep their names and its path, where
      the lookup changes it, is rewritten, which is decided by how it is written, just if
      the file was renamed. A file that was not may share its stem with one that was. */
  lemma ImportsAfterRun(t: Tree, ignores: seq<string>, plan: seq<Renaming>, root: Path,
                        importer: Path, f: SourceFile, i: nat, imported: Path)
    requires Renamable(t, ignores) && PlainNames(t, ignores) && Up !in root
    requires IsPlan(t, ignores, PathsBelow(t, []), plan)
    requires importer in t && t[importer] == File(Render(f)) && imported in t && imported != []
    requires importer != [] && exists stem :: Last(importer) == stem + ".tsx" || Last(importer) == stem + ".ts"
    requires WellQuoted(f) && NothingStrays(f) && CodeIsNoImport(f, Lookup(root, plan), root, root + importer)
    requires i < |f.segments| && IsModuleImport(f, i) && Ordinary(LastPart(f.segments[i].body))
    requires ResolveImport(root, root + importer, f.segments[i].body) == Some(Stem(root + imported))
    ensures var lookup, path := Lookup(root, plan), f.segments[i].body;
      var now, f' := RefactorBy(t, root, plan).tree, RewriteFile(f, lookup, root, root + importer);
      var here, there := FinalPlace(t, ignores, importer), FinalPlace(t, ignores, imported);
      && here in now && now[here] == File(Render(f')) && WellQuoted(f') && IsModuleImport(f', i)
      && there in now && now[there] == Updated(t, lookup, root, imported)
      && (ResolveImport(root, root + here, f'.segments[i].body) == Some(Stem(root + there)) <==>
            && (RewritePath(lookup, root, root + importer, path) == path
                || (LikeImport(f, |f.segments|, f.segments[i]) <==> Wanted(t, ignores, imported)))
            && FoldersKeep(t, ignores, root, importer, path, Parent(imported)))
  {
    hide *;
    var lookup, path, file := Lookup(root, plan), f.segments[i].body, root + importer;
    var here, there := FinalPlace(t, ignores, importer), FinalPlace(t, ignores, imported);
    RenamableIsWellFormed(t, ignores);
    SourceIsUpdated(t, lookup, root, importer, Render(f));
    RunReachesKebab(t, ignores, root, plan);
    PlanIsPlain(t, ignores, plan);
    LookupOfPlan(t, ignores, plan, root);
    ImportsFollowRenames(f, lookup, root, file, i);
    ImportResolvesAfter(t, ignores, plan, root, importer, path, imported,
                        RewriteFile(f, lookup, root, file).segments[i].body);
  }

  lemma ImportResolvesAfter(t: Tree, ignores: seq<string>, plan: seq<Renaming>, root: Path,
                            importer: Path, path: string, imported: Path, after: string)
    requires WellFormed(t) && PlainNames(t, ignores) && Up !in root
    requires PlainPlan(t, ignores, plan) && IsPlan(t, ignores, PathsBelow(t, []), plan)
    requires importer in t && importer != [] && imported in t && imported != []
    requires ResolveImport(root, root + importer, path) == Some(Stem(root + imported)) && Ordinary(LastPart(path))
    requires var now := RewritePath(Lookup(root, plan), root, root + importer, path); after == now || after == path
    ensures var now := RewritePath(Lookup(root, plan), root, root + importer, path);
      var there := Stem(root + FinalPlace(t, ignores, imported));
      ResolveImport(root, root + FinalPlace(t, ignores, importer), after) == Some(there) <==>
        after == (if Wanted(t, ignores, imported) then now else path)
        && FoldersKeep(t, ignores, root, importer, path, Parent(imported))
  {
    hide *;
    var lookup, file, last := Lookup(root, plan), root + importer, LastPart(path);
    var here, there := FinalPlace(t, ignores, importer), FinalPlace(t, ignores, imported);
    var k := Stem(root + imported);
    PlaceOfChild(t, ignores, imported);
    var name := BaseName(Last(there));
    NewStemOfImported(t, ignores, plan, root, imported);
    ResolvedWith(root, file, path, last);
    WithOwnLast(path, last);
    FolderOfTarget(root, file, path, imported);
    var newLast := if k in lookup then Last(lookup[k]) else last;
    NewNameInPath(lookup, root, file, path, k, newLast);
    ResolvedWith(root, file, path, newLast);
    WithOwnLast(path, newLast);
    ParentInTree(t, imported);
    FolderAfterRun(t, ignores, root, importer, path, Parent(imported));
    StemBelow(root, there);
    var folder := Folder(root, root + here, Split(path));
    SameEnds(folder, last, root + FinalPlace(t, ignores, Parent(imported)), name);
    SameEnds(folder, newLast, root + FinalPlace(t, ignores, Parent(imported)), name);
  }

  lemma SameEnds(a: Path, x: string, b: Path, y: string)
    ensures a + [x] == b + [y] <==> a == b && x == y
  {
    assert (a + [x])[|a|] == x && (b + [y])[|b|] == y;
    assert (a + [x])[..|a|] == a && (b + [y])[..|b|] == b;
  }

  lemma FolderOfTarget(root: Path, file: Path, path: string, imported: Path)
    requires imported != [] && (IsAlias(Split(path)) || IsRelative(Split(path))) && Ordinary(LastPart(path))
    requires ResolveImport(root, file, path) == Some(Stem(root + imported))
    requires Some(Folder(root, file, Split(path)) + [LastPart(path)]) == ResolveImport(root, file, path)
    ensures Folder(root, file, Split(path)) == root + Parent(imported) && LastPart(path) == BaseName(Last(imported))
  {
    hide Folder, ResolveImport, BaseName;
    StemBelow(root, imported);
    SameEnds(Folder(root, file, Split(path)), LastPart(path), root + Parent(imported), BaseName(Last(imported)));
  }

  /** The rewritten path ends in the stem of the final name. */
  lemma NewNameInPath(lookup: map<Path, Path>, root: Path, file: Path, path: string, k: Path, name: string)
    requires ResolveImport(root, file, path) == Some(k) && Ordinary(LastPart(path))
    requires k != [] && Last(k) == LastPart(path)
    requires k in lookup ==> IsStemRenaming(k, lookup[k])
    requires name == if k in lookup then Last(lookup[k]) else Last(k)
    ensures Ordinary(name) && ("." <= LastPart(path) ==> "." <= name)
    ensures RewritePath(lookup, root, file, path) == WithLastPart(path, name)
  {
    hide ResolveImport, WithLastPart;
    WithOwnLast(path, LastPart(path));
  }

  // Runs without renamed folders.

  ghost predicate OnlyFilesWanted(t: Tree, ignores: seq<string>) {
    forall p :: p in t && Wanted(t, ignores, p) ==> t[p].File?
  }

  /** When only files get new names, every node stays in its directory. */
  lemma FilesStayInPlace(t: Tree, ignores: seq<string>, p: Path)
    requires WellFormed(t) && OnlyFilesWanted(t, ignores) && p in t
    ensures FinalPlace(t, ignores, p) == if Wanted(t, ignores, p) then Target(t, p) else p
  {
    hide *;
    var wanted := WantedPaths(t, ignores);
    if p == [] {
      RootIsNotWanted(t, ignores);
    } else {
      NoneWantedAbove(t, ignores, p);
      PlaceUntouched(t, wanted, Parent(p));
      LastPlace(t, ignores, p);
    }
  }

  lemma RootIsNotWanted(t: Tree, ignores: seq<string>)
    ensures FinalPlace(t, ignores, []) == [] && !Wanted(t, ignores, [])
  {}

  lemma LastPlace(t: Tree, ignores: seq<string>, p: Path)
    requires p in t && p != [] && PlaceAt(t, WantedPaths(t, ignores), Parent(p)) == Parent(p)
    ensures FinalPlace(t, ignores, p) == if Wanted(t, ignores, p) then Target(t, p) else p
  {
    hide NewName, Wanted, PlaceAt, WantedPaths;
    PlaceOfChild(t, ignores, p);
    var place := FinalPlace(t, ignores, p);
    assert p == Parent(p) + [Last(p)] && place == Parent(place) + [Last(place)];
  }

  lemma NoneWantedAbove(t: Tree, ignores: seq<string>, p: Path)
    requires WellFormed(t) && OnlyFilesWanted(t, ignores) && p in t && p != []
    ensures forall q :: q in WantedPaths(t, ignores) ==> !(q <= Parent(p))
  {
    hide Wanted;
    forall q | q in WantedPaths(t, ignores) ensures !(q <= Parent(p)) {
      if q <= Parent(p) { PrefixExists(t, Parent(p), q); }
    }
  }

  /** When only files get new names, every folder that an import names keeps its name. */
  lemma OnlyFilesKeepFolders(t: Tree, ignores: seq<string>, root: Path, importer: Path, path: string, folder: Path)
    requires WellFormed(t) && OnlyFilesWanted(t, ignores) && IsDir(t, folder)
    requires Taken(root, Parent(importer), Split(path)) <= |folder|
    ensures FoldersKeep(t, ignores, root, importer, path, folder)
  {
    hide Wanted, Taken;
    FilesStayInPlace(t, ignores, folder);
    FolderNotWanted(t, ignores, folder);
  }

  lemma FolderNotWanted(t: Tree, ignores: seq<string>, p: Path)
    requires OnlyFilesWanted(t, ignores) && IsDir(t, p)
    ensures !Wanted(t, ignores, p)
  {
    hide Wanted;
  }

  // A run in which a folder is renamed.

  /** Importing "./Foo/Bar" from "b.ts": the path becomes "./Foo/bar", but the file is now
      "foo/bar". */
  lemma FolderImportExample() returns (t: Tree, plan: seq<Renaming>, f: SourceFile, importer: Path, imported: Path)
    ensures Renamable(t, []) && IsPlan(t, [], PathsBelow(t, []), plan)
    ensures IsSource(t, importer) && t[importer] == File(Render(f)) && imported in t && Wanted(t, [], imported)
    ensures |f.segments| == 1 && IsModuleImport(f, 0) && LikeImport(f, 1, f.segments[0])
    ensures f.segments[0].body == "./Foo/Bar"
    ensures ResolveImport([], importer, f.segments[0].body) == Some(Stem(imported))
    ensures var f' := RewriteFile(f, Lookup([], plan), [], importer);
      var here, there := FinalPlace(t, [], importer), FinalPlace(t, [], imported);
      && RefactorBy(t, [], plan).tree.Keys >= {here, there}
      && ResolveImport([], here, f'.segments[0].body) != Some(Stem(there))
  {
    hide *;
    var root, folder: Path := [], ["Foo"];
    importer, imported := ["b.ts"], ["Foo", "Bar"];
    var literal := Segment("from ", '\'', "./Foo/Bar");
    f := SourceFile([literal], "");
    t := map[root := Dir, folder := Dir, imported := File(""), importer := File(Render(f))];
    plan := [Renaming(imported, ["Foo", "bar"]), Renaming(folder, ["foo"])];
    ExampleTree(t, root, folder, imported, importer, Render(f));
    ExamplePlan(t, folder, imported, importer, plan);
    ExampleFile(f, literal);
    ExamplePathTo(importer, folder, imported);
    SourceName();
    PlainCode(f, Lookup(root, plan), root, root + importer);
    ExampleFolderMoves(t, folder, imported, importer);
    assert root + importer == importer && root + imported == imported;
    assert Parent(imported) == folder by { ParentOfTwo(imported, folder); }
    ImportsAfterRun(t, [], plan, root, importer, f, 0, imported);
    var there := FinalPlace(t, [], imported);
    assert root + FinalPlace(t, [], importer) == FinalPlace(t, [], importer) && root + there == there;
  }

  lemma ParentOfTwo(p: Path, q: Path)
    requires |p| == 2 && q == [p[0]]
    ensures Parent(p) == q
  {}

  lemma ExampleTree(t: Tree, root: Path, folder: Path, imported: Path, importer: Path, text: string)
    requires root == [] && folder == ["Foo"] && imported == ["Foo", "Bar"] && importer == ["b.ts"]
    requires t == map[root := Dir, folder := Dir, imported := File(""), importer := File(text)]
    ensures WellFormed(t) && PlainNames(t, []) && Renamable(t, []) && IsSource(t, importer)
    ensures Wanted(t, [], imported) && Wanted(t, [], folder) && !Wanted(t, [], importer)
    ensures Target(t, imported) == ["Foo", "bar"] && Target(t, folder) == ["foo"]
  {
    hide *;
    ExampleNames();
    ExampleShape(t, root, folder, imported, importer, text);
    ExampleWanted(t, folder, imported, importer);
    ExampleRenamable(t, folder, imported, importer);
  }

  lemma ExampleShape(t: Tree, root: Path, folder: Path, imported: Path, importer: Path, text: string)
    requires root == [] && folder == ["Foo"] && imported == ["Foo", "Bar"] && importer == ["b.ts"]
    requires t == map[root := Dir, folder := Dir, imported := File(""), importer := File(text)]
    ensures WellFormed(t) && IsSource(t, importer) && IsDir(t, folder) && imported in t && t[imported].File?
    ensures Parent(folder) == [] && Parent(imported) == folder && Parent(importer) == []
    ensures forall p :: p in t && p != [] ==> p == folder || p == imported || p == importer
  {
    SourceName();
    assert Parent(folder) == root && Parent(imported) == folder && Parent(importer) == root;
  }

  lemma ExampleWanted(t: Tree, folder: Path, imported: Path, importer: Path)
    requires folder == ["Foo"] && imported == ["Foo", "Bar"] && importer == ["b.ts"]
    requires IsDir(t, folder) && imported in t && t[imported].File? && importer in t
    requires Parent(folder) == [] && Parent(imported) == folder
    requires ToKebab("Foo") == "foo" && KebabFile("Bar") == "bar" && !HasUpper("b.ts")
    ensures Wanted(t, [], imported) && Wanted(t, [], folder) && !Wanted(t, [], importer)
    ensures Target(t, imported) == ["Foo", "bar"] && Target(t, folder) == ["foo"]
    ensures NewName(t, imported) == "bar" && NewName(t, folder) == "foo"
  {
    hide ToKebab, KebabFile, HasUpper;
    UpperNames();
    assert Target(t, folder)[0] == "foo" && "foo"[0] == 'f' && "Foo"[0] == 'F';
    assert Target(t, imported)[1] == "bar" && "bar"[0] == 'b' && "Bar"[0] == 'B';
  }

  lemma ExampleRenamable(t: Tree, folder: Path, imported: Path, importer: Path)
    requires folder == ["Foo"] && imported == ["Foo", "Bar"] && importer == ["b.ts"]
    requires WellFormed(t) && IsDir(t, folder) && imported in t && t[imported].File? && importer in t
    requires Parent(folder) == [] && Parent(imported) == folder && Parent(importer) == []
    requires forall p :: p in t && p != [] ==> p == folder || p == imported || p == importer
    requires !HasUpper(Extension("Bar")) && !HasUpper(Extension("b.ts"))
    requires QuoteFree("Foo") && QuoteFree("Bar") && Ordinary("Foo") && Ordinary("Bar") && Ordinary("b.ts")
    requires NewName(t, folder) == "foo" && Wanted(t, [], folder) && !Wanted(t, [], importer)
    ensures PlainNames(t, []) && Renamable(t, [])
  {
    hide Wanted, NewName, HasUpper, Extension, Ordinary, QuoteFree, WellFormed;
    assert "foo"[1] != "b.ts"[1];
  }

  lemma UpperNames()
    ensures HasUpper("Foo") && HasUpper("Bar")
  {
    assert IsUpper("Foo"[0]) && IsUpper("Bar"[0]);
  }

  lemma SourceName()
    ensures EndsIn("b.ts", ".ts") && Last(["b.ts"]) == "b" + ".ts"
  {
    assert "b.ts"[1..] == ".ts";
  }

  /** A capital letter is lowered; nothing else changes. */
  lemma KebabOfCapital(name: string)
    requires name != "" && !HasUpper(name[1..]) && |name| != 6
    ensures ToKebab(name) == [ToLower(name[0])] + name[1..]
  {
    assert |Upper(name)| != |"README"|;
    KebabIsSpread(name);
    SpreadFixesLower(name[1..]);
  }

  lemma ExampleNames()
    ensures ToKebab("Foo") == "foo" && KebabFile("Bar") == "bar"
    ensures !HasUpper("b.ts") && !HasUpper(Extension("Bar")) && !HasUpper(Extension("b.ts"))
    ensures QuoteFree("Foo") && QuoteFree("Bar") && Ordinary("Foo") && Ordinary("Bar") && Ordinary("b.ts")
  {
    hide ToKebab, Cut, HasUpper;
    LowerTails();
    KebabOfCapital("Foo");
    KebabOfCapital("Bar");
    NoDotNoCut("Bar");
    ExtensionIsLower("b.ts");
    assert "bar" + "" == "bar" && ['b'] + "ar" == "bar" && ['f'] + "oo" == "foo";
    assert "Foo"[1..] == "oo" && "Bar"[1..] == "ar";
  }

  lemma LowerTails()
    ensures !HasUpper("oo") && !HasUpper("ar") && !HasUpper("") && !HasUpper("b.ts")
  {}

  lemma NoDotNoCut(name: string)
    requires '.' !in name
    ensures Cut(name) == |name| && Extension(name) == "" && BaseName(name) == name
  {}

  lemma ExtensionIsLower(name: string)
    requires !HasUpper(name)
    ensures !HasUpper(Extension(name))
  {
    var e := Extension(name);
    assert forall i :: 0 <= i < |e| ==> e[i] == name[Cut(name) + i];
  }

  lemma ExamplePlan(t: Tree, folder: Path, imported: Path, importer: Path, plan: seq<Renaming>)
    requires folder == ["Foo"] && imported == ["Foo", "Bar"] && importer == ["b.ts"]
    requires forall p :: p in t <==> p == [] || p == folder || p == imported || p == importer
    requires plan == [Renaming(imported, ["Foo", "bar"]), Renaming(folder, ["foo"])]
    requires Wanted(t, [], imported) && Wanted(t, [], folder) && !Wanted(t, [], importer)
    requires Target(t, imported) == ["Foo", "bar"] && Target(t, folder) == ["foo"]
    ensures IsPlan(t, [], PathsBelow(t, []), plan)
  {
    hide Wanted, Target;
    WantedInTree(t, [], folder);
    WantedInTree(t, [], imported);
    assert plan[0].source == imported && plan[1].source == folder;
    forall p | p in PathsBelow(t, []) && Wanted(t, [], p) ensures exists i :: 0 <= i < |plan| && plan[i].source == p {
      assert p == folder || p == imported;
    }
  }

  lemma ExampleFile(f: SourceFile, s: Segment)
    requires f == SourceFile([s], "") && s == Segment("from ", '\'', "./Foo/Bar")
    ensures WellQuoted(f) && NothingStrays(f)
    ensures IsModuleImport(f, 0) && IsImport(f, 0) && LikeImport(f, 1, f.segments[0])
    ensures forall i :: 0 <= i <= |f.segments| ==> IsPlain(CodeAt(f, i))
  {
    hide *;
    FolderExampleQuotes();
    FromIsImport(f, s);
    OneImportStrays(f, s);
  }

  lemma FolderExampleQuotes()
    ensures IsQuote('\'') && QuoteFree("from ") && QuoteFree("./Foo/Bar")
  {}

  lemma FromIsImport(f: SourceFile, s: Segment)
    requires f == SourceFile([s], "") && s == Segment("from ", '\'', "./Foo/Bar")
    ensures IsModuleImport(f, 0) && IsImport(f, 0) && LikeImport(f, 1, f.segments[0])
  {
    hide RStrip;
    assert EndsWithFrom("from ") by {
      assert "from "[0..] == "from " && "from "[4..] == " " && FromAndSpace("from "[0..]);
    }
    StripsTo("from", " ");
    assert "from" + " " == s.code && EndsInWord("from", "from");
  }

  lemma OneImportStrays(f: SourceFile, s: Segment)
    requires f == SourceFile([s], "") && s.code == "from " && QuoteFree(s.code) && IsImport(f, 0)
    requires IsQuote(s.quote) && QuoteFree(s.body)
    ensures WellQuoted(f) && NothingStrays(f)
    ensures forall i :: 0 <= i <= |f.segments| ==> IsPlain(CodeAt(f, i))
  {
    hide Strays, RestAt, TextFrom, IsImport, RunLength;
    WholeRun(s.code);
    WholeRun("");
    RunByRun(s.code, RestAt(f, 0));
    RunByRun("", RestAt(f, 1));
  }

  lemma ExamplePathTo(importer: Path, folder: Path, imported: Path)
    requires importer == ["b.ts"] && folder == ["Foo"] && imported == ["Foo", "Bar"]
    ensures ResolveImport([], importer, "./Foo/Bar") == Some(Stem(imported))
    ensures Ordinary(LastPart("./Foo/Bar")) && Split("./Foo/Bar") == [".", "Foo", "Bar"]
  {
    hide Split, Reduce;
    DottedParts("Foo", "Bar");
    assert "./" + "Foo" + "/" + "Bar" == "./Foo/Bar";
    DottedReduces("Foo", "Bar");
    assert "./Foo/Bar"[0] == '.' && Parent(importer) == [];
    assert Cut("Bar") == 3 && "Bar"[..3] == "Bar";
    assert Parent(imported) == folder && ["Foo"] + ["Bar"] == imported;
  }

  lemma ExampleFolderMoves(t: Tree, folder: Path, imported: Path, importer: Path)
    requires folder == ["Foo"] && importer == ["b.ts"] && folder in t
    requires Wanted(t, [], folder) && Target(t, folder) == ["foo"]
    requires Split("./Foo/Bar") == [".", "Foo", "Bar"]
    ensures !FoldersKeep(t, [], [], importer, "./Foo/Bar", folder)
  {
    hide Wanted, NewName;
    assert Parent(importer) == [] && Parent(folder) == [];
    PlaceOfChild(t, [], folder);
    assert Target(t, folder) == [] + [NewName(t, folder)];
    var parts := [".", "Foo", "Bar"];
    assert parts[..2] == [".", "Foo"] && [".", "Foo"][1..] == ["Foo"] && ["Foo"][1..] == [];
    assert Walked(0, [], [".", "Foo"]) == Walked(0, [], ["Foo"]) == Walked(0, [] + ["Foo"], []);
    assert FinalPlace(t, [], folder)[0..] == FinalPlace(t, [], folder) && folder[0..] == folder;
    assert Last(FinalPlace(t, [], folder)) == "foo" && Last(folder) == "Foo" && "foo"[0] != "Foo"[0];
  }
}
