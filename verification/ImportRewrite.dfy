/** update_file_imports, path by path: the lookup of renamed paths, what an import path
    resolves to, and its rewriting. Paths are component lists below the file system's
    root. */
module ImportRewrite {
  import opened Options
  import opened PathNames
  import opened FileTree
  import opened PyStrings
  import opened Kebab
  import opened KebabStems
  import opened TreeRename

  // The lookup of renamed paths, without extensions.

  /** os.path.splitext on a path, first part */
  function Stem(p: Path): Path {
    if p == [] then [] else Parent(p) + [BaseName(Last(p))]
  }

  function LookupFrom(m: map<Path, Path>, root: Path, plan: seq<Renaming>): map<Path, Path>
    decreases |plan|
  {
    if plan == [] then m
    else LookupFrom(m[Stem(root + plan[0].source) := Stem(root + plan[0].target)], root, plan[1..])
  }

  /** old_to_new_lookup */
  function Lookup(root: Path, plan: seq<Renaming>): map<Path, Path> { LookupFrom(map[], root, plan) }

  /** A new stem, in the same directory, is an ordinary component without upper-case
      letters; the old one has one, unless only what was cut off it changed. */
  predicate IsStemRenaming(k: Path, v: Path) {
    && k != [] && (HasUpper(Last(k)) || v == k)
    && v != [] && Parent(v) == Parent(k)
    && Ordinary(Last(v)) && !HasUpper(Last(v)) && QuoteFree(Last(v))
    && ("." <= Last(k) ==> "." <= Last(v))
  }

  predicate GoodLookup(lookup: map<Path, Path>) {
    forall k :: k in lookup ==> IsStemRenaming(k, lookup[k])
  }

  // Resolving and rewriting one import path.

  /** os.path.abspath(os.path.join(base, s)) */
  function Joined(base: Path, s: string): Path {
    Reduce(if s != "" && s[0] == '/' then [] else base, Split(s), true)
  }

  /** What an import path names, without extension; None for a library. */
  function ResolveImport(root: Path, file: Path, path: string): Option<Path> {
    if "@/" <= path then Some(Joined(root, path[2..]))
    else if "." <= path then Some(Joined(Parent(file), path))
    else None
  }

  /** path_parts[-1] = name, joined again */
  function WithLastPart(path: string, name: string): string {
    var parts := Split(path);
    Join(parts[..|parts| - 1] + [name])
  }

  function RewritePath(lookup: map<Path, Path>, root: Path, file: Path, path: string): string {
    var target := ResolveImport(root, file, path);
    if target.Some? && target.value in lookup then WithLastPart(path, PathName(lookup[target.value])) else path
  }

  /** os.path.basename */
  function PathName(p: Path): string { if p == [] then "" else Last(p) }

  /** Where the usual forms of import paths lead: "@/" below the root, "./" below the
      importer's directory, "../" below that directory's parent, and all else nowhere. */
  lemma UsualPathsLead(root: Path, file: Path, names: seq<string>)
    requires names != [] && (forall c :: c in names ==> Ordinary(c)) && Up !in file
    ensures ResolveImport(root, file, "@/" + Join(names)) == Some(root + names)
    ensures file != [] ==> ResolveImport(root, file, "./" + Join(names)) == Some(file[..|file| - 1] + names)
    ensures |file| > 1 ==> ResolveImport(root, file, "../" + Join(names)) == Some(file[..|file| - 2] + names)
    ensures Join(names)[0] != '@' && Join(names)[0] != '.' ==> ResolveImport(root, file, Join(names)) == None
  {
    hide Join, ResolveImport;
    OrdinaryNameIsClean(names);
    AliasPathLeads(root, file, names);
    if file != [] { DotPathLeads(root, file, names); }
    if |file| > 1 { UpPathLeads(root, file, names); }
    LibraryLeadsNowhere(root, file, Join(names));
  }

  lemma LibraryLeadsNowhere(root: Path, file: Path, path: string)
    ensures path != "" && path[0] != '@' && path[0] != '.' ==> ResolveImport(root, file, path) == None
  {}

  lemma AliasPathLeads(root: Path, file: Path, names: seq<string>)
    requires names != [] && forall c :: c in names ==> Ordinary(c)
    ensures ResolveImport(root, file, "@/" + Join(names)) == Some(root + names)
  {
    hide Push;
    OrdinaryNameIsClean(names);
    ReduceOrdinary(root, names, true);
    assert ("@/" + Join(names))[2..] == Join(names);
  }

  lemma DotPathLeads(root: Path, file: Path, names: seq<string>)
    requires names != [] && (forall c :: c in names ==> Ordinary(c)) && file != []
    ensures ResolveImport(root, file, "./" + Join(names)) == Some(file[..|file| - 1] + names)
  {
    hide Push, Reduce, Join;
    OrdinaryNameIsClean(names);
    DotParts(Parent(file), names);
    PartsAfter(".", Join(names));
    assert "." + "/" + Join(names) == "./" + Join(names);
  }

  lemma UpPathLeads(root: Path, file: Path, names: seq<string>)
    requires names != [] && (forall c :: c in names ==> Ordinary(c)) && |file| > 1 && Up !in file
    ensures ResolveImport(root, file, "../" + Join(names)) == Some(file[..|file| - 2] + names)
  {
    hide Push, Reduce, Join;
    OrdinaryNameIsClean(names);
    assert file[|file| - 2] in file;
    UpParts(Parent(file), names);
    PartsAfter("..", Join(names));
    assert ".." + "/" + Join(names) == "../" + Join(names) && Parent(Parent(file)) == file[..|file| - 2];
  }

  lemma PartsAfter(dots: string, path: string)
    requires dots == "." || dots == ".."
    ensures Split(dots + "/" + path) == [dots] + Split(path)
  {
    SplitAtSlash(dots, path);
    SplitOfName(dots);
  }

  lemma DotParts(dir: Path, names: seq<string>)
    requires forall c :: c in names ==> Ordinary(c)
    ensures Reduce(dir, ["."] + names, true) == dir + names
  {
    assert (["."] + names)[1..] == names;
    ReduceOrdinary(dir, names, true);
  }

  lemma UpParts(dir: Path, names: seq<string>)
    requires dir != [] && Last(dir) != Up && forall c :: c in names ==> Ordinary(c)
    ensures Reduce(dir, [".."] + names, true) == Parent(dir) + names
  {
    assert ([".."] + names)[1..] == names;
    ReduceOrdinary(Parent(dir), names, true);
  }

  // Resolution, part by part.

  predicate IsAlias(parts: seq<string>) { |parts| >= 2 && parts[0] == "@" }

  predicate IsRelative(parts: seq<string>) { parts != [] && "." <= parts[0] }

  /** The components that resolution starts from, and the parts it adds to them. */
  function Start(root: Path, file: Path, parts: seq<string>): (Path, seq<string>)
    requires IsAlias(parts) || IsRelative(parts)
  {
    if IsAlias(parts) then (if |parts| >= 3 && parts[1] == "" then [] else root, parts[1..])
    else (Parent(file), parts)
  }

  function ResolveParts(root: Path, file: Path, parts: seq<string>): Option<Path> {
    if IsAlias(parts) || IsRelative(parts) then
      var (base, rest) := Start(root, file, parts);
      Some(Reduce(base, rest, true))
    else None
  }

  lemma FirstPart(s: string)
    ensures s != "" && s[0] == '/' <==> |Split(s)| >= 2 && Split(s)[0] == ""
    ensures "." <= s <==> "." <= Split(s)[0]
  {}

  lemma AliasParts(path: string)
    ensures "@/" <= path <==> IsAlias(Split(path))
    ensures "@/" <= path ==> Split(path) == ["@"] + Split(path[2..])
  {
    if "@/" <= path {
      assert path == "@" + "/" + path[2..];
      SplitAtSlash("@", path[2..]);
      SplitOfName("@");
    } else if IsAlias(Split(path)) {
      JoinOfSplit(path);
    }
  }

  lemma ResolveIsByParts(root: Path, file: Path, path: string)
    ensures ResolveImport(root, file, path) == ResolveParts(root, file, Split(path))
  {
    AliasParts(path);
    FirstPart(path);
    if "@/" <= path {
      FirstPart(path[2..]);
      assert Split(path)[1..] == Split(path[2..]);
      assert Split(path)[1] == Split(path[2..])[0];
    }
  }

  /** What everything before the last part resolves to. */
  function Folder(root: Path, file: Path, parts: seq<string>): Path
    requires IsAlias(parts) || IsRelative(parts)
  {
    var (base, rest) := Start(root, file, parts);
    Reduce(base, rest[..|rest| - 1], true)
  }

  lemma ReduceLast(stack: Path, parts: seq<string>)
    requires parts != []
    ensures var n := |parts| - 1;
      Reduce(stack, parts, true) == Push(Reduce(stack, parts[..n], true), parts[n], true)
  {
    var n := |parts| - 1;
    assert parts == parts[..n] + [parts[n]];
    ReduceConcat(stack, parts[..n], [parts[n]], true);
  }

  lemma ResolvePushesLast(root: Path, file: Path, parts: seq<string>)
    requires IsAlias(parts) || IsRelative(parts)
    ensures ResolveParts(root, file, parts)
         == Some(Push(Folder(root, file, parts), parts[|parts| - 1], true))
  {
    var (base, rest) := Start(root, file, parts);
    ReduceLast(base, rest);
  }

  function WithLast(parts: seq<string>, name: string): seq<string>
    requires parts != []
  {
    parts[..|parts| - 1] + [name]
  }

  /** Parts with another last part resolve in the same folder, unless the only part
      loses its dot. */
  lemma SameFolder(root: Path, file: Path, parts: seq<string>, name: string)
    requires (IsAlias(parts) || IsRelative(parts)) && Ordinary(name)
    ensures var parts' := WithLast(parts, name);
      if |parts| > 1 || "." <= name
      then ResolveParts(root, file, parts') == Some(Folder(root, file, parts) + [name])
      else ResolveParts(root, file, parts').None?
  {
    var parts' := WithLast(parts, name);
    if |parts| > 1 || "." <= name {
      assert IsAlias(parts') == IsAlias(parts) && (IsAlias(parts) || IsRelative(parts'));
      var (base, rest) := Start(root, file, parts);
      var (base', rest') := Start(root, file, parts');
      assert base' == base && rest'[..|rest'| - 1] == rest[..|rest| - 1];
      ResolvePushesLast(root, file, parts');
    }
  }

  lemma PartsOfRewritten(path: string, name: string)
    requires NoSlash(name)
    ensures Split(WithLastPart(path, name)) == WithLast(Split(path), name)
  {
    SplitHasNoSlash(path);
    SplitOfJoin(WithLast(Split(path), name));
  }

  /** Main result for one path: an import of a renamed file resolves, after the
      rewrite, to that file's new path exactly when its last part is an ordinary
      name; a last part "", "." or ".." is replaced all the same. */
  lemma RewrittenReachesNewPath(lookup: map<Path, Path>, root: Path, file: Path, path: string)
    requires GoodLookup(lookup)
    requires ResolveImport(root, file, path).Some? && ResolveImport(root, file, path).value in lookup
    ensures var target := ResolveImport(root, file, path).value;
      var after := ResolveImport(root, file, RewritePath(lookup, root, file, path));
      after == Some(lookup[target]) <==> Ordinary(LastPart(path))
  {
    hide Folder, Push, WithLastPart, WithLast;
    var target := ResolveImport(root, file, path).value;
    var parts, last, name := Split(path), LastPart(path), Last(lookup[target]);
    assert IsStemRenaming(target, lookup[target]);
    ResolveIsByParts(root, file, path);
    ResolvePushesLast(root, file, parts);
    ResolveIsByParts(root, file, WithLastPart(path, name));
    PartsOfRewritten(path, name);
    SameFolder(root, file, parts, name);
    SplitHasNoSlash(path);
    assert last in parts;
    PushDecides(Folder(root, file, parts), last, target, lookup[target]);
  }

  /** A pushed part is the last component of the result exactly when it is ordinary. */
  lemma PushDecides(folder: Path, last: string, target: Path, moved: Path)
    requires NoSlash(last) && target == Push(folder, last, true) && target != []
    requires moved != [] && Parent(moved) == Parent(target)
    ensures moved == folder + [Last(moved)] <==> Ordinary(last)
    ensures Ordinary(last) ==> Last(target) == last
  {
    assert moved == Parent(moved) + [Last(moved)];
    if Ordinary(last) {
      assert target == folder + [last] && Parent(target) == folder;
    } else {
      assert |target| <= |folder|;
      assert |moved| < |folder + [Last(moved)]|;
    }
  }

  /** "./Foo/" names the renamed file Foo, and is rewritten to a path below it. */
  lemma RewriteMissesExample() returns (lookup: map<Path, Path>, file: Path)
    ensures GoodLookup(lookup) && lookup == map[["Foo"] := ["foo"]] && |file| == 1
    ensures ResolveImport([], file, "./Foo/") == Some(["Foo"])
    ensures RewritePath(lookup, [], file, "./Foo/") == "./Foo/foo"
    ensures ResolveImport([], file, "./Foo/foo") == Some(["Foo", "foo"])
  {
    hide Split, Join, Reduce, RewritePath, ResolveImport;
    lookup, file := map[["Foo"] := ["foo"]], ["x.ts"];
    FooIsRenamed(["Foo"], ["foo"]);
    OneIsGood(lookup, ["Foo"], ["foo"]);
    DottedFolder(lookup, file, "Foo", "foo");
    assert "./" + "Foo" + "/" == "./Foo/" && "./Foo/" + "foo" == "./Foo/foo";
  }

  lemma OneIsGood(lookup: map<Path, Path>, k: Path, v: Path)
    requires lookup == map[k := v] && IsStemRenaming(k, v)
    ensures GoodLookup(lookup)
  {
    hide IsStemRenaming;
  }

  /** A renamed file next to the root, imported as if it were a folder. */
  lemma DottedFolder(lookup: map<Path, Path>, file: Path, a: string, b: string)
    requires Ordinary(a) && Ordinary(b) && lookup == map[[a] := [b]] && |file| == 1
    ensures var path := "./" + a + "/";
      && ResolveImport([], file, path) == Some([a])
      && RewritePath(lookup, [], file, path) == path + b
      && ResolveImport([], file, path + b) == Some([a, b])
  {
    hide Split, Join, Reduce;
    var path := "./" + a + "/";
    DottedParts(a, "");
    DottedParts(a, b);
    assert path + "" == path;
    DottedReduces(a, "");
    DottedReduces(a, b);
    assert path[0] == '.' && (path + b)[0] == '.' && Parent(file) == [];
    assert [".", a, ""][..2] + [b] == [".", a, b] && [a] + [b] == [a, b];
  }

  lemma FooIsRenamed(k: Path, v: Path)
    requires k == ["Foo"] && v == ["foo"]
    ensures IsStemRenaming(k, v)
  {
    assert Parent(k) == Parent(v) && IsUpper(Last(k)[0]);
  }

  /** A renamed file next to the root, imported by its name. */
  lemma DottedName(lookup: map<Path, Path>, file: Path, a: string, b: string)
    requires Ordinary(a) && Ordinary(b) && lookup == map[[a] := [b]] && Parent(file) == []
    ensures RewritePath(lookup, [], file, "./" + a) == "./" + b
  {
    hide Split;
    assert "./" + a == "." + "/" + a;
    SplitOfName(".");
    SplitOfName(a);
    SplitAtSlash(".", a);
    assert [".", a][1..] == [a] && [a][1..] == [] && [] + [a] == [a];
    assert Reduce([], [".", a], true) == Reduce([], [a], true) == Reduce([a], [], true);
    assert [".", b][1..] == [b] && Join([b]) == b && "." + ['/'] == "./";
    assert Join([".", b]) == "./" + b;
    assert [".", a][..1] + [b] == [".", b];
  }

  lemma DottedReduces(a: string, b: string)
    requires Ordinary(a)
    ensures Reduce([], [".", a, b], true) == Push([a], b, true)
  {
    var parts := [".", a, b];
    assert parts[1..] == [a, b] && [a, b][1..] == [b] && [b][1..] == [];
    assert Reduce([], parts, true) == Reduce([], [a, b], true);
    assert Reduce([], [a, b], true) == Reduce([a], [b], true) by { assert [] + [a] == [a]; }
    assert Reduce([a], [b], true) == Reduce(Push([a], b, true), [], true);
  }

  lemma DottedParts(a: string, b: string)
    requires NoSlash(a) && NoSlash(b)
    ensures Split("./" + a + "/" + b) == [".", a, b]
    ensures Join([".", a, b]) == "./" + a + "/" + b
  {
    assert "./" + a + "/" + b == "." + "/" + a + "/" + b;
    SplitOfName(".");
    SplitOfName(a);
    SplitOfName(b);
    SplitAtSlash(".", a);
    SplitAtSlash("." + "/" + a, b);
    JoinOfSplit("./" + a + "/" + b);
  }

  /** A rewritten path is not rewritten again. */
  lemma RewritePathIdempotent(lookup: map<Path, Path>, root: Path, file: Path, path: string)
    requires GoodLookup(lookup)
    ensures var path' := RewritePath(lookup, root, file, path);
      RewritePath(lookup, root, file, path') == path'
  {
    var target := ResolveImport(root, file, path);
    if target.Some? && target.value in lookup {
      assert IsStemRenaming(target.value, lookup[target.value]);
      var name := Last(lookup[target.value]);
      ResolveIsByParts(root, file, path);
      ResolveIsByParts(root, file, WithLastPart(path, name));
      PartsOfRewritten(path, name);
      SameFolder(root, file, Split(path), name);
      var again := ResolveImport(root, file, WithLastPart(path, name));
      if again.Some? { NewStemStays(lookup, again.value); }
    }
  }

  lemma NewStemStays(lookup: map<Path, Path>, p: Path)
    requires GoodLookup(lookup) && p != [] && !HasUpper(Last(p))
    ensures p in lookup ==> lookup[p] == p
  {
    assert p in lookup ==> IsStemRenaming(p, lookup[p]);
  }

  // The lookup that a plan gives.

  /** A plan as the walk makes it, of ordinary names without quotes. */
  ghost predicate PlainPlan(t: Tree, ignores: seq<string>, plan: seq<Renaming>) {
    forall i :: 0 <= i < |plan| ==>
      && Wanted(t, ignores, plan[i].source) && plan[i].target == Target(t, plan[i].source)
      && Ordinary(Last(plan[i].source)) && QuoteFree(Last(plan[i].source))
  }

  ghost predicate IsNewStem(k: Path, v: Path) {
    k != [] && Last(k) != "" && v == Parent(k) + [SpreadName(Last(k))] && IsStemRenaming(k, v)
  }

  /** One renamed file or folder in the lookup. */
  lemma StemOfRenaming(t: Tree, ignores: seq<string>, plan: seq<Renaming>, i: nat, root: Path)
    requires PlainPlan(t, ignores, plan) && i < |plan|
    ensures IsNewStem(Stem(root + plan[i].source), Stem(root + plan[i].target))
  {
    hide BaseName, KebabFile, Extension, HasUpper, ToKebab, Ignored, SpreadName;
    var source := plan[i].source;
    var name := Last(source);
    assert Parent(source) + [name] == source;
    StemOfName(t, source);
    assert Parent(root + source) == root + Parent(source) == Parent(root + plan[i].target);
    assert Last(root + source) == name && Last(root + plan[i].target) == NewName(t, source);
  }

  lemma StemOfName(t: Tree, p: Path)
    requires p in t && p != [] && Ordinary(Last(p)) && QuoteFree(Last(p))
    requires HasUpper(Last(p)) && NewName(t, p) != Last(p)
    ensures var base := BaseName(Last(p));
      && base != "" && BaseName(NewName(t, p)) == SpreadName(base)
      && Ordinary(SpreadName(base)) && QuoteFree(SpreadName(base)) && !HasUpper(SpreadName(base))
      && ("." <= base ==> "." <= SpreadName(base))
      && (!HasUpper(base) ==> SpreadName(base) == base)
  {
    var name, base := Last(p), BaseName(Last(p));
    assert base + Extension(name) == name;
    BaseNotAllDots(name);
    assert forall c :: c in base ==> c in name;
    SpreadNameShape(base);
    if t[p].Dir? { BaseOfKebab(name); } else { BaseOfKebabFile(name); }
  }

  lemma BaseNotAllDots(name: string)
    requires HasUpper(name)
    ensures HasNonDot(BaseName(name))
  {
    if Extension(name) != "" {
      CutParts(name);
    } else {
      assert BaseName(name) == name;
    }
  }

  lemma {:induction false} LookupIsNewStem(t: Tree, ignores: seq<string>, plan: seq<Renaming>, root: Path,
                                           m: map<Path, Path>, from: nat)
    requires PlainPlan(t, ignores, plan) && from <= |plan|
    requires forall k :: k in m ==> IsNewStem(k, m[k])
    ensures var r := LookupFrom(m, root, plan[from..]);
      && (forall k :: k in r ==> IsNewStem(k, r[k]))
      && (forall k :: k in m ==> k in r)
      && (forall i :: from <= i < |plan| ==> Stem(root + plan[i].source) in r)
    decreases |plan| - from
  {
    hide Stem, IsNewStem, PlainPlan;
    if from < |plan| {
      StemOfRenaming(t, ignores, plan, from, root);
      var k, v := Stem(root + plan[from].source), Stem(root + plan[from].target);
      assert plan[from..][0] == plan[from] && plan[from..][1..] == plan[from + 1..];
      LookupIsNewStem(t, ignores, plan, root, m[k := v], from + 1);
    }
  }

  /** The lookup of a plan maps each renamed path, without its extension, to its new path
      without its extension; files and folders that differ in their extension only agree
      on it. */
  lemma LookupOfPlan(t: Tree, ignores: seq<string>, plan: seq<Renaming>, root: Path)
    requires PlainPlan(t, ignores, plan)
    ensures GoodLookup(Lookup(root, plan))
    ensures forall i :: 0 <= i < |plan| ==>
              && Stem(root + plan[i].source) in Lookup(root, plan)
              && Lookup(root, plan)[Stem(root + plan[i].source)] == Stem(root + plan[i].target)
  {
    hide Stem, PlainPlan, IsStemRenaming;
    assert plan[0..] == plan;
    LookupIsNewStem(t, ignores, plan, root, map[], 0);
    forall i | 0 <= i < |plan| ensures Lookup(root, plan)[Stem(root + plan[i].source)] == Stem(root + plan[i].target) {
      StemOfRenaming(t, ignores, plan, i, root);
    }
  }

  /** Imports name a file without its extension, and so does the lookup: a file that is
      renamed leads from its old stem to the kebab form of that stem. */
  lemma LookupOfFile(t: Tree, ignores: seq<string>, plan: seq<Renaming>, root: Path,
                     i: nat, dir: Path, base: string, extension: string)
    requires PlainPlan(t, ignores, plan) && i < |plan|
    requires '.' !in extension && exists k :: 0 <= k < |base| && base[k] != '.'
    requires plan[i].source == dir + [base + "." + extension] && t[plan[i].source].File?
    ensures plan[i].target == dir + [ToKebab(base) + "." + extension]
    ensures var lookup := Lookup(root, plan);
      root + dir + [base] in lookup && lookup[root + dir + [base]] == root + dir + [ToKebab(base)]
  {
    hide PlainPlan, IsStemRenaming, ToKebab, KebabFile, BaseName, Lookup, HasUpper;
    var name, next := base + "." + extension, ToKebab(base) + "." + extension;
    LookupOfPlan(t, ignores, plan, root);
    KebabFileByParts(base, extension);
    SourceAndTarget(t, ignores, plan, i);
    assert Last(dir + [name]) == name && Parent(dir + [name]) == dir;
    StemOfFile(root, dir, name);
    StemOfFile(root, dir, next);
    KebabHasNonDot(base);
    KebabFileByParts(ToKebab(base), extension);
  }

  lemma KebabHasNonDot(base: string)
    requires HasNonDot(base)
    ensures HasNonDot(ToKebab(base))
  {
    hide IsReadme, ToKebab;
    if IsReadme(base) {
      ReadmeByLetters(base);
      ReadmeStays(base);
    } else {
      KebabIsSpread(base);
      SpreadNameNonDot(base);
    }
  }

  lemma SourceAndTarget(t: Tree, ignores: seq<string>, plan: seq<Renaming>, i: nat)
    requires PlainPlan(t, ignores, plan) && i < |plan|
    ensures var p := plan[i].source;
      p in t && p != [] && plan[i].target == Parent(p) + [if t[p].Dir? then ToKebab(Last(p)) else KebabFile(Last(p))]
  {
    hide ToKebab, KebabFile, HasUpper, Ignored;
  }

  lemma StemOfFile(root: Path, dir: Path, name: string)
    ensures Stem(root + (dir + [name])) == root + dir + [BaseName(name)]
  {
    hide BaseName;
    var p := root + (dir + [name]);
    assert Parent(p) == root + dir && Last(p) == name;
  }
}
