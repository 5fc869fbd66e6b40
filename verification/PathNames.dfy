/** Slash-separated names: strings.Split and strings.Join on "/", filepath.Clean,
    and the rooted form of Clean by which webdav.Dir turns a request name into a
    place in the tree. */
module PathNames {
  import opened Splitting

  /** A place in the tree: the components below the root. */
  type Path = seq<string>

  const Up := ".."

  /** All components but the last. */
  function Parent(p: Path): Path {
    if p == [] then [] else p[..|p| - 1]
  }

  predicate NoSlash(c: string) { Without(c, '/') }

  /** A component that Clean keeps and that names a child. */
  predicate Ordinary(c: string) {
    c != "" && c != "." && c != Up && NoSlash(c)
  }

  function Split(s: string): (parts: seq<string>)
    ensures parts != []
  {
    SplitAt(s, '/')
  }

  function Join(parts: seq<string>): string { JoinWith(parts, '/') }

  /** One component of the walk that filepath.Clean makes over a name. */
  function Push(stack: seq<string>, c: string, rooted: bool): seq<string> {
    if c == "" || c == "." then stack
    else if c != Up then stack + [c]
    else if |stack| > 0 && stack[|stack| - 1] != Up then stack[..|stack| - 1]
    else if rooted then stack
    else stack + [Up]
  }

  function Reduce(stack: seq<string>, parts: seq<string>, rooted: bool): seq<string>
    decreases |parts|
  {
    if parts == [] then stack
    else Reduce(Push(stack, parts[0], rooted), parts[1..], rooted)
  }

  predicate Rooted(s: string) { s != "" && s[0] == '/' }

  /** filepath.Clean on a Unix path. */
  function Clean(s: string): string {
    if Rooted(s) then "/" + Join(Reduce([], Split(s), true))
    else
      var parts := Reduce([], Split(s), false);
      if parts == [] then "." else Join(parts)
  }

  /** Where webdav.Dir looks for a name: the name cleaned below the root. */
  function Resolve(s: string): Path {
    Reduce([], Split(s), true)
  }

  /** strings.TrimLeft(s, "/") */
  function TrimLeftSlashes(s: string): (r: string)
    ensures r == "" || r[0] != '/'
    ensures s != "" && s[0] != '/' ==> r == s
  {
    if s != "" && s[0] == '/' then TrimLeftSlashes(s[1..]) else s
  }

  lemma SplitHasNoSlash(s: string)
    ensures forall c :: c in Split(s) ==> NoSlash(c)
  {
    PartsAreWithout(s, '/');
  }

  lemma JoinOfSplit(s: string)
    ensures Join(Split(s)) == s
  {
    JoinOfParts(s, '/');
  }

  lemma SplitOfName(c: string)
    requires NoSlash(c)
    ensures Split(c) == [c]
  {
    SplitWhole(c, '/');
  }

  lemma SplitAtSlash(a: string, b: string)
    ensures Split(a + "/" + b) == Split(a) + Split(b)
  {
    SplitConcat(a, b, '/');
  }

  lemma SplitOfJoin(parts: seq<string>)
    requires parts != [] && forall c :: c in parts ==> NoSlash(c)
    ensures Split(Join(parts)) == parts
  {
    SplitOfJoined(parts, '/');
  }

  lemma {:induction false} ReduceConcat(stack: seq<string>, a: seq<string>, b: seq<string>, rooted: bool)
    ensures Reduce(stack, a + b, rooted) == Reduce(Reduce(stack, a, rooted), b, rooted)
    decreases |a|
  {
    if a == [] {
      assert a + b == b;
    } else {
      assert (a + b)[1..] == a[1..] + b;
      ReduceConcat(Push(stack, a[0], rooted), a[1..], b, rooted);
    }
  }

  lemma {:induction false} ReduceOrdinary(stack: seq<string>, parts: seq<string>, rooted: bool)
    requires forall c :: c in parts ==> Ordinary(c)
    ensures Reduce(stack, parts, rooted) == stack + parts
    decreases |parts|
  {
    if parts == [] {
      assert stack + parts == stack;
    } else {
      assert parts[0] in parts;
      ReduceOrdinary(stack + [parts[0]], parts[1..], rooted);
      assert stack + [parts[0]] + parts[1..] == stack + parts;
    }
  }

  /** A cleaned relative component list: no "" or ".", and ".." only in front. */
  predicate Reduced(parts: seq<string>) {
    && (forall c :: c in parts ==> c != "" && c != "." && NoSlash(c))
    && forall i, j :: 0 <= i < j < |parts| && parts[j] == Up ==> parts[i] == Up
  }

  lemma PushIsReduced(stack: seq<string>, c: string, rooted: bool)
    requires Reduced(stack) && NoSlash(c)
    ensures Reduced(Push(stack, c, rooted))
  {
    var r := Push(stack, c, rooted);
    forall x | x in r ensures x != "" && x != "." && NoSlash(x) {
      assert x in stack || x == c;
    }
  }

  lemma {:induction false} ReduceIsReduced(stack: seq<string>, parts: seq<string>, rooted: bool)
    requires Reduced(stack)
    requires forall c :: c in parts ==> NoSlash(c)
    ensures Reduced(Reduce(stack, parts, rooted))
    decreases |parts|
  {
    if parts != [] {
      PushIsReduced(stack, parts[0], rooted);
      ReduceIsReduced(Push(stack, parts[0], rooted), parts[1..], rooted);
    }
  }

  /** Below the root every place is named by ordinary components. */
  lemma {:induction false} ResolveIsOrdinary(stack: seq<string>, parts: seq<string>)
    requires forall c :: c in stack ==> Ordinary(c)
    requires forall c :: c in parts ==> NoSlash(c)
    ensures forall c :: c in Reduce(stack, parts, true) ==> Ordinary(c)
    decreases |parts|
  {
    if parts != [] {
      ResolveIsOrdinary(Push(stack, parts[0], true), parts[1..]);
    }
  }

  /** What lexical cleanness means for the components of a relative name. */
  lemma CleanNameIsReduced(q: string)
    requires q != "" && q[0] != '/' && q != "." && Clean(q) == q
    ensures Split(q) == Reduce([], Split(q), false)
    ensures Reduced(Split(q))
    ensures Split(q)[0] != Up ==> forall c :: c in Split(q) ==> Ordinary(c)
  {
    var parts := Reduce([], Split(q), false);
    SplitHasNoSlash(q);
    ReduceIsReduced([], Split(q), false);
    SplitOfJoin(parts);
  }

  /** Appending a name to a root appends its components. */
  lemma ResolveBelow(root: string, parts: seq<string>)
    requires forall c :: c in parts ==> Ordinary(c)
    ensures parts != [] ==> Resolve(root + "/" + Join(parts)) == Resolve(root) + parts
  {
    if parts != [] {
      SplitAtSlash(root, Join(parts));
      SplitOfJoin(parts);
      ReduceConcat([], Split(root), parts, true);
      ReduceOrdinary(Resolve(root), parts, true);
    }
  }

  // Directories and last names of raw strings.

  /** The last slash of a name, -1 if it has none. */
  function LastSlash(s: string): (k: int)
    ensures -1 <= k < |s| && (k >= 0 ==> s[k] == '/')
    ensures forall i :: k < i < |s| ==> s[i] != '/'
  {
    if s == "" then -1
    else if s[|s| - 1] == '/' then |s| - 1
    else LastSlash(s[..|s| - 1])
  }

  /** filepath.Dir */
  function DirOf(s: string): string { Clean(s[..LastSlash(s) + 1]) }

  function LastPart(s: string): string {
    var parts := Split(s);
    parts[|parts| - 1]
  }

  function FrontParts(s: string): seq<string> {
    var parts := Split(s);
    parts[..|parts| - 1]
  }

  function TrimRightSlashes(s: string): string {
    if s != "" && s[|s| - 1] == '/' then TrimRightSlashes(s[..|s| - 1]) else s
  }

  /** filepath.Base */
  function BaseOf(s: string): string {
    if s == "" then "."
    else if TrimRightSlashes(s) == "" then "/"
    else LastPart(TrimRightSlashes(s))
  }

  /** filepath.Join of two elements */
  function JoinNames(a: string, b: string): string {
    if a == "" && b == "" then ""
    else if a == "" then Clean(b)
    else if b == "" then Clean(a)
    else Clean(a + "/" + b)
  }

  /** Where the directory of a name is: not always the parent of its place. */
  function Home(s: string): Path { Resolve(DirOf(s)) }

  lemma PartsAtLastSlash(s: string)
    ensures LastPart(s) == s[LastSlash(s) + 1..]
    ensures Split(s[..LastSlash(s) + 1]) == FrontParts(s) + [""]
  {
    hide LastSlash, SplitAt;
    var k := LastSlash(s);
    var a, b := if k < 0 then "" else s[..k], s[k + 1..];
    SplitOfName(b);
    if k < 0 {
      assert b == s && s[..k + 1] == "" && FrontParts(s) + [""] == [""];
      SplitOfName("");
    } else {
      assert s == a + "/" + b && s[..k + 1] == a + "/" + "";
      SplitAtSlash(a, b);
      SplitAtSlash(a, "");
      SplitOfName("");
    }
  }

  /** One more component on a cleaned relative list means the same below the root. */
  lemma PushBelowRoot(stack: seq<string>, c: string)
    requires Reduced(stack) && NoSlash(c)
    ensures Reduce([], Push(stack, c, false), true) == Push(Reduce([], stack, true), c, true)
  {
    if c == Up && |stack| > 0 && stack[|stack| - 1] != Up {
      var front, x := stack[..|stack| - 1], stack[|stack| - 1];
      assert stack == front + [x] && x in stack;
      ReduceConcat([], front, [x], true);
    } else if c != "" && c != "." {
      ReduceConcat([], stack, [c], true);
    }
  }

  lemma {:induction false} ReduceBelowRoot(stack: seq<string>, parts: seq<string>)
    requires Reduced(stack) && forall c :: c in parts ==> NoSlash(c)
    ensures Reduce([], Reduce(stack, parts, false), true) == Reduce(Reduce([], stack, true), parts, true)
    decreases |parts|
  {
    if parts != [] {
      PushIsReduced(stack, parts[0], false);
      PushBelowRoot(stack, parts[0]);
      ReduceBelowRoot(Push(stack, parts[0], false), parts[1..]);
    }
  }

  lemma SplitOfRooted(s: string)
    ensures Split("/" + s) == [""] + Split(s)
    ensures Resolve("/" + s) == Resolve(s)
  {
    assert ("/" + s)[1..] == s && ([""] + Split(s))[1..] == Split(s);
  }

  /** Cleaning a name does not change its place. */
  lemma ResolveOfClean(s: string)
    ensures Resolve(Clean(s)) == Resolve(s)
  {
    SplitHasNoSlash(s);
    if Rooted(s) {
      var parts := Resolve(s);
      ResolveIsOrdinary([], Split(s));
      SplitOfRooted(Join(parts));
      if parts != [] {
        SplitOfJoin(parts);
        ReduceOrdinary([], parts, true);
        assert [] + parts == parts;
      }
    } else {
      var parts := Reduce([], Split(s), false);
      ReduceIsReduced([], Split(s), false);
      ReduceBelowRoot([], Split(s));
      SplitOfName(".");
      if parts != [] { SplitOfJoin(parts); }
    }
  }

  /** The directory of a name is where all parts but the last one lead. */
  lemma HomeByParts(s: string)
    ensures Home(s) == Reduce([], FrontParts(s), true)
    ensures Resolve(s) == Push(Home(s), LastPart(s), true)
    ensures NoSlash(LastPart(s))
  {
    var front, last := FrontParts(s), LastPart(s);
    PartsAtLastSlash(s);
    ResolveOfClean(s[..LastSlash(s) + 1]);
    ReduceConcat([], front, [""], true);
    assert Split(s) == front + [last];
    ReduceConcat([], front, [last], true);
  }

  /** Exactly when filepath.Dir names the parent: for a last part that is an ordinary
      name, and for names of the root. */
  lemma HomeIsParent(s: string)
    ensures Home(s) == Parent(Resolve(s)) <==> Ordinary(LastPart(s)) || Home(s) == []
    ensures Ordinary(LastPart(s)) ==> Resolve(s) == Home(s) + [LastPart(s)]
    ensures !Ordinary(LastPart(s)) ==> Resolve(s) == Home(s) || Resolve(s) == Parent(Home(s))
  {
    HomeByParts(s);
  }

  lemma OrdinaryNameIsClean(parts: seq<string>)
    requires parts != [] && forall c :: c in parts ==> Ordinary(c)
    ensures Split(Join(parts)) == parts
    ensures Join(parts) != "" && Join(parts)[0] != '/'
    ensures Clean(Join(parts)) == Join(parts)
  {
    SplitOfJoin(parts);
    ReduceOrdinary([], parts, false);
    assert [] + parts == parts;
    assert parts[0] in parts && parts[0][0] in parts[0];
  }

  // Names that end in an ordinary component.

  lemma SlashKeepsPlace(s: string)
    ensures Resolve(s + "/") == Resolve(s)
  {
    hide SplitAt;
    assert s + "/" + "" == s + "/";
    SplitAtSlash(s, "");
    SplitOfName("");
    ReduceConcat([], Split(s), [""], true);
    assert Reduce(Resolve(s), [""], true) == Resolve(s);
  }

  lemma {:induction false} TrimKeepsPlace(s: string)
    ensures Resolve(TrimRightSlashes(s)) == Resolve(s)
  {
    if s != "" && s[|s| - 1] == '/' {
      var front := s[..|s| - 1];
      TrimKeepsPlace(front);
      SlashKeepsPlace(front);
      assert s == front + "/";
    }
  }

  /** An ordinary base name is the last component of the name's place. */
  lemma BaseIsLast(s: string)
    requires Ordinary(BaseOf(s))
    ensures Resolve(s) != [] && Resolve(s) == Parent(Resolve(s)) + [BaseOf(s)]
  {
    TrimKeepsPlace(s);
    HomeByParts(TrimRightSlashes(s));
  }

  lemma LastPartIsBase(s: string)
    requires Ordinary(LastPart(s))
    ensures BaseOf(s) == LastPart(s)
  {
    PartsAtLastSlash(s);
  }

  /** The parts of a cleaned name end like the reduced parts. */
  lemma LastOfClean(s: string, front: seq<string>, b: string)
    requires Reduce([], Split(s), Rooted(s)) == front + [b] && Ordinary(b)
    ensures LastPart(Clean(s)) == b
  {
    var parts := front + [b];
    SplitHasNoSlash(s);
    ReduceIsReduced([], Split(s), Rooted(s));
    SplitOfJoin(parts);
    if Rooted(s) { SplitOfRooted(Join(parts)); }
  }

  /** Joining an ordinary component to a name appends it to the name's place. */
  lemma JoinOrdinary(a: string, b: string)
    requires Ordinary(b)
    ensures Resolve(JoinNames(a, b)) == Resolve(a) + [b]
    ensures LastPart(JoinNames(a, b)) == b && BaseOf(JoinNames(a, b)) == b
    ensures Home(JoinNames(a, b)) == Resolve(a)
  {
    var s := if a == "" then b else a + "/" + b;
    SplitOfName(b);
    if a == "" {
      assert [] + [b] == [b];
      JoinedParts([], b, false);
      JoinedParts([], b, true);
    } else {
      SplitAtSlash(a, b);
      JoinedParts(Split(a), b, true);
      JoinedParts(Split(a), b, Rooted(s));
    }
    ResolveOfClean(s);
    LastOfClean(s, Reduce([], if a == "" then [] else Split(a), Rooted(s)), b);
    LastPartIsBase(Clean(s));
    HomeIsParent(Clean(s));
  }

  /** So does writing it after a slash. */
  lemma NameBelow(a: string, b: string)
    requires Ordinary(b)
    ensures Resolve(a + "/" + b) == Resolve(a) + [b]
    ensures LastPart(a + "/" + b) == b && Home(a + "/" + b) == Resolve(a)
  {
    SplitOfName(b);
    SplitAtSlash(a, b);
    JoinedParts(Split(a), b, true);
    HomeIsParent(a + "/" + b);
  }

  lemma JoinedParts(parts: seq<string>, b: string, rooted: bool)
    requires Ordinary(b)
    ensures Reduce([], parts + [b], rooted) == Reduce([], parts, rooted) + [b]
  {
    ReduceConcat([], parts, [b], rooted);
  }

  lemma CleanByParts(s: string, parts: seq<string>)
    requires Reduce([], Split(s), Rooted(s)) == parts
    ensures Clean(s) == if Rooted(s) then "/" + Join(parts) else if parts == [] then "." else Join(parts)
  {}

  /** Joining a name's directory and its base gives the cleaned name. */
  lemma JoinOfDirAndBase(s: string)
    requires Ordinary(LastPart(s))
    ensures JoinNames(DirOf(s), BaseOf(s)) == Clean(s)
  {
    hide Clean, DirOf;
    var dir, b, front := DirOf(s), LastPart(s), Reduce([], FrontParts(s), Rooted(s));
    LastPartIsBase(s);
    DirByParts(s);
    JoinedParts(FrontParts(s), b, Rooted(s));
    assert Split(s) == FrontParts(s) + [b];
    CleanByParts(s, front + [b]);
    SplitOfName(b);
    SplitAtSlash(dir, b);
    JoinedParts(Split(dir), b, Rooted(s));
    CleanByParts(dir + "/" + b, front + [b]);
  }

  lemma DirByParts(s: string)
    requires s != ""
    ensures DirOf(s) != "" && (Rooted(DirOf(s)) <==> Rooted(s))
    ensures Reduce([], Split(DirOf(s)), Rooted(s)) == Reduce([], FrontParts(s), Rooted(s))
  {
    var above, front := s[..LastSlash(s) + 1], Reduce([], FrontParts(s), Rooted(s));
    PartsAtLastSlash(s);
    assert Rooted(above) <==> Rooted(s);
    ReduceConcat([], FrontParts(s), [""], Rooted(s));
    CleanByParts(above, front);
    SplitHasNoSlash(s);
    ReduceIsReduced([], FrontParts(s), Rooted(s));
    if Rooted(s) { ResolveIsOrdinary([], FrontParts(s)); }
    PartsOfDir(DirOf(s), front, Rooted(s));
  }

  lemma PartsOfDir(dir: string, front: seq<string>, rooted: bool)
    requires Reduced(front) && (rooted ==> Up !in front)
    requires dir == if rooted then "/" + Join(front) else if front == [] then "." else Join(front)
    ensures dir != "" && (dir[0] == '/' <==> rooted)
    ensures Reduce([], Split(dir), rooted) == front
  {
    ReduceReduced([], front, rooted);
    assert [] + front == front;
    SplitOfName(".");
    if rooted { SplitOfRooted(Join(front)); }
    if front != [] {
      SplitOfJoin(front);
      assert front[0] in front && front[0][0] in front[0];
    }
  }

  lemma {:induction false} ReduceReduced(stack: seq<string>, parts: seq<string>, rooted: bool)
    requires Reduced(stack + parts) && (rooted ==> Up !in parts)
    ensures Reduce(stack, parts, rooted) == stack + parts
    decreases |parts|
  {
    if parts == [] {
      assert stack + parts == stack;
    } else {
      var all, n := stack + parts, |stack|;
      assert all[n] == parts[0] && parts[0] in all;
      assert parts[0] == Up && n > 0 ==> all[n - 1] == Up;
      assert stack + [parts[0]] + parts[1..] == all;
      ReduceReduced(stack + [parts[0]], parts[1..], rooted);
    }
  }
}
