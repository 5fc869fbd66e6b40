/** The virtual paths of the storage service: who may use one (GetPermission) and
    where it leads (Redirect). GetPermission looks at the first component of the
    cleaned path, Redirect at string prefixes of the raw one; the lemmas show that
    on lexically clean paths both follow one component-level routing table. */
module SpaceRouting {
  import opened PathNames
  import opened Splitting

  const USER_PATH := "user"
  const PUBLIC_PATH := "public"
  const ACCOUNT_PATH := "account"
  const ADMIN_USER_PATH := "admin-user"
  const ADMIN_PUBLIC_PATH := "admin-public"
  const ADMIN_ACCOUNT_PATH := "admin-account"

  const ROLE_ADMIN := 3

  /** model.FilePermission; an access mode is converted to it by its number. */
  type FilePermission = nat
  const NOT_ALLOWED: FilePermission := 1
  const READ_ONLY: FilePermission := 2
  const READ_WRITE: FilePermission := 3

  datatype Config = Config(userPrefix: string, accountPrefix: string, publicPrefix: string)

  datatype Token = Token(userId: nat, accountId: nat, rolePlatform: nat,
                         accountAccessMode: nat, publicAccessMode: nat)

  /** The spaces recorded for users and accounts, by ID. */
  datatype Tables = Tables(users: map<nat, string>, accounts: map<nat, string>)

  datatype RouteError = UserMissing | AccountMissing | NotAdmin | IncorrectPath | IllegalPath

  datatype Redirected = To(path: string) | Refused(error: RouteError)

  function GetFirstToken(path: string): string {
    var tokens := Split(Clean(TrimLeftSlashes(path)));
    if tokens[0] != "." then tokens[0] else ""
  }

  function GetPermission(path: string, token: Token, tables: Tables): FilePermission {
    var path := TrimLeftSlashes(path);
    if path == "" then READ_ONLY
    else
      var first := Split(Clean(path))[0];
      if first == ACCOUNT_PATH then
        if token.accountId in tables.accounts then token.accountAccessMode else NOT_ALLOWED
      else if first == PUBLIC_PATH then token.publicAccessMode
      else if first == USER_PATH then
        if token.userId in tables.users then READ_WRITE else NOT_ALLOWED
      else if first == ADMIN_ACCOUNT_PATH || first == ADMIN_PUBLIC_PATH || first == ADMIN_USER_PATH then
        if token.rolePlatform == ROLE_ADMIN then READ_WRITE else NOT_ALLOWED
      else NOT_ALLOWED
  }

  /** The chain of prefix tests in Redirect, before its last check. */
  function RedirectByPrefix(path: string, token: Token, tables: Tables, cfg: Config): Redirected {
    if PUBLIC_PATH <= path then
      To(cfg.publicPrefix + path[|PUBLIC_PATH|..])
    else if USER_PATH <= path then
      if token.userId in tables.users
      then To(cfg.userPrefix + "/" + tables.users[token.userId] + path[|USER_PATH|..])
      else Refused(UserMissing)
    else if ACCOUNT_PATH <= path then
      if token.accountId in tables.accounts
      then To(cfg.accountPrefix + "/" + tables.accounts[token.accountId] + path[|ACCOUNT_PATH|..])
      else Refused(AccountMissing)
    else if ADMIN_PUBLIC_PATH <= path then
      To(cfg.publicPrefix + path[|ADMIN_PUBLIC_PATH|..])
    else if ADMIN_USER_PATH <= path then
      if token.rolePlatform == ROLE_ADMIN
      then To(cfg.userPrefix + path[|ADMIN_USER_PATH|..])
      else Refused(NotAdmin)
    else if ADMIN_ACCOUNT_PATH <= path then
      To(cfg.accountPrefix + path[|ADMIN_ACCOUNT_PATH|..])
    else Refused(IncorrectPath)
  }

  function Redirect(path: string, token: Token, tables: Tables, cfg: Config): Redirected {
    var path := TrimLeftSlashes(path);
    var target := RedirectByPrefix(path, token, tables, cfg);
    if target.Refused? then target
    else if Split(Clean(path))[0] != "." then target
    else Refused(IllegalPath)
  }

  // The routing table that both are meant to follow.

  datatype Space = OwnPublic | OwnUser | OwnAccount | AllPublic | AllUsers | AllAccounts

  function NameOf(space: Space): string {
    match space
    case OwnPublic => PUBLIC_PATH
    case OwnUser => USER_PATH
    case OwnAccount => ACCOUNT_PATH
    case AllPublic => ADMIN_PUBLIC_PATH
    case AllUsers => ADMIN_USER_PATH
    case AllAccounts => ADMIN_ACCOUNT_PATH
  }

  ghost predicate Names(first: string, space: Space) { first == NameOf(space) }

  predicate HasRecord(space: Space, token: Token, tables: Tables) {
    && (space.OwnUser? ==> token.userId in tables.users)
    && (space.OwnAccount? ==> token.accountId in tables.accounts)
  }

  function Access(space: Space, token: Token, tables: Tables): FilePermission {
    if !HasRecord(space, token, tables) then NOT_ALLOWED
    else match space
      case OwnPublic => token.publicAccessMode
      case OwnAccount => token.accountAccessMode
      case OwnUser => READ_WRITE
      case _ => if token.rolePlatform == ROLE_ADMIN then READ_WRITE else NOT_ALLOWED
  }

  function Root(space: Space, token: Token, tables: Tables, cfg: Config): string
    requires HasRecord(space, token, tables)
  {
    match space
    case OwnPublic => cfg.publicPrefix
    case AllPublic => cfg.publicPrefix
    case OwnUser => cfg.userPrefix + "/" + tables.users[token.userId]
    case AllUsers => cfg.userPrefix
    case OwnAccount => cfg.accountPrefix + "/" + tables.accounts[token.accountId]
    case AllAccounts => cfg.accountPrefix
  }

  /** The lexically clean, non-empty paths: leading slashes, then a clean name. */
  predicate CleanPath(path: string) {
    var q := TrimLeftSlashes(path);
    q != "" && Clean(q) == q
  }

  /** The components of a clean path. */
  function Parts(path: string): (parts: seq<string>)
    ensures parts != []
  {
    Split(TrimLeftSlashes(path))
  }

  /** GetPermission is the table's access of the space the first component names. */
  lemma PermissionFollowsTable(path: string, token: Token, tables: Tables)
    requires CleanPath(path)
    ensures forall space :: Names(Parts(path)[0], space) ==>
              GetPermission(path, token, tables) == Access(space, token, tables)
    ensures (forall space :: !Names(Parts(path)[0], space)) ==>
              GetPermission(path, token, tables) == NOT_ALLOWED
  {
    if forall space :: !Names(Parts(path)[0], space) {
      assert !Names(Parts(path)[0], OwnPublic) && !Names(Parts(path)[0], OwnUser) && !Names(Parts(path)[0], OwnAccount);
      assert !Names(Parts(path)[0], AllPublic) && !Names(Parts(path)[0], AllUsers)
          && !Names(Parts(path)[0], AllAccounts);
    }
  }

  /** The first token shown to callers is the component that routes. */
  lemma FirstTokenRoutes(path: string)
    requires CleanPath(path)
    ensures GetFirstToken(path) == if TrimLeftSlashes(path) == "." then "" else Parts(path)[0]
  {
    var q := TrimLeftSlashes(path);
    SplitOfName(".");
    if q != "." {
      CleanNameIsReduced(q);
      assert Parts(path)[0] in Parts(path);
    }
  }

  /** A name without a slash that is a string prefix of a joined path is a prefix
      of its first component. */
  lemma PrefixIsInFirst(name: string, parts: seq<string>)
    requires NoSlash(name) && parts != []
    ensures name <= Join(parts) ==> name <= parts[0]
  {
    if name <= Join(parts) && |name| > |parts[0]| {
      SlashInPrefix(name, Join(parts), |parts[0]|);
    }
  }

  lemma SlashInPrefix(name: string, path: string, k: nat)
    requires name <= path && k < |path| && path[k] == '/'
    ensures k < |name| ==> !NoSlash(name)
  {
    assert k < |name| ==> name[k] in name;
  }

  lemma SpaceNamesAreApart(a: Space, b: Space)
    ensures NoSlash(NameOf(a)) && Ordinary(NameOf(a))
    ensures NameOf(a) <= NameOf(b) ==> a == b
  {
    if NameOf(a) <= NameOf(b) {
      assert NameOf(a)[0] == NameOf(b)[0] && NameOf(a)[1] == NameOf(b)[1];
      assert |NameOf(a)| > 7 ==> NameOf(a)[6] == NameOf(b)[6];
    }
  }

  function Suffix(rest: seq<string>): string {
    if rest == [] then "" else "/" + Join(rest)
  }

  lemma JoinOfNamed(name: string, rest: seq<string>)
    ensures Join([name] + rest) == name + Suffix(rest)
  {
    if rest != [] { assert ([name] + rest)[1..] == rest; }
  }

  /** What the table says a named space and what follows its name lead to. */
  function Routed(space: Space, tail: string, token: Token, tables: Tables, cfg: Config): Redirected {
    if !HasRecord(space, token, tables) then
      Refused(if space.OwnUser? then UserMissing else AccountMissing)
    else if space.AllUsers? && token.rolePlatform != ROLE_ADMIN then Refused(NotAdmin)
    else To(Root(space, token, tables, cfg) + tail)
  }

  lemma OnlyPrefixDecides(space: Space, path: string, token: Token, tables: Tables, cfg: Config)
    requires NameOf(space) <= path
    requires forall other: Space :: NameOf(other) <= path ==> other == space
    ensures RedirectByPrefix(path, token, tables, cfg)
         == Routed(space, path[|NameOf(space)|..], token, tables, cfg)
  {
    assert NameOf(OwnPublic) <= path ==> space == OwnPublic;
    assert NameOf(OwnUser) <= path ==> space == OwnUser;
    assert NameOf(OwnAccount) <= path ==> space == OwnAccount;
    assert NameOf(AllPublic) <= path ==> space == AllPublic;
    assert NameOf(AllUsers) <= path ==> space == AllUsers;
  }

  /** The last check of Redirect passes on ordinary components. */
  lemma RedirectOfOrdinary(parts: seq<string>, token: Token, tables: Tables, cfg: Config)
    requires parts != [] && forall c :: c in parts ==> Ordinary(c)
    ensures Redirect(Join(parts), token, tables, cfg) == RedirectByPrefix(Join(parts), token, tables, cfg)
  {
    OrdinaryNameIsClean(parts);
    assert parts[0] in parts;
  }

  lemma SpaceNameInFirst(space: Space, parts: seq<string>)
    requires parts != []
    ensures NameOf(space) <= Join(parts) <==> NameOf(space) <= parts[0]
  {
    SpaceNamesAreApart(space, space);
    PrefixIsInFirst(NameOf(space), parts);
    assert parts[0] <= Join(parts);
  }

  /** Redirect of a space name and ordinary components is the table's route. */
  lemma RedirectOfNamed(space: Space, rest: seq<string>, token: Token, tables: Tables, cfg: Config)
    requires forall c :: c in rest ==> Ordinary(c)
    ensures Redirect(Join([NameOf(space)] + rest), token, tables, cfg)
         == Routed(space, Suffix(rest), token, tables, cfg)
  {
    var parts := [NameOf(space)] + rest;
    forall other: Space ensures NameOf(other) <= Join(parts) ==> other == space {
      SpaceNameInFirst(other, parts);
      SpaceNamesAreApart(other, space);
    }
    SpaceNamesAreApart(space, space);
    JoinOfNamed(NameOf(space), rest);
    RedirectOfOrdinary(parts, token, tables, cfg);
    assert Join(parts)[|NameOf(space)|..] == Suffix(rest);
    OnlyPrefixDecides(space, Join(parts), token, tables, cfg);
  }

  lemma IncorrectWithoutPrefix(path: string, token: Token, tables: Tables, cfg: Config)
    ensures RedirectByPrefix(path, token, tables, cfg) == Refused(IncorrectPath)
       <==> forall space :: !(NameOf(space) <= path)
  {
    if forall space :: !(NameOf(space) <= path) {
      assert !(NameOf(OwnPublic) <= path) && !(NameOf(OwnUser) <= path) && !(NameOf(OwnAccount) <= path);
      assert !(NameOf(AllPublic) <= path) && !(NameOf(AllUsers) <= path) && !(NameOf(AllAccounts) <= path);
    }
  }

  /** Where the two part: Redirect rejects a path of ordinary components as
      incorrect only when no space name is even a string prefix of the first one,
      while GetPermission forbids it already when the first one is not a name. */
  lemma RedirectRejectsUnnamed(parts: seq<string>, token: Token, tables: Tables, cfg: Config)
    requires parts != [] && forall c :: c in parts ==> Ordinary(c)
    ensures Redirect(Join(parts), token, tables, cfg) == Refused(IncorrectPath)
       <==> forall space :: !(NameOf(space) <= parts[0])
    ensures (forall space :: NameOf(space) != parts[0]) ==>
              GetPermission(Join(parts), token, tables) == NOT_ALLOWED
  {
    OrdinaryNameIsClean(parts);
    forall space: Space { SpaceNameInFirst(space, parts); }
    RedirectOfOrdinary(parts, token, tables, cfg);
    IncorrectWithoutPrefix(Join(parts), token, tables, cfg);
    PermissionFollowsTable(Join(parts), token, tables);
  }

  /** Main result of the routing. On every clean path that GetPermission does not
      forbid, Redirect succeeds against the same tables: the first component names
      a space, and the result is that space's root with the remaining components
      unchanged, as a string and as a place in the tree. */
  lemma PermittedPathsRedirect(path: string, token: Token, tables: Tables, cfg: Config) returns (space: Space)
    requires CleanPath(path)
    requires GetPermission(path, token, tables) != NOT_ALLOWED
    ensures Names(Parts(path)[0], space) && HasRecord(space, token, tables)
    ensures forall c :: c in Parts(path) ==> Ordinary(c)
    ensures Redirect(path, token, tables, cfg) == To(Root(space, token, tables, cfg) + Suffix(Parts(path)[1..]))
    ensures Resolve(Redirect(path, token, tables, cfg).path)
         == Resolve(Root(space, token, tables, cfg)) + Parts(path)[1..]
  {
    var q, parts := TrimLeftSlashes(path), Parts(path);
    PermissionFollowsTable(path, token, tables);
    space :| Names(parts[0], space);
    SpaceNamesAreApart(space, space);
    SplitOfName(".");
    CleanNameIsReduced(q);
    JoinOfSplit(q);
    var rest := parts[1..];
    assert parts == [NameOf(space)] + rest;
    RedirectOfNamed(space, rest, token, tables, cfg);
    assert TrimLeftSlashes(q) == q;
    SuffixBelow(Root(space, token, tables, cfg), rest);
  }

  /** Who gets where, name by name: a caller who is no administrator gets to the public
      prefix and to the own user and account space only, with the access that the token
      says, and writes in the own user space; an administrator writes anywhere below the
      three prefixes. */
  lemma WhereCallersGet(path: string, token: Token, tables: Tables, cfg: Config)
    requires CleanPath(path)
    ensures var first, rest := Parts(path)[0], Parts(path)[1..];
      var permission, redirected := GetPermission(path, token, tables), Redirect(path, token, tables, cfg);
      var gets := (root: string, access: nat) =>
        permission == access && (access != 1 ==> redirected.To? && Resolve(redirected.path) == Resolve(root) + rest);
      if first == "public" then gets(cfg.publicPrefix, token.publicAccessMode)
      else if first == "user" && token.userId in tables.users then
        gets(cfg.userPrefix + "/" + tables.users[token.userId], 3)
      else if first == "account" && token.accountId in tables.accounts then
        gets(cfg.accountPrefix + "/" + tables.accounts[token.accountId], token.accountAccessMode)
      else if first == "admin-public" && token.rolePlatform == 3 then gets(cfg.publicPrefix, 3)
      else if first == "admin-user" && token.rolePlatform == 3 then gets(cfg.userPrefix, 3)
      else if first == "admin-account" && token.rolePlatform == 3 then gets(cfg.accountPrefix, 3)
      else permission == 1
  {
    hide GetPermission, Redirect, Resolve, CleanPath, Parts;
    PermissionFollowsTable(path, token, tables);
    if GetPermission(path, token, tables) != NOT_ALLOWED {
      var space := PermittedPathsRedirect(path, token, tables, cfg);
    } else {
      NamesOfSpaces(Parts(path)[0]);
    }
  }

  /** A path that climbs out of its space to the root is never redirected: what a prefix
      lets through is refused if it cleans to "." */
  lemma RootIsNeverReached(path: string, token: Token, tables: Tables, cfg: Config)
    requires Clean(TrimLeftSlashes(path)) == "."
    ensures Redirect(path, token, tables, cfg).Refused?
    ensures (exists space :: NameOf(space) <= TrimLeftSlashes(path)) && token.userId in tables.users
              && token.accountId in tables.accounts && token.rolePlatform == 3 ==>
              Redirect(path, token, tables, cfg) == Refused(IllegalPath)
  {
    SplitOfName(".");
    IncorrectWithoutPrefix(TrimLeftSlashes(path), token, tables, cfg);
  }

  lemma NamesOfSpaces(first: string)
    ensures first == "public" ==> Names(first, OwnPublic)
    ensures first == "user" ==> Names(first, OwnUser)
    ensures first == "account" ==> Names(first, OwnAccount)
    ensures first == "admin-public" ==> Names(first, AllPublic)
    ensures first == "admin-user" ==> Names(first, AllUsers)
    ensures first == "admin-account" ==> Names(first, AllAccounts)
  {}

  /** What Redirect refuses of what begins with the name of a space: the own space of a
      caller without a record, and the view of all user spaces to all but administrators. */
  lemma RefusedByName(first: string, rest: seq<string>, token: Token, tables: Tables, cfg: Config)
    requires first in {"public", "user", "account", "admin-public", "admin-user", "admin-account"}
    requires forall c :: c in rest ==> Ordinary(c)
    ensures var redirected := Redirect(Join([first] + rest), token, tables, cfg);
      if first == "user" && token.userId !in tables.users then redirected == Refused(UserMissing)
      else if first == "account" && token.accountId !in tables.accounts then redirected == Refused(AccountMissing)
      else if first == "admin-user" && token.rolePlatform != 3 then redirected == Refused(NotAdmin)
      else redirected.To?
  {
    hide Redirect;
    NamesOfSpaces(first);
    forall space | Names(first, space) { RedirectOfNamed(space, rest, token, tables, cfg); }
  }

  lemma SuffixBelow(root: string, rest: seq<string>)
    requires forall c :: c in rest ==> Ordinary(c)
    ensures Resolve(root + Suffix(rest)) == Resolve(root) + rest
  {
    ResolveBelow(root, rest);
    if rest == [] {
      assert root + Suffix(rest) == root;
      assert Resolve(root) + rest == Resolve(root);
    } else {
      assert root + Suffix(rest) == root + "/" + Join(rest);
    }
  }

  /** Where a permitted path leads in the tree. */
  function Target(path: string, token: Token, tables: Tables, cfg: Config): Path
    requires Redirect(path, token, tables, cfg).To?
  {
    Resolve(Redirect(path, token, tables, cfg).path)
  }

  predicate Own(space: Space) { space.OwnPublic? || space.OwnUser? || space.OwnAccount? }

  /** A clean path into one of the caller's own three spaces that is permitted. */
  predicate PermittedOwn(path: string, token: Token, tables: Tables) {
    && CleanPath(path)
    && GetPermission(path, token, tables) != NOT_ALLOWED
    && (Parts(path)[0] == PUBLIC_PATH || Parts(path)[0] == USER_PATH || Parts(path)[0] == ACCOUNT_PATH)
  }

  predicate Reachable(space: Space, token: Token, tables: Tables) {
    Own(space) && HasRecord(space, token, tables) && Access(space, token, tables) != NOT_ALLOWED
  }

  /** No reachable own space lies at or below another one. */
  ghost predicate RootsApart(token: Token, tables: Tables, cfg: Config) {
    forall a, b :: Reachable(a, token, tables) && Reachable(b, token, tables) && a != b ==>
      !(Resolve(Root(a, token, tables, cfg)) <= Resolve(Root(b, token, tables, cfg)))
  }

  /** Two permitted own paths to one place differ in leading slashes only. */
  ghost predicate RedirectInjective(token: Token, tables: Tables, cfg: Config) {
    forall p, q ::
      && PermittedOwn(p, token, tables) && PermittedOwn(q, token, tables)
      && Redirect(p, token, tables, cfg).To? && Redirect(q, token, tables, cfg).To?
      && Target(p, token, tables, cfg) == Target(q, token, tables, cfg)
      ==> TrimLeftSlashes(p) == TrimLeftSlashes(q)
  }

  lemma ApartRootsGiveInjectivity(p: string, q: string, token: Token, tables: Tables, cfg: Config)
    requires RootsApart(token, tables, cfg)
    requires PermittedOwn(p, token, tables) && PermittedOwn(q, token, tables)
    requires Redirect(p, token, tables, cfg).To? && Redirect(q, token, tables, cfg).To?
    requires Target(p, token, tables, cfg) == Target(q, token, tables, cfg)
    ensures TrimLeftSlashes(p) == TrimLeftSlashes(q)
  {
    var a := PermittedPathsRedirect(p, token, tables, cfg);
    var b := PermittedPathsRedirect(q, token, tables, cfg);
    PermissionFollowsTable(p, token, tables);
    PermissionFollowsTable(q, token, tables);
    var ra, rb := Resolve(Root(a, token, tables, cfg)), Resolve(Root(b, token, tables, cfg));
    var sa, sb := Parts(p)[1..], Parts(q)[1..];
    assert ra + sa == rb + sb;
    if a != b {
      assert Reachable(a, token, tables) && Reachable(b, token, tables);
      PrefixesOfOne(ra, sa, rb, sb);
      assert false;
    }
    assert sa == (ra + sa)[|ra|..] == sb;
    assert Parts(p) == [NameOf(a)] + sa == Parts(q);
    JoinOfSplit(TrimLeftSlashes(p));
    JoinOfSplit(TrimLeftSlashes(q));
  }

  lemma PrefixesOfOne(a: Path, x: Path, b: Path, y: Path)
    requires a + x == b + y
    ensures a <= b || b <= a
  {
    if |a| <= |b| {
      assert (a + x)[..|a|] == (b + y)[..|a|];
    } else {
      assert (a + x)[..|b|] == (b + y)[..|b|];
    }
  }

  /** When one root lies below another, two different clean paths meet. */
  lemma NestedRootsCollide(a: Space, b: Space, token: Token, tables: Tables, cfg: Config)
    returns (p: string, q: string)
    requires Reachable(a, token, tables) && Reachable(b, token, tables) && a != b
    requires Resolve(Root(a, token, tables, cfg)) <= Resolve(Root(b, token, tables, cfg))
    ensures PermittedOwn(p, token, tables) && PermittedOwn(q, token, tables)
    ensures Redirect(p, token, tables, cfg).To? && Redirect(q, token, tables, cfg).To?
    ensures Target(p, token, tables, cfg) == Target(q, token, tables, cfg)
    ensures TrimLeftSlashes(p) != TrimLeftSlashes(q)
  {
    var ra, rb := Resolve(Root(a, token, tables, cfg)), Resolve(Root(b, token, tables, cfg));
    var gap := rb[|ra|..];
    SplitHasNoSlash(Root(b, token, tables, cfg));
    ResolveIsOrdinary([], Split(Root(b, token, tables, cfg)));
    p, q := Join([NameOf(a)] + gap), Join([NameOf(b)] + []);
    OwnPath(a, gap, p, token, tables, cfg);
    OwnPath(b, [], q, token, tables, cfg);
    assert ra + gap == rb == rb + [];
    assert Parts(p)[0] == NameOf(a) && Parts(q)[0] == NameOf(b);
    SpaceNamesAreApart(a, b);
  }

  lemma OwnPath(space: Space, rest: seq<string>, path: string, token: Token, tables: Tables, cfg: Config)
    requires Reachable(space, token, tables)
    requires forall c :: c in rest ==> Ordinary(c)
    requires path == Join([NameOf(space)] + rest)
    ensures PermittedOwn(path, token, tables)
    ensures Parts(path) == [NameOf(space)] + rest && TrimLeftSlashes(path) == path
    ensures Redirect(path, token, tables, cfg).To?
    ensures Target(path, token, tables, cfg) == Resolve(Root(space, token, tables, cfg)) + rest
  {
    SpaceNamesAreApart(space, space);
    OrdinaryNameIsClean([NameOf(space)] + rest);
    PermissionFollowsTable(path, token, tables);
    assert Names(Parts(path)[0], space);
    var named := PermittedPathsRedirect(path, token, tables, cfg);
    SpaceNamesAreApart(named, space);
    assert Parts(path)[1..] == rest;
  }

  /** Redirect is injective on permitted clean own paths exactly when the roots of
      the caller's reachable spaces are pairwise non-nested. */
  lemma InjectiveExactlyWhenRootsApart(token: Token, tables: Tables, cfg: Config)
    ensures RedirectInjective(token, tables, cfg) <==> RootsApart(token, tables, cfg)
  {
    if RootsApart(token, tables, cfg) {
      forall p, q |
        && PermittedOwn(p, token, tables) && PermittedOwn(q, token, tables)
        && Redirect(p, token, tables, cfg).To? && Redirect(q, token, tables, cfg).To?
        && Target(p, token, tables, cfg) == Target(q, token, tables, cfg)
        ensures TrimLeftSlashes(p) == TrimLeftSlashes(q)
      {
        ApartRootsGiveInjectivity(p, q, token, tables, cfg);
      }
    } else {
      var a, b :| Reachable(a, token, tables) && Reachable(b, token, tables) && a != b
        && Resolve(Root(a, token, tables, cfg)) <= Resolve(Root(b, token, tables, cfg));
      var p, q := NestedRootsCollide(a, b, token, tables, cfg);
    }
  }

  /** The recorded space of an own user or account space. */
  function Recorded(own: Space, token: Token, tables: Tables): string
    requires HasRecord(own, token, tables)
  {
    match own
    case OwnUser => tables.users[token.userId]
    case OwnAccount => tables.accounts[token.accountId]
    case _ => ""
  }

  /** A recorded space does not climb: it has no ".." among its components. */
  predicate Descends(space: string) { Up !in Split(space) }

  function AdminOf(own: Space): Space
    requires Own(own)
  {
    match own
    case OwnPublic => AllPublic
    case OwnUser => AllUsers
    case OwnAccount => AllAccounts
  }

  /** The space lies at or below what the admin view shows. */
  predicate InAdminView(own: Space, token: Token, tables: Tables, cfg: Config)
    requires Own(own) && HasRecord(own, token, tables)
  {
    Resolve(Root(AdminOf(own), token, tables, cfg)) <= Resolve(Root(own, token, tables, cfg))
  }

  /** How an administrator names one of their own spaces in the admin view. */
  function AdminForm(own: Space, token: Token, tables: Tables, cfg: Config): seq<string>
    requires Own(own) && HasRecord(own, token, tables) && InAdminView(own, token, tables, cfg)
  {
    var all := Resolve(Root(AdminOf(own), token, tables, cfg));
    [NameOf(AdminOf(own))] + Resolve(Root(own, token, tables, cfg))[|all|..]
  }

  /** The admin view commutes with the own view: below each of their own spaces that lies
      in it, however the space is recorded, an administrator reaches the same place by
      either name; by the same string if the record is a plain name. */
  lemma AdminViewCommutes(own: Space, rest: seq<string>, token: Token, tables: Tables, cfg: Config)
    requires Own(own) && HasRecord(own, token, tables) && InAdminView(own, token, tables, cfg)
    requires forall c :: c in rest ==> Ordinary(c)
    requires token.rolePlatform == ROLE_ADMIN
    ensures var admin, user := Join(AdminForm(own, token, tables, cfg) + rest), Join([NameOf(own)] + rest);
      && Redirect(admin, token, tables, cfg).To? && Redirect(user, token, tables, cfg).To?
      && Target(admin, token, tables, cfg) == Target(user, token, tables, cfg)
      && (own.OwnPublic? || Ordinary(Recorded(own, token, tables)) ==>
            Redirect(admin, token, tables, cfg) == Redirect(user, token, tables, cfg))
  {
    hide Redirect, Resolve, Join, NameOf, Suffix, Root, Recorded, Target;
    var all, form := AdminOf(own), AdminForm(own, token, tables, cfg);
    var above, root := Resolve(Root(all, token, tables, cfg)), Resolve(Root(own, token, tables, cfg));
    var tail := form[1..] + rest;
    assert form + rest == [NameOf(all)] + tail && form[1..] == root[|above|..];
    ResolvedIsOrdinary(Root(own, token, tables, cfg));
    TargetOfNamed(all, tail, token, tables, cfg);
    TargetOfNamed(own, rest, token, tables, cfg);
    assert above + form[1..] == root && above + tail == root + rest;
    RootOfOwn(own, token, tables, cfg);
    if own.OwnPublic? {
      assert tail == rest;
    } else if Ordinary(Recorded(own, token, tables)) {
      PlainSuffix(Root(all, token, tables, cfg), Recorded(own, token, tables), rest);
      PlainIsDescending(Recorded(own, token, tables));
      RecordedPlace(Root(all, token, tables, cfg), Recorded(own, token, tables));
      assert tail == [Recorded(own, token, tables)] + rest;
    }
  }

  lemma PlainIsDescending(name: string)
    requires Ordinary(name)
    ensures Descends(name)
  {
    SplitOfName(name);
  }

  /** The admin name of an own space, with some components after it, leads to the space. */
  ghost predicate LeadsToOwn(own: Space, tail: seq<string>, token: Token, tables: Tables, cfg: Config)
    requires Own(own) && HasRecord(own, token, tables)
  {
    var path := Join([NameOf(AdminOf(own))] + tail);
    && (forall c :: c in tail ==> Ordinary(c))
    && Redirect(path, token, tables, cfg).To?
    && Target(path, token, tables, cfg) == Resolve(Root(own, token, tables, cfg))
  }

  /** A space that does not lie in the admin view has no name there at all. */
  lemma AdminViewMissesOthers(own: Space, token: Token, tables: Tables, cfg: Config)
    requires Own(own) && HasRecord(own, token, tables) && token.rolePlatform == ROLE_ADMIN
    ensures InAdminView(own, token, tables, cfg) <==> exists tail :: LeadsToOwn(own, tail, token, tables, cfg)
  {
    hide Resolve, Root, Redirect, Join, NameOf, Target;
    var above, root := Resolve(Root(AdminOf(own), token, tables, cfg)), Resolve(Root(own, token, tables, cfg));
    forall tail: seq<string> | forall c :: c in tail ==> Ordinary(c)
      ensures LeadsToOwn(own, tail, token, tables, cfg) <==> above + tail == root
    {
      TargetOfNamed(AdminOf(own), tail, token, tables, cfg);
    }
    if InAdminView(own, token, tables, cfg) {
      ResolvedIsOrdinary(Root(own, token, tables, cfg));
      assert above + root[|above|..] == root;
      assert LeadsToOwn(own, root[|above|..], token, tables, cfg);
    }
  }

  /** Spaces recorded without "..", plainly, with leading slashes, empty or as several
      components, lie in the admin view, and are named there by their components. */
  lemma DescendingInAdminView(own: Space, token: Token, tables: Tables, cfg: Config)
    requires Own(own) && HasRecord(own, token, tables) && Descends(Recorded(own, token, tables))
    ensures InAdminView(own, token, tables, cfg)
    ensures AdminForm(own, token, tables, cfg) == [NameOf(AdminOf(own))] + Resolve(Recorded(own, token, tables))
  {
    hide Resolve, NameOf, Root, Recorded;
    RootOfOwn(own, token, tables, cfg);
    if !own.OwnPublic? {
      RecordedPlace(Root(AdminOf(own), token, tables, cfg), Recorded(own, token, tables));
    } else {
      var root := Resolve(Root(own, token, tables, cfg));
      assert root + [] == root;
    }
  }

  lemma ResolvedIsOrdinary(s: string)
    ensures forall c :: c in Resolve(s) ==> Ordinary(c)
  {
    SplitHasNoSlash(s);
    ResolveIsOrdinary([], Split(s));
  }

  /** A space that is open, with ordinary components, leads below its root. */
  lemma TargetOfNamed(space: Space, tail: seq<string>, token: Token, tables: Tables, cfg: Config)
    requires Open(space, token, tables) && forall c :: c in tail ==> Ordinary(c)
    ensures var path, root := Join([NameOf(space)] + tail), Root(space, token, tables, cfg);
      && Redirect(path, token, tables, cfg) == To(root + Suffix(tail))
      && Target(path, token, tables, cfg) == Resolve(root) + tail
  {
    RedirectOfNamed(space, tail, token, tables, cfg);
    SuffixBelow(Root(space, token, tables, cfg), tail);
  }

  lemma RootOfOwn(own: Space, token: Token, tables: Tables, cfg: Config)
    requires Own(own) && HasRecord(own, token, tables)
    ensures var all := Root(AdminOf(own), token, tables, cfg);
      Root(own, token, tables, cfg) == if own.OwnPublic? then all else all + "/" + Recorded(own, token, tables)
    ensures own.OwnPublic? ==> Resolve(Recorded(own, token, tables)) == []
  {
    SplitOfName("");
  }

  lemma PlainSuffix(root: string, name: string, rest: seq<string>)
    requires Ordinary(name)
    ensures Resolve(name) == [name]
    ensures root + Suffix([name] + rest) == root + "/" + name + Suffix(rest)
  {
    SplitOfName(name);
    ReduceOrdinary([], [name], true);
    JoinOfNamed(name, rest);
    Regrouped(root, "/", name, Suffix(rest));
  }

  /** A recorded space below its prefix adds its own components. */
  lemma RecordedPlace(prefix: string, space: string)
    requires Descends(space)
    ensures Resolve(prefix + "/" + space) == Resolve(prefix) + Resolve(space)
  {
    SplitAtSlash(prefix, space);
    ReduceConcat([], Split(prefix), Split(space), true);
    assert Resolve(prefix) + [] == Resolve(prefix);
    ReduceAbove(Resolve(prefix), [], Split(space));
  }

  lemma {:induction false} ReduceAbove(base: Path, stack: Path, parts: seq<string>)
    requires Up !in parts
    ensures Reduce(base + stack, parts, true) == base + Reduce(stack, parts, true)
    decreases |parts|
  {
    if parts != [] {
      assert base + (stack + [parts[0]]) == base + stack + [parts[0]];
      ReduceAbove(base, Push(stack, parts[0], true), parts[1..]);
    }
  }

  // What Redirect refuses though GetPermission permits it.

  /** Redirect lets the space through when its name is a prefix of the path. */
  predicate Open(space: Space, token: Token, tables: Tables) {
    HasRecord(space, token, tables) && (space.AllUsers? ==> token.rolePlatform == ROLE_ADMIN)
  }

  /** A permitted path is refused by Redirect exactly when, without its leading slashes
      but not cleaned, it has no open space's name as a string prefix. */
  lemma PermittedButRefused(path: string, token: Token, tables: Tables, cfg: Config)
    requires GetPermission(path, token, tables) != NOT_ALLOWED
    ensures Redirect(path, token, tables, cfg).Refused? <==>
      forall space :: NameOf(space) <= TrimLeftSlashes(path) ==> !Open(space, token, tables)
  {
    hide Clean;
    var q := TrimLeftSlashes(path);
    if space :| NameOf(space) <= q {
      forall other: Space ensures NameOf(other) <= q ==> other == space {
        if NameOf(other) <= q {
          SpaceNamesAreApart(other, space);
          SpaceNamesAreApart(space, other);
        }
      }
      OnlyPrefixDecides(space, q, token, tables, cfg);
      SpaceNamesAreApart(space, space);
    } else {
      IncorrectWithoutPrefix(q, token, tables, cfg);
    }
  }

  /** "./user/x" may be written by its user and is refused by Redirect. */
  lemma PermittedButRefusedExample(token: Token, tables: Tables, cfg: Config)
    requires token.userId in tables.users
    ensures GetPermission("./user/x", token, tables) == READ_WRITE
    ensures Redirect("./user/x", token, tables, cfg) == Refused(IncorrectPath)
  {
    hide Clean, Split;
    var path := "./user/x";
    CleanOfDotted(["user", "x"]);
    OrdinaryNameIsClean(["user", "x"]);
    assert Join(["user", "x"]) == "user/x" && "./" + "user/x" == path;
    forall space: Space ensures !(NameOf(space) <= path) { assert NameOf(space)[0] != path[0]; }
    IncorrectWithoutPrefix(path, token, tables, cfg);
  }

  lemma CleanOfDotted(parts: seq<string>)
    requires parts != [] && forall c :: c in parts ==> Ordinary(c)
    ensures Clean("./" + Join(parts)) == Join(parts)
  {
    var s := "." + "/" + Join(parts);
    SplitOfName(".");
    SplitAtSlash(".", Join(parts));
    OrdinaryNameIsClean(parts);
    ReduceConcat([], ["."], parts, false);
    ReduceOrdinary([], parts, false);
    assert [] + parts == parts && s == "./" + Join(parts);
    assert Reduce([], ["."], false) == [];
  }
}
