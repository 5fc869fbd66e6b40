/** create_nested_dict_from_keys on the heap: the result is built in place through a moving
    reference, and so is the default file where a dictionary of it was put into the result;
    and exactly when every key is found in what was built. */
module MissingKeys {
  import opened Options
  import opened KeyPlaces
  import opened Translations

  /** An entry of a dictionary. */
  datatype Entry = Given(leaf: Leaf) | Made(dict: DictNode)

  class DictNode {
    var entries: map<string, Entry>

    constructor ()
      ensures entries == map[]
    {
      entries := map[];
    }
  }

  /** Nested dictionaries by their places. */
  type Nodes = map<Place, DictNode>

  /** The place of entry `k` of the dictionary at `p`. */
  function Child(p: Place, k: string): Place { p + [k] }

  lemma ChildFacts()
    ensures forall p, k :: Child(p, k) != [] && Front(Child(p, k)) == p
    ensures forall p, k, q, j :: Child(p, k) == Child(q, j) ==> p == q && k == j
  {
    forall p, k ensures Child(p, k) != [] && Front(Child(p, k)) == p {}
    forall p, k, q, j | Child(p, k) == Child(q, j) ensures p == q && k == j {
      assert Front(Child(p, k)) == Front(Child(q, j));
      assert Child(p, k)[|p|] == k && Child(q, j)[|q|] == j;
    }
  }

  /** What leads to a place: None, as given for null, where there is nothing. */
  function EntryOf(nodes: Nodes, t: Shape, p: Place): Entry {
    if p !in t then Given(NoneLeaf)
    else match t[p]
      case End(leaf) => Given(leaf)
      case Branch => if p in nodes then Made(nodes[p]) else Given(NoneLeaf)
  }

  /** What the entries of the dictionary at `p` are to be. */
  ghost predicate EntriesFit(entries: map<string, Entry>, nodes: Nodes, t: Shape, p: Place) {
    && (forall k :: k in entries <==> Child(p, k) in t)
    && (forall k :: k in entries ==> entries[k] == EntryOf(nodes, t, Child(p, k)))
  }

  ghost predicate Distinct(nodes: Nodes) {
    forall p, q :: p in nodes && q in nodes && p != q ==> nodes[p] != nodes[q]
  }

  ghost predicate NodesFit(nodes: Nodes, t: Shape) { forall p :: p in nodes <==> IsBranch(t, p) }

  /** The heap below `root` has exactly the dictionaries `nodes`, and what `t` says in them. */
  ghost predicate Represents(root: DictNode, nodes: Nodes, t: Shape)
    reads nodes.Values
  {
    && IsTree(t) && NodesFit(nodes, t) && Distinct(nodes)
    && [] in nodes && nodes[[]] == root
    && (forall p :: p in nodes ==> EntriesFit(nodes[p].entries, nodes, t, p))
  }

  /** The result and the default file have the shared dictionaries in common. */
  ghost predicate Linked(nodesR: Nodes, nodesD: Nodes, s: State) {
    forall p, q :: p in nodesR && q in nodesD ==> (nodesR[p] == nodesD[q] <==> p == q && Shared(s, p))
  }

  /** The default file below `default` and the result are in this state. */
  ghost predicate Holds(default: DictNode, nodesD: Nodes, result: DictNode, nodesR: Nodes, s: State)
    reads nodesD.Values, nodesR.Values
  {
    && Represents(default, nodesD, s.d)
    && Represents(result, nodesR, s.r)
    && Agreeing(s) && Linked(nodesR, nodesD, s)
  }

  // Lookup.

  /** The walk of get_nested_value from an entry. */
  function HeapWalk(e: Entry, names: seq<string>, heap: set<DictNode>): Entry
    reads heap
    decreases |names|
  {
    if names == [] then e
    else match e
      case Given(_) => Given(NoneLeaf)
      case Made(dict) =>
        if dict in heap && names[0] in dict.entries then HeapWalk(dict.entries[names[0]], names[1..], heap)
        else Given(NoneLeaf)
  }

  /** get_nested_value: the whole key first, then its names. */
  function HeapNestedValue(root: DictNode, key: string, heap: set<DictNode>): Entry
    reads heap
  {
    if root in heap && key in root.entries then root.entries[key] else HeapWalk(Made(root), Names(key), heap)
  }

  /** Lookup from a dictionary finds what is at the place. */
  lemma {:induction false} WalkFinds(root: DictNode, nodes: Nodes, t: Shape, place: Place, n: nat)
    requires Represents(root, nodes, t) && n <= |place| && place[..n] in nodes
    ensures HeapWalk(Made(nodes[place[..n]]), place[n..], nodes.Values) == EntryOf(nodes, t, place)
    decreases |place| - n
  {
    var p := place[..n];
    if n == |place| {
      assert p == place;
    } else {
      var k, c := place[n], place[..n + 1];
      var entries, rest := nodes[p].entries, place[n + 1..];
      assert EntriesFit(entries, nodes, t, p);
      assert Child(p, k) == c && place[n..][0] == k && place[n..][1..] == rest;
      if c in nodes {
        WalkFinds(root, nodes, t, place, n + 1);
      } else {
        WalkEnds(t, place, n + 1);
        assert rest == [] <==> c == place;
        assert k in entries ==>
          HeapWalk(entries[k], rest, nodes.Values) == if rest == [] then entries[k] else Given(NoneLeaf);
      }
    }
  }

  /** Below a value and where nothing is, there is nothing. */
  lemma WalkEnds(t: Shape, place: Place, n: nat)
    requires IsTree(t) && n <= |place| && !IsBranch(t, place[..n])
    ensures place in t ==> place[..n] == place
  {
    if place in t && n < |place| { AboveIsBranch(t, place[..n], place); }
  }

  /** get_nested_value gives what is at the key's place. */
  lemma LookupFinds(root: DictNode, nodes: Nodes, t: Shape, key: string)
    requires Represents(root, nodes, t)
    ensures HeapNestedValue(root, key, nodes.Values) == EntryOf(nodes, t, PlaceOf(t, key))
  {
    hide IsTree;
    var names := Names(key);
    assert EntriesFit(root.entries, nodes, t, []);
    assert Child([], key) == [key];
    assert names[..0] == [] && names[0..] == names;
    WalkFinds(root, nodes, t, names, 0);
    if '.' !in key { Splitting.SplitWhole(key, '.'); }
  }

  method GetNestedValue(data: DictNode, ghost nodes: Nodes, ghost t: Shape, key: string) returns (r: Entry)
    requires Represents(data, nodes, t)
    ensures r == HeapNestedValue(data, key, nodes.Values)
  {
    assert data in nodes.Values;
    if key in data.entries { return data.entries[key]; }
    var keys := Names(key);
    var current := Made(data);
    for i := 0 to |keys|
      invariant HeapWalk(current, keys[i..], nodes.Values) == HeapWalk(Made(data), keys, nodes.Values)
      invariant current.Made? ==> current.dict in nodes.Values
    {
      assert keys[i..][1..] == keys[i + 1..];
      if current.Made? && keys[i] in current.dict.entries {
        EntryIsNode(data, nodes, t, current.dict, keys[i]);
        current := current.dict.entries[keys[i]];
      } else {
        return Given(NoneLeaf);
      }
    }
    return current;
  }

  lemma EntryIsNode(root: DictNode, nodes: Nodes, t: Shape, dict: DictNode, k: string)
    requires Represents(root, nodes, t) && dict in nodes.Values && k in dict.entries
    ensures dict.entries[k].Made? ==> dict.entries[k].dict in nodes.Values
  {
    var p :| p in nodes && nodes[p] == dict;
    assert EntriesFit(nodes[p].entries, nodes, t, p);
  }

  // One step of the walk.

  /** With a dictionary at `c`: in the result, and in the default file where the two are
      one there. */
  function Entered(s: State, c: Place): State {
    if c in s.r then s
    else State(if Shared(s, Front(c)) then s.d[c := Branch] else s.d, s.r[c := Branch], s.roots)
  }

  lemma AddedFits(entries: map<string, Entry>, nodes: Nodes, t: Shape, p: Place, at: Place, k: string, made: DictNode)
    requires EntriesFit(entries, nodes, t, p)
    ensures var c := Child(at, k);
      EntriesFit(if p == at then entries[k := Made(made)] else entries, nodes[c := made], t[c := Branch], p)
  {
    hide Child;
    ChildFacts();
  }

  lemma EmptyFits(nodes: Nodes, t: Shape, c: Place, made: DictNode)
    requires IsTree(t) && c !in t
    ensures EntriesFit(map[], nodes[c := made], t[c := Branch], c)
  {
    hide Child;
    ChildFacts();
    forall j ensures Child(c, j) !in t && Child(c, j) != c {
      assert Front(Child(c, j)) == c;
      if Child(c, j) == c { ChildIsLonger(c, j); }
    }
  }

  lemma ChildIsLonger(p: Place, k: string)
    ensures |Child(p, k)| == |p| + 1
  {}

  lemma TreeAdded(nodes: Nodes, t: Shape, c: Place, made: DictNode)
    requires IsTree(t) && NodesFit(nodes, t) && Distinct(nodes) && made !in nodes.Values
    requires c !in t && IsBranch(t, Front(c))
    ensures IsTree(t[c := Branch]) && NodesFit(nodes[c := made], t[c := Branch]) && Distinct(nodes[c := made])
  {
    hide Front;
  }

  lemma EnteredAgrees(s: State, c: Place)
    requires Agreeing(s) && c != []
    ensures Agreeing(Entered(s, c))
    ensures c !in s.r ==> (Shared(s, c) <==> Shared(s, Front(c)))
    ensures Shared(s, Front(c)) ==> (c in s.r <==> c in s.d)
  {
    if Shared(s, Front(c)) {
      SharedBelow(s, Front(c), c);
      SharedSame(s, c);
    }
    forall q | q in s.roots && q <= c && c !in s.r ensures q <= Front(c) {
      if q != c { PrefixOfFront(q, c); }
    }
    hide Front, Shared;
    forall q | q in s.roots
      ensures IsBranch(Entered(s, c).d, q) && IsBranch(Entered(s, c).r, q) && SameBelow(Entered(s, c), q)
    {
      assert SameBelow(s, q);
      if c !in s.r && q <= c { SharedFrom(s, q, Front(c)); }
    }
  }

  lemma SharedFrom(s: State, q: Place, p: Place)
    requires q in s.roots && q <= p
    ensures Shared(s, p)
  {}

  /** One step of the walk: make the dictionary if it is missing, and enter it. */
  method Descend(ghost default: DictNode, ghost nodesD: Nodes, ghost result: DictNode, ghost nodesR: Nodes,
                 ghost s: State, current: DictNode, ghost at: Place, part: string)
    returns (next: DictNode, ghost nodesD': Nodes, ghost nodesR': Nodes)
    requires Holds(default, nodesD, result, nodesR, s)
    requires at in nodesR && nodesR[at] == current && !IsEnd(s.r, Child(at, part))
    modifies current
    ensures Holds(default, nodesD', result, nodesR', Entered(s, Child(at, part)))
    ensures Child(at, part) in nodesR' && nodesR'[Child(at, part)] == next
    ensures Extended(nodesR, nodesR') && Extended(nodesD, nodesD')
  {
    hide Child, EntriesFit, Shared, Agreeing, IsTree;
    ghost var c := Child(at, part);
    nodesD', nodesR' := nodesD, nodesR;
    ChildFacts();
    EnteredAgrees(s, c);
    EntryLeads(result, nodesR, s.r, at, part);
    if part !in current.entries {
      var made := new DictNode();
      ghost var s' := Entered(s, c);
      nodesR' := nodesR[c := made];
      if Shared(s, at) { nodesD' := nodesD[c := made]; }
      AddedFitsAll(result, nodesR, s.r, at, part, made);
      if Shared(s, at) {
        SharedSame(s, at);
        AddedFitsAll(default, nodesD, s.d, at, part, made);
      }
      LinkAdded(nodesR, nodesD, s, c, made);
      current.entries := current.entries[part := Made(made)];
    }
    next := current.entries[part].dict;
  }

  /** What was there stays; all else is new. */
  twostate predicate Extended(nodes: Nodes, new nodes': Nodes) {
    && (forall p :: p in nodes ==> p in nodes' && nodes'[p] == nodes[p])
    && (forall p :: p in nodes' && p !in nodes ==> fresh(nodes'[p]))
  }

  lemma EntryLeads(root: DictNode, nodes: Nodes, t: Shape, at: Place, k: string)
    requires Represents(root, nodes, t) && at in nodes && !IsEnd(t, Child(at, k))
    ensures k in nodes[at].entries <==> Child(at, k) in t
    ensures k in nodes[at].entries ==> Child(at, k) in nodes && nodes[at].entries[k] == Made(nodes[Child(at, k)])
  {
    assert EntriesFit(nodes[at].entries, nodes, t, at);
  }

  lemma AddedFitsAll(root: DictNode, nodes: Nodes, t: Shape, at: Place, k: string, made: DictNode)
    requires Represents(root, nodes, t) && at in nodes && Child(at, k) !in t && made !in nodes.Values
    ensures var c := Child(at, k);
      var nodes', t' := nodes[c := made], t[c := Branch];
      && IsTree(t') && NodesFit(nodes', t') && Distinct(nodes')
      && EntriesFit(map[], nodes', t', c)
      && forall p :: p in nodes ==>
           EntriesFit(if p == at then nodes[p].entries[k := Made(made)] else nodes[p].entries, nodes', t', p)
  {
    hide Child, EntriesFit, IsTree;
    var c := Child(at, k);
    ChildFacts();
    TreeAdded(nodes, t, c, made);
    EmptyFits(nodes, t, c, made);
    forall p | p in nodes
      ensures EntriesFit(if p == at then nodes[p].entries[k := Made(made)] else nodes[p].entries,
                         nodes[c := made], t[c := Branch], p)
    {
      AddedFits(nodes[p].entries, nodes, t, p, at, k, made);
    }
  }

  lemma LinkAdded(nodesR: Nodes, nodesD: Nodes, s: State, c: Place, made: DictNode)
    requires Linked(nodesR, nodesD, s) && Agreeing(s) && c != [] && c !in s.r
    requires NodesFit(nodesR, s.r) && NodesFit(nodesD, s.d)
    requires made !in nodesR.Values && made !in nodesD.Values
    ensures Linked(nodesR[c := made], if Shared(s, Front(c)) then nodesD[c := made] else nodesD, Entered(s, c))
  {
    EnteredAgrees(s, c);
    hide Agreeing, Front, AtOrBelow;
  }

  // The walk.

  lemma StartOfWay(s: State, place: Place)
    requires place != [] && IsTree(s.d) && IsTree(s.r)
    ensures WithWay(s, place, 1) == s
  {
    WithPathOne(s.d, place);
    WithPathOne(s.r, place);
  }

  lemma WithPathOne(t: Shape, place: Place)
    requires place != [] && IsTree(t)
    ensures WithPath(t, place, 1) == t
  {
    forall p: Place ensures p in WithPath(t, place, 1) <==> p in t {
      if |p| < 1 { assert p == []; }
    }
  }

  lemma WayGoesOn(s: State, place: Place, n: nat)
    requires 0 < n < |place| && IsTree(s.d) && IsTree(s.r) && Agreeing(s)
    ensures Entered(WithWay(s, place, n), place[..n]) == WithWay(s, place, n + 1)
  {
    var c := place[..n];
    WithPathNext(s.d, place, n);
    WithPathNext(s.r, place, n);
    OnWayShared(s, place, n);
    hide WithPath, Shared, Agreeing, IsTree;
  }

  lemma WithPathNext(t: Shape, place: Place, n: nat)
    requires n < |place|
    ensures var c := place[..n];
      && (c in WithPath(t, place, n) <==> c in t)
      && WithPath(t, place, n + 1) == if c in t then WithPath(t, place, n) else WithPath(t, place, n)[c := Branch]
  {
    var c := place[..n];
    forall p: Place ensures p <= place && |p| < n + 1 <==> (p <= place && |p| < n) || p == c {
      if p <= place { assert p == place[..|p|]; }
    }
    hide WithPath;
  }

  /** If the way is shared at its end, it is so at `n`, or what it has there is in both. */
  lemma OnWayShared(s: State, place: Place, n: nat)
    requires 0 < n < |place| && IsTree(s.d) && IsTree(s.r) && Agreeing(s)
    ensures var c := place[..n];
      && (Shared(s, Front(c)) ==> Shared(s, Front(place)))
      && (Shared(s, Front(place)) && c in s.r ==> c in s.d)
      && (Shared(s, Front(place)) && c !in s.r ==> Shared(s, Front(c)))
  {
    var c := place[..n];
    hide IsTree;
    FrontOfStep(place, n);
    if Shared(s, Front(c)) { SharedBelow(s, Front(c), Front(place)); }
    if Shared(s, Front(place)) {
      var q :| q in s.roots && q <= Front(place);
      Transitive(q, Front(place), place);
      TwoPrefixes(c, q, place);
      if q <= c {
        assert SameBelow(s, q);
        if q != c { PrefixOfFront(q, c); }
      } else {
        AboveIsBranch(s.d, c, q);
        AboveIsBranch(s.r, c, q);
      }
    }
  }

  lemma FrontOfStep(place: Place, n: nat)
    requires 0 < n < |place|
    ensures Front(place[..n]) == place[..n - 1] && Front(place[..n]) <= Front(place)
  {}

  /** The walk along the moving reference to the dictionary of the last name. Meeting a
      value on the way, the walk stops. */
  method WalkTo(ghost default: DictNode, ghost nodesD0: Nodes, result: DictNode, ghost nodesR0: Nodes,
                ghost s: State, parts: seq<string>)
    returns (found: Option<DictNode>, ghost nodesD: Nodes, ghost nodesR: Nodes)
    requires parts != [] && Holds(default, nodesD0, result, nodesR0, s)
    modifies nodesD0.Values, nodesR0.Values
    ensures found.Some? <==> !Blocked(s.r, parts)
    ensures found.Some? ==> Holds(default, nodesD, result, nodesR, WithWay(s, parts, |parts|))
    ensures found.Some? ==> Front(parts) in nodesR && nodesR[Front(parts)] == found.value
    ensures Extended(nodesR0, nodesR) && Extended(nodesD0, nodesD)
  {
    hide EntriesFit, Agreeing, Distinct, IsTree, Blocked, Above, Linked, NodesFit, WithWay, Entered;
    StartOfWay(s, parts);
    nodesD, nodesR := nodesD0, nodesR0;
    var current := result;
    RootIsBranch(s.r);
    assert parts[..0] == [];
    for j := 0 to |parts| - 1
      invariant Holds(default, nodesD, result, nodesR, WithWay(s, parts, j + 1))
      invariant parts[..j] in nodesR && current == nodesR[parts[..j]]
      invariant forall k :: 0 <= k <= j ==> !IsEnd(s.r, parts[..k])
      invariant Extended(nodesR0, nodesR) && Extended(nodesD0, nodesD)
    {
      ghost var way, c := WithWay(s, parts, j + 1), parts[..j + 1];
      assert Child(parts[..j], parts[j]) == c;
      EndsOnWay(s, parts, j + 1);
      EntryIsValue(result, nodesR, way.r, parts[..j], parts[j]);
      if parts[j] in current.entries && current.entries[parts[j]].Given? {
        StepIsAbove(s.r, parts, j + 1);
        return None, nodesD, nodesR;
      }
      WayGoesOn(s, parts, j + 1);
      current, nodesD, nodesR := Descend(default, nodesD, result, nodesR, way, current, parts[..j], parts[j]);
    }
    NotBlocked(s.r, parts);
    return Some(current), nodesD, nodesR;
  }

  lemma EndsOnWay(s: State, place: Place, n: nat)
    requires n < |place|
    ensures IsEnd(WithWay(s, place, n).r, place[..n]) <==> IsEnd(s.r, place[..n])
  {}

  lemma StepIsAbove(t: Shape, place: Place, n: nat)
    requires n < |place| && IsEnd(t, place[..n])
    ensures Blocked(t, place)
  {
    assert Above(place[..n], place);
  }

  lemma NotBlocked(t: Shape, place: Place)
    requires forall k :: 0 <= k < |place| ==> !IsEnd(t, place[..k])
    ensures !Blocked(t, place)
  {
    forall c | Above(c, place) ensures c == place[..|c|] {}
  }

  lemma EntryIsValue(root: DictNode, nodes: Nodes, t: Shape, p: Place, k: string)
    requires Represents(root, nodes, t) && p in nodes
    ensures IsEnd(t, Child(p, k)) <==> k in nodes[p].entries && nodes[p].entries[k].Given?
  {
    assert EntriesFit(nodes[p].entries, nodes, t, p);
    if k in nodes[p].entries { assert IsBranch(t, Child(p, k)) ==> Child(p, k) in nodes; }
  }

  // The assignment.

  /** The dictionaries when `place` and all below it are replaced. */
  function Grafted(nodes: Nodes, place: Place, item: Item, from: Nodes): (r: Nodes)
    ensures forall p :: p in r <==> if place <= p then item.Branch? && p in from else p in nodes
    ensures forall p :: p in r ==> r[p] == if place <= p then from[p] else nodes[p]
  {
    var kept := set p | p in nodes && !(place <= p);
    var put := if item.Branch? then set p | p in from && place <= p else {};
    map p | p in kept + put :: if place <= p then from[p] else nodes[p]
  }

  lemma BelowChild(place: Place, p: Place, k: string)
    ensures place <= Child(p, k) <==> place <= p || place == Child(p, k)
    ensures place == Child(p, k) ==> !(place <= p)
  {
    if place <= Child(p, k) && place != Child(p, k) { assert place == Child(p, k)[..|place|] == p[..|place|]; }
    if place <= p { assert place == Child(p, k)[..|place|]; }
  }

  /** The entry that is assigned. */
  function Assignee(item: Item, from: Nodes, place: Place): Entry {
    match item
    case End(leaf) => Given(leaf)
    case Branch => if place in from then Made(from[place]) else Given(NoneLeaf)
  }

  lemma GraftedEntry(nodes: Nodes, t: Shape, place: Place, item: Item, fromNodes: Nodes, from: Shape, c: Place)
    requires item.Branch? ==> IsBranch(from, place)
    ensures var nodes', t' := Grafted(nodes, place, item, fromNodes), Replaced(t, place, item, from);
      if !(place <= c) then (c in t' <==> c in t) && EntryOf(nodes', t', c) == EntryOf(nodes, t, c)
      else
        && (c == place ==> c in t' && EntryOf(nodes', t', c) == Assignee(item, fromNodes, place))
        && (item.Branch? ==> (c in t' <==> c in from) && EntryOf(nodes', t', c) == EntryOf(fromNodes, from, c))
  {
    hide Grafted, Replaced;
  }

  lemma AssignedFits(entries: map<string, Entry>, nodes: Nodes, t: Shape, p: Place, at: Place, k: string, item: Item,
                     fromNodes: Nodes, from: Shape)
    requires EntriesFit(entries, nodes, t, p) && !(Child(at, k) <= p)
    requires item.Branch? ==> IsBranch(from, Child(at, k))
    ensures var place := Child(at, k);
      EntriesFit(if p == at then entries[k := Assignee(item, fromNodes, place)] else entries,
                 Grafted(nodes, place, item, fromNodes), Replaced(t, place, item, from), p)
  {
    var place := Child(at, k);
    hide Child, Grafted, Replaced, EntryOf;
    ChildFacts();
    forall j ensures place <= Child(p, j) <==> p == at && j == k { BelowChild(place, p, j); }
    forall j { GraftedEntry(nodes, t, place, item, fromNodes, from, Child(p, j)); }
  }

  /** Below the place all is as where it was taken from. */
  lemma TakenFits(entries: map<string, Entry>, nodes: Nodes, t: Shape, p: Place, place: Place, item: Item,
                  fromNodes: Nodes, from: Shape)
    requires EntriesFit(entries, fromNodes, from, p) && place <= p && item.Branch?
    ensures EntriesFit(entries, Grafted(nodes, place, item, fromNodes), Replaced(t, place, item, from), p)
  {
    hide Child, Grafted, Replaced;
    forall j ensures place <= Child(p, j) { BelowChild(place, p, j); }
  }

  lemma TreeReplaced(nodes: Nodes, t: Shape, place: Place, item: Item, fromNodes: Nodes, from: Shape)
    requires IsTree(t) && NodesFit(nodes, t) && IsTree(from) && NodesFit(fromNodes, from)
    requires place != [] && IsBranch(t, Front(place)) && (item.Branch? ==> IsBranch(from, place))
    ensures IsTree(Replaced(t, place, item, from))
    ensures NodesFit(Grafted(nodes, place, item, fromNodes), Replaced(t, place, item, from))
  {
    var t' := Replaced(t, place, item, from);
    forall p | p in t' && p != [] ensures IsBranch(t', Front(p)) { FrontCases(place, p); }
    hide Front;
  }

  lemma GraftedDistinct(nodes: Nodes, place: Place, item: Item, from: Nodes)
    requires Distinct(nodes) && Distinct(from)
    requires item.Branch? ==> forall p, q :: p in nodes && q in from && p != q ==> nodes[p] != from[q]
    ensures Distinct(Grafted(nodes, place, item, from))
  {
    hide Grafted;
  }

  ghost predicate FitFrom(nodes: Nodes, t: Shape, place: Place)
    reads nodes.Values
  {
    && IsTree(t) && NodesFit(nodes, t) && Distinct(nodes)
    && forall p :: p in nodes && place <= p ==> EntriesFit(nodes[p].entries, nodes, t, p)
  }

  lemma AssignedFitsAll(root: DictNode, nodes: Nodes, t: Shape, at: Place, k: string, item: Item,
                        fromNodes: Nodes, from: Shape)
    requires Represents(root, nodes, t) && at in nodes && FitFrom(fromNodes, from, Child(at, k))
    requires item.Branch? ==> IsBranch(from, Child(at, k))
    requires item.Branch? ==> forall p, q :: p in nodes && q in fromNodes && p != q ==> nodes[p] != fromNodes[q]
    ensures var place := Child(at, k);
      var nodes', t' := Grafted(nodes, place, item, fromNodes), Replaced(t, place, item, from);
      && IsTree(t') && NodesFit(nodes', t') && Distinct(nodes') && [] in nodes' && nodes'[[]] == root
      && forall p :: p in nodes' ==>
           EntriesFit(if p == at then nodes'[p].entries[k := Assignee(item, fromNodes, place)] else nodes'[p].entries,
                      nodes', t', p)
  {
    hide Child, EntriesFit, IsTree, Assignee;
    var place := Child(at, k);
    var nodes', t' := Grafted(nodes, place, item, fromNodes), Replaced(t, place, item, from);
    ChildFacts();
    BelowChild(place, at, k);
    TreeReplaced(nodes, t, place, item, fromNodes, from);
    GraftedDistinct(nodes, place, item, fromNodes);
    forall p | p in nodes'
      ensures EntriesFit(if p == at then nodes'[p].entries[k := Assignee(item, fromNodes, place)]
                         else nodes'[p].entries,
                         nodes', t', p)
    {
      if place <= p {
        TakenFits(nodes'[p].entries, nodes, t, p, place, item, fromNodes, from);
      } else {
        AssignedFits(nodes'[p].entries, nodes, t, p, at, k, item, fromNodes, from);
      }
    }
  }

  lemma SharedAfter(s: State, place: Place, item: Item, p: Place)
    ensures !(place <= p) ==> (Shared(Assigned(s, place, item), p) <==> Shared(s, p))
    ensures place <= p && item.Branch? ==> Shared(Assigned(s, place, item), p)
  {
    var s' := Assigned(s, place, item);
    hide Replaced;
    if !(place <= p) && Shared(s, p) {
      var q :| q in s.roots && q <= p;
      Transitive(place, q, p);
      assert q in s'.roots;
    }
    if !(place <= p) && Shared(s', p) {
      var q :| q in s'.roots && q <= p;
      assert q in s.roots;
    }
    if place <= p && item.Branch? { assert place in s'.roots; }
  }

  lemma LinkAssigned(nodesR: Nodes, nodesD: Nodes, nodesD': Nodes, s: State, place: Place, item: Item)
    requires Linked(nodesR, nodesD, s) && Distinct(nodesD)
    requires nodesD' == nodesD || nodesD' == Grafted(nodesD, place, item, nodesD)
    ensures Linked(Grafted(nodesR, place, item, nodesD'), nodesD', Assigned(s, place, item))
  {
    forall p { SharedAfter(s, place, item, p); }
    hide Grafted, Assigned, Shared;
  }

  lemma AssignedParts(s: State, place: Place, item: Item)
    ensures var s' := Assigned(s, place, item);
      && s'.d == (if Shared(s, Front(place)) then Replaced(s.d, place, item, s.d) else s.d)
      && s'.r == Replaced(s.r, place, item, s'.d)
      && (item.Branch? && IsBranch(s.d, place) ==> IsBranch(s'.d, place))
  {
    hide Shared;
  }

  /** The dictionary entered is one of the default file exactly if it is shared. */
  lemma CurrentInDefault(nodesR: Nodes, nodesD: Nodes, s: State, at: Place)
    requires Linked(nodesR, nodesD, s) && at in nodesR
    ensures forall p :: p in nodesD ==> (nodesD[p] == nodesR[at] <==> p == at && Shared(s, at))
    ensures forall p, q :: p in nodesR && q in nodesD && p != q ==> nodesR[p] != nodesD[q]
  {
    hide Shared;
  }

  lemma FitsBelow(root: DictNode, nodes: Nodes, t: Shape, place: Place)
    requires Represents(root, nodes, t)
    ensures FitFrom(nodes, t, place)
  {}

  /** The last assignment of a key: it replaces what was there, a dictionary with all
      that was in it included. */
  method SetValue(ghost default: DictNode, ghost nodesD: Nodes, ghost result: DictNode, ghost nodesR: Nodes,
                  ghost s: State, current: DictNode, ghost at: Place, finalKey: string, ghost item: Item, value: Entry)
    returns (ghost nodesD': Nodes, ghost nodesR': Nodes)
    requires Holds(default, nodesD, result, nodesR, s)
    requires at in nodesR && nodesR[at] == current && value == Assignee(item, nodesD, Child(at, finalKey))
    requires item.Branch? ==> IsBranch(s.d, Child(at, finalKey))
    modifies current
    ensures var s' := Assigned(s, Child(at, finalKey), item);
      Represents(default, nodesD', s'.d) && Represents(result, nodesR', s'.r) && Linked(nodesR', nodesD', s')
    ensures forall p :: p in nodesD' ==> p in nodesD && nodesD'[p] == nodesD[p]
    ensures nodesR'.Values <= nodesR.Values + nodesD.Values
  {
    hide Child, EntriesFit, Shared, Agreeing, IsTree, Assigned, Assignee, Grafted, Replaced, Linked;
    ghost var place := Child(at, finalKey);
    ghost var s' := Assigned(s, place, item);
    AssignedParts(s, place, item);
    CurrentInDefault(nodesR, nodesD, s, at);
    FitsBelow(default, nodesD, s.d, place);
    ChildFacts();
    BelowChild(place, at, finalKey);
    nodesD' := nodesD;
    if Shared(s, at) {
      SharedSame(s, at);
      AssignedFitsAll(default, nodesD, s.d, at, finalKey, item, nodesD, s.d);
      nodesD' := Grafted(nodesD, place, item, nodesD);
    }
    AssigneeStays(item, nodesD, nodesD', place);
    AssignedFitsAll(result, nodesR, s.r, at, finalKey, item, nodesD', s'.d);
    LinkAssigned(nodesR, nodesD, nodesD', s, place, item);
    nodesR' := Grafted(nodesR, place, item, nodesD');
    current.entries := current.entries[finalKey := value];
  }

  /** The places kept have kept their dictionaries; all else is new. */
  twostate predicate KeptOrNew(nodes: Nodes, new nodes': Nodes) {
    forall p :: p in nodes' ==> if p in nodes then nodes'[p] == nodes[p] else fresh(nodes'[p])
  }

  /** The body of the loop over the keys. */
  method InsertKey(default: DictNode, ghost nodesD0: Nodes, result: DictNode, ghost nodesR0: Nodes, ghost s: State,
                   key: string)
    returns (ok: bool, ghost nodesD: Nodes, ghost nodesR: Nodes)
    requires Holds(default, nodesD0, result, nodesR0, s)
    modifies nodesD0.Values, nodesR0.Values
    ensures ok <==> !Blocked(s.r, PlaceOf(s.d, key))
    ensures ok ==> Holds(default, nodesD, result, nodesR, Insert(s, key, PlaceOf(s.d, key)))
    ensures KeptOrNew(nodesD0, nodesD)
    ensures forall x :: x in nodesR.Values ==> x in nodesR0.Values || x in nodesD0.Values || fresh(x)
  {
    hide Represents, Agreeing, Blocked, Above, Linked, WithWay, PlaceOf, Assigned, Assignee, Wanted;
    hide HeapWalk, HeapNestedValue, EntryOf;
    RootIsNode(result, nodesR0, s.r);
    RootIsNode(default, nodesD0, s.d);
    nodesD, nodesR := nodesD0, nodesR0;
    ghost var place, item := PlaceOf(s.d, key), Wanted(s.d, key, PlaceOf(s.d, key));
    var defaultValue := GetNestedValue(default, nodesD, s.d, key);
    LookupFinds(default, nodesD, s.d, key);
    var value := if defaultValue != Given(NoneLeaf) then defaultValue else Given(Text("TODO: Translate '" + key + "'"));
    ValueIsWanted(nodesD, s.d, key);
    InsertKeepsAgreeing(s, key, place);
    TopEntry(default, nodesD, s.d, key);
    if key in default.entries || '.' !in key {
      StartOfWay(s, place);
      assert Child([], key) == place;
      TopIsFree(s.r, key);
      nodesD, nodesR := SetValue(default, nodesD, result, nodesR, s, result, [], key, item, value);
    } else {
      var parts := Names(key);
      var current;
      current, nodesD, nodesR := WalkTo(default, nodesD, result, nodesR, s, parts);
      if current.None? { return false, nodesD, nodesR; }
      assert Child(Front(parts), parts[|parts| - 1]) == parts;
      WayKeepsBranches(s, parts, parts);
      AssigneeStays(item, nodesD0, nodesD, parts);
      nodesD, nodesR := SetValue(default, nodesD, result, nodesR, WithWay(s, parts, |parts|),
                                 current.value, Front(parts), parts[|parts| - 1], item, value);
    }
    ok := true;
  }

  lemma RootIsNode(root: DictNode, nodes: Nodes, t: Shape)
    requires Represents(root, nodes, t)
    ensures [] in nodes && nodes[[]] == root && NodesFit(nodes, t) && IsTree(t)
  {}

  lemma ValueIsWanted(nodes: Nodes, d: Shape, key: string)
    requires NodesFit(nodes, d)
    ensures var place := PlaceOf(d, key);
      var found := EntryOf(nodes, d, place);
      Assignee(Wanted(d, key, place), nodes, place) ==
        if found != Given(NoneLeaf) then found else Given(Text("TODO: Translate '" + key + "'"))
    ensures Wanted(d, key, PlaceOf(d, key)).Branch? ==> IsBranch(d, PlaceOf(d, key))
  {
    hide PlaceOf;
  }

  lemma AssigneeStays(item: Item, nodes: Nodes, nodes': Nodes, place: Place)
    requires item.Branch? ==> place in nodes && place in nodes' && nodes'[place] == nodes[place]
    ensures Assignee(item, nodes', place) == Assignee(item, nodes, place)
  {}

  lemma WayKeepsBranches(s: State, place: Place, p: Place)
    ensures IsBranch(s.d, p) ==> IsBranch(WithWay(s, place, |place|).d, p)
  {}

  /** Where the key's value goes, as the source decides it. */
  lemma TopEntry(default: DictNode, nodes: Nodes, d: Shape, key: string)
    requires Represents(default, nodes, d)
    ensures PlaceOf(d, key) == if key in default.entries || '.' !in key then [key] else Names(key)
  {
    assert EntriesFit(default.entries, nodes, d, []);
    assert Child([], key) == [key];
  }

  /** Nothing stands above a place at the top. */
  lemma TopIsFree(t: Shape, key: string)
    requires IsTree(t)
    ensures !Blocked(t, [key])
  {
    RootIsBranch(t);
    forall c | Above(c, [key]) ensures c == [] {}
  }

  /** The loop over the keys. */
  method CreateNestedDictFromKeys(keys: seq<string>, default: DictNode, ghost nodesD0: Nodes, ghost d0: Shape)
    returns (ok: bool, result: DictNode, ghost nodesD: Nodes, ghost nodesR: Nodes)
    requires Represents(default, nodesD0, d0)
    modifies nodesD0.Values
    ensures ok <==> Run(d0, keys, |keys|).Some?
    ensures ok ==> Holds(default, nodesD, result, nodesR, Run(d0, keys, |keys|).value)
    ensures ok ==> StillThere(nodesD0, nodesD)
  {
    hide Agreeing, Linked, NodesFit, PlaceOf, Insert, Blocked, Represents, Kept, Grown, Placed, IsTree, StillThere;
    result := new DictNode();
    nodesD, nodesR := nodesD0, map[[] := result];
    RootIsNode(default, nodesD0, d0);
    StartsThere(nodesD0);
    StartHolds(default, nodesD0, d0, result);
    for i := 0 to |keys|
      invariant Run(d0, keys, i).Some?
      invariant Holds(default, nodesD, result, nodesR, Run(d0, keys, i).value)
      invariant StillThere(nodesD0, nodesD)
      invariant forall x :: x in nodesD.Values ==> x in nodesD0.Values || fresh(x)
      invariant forall x :: x in nodesR.Values ==> x in nodesD0.Values || fresh(x)
    {
      ghost var s, was := Run(d0, keys, i).value, nodesD;
      RunIsGood(d0, keys, i);
      SamePlaceInDefault(d0, keys, i, s, keys[i]);
      ok, nodesD, nodesR := InsertKey(default, nodesD, result, nodesR, s, keys[i]);
      if !ok {
        RaisingStays(d0, keys, i + 1);
        return false, result, nodesD, nodesR;
      }
      RunIsGood(d0, keys, i + 1);
      RootIsNode(default, nodesD, Run(d0, keys, i + 1).value.d);
      DefaultNodesStay(d0, nodesD0, was, nodesD, Run(d0, keys, i + 1).value.d);
    }
    ok := true;
  }

  /** The default file still has the dictionaries it had. */
  ghost predicate StillThere(nodes0: Nodes, nodes: Nodes) {
    forall p :: p in nodes0 ==> p in nodes && nodes[p] == nodes0[p]
  }

  lemma StartsThere(nodes: Nodes)
    ensures StillThere(nodes, nodes)
  {}

  lemma DefaultNodesStay(d0: Shape, nodesD0: Nodes, was: Nodes, nodesD: Nodes, d: Shape)
    requires StillThere(nodesD0, was) && NodesFit(nodesD0, d0) && NodesFit(nodesD, d) && Kept(d0, d)
    requires forall p :: p in nodesD && p in was ==> nodesD[p] == was[p]
    ensures StillThere(nodesD0, nodesD)
  {
    forall p | p in nodesD0 ensures p in nodesD { EndStays(d0, d, p); }
  }

  lemma StartHolds(default: DictNode, nodesD: Nodes, d0: Shape, result: DictNode)
    requires Represents(default, nodesD, d0) && result !in nodesD.Values && result.entries == map[]
    ensures Holds(default, nodesD, result, map[[] := result], State(d0, map[[] := Branch], {}))
  {
    assert forall p, k :: Child(p, k) != [];
  }

  lemma {:induction false} RaisingStays(d0: Shape, keys: seq<string>, n: nat)
    requires n <= |keys| && Run(d0, keys, n).None?
    ensures Run(d0, keys, |keys|).None?
    decreases |keys| - n
  {
    hide Insert, Blocked, PlaceOf;
    if n < |keys| { RaisingStays(d0, keys, n + 1); }
  }

  // What is found in the end.

  /** What a key is to give: the default file's value as it was, a dictionary itself, and
      the text that asks for a translation if there is none. */
  function Asked(d0: Shape, nodesD0: Nodes, key: string): Entry {
    if Has(d0, PlaceOf(d0, key)) then EntryOf(nodesD0, d0, PlaceOf(d0, key))
    else Given(Text("TODO: Translate '" + key + "'"))
  }

  lemma FoundIsRight(default: DictNode, nodesD0: Nodes, nodesD: Nodes, result: DictNode, nodesR: Nodes, s: State,
                     d0: Shape, keys: seq<string>, key: string)
    requires Holds(default, nodesD, result, nodesR, s) && StillThere(nodesD0, nodesD) && NodesFit(nodesD0, d0)
    requires Good(d0, keys, |keys|, s) && Held(s, PlaceOf(d0, key))
    ensures HeapNestedValue(result, key, nodesR.Values) == Asked(d0, nodesD0, key) <==> Right(d0, s, key)
  {
    var place := PlaceOf(d0, key);
    SamePlaceInResult(d0, keys, |keys|, s, key);
    LookupFinds(result, nodesR, s.r, key);
    hide HeapNestedValue, PlaceOf, Good, Held, Agreeing, EntriesFit, IsTree, Shared;
    assert place in nodesD0 ==> place in nodesD;
    assert place in nodesR && place in nodesD ==> (nodesR[place] == nodesD[place] <==> Shared(s, place));
  }

  /** What lookup finds for one key, once the loop has gone through: its default value or
      its text, exactly if the default file has the key, or no key of the list stands above
      it, or of those that go to its place or through it below an earlier one it is first. */
  lemma FoundExactly(default: DictNode, nodesD0: Nodes, nodesD: Nodes, result: DictNode, nodesR: Nodes,
                     d0: Shape, keys: seq<string>, i: nat)
    requires IsTree(d0) && NodesFit(nodesD0, d0) && i < |keys| && Run(d0, keys, |keys|).Some?
    requires Holds(default, nodesD, result, nodesR, Run(d0, keys, |keys|).value) && StillThere(nodesD0, nodesD)
    ensures var p := PlaceOf(d0, keys[i]);
      HeapNestedValue(result, keys[i], nodesR.Values) == Asked(d0, nodesD0, keys[i]) <==>
        Has(d0, p) || !SomeAbove(d0, keys, |keys|, p) || FirstEnds(d0, keys, |keys|, p)
  {
    hide Run, HeapNestedValue, Asked, Right, Holds, NodesFit, StillThere, IsTree, Good, Held, PlaceOf;
    hide Has, SomeAbove, FirstEnds;
    RunIsGood(d0, keys, |keys|);
    KeysAreHeld(d0, keys, |keys|, i);
    FoundIsRight(default, nodesD0, nodesD, result, nodesR, Run(d0, keys, |keys|).value, d0, keys, keys[i]);
    RightExactly(d0, keys, i);
  }

  /** Main result: the loop goes through and every key of the list, looked up by
      get_nested_value in what was built, gives its default value (a dictionary itself, not
      a copy) or its TODO text, if and only if the keys are compatible: where one extends
      another, the other's value is a dictionary of the default file, and this has the
      extending key or takes it up. */
  lemma EveryKeyIsFound(default: DictNode, nodesD0: Nodes, nodesD: Nodes, result: DictNode, nodesR: Nodes,
                        d0: Shape, keys: seq<string>)
    requires IsTree(d0) && NodesFit(nodesD0, d0)
    requires var run := Run(d0, keys, |keys|);
      run.Some? ==> Holds(default, nodesD, result, nodesR, run.value) && StillThere(nodesD0, nodesD)
    ensures (&& Run(d0, keys, |keys|).Some?
             && forall i :: 0 <= i < |keys| ==>
                  HeapNestedValue(result, keys[i], nodesR.Values) == Asked(d0, nodesD0, keys[i]))
       <==> Compatible(d0, keys)
  {
    hide Run, Compatible, HeapNestedValue, Asked, Right, Holds, NodesFit, StillThere, IsTree, Good, Held, PlaceOf;
    RightExactlyWhenCompatible(d0, keys);
    if Run(d0, keys, |keys|).Some? {
      var s := Run(d0, keys, |keys|).value;
      RunIsGood(d0, keys, |keys|);
      forall i | 0 <= i < |keys|
        ensures HeapNestedValue(result, keys[i], nodesR.Values) == Asked(d0, nodesD0, keys[i]) <==>
          Right(d0, s, keys[i])
      {
        KeysAreHeld(d0, keys, |keys|, i);
        FoundIsRight(default, nodesD0, nodesD, result, nodesR, s, d0, keys, keys[i]);
      }
    }
  }
}