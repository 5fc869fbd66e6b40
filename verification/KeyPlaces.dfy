/** The loop of create_nested_dict_from_keys on places: what the result and the default
    file hold after each key, the result holding some of the default file's own
    dictionaries, and exactly for which keys everything asked for is found. */
module KeyPlaces {
  import opened Options
  import opened Splitting
  import opened Translations

  /** A place in nested dictionaries: the names that lead to it. */
  type Place = seq<string>

  /** A value that is no dictionary; JSON's null is Python's None. */
  datatype Leaf = NoneLeaf | Text(text: string)

  /** What is at a place: a dictionary or a value. */
  datatype Item = Branch | End(leaf: Leaf)

  type Shape = map<Place, Item>

  function Front(p: Place): Place { if p == [] then [] else p[..|p| - 1] }

  predicate Above(p: Place, q: Place) { p <= q && p != q }

  predicate IsBranch(t: Shape, p: Place) { p in t && t[p].Branch? }

  predicate IsEnd(t: Shape, p: Place) { p in t && t[p].End? }

  /** Every place lies in a dictionary. */
  ghost predicate IsTree(t: Shape) {
    IsBranch(t, []) && forall p {:trigger Front(p)} :: p in t ==> IsBranch(t, Front(p)) || p == []
  }

  lemma {:induction false} AboveIsBranch(t: Shape, p: Place, q: Place)
    requires IsTree(t) && q in t && Above(p, q)
    ensures IsBranch(t, p)
    decreases |q|
  {
    if p != Front(q) {
      assert Above(p, Front(q)) by { PrefixOfFront(p, q); }
      AboveIsBranch(t, p, Front(q));
    } else {
      assert q in t && q != [];
    }
  }

  lemma PrefixOfFront(p: Place, q: Place)
    requires Above(p, q)
    ensures p <= Front(q)
  {
    assert p == q[..|p|] == Front(q)[..|p|];
  }

  lemma Transitive(p: Place, q: Place, r: Place)
    ensures p <= q && q <= r ==> p <= r
  {}

  lemma TwoPrefixes(p: Place, q: Place, r: Place)
    requires p <= r && q <= r
    ensures p <= q || q <= p
  {}

  // Keys and their places.

  /** Where a key's value goes: at the top level if the default file has the whole key or
      the key has no dot, else below the names between its dots. The default file has the
      key's value, if it has one, at the same place. */
  function PlaceOf(d: Shape, key: string): (p: Place)
    ensures p != []
  {
    if [key] in d || '.' !in key then [key] else Names(key)
  }

  function Todo(key: string): Item { End(Text("TODO: Translate '" + key + "'")) }

  /** The default file has something other than null there. */
  predicate Has(d: Shape, p: Place) { p in d && d[p] != End(NoneLeaf) }

  /** The value of a key: what the default file has, or the text that asks for one. */
  function Wanted(d: Shape, key: string, place: Place): Item {
    if Has(d, place) then d[place] else Todo(key)
  }

  lemma PlaceDecidesKey(d: Shape, a: string, b: string)
    requires PlaceOf(d, a) == PlaceOf(d, b)
    ensures a == b
  {
    JoinOfParts(a, '.');
    JoinOfParts(b, '.');
    PartsAreWithout(a, '.');
    PartsAreWithout(b, '.');
    assert Names(a)[0] in Names(a) && Names(b)[0] in Names(b);
    if PlaceOf(d, a) == [a] && PlaceOf(d, b) == Names(b) { SplitWhole(a, '.'); }
    if PlaceOf(d, b) == [b] && PlaceOf(d, a) == Names(a) { SplitWhole(b, '.'); }
  }

  // One key.

  /** The default file, the result, and the places at which a dictionary of the default
      file was put into the result. At and below these the two hold the same. */
  datatype State = State(d: Shape, r: Shape, roots: set<Place>)

  predicate AtOrBelow(roots: set<Place>, p: Place) { exists q :: q in roots && q <= p }

  /** The dictionary at `p` in the result is the default file's own. */
  predicate Shared(s: State, p: Place) { AtOrBelow(s.roots, p) }

  /** A value that is no dictionary stands on the way to `place`. */
  predicate Blocked(t: Shape, place: Place) { exists c :: c in t && t[c].End? && Above(c, place) }

  /** With the first `n` dictionaries on the way to `place`. */
  function WithPath(t: Shape, place: Place, n: nat): (r: Shape)
    requires n <= |place|
    ensures forall p :: p in r <==> p in t || (p <= place && |p| < n)
    ensures forall p :: p in r ==> r[p] == if p in t then t[p] else Branch
  {
    var way := set k | 0 <= k < n :: place[..k];
    assert forall p :: p in way <==> p <= place && |p| < n by {
      forall p ensures p in way <==> p <= place && |p| < n {
        if p <= place && |p| < n { assert p == place[..|p|]; }
      }
    }
    map p | p in t.Keys + way :: if p in t then t[p] else Branch
  }

  /** `place` and all below it replaced: by a value, or by what `from` has there. */
  function Replaced(t: Shape, place: Place, item: Item, from: Shape): (r: Shape)
    ensures forall p :: p in r <==>
              if place <= p then (if item.Branch? then p in from else p == place) else p in t
    ensures forall p :: p in r ==>
              r[p] == if place <= p then (if item.Branch? then from[p] else item) else t[p]
  {
    var kept := set p | p in t && !(place <= p);
    var put := if item.Branch? then set p | p in from && place <= p else {place};
    map p | p in kept + put :: if place <= p then (if item.Branch? then from[p] else item) else t[p]
  }

  /** The way to a place, made in the result, and in the default file where that is what
      the way leads through. */
  function WithWay(s: State, place: Place, n: nat): State
    requires n <= |place|
  {
    State(if Shared(s, Front(place)) then WithPath(s.d, place, n) else s.d, WithPath(s.r, place, n), s.roots)
  }

  /** The assignment at a place. */
  function Assigned(s: State, place: Place, item: Item): State {
    var d := if Shared(s, Front(place)) then Replaced(s.d, place, item, s.d) else s.d;
    State(d, Replaced(s.r, place, item, d),
          (set q | q in s.roots && !(place <= q)) + (if item.Branch? then {place} else {}))
  }

  /** The body of the loop, where nothing stands on the way. */
  function Insert(s: State, key: string, place: Place): State {
    Assigned(WithWay(s, place, |place|), place, Wanted(s.d, key, place))
  }

  /** The loop: the state after the first `n` keys, or None for a TypeError. */
  function Run(d0: Shape, keys: seq<string>, n: nat): Option<State>
    requires n <= |keys|
  {
    if n == 0 then Some(State(d0, map[[] := Branch], {}))
    else
      var key, before := keys[n - 1], Run(d0, keys, n - 1);
      if before.None? || Blocked(before.value.r, PlaceOf(d0, key)) then None
      else Some(Insert(before.value, key, PlaceOf(d0, key)))
  }

  /** What one key does to the two at each place. */
  lemma InsertAt(s: State, key: string, place: Place, p: Place)
    requires place != []
    ensures var s', item := Insert(s, key, place), Wanted(s.d, key, place);
      var into := Shared(s, Front(place));
      if place <= p then
        && (p in s'.d <==> if into && item.End? then p == place else p in s.d)
        && (p in s'.d ==> s'.d[p] == if into && item.End? then item else s.d[p])
        && (p in s'.r <==> if item.End? then p == place else p in s'.d)
        && (p in s'.r ==> s'.r[p] == if item.End? then item else s'.d[p])
      else
        && (p in s'.d <==> p in s.d || (into && Above(p, place)))
        && (p in s'.d ==> s'.d[p] == if p in s.d then s.d[p] else Branch)
        && (p in s'.r <==> p in s.r || Above(p, place))
        && (p in s'.r ==> s'.r[p] == if p in s.r then s.r[p] else Branch)
  {
    hide AtOrBelow, Wanted, WithPath, Replaced;
  }

  // What every key keeps.

  /** Key `i` of the list has this place. */
  predicate IsPlace(d0: Shape, keys: seq<string>, i: int, p: Place) {
    0 <= i < |keys| && PlaceOf(d0, keys[i]) == p
  }

  /** One of the first `n` keys has this place. */
  ghost predicate SomePlace(d0: Shape, keys: seq<string>, n: nat, p: Place) {
    exists i :: i < n && IsPlace(d0, keys, i, p)
  }

  /** One of the first `n` keys has a place above this one. */
  ghost predicate SomeAbove(d0: Shape, keys: seq<string>, n: int, p: Place) {
    exists i, q :: i < n && IsPlace(d0, keys, i, q) && Above(q, p)
  }

  /** Key `h` extends an earlier one, and goes below that to `p` or through it. */
  ghost predicate GoesTo(d0: Shape, keys: seq<string>, h: int, p: Place) {
    0 <= h < |keys| && p <= PlaceOf(d0, keys[h]) && SomeAbove(d0, keys, h, p)
  }

  /** At and below the shared places both hold the same. */
  ghost predicate Agreeing(s: State) {
    forall q :: q in s.roots ==> q != [] && IsBranch(s.d, q) && IsBranch(s.r, q) && SameBelow(s, q)
  }

  ghost predicate SameBelow(s: State, q: Place) {
    forall p :: q <= p ==> (p in s.r <==> p in s.d) && (p in s.r ==> s.r[p] == s.d[p])
  }

  /** The default file has what it had, but for nulls. */
  ghost predicate Kept(d0: Shape, d: Shape) {
    forall p :: p in d0 ==> p in d && (d[p] == d0[p] || (d0[p] == End(NoneLeaf) && d[p].End?))
  }

  /** What is new in the default file comes from keys that extend earlier ones:
      dictionaries on the way to their places, and texts at these. */
  ghost predicate Grown(d0: Shape, keys: seq<string>, n: nat, d: Shape) {
    forall p :: p in d && (p !in d0 || d[p] != d0[p]) ==> NewIn(d0, keys, n, d[p], p)
  }

  predicate MadeBy(d0: Shape, keys: seq<string>, h: int, item: Item, p: Place)
    requires 0 <= h < |keys|
  {
    if IsPlace(d0, keys, h, p) then item == Todo(keys[h]) else item.Branch?
  }

  ghost predicate NewIn(d0: Shape, keys: seq<string>, n: nat, item: Item, p: Place) {
    exists h :: h < n && GoesTo(d0, keys, h, p) && MadeBy(d0, keys, h, item, p)
  }

  /** Where the values in the result come from. */
  ghost predicate Placed(d0: Shape, keys: seq<string>, n: nat, s: State) {
    && (forall q :: q in s.roots ==> SomePlace(d0, keys, n, q))
    && (forall c :: IsEnd(s.r, c) ==> Shared(s, c) || (SomePlace(d0, keys, n, c) && !IsBranch(d0, c)))
    && DottedTops(d0, s.r)
  }

  /** A dotted name stands at the top only if it does so in the default file. */
  ghost predicate DottedTops(d0: Shape, r: Shape) { forall x :: [x] in r && '.' in x ==> [x] in d0 }

  ghost predicate Good(d0: Shape, keys: seq<string>, n: nat, s: State) {
    && IsTree(d0) && IsTree(s.d) && IsTree(s.r)
    && Agreeing(s) && Kept(d0, s.d) && Grown(d0, keys, n, s.d) && Placed(d0, keys, n, s)
  }

  lemma InsertKeepsTrees(s: State, key: string, place: Place)
    requires IsTree(s.d) && IsTree(s.r) && Agreeing(s) && place != [] && !Blocked(s.r, place)
    ensures IsTree(Insert(s, key, place).d) && IsTree(Insert(s, key, place).r)
  {
    var s' := Insert(s, key, place);
    InsertKeepsDefaultTree(s, key, place);
    hide Insert, Wanted, Shared, Agreeing;
    InsertAt(s, key, place, []);
    forall p | p in s'.r && p != [] ensures IsBranch(s'.r, Front(p)) {
      InsertAt(s, key, place, p);
      InsertAt(s, key, place, Front(p));
      FrontCases(place, p);
      OpenOnTheWay(s.r, place, Front(p));
      if place <= p && p != place { assert IsBranch(s'.d, Front(p)); }
    }
  }

  lemma FrontCases(place: Place, p: Place)
    requires place != [] && p != []
    ensures place <= Front(p) ==> place <= p && p != place
    ensures place <= p && p != place ==> place <= Front(p)
    ensures p == place || Above(p, place) ==> Above(Front(p), place)
  {
    if place <= p && p != place { PrefixOfFront(place, p); }
    if Above(p, place) { Transitive(Front(p), p, place); }
  }

  lemma OpenOnTheWay(t: Shape, place: Place, p: Place)
    requires !Blocked(t, place)
    ensures Above(p, place) && p in t ==> t[p].Branch?
  {}

  lemma InsertKeepsDefaultTree(s: State, key: string, place: Place)
    requires IsTree(s.d) && IsTree(s.r) && Agreeing(s) && place != [] && !Blocked(s.r, place)
    ensures IsTree(Insert(s, key, place).d)
  {
    var s' := Insert(s, key, place);
    hide Insert, Wanted, Agreeing;
    InsertAt(s, key, place, []);
    forall p | p in s'.d && p != [] ensures IsBranch(s'.d, Front(p)) {
      InsertAt(s, key, place, p);
      InsertAt(s, key, place, Front(p));
      FrontCases(place, p);
      if Shared(s, Front(place)) { OpenInDefault(s, place, Front(p)); }
    }
  }

  /** Where the way leads through shared dictionaries, nothing stands on it in the default
      file either. */
  lemma OpenInDefault(s: State, place: Place, p: Place)
    requires IsTree(s.d) && Agreeing(s) && place != [] && !Blocked(s.r, place) && Shared(s, Front(place))
    ensures Above(p, place) && p in s.d ==> s.d[p].Branch?
  {
    var q :| q in s.roots && q <= Front(place);
    if Above(p, place) && p in s.d {
      Transitive(q, Front(place), place);
      TwoPrefixes(p, q, place);
      OpenOnTheWay(s.r, place, p);
      if q <= p { assert SameBelow(s, q); } else { AboveIsBranch(s.d, p, q); }
    }
  }

  lemma InsertKeepsAgreeing(s: State, key: string, place: Place)
    requires Agreeing(s) && place != []
    ensures Agreeing(Insert(s, key, place))
  {
    var s', item := Insert(s, key, place), Wanted(s.d, key, place);
    RootsAfter(s, key, place);
    hide Insert, Wanted, AtOrBelow;
    forall q | q in s'.roots ensures q != [] && IsBranch(s'.d, q) && IsBranch(s'.r, q) && SameBelow(s', q) {
      InsertAt(s, key, place, q);
      if q == place { WantedThere(s.d, key, place); }
      forall p | q <= p ensures (p in s'.r <==> p in s'.d) && (p in s'.r ==> s'.r[p] == s'.d[p]) {
        InsertAt(s, key, place, p);
        if q != place { UnderRoot(s, place, q, p); }
      }
    }
  }

  lemma RootsAfter(s: State, key: string, place: Place)
    ensures var s' := Insert(s, key, place);
      forall q :: q in s'.roots <==>
                  (q in s.roots && !(place <= q)) || (q == place && Wanted(s.d, key, place).Branch?)
  {
    hide Wanted;
  }

  /** What is shared stays so, unless it is replaced. */
  lemma SharedStays(s: State, key: string, place: Place, p: Place)
    ensures Shared(s, p) && !(place <= p) ==> Shared(Insert(s, key, place), p)
  {
    RootsAfter(s, key, place);
    hide Insert;
    if Shared(s, p) && !(place <= p) {
      var q :| q in s.roots && q <= p;
      Transitive(place, q, p);
    }
  }

  lemma WantedThere(d: Shape, key: string, place: Place)
    ensures Has(d, place) <==> Wanted(d, key, place) != Todo(key) || (place in d && d[place] == Todo(key))
    ensures Has(d, place) ==> Wanted(d, key, place) == d[place]
  {}

  /** What is set below a shared place is set in both. */
  lemma UnderRoot(s: State, place: Place, q: Place, p: Place)
    requires q in s.roots && q <= p && !(place <= q) && place != []
    ensures place <= p || Above(p, place) ==> Shared(s, Front(place))
  {
    if place <= p { TwoPrefixes(q, place, p); }
    if Above(p, place) { Transitive(q, p, place); }
    if Above(q, place) { PrefixOfFront(q, place); }
  }

  lemma InsertKeepsKept(d0: Shape, s: State, key: string, place: Place)
    requires IsTree(d0) && Kept(d0, s.d) && place != []
    ensures Kept(d0, Insert(s, key, place).d)
  {
    var s', item := Insert(s, key, place), Wanted(s.d, key, place);
    hide Insert, Shared;
    forall p | p in d0 ensures p in s'.d && (s'.d[p] == d0[p] || (d0[p] == End(NoneLeaf) && s'.d[p].End?)) {
      InsertAt(s, key, place, p);
      if Above(place, p) { AboveIsBranch(d0, place, p); }
    }
  }

  /** A place that the default file gains from a key lies below an earlier key's. */
  lemma GainedBelow(d0: Shape, keys: seq<string>, s: State, i: nat, p: Place)
    requires i < |keys| && IsTree(s.d) && Agreeing(s) && Placed(d0, keys, i, s)
    requires var place := PlaceOf(d0, keys[i]);
      Shared(s, Front(place)) && (p == place || (p !in s.d && Above(p, place)))
    ensures GoesTo(d0, keys, i, p)
  {
    var place := PlaceOf(d0, keys[i]);
    hide PlaceOf;
    var q :| q in s.roots && q <= Front(place);
    TwoPrefixes(q, p, place);
    if p <= q {
      if p != q { AboveIsBranch(s.d, p, q); }
      assert false;
    }
    assert Above(q, p);
    var k :| k < i && IsPlace(d0, keys, k, q);
  }

  lemma InsertKeepsGrown(d0: Shape, keys: seq<string>, s: State, i: nat)
    requires i < |keys| && Good(d0, keys, i, s)
    ensures Grown(d0, keys, i + 1, Insert(s, keys[i], PlaceOf(d0, keys[i])).d)
  {
    var key, place := keys[i], PlaceOf(d0, keys[i]);
    var s', item := Insert(s, key, place), Wanted(s.d, key, place);
    assert IsPlace(d0, keys, i, place);
    hide Insert, Shared, PlaceOf, IsTree, Agreeing, Placed, GoesTo;
    forall p | p in s'.d && (p !in d0 || s'.d[p] != d0[p]) ensures NewIn(d0, keys, i + 1, s'.d[p], p) {
      InsertAt(s, key, place, p);
      if p in s.d && s'.d[p] == s.d[p] {
        assert NewIn(d0, keys, i, s.d[p], p);
      } else {
        GainedBelow(d0, keys, s, i, p);
        assert IsPlace(d0, keys, i, p) ==> s'.d[p] == Todo(key);
      }
    }
  }

  lemma InsertKeepsPlaced(d0: Shape, keys: seq<string>, s: State, i: nat)
    requires i < |keys| && Good(d0, keys, i, s)
    ensures Placed(d0, keys, i + 1, Insert(s, keys[i], PlaceOf(d0, keys[i])))
  {
    var key, place := keys[i], PlaceOf(d0, keys[i]);
    var s' := Insert(s, key, place);
    assert IsPlace(d0, keys, i, place);
    RootsAfter(s, key, place);
    hide Insert, Wanted, PlaceOf, IsTree, Agreeing, Grown, Kept, Shared, Has, DottedTops;
    forall c | IsEnd(s'.r, c) ensures Shared(s', c) || (SomePlace(d0, keys, i + 1, c) && !IsBranch(d0, c)) {
      EndsAfter(d0, s, key, place, c);
      if c != place && !Shared(s', c) { assert SomePlace(d0, keys, i, c); }
    }
    TopsAfter(d0, s, key);
  }

  lemma TopsAfter(d0: Shape, s: State, key: string)
    requires DottedTops(d0, s.r)
    ensures DottedTops(d0, Insert(s, key, PlaceOf(d0, key)).r)
  {
    var place := PlaceOf(d0, key);
    hide Insert, PlaceOf;
    forall x | [x] in Insert(s, key, place).r && '.' in x ensures [x] in d0 {
      InsertAt(s, key, place, [x]);
      if [x] <= place { FlatName(d0, key, x); }
      if place <= [x] { assert place == [x]; }
    }
  }

  /** Where the values of the result come from after one key. */
  lemma EndsAfter(d0: Shape, s: State, key: string, place: Place, c: Place)
    requires Kept(d0, s.d) && place != []
    requires IsEnd(Insert(s, key, place).r, c)
    ensures Shared(Insert(s, key, place), c) || (c == place && !IsBranch(d0, c)) || (IsEnd(s.r, c) && !Shared(s, c))
  {
    var s' := Insert(s, key, place);
    RootsAfter(s, key, place);
    InsertAt(s, key, place, c);
    hide Insert;
    if place <= c {
      assert Wanted(s.d, key, place).Branch? ==> place in s'.roots;
    }
    SharedStays(s, key, place, c);
  }

  /** A dotted name is used at the top for a key of the default file only. */
  lemma FlatName(d0: Shape, key: string, x: string)
    requires '.' in x && [x] <= PlaceOf(d0, key)
    ensures [x] in d0
  {
    PartsAreWithout(key, '.');
    assert x == PlaceOf(d0, key)[0];
    assert Names(key)[0] in Names(key);
  }

  lemma InsertKeepsGood(d0: Shape, keys: seq<string>, s: State, i: nat)
    requires i < |keys| && Good(d0, keys, i, s) && !Blocked(s.r, PlaceOf(d0, keys[i]))
    ensures Good(d0, keys, i + 1, Insert(s, keys[i], PlaceOf(d0, keys[i])))
  {
    var key, place := keys[i], PlaceOf(d0, keys[i]);
    InsertKeepsGrown(d0, keys, s, i);
    InsertKeepsPlaced(d0, keys, s, i);
    hide Agreeing, IsTree, Kept, Grown, Placed, Insert, PlaceOf, Blocked;
    InsertKeepsTrees(s, key, place);
    InsertKeepsAgreeing(s, key, place);
    InsertKeepsKept(d0, s, key, place);
  }

  lemma {:induction false} RunIsGood(d0: Shape, keys: seq<string>, n: nat)
    requires n <= |keys| && IsTree(d0) && Run(d0, keys, n).Some?
    ensures Good(d0, keys, n, Run(d0, keys, n).value)
    decreases n
  {
    hide Good, Insert, PlaceOf, Blocked;
    if n > 0 {
      RunIsGood(d0, keys, n - 1);
      InsertKeepsGood(d0, keys, Run(d0, keys, n - 1).value, n - 1);
    } else {
      StartIsGood(d0, keys);
    }
  }

  lemma StartIsGood(d0: Shape, keys: seq<string>)
    requires IsTree(d0)
    ensures Good(d0, keys, 0, State(d0, map[[] := Branch], {}))
  {
    hide NewIn, SomePlace;
  }

  // When everything asked for is found.

  /** The result has the key's default value, its TODO text if there is none; and the
      default file's own dictionary if the value is one. */
  predicate Right(d0: Shape, s: State, key: string) {
    var place := PlaceOf(d0, key);
    && place in s.r
    && s.r[place] == Wanted(d0, key, place)
    && (IsBranch(d0, place) ==> Shared(s, place))
  }

  ghost predicate AllRight(d0: Shape, keys: seq<string>, s: State) {
    forall i :: 0 <= i < |keys| ==> Right(d0, s, keys[i])
  }

  /** Where a key extends another, the value of the other is a dictionary of the default
      file, and this has the extending key or takes it up: no value stands in its way,
      and the list has it after a key that it extends. */
  ghost predicate Compatible(d0: Shape, keys: seq<string>) {
    forall i, j, p, q :: IsPlace(d0, keys, i, p) && IsPlace(d0, keys, j, q) && Above(p, q) ==>
      IsBranch(d0, p) && (Has(d0, q) || TakenUp(d0, keys, q))
  }

  ghost predicate TakenUp(d0: Shape, keys: seq<string>, q: Place) {
    && (forall c :: IsEnd(d0, c) ==> !Above(c, q))
    && exists h :: IsPlace(d0, keys, h, q) && SomeAbove(d0, keys, h, q)
  }

  lemma RightOnlyIfCompatible(d0: Shape, keys: seq<string>, s: State)
    requires Good(d0, keys, |keys|, s) && AllRight(d0, keys, s)
    ensures Compatible(d0, keys)
  {
    hide PlaceOf, Grown, Placed, Kept, AtOrBelow, Agreeing, TakenUp;
    forall i, j, p, q | IsPlace(d0, keys, i, p) && IsPlace(d0, keys, j, q) && Above(p, q)
      ensures IsBranch(d0, p) && (Has(d0, q) || TakenUp(d0, keys, q))
    {
      assert Right(d0, s, keys[i]) && Right(d0, s, keys[j]);
      AboveIsBranch(s.r, p, q);
      SharedBelow(s, p, q);
      if !Has(d0, q) { IsTakenUp(d0, keys, s, j, q); }
    }
  }

  lemma SharedBelow(s: State, p: Place, q: Place)
    requires Shared(s, p) && p <= q
    ensures Shared(s, q)
  {
    var root :| root in s.roots && root <= p;
    Transitive(root, p, q);
  }

  /** At a shared place both hold the same. */
  lemma SharedSame(s: State, p: Place)
    requires Agreeing(s) && Shared(s, p)
    ensures (p in s.r <==> p in s.d) && (p in s.r ==> s.r[p] == s.d[p])
  {
    var root :| root in s.roots && root <= p;
    assert SameBelow(s, root);
  }

  lemma IsTakenUp(d0: Shape, keys: seq<string>, s: State, j: nat, q: Place)
    requires Good(d0, keys, |keys|, s)
    requires IsPlace(d0, keys, j, q) && !Has(d0, q) && Right(d0, s, keys[j]) && Shared(s, q)
    ensures TakenUp(d0, keys, q)
  {
    hide PlaceOf, Placed, Kept, AtOrBelow, Agreeing;
    SharedSame(s, q);
    assert NewIn(d0, keys, |keys|, s.d[q], q);
    var h :| GoesTo(d0, keys, h, q) && MadeBy(d0, keys, h, s.d[q], q);
    forall c | IsEnd(d0, c) ensures !Above(c, q) {
      EndStays(d0, s.d, c);
      if Above(c, q) { AboveIsBranch(s.d, c, q); }
    }
  }

  lemma EndStays(d0: Shape, d: Shape, c: Place)
    requires Kept(d0, d) && c in d0
    ensures IsEnd(d, c) <==> IsEnd(d0, c)
    ensures IsBranch(d, c) <==> IsBranch(d0, c)
    ensures Has(d0, c) ==> d[c] == d0[c]
  {}

  lemma NotBlockedWhenCompatible(d0: Shape, keys: seq<string>, s: State, i: nat)
    requires i < |keys| && Good(d0, keys, i, s) && Compatible(d0, keys)
    ensures !Blocked(s.r, PlaceOf(d0, keys[i]))
  {
    hide PlaceOf, Grown, Kept, Placed, Agreeing, Compatible, SomePlace, SomeAbove;
    forall c | IsEnd(s.r, c) ensures !Above(c, PlaceOf(d0, keys[i])) {
      EndsComeFrom(d0, keys, s, i, c);
      NotInTheWay(d0, keys, i, c);
    }
  }

  lemma NotInTheWay(d0: Shape, keys: seq<string>, i: nat, c: Place)
    requires i < |keys| && IsTree(d0) && Compatible(d0, keys)
    requires (SomePlace(d0, keys, i, c) && !IsBranch(d0, c)) || (SomeAbove(d0, keys, i, c) && IsEnd(d0, c))
    ensures !Above(c, PlaceOf(d0, keys[i]))
  {
    var place := PlaceOf(d0, keys[i]);
    assert IsPlace(d0, keys, i, place);
    if IsEnd(d0, c) && place in d0 { NothingBelowEnd(d0, c, place); }
    hide PlaceOf, IsTree;
  }

  lemma NothingBelowEnd(t: Shape, c: Place, p: Place)
    requires IsTree(t) && IsEnd(t, c) && p in t
    ensures !Above(c, p)
  {
    if Above(c, p) { AboveIsBranch(t, c, p); }
  }

  /** A value in the result is a key's, or the default file's below a key's place. */
  lemma EndsComeFrom(d0: Shape, keys: seq<string>, s: State, i: nat, c: Place)
    requires i < |keys| && Good(d0, keys, i, s) && IsEnd(s.r, c)
    ensures (SomePlace(d0, keys, i, c) && !IsBranch(d0, c)) || (SomeAbove(d0, keys, i, c) && IsEnd(d0, c))
  {
    hide PlaceOf, Agreeing, IsTree;
    if Shared(s, c) {
      SharedSame(s, c);
      RootAbove(d0, keys, s, i, c);
      if c in d0 {
        EndStays(d0, s.d, c);
      } else {
        assert NewIn(d0, keys, i, s.d[c], c);
      }
    }
  }

  lemma RootAbove(d0: Shape, keys: seq<string>, s: State, i: nat, c: Place)
    requires Agreeing(s) && Placed(d0, keys, i, s) && Shared(s, c) && IsEnd(s.r, c)
    ensures SomeAbove(d0, keys, i, c)
  {
    var q :| q in s.roots && q <= c;
    assert Above(q, c);
    var k :| k < i && IsPlace(d0, keys, k, q);
  }

  lemma {:induction false} CompatibleGoesThrough(d0: Shape, keys: seq<string>, n: nat)
    requires n <= |keys| && IsTree(d0) && Compatible(d0, keys)
    ensures Run(d0, keys, n).Some?
    decreases n
  {
    hide Compatible, Good, Insert, PlaceOf, Blocked;
    if n > 0 {
      CompatibleGoesThrough(d0, keys, n - 1);
      RunIsGood(d0, keys, n - 1);
      NotBlockedWhenCompatible(d0, keys, Run(d0, keys, n - 1).value, n - 1);
    }
  }

  /** Once put into the result, what the default file had stays there. */
  lemma HasStays(d0: Shape, keys: seq<string>, s: State, i: nat, key: string)
    requires i < |keys| && Good(d0, keys, i, s) && !Blocked(s.r, PlaceOf(d0, keys[i]))
    requires Has(d0, PlaceOf(d0, key)) && (key == keys[i] || Right(d0, s, key))
    ensures Right(d0, Insert(s, keys[i], PlaceOf(d0, keys[i])), key)
  {
    var p, place := PlaceOf(d0, key), PlaceOf(d0, keys[i]);
    var s' := Insert(s, keys[i], place);
    InsertKeepsKept(d0, s, keys[i], place);
    RootsAfter(s, keys[i], place);
    InsertAt(s, keys[i], place, p);
    hide Insert, PlaceOf, Grown, Placed, Agreeing;
    EndStays(d0, s.d, p);
    EndStays(d0, s'.d, p);
    if place <= p {
      if place != p { AboveIsBranch(d0, place, p); }
      EndStays(d0, s.d, place);
    }
    SharedStays(s, keys[i], place, p);
  }

  /** A key that the default file has is right whenever the loop goes through. */
  lemma {:induction false} DefaultKeysAreRight(d0: Shape, keys: seq<string>, n: nat, j: nat)
    requires j < n <= |keys| && IsTree(d0) && Run(d0, keys, n).Some? && Has(d0, PlaceOf(d0, keys[j]))
    ensures Right(d0, Run(d0, keys, n).value, keys[j])
    decreases n
  {
    hide Good, Insert, PlaceOf, Blocked, Right, Has;
    RunIsGood(d0, keys, n - 1);
    if j < n - 1 { DefaultKeysAreRight(d0, keys, n - 1, j); }
    HasStays(d0, keys, Run(d0, keys, n - 1).value, n - 1, keys[j]);
  }

  // When the loop raises a TypeError.

  ghost predicate SomeGoesTo(d0: Shape, keys: seq<string>, n: nat, p: Place) {
    exists h :: h < n && GoesTo(d0, keys, h, p)
  }

  /** The first key that goes to `p` or through it is one at this place. */
  ghost predicate FirstEnds(d0: Shape, keys: seq<string>, n: nat, p: Place) {
    exists h :: h < n && GoesTo(d0, keys, h, p) && IsPlace(d0, keys, h, p) && !SomeGoesTo(d0, keys, h, p)
  }

  /** What is new in the default file. */
  ghost predicate NewAre(d0: Shape, keys: seq<string>, n: nat, d: Shape, p: Place) {
    && (p in d <==> SomeGoesTo(d0, keys, n, p))
    && (IsEnd(d, p) <==> FirstEnds(d0, keys, n, p))
  }

  /** A key gone through is found in a shared dictionary, or a value stands at its place
      or above. */
  ghost predicate Held(s: State, p: Place) { Shared(s, p) || exists c :: IsEnd(s.r, c) && c <= p }

  lemma InsertHolds(s: State, key: string, place: Place, p: Place)
    requires place != [] && (p == place || Held(s, p))
    ensures Held(Insert(s, key, place), p)
  {
    hide Insert, Shared;
    var s' := Insert(s, key, place);
    PlaceIsHeld(s, key, place);
    SharedStays(s, key, place, p);
    if place <= p {
      if !Shared(s', place) { assert IsEnd(s'.r, place) && place <= p; } else { SharedBelow(s', place, p); }
    } else if !Shared(s, p) {
      var c :| IsEnd(s.r, c) && c <= p;
      InsertAt(s, key, place, c);
      Transitive(place, c, p);
      assert IsEnd(s'.r, c);
    }
  }

  lemma PlaceIsHeld(s: State, key: string, place: Place)
    requires place != []
    ensures Shared(Insert(s, key, place), place) || IsEnd(Insert(s, key, place).r, place)
  {
    RootsAfter(s, key, place);
    InsertAt(s, key, place, place);
    hide Insert;
    assert Wanted(s.d, key, place).Branch? ==> place in Insert(s, key, place).roots;
  }

  lemma {:induction false} KeysAreHeld(d0: Shape, keys: seq<string>, n: nat, i: nat)
    requires i < n <= |keys| && Run(d0, keys, n).Some?
    ensures Held(Run(d0, keys, n).value, PlaceOf(d0, keys[i]))
    decreases n
  {
    hide PlaceOf, Insert, Held, Blocked;
    if i < n - 1 { KeysAreHeld(d0, keys, n - 1, i); }
    InsertHolds(Run(d0, keys, n - 1).value, keys[n - 1], PlaceOf(d0, keys[n - 1]), PlaceOf(d0, keys[i]));
  }

  /** A key that is not blocked goes below an earlier one through a shared dictionary. */
  lemma UnblockedIsShared(s: State, p: Place, place: Place)
    requires !Blocked(s.r, place) && Held(s, p) && Above(p, place)
    ensures Shared(s, p) && Shared(s, Front(place))
  {
    hide AtOrBelow;
    if !Shared(s, p) {
      var c :| IsEnd(s.r, c) && c <= p;
      Transitive(c, p, place);
      assert !Above(c, place);
    }
    PrefixOfFront(p, place);
    SharedBelow(s, p, Front(place));
  }

  lemma {:induction false} NewAreExactly(d0: Shape, keys: seq<string>, n: nat, p: Place)
    requires n <= |keys| && IsTree(d0) && Run(d0, keys, n).Some? && p !in d0
    ensures NewAre(d0, keys, n, Run(d0, keys, n).value.d, p)
    decreases n
  {
    hide PlaceOf, Insert, Blocked, Good, Held, IsTree, GoesTo;
    if n > 0 {
      NewAreExactly(d0, keys, n - 1, p);
      RunIsGood(d0, keys, n - 1);
      var s := Run(d0, keys, n - 1).value;
      var place := PlaceOf(d0, keys[n - 1]);
      forall i | 0 <= i < n - 1 ensures Held(s, PlaceOf(d0, keys[i])) { KeysAreHeld(d0, keys, n - 1, i); }
      NewStay(d0, keys, s, n - 1, p);
    } else {
      NoneGoesYet(d0, keys, p);
    }
  }

  lemma NoneGoesYet(d0: Shape, keys: seq<string>, p: Place)
    ensures !SomeGoesTo(d0, keys, 0, p) && !FirstEnds(d0, keys, 0, p)
  {}

  lemma NewStay(d0: Shape, keys: seq<string>, s: State, i: nat, p: Place)
    requires i < |keys| && Good(d0, keys, i, s) && !Blocked(s.r, PlaceOf(d0, keys[i])) && p !in d0
    requires forall k :: 0 <= k < i ==> Held(s, PlaceOf(d0, keys[k]))
    requires NewAre(d0, keys, i, s.d, p)
    ensures NewAre(d0, keys, i + 1, Insert(s, keys[i], PlaceOf(d0, keys[i])).d, p)
  {
    var place := PlaceOf(d0, keys[i]);
    var s' := Insert(s, keys[i], place);
    SomeGoesToNext(d0, keys, i, p);
    InsertAt(s, keys[i], place, p);
    if p in s.d {
      if Above(place, p) { AboveIsBranch(s.d, place, p); }
    } else {
      GainedExactly(d0, keys, s, i, p);
    }
    hide Insert, PlaceOf, Good, IsTree, Held, GoesTo, Shared, Blocked, SomeGoesTo;
  }

  lemma SomeGoesToNext(d0: Shape, keys: seq<string>, i: nat, p: Place)
    ensures SomeGoesTo(d0, keys, i + 1, p) <==> SomeGoesTo(d0, keys, i, p) || GoesTo(d0, keys, i, p)
    ensures FirstEnds(d0, keys, i + 1, p) <==>
      FirstEnds(d0, keys, i, p) || (GoesTo(d0, keys, i, p) && IsPlace(d0, keys, i, p) && !SomeGoesTo(d0, keys, i, p))
    ensures FirstEnds(d0, keys, i, p) ==> SomeGoesTo(d0, keys, i, p)
  {
    hide GoesTo, IsPlace;
  }

  lemma GainedExactly(d0: Shape, keys: seq<string>, s: State, i: nat, p: Place)
    requires i < |keys| && Good(d0, keys, i, s) && !Blocked(s.r, PlaceOf(d0, keys[i]))
    requires forall k :: 0 <= k < i ==> Held(s, PlaceOf(d0, keys[k]))
    requires p !in s.d
    ensures var place := PlaceOf(d0, keys[i]);
      GoesTo(d0, keys, i, p) <==> p <= place && Shared(s, Front(place))
  {
    var place := PlaceOf(d0, keys[i]);
    if p <= place && Shared(s, Front(place)) { GainedBelow(d0, keys, s, i, p); }
    if GoesTo(d0, keys, i, p) {
      var k, q :| k < i && IsPlace(d0, keys, k, q) && Above(q, p);
      Transitive(q, p, place);
      UnblockedIsShared(s, q, place);
    }
    hide PlaceOf, Good, IsTree, Held, Blocked, Shared;
  }

  /** A value stands there when the first `n` keys have been gone through: one of the
      default file, or the text of the key that first went there. */
  ghost predicate ValueAt(d0: Shape, keys: seq<string>, n: nat, c: Place) {
    IsEnd(d0, c) || (c !in d0 && FirstEnds(d0, keys, n, c))
  }

  /** Key `n` extends an earlier one whose value is no dictionary of the default file, and
      that extends no other; or between the two a value stands in its way. */
  ghost predicate StopsAt(d0: Shape, keys: seq<string>, n: nat)
    requires n < |keys|
  {
    exists i, p :: i < n && IsPlace(d0, keys, i, p) && Above(p, PlaceOf(d0, keys[n])) &&
      ((!IsBranch(d0, p) && !SomeAbove(d0, keys, n, p)) || ValueBetween(d0, keys, n, p, PlaceOf(d0, keys[n])))
  }

  ghost predicate ValueBetween(d0: Shape, keys: seq<string>, n: nat, p: Place, place: Place) {
    exists c :: Above(p, c) && Above(c, place) && ValueAt(d0, keys, n, c)
  }

  lemma ValuesInDefault(d0: Shape, keys: seq<string>, n: nat, c: Place)
    requires n <= |keys| && IsTree(d0) && Run(d0, keys, n).Some?
    ensures IsEnd(Run(d0, keys, n).value.d, c) <==> ValueAt(d0, keys, n, c)
  {
    hide PlaceOf, Run, FirstEnds, IsTree;
    RunIsGood(d0, keys, n);
    if c in d0 { EndStays(d0, Run(d0, keys, n).value.d, c); } else { NewAreExactly(d0, keys, n, c); }
  }

  /** What lies below the place of a key gone through is shared. */
  lemma BelowKeyIsShared(d0: Shape, keys: seq<string>, n: nat, c: Place)
    requires n <= |keys| && IsTree(d0) && Run(d0, keys, n).Some?
    ensures var s := Run(d0, keys, n).value; c in s.r && SomeAbove(d0, keys, n, c) ==> Shared(s, c)
  {
    var s := Run(d0, keys, n).value;
    RunIsGood(d0, keys, n);
    hide PlaceOf, Run, IsTree, AtOrBelow, Agreeing, Placed, Kept, Grown;
    if c in s.r && SomeAbove(d0, keys, n, c) {
      var i, q :| i < n && IsPlace(d0, keys, i, q) && Above(q, c);
      KeysAreHeld(d0, keys, n, i);
      if Shared(s, q) {
        SharedBelow(s, q, c);
      } else {
        var e :| IsEnd(s.r, e) && e <= q;
        Transitive(e, q, c);
        NothingBelowEnd(s.r, e, c);
      }
    }
  }

  lemma WhyBlocked(d0: Shape, keys: seq<string>, n: nat, c: Place)
    requires n < |keys| && IsTree(d0) && Run(d0, keys, n).Some?
    requires IsEnd(Run(d0, keys, n).value.r, c) && Above(c, PlaceOf(d0, keys[n]))
    ensures StopsAt(d0, keys, n)
  {
    var s, place := Run(d0, keys, n).value, PlaceOf(d0, keys[n]);
    RunIsGood(d0, keys, n);
    hide PlaceOf, Run, IsTree, Kept, Grown;
    if Shared(s, c) {
      SharedSame(s, c);
      ValuesInDefault(d0, keys, n, c);
      var q :| q in s.roots && q <= c;
      Transitive(q, c, place);
      assert Above(q, c) && Above(q, place);
      var k :| k < n && IsPlace(d0, keys, k, q);
      assert ValueBetween(d0, keys, n, q, place);
    } else {
      BelowKeyIsShared(d0, keys, n, c);
      var k :| k < n && IsPlace(d0, keys, k, c);
    }
  }

  /** A shared dictionary with no key above is the default file's from the start. */
  lemma SharedTop(d0: Shape, keys: seq<string>, n: nat, s: State, p: Place)
    requires n <= |keys| && Good(d0, keys, n, s) && Shared(s, p)
    ensures IsBranch(d0, p) || SomeAbove(d0, keys, n, p)
  {
    var q :| q in s.roots && q <= p;
    var k :| k < n && IsPlace(d0, keys, k, q);
    hide PlaceOf, IsTree;
    if p == q {
      if p in d0 { EndStays(d0, s.d, p); } else { assert NewIn(d0, keys, n, s.d[p], p); }
    }
  }

  lemma BlockedWhy(d0: Shape, keys: seq<string>, n: nat, i: nat)
    requires i < n < |keys| && IsTree(d0) && Run(d0, keys, n).Some?
    requires var p, place := PlaceOf(d0, keys[i]), PlaceOf(d0, keys[n]);
      Above(p, place) &&
      ((!IsBranch(d0, p) && !SomeAbove(d0, keys, n, p)) || ValueBetween(d0, keys, n, p, place))
    ensures Blocked(Run(d0, keys, n).value.r, PlaceOf(d0, keys[n]))
  {
    var s, p, place := Run(d0, keys, n).value, PlaceOf(d0, keys[i]), PlaceOf(d0, keys[n]);
    RunIsGood(d0, keys, n);
    KeysAreHeld(d0, keys, n, i);
    hide PlaceOf, Run, IsTree, SomeAbove, ValueAt, AtOrBelow, Agreeing, Placed, Kept, Grown;
    if !Shared(s, p) {
      var c :| IsEnd(s.r, c) && c <= p;
      Transitive(c, p, place);
    } else {
      SharedTop(d0, keys, n, s, p);
      var c :| Above(p, c) && Above(c, place) && ValueAt(d0, keys, n, c);
      ValuesInDefault(d0, keys, n, c);
      SharedBelow(s, p, c);
      SharedSame(s, c);
    }
  }

  /** A TypeError is raised exactly there. */
  lemma BlockedExactly(d0: Shape, keys: seq<string>, n: nat)
    requires n < |keys| && IsTree(d0) && Run(d0, keys, n).Some?
    ensures Blocked(Run(d0, keys, n).value.r, PlaceOf(d0, keys[n])) <==> StopsAt(d0, keys, n)
  {
    hide PlaceOf, Run, IsTree, ValueBetween, SomeAbove;
    var s, place := Run(d0, keys, n).value, PlaceOf(d0, keys[n]);
    if Blocked(s.r, place) {
      var c :| c in s.r && s.r[c].End? && Above(c, place);
      WhyBlocked(d0, keys, n, c);
    }
    if StopsAt(d0, keys, n) {
      var i, p :| i < n && IsPlace(d0, keys, i, p) && Above(p, place) &&
        ((!IsBranch(d0, p) && !SomeAbove(d0, keys, n, p)) || ValueBetween(d0, keys, n, p, place));
      BlockedWhy(d0, keys, n, i);
    }
  }

  /** The loop raises a TypeError exactly if it comes to a key that is in the way. */
  lemma {:induction false} RaisesExactly(d0: Shape, keys: seq<string>, n: nat)
    requires n <= |keys| && IsTree(d0)
    ensures Run(d0, keys, n).None? <==> exists k :: 0 <= k < n && StopsAt(d0, keys, k)
    decreases n
  {
    hide PlaceOf, IsTree, Blocked, StopsAt, Insert;
    if n > 0 {
      RaisesExactly(d0, keys, n - 1);
      if Run(d0, keys, n - 1).Some? { BlockedExactly(d0, keys, n - 1); }
    }
  }

  // Which keys are found, one by one.

  /** A dictionary once shared stays shared. */
  lemma SharedForGood(d0: Shape, keys: seq<string>, s: State, i: nat, p: Place)
    requires i < |keys| && Good(d0, keys, i, s) && Shared(s, p)
    ensures Shared(Insert(s, keys[i], PlaceOf(d0, keys[i])), p)
  {
    var key, place := keys[i], PlaceOf(d0, keys[i]);
    var s' := Insert(s, key, place);
    RootsAfter(s, key, place);
    SharedStays(s, key, place, p);
    hide Insert, PlaceOf, Kept, Grown, Placed, IsTree;
    if place <= p {
      var q :| q in s.roots && q <= p;
      if place <= q {
        if place != q { AboveIsBranch(s.d, place, q); }
        assert place in s'.roots;
      } else {
        assert q in s'.roots;
      }
    }
  }

  /** What the default file has other than null stays. */
  lemma FilledForGood(d0: Shape, keys: seq<string>, s: State, i: nat, p: Place)
    requires i < |keys| && Good(d0, keys, i, s) && Has(s.d, p)
    ensures var s' := Insert(s, keys[i], PlaceOf(d0, keys[i])); Has(s'.d, p) && s'.d[p] == s.d[p]
  {
    var place := PlaceOf(d0, keys[i]);
    InsertAt(s, keys[i], place, p);
    hide Insert, PlaceOf, Shared, Kept, Grown, Placed, Agreeing, IsTree;
    if Above(place, p) { AboveIsBranch(s.d, place, p); }
  }

  lemma {:induction false} RunBefore(d0: Shape, keys: seq<string>, m: nat, n: nat)
    requires m <= n <= |keys| && Run(d0, keys, n).Some?
    ensures Run(d0, keys, m).Some?
    ensures m < n ==> !Blocked(Run(d0, keys, m).value.r, PlaceOf(d0, keys[m]))
    decreases n - m
  {
    hide Insert, Blocked, PlaceOf;
    if m < n { RunBefore(d0, keys, m + 1, n); }
  }

  /** The text of a key is where both have one dictionary. */
  predicate SharesText(s: State, p: Place, key: string) { Shared(s, p) && p in s.d && s.d[p] == Todo(key) }

  /** The text that the first key to go there leaves is shared, and stays. */
  lemma {:induction false} FirstTextStays(d0: Shape, keys: seq<string>, h: nat, n: nat)
    requires h < n <= |keys| && IsTree(d0) && Run(d0, keys, n).Some?
    requires var p := PlaceOf(d0, keys[h]);
      !Has(d0, p) && GoesTo(d0, keys, h, p) && !SomeGoesTo(d0, keys, h, p)
    ensures SharesText(Run(d0, keys, n).value, PlaceOf(d0, keys[h]), keys[h])
    decreases n
  {
    hide Insert, PlaceOf, Blocked, IsTree, GoesTo, SomeGoesTo, Shared, Good, Has, SharesText;
    RunIsGood(d0, keys, n - 1);
    if h < n - 1 {
      FirstTextStays(d0, keys, h, n - 1);
      SharedTextStays(d0, keys, Run(d0, keys, n - 1).value, n - 1, PlaceOf(d0, keys[h]), keys[h]);
    } else {
      WayOfLater(d0, keys, h, PlaceOf(d0, keys[h]));
      FirstTextComes(d0, keys, Run(d0, keys, h).value, h);
    }
  }

  lemma SharedTextStays(d0: Shape, keys: seq<string>, s: State, i: nat, p: Place, key: string)
    requires i < |keys| && Good(d0, keys, i, s) && SharesText(s, p, key)
    ensures SharesText(Insert(s, keys[i], PlaceOf(d0, keys[i])), p, key)
  {
    hide Insert, PlaceOf, Good, Shared;
    SharedForGood(d0, keys, s, i, p);
    FilledForGood(d0, keys, s, i, p);
  }

  lemma FirstTextComes(d0: Shape, keys: seq<string>, s: State, h: nat)
    requires h < |keys| && Good(d0, keys, h, s)
    requires var p := PlaceOf(d0, keys[h]);
      !Has(d0, p) && !SomeGoesTo(d0, keys, h, p) && Shared(s, p) && Shared(s, Front(p))
    ensures SharesText(Insert(s, keys[h], PlaceOf(d0, keys[h])), PlaceOf(d0, keys[h]), keys[h])
  {
    var p := PlaceOf(d0, keys[h]);
    hide Insert, PlaceOf, SomeGoesTo, Shared, Good;
    FirstWantsText(d0, keys, s, h);
    InsertAt(s, keys[h], p, p);
    SharedForGood(d0, keys, s, h, p);
  }

  lemma FirstWantsText(d0: Shape, keys: seq<string>, s: State, h: nat)
    requires h < |keys| && Good(d0, keys, h, s)
    requires var p := PlaceOf(d0, keys[h]); !Has(d0, p) && !SomeGoesTo(d0, keys, h, p)
    ensures Wanted(s.d, keys[h], PlaceOf(d0, keys[h])) == Todo(keys[h])
  {
    var p := PlaceOf(d0, keys[h]);
    hide PlaceOf, GoesTo, IsTree, Agreeing, Placed;
    NewInGoes(d0, keys, h, if p in s.d then s.d[p] else Branch, p);
  }

  lemma NewInGoes(d0: Shape, keys: seq<string>, n: nat, item: Item, p: Place)
    ensures NewIn(d0, keys, n, item, p) ==> SomeGoesTo(d0, keys, n, p)
  {}

  /** The way to a key that extends an earlier one is shared when the loop comes to it. */
  lemma WayOfLater(d0: Shape, keys: seq<string>, h: nat, p: Place)
    requires h < |keys| && Run(d0, keys, h + 1).Some? && GoesTo(d0, keys, h, p)
    ensures var s, place := Run(d0, keys, h).value, PlaceOf(d0, keys[h]);
      Shared(s, p) && Shared(s, Front(place)) && p <= place && !Blocked(s.r, place)
  {
    var s, place := Run(d0, keys, h).value, PlaceOf(d0, keys[h]);
    hide Insert, PlaceOf, Blocked, Shared, Held;
    var i, q :| i < h && IsPlace(d0, keys, i, q) && Above(q, p);
    KeysAreHeld(d0, keys, h, i);
    AboveByWay(q, p, place);
    UnblockedIsShared(s, q, place);
    SharedBelow(s, q, p);
  }

  lemma AboveByWay(q: Place, p: Place, place: Place)
    requires Above(q, p) && p <= place
    ensures Above(q, place)
  {
    Transitive(q, p, place);
  }

  /** Where the default file has null, only keys at this very place go. */
  lemma OnlyPlacesAtNull(d0: Shape, keys: seq<string>, n: nat, h: nat, p: Place)
    requires h < n <= |keys| && IsTree(d0) && Run(d0, keys, n).Some?
    requires IsEnd(d0, p) && GoesTo(d0, keys, h, p)
    ensures IsPlace(d0, keys, h, p)
  {
    hide Run, PlaceOf, IsTree, Shared, Good, GoesTo, Blocked;
    RunBefore(d0, keys, h + 1, n);
    RunBefore(d0, keys, h, n);
    WayOfLater(d0, keys, h, p);
    RunIsGood(d0, keys, h);
    NoneThroughEnd(d0, keys, h, Run(d0, keys, h).value, p, PlaceOf(d0, keys[h]));
  }

  lemma NoneThroughEnd(d0: Shape, keys: seq<string>, n: nat, s: State, p: Place, place: Place)
    requires n <= |keys| && Good(d0, keys, n, s) && Shared(s, p) && IsEnd(d0, p)
    requires p <= place && !Blocked(s.r, place)
    ensures p == place
  {
    hide IsTree, Shared, Agreeing, Grown, Placed;
    SharedSame(s, p);
    EndStays(d0, s.d, p);
    OpenOnTheWay(s.r, place, p);
  }

  lemma {:induction false} FirstToGo(d0: Shape, keys: seq<string>, n: nat, p: Place) returns (h: nat)
    requires n <= |keys| && SomeGoesTo(d0, keys, n, p)
    ensures h < n && GoesTo(d0, keys, h, p) && !SomeGoesTo(d0, keys, h, p)
    decreases n
  {
    hide GoesTo;
    SomeGoesToLess(d0, keys, n, p);
    if SomeGoesTo(d0, keys, n - 1, p) { h := FirstToGo(d0, keys, n - 1, p); } else { h := n - 1; }
  }

  lemma SomeGoesToLess(d0: Shape, keys: seq<string>, n: nat, p: Place)
    requires SomeGoesTo(d0, keys, n, p)
    ensures n > 0 && (SomeGoesTo(d0, keys, n - 1, p) || GoesTo(d0, keys, n - 1, p))
  {}

  /** What the loop, gone through, does for one key: it is right exactly if the default
      file has it, or no key of the list stands above it, or the first key to go there,
      below an earlier one, is itself. */
  lemma RightExactly(d0: Shape, keys: seq<string>, j: nat)
    requires j < |keys| && IsTree(d0) && Run(d0, keys, |keys|).Some?
    ensures var p := PlaceOf(d0, keys[j]);
      Right(d0, Run(d0, keys, |keys|).value, keys[j]) <==>
        Has(d0, p) || !SomeAbove(d0, keys, |keys|, p) || FirstEnds(d0, keys, |keys|, p)
  {
    hide PlaceOf, Run, IsTree, Has, Right, SomeAbove, FirstEnds;
    var p := PlaceOf(d0, keys[j]);
    if Has(d0, p) {
      DefaultKeysAreRight(d0, keys, |keys|, j);
    } else if !SomeAbove(d0, keys, |keys|, p) {
      LoneTextIsRight(d0, keys, |keys|, j);
    } else {
      TextUnderKey(d0, keys, j);
    }
  }

  /** Where no key of the list stands above, the text comes with the key and stays. */
  lemma {:induction false} LoneTextIsThere(d0: Shape, keys: seq<string>, n: nat, j: nat)
    requires j < n <= |keys| && IsTree(d0) && Run(d0, keys, n).Some?
    requires var p := PlaceOf(d0, keys[j]); !Has(d0, p) && !SomeAbove(d0, keys, |keys|, p)
    ensures var r, p := Run(d0, keys, n).value.r, PlaceOf(d0, keys[j]); p in r && r[p] == Todo(keys[j])
    decreases n
  {
    hide PlaceOf, IsTree, Has, Insert, Blocked, SomeAbove, Good;
    var p, place := PlaceOf(d0, keys[j]), PlaceOf(d0, keys[n - 1]);
    RunIsGood(d0, keys, n - 1);
    var s := Run(d0, keys, n - 1).value;
    InsertAt(s, keys[n - 1], place, p);
    if place == p {
      PlaceDecidesKey(d0, keys[n - 1], keys[j]);
      NoneGoesUnder(d0, keys, n - 1, p);
      FirstWantsText(d0, keys, s, n - 1);
    } else {
      LoneTextIsThere(d0, keys, n - 1, j);
      NotUnder(d0, keys, n - 1, p);
    }
  }

  lemma NotUnder(d0: Shape, keys: seq<string>, i: nat, p: Place)
    requires i < |keys| && !SomeAbove(d0, keys, |keys|, p) && PlaceOf(d0, keys[i]) != p
    ensures !(PlaceOf(d0, keys[i]) <= p)
  {
    assert IsPlace(d0, keys, i, PlaceOf(d0, keys[i]));
  }

  lemma NoneGoesUnder(d0: Shape, keys: seq<string>, n: nat, p: Place)
    requires n <= |keys| && !SomeAbove(d0, keys, |keys|, p)
    ensures !SomeGoesTo(d0, keys, n, p)
  {}

  lemma DefaultBranch(d: Shape, p: Place)
    ensures IsBranch(d, p) ==> Has(d, p)
  {}

  lemma LoneTextIsRight(d0: Shape, keys: seq<string>, n: nat, j: nat)
    requires j < n <= |keys| && IsTree(d0) && Run(d0, keys, n).Some?
    requires var p := PlaceOf(d0, keys[j]); !Has(d0, p) && !SomeAbove(d0, keys, |keys|, p)
    ensures Right(d0, Run(d0, keys, n).value, keys[j])
  {
    LoneTextIsThere(d0, keys, n, j);
    DefaultBranch(d0, PlaceOf(d0, keys[j]));
    hide PlaceOf, IsTree, Run, SomeAbove;
  }

  lemma TextUnderKey(d0: Shape, keys: seq<string>, j: nat)
    requires j < |keys| && IsTree(d0) && Run(d0, keys, |keys|).Some?
    requires var p := PlaceOf(d0, keys[j]); !Has(d0, p) && SomeAbove(d0, keys, |keys|, p)
    ensures Right(d0, Run(d0, keys, |keys|).value, keys[j]) <==> FirstEnds(d0, keys, |keys|, PlaceOf(d0, keys[j]))
  {
    var p, s := PlaceOf(d0, keys[j]), Run(d0, keys, |keys|).value;
    hide PlaceOf, IsTree, Run, SomeAbove, GoesTo, SomeGoesTo, Shared, Good;
    DefaultBranch(d0, p);
    RunIsGood(d0, keys, |keys|);
    if FirstEnds(d0, keys, |keys|, p) {
      var h :| h < |keys| && GoesTo(d0, keys, h, p) && IsPlace(d0, keys, h, p) && !SomeGoesTo(d0, keys, h, p);
      PlaceDecidesKey(d0, keys[h], keys[j]);
      FirstTextStays(d0, keys, h, |keys|);
      GoodIsAgreeing(d0, keys, |keys|, s);
      SharedSame(s, p);
    }
    if Right(d0, s, keys[j]) {
      BelowKeyIsShared(d0, keys, |keys|, p);
      GoodIsAgreeing(d0, keys, |keys|, s);
      SharedSame(s, p);
      TextComesFirst(d0, keys, s, p, keys[j]);
    }
  }

  lemma GoodIsAgreeing(d0: Shape, keys: seq<string>, n: nat, s: State)
    requires Good(d0, keys, n, s)
    ensures Agreeing(s)
  {}

  lemma TextComesFirst(d0: Shape, keys: seq<string>, s: State, p: Place, key: string)
    requires IsTree(d0) && Run(d0, keys, |keys|) == Some(s)
    requires !Has(d0, p) && p in s.d && s.d[p] == Todo(key)
    ensures FirstEnds(d0, keys, |keys|, p)
  {
    RunIsGood(d0, keys, |keys|);
    hide IsTree, Run, SomeAbove, GoesTo, Agreeing, Placed, Kept;
    if p !in d0 {
      NewAreExactly(d0, keys, |keys|, p);
    } else {
      assert NewIn(d0, keys, |keys|, s.d[p], p);
      var h := FirstToGo(d0, keys, |keys|, p);
      OnlyPlacesAtNull(d0, keys, |keys|, h, p);
    }
  }

  /** A key that is taken up is the first to go to its place. */
  lemma TakenUpGoesFirst(d0: Shape, keys: seq<string>, q: Place)
    requires Compatible(d0, keys) && TakenUp(d0, keys, q) && !Has(d0, q)
    ensures FirstEnds(d0, keys, |keys|, q)
  {
    hide PlaceOf, Has;
    var g :| IsPlace(d0, keys, g, q) && SomeAbove(d0, keys, g, q);
    assert GoesTo(d0, keys, g, q);
    var h := FirstToGo(d0, keys, |keys|, q);
    assert IsPlace(d0, keys, h, PlaceOf(d0, keys[h]));
    DefaultBranch(d0, q);
  }

  lemma CompatibleIsRight(d0: Shape, keys: seq<string>, j: nat)
    requires j < |keys| && IsTree(d0) && Compatible(d0, keys) && Run(d0, keys, |keys|).Some?
    ensures Right(d0, Run(d0, keys, |keys|).value, keys[j])
  {
    var p := PlaceOf(d0, keys[j]);
    hide PlaceOf, IsTree, Run, Right, Has, TakenUp, FirstEnds;
    assert IsPlace(d0, keys, j, p);
    RightExactly(d0, keys, j);
    if TakenUp(d0, keys, p) && !Has(d0, p) { TakenUpGoesFirst(d0, keys, p); }
  }

  /** The loop goes through and has everything right if and only if the keys are
      compatible with the default file. */
  lemma RightExactlyWhenCompatible(d0: Shape, keys: seq<string>)
    requires IsTree(d0)
    ensures (Run(d0, keys, |keys|).Some? && AllRight(d0, keys, Run(d0, keys, |keys|).value)) <==> Compatible(d0, keys)
  {
    hide PlaceOf, IsTree, Run, Compatible, Right;
    if Compatible(d0, keys) {
      CompatibleGoesThrough(d0, keys, |keys|);
      forall j | 0 <= j < |keys| ensures Right(d0, Run(d0, keys, |keys|).value, keys[j]) {
        CompatibleIsRight(d0, keys, j);
      }
    }
    if Run(d0, keys, |keys|).Some? && AllRight(d0, keys, Run(d0, keys, |keys|).value) {
      RunIsGood(d0, keys, |keys|);
      RightOnlyIfCompatible(d0, keys, Run(d0, keys, |keys|).value);
    }
  }

  // Where lookup goes.

  /** The default file's top level stays as it is. */
  lemma SamePlaceInDefault(d0: Shape, keys: seq<string>, n: nat, s: State, key: string)
    requires n <= |keys| && Good(d0, keys, n, s)
    ensures PlaceOf(s.d, key) == PlaceOf(d0, key)
  {
    GrownIsBelow(d0, keys, n, s.d);
    hide Grown, IsTree, Agreeing, Placed;
  }

  lemma GrownIsBelow(d0: Shape, keys: seq<string>, n: nat, d: Shape)
    requires Grown(d0, keys, n, d)
    ensures forall p :: p in d && p !in d0 ==> |p| > 1
  {
    forall p | p in d && p !in d0 ensures |p| > 1 {
      var h :| h < n && GoesTo(d0, keys, h, p);
      var i, q :| i < h && IsPlace(d0, keys, i, q) && Above(q, p);
    }
  }

  /** A key of the list is looked up where it was put. */
  lemma SamePlaceInResult(d0: Shape, keys: seq<string>, n: nat, s: State, key: string)
    requires n <= |keys| && Good(d0, keys, n, s) && Held(s, PlaceOf(d0, key))
    ensures PlaceOf(s.r, key) == PlaceOf(d0, key)
  {
    if [key] in d0 { HeldTop(s, key); }
    hide Kept, Grown, Agreeing, IsTree, Held;
  }

  lemma HeldTop(s: State, x: string)
    requires Agreeing(s) && IsTree(s.r) && Held(s, [x])
    ensures [x] in s.r
  {
    hide IsTree;
    if Shared(s, [x]) {
      var q :| q in s.roots && q <= [x];
      assert q == [x];
    } else {
      RootIsBranch(s.r);
      var c :| IsEnd(s.r, c) && c <= [x];
      assert c == [x];
    }
  }

  lemma RootIsBranch(t: Shape)
    requires IsTree(t)
    ensures IsBranch(t, [])
  {}

  // Keys that do not extend one another, and some that do.

  /** No key is, name by name, a proper prefix of another. */
  ghost predicate PrefixFree(keys: seq<string>) {
    forall i, j :: 0 <= i < |keys| && 0 <= j < |keys| ==> !Above(Names(keys[i]), Names(keys[j]))
  }

  lemma PrefixFreeKeysAreCompatible(d0: Shape, keys: seq<string>)
    requires PrefixFree(keys)
    ensures Compatible(d0, keys)
  {
    hide PlaceOf, Above, TakenUp;
    forall i, j, p, q | IsPlace(d0, keys, i, p) && IsPlace(d0, keys, j, q) ensures !Above(p, q) {
      PlaceAboveIsName(d0, keys[i], keys[j]);
    }
  }

  lemma PlaceAboveIsName(d: Shape, a: string, b: string)
    ensures Above(PlaceOf(d, a), PlaceOf(d, b)) ==> Above(Names(a), Names(b))
  {
    var p, q := PlaceOf(d, a), PlaceOf(d, b);
    if Above(p, q) {
      assert |q| > 1 && q == Names(b) && p[0] == q[0] && q[0] in q;
      PartsAreWithout(b, '.');
      if p == [a] { SplitWhole(a, '.'); }
    }
  }

  lemma ExamplePlaces(d: Shape)
    requires ["a.b"] !in d && ["a.b.c"] !in d
    ensures PlaceOf(d, "a") == ["a"] && PlaceOf(d, "a.b") == ["a", "b"] && PlaceOf(d, "a.b.c") == ["a", "b", "c"]
    ensures Above(["a"], ["a", "b"]) && Above(["a", "b"], ["a", "b", "c"]) && Above(["a"], ["a", "b", "c"])
  {
    SplitWhole("a", '.');
    SplitWhole("b", '.');
    SplitWhole("c", '.');
    SplitConcat("a", "b", '.');
    SplitConcat("a.b", "c", '.');
    assert "a" + ['.'] + "b" == "a.b" && "a.b" + ['.'] + "c" == "a.b.c" && "a.b"[1] == '.' && "a.b.c"[1] == '.';
    assert Names("a.b") == ["a", "b"] && Names("a.b.c") == ["a", "b", "c"];
  }

  /** Two keys raise a TypeError exactly if the second extends the first, and the value of
      the first is no dictionary of the default file or a value stands between. */
  lemma TwoKeysRaise(d: Shape, a: string, b: string)
    requires IsTree(d)
    ensures var p, q := PlaceOf(d, a), PlaceOf(d, b);
      Run(d, [a, b], 2).None? <==>
        Above(p, q) && (!IsBranch(d, p) || exists c :: Above(p, c) && Above(c, q) && IsEnd(d, c))
  {
    var keys, p, q := [a, b], PlaceOf(d, a), PlaceOf(d, b);
    RaisesExactly(d, keys, 2);
    hide Run, PlaceOf, IsTree;
    assert IsPlace(d, keys, 0, p);
    assert forall c :: ValueAt(d, keys, 1, c) <==> IsEnd(d, c);
    assert ValueBetween(d, keys, 1, p, q) <==> exists c :: Above(p, c) && Above(c, q) && IsEnd(d, c);
    assert StopsAt(d, keys, 1) <==>
      Above(p, q) && ((!IsBranch(d, p) && !SomeAbove(d, keys, 1, p)) || ValueBetween(d, keys, 1, p, q));
    assert !StopsAt(d, keys, 0);
  }

  lemma TreeOf(d: Shape)
    requires d == map[[] := Branch] || d == map[[] := Branch, ["a"] := Branch]
          || exists x :: d == map[[] := Branch, ["a"] := Branch, ["a", "b"] := End(x)]
    ensures IsTree(d)
  {
    assert Front(["a"]) == [] && Front(["a", "b"]) == ["a"];
  }

  /** With an empty default file: "a.b" before "a" is lost, and after "a" it raises a
      TypeError. */
  lemma EmptyDefaultExample()
    ensures var d: Shape := map[[] := Branch];
      && Run(d, ["a.b", "a"], 2).Some? && !Compatible(d, ["a.b", "a"])
      && Run(d, ["a", "a.b"], 2).None?
  {
    var d: Shape := map[[] := Branch];
    ExamplePlaces(d);
    hide PlaceOf, Run, IsTree, TakenUp;
    TreeOf(d);
    TwoKeysRaise(d, "a.b", "a");
    TwoKeysRaise(d, "a", "a.b");
    var lost := ["a.b", "a"];
    assert IsPlace(d, lost, 0, ["a", "b"]) && IsPlace(d, lost, 1, ["a"]);
  }

  /** Where the default file has "b" in a dictionary "a", "a.b" is found before and after
      "a", and "a.b.c" after "a" raises a TypeError. */
  lemma FilledDefaultExample(x: Leaf)
    requires x != NoneLeaf
    ensures var d: Shape := map[[] := Branch, ["a"] := Branch, ["a", "b"] := End(x)];
      && Compatible(d, ["a", "a.b"]) && Compatible(d, ["a.b", "a"])
      && Run(d, ["a", "a.b.c"], 2).None?
  {
    var d: Shape := map[[] := Branch, ["a"] := Branch, ["a", "b"] := End(x)];
    ExamplePlaces(d);
    hide PlaceOf, Run, IsTree, TakenUp;
    TreeOf(d);
    TwoKeysRaise(d, "a", "a.b.c");
    assert IsEnd(d, ["a", "b"]);
  }

  /** Where it has an empty dictionary "a", "a.b" is found if it comes after "a", for then
      the default file takes it up, and not if it comes only before. */
  lemma TakenUpExample()
    ensures var d: Shape := map[[] := Branch, ["a"] := Branch];
      && Compatible(d, ["a", "a.b"]) && Compatible(d, ["a.b", "a", "a.b"])
      && Run(d, ["a.b", "a"], 2).Some? && !Compatible(d, ["a.b", "a"])
  {
    var d: Shape := map[[] := Branch, ["a"] := Branch];
    ExamplePlaces(d);
    TreeOf(d);
    TakenUpAfter(d);
    TakenUpAgain(d);
    NotTakenUp(d);
    hide PlaceOf, Run, IsTree, TakenUp;
    TwoKeysRaise(d, "a.b", "a");
    var lost := ["a.b", "a"];
    assert IsPlace(d, lost, 0, ["a", "b"]) && IsPlace(d, lost, 1, ["a"]);
  }

  lemma TakenUpAfter(d: Shape)
    requires d == map[[] := Branch, ["a"] := Branch]
    ensures Compatible(d, ["a", "a.b"])
  {
    var keys := ["a", "a.b"];
    ExamplePlaces(d);
    hide PlaceOf;
    assert IsPlace(d, keys, 0, ["a"]) && IsPlace(d, keys, 1, ["a", "b"]);
    assert SomeAbove(d, keys, 1, ["a", "b"]);
    assert TakenUp(d, keys, ["a", "b"]);
  }

  lemma TakenUpAgain(d: Shape)
    requires d == map[[] := Branch, ["a"] := Branch]
    ensures Compatible(d, ["a.b", "a", "a.b"])
  {
    var keys := ["a.b", "a", "a.b"];
    ExamplePlaces(d);
    hide PlaceOf;
    assert IsPlace(d, keys, 1, ["a"]) && IsPlace(d, keys, 2, ["a", "b"]);
    assert SomeAbove(d, keys, 2, ["a", "b"]);
    assert TakenUp(d, keys, ["a", "b"]);
  }

  lemma NotTakenUp(d: Shape)
    requires d == map[[] := Branch, ["a"] := Branch]
    ensures !TakenUp(d, ["a.b", "a"], ["a", "b"])
  {
    ExamplePlaces(d);
    hide PlaceOf;
  }
}
