/**
 Component types and their extensions, of compiler2/CompType.cc: a component may extend others with the
 `extends` keyword or with the extension attribute, and from both the compiler builds a map of the
 components it is compatible with.
 */
module ComponentType {

  // ---------------------------------------------------------------- components

  /** `check_state_t`, in its order */
  const INITIAL := 0
  const WITHATTRIB := 1
  const EXTENDS := 2
  const DEFUNIQ := 3
  const OWNDEFS := 4
  const EXTDEFS := 5
  const FINAL := 6

  type State = s: nat | s <= FINAL

  /** `ComponentTypeBody`; the rank only says that extensions are not circular. */
  class Component {
    const bases: seq<Component>
    const attrBases: seq<Component>
    const nofDefs: nat
    ghost const rank: nat
    var state: State
    var checking: bool
    var compatible: map<Component, Component?>

    constructor (bases: seq<Component>, attrBases: seq<Component>, nofDefs: nat, ghost rank: nat)
      ensures this.bases == bases && this.attrBases == attrBases && this.nofDefs == nofDefs && this.rank == rank
      ensures state == INITIAL && !checking && compatible == map[]
    {
      this.bases, this.attrBases, this.nofDefs, this.rank := bases, attrBases, nofDefs, rank;
      state, checking, compatible := INITIAL, false, map[];
    }

    /** All that it extends directly, in the order in which they are looked at. */
    function Parents(): seq<Component> {
      bases + attrBases
    }

    predicate Empty() {
      nofDefs == 0 && bases == [] && attrBases == []
    }
  }

  /** A closed set of components without circular extensions. */
  ghost predicate Acyclic(all: set<Component>) {
    forall c, i :: c in all && 0 <= i < |c.Parents()| ==> c.Parents()[i] in all && c.Parents()[i].rank < c.rank
  }

  // ---------------------------------------------------------------- what extends what

  /** `c` extends `a`, directly or not, by any means. */
  ghost predicate Ancestor(all: set<Component>, a: Component, c: Component)
    requires Acyclic(all) && c in all
    decreases c.rank
  {
    exists i :: 0 <= i < |c.Parents()| && (c.Parents()[i] == a || Ancestor(all, a, c.Parents()[i]))
  }

  lemma ParentOf(all: set<Component>, c: Component, i: nat)
    requires Acyclic(all) && c in all && i < |c.bases|
    ensures c.bases[i] == c.Parents()[i] && c.bases[i] in all && c.bases[i].rank < c.rank
  {
  }

  /** `c` extends `a`, directly or not, by keywords only. */
  ghost predicate ByKeywords(all: set<Component>, a: Component, c: Component)
    requires Acyclic(all) && c in all
    decreases c.rank
  {
    exists i | 0 <= i < |c.bases| ::
      ParentOf(all, c, i); c.bases[i] == a || ByKeywords(all, a, c.bases[i])
  }

  // ---------------------------------------------------------------- the compatibility map

  type Compatibles = map<Component, Component?>

  /** What `init_compatibility` adds for one component `p` with its own map. */
  function Merge(m: Compatibles, p: Component, ofP: Compatibles, keyword: bool): Compatibles {
    var direct := if p in m then m else m[p := if keyword then p else null];
    (map k | k in ofP :: if keyword then ofP[k] else null) + direct
  }

  lemma MergeKeys(m: Compatibles, p: Component, ofP: Compatibles, keyword: bool, k: Component)
    ensures k in Merge(m, p, ofP, keyword) <==> k in m || k == p || k in ofP
  {
  }

  /** The map after the first `n` parents. */
  ghost function MapAfter(all: set<Component>, c: Component, n: nat): Compatibles
    requires Acyclic(all) && c in all && n <= |c.Parents()|
    decreases c.rank, n
  {
    if n == 0 then map[] else
      var p := c.Parents()[n - 1];
      Merge(MapAfter(all, c, n - 1), p, MapAfter(all, p, |p.Parents()|), n <= |c.bases|)
  }

  ghost function MapOf(all: set<Component>, c: Component): Compatibles
    requires Acyclic(all) && c in all
  {
    MapAfter(all, c, |c.Parents()|)
  }

  /** One of the first `n` parents is `a` or extends it. */
  ghost predicate AncestorVia(all: set<Component>, a: Component, c: Component, n: nat)
    requires Acyclic(all) && c in all && n <= |c.Parents()|
  {
    exists i :: 0 <= i < n && (c.Parents()[i] == a || Ancestor(all, a, c.Parents()[i]))
  }

  lemma AncestorIsVia(all: set<Component>, a: Component, c: Component)
    requires Acyclic(all) && c in all
    ensures Ancestor(all, a, c) <==> AncestorVia(all, a, c, |c.Parents()|)
  {
  }

  lemma AncestorViaNext(all: set<Component>, a: Component, c: Component, n: nat)
    requires Acyclic(all) && c in all && n <= |c.Parents()|
    ensures !AncestorVia(all, a, c, 0)
    ensures n > 0 ==> (AncestorVia(all, a, c, n) <==>
      AncestorVia(all, a, c, n - 1) || c.Parents()[n - 1] == a || Ancestor(all, a, c.Parents()[n - 1]))
  {
    hide Ancestor;
  }

  lemma {:induction false} KeysAfter(all: set<Component>, a: Component, c: Component, n: nat)
    requires Acyclic(all) && c in all && n <= |c.Parents()|
    ensures a in MapAfter(all, c, n) <==> AncestorVia(all, a, c, n)
    decreases c.rank, n
  {
    hide Ancestor, AncestorVia, Merge;
    AncestorViaNext(all, a, c, n);
    if n > 0 {
      var p := c.Parents()[n - 1];
      MergeKeys(MapAfter(all, c, n - 1), p, MapAfter(all, p, |p.Parents()|), n <= |c.bases|, a);
      KeysAfter(all, a, c, n - 1);
      KeysAfter(all, a, p, |p.Parents()|);
      AncestorIsVia(all, a, p);
    }
  }

  /** The keys of the map are the proper ancestors. */
  lemma KeysAreAncestors(all: set<Component>, a: Component, c: Component)
    requires Acyclic(all) && c in all
    ensures a in MapOf(all, c) <==> Ancestor(all, a, c)
  {
    KeysAfter(all, a, c, |c.Parents()|);
    AncestorIsVia(all, a, c);
  }

  lemma {:induction false} ValuesAfter(all: set<Component>, a: Component, c: Component, n: nat)
    requires Acyclic(all) && c in all && n <= |c.Parents()|
    requires a in MapAfter(all, c, n) && MapAfter(all, c, n)[a] != null
    ensures MapAfter(all, c, n)[a] == a && ByKeywords(all, a, c)
    decreases c.rank, n
  {
    var p := c.Parents()[n - 1];
    var before := MapAfter(all, c, n - 1);
    if a in before {
      ValuesAfter(all, a, c, n - 1);
    } else {
      ParentOf(all, c, n - 1);
      if a != p {
        ValuesAfter(all, a, p, |p.Parents()|);
      }
    }
  }

  /** A value that is not missing is its key, which is reached by keywords only. */
  lemma ValuesAreByKeywords(all: set<Component>, a: Component, c: Component)
    requires Acyclic(all) && c in all
    requires a in MapOf(all, c) && MapOf(all, c)[a] != null
    ensures MapOf(all, c)[a] == a && ByKeywords(all, a, c)
  {
    ValuesAfter(all, a, c, |c.Parents()|);
  }

  /** The first parent that is `a` or extends it. */
  ghost function FirstVia(all: set<Component>, a: Component, c: Component, n: nat): (i: nat)
    requires Acyclic(all) && c in all && n <= |c.Parents()| && AncestorVia(all, a, c, n)
    ensures i < n && (c.Parents()[i] == a || Ancestor(all, a, c.Parents()[i])) && !AncestorVia(all, a, c, i)
  {
    if AncestorVia(all, a, c, n - 1) then FirstVia(all, a, c, n - 1) else n - 1
  }

  /** The path to `a` that always takes the first parent leading there consists of keywords only. */
  ghost predicate FirstByKeywords(all: set<Component>, a: Component, c: Component)
    requires Acyclic(all) && c in all && Ancestor(all, a, c)
    decreases c.rank
  {
    AncestorIsVia(all, a, c);
    var i := FirstVia(all, a, c, |c.Parents()|);
    var p := c.Parents()[i];
    i < |c.bases| && (p == a || FirstByKeywords(all, a, p))
  }

  /** What the map of a component gets for `a` from its `i`-th parent. */
  ghost function Inherited(all: set<Component>, a: Component, c: Component, i: nat): Component?
    requires Acyclic(all) && c in all && i < |c.Parents()|
  {
    var p := c.Parents()[i];
    if i >= |c.bases| then null
    else if p == a then a
    else if a in MapOf(all, p) then MapOf(all, p)[a] else null
  }

  lemma {:induction false} ValueAfter(all: set<Component>, a: Component, c: Component, n: nat)
    requires Acyclic(all) && c in all && n <= |c.Parents()| && AncestorVia(all, a, c, n)
    ensures a in MapAfter(all, c, n) && MapAfter(all, c, n)[a] == Inherited(all, a, c, FirstVia(all, a, c, n))
    decreases n
  {
    hide Ancestor, AncestorVia;
    AncestorViaNext(all, a, c, n);
    KeysAfter(all, a, c, n);
    KeysAfter(all, a, c, n - 1);
    if AncestorVia(all, a, c, n - 1) {
      ValueAfter(all, a, c, n - 1);
    }
  }

  /** Exactly when the value is the key: when the first path to it is one of keywords. */
  lemma {:induction false} ValueIsKeyExactly(all: set<Component>, a: Component, c: Component)
    requires Acyclic(all) && c in all && Ancestor(all, a, c)
    ensures a in MapOf(all, c)
    ensures MapOf(all, c)[a] == a <==> FirstByKeywords(all, a, c)
    decreases c.rank
  {
    hide Ancestor, AncestorVia;
    var n := |c.Parents()|;
    AncestorIsVia(all, a, c);
    ValueAfter(all, a, c, n);
    var p := c.Parents()[FirstVia(all, a, c, n)];
    if p != a {
      ValueIsKeyExactly(all, a, p);
    }
  }

  // ---------------------------------------------------------------- building the map

  /** Nothing of this rank or below is being checked, and a map is complete or not yet begun. */
  ghost predicate Settled(all: set<Component>, rank: int)
    requires Acyclic(all)
    reads all
  {
    forall c :: c in all && c.rank <= rank ==>
      !c.checking && c.compatible == if c.state >= EXTENDS then MapOf(all, c) else map[]
  }

  /** The definitions of all that a component extends have been looked at. */
  ghost predicate ParentsDone(c: Component)
    reads c.Parents()
  {
    forall i :: 0 <= i < |c.Parents()| ==> c.Parents()[i].state >= DEFUNIQ
  }

  ghost function UpTo(all: set<Component>, rank: int): set<Component> {
    set c | c in all && c.rank <= rank
  }

  /** One pass of the loop of `init_compatibility` */
  method AddParent(c: Component, p: Component, keyword: bool)
    requires c != p
    modifies c`compatible
    ensures c.compatible == Merge(old(c.compatible), p, p.compatible, keyword)
  {
    hide Merge;
    if p !in c.compatible {
      c.compatible := c.compatible[p := if keyword then p else null];
    }
    ghost var direct := c.compatible;
    var keys := p.compatible.Keys;
    ghost var seen: set<Component> := {};
    while keys != {}
      invariant keys + seen == p.compatible.Keys && p.compatible == old(p.compatible)
      invariant c.compatible.Keys == direct.Keys + seen
      invariant forall k :: k in direct ==> c.compatible[k] == direct[k]
      invariant forall k :: k in seen && k !in direct ==> c.compatible[k] == if keyword then p.compatible[k] else null
      decreases keys
    {
      var k :| k in keys;
      if k !in c.compatible {
        c.compatible := c.compatible[k := if keyword then p.compatible[k] else null];
      }
      keys, seen := keys - {k}, seen + {k};
    }
    assert seen == p.compatible.Keys;
    MergeIs(old(c.compatible), p, p.compatible, keyword, c.compatible);
  }

  lemma MergeIs(m: Compatibles, p: Component, ofP: Compatibles, keyword: bool, r: Compatibles)
    requires r.Keys == m.Keys + {p} + ofP.Keys
    requires forall k :: k in m ==> r[k] == m[k]
    requires p !in m ==> r[p] == if keyword then p else null
    requires forall k :: k in ofP && k !in m && k != p ==> r[k] == if keyword then ofP[k] else null
    ensures r == Merge(m, p, ofP, keyword)
  {
    var n := Merge(m, p, ofP, keyword);
    assert n.Keys == r.Keys;
    forall k | k in r ensures r[k] == n[k] {
    }
  }

  /** `init_compatibility` for the parents from `from` to `to`, which all have their maps */
  method InitCompatibility(ghost all: set<Component>, c: Component, refs: seq<Component>, keyword: bool, ghost from: nat)
    requires Acyclic(all) && c in all && from + |refs| <= |c.Parents()|
    requires refs == c.Parents()[from..from + |refs|]
    requires if keyword then from + |refs| <= |c.bases| else from >= |c.bases|
    requires forall p :: p in refs ==> p.compatible == MapOf(all, p)
    requires c.compatible == MapAfter(all, c, from)
    modifies c`compatible
    ensures c.compatible == MapAfter(all, c, from + |refs|)
  {
    hide Merge;
    for i := 0 to |refs|
      invariant c.compatible == MapAfter(all, c, from + i)
      invariant forall p :: p in refs ==> p.compatible == MapOf(all, p)
    {
      assert refs[i] == c.Parents()[from + i];
      AddParent(c, refs[i], keyword);
    }
  }

  /** `chk_extends` */
  method ChkExtends(ghost all: set<Component>, c: Component)
    requires Acyclic(all) && c in all && Settled(all, c.rank - 1)
    requires c.state < EXTENDS && c.compatible == map[]
    modifies c`state, c`compatible, UpTo(all, c.rank - 1)
    ensures Settled(all, c.rank - 1) && StatesKept(all, c.rank - 1)
    ensures c.state == EXTENDS && c.compatible == MapOf(all, c)
    decreases c.rank, 0
  {
    hide MapOf, MapAfter;
    c.state := EXTENDS;
    ChkParents(all, c);
    NoParents(all, c);
    InitCompatibility(all, c, c.bases, true, 0);
    InitCompatibility(all, c, c.attrBases, false, |c.bases|);
  }

  /** Everything that a component extends is checked first. */
  method ChkParents(ghost all: set<Component>, c: Component)
    requires Acyclic(all) && c in all && Settled(all, c.rank - 1)
    modifies UpTo(all, c.rank - 1)
    ensures Settled(all, c.rank - 1) && StatesKept(all, c.rank - 1)
    ensures forall p :: p in c.bases || p in c.attrBases ==> p in all && p.compatible == MapOf(all, p)
    decreases c.rank - 1, 5
  {
    hide MapOf, MapAfter;
    ChkList(all, c, c.bases, EXTENDS, 0);
    ChkList(all, c, c.attrBases, EXTENDS, |c.bases|);
    ParentsBelow(all, c);
  }

  lemma ParentsBelow(all: set<Component>, c: Component)
    requires Acyclic(all) && c in all
    ensures forall p :: p in c.bases || p in c.attrBases ==> p in all && p.rank < c.rank
  {
    forall p | p in c.bases || p in c.attrBases ensures p in all && p.rank < c.rank {
      assert p in c.Parents();
    }
  }

  lemma NoParents(all: set<Component>, c: Component)
    requires Acyclic(all) && c in all
    ensures MapAfter(all, c, 0) == map[] && MapOf(all, c) == MapAfter(all, c, |c.Parents()|)
  {
  }

  /** `CompTypeRefList::chk` */
  method ChkList(ghost all: set<Component>, c: Component, refs: seq<Component>, required: State, ghost from: nat)
    requires Acyclic(all) && c in all && Settled(all, c.rank - 1)
    requires from + |refs| <= |c.Parents()| && refs == c.Parents()[from..from + |refs|]
    modifies UpTo(all, c.rank - 1)
    ensures Settled(all, c.rank - 1) && StatesKept(all, c.rank - 1)
    ensures forall i :: 0 <= i < |refs| ==> refs[i].state >= required
    decreases c.rank - 1, 4
  {
    for i := 0 to |refs|
      invariant Settled(all, c.rank - 1) && StatesKept(all, c.rank - 1)
      invariant forall k :: 0 <= k < i ==> refs[k].state >= required
    {
      assert refs[i] == c.Parents()[from + i];
      Chk(all, refs[i], required);
    }
  }

  /** States never go back. */
  twostate predicate StatesKept(all: set<Component>, rank: int)
    reads all
  {
    forall c :: c in all && c.rank <= rank ==> c.state >= old(c.state)
  }

  /** `chk_defs_uniq`, as far as other components are concerned */
  method ChkDefsUniq(ghost all: set<Component>, c: Component)
    requires Acyclic(all) && c in all && Settled(all, c.rank - 1) && c.state <= DEFUNIQ
    modifies c`state, UpTo(all, c.rank - 1)
    ensures Settled(all, c.rank - 1) && StatesKept(all, c.rank - 1) && c.state == DEFUNIQ && ParentsDone(c)
    decreases c.rank, 0
  {
    hide MapOf, MapAfter;
    c.state := DEFUNIQ;
    ChkList(all, c, c.bases, DEFUNIQ, 0);
    ChkList(all, c, c.attrBases, DEFUNIQ, |c.bases|);
  }

  /** The state that a check leaves: the required one, or the final one if that was reached before. */
  function StateAfter(state: State, required: State): State {
    if required == INITIAL || required <= state then FINAL else required
  }

  /** The checks from the present state on, in order, until the required one is done */
  method RunChecks(ghost all: set<Component>, c: Component, required: State)
    requires Acyclic(all) && c in all && Settled(all, c.rank - 1)
    requires c.compatible == if c.state >= EXTENDS then MapOf(all, c) else map[]
    modifies c`state, c`compatible, UpTo(all, c.rank - 1)
    ensures Settled(all, c.rank - 1) && StatesKept(all, c.rank - 1)
    ensures c.state == StateAfter(old(c.state), required)
    ensures old(c.state) < DEFUNIQ <= c.state ==> ParentsDone(c)
    ensures c.compatible == if c.state >= EXTENDS then MapOf(all, c) else map[]
    decreases c.rank, 2
  {
    hide MapOf, MapAfter;
    var from := c.state;
    if from <= WITHATTRIB {
      var done := BeginChecks(all, c, required);
      if done { return; }
    }
    if from <= EXTENDS {
      ChkDefsUniq(all, c);
      if required == DEFUNIQ { return; }
    }
    FinishChecks(c, from, required);
  }

  /** The first checks, up to what the component extends */
  method BeginChecks(ghost all: set<Component>, c: Component, required: State) returns (done: bool)
    requires Acyclic(all) && c in all && Settled(all, c.rank - 1) && c.state <= WITHATTRIB && c.compatible == map[]
    modifies c`state, c`compatible, UpTo(all, c.rank - 1)
    ensures Settled(all, c.rank - 1) && StatesKept(all, c.rank - 1)
    ensures done <==> required == EXTENDS || (required == WITHATTRIB && old(c.state) == INITIAL)
    ensures c.state == if done then required else EXTENDS
    ensures c.compatible == if c.state == EXTENDS then MapOf(all, c) else map[]
    decreases c.rank, 1
  {
    hide MapOf, MapAfter;
    if c.state <= INITIAL {
      c.state := WITHATTRIB;
      if required == WITHATTRIB { return true; }
    }
    ChkExtends(all, c);
    done := required == EXTENDS;
  }

  /** The last checks, which concern the component alone */
  method FinishChecks(c: Component, from: State, required: State)
    modifies c`state
    ensures c.state == if required in {OWNDEFS, EXTDEFS} && required > from then required else FINAL
  {
    if from <= DEFUNIQ {
      c.state := OWNDEFS;
      if required == OWNDEFS { return; }
    }
    if from <= OWNDEFS {
      c.state := EXTDEFS;
      if required == EXTDEFS { return; }
    }
    c.state := FINAL;
  }

  /** `chk` */
  method Chk(ghost all: set<Component>, c: Component, required: State)
    requires Acyclic(all) && c in all && Settled(all, c.rank)
    modifies UpTo(all, c.rank)
    ensures Settled(all, c.rank) && StatesKept(all, c.rank)
    ensures c.state == StateAfter(old(c.state), required)
    ensures old(c.state) < DEFUNIQ <= c.state ==> ParentsDone(c)
    decreases c.rank, 3
  {
    hide MapOf, MapAfter;
    if c.checking || c.state == FINAL {
      return;
    }
    c.checking := true;
    RunChecks(all, c, required);
    c.checking := false;
  }

  // ---------------------------------------------------------------- compatibility

  /** A component of type `b` may be used where one of type `a` is expected. */
  ghost predicate Compatible(all: set<Component>, a: Component, b: Component)
    requires Acyclic(all) && b in all
  {
    a == b || a.Empty() || Ancestor(all, a, b)
  }

  /** `is_compatible`, between checks; `top` bounds the ranks of all components. */
  method IsCompatible(ghost all: set<Component>, a: Component, b: Component, ghost top: nat) returns (r: bool)
    requires Acyclic(all) && a in all && b in all && Settled(all, top) && a.rank <= top && b.rank <= top
    modifies UpTo(all, top)
    ensures Settled(all, top) && StatesKept(all, top)
    ensures r <==> Compatible(all, a, b)
  {
    hide MapOf, MapAfter, Ancestor;
    if a == b {
      return true;
    }
    Chk(all, a, EXTENDS);
    Chk(all, b, EXTENDS);
    KeysAreAncestors(all, a, b);
    if a.nofDefs == 0 && a.bases == [] && a.attrBases == [] {
      return true;
    }
    r := a in b.compatible;
  }

  lemma {:induction false} AncestorTransitive(all: set<Component>, a: Component, b: Component, c: Component)
    requires Acyclic(all) && b in all && c in all && Ancestor(all, a, b) && Ancestor(all, b, c)
    ensures Ancestor(all, a, c)
    decreases c.rank
  {
    var i :| 0 <= i < |c.Parents()| && (c.Parents()[i] == b || Ancestor(all, b, c.Parents()[i]));
    if c.Parents()[i] != b {
      AncestorTransitive(all, a, b, c.Parents()[i]);
    }
  }

  /** Compatibility is reflexive and transitive. */
  lemma CompatibleIsPreorder(all: set<Component>, a: Component, b: Component, c: Component)
    requires Acyclic(all) && a in all && b in all && c in all
    ensures Compatible(all, a, a)
    ensures Compatible(all, a, b) && Compatible(all, b, c) ==> Compatible(all, a, c)
  {
    if Ancestor(all, a, b) && Ancestor(all, b, c) {
      AncestorTransitive(all, a, b, c);
    }
  }

  /**
   A component that is reached by a keyword, but not on the first path that leads to it, has no value in
   the map: `x` extends `a` and `b`, and `a` extends `b` by attribute.
   */
  method ShadowedKeyword() returns (b: Component, x: Component, ghost all: set<Component>)
    ensures Acyclic(all) && x in all && x.state == EXTENDS && x.compatible == MapOf(all, x)
    ensures ByKeywords(all, b, x) && b in x.compatible && x.compatible[b] == null
  {
    hide Ancestor;
    b := new Component([], [], 1, 0);
    var a := new Component([], [b], 1, 1);
    x := new Component([a, b], [], 1, 2);
    all := {a, b, x};
    ShadowedGraph(all, a, b, x);
    Chk(all, x, EXTENDS);
  }

  lemma ShadowedGraph(all: set<Component>, a: Component, b: Component, x: Component)
    requires all == {a, b, x} && b.bases == [] && b.attrBases == [] && b.rank == 0
    requires a.bases == [] && a.attrBases == [b] && a.rank == 1 && x.bases == [a, b] && x.attrBases == [] && x.rank == 2
    ensures Acyclic(all) && ByKeywords(all, b, x) && b in MapOf(all, x) && MapOf(all, x)[b] == null
  {
    assert a.Parents() == [b] && b.Parents() == [] && x.Parents() == [a, b];
    assert x.bases[1] == b;
    assert MapAfter(all, a, 1) == Merge(MapAfter(all, a, 0), b, MapAfter(all, b, 0), false);
    assert MapAfter(all, x, 1) == Merge(MapAfter(all, x, 0), a, MapAfter(all, a, 1), true);
    assert MapAfter(all, x, 2) == Merge(MapAfter(all, x, 1), b, MapAfter(all, b, 0), true);
  }
}
