/**
 The order in which modules are checked, of compiler2/AST.cc: a module is checked after those that are
 visible from it, as far as circular imports allow.
 */
module ModuleCheck {
  import opened Sequences

  /** For every module, the modules visible from it. */
  type Graph = g: seq<seq<nat>> | forall u, i :: 0 <= u < |g| && 0 <= i < |g[u]| ==> g[u][i] < |g|

  // ---------------------------------------------------------------- paths

  /** `b` can be reached from `a` in `k` steps. */
  ghost predicate ReachesIn(g: Graph, a: nat, b: nat, k: nat)
    requires a < |g|
    decreases k
  {
    if k == 0 then a == b else exists i :: 0 <= i < |g[a]| && ReachesIn(g, g[a][i], b, k - 1)
  }

  ghost predicate Reaches(g: Graph, a: nat, b: nat)
    requires a < |g|
  {
    exists k: nat :: ReachesIn(g, a, b, k)
  }

  lemma {:induction false} ReachesInNext(g: Graph, a: nat, b: nat, k: nat, c: nat)
    requires a < |g| && b < |g| && ReachesIn(g, a, b, k) && c in g[b]
    ensures ReachesIn(g, a, c, k + 1)
    decreases k
  {
    if k == 0 {
      var i :| 0 <= i < |g[a]| && g[a][i] == c;
      assert ReachesIn(g, g[a][i], c, 0);
    } else {
      var i :| 0 <= i < |g[a]| && ReachesIn(g, g[a][i], b, k - 1);
      ReachesInNext(g, g[a][i], b, k - 1, c);
    }
  }

  /** A path goes on over everything that is visible from its end. */
  lemma ReachesNext(g: Graph, a: nat, b: nat, c: nat)
    requires a < |g| && b < |g| && Reaches(g, a, b) && c in g[b]
    ensures Reaches(g, a, c)
  {
    var k: nat :| ReachesIn(g, a, b, k);
    ReachesInNext(g, a, b, k, c);
  }

  lemma ReachesItself(g: Graph, a: nat)
    requires a < |g|
    ensures Reaches(g, a, a)
  {
    assert ReachesIn(g, a, a, 0);
  }

  // ---------------------------------------------------------------- orders

  function Elements(s: seq<nat>): set<nat> {
    set u | u in s
  }

  /** All modules visible from the `k`-th come before it, are taken for granted, or lead back to it. */
  ghost predicate Timely(g: Graph, assumed: set<nat>, order: seq<nat>, k: nat)
    requires k < |order|
  {
    order[k] < |g| &&
    forall v :: v in g[order[k]] ==> v in order[..k] || v in assumed || Reaches(g, v, order[k])
  }

  ghost predicate Ordered(g: Graph, assumed: set<nat>, order: seq<nat>) {
    Distinct(order) && forall k :: 0 <= k < |order| ==> Timely(g, assumed, order, k)
  }

  lemma OrderedSnoc(g: Graph, assumed: set<nat>, order: seq<nat>, u: nat)
    requires Ordered(g, assumed, order) && u < |g| && u !in order
    requires forall v :: v in g[u] ==> v in order || v in assumed || Reaches(g, v, u)
    ensures Ordered(g, assumed, order + [u])
  {
    hide Reaches;
    var longer := order + [u];
    forall k | 0 <= k < |longer| ensures Timely(g, assumed, longer, k) {
      if k < |order| {
        assert Timely(g, assumed, order, k);
        assert longer[..k] == order[..k] && longer[k] == order[k];
      } else {
        assert longer[..k] == order;
      }
    }
  }

  // ---------------------------------------------------------------- the recursive check

  function Below(n: nat): (s: set<nat>)
    ensures forall u: nat :: u in s <==> u < n
  {
    if n == 0 then {} else Below(n - 1) + {n - 1}
  }

  function Modules(g: Graph): set<nat> {
    Below(|g|)
  }

  class Checker {
    /** `checked_modules`, and the modules whose `chk` has been called, in order */
    var checked: set<nat>
    var order: seq<nat>

    constructor ()
      ensures checked == {} && order == []
    {
      checked, order := {}, [];
    }

    /** Everything marked is taken for granted, has been checked, or is being checked. */
    ghost predicate Valid(g: Graph, assumed: set<nat>, pending: set<nat>)
      reads this
    {
      checked == assumed + Elements(order) + pending && checked <= Modules(g) &&
      pending !! Elements(order) && assumed !! Elements(order) && Ordered(g, assumed, order)
    }

    /** `chk_recursive`, while the modules in `pending` are being checked */
    method ChkRecursive(g: Graph, u: nat, ghost assumed: set<nat>, ghost pending: set<nat>)
      requires Valid(g, assumed, pending) && u < |g|
      requires forall p :: p in pending ==> p < |g| && Reaches(g, p, u)
      modifies this
      ensures Valid(g, assumed, pending) && u in checked
      ensures old(order) <= order && old(checked) <= checked
      decreases Modules(g) - checked
    {
      hide Ordered, Reaches;
      if u in checked {
        return;
      }
      checked := checked + {u};
      ghost var all := pending + {u};
      for i := 0 to |g[u]|
        invariant Valid(g, assumed, all) && old(order) <= order && old(checked) + {u} <= checked
        invariant forall k :: 0 <= k < i ==> g[u][k] in checked
      {
        var m := g[u][i];
        if m != u {
          forall p | p in all ensures Reaches(g, p, m) {
            ReachesItself(g, u);
            ReachesNext(g, p, u, m);
          }
          ChkRecursive(g, m, assumed, all);
        }
      }
      ReachesItself(g, u);
      OrderedSnoc(g, assumed, order, u);
      order := order + [u];
    }
  }

  /** The modules whose check is skipped when top-level PDUs are given. */
  function Assumed(g: Graph, isAsn: seq<bool>, topLevelPdus: bool): set<nat>
    requires |isAsn| == |g|
  {
    set u | u in Modules(g) && topLevelPdus && isAsn[u]
  }

  /** ASN.1 modules are marked as if they had been checked. */
  method MarkAsn(c: Checker, isAsn: seq<bool>)
    requires c.checked == {}
    modifies c`checked
    ensures c.checked == set u | u in Below(|isAsn|) && isAsn[u]
  {
    hide Below;
    for i := 0 to |isAsn|
      invariant c.checked == set u | u in Below(i) && isAsn[u]
    {
      if isAsn[i] {
        c.checked := c.checked + {i};
      }
    }
  }

  /** The loop of `Modules::chk`: the order in which `chk` is called */
  method ChkModules(g: Graph, isAsn: seq<bool>, topLevelPdus: bool) returns (order: seq<nat>)
    requires |isAsn| == |g|
    ensures Distinct(order) && Elements(order) == Modules(g) - Assumed(g, isAsn, topLevelPdus)
    ensures Ordered(g, Assumed(g, isAsn, topLevelPdus), order)
  {
    hide Reaches, Timely, Below;
    var c := new Checker();
    ghost var assumed := Assumed(g, isAsn, topLevelPdus);
    if topLevelPdus {
      MarkAsn(c, isAsn);
    }
    assert c.checked == assumed;
    for i := 0 to |g|
      invariant c.Valid(g, assumed, {}) && Below(i) <= c.checked
    {
      if !topLevelPdus || !isAsn[i] {
        c.ChkRecursive(g, i, assumed, {});
      }
    }
    order := c.order;
  }

  /** No module but itself is both visible from a module and leads back to it. */
  ghost predicate Acyclic(g: Graph) {
    forall u, i :: 0 <= u < |g| && 0 <= i < |g[u]| && g[u][i] != u ==> !Reaches(g, g[u][i], u)
  }

  /** Without circular imports, every module comes after all others that are visible from it and not taken for granted. */
  lemma AcyclicOrder(g: Graph, assumed: set<nat>, order: seq<nat>, k: nat, v: nat)
    requires Acyclic(g) && Ordered(g, assumed, order) && k < |order| && order[k] < |g|
    requires v in g[order[k]] && v != order[k]
    ensures v in order[..k] || v in assumed
  {
    assert Timely(g, assumed, order, k);
    var i :| 0 <= i < |g[order[k]]| && g[order[k]][i] == v;
  }
}
