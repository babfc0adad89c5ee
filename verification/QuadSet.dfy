/**
 Sets of universal characters, of common/Quadruple.cc: an ordered list of quadruples and intervals, and
 its complement.
 */
module QuadSet {
  const MAX := 0xFFFF_FFFF

  /** The value of a quadruple: 32 bits, without a sign. */
  type Quad = q: nat | q <= MAX

  const ALL := [Interval(0, MAX)]

  function Pred(q: Quad): Quad {
    if q == 0 then MAX else q - 1
  }

  function Succ(q: Quad): Quad {
    if q == MAX then 0 else q + 1
  }

  datatype Node = Single(quad: Quad) | Interval(lower: Quad, upper: Quad) {
    function Low(): Quad {
      if Single? then quad else lower
    }

    function High(): Quad {
      if Single? then quad else upper
    }

    predicate Has(q: Quad) {
      Low() <= q <= High()
    }

    /** `QuadInterval::contains` */
    predicate Covers(other: Node) {
      Low() <= other.Low() && other.High() <= High()
    }

    /** `QuadInterval::has_intersection`: one of the ends of the other is inside */
    predicate Meets(other: Node) {
      Has(other.Low()) || Has(other.High())
    }

    /** `QuadInterval::join` */
    function Join(other: Node): Node {
      Interval(if other.Low() <= Low() then other.Low() else Low(),
               if other.High() >= High() then other.High() else High())
    }
  }

  // ---------------------------------------------------------------- lists

  predicate Has(s: seq<Node>, q: Quad) {
    exists i :: 0 <= i < |s| && s[i].Has(q)
  }

  /** Proper nodes in strictly ascending order. */
  predicate Ascending(s: seq<Node>) {
    (forall i :: 0 <= i < |s| ==> s[i].Low() <= s[i].High()) &&
    forall i, j :: 0 <= i < j < |s| ==> s[i].High() < s[j].Low()
  }

  predicate AllBelow(s: seq<Node>, q: int) {
    forall i :: 0 <= i < |s| ==> s[i].Low() <= s[i].High() < q
  }

  lemma HasSnoc(s: seq<Node>, n: Node, q: Quad)
    ensures Has(s + [n], q) <==> Has(s, q) || n.Has(q)
  {
    var t := s + [n];
    if Has(s, q) {
      var i :| 0 <= i < |s| && s[i].Has(q);
      assert t[i].Has(q);
    }
    if n.Has(q) {
      assert t[|s|].Has(q);
    }
  }

  lemma NothingAbove(s: seq<Node>, bound: int, q: Quad)
    requires AllBelow(s, bound) && bound <= q
    ensures !Has(s, q)
  {
  }

  /** The last of the first `n` nodes that is above `q`; 0 also stands for none. */
  function LastAbove(s: seq<Node>, q: Quad, n: nat): (i: nat)
    requires n <= |s|
    ensures i <= n
  {
    if n == 0 then 0 else if q < s[n - 1].Low() && !s[n - 1].Has(q) then n - 1 else LastAbove(s, q, n - 1)
  }

  lemma {:induction false} NoneAbove(s: seq<Node>, q: Quad, n: nat)
    requires n <= |s|
    ensures AllBelow(s, q) ==> LastAbove(s, q, n) == 0
  {
    if n > 0 {
      NoneAbove(s, q, n - 1);
    }
  }

  /** A node before the `i`-th one, or at the end if that is the first. */
  function Inserted(s: seq<Node>, n: Node, i: nat): seq<Node>
    requires i <= |s|
  {
    if i == 0 then s + [n] else s[..i] + [n] + s[i..]
  }

  lemma HasConcat(s: seq<Node>, t: seq<Node>, q: Quad)
    ensures Has(s + t, q) <==> Has(s, q) || Has(t, q)
  {
    var u := s + t;
    if Has(s, q) {
      var i :| 0 <= i < |s| && s[i].Has(q);
      assert u[i].Has(q);
    }
    if Has(t, q) {
      var i :| 0 <= i < |t| && t[i].Has(q);
      assert u[|s| + i].Has(q);
    }
  }

  lemma HasInserted(s: seq<Node>, n: Node, i: nat, q: Quad)
    requires i <= |s|
    ensures Has(Inserted(s, n, i), q) <==> Has(s, q) || n.Has(q)
  {
    hide Has;
    HasSnoc(s, n, q);
    HasSnoc(s[..i], n, q);
    HasConcat(s[..i] + [n], s[i..], q);
    HasConcat(s[..i], s[i..], q);
    assert s[..i] + s[i..] == s;
  }

  /** The list with one more quadruple, unless the last node holds it. */
  function WithQuad(s: seq<Node>, q: Quad): seq<Node> {
    if s != [] && s[|s| - 1].Has(q) then s else Inserted(s, Single(q), LastAbove(s, q, |s|))
  }

  lemma WithQuadHas(s: seq<Node>, q: Quad, x: Quad)
    ensures Has(WithQuad(s, q), x) <==> Has(s, x) || x == q
  {
    HasInserted(s, Single(q), LastAbove(s, q, |s|), x);
  }

  /** In order, the last node above a new quadruple is the last one if there is any. */
  lemma LastAboveOrdered(s: seq<Node>, q: Quad)
    requires Ascending(s) && (s != [] ==> !s[|s| - 1].Has(q))
    ensures LastAbove(s, q, |s|) == if s != [] && q < s[|s| - 1].Low() then |s| - 1 else 0
  {
    if s != [] && s[|s| - 1].High() < q {
      assert AllBelow(s, q);
      NoneAbove(s, q, |s|);
    }
  }

  /**
   A list stays in order exactly when the new quadruple is not below the last node, or above all but the last one
   of at least two: the place is looked for at the last node that is above it, not at the first.
   */
  lemma InsertedAscends(s: seq<Node>, q: Quad)
    requires Ascending(s)
    ensures Ascending(WithQuad(s, q)) <==> s == [] || s[|s| - 1].Low() <= q || (|s| >= 2 && s[|s| - 2].High() < q)
  {
    hide LastAbove, Ascending;
    if s == [] || !s[|s| - 1].Has(q) {
      LastAboveOrdered(s, q);
      AppendAscends(s, Single(q));
      if |s| >= 2 && q < s[|s| - 1].Low() {
        InsertAscends(s, Single(q));
      } else if s != [] {
        ProperLast(s);
      }
    }
  }

  /** A quadruple below the only node of a list is put after it, and one that is there but not at the end again. */
  lemma OrderLost()
    ensures WithQuad([Single(5)], 3) == [Single(5), Single(3)]
    ensures WithQuad([Single(3), Single(5)], 3) == [Single(3), Single(3), Single(5)]
  {
    assert LastAbove([Single(5)], 3, 0) == 0;
    var s := [Single(3), Single(5)];
    assert LastAbove(s, 3, 2) == 1;
    assert s[..1] == [Single(3)] && s[1..] == [Single(5)];
  }

  lemma AppendAscends(s: seq<Node>, n: Node)
    requires Ascending(s) && n.Low() <= n.High()
    ensures Ascending(s + [n]) <==> s == [] || s[|s| - 1].High() < n.Low()
  {
    var t := s + [n];
    if s != [] {
      assert t[|s| - 1] == s[|s| - 1] && t[|s|] == n;
    }
  }

  lemma InsertAscends(s: seq<Node>, n: Node)
    requires Ascending(s) && n.Low() <= n.High() && |s| >= 2 && n.High() < s[|s| - 1].Low()
    ensures var k := |s| - 1; Ascending(s[..k] + [n] + s[k..]) <==> s[k - 1].High() < n.Low()
  {
    hide Ascending;
    var k := |s| - 1;
    AscendingTake(s, k);
    AppendAscends(s[..k], n);
    var t := s[..k] + [n] + s[k..];
    assert s[k..] == [s[k]] && t[..k + 1] == s[..k] + [n];
    if Ascending(t) {
      AscendingTake(t, k + 1);
    } else if s[k - 1].High() < n.Low() {
      AscendingTake(s, k + 1);
      AppendAscends(s[..k] + [n], s[k]);
    }
  }

  lemma AscendingTake(s: seq<Node>, k: nat)
    requires Ascending(s) && k <= |s|
    ensures Ascending(s[..k]) && (k > 0 ==> s[k - 1].Low() <= s[k - 1].High())
  {
  }

  lemma ProperLast(s: seq<Node>)
    requires Ascending(s) && s != []
    ensures s[|s| - 1].Low() <= s[|s| - 1].High()
  {
  }

  // ---------------------------------------------------------------- adding an interval

  /** The new interval is merged into a node that it partly overlaps. */
  predicate Merges(it: Node, n: Node) {
    it.Interval? && !it.Covers(n) && it.Meets(n)
  }

  function FirstMerge(s: seq<Node>, n: Node): (i: nat)
    ensures i <= |s| && (i < |s| ==> Merges(s[i], n)) && forall k :: 0 <= k < i ==> !Merges(s[k], n)
  {
    if s == [] || Merges(s[0], n) then 0 else 1 + FirstMerge(s[1..], n)
  }

  /** Quadruples inside the new interval are left out. */
  function Outside(s: seq<Node>, n: Node): (r: seq<Node>)
    ensures |r| <= |s|
  {
    if s == [] then []
    else
      var it := s[|s| - 1];
      Outside(s[..|s| - 1], n) + if it.Single? && n.Has(it.quad) then [] else [it]
  }

  /** The last interval decides whether the new one is there already. */
  predicate Covered(s: seq<Node>, n: Node) {
    s != [] && if s[|s| - 1].Interval? then s[|s| - 1].Covers(n) else Covered(s[..|s| - 1], n)
  }

  /** `operator <`, and none of the cases before it */
  predicate Below(n: Node, it: Node) {
    n.High() < it.Low() && if it.Single? then !n.Has(it.quad) else !it.Covers(n) && !n.Meets(it)
  }

  /** The number of nodes before the last one above the new interval; 0 also stands for none. */
  function Place(s: seq<Node>, n: Node): (i: nat)
    ensures i <= |Outside(s, n)|
  {
    if s == [] then 0
    else if Below(n, s[|s| - 1]) then |Outside(s[..|s| - 1], n)|
    else Place(s[..|s| - 1], n)
  }

  function Added(s: seq<Node>, n: Node): seq<Node> {
    var i := FirstMerge(s, n);
    if i < |s| then Outside(s[..i], n) + [s[i].Join(n)] + s[i + 1..]
    else if Covered(s, n) then Outside(s, n)
    else Inserted(Outside(s, n), n, Place(s, n))
  }

  /** `join_if_possible` frees a later node that the merged interval meets, without unlinking it. */
  predicate Frees(start: Node, it: Node) {
    if it.Single? then start.Has(it.quad) else start.Meets(it)
  }

  predicate Dangles(s: seq<Node>, n: Node) {
    var i := FirstMerge(s, n);
    i < |s| && exists k :: i < k < |s| && Frees(s[i].Join(n), s[k])
  }

  /** An interval that closes the gap between two others. */
  lemma DanglingHappens()
    ensures Dangles([Interval(10, 20), Interval(30, 40)], Interval(20, 30))
  {
    var s, n := [Interval(10, 20), Interval(30, 40)], Interval(20, 30);
    assert Merges(s[0], n);
    assert Frees(s[0].Join(n), s[1]);
  }

  lemma JoinIsUnion(it: Node, n: Node, q: Quad)
    requires it.Interval? && n.Interval? && it.Meets(n)
    ensures it.Join(n).Has(q) <==> it.Has(q) || n.Has(q)
  {
  }

  lemma OutsideStep(s: seq<Node>, n: Node, i: nat)
    requires i < |s|
    ensures Outside(s[..i + 1], n) == Outside(s[..i], n) + if s[i].Single? && n.Has(s[i].quad) then [] else [s[i]]
    ensures Covered(s[..i + 1], n) <==> if s[i].Interval? then s[i].Covers(n) else Covered(s[..i], n)
    ensures Place(s[..i + 1], n) == if Below(n, s[i]) then |Outside(s[..i], n)| else Place(s[..i], n)
  {
    assert s[..i + 1][..i] == s[..i];
  }

  /** Nothing that is left out is lost. */
  lemma {:induction false} OutsideHas(s: seq<Node>, n: Node, q: Quad)
    ensures Has(Outside(s, n), q) || n.Has(q) <==> Has(s, q) || n.Has(q)
  {
    hide Has;
    HasNothing(q);
    if s != [] {
      var k := |s| - 1;
      OutsideHas(s[..k], n, q);
      HasTake(s, k, q);
      assert s[..k + 1] == s;
      HasSnoc(Outside(s[..k], n), s[k], q);
      assert Outside(s[..k], n) + [] == Outside(s[..k], n);
    }
  }

  lemma {:induction false} CoveredHas(s: seq<Node>, n: Node, q: Quad)
    requires n.Interval? && Covered(s, n) && n.Has(q)
    ensures Has(Outside(s, n), q)
  {
    hide Has;
    var k := |s| - 1;
    HasSnoc(Outside(s[..k], n), s[k], q);
    if s[k].Single? {
      CoveredHas(s[..k], n, q);
      assert Outside(s[..k], n) + [] == Outside(s[..k], n);
    }
  }

  /** Whatever is in the list, adding an interval adds its quadruples and no others. */
  lemma AddedHas(s: seq<Node>, n: Node, q: Quad)
    requires n.Interval?
    ensures Has(Added(s, n), q) <==> Has(s, q) || n.Has(q)
  {
    hide Has, Outside, Covered, Place, Inserted, Merges;
    var i := FirstMerge(s, n);
    if i < |s| {
      MergedHas(s, n, i, q);
    } else {
      OutsideHas(s, n, q);
      HasInserted(Outside(s, n), n, Place(s, n), q);
      if Covered(s, n) && n.Has(q) {
        CoveredHas(s, n, q);
      }
    }
  }

  lemma EachAddedHas(s: seq<Node>, n: Node)
    requires n.Interval?
    ensures forall q: Quad :: Has(Added(s, n), q) <==> Has(s, q) || n.Has(q)
  {
    hide Has, Added;
    forall q: Quad ensures Has(Added(s, n), q) <==> Has(s, q) || n.Has(q) {
      AddedHas(s, n, q);
    }
  }

  lemma MergedHas(s: seq<Node>, n: Node, i: nat, q: Quad)
    requires n.Interval? && i < |s| && Merges(s[i], n)
    ensures Has(Outside(s[..i], n) + [s[i].Join(n)] + s[i + 1..], q) <==> Has(s, q) || n.Has(q)
  {
    hide Has, Outside;
    OutsideHas(s[..i], n, q);
    JoinIsUnion(s[i], n, q);
    HasSnoc(Outside(s[..i], n), s[i].Join(n), q);
    HasConcat(Outside(s[..i], n) + [s[i].Join(n)], s[i + 1..], q);
    HasTake(s, i, q);
    HasConcat(s[..i + 1], s[i + 1..], q);
    assert s[..i + 1] + s[i + 1..] == s;
  }

  // ---------------------------------------------------------------- all nodes of another list

  function AddedNode(s: seq<Node>, n: Node): seq<Node> {
    if n.Single? then WithQuad(s, n.quad) else Added(s, n)
  }

  function AddedAll(s: seq<Node>, t: seq<Node>): seq<Node> {
    if t == [] then s else AddedNode(AddedAll(s, t[..|t| - 1]), t[|t| - 1])
  }

  /** An interval dangles on the list that the nodes before it leave. */
  predicate DanglesAt(s: seq<Node>, t: seq<Node>, k: nat)
    requires k < |t|
  {
    t[k].Interval? && Dangles(AddedAll(s, t[..k]), t[k])
  }

  predicate JoinDangles(s: seq<Node>, t: seq<Node>) {
    exists k :: 0 <= k < |t| && DanglesAt(s, t, k)
  }

  lemma {:induction false} AddedAllHas(s: seq<Node>, t: seq<Node>, q: Quad)
    ensures Has(AddedAll(s, t), q) <==> Has(s, q) || Has(t, q)
  {
    hide Has, WithQuad, Added;
    if t == [] {
      HasNothing(q);
    } else {
      var n := |t| - 1;
      AddedAllHas(s, t[..n], q);
      HasTake(t, n, q);
      assert t[..n + 1] == t;
      if t[n].Single? {
        WithQuadHas(AddedAll(s, t[..n]), t[n].quad, q);
      } else {
        AddedHas(AddedAll(s, t[..n]), t[n], q);
      }
    }
  }

  // ---------------------------------------------------------------- the order after an interval

  /** Above all nodes, or between the last two. */
  predicate FitsIn(s: seq<Node>, n: Node) {
    s == [] || s[|s| - 1].High() < n.Low() ||
    (|s| >= 2 && s[|s| - 2].High() < n.Low() && n.High() < s[|s| - 1].Low())
  }

  /**
   When a list stays in order: an interval that is merged may hold no other interval that comes before, and one
   that is not merged is proper and is there already or has its place at the end of what is left.
   */
  predicate KeepsOrder(s: seq<Node>, n: Node) {
    var i := FirstMerge(s, n);
    if i < |s| then forall j :: 0 <= j < i && s[j].Interval? ==> s[j].Low() <= n.Low()
    else Covered(s, n) || (n.Low() <= n.High() && FitsIn(Outside(s, n), n))
  }

  /** What is left was there, and intervals are left. */
  lemma {:induction false} OutsideElements(s: seq<Node>, n: Node)
    ensures forall x :: x in Outside(s, n) <==> x in s && !(x.Single? && n.Has(x.quad))
  {
    if s != [] {
      var k := |s| - 1;
      OutsideElements(s[..k], n);
      assert s == s[..k] + [s[k]];
    }
  }

  lemma {:induction false} OutsideAscends(s: seq<Node>, n: Node)
    requires Ascending(s)
    ensures Ascending(Outside(s, n))
    ensures forall x :: x in Outside(s, n) <==> x in s && !(x.Single? && n.Has(x.quad))
  {
    hide Ascending;
    OutsideElements(s, n);
    if s == [] {
      NothingAscends();
    } else {
      var k := |s| - 1;
      var r := Outside(s[..k], n);
      AscendingTake(s, k);
      ProperLast(s);
      OutsideAscends(s[..k], n);
      BelowLast(s);
      if r != [] {
        assert r[|r| - 1] in r;
      }
      AppendAscends(r, s[k]);
      assert r + [] == r;
    }
  }

  lemma NothingAscends()
    ensures Ascending([])
  {
  }

  lemma BelowLast(s: seq<Node>)
    requires Ascending(s) && s != []
    ensures forall x :: x in s[..|s| - 1] ==> x.High() < s[|s| - 1].Low()
  {
  }

  /** In order, the place is before the last node if that is above. */
  lemma {:induction false} PlaceOrdered(s: seq<Node>, n: Node)
    requires Ascending(s) && n.Interval? && n.Low() <= n.High()
    ensures var kept := Outside(s, n);
      Place(s, n) == if kept != [] && n.High() < kept[|kept| - 1].Low() then |kept| - 1 else 0
  {
    hide Ascending;
    var kept := Outside(s, n);
    OutsideAscends(s, n);
    if s != [] {
      var k := |s| - 1;
      ProperLast(s);
      if n.High() >= s[k].Low() {
        AscendingTake(s, k);
        AllAtMost(s, n.High());
        NonePlaced(s, n);
        if kept != [] {
          assert kept[|kept| - 1] in kept;
        }
      }
    }
  }

  lemma AllAtMost(s: seq<Node>, q: nat)
    requires Ascending(s) && s != [] && s[|s| - 1].Low() <= q
    ensures forall x :: x in s ==> x.Low() <= q
  {
  }

  lemma {:induction false} NonePlaced(s: seq<Node>, n: Node)
    requires forall x :: x in s ==> x.Low() <= n.High()
    ensures Place(s, n) == 0
  {
    if s != [] {
      NonePlaced(s[..|s| - 1], n);
      assert s[|s| - 1] in s;
    }
  }

  lemma InsertedFits(s: seq<Node>, n: Node)
    requires Ascending(s) && n.Low() <= n.High()
    ensures var i := if s != [] && n.High() < s[|s| - 1].Low() then |s| - 1 else 0;
      Ascending(Inserted(s, n, i)) <==> FitsIn(s, n)
  {
    hide Ascending;
    AppendAscends(s, n);
    if |s| >= 2 && n.High() < s[|s| - 1].Low() {
      InsertAscends(s, n);
      ProperLast(s);
    } else if s != [] {
      ProperLast(s);
    }
  }

  lemma ImproperInserted(s: seq<Node>, n: Node, i: nat)
    requires i <= |s| && n.Low() > n.High()
    ensures !Ascending(Inserted(s, n, i))
  {
    var t := Inserted(s, n, i);
    assert t[if i == 0 then |s| else i] == n;
  }

  /** Exactly when adding an interval keeps the order. */
  lemma AddedAscends(s: seq<Node>, n: Node)
    requires Ascending(s) && n.Interval? && !Dangles(s, n)
    ensures Ascending(Added(s, n)) <==> KeepsOrder(s, n)
  {
    hide Ascending, Outside, Covered, Place, Inserted, FitsIn;
    var i := FirstMerge(s, n);
    if i < |s| {
      MergedAscends(s, n, i);
    } else if !Covered(s, n) && n.Low() <= n.High() {
      OutsideAscends(s, n);
      PlaceOrdered(s, n);
      InsertedFits(Outside(s, n), n);
    } else if Covered(s, n) {
      OutsideAscends(s, n);
    } else {
      ImproperInserted(Outside(s, n), n, Place(s, n));
    }
  }

  lemma MergedAscends(s: seq<Node>, n: Node, i: nat)
    requires Ascending(s) && n.Interval? && i < |s| && Merges(s[i], n) && forall j :: 0 <= j < i ==> !Merges(s[j], n)
    requires forall k :: i < k < |s| ==> !Frees(s[i].Join(n), s[k])
    ensures Ascending(Outside(s[..i], n) + [s[i].Join(n)] + s[i + 1..]) <==>
            forall j :: 0 <= j < i && s[j].Interval? ==> s[j].Low() <= n.Low()
  {
    hide Outside;
    var h, before := s[i].Join(n), Outside(s[..i], n);
    AscendingTake(s, i);
    OutsideAscends(s[..i], n);
    LaterAbove(s, n, i);
    AppendAscends(before, h);
    JoinAscends(before + [h], s[i + 1..]);
    BeforeMerged(s, n, i, before);
  }

  /** The nodes that are not freed are above the merged one. */
  lemma LaterAbove(s: seq<Node>, n: Node, i: nat)
    requires Ascending(s) && n.Interval? && i < |s| && Merges(s[i], n)
    requires forall k :: i < k < |s| ==> !Frees(s[i].Join(n), s[k])
    ensures s[i].Join(n).Low() <= s[i].Join(n).High()
    ensures Ascending(s[i + 1..]) && forall x :: x in s[i + 1..] ==> s[i].Join(n).High() < x.Low()
  {
    forall k | i < k < |s| ensures s[i].Join(n).High() < s[k].Low() {
      assert s[i].High() < s[k].Low() && !Frees(s[i].Join(n), s[k]);
    }
  }

  lemma JoinAscends(s: seq<Node>, t: seq<Node>)
    requires s != [] && Ascending(t) && forall x :: x in t ==> s[|s| - 1].High() < x.Low()
    ensures Ascending(s + t) <==> Ascending(s)
  {
    var u := s + t;
    if Ascending(u) {
      AscendingTake(u, |s|);
      assert u[..|s|] == s;
    } else if Ascending(s) {
      forall i, j | 0 <= i < j < |u| ensures u[i].High() < u[j].Low() {
        if i < |s| <= j {
          assert u[j] == t[j - |s|] && u[j] in t;
          assert s[i].High() <= s[|s| - 1].High();
        }
      }
    }
  }

  /** What comes before the merged node is below it exactly when no interval begins inside the new one. */
  lemma BeforeMerged(s: seq<Node>, n: Node, i: nat, before: seq<Node>)
    requires Ascending(s) && n.Interval? && i < |s| && Merges(s[i], n) && forall j :: 0 <= j < i ==> !Merges(s[j], n)
    requires Ascending(before) && forall x :: x in before <==> x in s[..i] && !(x.Single? && n.Has(x.quad))
    ensures (before == [] || before[|before| - 1].High() < s[i].Join(n).Low()) <==>
            forall j :: 0 <= j < i && s[j].Interval? ==> s[j].Low() <= n.Low()
  {
    var h := s[i].Join(n);
    if forall j :: 0 <= j < i && s[j].Interval? ==> s[j].Low() <= n.Low() {
      if before != [] {
        var x := before[|before| - 1];
        assert x in before;
        BelowMerged(s, n, i, x);
      }
    } else {
      var j :| 0 <= j < i && s[j].Interval? && s[j].Low() > n.Low();
      assert s[j] in s[..i];
      assert s[j] in before;
      LastIsHighest(before, s[j]);
      assert s[j].Low() <= s[j].High();
    }
  }

  lemma BelowMerged(s: seq<Node>, n: Node, i: nat, x: Node)
    requires Ascending(s) && n.Interval? && i < |s| && Merges(s[i], n) && x in s[..i] && !Merges(x, n)
    requires if x.Single? then !n.Has(x.quad) else x.Low() <= n.Low()
    ensures x.High() < s[i].Join(n).Low()
  {
    var j :| 0 <= j < i && s[j] == x;
    assert s[j].High() < s[i].Low() <= s[i].High();
  }

  lemma LastIsHighest(s: seq<Node>, x: Node)
    requires Ascending(s) && x in s
    ensures x.High() <= s[|s| - 1].High()
  {
    var j :| 0 <= j < |s| && s[j] == x;
    assert j < |s| - 1 ==> s[j].High() < s[|s| - 1].Low() <= s[|s| - 1].High();
  }

  /** An interval above everything goes to the end. */
  lemma {:induction false} AddedAbove(s: seq<Node>, n: Node)
    requires n.Interval? && n.lower <= n.upper && AllBelow(s, n.lower)
    ensures FirstMerge(s, n) == |s| && Outside(s, n) == s && !Covered(s, n) && Place(s, n) == 0
    ensures Added(s, n) == s + [n] && !Dangles(s, n)
  {
    if s != [] {
      AddedAbove(s[..|s| - 1], n);
    }
  }

  /** Everything stays everything. */
  lemma AddedToAll(n: Node)
    requires n.Interval?
    ensures Added(ALL, n) == ALL && !Dangles(ALL, n)
  {
    assert ALL[0].Covers(n);
    assert ALL[..0] == [];
  }

  // ---------------------------------------------------------------- the set

  class Set {
    var nodes: seq<Node>

    constructor ()
      ensures nodes == []
    {
      nodes := [];
    }

    /** `has_quad` */
    method HasQuad(q: Quad) returns (found: bool)
      ensures found <==> Has(nodes, q)
    {
      for i := 0 to |nodes|
        invariant forall k :: 0 <= k < i ==> !nodes[k].Has(q)
      {
        if nodes[i].Has(q) {
          return true;
        }
      }
      found := false;
    }

    /**
     `add` of a quadruple: the last node decides whether it is there already; otherwise it goes before
     the last node above it, or to the end if that is the first node or there is none.
     */
    method AddQuad(q: Quad) returns (added: bool)
      modifies this
      ensures added <==> !(old(nodes) != [] && old(nodes)[|old(nodes)| - 1].Has(q))
      ensures nodes == WithQuad(old(nodes), q)
      ensures forall x: Quad :: Has(nodes, x) <==> Has(old(nodes), x) || x == q
    {
      hide Inserted, Has;
      var contains, after := false, 0;
      for i := 0 to |nodes|
        invariant nodes == old(nodes) && after == LastAbove(nodes, q, i)
        invariant contains <==> i > 0 && nodes[i - 1].Has(q)
      {
        contains := nodes[i].Has(q);
        if !contains && q < nodes[i].Low() {
          after := i;
        }
      }
      forall x: Quad ensures Has(WithQuad(nodes, q), x) <==> Has(nodes, x) || x == q {
        WithQuadHas(nodes, q, x);
      }
      if contains {
        return false;
      }
      nodes := Inserted(nodes, Single(q), after);
      added := true;
    }

    /** `add` of an interval; fails when a node is freed that stays on the list */
    method AddInterval(n: Node) returns (ok: bool)
      requires n.Interval?
      modifies this
      ensures ok <==> !Dangles(old(nodes), n)
      ensures ok ==> nodes == Added(old(nodes), n)
      ensures ok ==> forall q: Quad :: Has(nodes, q) <==> Has(old(nodes), q) || n.Has(q)
    {
      hide Has, Outside, Covered, Place, Inserted, Frees;
      EachAddedHas(nodes, n);
      var contains, after := false, 0;
      var kept: seq<Node> := [];
      NothingOutside(nodes, n);
      for i := 0 to |nodes|
        invariant nodes == old(nodes) && i <= FirstMerge(nodes, n) && kept == Outside(nodes[..i], n)
        invariant contains == Covered(nodes[..i], n) && after == Place(nodes[..i], n)
      {
        OutsideStep(nodes, n, i);
        var it := nodes[i];
        if it.Single? {
          if n.Has(it.quad) {
            assert kept + [] == kept;
            continue;
          } else if n.upper < it.quad {
            after := |kept|;
          }
        } else {
          contains := it.Covers(n);
          if !contains {
            if it.Meets(n) {
              nodes := kept + [it.Join(n)] + nodes[i + 1..];
              ok := JoinIfPossible(|kept|);
              LaterNodes(old(nodes), n, i, kept);
              return;
            } else if !n.Meets(it) && n.upper < it.lower {
              after := |kept|;
            }
          }
        }
        kept := kept + [it];
      }
      assert nodes[..|nodes|] == nodes;
      nodes := if contains then kept else Inserted(kept, n, after);
      ok := true;
    }

    /** `join_if_possible`; nothing is freed exactly when all later nodes are apart from the merged one. */
    method JoinIfPossible(start: nat) returns (ok: bool)
      requires start < |nodes| && nodes[start].Interval?
      modifies this
      ensures ok <==> !exists k :: start < k < |old(nodes)| && Frees(old(nodes)[start], old(nodes)[k])
      ensures ok ==> nodes == old(nodes)
    {
      hide Frees;
      ok := true;
      for i := start + 1 to |nodes|
        invariant |nodes| == |old(nodes)| && forall k :: start < k < |nodes| ==> nodes[k] == old(nodes)[k]
        invariant ok <==> !exists k :: start < k < i && Frees(old(nodes)[start], old(nodes)[k])
        invariant ok ==> nodes == old(nodes)
      {
        if Frees(nodes[start], nodes[i]) {
          nodes := nodes[start := if nodes[i].Single? then nodes[start] else nodes[start].Join(nodes[i])];
          ok := false;
        }
      }
    }

    /** `join` of two sets is their union, unless a node is freed on the way. */
    method Join(rhs: Set) returns (ok: bool)
      requires rhs != this
      modifies this
      ensures ok <==> !JoinDangles(old(nodes), rhs.nodes)
      ensures ok ==> nodes == AddedAll(old(nodes), rhs.nodes)
      ensures ok ==> forall q: Quad :: Has(nodes, q) <==> Has(old(nodes), q) || Has(rhs.nodes, q)
    {
      hide Has, Added, Dangles, WithQuad;
      ok := true;
      assert rhs.nodes[..0] == [];
      for i := 0 to |rhs.nodes|
        invariant ok <==> forall k :: 0 <= k < i ==> !DanglesAt(old(nodes), rhs.nodes, k)
        invariant ok ==> nodes == AddedAll(old(nodes), rhs.nodes[..i])
      {
        assert rhs.nodes[..i + 1][..i] == rhs.nodes[..i];
        if rhs.nodes[i].Single? {
          var _ := AddQuad(rhs.nodes[i].quad);
        } else {
          var added := AddInterval(rhs.nodes[i]);
          assert ok ==> (added <==> !DanglesAt(old(nodes), rhs.nodes, i));
          ok := ok && added;
        }
      }
      assert rhs.nodes[..|rhs.nodes|] == rhs.nodes;
      forall q: Quad ensures Has(AddedAll(old(nodes), rhs.nodes), q) <==> Has(old(nodes), q) || Has(rhs.nodes, q) {
        AddedAllHas(old(nodes), rhs.nodes, q);
      }
    }

    /** `add_negate_interval`, above everything that is there or inside the one interval that is */
    method AddNegateInterval(q1: Quad, q2: Quad)
      requires Fits(nodes, q1, q2)
      modifies this
      ensures nodes == WithGap(old(nodes), q1, q2)
    {
      if q2 >= q1 {
        var w := q2 - q1;
        if w > 0 {
          var n := Interval(q1, q2);
          if nodes == ALL {
            AddedToAll(n);
          } else {
            AddedAbove(nodes, n);
          }
          var _ := AddInterval(n);
        } else {
          NoneAbove(nodes, q2, |nodes|);
          var _ := AddQuad(q2);
        }
      }
    }

    /** `do_negate` */
    method DoNegate()
      requires Ascending(nodes)
      modifies this
      ensures nodes == Negated(old(nodes))
    {
      hide Gaps, Ascending, Fits, WithGap, Gap;
      var qs := new Set();
      var q1: Quad := 0;
      NoGaps(nodes);
      for i := 0 to |nodes|
        invariant nodes == old(nodes) && fresh(qs)
        invariant q1 == Start(nodes, i) && qs.nodes == Gaps(nodes, i)
      {
        GapsStep(nodes, i);
        var q2 := Pred(nodes[i].Low());
        qs.AddNegateInterval(q1, q2);
        q1 := Succ(nodes[i].High());
      }
      LastGap(nodes);
      if q1 != 0 {
        qs.AddNegateInterval(q1, MAX);
      }
      nodes := qs.nodes;
    }
  }

  lemma NothingOutside(s: seq<Node>, n: Node)
    ensures Outside(s[..0], n) == [] && !Covered(s[..0], n) && Place(s[..0], n) == 0
  {
  }

  /** The nodes after the merged one are those that were after it before. */
  lemma LaterNodes(s: seq<Node>, n: Node, i: nat, kept: seq<Node>)
    requires i < |s| && kept == Outside(s[..i], n)
    ensures var t := kept + [s[i].Join(n)] + s[i + 1..];
      (exists k :: |kept| < k < |t| && Frees(t[|kept|], t[k])) <==> exists k :: i < k < |s| && Frees(s[i].Join(n), s[k])
  {
    hide Frees, Outside;
    var t := kept + [s[i].Join(n)] + s[i + 1..];
    assert forall k :: i < k < |s| ==> t[|kept| + k - i] == s[k];
    assert forall k :: |kept| < k < |t| ==> t[k] == s[i + k - |kept|];
  }

  predicate Fits(s: seq<Node>, q1: Quad, q2: Quad) {
    q1 > q2 || AllBelow(s, q1) || s == ALL
  }

  function WithGap(s: seq<Node>, q1: Quad, q2: Quad): seq<Node> {
    if s == ALL then s else s + Gap(q1, q2)
  }

  /** The gap between two positions, if there is one. */
  function Gap(q1: Quad, q2: Quad): seq<Node> {
    if q1 > q2 then [] else if q1 < q2 then [Interval(q1, q2)] else [Single(q2)]
  }

  /** Where the gap before node `i` begins. */
  function Start(s: seq<Node>, i: nat): Quad
    requires i <= |s|
  {
    if i == 0 then 0 else Succ(s[i - 1].High())
  }

  /** The gaps before the first `n` nodes. A list that begins at 0 has everything for its first gap. */
  function Gaps(s: seq<Node>, n: nat): seq<Node>
    requires n <= |s|
  {
    if n == 0 then [] else WithGap(Gaps(s, n - 1), Start(s, n - 1), Pred(s[n - 1].Low()))
  }

  function Negated(s: seq<Node>): seq<Node> {
    var q := Start(s, |s|);
    if q == 0 then Gaps(s, |s|) else WithGap(Gaps(s, |s|), q, MAX)
  }

  lemma NoGaps(s: seq<Node>)
    ensures Gaps(s, 0) == []
  {
  }

  lemma {:induction false} GapsFromZero(s: seq<Node>, n: nat)
    requires 0 < n <= |s| && s[0].Low() == 0
    ensures Gaps(s, n) == ALL
  {
    if n > 1 {
      GapsFromZero(s, n - 1);
    }
  }

  /** The gaps so far are in order and below the next node. */
  lemma {:induction false} GapsBelow(s: seq<Node>, n: nat)
    requires Ascending(s) && 0 < n <= |s| && s[0].Low() > 0
    ensures Ascending(Gaps(s, n)) && AllBelow(Gaps(s, n), s[n - 1].Low())
  {
    hide Gaps;
    GapsUnfold(s, n);
    NoGaps(s);
    if n > 1 {
      GapsBelow(s, n - 1);
      GapBelow(Gaps(s, n - 1), s[n - 2].Low(), Start(s, n - 1), Pred(s[n - 1].Low()));
    } else {
      GapBelow([], 0, 0, Pred(s[0].Low()));
    }
  }

  lemma GapsUnfold(s: seq<Node>, n: nat)
    requires 0 < n <= |s|
    ensures Gaps(s, n) == WithGap(Gaps(s, n - 1), Start(s, n - 1), Pred(s[n - 1].Low()))
  {
  }

  lemma GapBelow(g: seq<Node>, bound: int, q1: Quad, q2: Quad)
    requires Ascending(g) && AllBelow(g, bound) && bound <= q1
    ensures g != ALL && Ascending(WithGap(g, q1, q2))
    ensures AllBelow(WithGap(g, q1, q2), if q1 <= q2 then q2 + 1 else bound)
  {
    AllIsNotBelow(bound);
  }

  lemma AllIsNotBelow(bound: int)
    requires bound <= MAX
    ensures !AllBelow(ALL, bound)
  {
    assert ALL[0].High() == MAX;
  }

  lemma GapsStep(s: seq<Node>, i: nat)
    requires Ascending(s) && i < |s|
    ensures Fits(Gaps(s, i), Start(s, i), Pred(s[i].Low()))
    ensures Gaps(s, i + 1) == WithGap(Gaps(s, i), Start(s, i), Pred(s[i].Low()))
  {
    hide Gaps, WithGap;
    GapsUnfold(s, i + 1);
    NoGaps(s);
    if i > 0 {
      GapsSoFar(s, i);
    }
  }

  lemma GapsSoFar(s: seq<Node>, n: nat)
    requires Ascending(s) && 0 < n <= |s|
    ensures Gaps(s, n) == ALL || AllBelow(Gaps(s, n), s[n - 1].Low())
    ensures Gaps(s, n) == ALL <==> s[0].Low() == 0
    ensures Ascending(Gaps(s, n))
  {
    hide Gaps;
    if s[0].Low() == 0 {
      GapsFromZero(s, n);
    } else {
      GapsBelow(s, n);
      AllIsNotBelow(s[n - 1].Low());
    }
  }

  lemma LastGap(s: seq<Node>)
    requires Ascending(s)
    ensures Start(s, |s|) != 0 ==> Fits(Gaps(s, |s|), Start(s, |s|), MAX)
  {
    hide Gaps;
    NoGaps(s);
    if s != [] {
      GapsSoFar(s, |s|);
    }
  }

  // ---------------------------------------------------------------- the complement

  lemma HasWithGap(g: seq<Node>, q1: Quad, q2: Quad, q: Quad)
    requires g != ALL
    ensures Has(WithGap(g, q1, q2), q) <==> Has(g, q) || q1 <= q <= q2
  {
    hide Has;
    if q1 <= q2 {
      HasSnoc(g, if q1 < q2 then Interval(q1, q2) else Single(q2), q);
    } else {
      assert g + [] == g;
    }
  }

  lemma HasTake(s: seq<Node>, n: nat, q: Quad)
    requires n < |s|
    ensures Has(s[..n + 1], q) <==> Has(s[..n], q) || s[n].Has(q)
  {
    hide Has;
    HasSnoc(s[..n], s[n], q);
    assert s[..n + 1] == s[..n] + [s[n]];
  }

  /** Up to the end of a node, the gaps are the complement. */
  lemma {:induction false} GapsExactly(s: seq<Node>, n: nat, q: Quad)
    requires Ascending(s) && 0 < n <= |s| && s[0].Low() > 0 && q <= s[n - 1].High()
    ensures Has(Gaps(s, n), q) <==> !Has(s[..n], q)
  {
    hide Gaps, Has, WithGap;
    var g, q1, q2 := Gaps(s, n - 1), Start(s, n - 1), Pred(s[n - 1].Low());
    GapsUnfold(s, n);
    NoGaps(s);
    HasTake(s, n - 1, q);
    HasNothing(q);
    assert s[..0] == [];
    if n > 1 {
      GapsSoFar(s, n - 1);
      HasWithGap(g, q1, q2, q);
      if q <= s[n - 2].High() {
        GapsExactly(s, n - 1, q);
      } else {
        NothingAbove(g, s[n - 2].Low(), q);
        PrefixBelow(s, n - 1);
        NothingAbove(s[..n - 1], s[n - 2].High() + 1, q);
      }
    } else {
      HasWithGap(g, q1, q2, q);
    }
  }

  lemma HasNothing(q: Quad)
    ensures !Has([], q)
  {
  }

  lemma PrefixBelow(s: seq<Node>, n: nat)
    requires Ascending(s) && 0 < n <= |s|
    ensures AllBelow(s[..n], s[n - 1].High() + 1)
  {
  }

  lemma NegatedHas(s: seq<Node>, q: Quad)
    requires Ascending(s) && s != [] && s[0].Low() > 0
    ensures Has(Negated(s), q) <==> !Has(s, q)
  {
    hide Gaps, Has, WithGap;
    var n := |s|;
    var g, q1 := Gaps(s, n), Start(s, n);
    assert s[..n] == s;
    GapsSoFar(s, n);
    HasWithGap(g, q1, MAX, q);
    PrefixBelow(s, n);
    if q <= s[n - 1].High() {
      GapsExactly(s, n, q);
    } else {
      NothingAbove(s, s[n - 1].High() + 1, q);
    }
  }

  lemma NegatedAscending(s: seq<Node>)
    requires Ascending(s)
    ensures Ascending(Negated(s))
  {
    hide Gaps, WithGap;
    var n := |s|;
    NoGaps(s);
    if n > 0 {
      GapsSoFar(s, n);
      if s[0].Low() > 0 && Start(s, n) != 0 {
        GapBelow(Gaps(s, n), s[n - 1].Low(), Start(s, n), MAX);
      } else {
        WithAll();
      }
    }
  }

  lemma WithAll()
    ensures Ascending(ALL) && forall q1, q2 :: WithGap(ALL, q1, q2) == ALL
  {
  }

  ghost predicate IsComplement(t: seq<Node>, s: seq<Node>) {
    forall q: Quad :: Has(t, q) <==> !Has(s, q)
  }

  /**
   Negation gives the complement exactly for a list that is not empty and does not contain 0. A list that
   contains 0 becomes the list of everything, and the empty list stays empty.
   */
  lemma NegatedExactly(s: seq<Node>)
    requires Ascending(s)
    ensures Ascending(Negated(s))
    ensures IsComplement(Negated(s), s) <==> s != [] && !Has(s, 0)
    ensures Has(s, 0) ==> Negated(s) == ALL
    ensures s == [] ==> Negated(s) == []
  {
    hide Gaps, Negated, WithGap;
    NegatedAscending(s);
    NegatedSpecial(s);
    HasZero(s);
    HasNothing(0);
    if s != [] && s[0].Low() > 0 {
      forall q: Quad ensures Has(Negated(s), q) <==> !Has(s, q) {
        NegatedHas(s, q);
      }
    } else if s != [] {
      assert ALL[0].Has(0);
      assert Has(ALL, 0) && Has(s, 0);
    }
  }

  lemma NegatedSpecial(s: seq<Node>)
    requires Ascending(s)
    ensures s == [] ==> Negated(s) == []
    ensures s != [] && s[0].Low() == 0 ==> Negated(s) == ALL
  {
    hide Gaps, WithGap;
    NoGaps(s);
    WithAll();
    if s != [] && s[0].Low() == 0 {
      GapsFromZero(s, |s|);
    }
  }

  lemma HasZero(s: seq<Node>)
    requires Ascending(s)
    ensures Has(s, 0) <==> s != [] && s[0].Low() == 0
  {
    if s != [] && s[0].Low() == 0 {
      assert s[0].Has(0);
    }
  }
}
