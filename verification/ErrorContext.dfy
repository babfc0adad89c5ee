/**
 The chain of error contexts of compiler2/CompilerError.cc: objects that put themselves on a doubly
 linked chain when they are constructed and take themselves off when they are destroyed, and
 restorers that set part of the chain aside in between.
 */
module ErrorContext {
  import opened Sequences

  /** An `Error_Context` object; in a restorer, `next` and `prev` are the ends of what it set aside. */
  class Context {
    ghost const id: nat
    const location: nat
    const hasText: bool
    var prev: Context?
    var next: Context?
    var isPrinted: bool
    var outerPrinted: bool

    constructor (location: nat, hasText: bool, ghost id: nat)
      ensures this.location == location && this.hasText == hasText && this.id == id && !isPrinted
    {
      this.id, this.location, this.hasText := id, location, hasText;
      prev, next, isPrinted, outerPrinted := null, null, false, false;
    }
  }

  // ---------------------------------------------------------------- linked chains

  /** The ends and the links of the elements `s[from..to]` of a chain are those of a chain of its own. */
  ghost predicate Segment(s: seq<Context>, from: nat, to: nat)
    requires from <= to <= |s|
    reads s`next, s`prev
  {
    forall i :: from <= i < to ==>
      s[i].prev == (if i == from then null else At(s, i - 1)) &&
      s[i].next == (if i + 1 == to then null else At(s, i + 1))
  }

  /** A chain of exactly the elements of `s`, in this order: every link is determined. */
  ghost predicate Linked(s: seq<Context>, head: Context?, tail: Context?)
    reads s`next, s`prev
  {
    Distinct(s) && head == At(s, 0) && tail == At(s, |s| - 1) && Segment(s, 0, |s|)
  }

  /** A part of `s` that is a chain of its own. */
  lemma SegmentIsChain(s: seq<Context>, from: nat, to: nat)
    requires from <= to <= |s| && Distinct(s) && Segment(s, from, to)
    ensures var t := s[from..to]; Linked(t, At(t, 0), At(t, |t| - 1))
  {
    hide At;
    var t := s[from..to];
    forall i | 0 <= i < |t|
      ensures t[i].prev == (if i == 0 then null else At(t, i - 1))
      ensures t[i].next == (if i + 1 == |t| then null else At(t, i + 1))
    {
      AtIs(t, i - 1);
      AtIs(t, i + 1);
      AtIs(s, from + i - 1);
      AtIs(s, from + i + 1);
      assert t[i] == s[from + i];
    }
  }

  lemma ChainIsSegment(s: seq<Context>, from: nat, to: nat, head: Context?, tail: Context?)
    requires from <= to <= |s| && Linked(s[from..to], head, tail)
    ensures Segment(s, from, to)
  {
    hide At;
    var t := s[from..to];
    forall i | from <= i < to
      ensures s[i].prev == (if i == from then null else At(s, i - 1))
      ensures s[i].next == (if i + 1 == to then null else At(s, i + 1))
    {
      AtIs(t, i - from - 1);
      AtIs(t, i - from + 1);
      AtIs(s, i - 1);
      AtIs(s, i + 1);
      assert t[i - from] == s[i];
    }
  }

  class Chain {
    var head: Context?
    var tail: Context?
    var chainPrinted: bool
    var output: seq<Printout>
    ghost var elems: seq<Context>
    ghost var nextId: nat
    ghost var last: set<nat>

    constructor ()
      ensures Valid() && Marked() && elems == [] && State() == Log(0, {}, []) && !chainPrinted
    {
      head, tail, chainPrinted, output := null, null, false, [];
      elems, nextId, last := [], 0, {};
    }

    ghost predicate Valid()
      reads this, elems
    {
      Linked(elems, head, tail)
    }

    /** The contexts are numbered as they are constructed, and those of the last printout are marked as printed. */
    ghost predicate Marked()
      reads this, elems`isPrinted
    {
      Numbered(elems, nextId) && Flagged(elems, last) && Past(last, nextId)
    }

    ghost function State(): Log
      reads this
    {
      Log(nextId, last, output)
    }

    /** Construction of a plain context */
    method Push(n: Context)
      requires Valid() && n !in elems
      modifies `head, `tail, `elems, n`prev, n`next, elems`next
      ensures Valid() && elems == old(elems) + [n]
    {
      hide At;
      ghost var s := elems;
      AtIs(s, 0);
      AtIs(s, |s| - 1);
      if head == null {
        head := n;
      }
      if tail != null {
        tail.next := n;
      }
      n.prev := tail;
      n.next := null;
      tail := n;
      elems := s + [n];
      ghost var t := elems;
      forall i | 0 <= i < |t|
        ensures t[i].prev == (if i == 0 then null else At(t, i - 1))
        ensures t[i].next == (if i + 1 == |t| then null else At(t, i + 1))
      {
        AtIs(t, i - 1);
        AtIs(t, i + 1);
        AtIs(s, i - 1);
        AtIs(s, i + 1);
        assert i < |s| ==> t[i] == s[i];
      }
      AtIs(t, 0);
      AtIs(t, |s|);
    }

    /** Destruction of a plain context; only the last one of the chain can be destroyed. */
    method Pop(n: Context) returns (ok: bool)
      requires Valid()
      modifies `head, `tail, `elems, elems`next
      ensures ok <==> old(tail) == n
      ensures ok ==> Valid() && old(elems) == elems + [n]
      ensures !ok ==> elems == old(elems) && Valid()
    {
      hide At;
      ghost var s := elems;
      AtIs(s, |s| - 1);
      if tail != n {
        return false;
      }
      AtIs(s, 0);
      AtIs(s, |s| - 2);
      if n.prev != null {
        n.prev.next := null;
      } else {
        head := null;
      }
      tail := n.prev;
      elems := s[..|s| - 1];
      ghost var t := elems;
      forall i | 0 <= i < |t|
        ensures t[i].prev == (if i == 0 then null else At(t, i - 1))
        ensures t[i].next == (if i + 1 == |t| then null else At(t, i + 1))
      {
        AtIs(t, i - 1);
        AtIs(t, i + 1);
        AtIs(s, i - 1);
        AtIs(s, i + 1);
        assert t[i] == s[i];
      }
      AtIs(t, 0);
      AtIs(t, |t| - 1);
      ok := true;
    }

    /** Construction of the restorer `r`: all but the first `keep` elements are set aside. */
    method Save(r: Context, keep: nat)
      requires Valid() && r !in elems
      modifies `head, `tail, `elems, `chainPrinted, r, elems`next, elems`prev
      ensures Valid() && elems == Kept(old(elems), keep)
      ensures Linked(SetAside(old(elems), keep), r.next, r.prev)
      ensures r.outerPrinted == old(chainPrinted) && !chainPrinted
    {
      hide At, Segment, Distinct, First, Last;
      ghost var s := elems;
      var begin := FindNth(keep);
      SplitBefore(r, begin, Min(keep, |s|));
      TwoChains(s, Min(keep, |s|));
      elems := Kept(s, keep);
      r.outerPrinted := chainPrinted;
      chainPrinted := false;
    }

    /** The chain is split before its `n`-th element, `begin`, and the second part is given to `r`. */
    method SplitBefore(r: Context, begin: Context?, ghost n: nat)
      requires Valid() && r !in elems && n <= |elems| && begin == At(elems, n)
      modifies `head, `tail, r`next, r`prev, elems`next, elems`prev
      ensures Distinct(elems) && Segment(elems, 0, n) && Segment(elems, n, |elems|)
      ensures head == First(elems[..n]) && tail == Last(elems[..n])
      ensures r.next == First(elems[n..]) && r.prev == Last(elems[n..])
    {
      hide At, Segment, Distinct;
      CutPlaces(elems, n, head, tail);
      AtIs(elems, n);
      if begin == head {
        r.next := head;
        head := null;
        r.prev := tail;
        tail := null;
      } else {
        r.next := begin;
        if begin != null {
          r.prev := tail;
          tail := Cut(begin, n);
        } else {
          r.prev := null;
        }
      }
    }

    /** The element after the first `keep` ones */
    method FindNth(keep: nat) returns (begin: Context?)
      requires Valid()
      ensures begin == At(elems, Min(keep, |elems|))
    {
      hide At, Distinct;
      begin := head;
      AtIs(elems, |elems|);
      for i := 0 to keep
        invariant i <= |elems| && begin == At(elems, i)
      {
        AtIs(elems, i);
        if begin == null {
          break;
        }
        AtIs(elems, i + 1);
        begin := begin.next;
      }
    }

    /** The chain is cut before `begin`; the last element before the cut is returned. */
    method Cut(begin: Context, ghost n: nat) returns (last: Context?)
      requires Valid() && 0 < n < |elems| && begin == elems[n]
      modifies elems`next, elems`prev
      ensures Segment(elems, 0, n) && Segment(elems, n, |elems|) && last == elems[n - 1]
    {
      hide At;
      ghost var s := elems;
      AtIs(s, n - 1);
      last := begin.prev;
      last.next := null;
      begin.prev := null;
    }

    /** Destruction of the restorer `r`, which set `saved` aside. */
    method Restore(r: Context, ghost saved: seq<Context>)
      requires Valid() && Linked(saved, r.next, r.prev) && Distinct(elems + saved) && r !in elems + saved
      modifies `head, `tail, `elems, `chainPrinted, elems`next, saved`prev, saved`isPrinted
      ensures Valid() && elems == old(elems) + saved
      ensures chainPrinted == (old(chainPrinted) || r.outerPrinted)
      ensures forall n :: n in saved ==> n.isPrinted == (old(n.isPrinted) && !old(chainPrinted))
    {
      hide Linked, Distinct;
      if chainPrinted {
        ForgetPrinted(r.next, saved, r.prev);
      } else {
        chainPrinted := r.outerPrinted;
      }
      Rejoin(r, saved);
    }

    /** What `r` set aside follows the chain again. */
    method Rejoin(r: Context, ghost saved: seq<Context>)
      requires Valid() && Linked(saved, r.next, r.prev) && Distinct(elems + saved) && r !in elems + saved
      modifies `head, `tail, `elems, elems`next, saved`prev
      ensures Valid() && elems == old(elems) + saved
    {
      hide At, Segment, Distinct;
      ghost var kept := elems;
      ghost var s := kept + saved;
      assert s[0..|kept|] == kept && s[|kept|..|s|] == saved;
      ChainIsSegment(s, 0, |kept|, head, tail);
      ChainIsSegment(s, |kept|, |s|, r.next, r.prev);
      EndsOfBoth(kept, saved);
      AtIs(kept, |kept| - 1);
      AtIs(saved, 0);
      if head != null {
        if r.next != null {
          Mend(r.next, s, |kept|);
          tail := r.prev;
        } else {
          assert kept == s;
        }
      } else {
        assert saved == s;
        head := r.next;
        tail := r.prev;
      }
      elems := s;
    }

    /** Two adjacent chains are linked to each other. */
    method Mend(next: Context, ghost s: seq<Context>, ghost n: nat)
      requires 0 < n < |s| && Distinct(s) && Segment(s, 0, n) && Segment(s, n, |s|)
      requires tail == s[n - 1] && next == s[n]
      modifies tail`next, next`prev
      ensures Segment(s, 0, |s|)
    {
      hide At;
      AtIs(s, n - 1);
      AtIs(s, n);
      tail.next := next;
      next.prev := tail;
    }

    /** The elements of a chain will be printed again. */
    method ForgetPrinted(first: Context?, ghost s: seq<Context>, ghost last: Context?)
      requires Linked(s, first, last)
      modifies s`isPrinted
      ensures forall n :: n in s ==> !n.isPrinted
    {
      hide At, Distinct;
      var ptr := first;
      ghost var i := 0;
      while ptr != null
        invariant 0 <= i <= |s| && ptr == At(s, i) && forall k :: 0 <= k < i ==> !s[k].isPrinted
        decreases |s| - i
      {
        AtIs(s, i);
        AtIs(s, i + 1);
        ptr.isPrinted := false;
        ptr := ptr.next;
        i := i + 1;
      }
      AtIs(s, i);
    }

    /** `print_context`; the chain is output but for what the last printout already showed. */
    method Print()
      requires Valid() && Marked()
      modifies `chainPrinted, `output, `last, elems`isPrinted
      ensures Marked() && chainPrinted && last == Ids(Entries(elems))
      ensures output == old(output) + [Shown(Entries(elems), old(last))]
    {
      hide Linked, Lines, Level, Entries, Ids;
      var lines, level := PrintLines();
      output := output + [Printout(lines, level)];
      chainPrinted := true;
      last := Ids(Entries(elems));
      IdsOf(elems);
    }

    /** The loop of `print_context` */
    method PrintLines() returns (lines: seq<Line>, level: nat)
      requires Valid() && Flagged(elems, last)
      modifies elems`isPrinted
      ensures Printout(lines, level) == Shown(Entries(elems), last)
      ensures forall k :: 0 <= k < |elems| ==> (elems[k].isPrinted <==> elems[k].hasText)
    {
      hide At, Lines, Level, Entries, FlaggedFrom, Distinct;
      var ptr := head;
      lines, level := [], 0;
      ghost var i, es := 0, Entries(elems);
      EntriesAt(elems);
      FlaggedEnds(elems, last);
      assert es[0..] == es;
      while ptr != null
        invariant 0 <= i <= |elems| && ptr == At(elems, i) && FlaggedFrom(elems, i, last)
        invariant lines + Lines(es[i..], level, last) == Lines(es, 0, last) && level + Level(es[i..]) == Level(es)
        decreases |elems| - i
      {
        AtIs(elems, i);
        AtIs(elems, i + 1);
        LinesStep(es, i, lines, level, last);
        var line;
        line, level := PrintOne(ptr, level, elems, i, last);
        lines := lines + line;
        ptr := ptr.next;
        i := i + 1;
      }
      AtIs(elems, i);
      FlaggedEnds(elems, last);
      NoLines(es[i..], level, last);
    }
  }

  /** One context of a printout */
  method PrintOne(ptr: Context, level: nat, ghost s: seq<Context>, ghost i: nat, ghost last: set<nat>)
    returns (line: seq<Line>, level': nat)
    requires i < |s| && ptr == s[i] && Distinct(s) && FlaggedFrom(s, i, last)
    modifies ptr`isPrinted
    ensures FlaggedFrom(s, i + 1, last)
    ensures line == if ptr.hasText && ptr.id !in last then [Line(level, ptr.location)] else []
    ensures level' == if ptr.hasText then level + 1 else level
  {
    line, level' := [], level;
    if ptr.hasText {
      if !ptr.isPrinted {
        line := [Line(level, ptr.location)];
        ptr.isPrinted := true;
      }
      level' := level + 1;
    }
  }

  // ---------------------------------------------------------------- what is printed

  /** A context as a printout knows it. */
  datatype Entry = Entry(id: nat, location: nat, hasText: bool)

  datatype Line = Line(level: nat, location: nat)

  /** The lines of contexts, and the indentation of the message that follows. */
  datatype Printout = Printout(lines: seq<Line>, level: nat)

  ghost function Entries(s: seq<Context>): seq<Entry> {
    seq(|s|, i requires 0 <= i < |s| => Entry(s[i].id, s[i].location, s[i].hasText))
  }

  function Ids(es: seq<Entry>): set<nat> {
    set e | e in es :: e.id
  }

  /** The number of contexts that have a text. */
  function Level(es: seq<Entry>): nat {
    if es == [] then 0 else (if es[0].hasText then 1 else 0) + Level(es[1..])
  }

  /** The contexts that have a text and were not in the last printout, below those that were. */
  function Lines(es: seq<Entry>, level: nat, last: set<nat>): seq<Line>
    decreases |es|
  {
    if es == [] then []
    else if !es[0].hasText then Lines(es[1..], level, last)
    else (if es[0].id in last then [] else [Line(level, es[0].location)]) + Lines(es[1..], level + 1, last)
  }

  function Shown(es: seq<Entry>, last: set<nat>): Printout {
    Printout(Lines(es, 0, last), Level(es))
  }

  lemma LinesStep(es: seq<Entry>, i: nat, lines: seq<Line>, level: nat, last: set<nat>)
    requires i < |es|
    ensures var e := es[i];
      && Level(es[i..]) == (if e.hasText then 1 else 0) + Level(es[i + 1..])
      && lines + Lines(es[i..], level, last) ==
         (lines + (if e.hasText && e.id !in last then [Line(level, e.location)] else [])) +
         Lines(es[i + 1..], if e.hasText then level + 1 else level, last)
  {
    assert es[i..][0] == es[i] && es[i..][1..] == es[i + 1..];
    assert lines + [] == lines;
  }

  lemma NoLines(es: seq<Entry>, level: nat, last: set<nat>)
    requires es == []
    ensures Lines(es, level, last) == [] && Level(es) == 0
  {
  }

  /** The places of the contexts before `i` that have a text. */
  function TextsBefore(es: seq<Entry>, i: nat): set<nat>
    requires i <= |es|
  {
    set j: nat | j < i && es[j].hasText
  }

  lemma TextsStep(es: seq<Entry>, i: nat)
    requires i < |es|
    ensures |TextsBefore(es, i + 1)| == |TextsBefore(es, i)| + if es[i].hasText then 1 else 0
  {
    var s := TextsBefore(es, i);
    assert TextsBefore(es, i + 1) == s + if es[i].hasText then {i} else {};
  }

  /** The context at `i` is shown, one level below those before it that have a text. */
  predicate ShownAt(es: seq<Entry>, last: set<nat>, i: nat, line: Line) {
    i < |es| && es[i].hasText && es[i].id !in last && line == Line(|TextsBefore(es, i)|, es[i].location)
  }

  lemma {:induction false} ShownFrom(es: seq<Entry>, last: set<nat>, i: nat, line: Line)
    requires i <= |es|
    ensures |TextsBefore(es, i)| + Level(es[i..]) == |TextsBefore(es, |es|)|
    ensures line in Lines(es[i..], |TextsBefore(es, i)|, last) <==> exists k: nat :: i <= k && ShownAt(es, last, k, line)
    decreases |es| - i
  {
    if i < |es| {
      var level := |TextsBefore(es, i)|;
      TextsStep(es, i);
      LinesStep(es, i, [], level, last);
      ShownFrom(es, last, i + 1, line);
      ShownHere(es, last, i, line);
    } else {
      NoLines(es[i..], |TextsBefore(es, i)|, last);
    }
  }

  lemma ShownHere(es: seq<Entry>, last: set<nat>, i: nat, line: Line)
    requires i < |es|
    ensures (exists k: nat :: i <= k && ShownAt(es, last, k, line)) <==>
            ShownAt(es, last, i, line) || exists k: nat :: i + 1 <= k && ShownAt(es, last, k, line)
  {
  }

  /** Which lines a printout has, with their levels, and the level of the message that follows. */
  lemma ShownExactly(es: seq<Entry>, last: set<nat>)
    ensures Shown(es, last).level == |TextsBefore(es, |es|)|
    ensures forall line :: line in Shown(es, last).lines <==> exists i: nat :: ShownAt(es, last, i, line)
  {
    hide Lines, Level, ShownAt;
    assert es[0..] == es && TextsBefore(es, 0) == {};
    forall line ensures line in Shown(es, last).lines <==> exists i: nat :: ShownAt(es, last, i, line) {
      ShownFrom(es, last, 0, line);
    }
    ShownFrom(es, last, 0, Line(0, 0));
  }

  /** A second printout of the same chain shows nothing, and one of a longer chain only what was added. */
  lemma {:induction false} OnlyNewIsShown(es: seq<Entry>, more: seq<Entry>, level: nat, last: set<nat>)
    requires Ids(es) <= last
    ensures Lines(es + more, level, last) == Lines(more, level + Level(es), last)
    decreases |es|
  {
    if es == [] {
      assert es + more == more;
    } else {
      assert es[0].id in Ids(es);
      assert (es + more)[1..] == es[1..] + more;
      assert Ids(es[1..]) <= Ids(es);
      OnlyNewIsShown(es[1..], more, if es[0].hasText then level + 1 else level, last);
    }
  }

  /** Contexts are numbered in the order of the chain. */
  ghost predicate Numbered(s: seq<Context>, next: nat) {
    && (forall i :: 0 <= i < |s| ==> s[i].id < next)
    && (forall i, j :: 0 <= i < j < |s| ==> s[i].id < s[j].id)
  }

  ghost predicate Flagged(s: seq<Context>, last: set<nat>)
    reads s`isPrinted
  {
    forall i :: 0 <= i < |s| ==> (s[i].isPrinted <==> s[i].hasText && s[i].id in last)
  }

  /** The first `i` contexts have been printed by now. */
  ghost predicate FlaggedFrom(s: seq<Context>, i: nat, last: set<nat>)
    reads s`isPrinted
  {
    forall k :: 0 <= k < |s| ==> (s[k].isPrinted <==> s[k].hasText && (k < i || s[k].id in last))
  }

  lemma FlaggedEnds(s: seq<Context>, last: set<nat>)
    ensures FlaggedFrom(s, 0, last) <==> Flagged(s, last)
    ensures FlaggedFrom(s, |s|, last) <==> forall k :: 0 <= k < |s| ==> (s[k].isPrinted <==> s[k].hasText)
  {
  }

  /** A printout shows only contexts that were constructed. */
  ghost predicate Past(last: set<nat>, next: nat) {
    forall id :: id in last ==> id < next
  }

  /** Only contexts of `s` and later ones. */
  ghost predicate Within(last: set<nat>, s: seq<Context>, next: nat) {
    forall id :: id in last ==> id in Ids(Entries(s)) || next <= id
  }

  lemma EntriesAt(s: seq<Context>)
    ensures |Entries(s)| == |s|
    ensures forall i :: 0 <= i < |s| ==> Entries(s)[i] == Entry(s[i].id, s[i].location, s[i].hasText)
  {
  }

  lemma IdsOf(s: seq<Context>)
    ensures forall i :: 0 <= i < |s| ==> s[i].id in Ids(Entries(s))
    ensures forall id :: id in Ids(Entries(s)) ==> exists i :: 0 <= i < |s| && s[i].id == id
  {
    var es := Entries(s);
    forall i | 0 <= i < |s| ensures s[i].id in Ids(es) {
      assert es[i] in es;
    }
  }

  lemma PushMarked(s: seq<Context>, n: Context, next: nat, last: set<nat>)
    requires Numbered(s, next) && Flagged(s, last) && Past(last, next) && n.id == next && !n.isPrinted
    ensures Numbered(s + [n], next + 1) && Flagged(s + [n], last) && Past(last, next + 1)
    ensures Entries(s + [n]) == Entries(s) + [Entry(next, n.location, n.hasText)]
  {
  }

  lemma KeptMarked(s: seq<Context>, k: nat, next: nat, last: set<nat>)
    requires k <= |s| && Numbered(s, next) && Flagged(s, last)
    ensures Numbered(s[..k], next) && Flagged(s[..k], last) && Flagged(s[k..], last)
    ensures |Entries(s)| == |s| && Entries(s[..k]) == Entries(s)[..k]
  {
  }

  lemma WithinLonger(last: set<nat>, s: seq<Context>, more: seq<Context>, next: nat)
    ensures Within(last, s, next) ==> Within(last, s + more, next)
    ensures (forall n :: n in more ==> next <= n.id) && Within(last, s + more, next) ==> Within(last, s, next)
  {
    hide Entries, Ids;
    IdsOf(s);
    IdsOf(s + more);
    forall i | 0 <= i < |s| ensures s[i].id in Ids(Entries(s + more)) {
      assert (s + more)[i] == s[i];
    }
  }

  /** What was set aside is in no printout that was made in the meantime. */
  lemma SetAsideIsNotShown(s: seq<Context>, k: nat, next: nat, last: set<nat>)
    requires k <= |s| && Numbered(s, next) && Within(last, s[..k], next)
    ensures forall i :: k <= i < |s| ==> s[i].id !in last
  {
    hide Entries, Ids;
    IdsOf(s[..k]);
  }

  function Min(a: nat, b: nat): nat {
    if a < b then a else b
  }

  function Kept<T>(s: seq<T>, keep: nat): seq<T> {
    s[..Min(keep, |s|)]
  }

  function SetAside<T>(s: seq<T>, keep: nat): seq<T> {
    s[Min(keep, |s|)..]
  }

  /** Where a chain can be cut, and where nothing is cut off. */
  lemma CutPlaces(s: seq<Context>, n: nat, head: Context?, tail: Context?)
    requires n <= |s| && Linked(s, head, tail)
    ensures head == At(s, n) <==> n == 0
    ensures n == 0 || n == |s| ==> Segment(s, 0, n) && Segment(s, n, |s|)
    ensures head == First(s) && tail == Last(s) && At(s, n) == First(s[n..])
  {
  }

  function First(s: seq<Context>): Context? {
    if s == [] then null else s[0]
  }

  function Last(s: seq<Context>): Context? {
    if s == [] then null else s[|s| - 1]
  }

  lemma TwoChains(s: seq<Context>, n: nat)
    requires n <= |s| && Distinct(s) && Segment(s, 0, n) && Segment(s, n, |s|)
    ensures Linked(s[..n], First(s[..n]), Last(s[..n])) && Linked(s[n..], First(s[n..]), Last(s[n..]))
  {
    hide Segment, Distinct;
    assert s[0..n] == s[..n] && s[n..|s|] == s[n..];
    SegmentIsChain(s, 0, n);
    SegmentIsChain(s, n, |s|);
  }

  lemma EndsOfBoth(kept: seq<Context>, saved: seq<Context>)
    ensures At(kept + saved, 0) == if kept == [] then At(saved, 0) else At(kept, 0)
    ensures At(kept + saved, |kept| + |saved| - 1) == if saved == [] then At(kept, |kept| - 1) else At(saved, |saved| - 1)
    ensures kept == [] <==> At(kept, 0) == null
    ensures saved == [] <==> At(saved, 0) == null
  {
  }

  // ---------------------------------------------------------------- well-nested runs

  /** What happens one after the other while some context is alive; objects live as long as their bodies. */
  datatype Scopes =
    | Done
    | Plain(location: nat, hasText: bool, body: Scopes, rest: Scopes)
    | Restorer(keep: nat, body: Scopes, rest: Scopes)
    | Print(rest: Scopes)

  /** The number of the next context, the contexts of the last printout, and all printouts. */
  datatype Log = Log(next: nat, last: set<nat>, output: seq<Printout>)

  /**
   The printouts by the nesting of the objects alone: each shows the contexts that are alive and not set
   aside, without those that were on the chain at the previous printout.
   */
  function Emit(scopes: Scopes, chain: seq<Entry>, log: Log): Log
    decreases scopes
  {
    match scopes
    case Done => log
    case Plain(location, hasText, body, rest) =>
      Emit(rest, chain, Emit(body, chain + [Entry(log.next, location, hasText)], log.(next := log.next + 1)))
    case Restorer(keep, body, rest) => Emit(rest, chain, Emit(body, Kept(chain, keep), log))
    case Print(rest) => Emit(rest, chain, log.(last := Ids(chain), output := log.output + [Shown(chain, log.last)]))
  }

  lemma ChainEnds(s: seq<Context>, head: Context?, tail: Context?)
    requires Linked(s, head, tail)
    ensures Distinct(s) && (s != [] ==> tail == s[|s| - 1])
  {
  }

  /** Either nothing was printed, or the last printout shows only contexts of `s` and later ones. */
  ghost predicate Since(was: Log, wasPrinted: bool, log: Log, printed: bool, s: seq<Context>) {
    && was.next <= log.next
    && if printed == wasPrinted && log.last == was.last then true else printed && Within(log.last, s, was.next)
  }

  /** A run leaves the chain as it was, and prints what its nesting says. */
  method Run(c: Chain, scopes: Scopes)
    requires c.Valid() && c.Marked()
    modifies c, c.elems
    ensures c.Valid() && c.Marked() && c.elems == old(c.elems)
    ensures c.State() == Emit(scopes, Entries(c.elems), old(c.State()))
    ensures Since(old(c.State()), old(c.chainPrinted), c.State(), c.chainPrinted, c.elems)
    decreases scopes, 0
  {
    hide Linked, Numbered, Flagged, Entries, Kept, Ids, Shown;
    if !scopes.Done? {
      if scopes.Plain? {
        RunPlain(c, scopes.location, scopes.hasText, scopes.body);
      } else if scopes.Restorer? {
        RunRestorer(c, scopes.keep, scopes.body);
      } else {
        c.Print();
      }
      Run(c, scopes.rest);
    }
  }

  /** The life of a plain context */
  method RunPlain(c: Chain, location: nat, hasText: bool, body: Scopes)
    requires c.Valid() && c.Marked()
    modifies c, c.elems
    ensures c.Valid() && c.Marked() && c.elems == old(c.elems)
    ensures var was := old(c.State());
      c.State() == Emit(body, Entries(c.elems) + [Entry(was.next, location, hasText)], was.(next := was.next + 1))
    ensures Since(old(c.State()), old(c.chainPrinted), c.State(), c.chainPrinted, c.elems)
    decreases body, 1
  {
    hide Linked, Emit, Ids, Entries, Numbered, Flagged, Past, Since;
    ghost var s, was, wasPrinted := c.elems, c.State(), c.chainPrinted;
    var n := BeginPlain(c, location, hasText);
    Run(c, body);
    EndPlain(c, n, s);
    SincePush(was, wasPrinted, c.State(), c.chainPrinted, s, n);
  }

  method BeginPlain(c: Chain, location: nat, hasText: bool) returns (n: Context)
    requires c.Valid() && c.Marked()
    modifies c`head, c`tail, c`elems, c`nextId, c.elems`next
    ensures fresh(n) && c.Valid() && c.Marked() && c.elems == old(c.elems) + [n] && n.id == old(c.nextId)
    ensures Entries(c.elems) == Entries(old(c.elems)) + [Entry(n.id, location, hasText)]
    ensures c.State() == old(c.State()).(next := old(c.nextId) + 1)
  {
    hide Linked, Entries, Numbered, Flagged, Past;
    ghost var s := c.elems;
    n := new Context(location, hasText, c.nextId);
    c.Push(n);
    PushMarked(s, n, c.nextId, c.last);
    c.nextId := c.nextId + 1;
  }

  method EndPlain(c: Chain, n: Context, ghost s: seq<Context>)
    requires c.Valid() && c.Marked() && c.elems == s + [n]
    modifies c`head, c`tail, c`elems, c.elems`next
    ensures c.Valid() && c.Marked() && c.elems == s
  {
    hide Linked, Entries, Numbered, Flagged, Past;
    ChainEnds(c.elems, c.head, c.tail);
    var ok := c.Pop(n);
    SameButLast(c.elems, s, n);
    KeptMarked(s + [n], |s|, c.nextId, c.last);
  }

  lemma SameButLast(s: seq<Context>, t: seq<Context>, n: Context)
    requires s + [n] == t + [n]
    ensures s == t && (t + [n])[..|t|] == t
  {
    assert s == (s + [n])[..|s|];
  }

  lemma SincePush(was: Log, wasPrinted: bool, log: Log, printed: bool, s: seq<Context>, n: Context)
    requires n.id == was.next && Since(was.(next := was.next + 1), wasPrinted, log, printed, s + [n])
    ensures Since(was, wasPrinted, log, printed, s)
  {
    hide Entries, Ids;
    WithinLonger(log.last, s, [n], was.next);
  }

  lemma SinceRestored(was: Log, wasPrinted: bool, log: Log, printed: bool, s: seq<Context>, k: nat)
    requires k <= |s| && Since(was, false, log, printed, s[..k])
    ensures Since(was, wasPrinted, log, printed || wasPrinted, s)
  {
    hide Entries, Ids;
    WithinLonger(log.last, s[..k], s[k..], was.next);
    assert s[..k] + s[k..] == s;
  }

  /** The life of a restorer */
  method RunRestorer(c: Chain, keep: nat, body: Scopes)
    requires c.Valid() && c.Marked()
    modifies c, c.elems
    ensures c.Valid() && c.Marked() && c.elems == old(c.elems)
    ensures c.State() == Emit(body, Kept(Entries(c.elems), keep), old(c.State()))
    ensures Since(old(c.State()), old(c.chainPrinted), c.State(), c.chainPrinted, c.elems)
    decreases body, 1
  {
    hide Linked, Emit, Ids, Entries, Numbered, Flagged, Past, Since, Distinct;
    ghost var s, was, wasPrinted := c.elems, c.State(), c.chainPrinted;
    ghost var k := Min(keep, |s|);
    NotAmongKept(s, k, c.head, c.tail);
    var r := BeginRestorer(c, keep);
    Run(c, body);
    SinceRestored(was, wasPrinted, c.State(), c.chainPrinted, s, k);
    EndRestorer(c, r, s, k, was);
  }

  method BeginRestorer(c: Chain, keep: nat) returns (r: Context)
    requires c.Valid() && c.Marked()
    modifies c`head, c`tail, c`elems, c`chainPrinted, c.elems`next, c.elems`prev
    ensures fresh(r) && c.Valid() && c.Marked() && c.elems == Kept(old(c.elems), keep)
    ensures Linked(SetAside(old(c.elems), keep), r.next, r.prev) && Numbered(old(c.elems), c.nextId)
    ensures Flagged(SetAside(old(c.elems), keep), c.last)
    ensures Entries(c.elems) == Kept(Entries(old(c.elems)), keep)
    ensures r.outerPrinted == old(c.chainPrinted) && !c.chainPrinted
  {
    hide Linked, Entries, Numbered, Flagged, Past;
    KeptMarked(c.elems, Min(keep, |c.elems|), c.nextId, c.last);
    r := new Context(0, false, 0);
    c.Save(r, keep);
  }

  lemma NotAmongKept(s: seq<Context>, k: nat, head: Context?, tail: Context?)
    requires k <= |s| && Linked(s, head, tail)
    ensures Distinct(s) && forall n :: n in s[k..] ==> n !in s[..k]
  {
  }

  /** The elements `s[k..]` come back to the chain with what is known about the last printout. */
  method EndRestorer(c: Chain, r: Context, ghost s: seq<Context>, ghost k: nat, ghost was: Log)
    requires c.Valid() && c.Marked() && k <= |s| && c.elems == s[..k]
    requires Linked(s[k..], r.next, r.prev) && Distinct(s) && r !in s
    requires forall n :: n in s[k..] ==> n !in s[..k]
    requires Numbered(s, was.next) && Flagged(s[k..], was.last)
    requires Since(was, false, c.State(), c.chainPrinted, c.elems)
    modifies c`head, c`tail, c`elems, c`chainPrinted, c.elems`next, s[k..]`prev, s[k..]`isPrinted
    ensures c.Valid() && c.Marked() && c.elems == s && c.State() == old(c.State())
    ensures c.chainPrinted == (old(c.chainPrinted) || r.outerPrinted)
  {
    hide Linked, Ids, Entries, Within, Distinct;
    ghost var saved := s[k..];
    assert s[..k] + saved == s;
    if c.chainPrinted {
      SetAsideIsNotShown(s, k, was.next, c.last);
    }
    c.Restore(r, saved);
  }

  /** The links of a chain of given elements. */
  lemma LinksAre(s: seq<Context>, head: Context?, tail: Context?)
    requires Linked(s, head, tail)
    ensures head == At(s, 0) && tail == At(s, |s| - 1)
    ensures forall i :: 0 <= i < |s| ==> s[i].prev == At(s, i - 1) && s[i].next == At(s, i + 1)
  {
    hide At;
    AtIs(s, -1);
    AtIs(s, |s|);
  }

  /** However objects are nested in a run, it leaves every link in the chain as it was. */
  method RunKeepsLinks(c: Chain, scopes: Scopes)
    requires c.Valid() && c.Marked()
    modifies c, c.elems
    ensures c.elems == old(c.elems) && c.head == old(c.head) && c.tail == old(c.tail)
    ensures forall i :: 0 <= i < |c.elems| ==>
      c.elems[i].prev == old(c.elems[i].prev) && c.elems[i].next == old(c.elems[i].next)
  {
    hide Linked, At;
    LinksAre(c.elems, c.head, c.tail);
    Run(c, scopes);
    LinksAre(c.elems, c.head, c.tail);
  }
}
