/** When the slices of compiler2/CodeGenHelper.cc leave something over for its last pass. */
module Leftover {
  import opened Intervals
  import opened CodeGenHelper

  /** What a slice that does not reach the end advances at least. */
  function Step(chunk: nat): (s: nat)
    ensures 0 < s && chunk <= s
  {
    Max(1, chunk)
  }

  lemma NextCutAdvances(src: Source, base: nat, chunk: nat, c: nat)
    requires src.Shaped() && IsNextCut(src, base, chunk, c)
    ensures c == src.Total() || base + Step(chunk) <= c
  {
  }

  lemma {:induction false} Advance(src: Source, chunk: nat, pieces: seq<Piece>, end: nat)
    requires src.Shaped() && Sliced(src, chunk, pieces, end)
    ensures end == src.Total() || |pieces| * Step(chunk) <= end
  {
    if pieces != [] {
      var n, step, begin := |pieces| - 1, Step(chunk), pieces[|pieces| - 1].begin;
      Advance(src, chunk, pieces[..n], begin);
      NextCutAdvances(src, begin, chunk, end);
      assert (n + 1) * step == n * step + step;
    }
  }

  /** The loop reaches the end of every source of `total` characters, whatever its intervals. */
  ghost predicate NothingLeft(total: nat, sliceNum: nat, chunk: nat) {
    forall src: Source, pieces: seq<Piece>, reached: nat ::
      src.Valid() && src.Total() == total && |pieces| == sliceNum && SlicedUp(src, chunk, pieces, reached) ==>
        reached == total
  }

  ghost predicate EverywhereCut(src: Source, total: nat) {
    src.Shaped() && src.Total() == total && src.Pre() == 0 && forall p: nat :: p <= total ==> src.IsCut(p)
  }

  /** One section with an interval of one character each. */
  function UnitSource(total: nat): Source {
    var none := Section(Null, [0]);
    Source(Null, Null, Null, [Section(Str(seq(total, _ => ' ')), seq(total + 1, i => i)), none, none, none])
  }

  /** In such a source every position is a cut. */
  lemma UnitSourceCuts(total: nat)
    ensures UnitSource(total).Valid() && EverywhereCut(UnitSource(total), total)
  {
    var src := UnitSource(total);
    var marks := src.sections[0].marks;
    src.ValidIsBounded();
    assert src.Start(1) == total && src.Start(2) == total && src.Start(3) == total;
    forall p: nat | p <= total ensures src.IsCut(p) {
      assert marks[p] == p;
      assert src.IsCutIn(0, p);
    }
  }

  lemma PieceBetween(src: Source, a: nat, b: nat) returns (p: Piece)
    requires src.Shaped() && src.Pre() == 0 && a <= b <= src.Total() && src.IsCut(b)
    ensures IsPiece(src, p) && p.begin == a && p.end == b
  {
    var texts := seq(4, k requires 0 <= k < 4 => Str(Part(src.sections[k].Text(), src.Start(k), a, b)));
    p := Piece(Slice(if a < b then src.includes else EMPTY_FILE, Null, Null, texts), a, b);
  }

  lemma UnitNextCut(src: Source, total: nat, a: nat, chunk: nat)
    requires EverywhereCut(src, total) && a + Step(chunk) <= total
    ensures IsNextCut(src, a, chunk, a + Step(chunk))
  {
  }

  lemma SlicedSnoc(src: Source, chunk: nat, init: seq<Piece>, p: Piece)
    requires src.Shaped() && Sliced(src, chunk, init, p.begin) && IsPiece(src, p) && IsNextCut(src, p.begin, chunk, p.end)
    ensures Sliced(src, chunk, init + [p], p.end)
  {
    assert (init + [p])[..|init|] == init;
  }

  lemma {:induction false} UnitSlices(src: Source, total: nat, sliceNum: nat, chunk: nat) returns (pieces: seq<Piece>)
    requires EverywhereCut(src, total) && sliceNum * Step(chunk) <= total
    ensures |pieces| == sliceNum && Sliced(src, chunk, pieces, sliceNum * Step(chunk))
  {
    hide IsPiece, IsNextCut, Step;
    pieces := [];
    if 0 < sliceNum {
      var a, step := (sliceNum - 1) * Step(chunk), Step(chunk);
      assert sliceNum * step == a + step;
      var init := UnitSlices(src, total, sliceNum - 1, chunk);
      var p := PieceBetween(src, a, a + step);
      UnitNextCut(src, total, a, chunk);
      SlicedSnoc(src, chunk, init, p);
      pieces := init + [p];
    }
  }

  /**
    "Should never happen", says the source of the leftover pass. It has nothing to do on every source of
    `total` characters exactly when that many slices of (at least one and) `chunk` characters cover it.
  */
  lemma LeftoverExactly(total: nat, sliceNum: nat, chunk: nat)
    requires 0 < sliceNum
    ensures NothingLeft(total, sliceNum, chunk) <==> total <= sliceNum * Step(chunk)
  {
    if total <= sliceNum * Step(chunk) {
      EnoughSlices(total, sliceNum, chunk);
    } else {
      UnitSourceCuts(total);
      var pieces, reached := Uncovered(UnitSource(total), total, sliceNum, chunk);
    }
  }

  lemma EnoughSlices(total: nat, sliceNum: nat, chunk: nat)
    requires total <= sliceNum * Step(chunk)
    ensures NothingLeft(total, sliceNum, chunk)
  {
    forall src: Source, pieces: seq<Piece>, reached: nat |
      src.Valid() && src.Total() == total && |pieces| == sliceNum && SlicedUp(src, chunk, pieces, reached)
      ensures reached == total
    {
      Covered(src, chunk, pieces, reached);
    }
  }

  lemma Covered(src: Source, chunk: nat, pieces: seq<Piece>, reached: nat)
    requires src.Shaped() && SlicedUp(src, chunk, pieces, reached) && src.Total() <= |pieces| * Step(chunk)
    ensures reached == src.Total()
  {
    var n, step := |pieces| - 1, Step(chunk);
    assert (n + 1) * step == n * step + step;
    Advance(src, chunk, pieces[..n], pieces[n].begin);
    NextCutAdvances(src, pieces[n].begin, chunk, reached);
  }

  lemma SlicedUpFrom(src: Source, chunk: nat, init: seq<Piece>, p: Piece, reached: nat)
    requires src.Shaped() && Sliced(src, chunk, init, p.begin) && IsPiece(src, p) && p.end == src.Total()
    requires IsNextCut(src, p.begin, chunk, reached)
    ensures SlicedUp(src, chunk, init + [p], reached)
  {
    assert (init + [p])[..|init|] == init;
  }

  lemma Uncovered(src: Source, total: nat, sliceNum: nat, chunk: nat) returns (pieces: seq<Piece>, reached: nat)
    requires 0 < sliceNum && sliceNum * Step(chunk) < total && EverywhereCut(src, total)
    ensures |pieces| == sliceNum && SlicedUp(src, chunk, pieces, reached) && reached != total
  {
    hide IsPiece, IsNextCut, Step, Sliced, SlicedUp;
    var n, step := sliceNum - 1, Step(chunk);
    var begin := n * step;
    reached := begin + step;
    assert reached == sliceNum * step;
    var init := UnitSlices(src, total, n, chunk);
    var p := PieceBetween(src, begin, total);
    pieces := init + [p];
    UnitNextCut(src, total, begin, chunk);
    SlicedUpFrom(src, chunk, init, p, reached);
  }

  // The slices are determined by the source, so what holds of some holds of those that the loop makes.

  lemma NextCutUnique(src: Source, base: nat, chunk: nat, c: nat, d: nat)
    requires src.Shaped() && IsNextCut(src, base, chunk, c) && IsNextCut(src, base, chunk, d)
    ensures c == d
  {
  }

  lemma {:induction false} SlicedUnique(src: Source, chunk: nat, s: seq<Piece>, c: nat, t: seq<Piece>, d: nat)
    requires src.Shaped() && Sliced(src, chunk, s, c) && Sliced(src, chunk, t, d) && |s| == |t|
    ensures c == d
  {
    if s != [] {
      var n := |s| - 1;
      SlicedUnique(src, chunk, s[..n], s[n].begin, t[..n], t[n].begin);
      NextCutUnique(src, s[n].begin, chunk, c, d);
    }
  }

  /** How far the slice loop comes depends on nothing but the source, the number of slices and the chunk size. */
  lemma ReachedUnique(src: Source, chunk: nat, s: seq<Piece>, c: nat, t: seq<Piece>, d: nat)
    requires src.Shaped() && SlicedUp(src, chunk, s, c) && SlicedUp(src, chunk, t, d) && |s| == |t|
    ensures c == d
  {
    var n := |s| - 1;
    SlicedUnique(src, chunk, s[..n], s[n].begin, t[..n], t[n].begin);
    NextCutUnique(src, s[n].begin, chunk, c, d);
  }

  /** Slicing intervals of one character leaves something over exactly when the slices do not cover them all. */
  method SliceUnits(total: nat, sliceNum: nat, chunk: nat) returns (pieces: seq<Piece>, reached: nat)
    requires 0 < sliceNum
    ensures SlicedUp(UnitSource(total), chunk, pieces, reached) && |pieces| == sliceNum
    ensures reached == total <==> total <= sliceNum * Step(chunk)
  {
    hide UnitSource, Step, SlicedUp, EverywhereCut;
    UnitSourceCuts(total);
    UnitTotal(UnitSource(total), total);
    pieces, reached := SliceModule(UnitSource(total), sliceNum, chunk);
    if total <= sliceNum * Step(chunk) {
      Covered(UnitSource(total), chunk, pieces, reached);
    } else {
      ghost var others, left := Uncovered(UnitSource(total), total, sliceNum, chunk);
      ReachedUnique(UnitSource(total), chunk, pieces, reached, others, left);
    }
  }

  lemma UnitTotal(src: Source, total: nat)
    requires EverywhereCut(src, total)
    ensures src.Shaped() && src.Total() == total
  {
  }

  /** Ten characters, four slices: the chunk size is 2, and the loop leaves characters over. */
  method LeftoverHappens() returns (pieces: seq<Piece>, reached: nat)
    ensures |pieces| == 4 && SlicedUp(UnitSource(10), 10 / 4, pieces, reached) && reached < 10
  {
    hide UnitSource, SlicedUp;
    pieces, reached := SliceUnits(10, 4, 10 / 4);
    ReachedWithin(10, 10 / 4, pieces, reached);
  }

  lemma ReachedWithin(total: nat, chunk: nat, pieces: seq<Piece>, reached: nat)
    requires SlicedUp(UnitSource(total), chunk, pieces, reached)
    ensures reached <= total
  {
    UnitSourceCuts(total);
    UnitTotal(UnitSource(total), total);
  }
}
