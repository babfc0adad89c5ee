/**
  The code slicer of compiler2/CodeGenHelper.cc: one module's generated source is cut into slices over the
  virtual concatenation "globals and literals, methods, function bodies, static function bodies, static
  conversion function bodies" (`get_next_chunk_pos`, `get_chunk_from_poslist`, `write_output`).
*/
module CodeGenHelper {
  import opened Intervals

  // ---------------------------------------------------------------- the virtual concatenation

  const METHODS := 0
  const FUNCTION_BODIES := 1
  const STATIC_FUNCTION_BODIES := 2
  const STATIC_CONVERSION_FUNCTION_BODIES := 3

  /** The part of an `output_struct` that is cut; `sections` is in the order of the cutting. */
  datatype Source = Source(includes: CString, globalVars: CString, stringLiterals: CString, sections: seq<Section>) {
    predicate Shaped() {
      |sections| == 4
    }

    ghost predicate Valid() {
      Shaped() && forall k :: 0 <= k < 4 ==> sections[k].Valid()
    }

    ghost predicate Bounded() {
      Shaped() && forall k :: 0 <= k < 4 ==> sections[k].Bounded()
    }

    lemma ValidIsBounded()
      requires Valid()
      ensures Bounded()
    {
      forall k | 0 <= k < 4 ensures sections[k].Bounded() {
        sections[k].ValidIsBounded();
      }
    }

    /** `pre_things_size` */
    function Pre(): nat {
      |globalVars.Text()| + |stringLiterals.Text()|
    }

    /** Where section `k` starts in the virtual concatenation; `Start(4)` is its end. */
    function Start(k: nat): nat
      requires Shaped() && k <= 4
    {
      if k == 0 then Pre() else Start(k - 1) + |sections[k - 1].Text()|
    }

    /** `size_of_sources` */
    function Total(): nat
      requires Shaped()
    {
      Start(4)
    }

    /** A position where the source may be cut: its beginning, or a recorded end inside a section. */
    ghost predicate IsCut(p: nat)
      requires Shaped()
    {
      p == 0 || exists k :: 0 <= k < 4 && IsCutIn(k, p)
    }

    ghost predicate IsCutIn(k: nat, p: nat)
      requires Shaped() && k < 4
    {
      Start(k) <= p && p - Start(k) in sections[k].marks
    }

    lemma Starts(j: nat, k: nat)
      requires Shaped() && j <= k <= 4
      ensures Start(j) <= Start(k)
      decreases k - j
    {
      if j < k {
        Starts(j + 1, k);
      }
    }

    lemma CutPosition(k: nat, p: nat)
      requires Bounded() && k < 4 && IsCutIn(k, p)
      ensures Start(k) <= p <= Start(k + 1) <= Total()
    {
      assert sections[k].Bounded();
      Starts(k + 1, 4);
    }

    /** A cut never falls strictly inside an interval of any section. */
    lemma CutIsClean(k: nat, p: nat)
      requires Bounded() && k < 4 && IsCut(p)
      ensures p <= Start(k) || Start(k + 1) <= p || IsCutIn(k, p)
    {
      if p != 0 {
        var j :| 0 <= j < 4 && IsCutIn(j, p);
        CutPosition(j, p);
        if j < k {
          Starts(j + 1, k);
        } else if k < j {
          Starts(k + 1, j);
        }
      }
    }

    lemma SectionEnds(k: nat)
      requires Bounded() && k < 4
      ensures IsCutIn(k, Start(k)) && IsCutIn(k, Start(k + 1))
    {
      assert sections[k].Bounded();
    }
  }

  function Clamp(x: int, n: nat): (r: nat)
    ensures r <= n
  {
    if x < 0 then 0 else if x > n then n else x
  }

  /** What lies in `[a, b)` of a text that starts at position `start` of the virtual concatenation. */
  function Part(text: string, start: nat, a: nat, b: nat): string
    requires a <= b
  {
    text[Clamp(a - start, |text|)..Clamp(b - start, |text|)]
  }

  lemma PartsJoin(text: string, start: nat, a: nat, b: nat, c: nat)
    requires a <= b <= c
    ensures Part(text, start, a, b) + Part(text, start, b, c) == Part(text, start, a, c)
  {
  }

  /** Nothing of a text lies beyond its end. */
  lemma PastTheEnd(text: string, start: nat, a: nat, b: nat, c: nat)
    requires a <= b && a <= c && start + |text| <= b && start + |text| <= c
    ensures Part(text, start, a, b) == Part(text, start, a, c)
  {
  }

  // ---------------------------------------------------------------- one section of one slice

  /**
    Where the previous slice left off: the last index whose end is not beyond `base`, or the beginning
    of the section when the previous slice stopped before it.
  */
  ghost predicate LeftOffAt(marks: seq<nat>, start: nat, base: nat, ind: nat) {
    && ind < |marks|
    && (base < start ==> ind == 0)
    && (start <= base ==> start + marks[ind] <= base)
    && (ind + 1 < |marks| ==> base < start + marks[ind + 1])
  }

  lemma LeftOff(text: string, marks: seq<nat>, start: nat, base: nat, ind: nat, i: nat)
    requires Ascending(marks) && Last(marks) == |text| && i < |marks| && base < start + marks[i]
    requires base <= start || base - start in marks
    requires LeftOffAt(marks, start, base, ind)
    ensures marks[ind] <= marks[i] <= |text|
    ensures text[marks[ind]..marks[i]] == Part(text, start, base, start + marks[i])
  {
    if start < base {
      var j :| 0 <= j < |marks| && marks[j] == base - start;
      assert j >= ind;
      assert j <= ind;
    }
  }

  /** `pos'` is the first recorded end of the section at `pos` that fills the slice, or else its last end. */
  ghost predicate EndsChunk(marks: seq<nat>, base: nat, chunk: nat, pos: nat, pos': nat)
    requires 0 < |marks|
  {
    && pos' - pos in marks
    && (pos' == pos + Last(marks) || (base < pos' && chunk <= pos' - base))
    && forall m :: m in marks && base < pos + m < pos' ==> pos + m - base < chunk
  }

  /** A section that does not fill the slice is used up. */
  lemma EndsSection(marks: seq<nat>, base: nat, chunk: nat, pos: nat)
    requires Ascending(marks) && (base < pos + Last(marks) ==> pos + Last(marks) - base < chunk)
    ensures EndsChunk(marks, base, chunk, pos, pos + Last(marks))
  {
  }

  /** The first scanning loop: where the previous slice left off, and the first end that fills this one. */
  method FindGoodChunk(marks: seq<nat>, tmp: nat, base: nat, chunk: nat) returns (ind: nat, i: nat)
    requires Ascending(marks)
    requires base < tmp ==> tmp - base < chunk
    requires base < tmp + Last(marks) && chunk <= tmp + Last(marks) - base
    ensures LeftOffAt(marks, tmp, base, ind)
    ensures ind < i < |marks| && base < tmp + marks[i]
    ensures EndsChunk(marks, base, chunk, tmp, tmp + marks[i])
  {
    ind, i := 0, 0;
    while tmp + marks[i] <= base || tmp + marks[i] - base < chunk
      invariant 0 <= i < |marks| && ind <= i && (i != 0 ==> ind < i)
      invariant base < tmp ==> ind == 0
      invariant tmp <= base && 0 < i ==> tmp + marks[ind] <= base
      invariant ind + 1 < i ==> base < tmp + marks[ind + 1]
      invariant forall j :: 0 <= j < i && base < tmp + marks[j] ==> tmp + marks[j] - base < chunk
      decreases |marks| - i
    {
      if tmp + marks[i] <= base {
        ind := i;
      }
      i := i + 1;
    }
  }

  /** The second scanning loop. */
  method FindLeftOff(marks: seq<nat>, tmp: nat, base: nat) returns (ind: nat)
    requires Ascending(marks)
    ensures LeftOffAt(marks, tmp, base, ind)
  {
    ind := 0;
    var i := 0;
    while i < |marks|
      invariant 0 <= i <= |marks| && ind == (if i == 0 then 0 else i - 1)
      invariant i != 0 ==> tmp + marks[ind] <= base
    {
      if tmp + marks[i] <= base {
        ind := i;
      } else {
        break;
      }
      i := i + 1;
    }
  }

  /** The part of `get_chunk_from_poslist` that copies. */
  method TakeFromSection(text: string, marks: seq<nat>, base: nat, chunk: nat, tmp: nat) returns (piece: string, pos: nat)
    requires Ascending(marks) && Last(marks) == |text|
    requires base <= tmp || tmp + Last(marks) <= base || base - tmp in marks
    requires base < tmp ==> tmp - base < chunk
    ensures EndsChunk(marks, base, chunk, tmp, pos) && piece == Part(text, tmp, base, Max(base, pos))
  {
    piece, pos := "", tmp + Last(marks);
    if pos > base {
      var ind;
      if pos - base >= chunk {
        var i;
        ind, i := FindGoodChunk(marks, tmp, base, chunk);
        LeftOff(text, marks, tmp, base, ind, i);
        piece, pos := text[marks[ind]..marks[i]], tmp + marks[i];
      } else {
        ind := FindLeftOff(marks, tmp, base);
        LeftOff(text, marks, tmp, base, ind, |marks| - 1);
        EndsSection(marks, base, chunk, tmp);
        piece := text[marks[ind]..Last(marks)];
      }
    } else {
      EndsSection(marks, base, chunk, tmp);
    }
  }

  /**
    `get_chunk_from_poslist`: unless the slice is already full at `pos`, copies from `base` up to the
    first recorded end that makes the slice full, or to the end of the section.
  */
  method GetChunkFromPoslist(from: CString, to: CString, marks: seq<nat>, base: nat, chunk: nat, pos: nat)
    returns (to': CString, pos': nat)
    requires Section(from, marks).Valid()
    requires base <= pos || pos + Last(marks) <= base || base - pos in marks
    ensures base < pos && chunk <= pos - base ==> to' == to && pos' == pos
    ensures !(base < pos && chunk <= pos - base) ==>
              && EndsChunk(marks, base, chunk, pos, pos')
              && to'.Text() == to.Text() + Part(from.Text(), pos, base, Max(base, pos'))
  {
    var piece := "";
    if from == Null || (pos > base && pos - base >= chunk) {
      if !(base < pos && chunk <= pos - base) {
        EndsSection(marks, base, chunk, pos);
      }
      pos' := pos;
    } else {
      piece, pos' := TakeFromSection(from.Text(), marks, base, chunk, pos);
    }
    to' := to.Put(piece);
  }

  // ---------------------------------------------------------------- one slice

  datatype Slice = Slice(includes: CString, globalVars: CString, stringLiterals: CString, sections: seq<CString>)

  const EMPTY_SLICE := Slice(Null, Null, Null, [Null, Null, Null, Null])

  function Max(a: nat, b: nat): nat {
    if a < b then b else a
  }

  /**
    The cut that follows `base`: the first recorded one that makes the slice hold `chunk` characters,
    or the end of the source when there is none.
  */
  ghost predicate IsNextCut(src: Source, base: nat, chunk: nat, c: nat)
    requires src.Shaped()
  {
    && src.IsCut(c) && base <= c <= src.Total()
    && (base < src.Total() ==> base < c)
    && (c == src.Total() || chunk <= c - base)
    && forall d: nat :: src.IsCut(d) && base < d < c ==> d - base < chunk
  }

  /** Sections `0..k` have been offered to the slice that begins at `base`; it ends at `pos` so far. */
  ghost predicate EndsAt(src: Source, base: nat, chunk: nat, k: nat, pos: nat)
    requires src.Shaped() && k <= 4
  {
    && src.Pre() <= pos <= src.Start(k) && src.IsCut(pos)
    && (pos == src.Start(k) || (base < pos && chunk <= pos - base))
    && (forall d: nat :: src.IsCut(d) && base < d < pos ==> d - base < chunk)
  }

  /** The first `k` texts of the slice have grown by what lies between `base` and `pos`. */
  ghost predicate Grown(src: Source, before: seq<CString>, after: seq<CString>, base: nat, k: nat, pos: nat)
    requires src.Shaped() && k <= 4 && |before| == 4
  {
    && |after| == 4
    && (forall j :: 0 <= j < k ==>
          after[j].Text() == before[j].Text() + Part(src.sections[j].Text(), src.Start(j), base, Max(base, pos)))
    && (forall j :: k <= j < 4 ==> after[j] == before[j])
  }

  lemma PosStep(src: Source, base: nat, chunk: nat, k: nat, pos: nat, pos': nat)
    requires src.Bounded() && k < 4 && EndsAt(src, base, chunk, k, pos)
    requires src.sections[k].Valid() && !(base < pos && chunk <= pos - base)
    requires EndsChunk(src.sections[k].marks, base, chunk, pos, pos')
    ensures EndsAt(src, base, chunk, k + 1, pos') && pos == src.Start(k) <= pos'
  {
    assert src.IsCutIn(k, pos');
    src.CutPosition(k, pos');
    forall d: nat | src.IsCut(d) && base < d < pos' ensures d - base < chunk {
      if pos < d {
        src.CutIsClean(k, d);
        assert src.IsCutIn(k, d);
      }
    }
  }

  lemma TextStep(src: Source, before: seq<CString>, to: seq<CString>, to': seq<CString>,
                 base: nat, k: nat, pos: nat, pos': nat)
    requires src.Shaped() && k < 4 && |before| == 4 && Grown(src, before, to, base, k, pos)
    requires |to'| == 4 && to' == to[k := to'[k]]
    requires pos == src.Start(k) <= pos'
    requires to'[k].Text() == to[k].Text() + Part(src.sections[k].Text(), pos, base, Max(base, pos'))
    ensures Grown(src, before, to', base, k + 1, pos')
  {
    forall j | 0 <= j < k
      ensures to'[j].Text() == before[j].Text() + Part(src.sections[j].Text(), src.Start(j), base, Max(base, pos'))
    {
      src.Starts(j + 1, k);
      PastTheEnd(src.sections[j].Text(), src.Start(j), base, Max(base, pos), Max(base, pos'));
    }
  }

  lemma SameElement<T>(s: seq<T>, k: nat)
    requires k < |s|
    ensures s[k := s[k]] == s
  {
  }

  lemma FullStep(src: Source, before: seq<CString>, to: seq<CString>, base: nat, chunk: nat, k: nat, pos: nat)
    requires src.Shaped() && k < 4 && |before| == 4 && Grown(src, before, to, base, k, pos)
    requires EndsAt(src, base, chunk, k, pos) && base < pos && chunk <= pos - base
    ensures Grown(src, before, to[k := to[k]], base, k + 1, pos) && EndsAt(src, base, chunk, k + 1, pos)
  {
    hide Grown, Part;
    src.Starts(k, k + 1);
    FullGrown(src, before, to, base, k, pos);
    SameElement(to, k);
  }

  /** Nothing of a section is taken for a slice that is full before it begins. */
  lemma FullGrown(src: Source, before: seq<CString>, to: seq<CString>, base: nat, k: nat, pos: nat)
    requires src.Shaped() && k < 4 && |before| == 4 && Grown(src, before, to, base, k, pos)
    requires base <= pos <= src.Start(k)
    ensures |to| == 4 && Grown(src, before, to, base, k + 1, pos)
  {
    hide Source.Start;
    var nothing := Part(src.sections[k].Text(), src.Start(k), base, pos);
    assert nothing == "" && Max(base, pos) == pos;
    assert to[k].Text() == before[k].Text() + nothing;
  }

  lemma CleanFor(src: Source, base: nat, chunk: nat, k: nat, pos: nat)
    requires src.Valid() && src.Bounded() && k < 4 && src.IsCut(base) && EndsAt(src, base, chunk, k, pos)
    ensures src.sections[k].Valid()
    ensures base <= pos || pos + Last(src.sections[k].marks) <= base || base - pos in src.sections[k].marks
  {
    if pos == src.Start(k) {
      src.CutIsClean(k, base);
    }
  }

  /** One call of `get_chunk_from_poslist` in `get_next_chunk_pos`. */
  method OfferSection(src: Source, ghost before: seq<CString>, to: seq<CString>, base: nat, chunk: nat, k: nat, pos: nat)
    returns (to': seq<CString>, pos': nat)
    requires src.Valid() && src.Bounded() && k < 4 && |before| == 4 && src.IsCut(base)
    requires EndsAt(src, base, chunk, k, pos) && Grown(src, before, to, base, k, pos)
    ensures EndsAt(src, base, chunk, k + 1, pos') && Grown(src, before, to', base, k + 1, pos')
  {
    var s := src.sections[k];
    CleanFor(src, base, chunk, k, pos);
    var text;
    text, pos' := GetChunkFromPoslist(s.from, to[k], s.marks, base, chunk, pos);
    to' := to[k := text];
    if base < pos && chunk <= pos - base {
      FullStep(src, before, to, base, chunk, k, pos);
    } else {
      PosStep(src, base, chunk, k, pos, pos');
      TextStep(src, before, to, to', base, k, pos, pos');
    }
  }

  /**
    `get_next_chunk_pos`: the slice receives exactly what lies between `base` and the next cut, and the
    global variables and string literals only when it begins at the beginning.
  */
  method GetNextChunkPos(src: Source, to: Slice, base: nat, chunk: nat) returns (to': Slice, pos: nat)
    requires src.Valid() && |to.sections| == 4
    requires src.IsCut(base) && base <= src.Total()
    requires base == 0 || src.Pre() <= base
    ensures IsNextCut(src, base, chunk, pos) && src.Pre() <= pos
    ensures |to'.sections| == 4 && to'.includes == to.includes
    ensures forall k :: 0 <= k < 4 ==>
              to'.sections[k].Text() == to.sections[k].Text() + Part(src.sections[k].Text(), src.Start(k), base, pos)
    ensures to'.globalVars.Text() == to.globalVars.Text() + (if base < src.Pre() then src.globalVars.Text() else "")
    ensures to'.stringLiterals.Text() == to.stringLiterals.Text() + (if base < src.Pre() then src.stringLiterals.Text() else "")
  {
    src.ValidIsBounded();
    pos := 0;
    pos := pos + src.Pre();
    var globalVars := to.globalVars.Put(if pos > base then src.globalVars.Text() else "");
    var stringLiterals := to.stringLiterals.Put(if pos > base then src.stringLiterals.Text() else "");
    OfferNone(src, base, chunk);
    ghost var before := to.sections;
    var texts;
    texts, pos := OfferSection(src, before, to.sections, base, chunk, METHODS, pos);
    texts, pos := OfferSection(src, before, texts, base, chunk, FUNCTION_BODIES, pos);
    texts, pos := OfferSection(src, before, texts, base, chunk, STATIC_FUNCTION_BODIES, pos);
    texts, pos := OfferSection(src, before, texts, base, chunk, STATIC_CONVERSION_FUNCTION_BODIES, pos);
    OfferedAll(src, before, texts, base, chunk, pos);
    to' := Slice(to.includes, globalVars, stringLiterals, texts);
  }

  lemma OfferedAll(src: Source, before: seq<CString>, after: seq<CString>, base: nat, chunk: nat, pos: nat)
    requires src.Shaped() && |before| == 4 && src.IsCut(base) && base <= src.Total()
    requires EndsAt(src, base, chunk, 4, pos) && Grown(src, before, after, base, 4, pos)
    ensures IsNextCut(src, base, chunk, pos)
    ensures forall k :: 0 <= k < 4 ==>
              after[k].Text() == before[k].Text() + Part(src.sections[k].Text(), src.Start(k), base, pos)
  {
    assert Max(base, pos) == pos;
  }

  lemma OfferNone(src: Source, base: nat, chunk: nat)
    requires src.Bounded() && (base == 0 || src.Pre() <= base)
    ensures EndsAt(src, base, chunk, 0, src.Pre())
  {
    src.SectionEnds(0);
    forall d: nat | src.IsCut(d) && base < d < src.Pre() ensures false {
      var k :| 0 <= k < 4 && src.IsCutIn(k, d);
      src.Starts(0, k);
    }
  }

  // ---------------------------------------------------------------- the slices of one module

  /** Number of characters of code in a slice. */
  function Size(s: Slice): nat
    requires |s.sections| == 4
  {
    |s.globalVars.Text()| + |s.stringLiterals.Text()| +
    |s.sections[0].Text()| + |s.sections[1].Text()| + |s.sections[2].Text()| + |s.sections[3].Text()|
  }

  /** Slice `s` holds exactly what lies between the cuts `a` and `b`. */
  ghost predicate Holds(src: Source, s: Slice, a: nat, b: nat)
    requires src.Shaped() && a <= b
  {
    && |s.sections| == 4
    && (forall k :: 0 <= k < 4 ==> s.sections[k].Text() == Part(src.sections[k].Text(), src.Start(k), a, b))
    && s.globalVars.Text() == (if a < src.Pre() then src.globalVars.Text() else "")
    && s.stringLiterals.Text() == (if a < src.Pre() then src.stringLiterals.Text() else "")
  }

  /** How many characters of section `k` lie before position `x`. */
  function Before(src: Source, k: nat, x: nat): (n: nat)
    requires src.Shaped() && k < 4
    ensures n <= |src.sections[k].Text()|
  {
    Clamp(x - src.Start(k), |src.sections[k].Text()|)
  }

  lemma PartSize(src: Source, k: nat, a: nat, b: nat)
    requires src.Shaped() && k < 4 && a <= b
    ensures |Part(src.sections[k].Text(), src.Start(k), a, b)| == Before(src, k, b) - Before(src, k, a)
  {
  }

  lemma BeforeSum(src: Source, x: nat)
    requires src.Shaped() && x <= src.Total()
    ensures src.Pre() + Before(src, 0, x) + Before(src, 1, x) + Before(src, 2, x) + Before(src, 3, x) ==
            if x < src.Pre() then src.Pre() else x
  {
    src.Starts(0, 1);
    src.Starts(1, 2);
    src.Starts(2, 3);
    src.Starts(3, 4);
  }

  lemma SliceSize(src: Source, s: Slice, a: nat, b: nat)
    requires src.Shaped() && a <= b <= src.Total() && Holds(src, s, a, b)
    requires (a == 0 || src.Pre() <= a) && src.Pre() <= b
    ensures Size(s) == b - a
  {
    hide Part, Before;
    BeforeSum(src, a);
    BeforeSum(src, b);
    PartSize(src, 0, a, b);
    PartSize(src, 1, a, b);
    PartSize(src, 2, a, b);
    PartSize(src, 3, a, b);
  }

  const EMPTY_FILE := Str("\n//This file is intentionally empty.\n#include <version.h>\n")

  /** A slice with the `base_pos` before and after it. */
  datatype Piece = Piece(slice: Slice, begin: nat, end: nat)

  /** The piece lies between two recorded cuts, holds what lies there, and says so when that is nothing. */
  ghost predicate IsPiece(src: Source, p: Piece)
    requires src.Shaped()
  {
    && p.begin <= p.end <= src.Total() && src.Pre() <= p.end && src.IsCut(p.end)
    && Holds(src, p.slice, p.begin, p.end)
    && (0 < src.Total() ==>
          p.slice.includes.Text() == if p.begin < p.end then src.includes.Text() else EMPTY_FILE.Text())
  }

  /** The pieces follow each other without gap from the beginning to `end`, each up to the next cut. */
  ghost predicate Sliced(src: Source, chunk: nat, pieces: seq<Piece>, end: nat)
    requires src.Shaped()
  {
    if pieces == [] then end == 0
    else
      var p := pieces[|pieces| - 1];
      && p.end == end && IsPiece(src, p) && IsNextCut(src, p.begin, chunk, p.end)
      && Sliced(src, chunk, pieces[..|pieces| - 1], p.begin)
  }

  lemma SlicedEnd(src: Source, chunk: nat, pieces: seq<Piece>, end: nat)
    requires src.Shaped() && Sliced(src, chunk, pieces, end)
    ensures src.IsCut(end) && end <= src.Total() && (end == 0 || src.Pre() <= end)
  {
  }

  /** The body of the slice loop. */
  method CutPiece(src: Source, base: nat, chunk: nat) returns (p: Piece)
    requires src.Valid() && src.IsCut(base) && base <= src.Total() && (base == 0 || src.Pre() <= base)
    ensures p.begin == base && IsPiece(src, p) && IsNextCut(src, base, chunk, p.end)
  {
    var go, actPos := GetNextChunkPos(src, EMPTY_SLICE, base, chunk);
    HoldsFromEmpty(src, go, base, actPos);
    go := go.(includes := if actPos > base then go.includes.Put(src.includes.Text()) else EMPTY_FILE);
    p := Piece(go, base, actPos);
  }

  lemma HoldsFromEmpty(src: Source, s: Slice, a: nat, b: nat)
    requires src.Shaped() && a <= b && |s.sections| == 4
    requires forall k :: 0 <= k < 4 ==>
               s.sections[k].Text() == EMPTY_SLICE.sections[k].Text() + Part(src.sections[k].Text(), src.Start(k), a, b)
    requires s.globalVars.Text() == EMPTY_SLICE.globalVars.Text() + (if a < src.Pre() then src.globalVars.Text() else "")
    requires s.stringLiterals.Text() ==
      EMPTY_SLICE.stringLiterals.Text() + (if a < src.Pre() then src.stringLiterals.Text() else "")
    ensures Holds(src, s, a, b)
  {
    forall k | 0 <= k < 4 ensures s.sections[k].Text() == Part(src.sections[k].Text(), src.Start(k), a, b) {
      assert EMPTY_SLICE.sections[k].Text() == "";
    }
  }

  /** The slice loop of `write_output`. */
  method CutSlices(src: Source, sliceNum: nat, chunk: nat) returns (pieces: seq<Piece>, base: nat)
    requires src.Valid()
    ensures |pieces| == sliceNum && Sliced(src, chunk, pieces, base)
  {
    pieces, base := [], 0;
    for i := 0 to sliceNum
      invariant |pieces| == i && Sliced(src, chunk, pieces, base)
    {
      SlicedEnd(src, chunk, pieces, base);
      var p := CutPiece(src, base, chunk);
      assert (pieces + [p])[..i] == pieces;
      pieces, base := pieces + [p], p.end;
    }
  }

  /** A module smaller than one chunk keeps its file as it is; only empty files are added. */
  method KeepWhole(src: Source, sliceNum: nat, chunk: nat) returns (pieces: seq<Piece>)
    requires src.Valid() && 0 < sliceNum && src.Total() < chunk
    ensures |pieces| == sliceNum && Sliced(src, chunk, pieces, src.Total())
  {
    var whole := Slice(src.includes, src.globalVars, src.stringLiterals,
                       [src.sections[0].from, src.sections[1].from, src.sections[2].from, src.sections[3].from]);
    var p := Piece(whole, 0, src.Total());
    WholePiece(src, p, chunk);
    pieces := [p];
    assert pieces[..0] == [];
    for i := 1 to sliceNum
      invariant |pieces| == i && Sliced(src, chunk, pieces, src.Total())
    {
      p := Piece(EMPTY_SLICE.(includes := EMPTY_FILE), src.Total(), src.Total());
      EmptyPiece(src, p, chunk);
      assert (pieces + [p])[..i] == pieces;
      pieces := pieces + [p];
    }
  }

  lemma EndIsCut(src: Source, chunk: nat)
    requires src.Bounded()
    ensures src.IsCut(src.Total()) && src.Pre() <= src.Total()
    ensures IsNextCut(src, src.Total(), chunk, src.Total())
    ensures src.Total() < chunk ==> IsNextCut(src, 0, chunk, src.Total())
  {
    src.SectionEnds(3);
    src.Starts(0, 4);
  }

  lemma EmptyPiece(src: Source, p: Piece, chunk: nat)
    requires src.Bounded() && p == Piece(EMPTY_SLICE.(includes := EMPTY_FILE), src.Total(), src.Total())
    ensures IsPiece(src, p) && IsNextCut(src, p.begin, chunk, p.end)
  {
    EndIsCut(src, chunk);
  }

  lemma WholePiece(src: Source, p: Piece, chunk: nat)
    requires src.Bounded() && src.Total() < chunk && p.begin == 0 && p.end == src.Total()
    requires |p.slice.sections| == 4 && forall k :: 0 <= k < 4 ==> p.slice.sections[k] == src.sections[k].from
    requires p.slice.includes == src.includes
    requires p.slice.globalVars == src.globalVars && p.slice.stringLiterals == src.stringLiterals
    ensures IsPiece(src, p) && IsNextCut(src, p.begin, chunk, p.end)
  {
    EndIsCut(src, chunk);
    forall k | 0 <= k < 4
      ensures Part(src.sections[k].Text(), src.Start(k), 0, src.Total()) == src.sections[k].Text()
    {
      WholePart(src, k);
    }
  }

  lemma WholePart(src: Source, k: nat)
    requires src.Shaped() && k < 4
    ensures Part(src.sections[k].Text(), src.Start(k), 0, src.Total()) == src.sections[k].Text()
  {
    src.Starts(k + 1, 4);
  }

  /** The leftover pass: what the loop did not reach is appended to the last file. */
  method PutLeftover(src: Source, last: Piece) returns (p: Piece)
    requires src.Valid() && IsPiece(src, last) && last.begin < last.end < src.Total()
    ensures p.begin == last.begin && p.end == src.Total() && IsPiece(src, p)
  {
    var s, end := GetNextChunkPos(src, last.slice, last.end, src.Total());
    forall k | 0 <= k < 4
      ensures s.sections[k].Text() == Part(src.sections[k].Text(), src.Start(k), last.begin, end)
    {
      PartsJoin(src.sections[k].Text(), src.Start(k), last.begin, last.end, end);
    }
    p := Piece(s, last.begin, end);
  }

  /** All pieces but the last end at the next cut; the last one, which the loop left at `reached`, ends the source. */
  ghost predicate SlicedUp(src: Source, chunk: nat, pieces: seq<Piece>, reached: nat)
    requires src.Shaped()
  {
    && pieces != []
    && var last := pieces[|pieces| - 1];
    && Sliced(src, chunk, pieces[..|pieces| - 1], last.begin)
    && IsPiece(src, last) && last.end == src.Total()
    && IsNextCut(src, last.begin, chunk, reached)
  }

  /** `write_output` for one module without a file name clash; `reached` is the `base_pos` after the slice loop. */
  method SliceModule(src: Source, sliceNum: nat, chunk: nat) returns (pieces: seq<Piece>, reached: nat)
    requires src.Valid() && 0 < sliceNum
    ensures |pieces| == sliceNum && SlicedUp(src, chunk, pieces, reached)
  {
    if src.Total() >= chunk {
      pieces, reached := CutSlices(src, sliceNum, chunk);
      if reached < src.Total() {
        var p := PutLeftover(src, pieces[sliceNum - 1]);
        assert (pieces[..sliceNum - 1] + [p])[..sliceNum - 1] == pieces[..sliceNum - 1];
        pieces := pieces[..sliceNum - 1] + [p];
      } else {
        SlicedEnd(src, chunk, pieces, reached);
      }
    } else {
      pieces := KeepWhole(src, sliceNum, chunk);
      reached := src.Total();
    }
  }

  // ---------------------------------------------------------------- conservation

  /** What all slices together hold of one text, in order; `f` selects the text. */
  function Joined(pieces: seq<Piece>, f: Slice -> string): string {
    if pieces == [] then "" else Joined(pieces[..|pieces| - 1], f) + f(pieces[|pieces| - 1].slice)
  }

  function SectionText(k: nat): Slice -> string {
    (s: Slice) => if k < |s.sections| then s.sections[k].Text() else ""
  }

  lemma {:induction false} SectionSoFar(src: Source, chunk: nat, pieces: seq<Piece>, end: nat, k: nat)
    requires src.Shaped() && k < 4 && Sliced(src, chunk, pieces, end)
    ensures Joined(pieces, SectionText(k)) == Part(src.sections[k].Text(), src.Start(k), 0, end)
  {
    if pieces != [] {
      var p := pieces[|pieces| - 1];
      SectionSoFar(src, chunk, pieces[..|pieces| - 1], p.begin, k);
      PartsJoin(src.sections[k].Text(), src.Start(k), 0, p.begin, p.end);
    }
  }

  const GLOBAL_VARS: Slice -> string := (s: Slice) => s.globalVars.Text()
  const STRING_LITERALS: Slice -> string := (s: Slice) => s.stringLiterals.Text()

  lemma {:induction false} PrefixSoFar(src: Source, chunk: nat, pieces: seq<Piece>, end: nat)
    requires src.Shaped() && Sliced(src, chunk, pieces, end)
    ensures 0 < |pieces| ==> src.Pre() <= end
    ensures Joined(pieces, GLOBAL_VARS) == if pieces == [] then "" else src.globalVars.Text()
    ensures Joined(pieces, STRING_LITERALS) == if pieces == [] then "" else src.stringLiterals.Text()
  {
    if pieces != [] {
      PrefixSoFar(src, chunk, pieces[..|pieces| - 1], pieces[|pieces| - 1].begin);
    }
  }

  /** Slicing conserves code: put together in order, the slices give every section exactly once and in full. */
  lemma SectionConserved(src: Source, chunk: nat, pieces: seq<Piece>, reached: nat, k: nat)
    requires src.Shaped() && SlicedUp(src, chunk, pieces, reached) && k < 4
    ensures Joined(pieces, SectionText(k)) == src.sections[k].Text()
  {
    var last := pieces[|pieces| - 1];
    SectionSoFar(src, chunk, pieces[..|pieces| - 1], last.begin, k);
    PartsJoin(src.sections[k].Text(), src.Start(k), 0, last.begin, last.end);
    WholePart(src, k);
  }

  /** The global variables and string literals appear exactly once, in the first slice. */
  lemma PrefixConserved(src: Source, chunk: nat, pieces: seq<Piece>, reached: nat)
    requires src.Shaped() && SlicedUp(src, chunk, pieces, reached)
    ensures Joined(pieces, GLOBAL_VARS) == src.globalVars.Text()
    ensures Joined(pieces, STRING_LITERALS) == src.stringLiterals.Text()
  {
    PrefixSoFar(src, chunk, pieces[..|pieces| - 1], pieces[|pieces| - 1].begin);
  }

  ghost predicate IsFull(src: Source, chunk: nat, p: Piece)
    requires src.Shaped()
  {
    |p.slice.sections| == 4 && (p.end == src.Total() || chunk <= Size(p.slice))
  }

  /** Every slice that does not reach the end of the source holds at least `chunk` characters. */
  lemma {:induction false} SlicesAreFull(src: Source, chunk: nat, pieces: seq<Piece>, end: nat)
    requires src.Shaped() && Sliced(src, chunk, pieces, end)
    ensures forall p :: p in pieces ==> IsFull(src, chunk, p)
  {
    if pieces != [] {
      var init, p := pieces[..|pieces| - 1], pieces[|pieces| - 1];
      InitAndLast(pieces);
      SlicesAreFull(src, chunk, init, p.begin);
      LastIsFull(src, chunk, init, p);
    }
  }

  lemma LastIsFull(src: Source, chunk: nat, init: seq<Piece>, p: Piece)
    requires src.Shaped() && Sliced(src, chunk, init, p.begin)
    requires IsPiece(src, p) && IsNextCut(src, p.begin, chunk, p.end)
    ensures IsFull(src, chunk, p)
  {
    SlicedEnd(src, chunk, init, p.begin);
    SliceSize(src, p.slice, p.begin, p.end);
  }
}
