/**
  The intervals of compiler2/CodeGenHelper.cc: the lengths that the sections of the output have while code is
  generated, where they may be cut later (`update_intervals`).
*/
module Intervals {

  /** A `char *` holding an expstring: the null pointer or a text. */
  datatype CString = Null | Str(text: string) {
    function Text(): string {
      if Null? then "" else text
    }
    /** `mputstr` and `mputstrn`: a null or empty addition leaves even a null destination alone. */
    function Put(s: string): (r: CString)
      ensures r.Text() == Text() + s
    {
      if s == "" then this else Str(Text() + s)
    }
  }

  // ---------------------------------------------------------------- recording the intervals

  ghost predicate Ascending(marks: seq<nat>) {
    && 0 < |marks| && marks[0] == 0
    && forall i, j :: 0 <= i < j < |marks| ==> marks[i] < marks[j]
  }

  lemma InitAndLast<T>(s: seq<T>)
    requires s != []
    ensures s == s[..|s| - 1] + [s[|s| - 1]]
  {
  }

  function Last(marks: seq<nat>): nat
    requires 0 < |marks|
  {
    marks[|marks| - 1]
  }

  /** A section of the output and where it may be cut. */
  datatype Section = Section(from: CString, marks: seq<nat>) {
    function Text(): string {
      from.Text()
    }

    ghost predicate Valid() {
      Ascending(marks) && Last(marks) == |Text()|
    }

    /** The part of `Valid` that the reasoning about whole slices needs. */
    ghost predicate Bounded() {
      0 in marks && |Text()| in marks && forall m :: m in marks ==> m <= |Text()|
    }

    lemma ValidIsBounded()
      requires Valid()
      ensures Bounded()
    {
      assert marks[0] == 0 && marks[|marks| - 1] == |Text()|;
    }
  }

  /**
    One growing section of an `output_struct` with its interval array: `size` is the index of the last
    recorded end, `ends.Length` the `_max_size`.
  */
  class SectionBuffer {
    var text: CString
    var ends: array<nat>
    var size: nat

    ghost predicate Valid()
      reads this, ends
    {
      size < ends.Length && Ascending(ends[..size + 1]) && ends[size] <= |text.Text()|
    }

    ghost function Marks(): seq<nat>
      requires Valid()
      reads this, ends
    {
      ends[..size + 1]
    }

    constructor ()
      ensures Valid() && fresh(ends) && Marks() == [0] && text == Null
    {
      var a := new nat[1];
      a[0] := 0;
      ends, size, text := a, 0, Null;
    }

    /** Code is only ever appended to a section. */
    method Append(s: string)
      requires Valid()
      modifies this
      ensures Valid() && text.Text() == old(text.Text()) + s && Marks() == old(Marks()) && ends == old(ends)
    {
      text := text.Put(s);
    }

    /** One of the four blocks of `update_intervals`. */
    method UpdateInterval()
      requires Valid()
      modifies this, ends
      ensures Valid() && text == old(text) && (ends == old(ends) || fresh(ends))
      ensures Marks() == if Last(old(Marks())) < |text.Text()| then old(Marks()) + [|text.Text()|] else old(Marks())
    {
      hide Ascending;
      var tmp := |text.Text()|;
      if ends[size] < tmp {
        AscendingSnoc(ends[..size + 1], tmp);
        size := size + 1;
        if size >= ends.Length {
          ends := Doubled(ends);
          assert ends[..size] == old(Marks());
        }
        ends[size] := tmp;
        assert ends[..size + 1] == old(Marks()) + [tmp];
      }
    }
  }

  /** `Realloc` of an array to twice its size */
  method Doubled(a: array<nat>) returns (r: array<nat>)
    ensures fresh(r) && r.Length == 2 * a.Length && r[..a.Length] == a[..]
  {
    r := new nat[2 * a.Length];
    forall i | 0 <= i < a.Length {
      r[i] := a[i];
    }
  }

  lemma AscendingSnoc(marks: seq<nat>, n: nat)
    requires Ascending(marks) && Last(marks) < n
    ensures Ascending(marks + [n])
  {
  }

  /** What is recorded over a whole run: the distinct lengths the section had at the updates. */
  function Recorded(lengths: seq<nat>): (marks: seq<nat>)
    ensures 0 < |marks|
  {
    if lengths == [] then [0]
    else
      var before := Recorded(lengths[..|lengths| - 1]);
      if Last(before) < Last(lengths) then before + [Last(lengths)] else before
  }

  ghost predicate Growing(lengths: seq<nat>) {
    forall i, j :: 0 <= i < j < |lengths| ==> lengths[i] <= lengths[j]
  }

  /** A section only grows, so its marks ascend and end at its current length. */
  lemma {:induction false} RecordedAscend(lengths: seq<nat>)
    requires Growing(lengths)
    ensures Ascending(Recorded(lengths))
    ensures Last(Recorded(lengths)) == if lengths == [] then 0 else Last(lengths)
  {
    if lengths != [] {
      RecordedAscend(lengths[..|lengths| - 1]);
    }
  }

  /** The marks miss no length the section had at an update, and invent none. */
  lemma {:induction false} RecordedExactly(lengths: seq<nat>, n: nat)
    requires Growing(lengths)
    ensures n in Recorded(lengths) <==> n == 0 || n in lengths
  {
    if lengths != [] {
      var init := lengths[..|lengths| - 1];
      InitAndLast(lengths);
      RecordedExactly(init, n);
      RecordedAscend(init);
      assert Last(Recorded(init)) in Recorded(init);
    }
  }

  /** After the update that precedes slicing, the section and its marks are fit to be cut. */
  lemma RecordedSection(lengths: seq<nat>, from: CString)
    requires Growing(lengths) && lengths != [] && Last(lengths) == |from.Text()|
    ensures Section(from, Recorded(lengths)).Valid()
  {
    RecordedAscend(lengths);
  }

  /** What happens to a section while code is generated. */
  datatype Change = Append(text: string) | Update

  function TextAfter(changes: seq<Change>): string {
    if changes == [] then ""
    else
      var c := changes[|changes| - 1];
      TextAfter(changes[..|changes| - 1]) + if c.Append? then c.text else ""
  }

  /** The lengths of the section at the updates. */
  function LengthsAt(changes: seq<Change>): seq<nat> {
    if changes == [] then []
    else
      var init := changes[..|changes| - 1];
      if changes[|changes| - 1].Update? then LengthsAt(init) + [|TextAfter(init)|] else LengthsAt(init)
  }

  lemma {:induction false} LengthsGrow(changes: seq<Change>)
    ensures Growing(LengthsAt(changes))
    ensures forall n :: n in LengthsAt(changes) ==> n <= |TextAfter(changes)|
  {
    if changes != [] {
      var init := changes[..|changes| - 1];
      LengthsGrow(init);
      GrowingSnoc(LengthsAt(init), |TextAfter(init)|);
    }
  }

  lemma GrowingSnoc(lengths: seq<nat>, n: nat)
    requires Growing(lengths) && forall m :: m in lengths ==> m <= n
    ensures Growing(lengths + [n])
  {
    var longer := lengths + [n];
    forall i, j | 0 <= i < j < |longer| ensures longer[i] <= longer[j] {
      assert lengths[i] in lengths;
    }
  }

  /** One more change. */
  lemma ChangeStep(changes: seq<Change>, i: nat)
    requires i < |changes|
    ensures TextAfter(changes[..i + 1]) == TextAfter(changes[..i]) + if changes[i].Append? then changes[i].text else ""
    ensures LengthsAt(changes[..i + 1]) ==
      LengthsAt(changes[..i]) + if changes[i].Update? then [|TextAfter(changes[..i])|] else []
  {
    assert changes[..i + 1][..i] == changes[..i];
  }

  lemma RecordedSnoc(lengths: seq<nat>, n: nat)
    ensures Recorded(lengths + [n]) == if Last(Recorded(lengths)) < n then Recorded(lengths) + [n] else Recorded(lengths)
  {
    assert (lengths + [n])[..|lengths|] == lengths;
  }

  /** Over any run the marks are those of the lengths at the updates, and fit to be cut after an update. */
  method RecordChanges(changes: seq<Change>) returns (b: SectionBuffer)
    ensures fresh(b) && b.Valid() && b.text.Text() == TextAfter(changes) && b.Marks() == Recorded(LengthsAt(changes))
    ensures changes != [] && changes[|changes| - 1].Update? ==> Section(b.text, b.Marks()).Valid()
  {
    hide TextAfter, LengthsAt, Recorded, Ascending;
    b := new SectionBuffer();
    assert changes[..0] == [];
    NoChanges();
    for i := 0 to |changes|
      invariant fresh(b) && fresh(b.ends) && b.Valid()
      invariant b.text.Text() == TextAfter(changes[..i]) && b.Marks() == Recorded(LengthsAt(changes[..i]))
    {
      ChangeStep(changes, i);
      match changes[i] {
        case Append(s) =>
          b.Append(s);
          assert LengthsAt(changes[..i]) + [] == LengthsAt(changes[..i]);
        case Update =>
          assert TextAfter(changes[..i]) + "" == TextAfter(changes[..i]);
          RecordedSnoc(LengthsAt(changes[..i]), |TextAfter(changes[..i])|);
          b.UpdateInterval();
      }
    }
    assert changes[..|changes|] == changes;
    LengthsGrow(changes);
    if changes != [] && changes[|changes| - 1].Update? {
      LastUpdate(changes);
      RecordedSection(LengthsAt(changes), b.text);
    }
  }

  lemma NoChanges()
    ensures TextAfter([]) == "" && LengthsAt([]) == [] && Recorded([]) == [0]
  {
  }

  lemma LastUpdate(changes: seq<Change>)
    requires changes != [] && changes[|changes| - 1].Update?
    ensures LengthsAt(changes) != [] && Last(LengthsAt(changes)) == |TextAfter(changes)|
  {
  }
}
