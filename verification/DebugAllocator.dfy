/**
 The allocator of common/memory.c in its debug form: every live block is on a doubly linked list,
 and counters are kept of what was allocated.
 */
module DebugAllocator {
  import opened Sequences

  /** `memory_block` */
  class Block {
    var size: nat
    var prev: Block?
    var next: Block?
    var ordinal: nat

    constructor (size: nat, ordinal: nat)
      ensures this.size == size && this.ordinal == ordinal
    {
      this.size, this.ordinal, prev, next := size, ordinal, null, null;
    }
  }

  lemma AtSnoc(s: seq<Block>, b: Block, i: int)
    ensures At(s + [b], i) == if i == |s| then b else At(s, i)
  {
  }

  /** No block to pass over. */
  const NONE: int := -2

  /** Every forward link leads to the next block, except that the one before `skip` passes it over. */
  ghost predicate Forward(s: seq<Block>, skip: int)
    reads s`next
  {
    forall i :: 0 <= i < |s| ==> s[i].next == At(s, if i + 1 == skip then i + 2 else i + 1)
  }

  /** Every backward link leads to the previous block, except that the one after `skip` passes it over. */
  ghost predicate Backward(s: seq<Block>, skip: int)
    reads s`prev
  {
    forall i :: 0 <= i < |s| ==> s[i].prev == At(s, if i - 1 == skip then i - 2 else i - 1)
  }

  /** A consistent doubly linked list of the blocks in `s`, in this order. */
  ghost predicate Linked(s: seq<Block>, head: Block?, tail: Block?)
    reads s`next, s`prev
  {
    Distinct(s) && head == At(s, 0) && tail == At(s, |s| - 1) && Forward(s, NONE) && Backward(s, NONE)
  }

  function Sizes(s: seq<Block>): (r: seq<nat>)
    reads s`size
    ensures |r| == |s| && forall i :: 0 <= i < |s| ==> r[i] == s[i].size
  {
    if s == [] then [] else Sizes(s[..|s| - 1]) + [s[|s| - 1].size]
  }

  lemma SkippedForward(s: seq<Block>, k: nat, t: seq<Block>)
    requires k < |s| && t == Without(s, k) && Forward(s, k)
    ensures Forward(t, NONE)
  {
    hide At;
    forall i | 0 <= i < |t| ensures t[i].next == At(t, i + 1) {
      var j := if i < k then i else i + 1;
      AtIs(t, i + 1);
      AtIs(s, j + 1);
      AtIs(s, j + 2);
      assert t[i] == s[j] && s[j].next == At(s, if j + 1 == k then j + 2 else j + 1);
    }
  }

  lemma SkippedBackward(s: seq<Block>, k: nat, t: seq<Block>)
    requires k < |s| && t == Without(s, k) && Backward(s, k)
    ensures Backward(t, NONE)
  {
    hide At;
    forall i | 0 <= i < |t| ensures t[i].prev == At(t, i - 1) {
      var j := if i < k then i else i + 1;
      AtIs(t, i - 1);
      AtIs(s, j - 1);
      AtIs(s, j - 2);
      assert t[i] == s[j] && s[j].prev == At(s, if j - 1 == k then j - 2 else j - 1);
    }
  }

  lemma DistinctWithout(s: seq<Block>, k: nat)
    requires k < |s| && Distinct(s)
    ensures Distinct(Without(s, k)) && s[k] !in Without(s, k)
  {
  }

  function Without<T>(s: seq<T>, k: nat): seq<T>
    requires k < |s|
  {
    s[..k] + s[k + 1..]
  }

  function Sum(s: seq<nat>): nat {
    if s == [] then 0 else Sum(s[..|s| - 1]) + s[|s| - 1]
  }

  lemma {:induction false} SumWithout(s: seq<nat>, k: nat)
    requires k < |s|
    ensures Sum(Without(s, k)) + s[k] == Sum(s)
  {
    var n := |s| - 1;
    if k == n {
      assert Without(s, k) == s[..n];
    } else {
      SumWithout(s[..n], k);
      assert Without(s, k) == Without(s[..n], k) + [s[n]];
    }
  }

  lemma SumSnoc(s: seq<nat>, x: nat)
    ensures Sum(s + [x]) == Sum(s) + x
  {
    assert (s + [x])[..|s|] == s;
  }

  function Max(a: nat, b: nat): nat {
    if a < b then b else a
  }

  class Allocator {
    var head: Block?
    var tail: Block?
    var allocatedSize: nat
    var peakSize: nat
    var allocCount: nat
    var totalAllocated: nat
    var mallocCount: nat
    var freeCount: nat
    ghost var blocks: seq<Block>

    ghost predicate Valid()
      reads this, blocks
    {
      Balanced() && mallocCount == freeCount + |blocks| && allocatedSize <= peakSize
    }

    ghost predicate Balanced()
      reads this, blocks
    {
      Linked(blocks, head, tail) && allocatedSize == Sum(Sizes(blocks))
    }

    constructor ()
      ensures Valid() && blocks == [] && peakSize == 0 && mallocCount == 0 && freeCount == 0 && totalAllocated == 0
    {
      head, tail, blocks := null, null, [];
      allocatedSize, peakSize, allocCount, totalAllocated, mallocCount, freeCount := 0, 0, 0, 0, 0, 0;
    }

    /** `add_to_list` */
    method AddToList(b: Block)
      requires Linked(blocks, head, tail) && b !in blocks
      modifies `head, `tail, `blocks, b`prev, b`next, blocks`next
      ensures blocks == old(blocks) + [b] && Linked(blocks, head, tail)
    {
      hide At;
      ghost var s := blocks;
      AtIs(s, 0);
      AtIs(s, |s| - 1);
      AtIs(s, |s| + 1);
      b.prev := tail;
      b.next := null;
      if tail != null {
        tail.next := b;
      } else {
        head := b;
      }
      tail := b;
      blocks := s + [b];
      forall i | 0 <= i < |blocks|
        ensures blocks[i].next == At(blocks, i + 1) && blocks[i].prev == At(blocks, i - 1)
      {
        AtSnoc(s, b, i + 1);
        AtSnoc(s, b, i - 1);
        assert i < |s| ==> blocks[i] == s[i];
      }
      AtSnoc(s, b, 0);
      AtSnoc(s, b, |s|);
    }

    /** The forward half of `remove_from_list` */
    method UnlinkForward(b: Block, ghost k: nat)
      requires Linked(blocks, head, tail) && k < |blocks| && blocks[k] == b
      modifies `head, blocks`next
      ensures Forward(blocks, k) && head == At(Without(blocks, k), 0)
    {
      hide At;
      ghost var s := blocks;
      AtIs(s, k - 1);
      AtIs(s, k + 1);
      AtIs(s, 0);
      AtIs(Without(s, k), 0);
      if b.prev != null {
        b.prev.next := b.next;
      } else {
        head := b.next;
      }
      forall i | 0 <= i < |s| ensures s[i].next == At(s, if i + 1 == k then i + 2 else i + 1) {
        assert old(s[i].next) == At(s, i + 1);
      }
    }

    /** The backward half of `remove_from_list` */
    method UnlinkBackward(b: Block, ghost k: nat)
      requires Distinct(blocks) && Forward(blocks, k) && Backward(blocks, NONE) && tail == At(blocks, |blocks| - 1)
      requires k < |blocks| && blocks[k] == b
      modifies `tail, blocks`prev
      ensures Backward(blocks, k) && tail == At(Without(blocks, k), |blocks| - 2)
    {
      hide At;
      ghost var s := blocks;
      AtIs(s, k - 1);
      AtIs(s, k + 1);
      AtIs(s, |s| - 1);
      AtIs(Without(s, k), |s| - 2);
      if b.next != null {
        b.next.prev := b.prev;
      } else {
        tail := b.prev;
      }
      forall i | 0 <= i < |s| ensures s[i].prev == At(s, if i - 1 == k then i - 2 else i - 1) {
        assert old(s[i].prev) == At(s, i - 1);
      }
    }

    /** `remove_from_list` */
    method RemoveFromList(b: Block, ghost k: nat)
      requires Linked(blocks, head, tail) && k < |blocks| && blocks[k] == b
      modifies `head, `tail, `blocks, blocks`next, blocks`prev
      ensures blocks == Without(old(blocks), k) && Linked(blocks, head, tail) && b !in blocks
    {
      hide Forward, Backward, Distinct;
      UnlinkForward(b, k);
      UnlinkBackward(b, k);
      ghost var s := blocks;
      blocks := Without(s, k);
      SkippedForward(s, k, blocks);
      SkippedBackward(s, k, blocks);
      DistinctWithout(s, k);
    }

    /** A block of `b.size` bytes onto the list and into the counters. */
    method Attach(b: Block)
      requires Balanced() && b !in blocks
      modifies this, b`prev, b`next, blocks`next
      ensures Balanced() && blocks == old(blocks) + [b]
      ensures totalAllocated == old(totalAllocated) + b.size && allocCount == old(allocCount) + 1
      ensures peakSize == Max(old(peakSize), allocatedSize)
      ensures mallocCount == old(mallocCount) && freeCount == old(freeCount)
    {
      hide Linked, Sum, Sizes;
      ghost var s := blocks;
      AddToList(b);
      SumSnoc(Sizes(s), b.size);
      SizesSnoc(s, b);
      totalAllocated := totalAllocated + b.size;
      allocCount := allocCount + 1;
      allocatedSize := allocatedSize + b.size;
      if peakSize < allocatedSize {
        peakSize := allocatedSize;
      }
    }

    /** The `k`-th block off the list and out of the sum. */
    method Detach(b: Block, ghost k: nat)
      requires Balanced() && k < |blocks| && blocks[k] == b
      modifies `head, `tail, `blocks, `allocatedSize, blocks`next, blocks`prev
      ensures Balanced() && blocks == Without(old(blocks), k) && b !in blocks
      ensures allocatedSize <= old(allocatedSize)
    {
      hide Linked, Sum, Sizes;
      SizesWithout(blocks, k);
      SumWithout(Sizes(blocks), k);
      RemoveFromList(b, k);
      allocatedSize := allocatedSize - b.size;
    }

    /** `Malloc`; nothing is allocated for no bytes. */
    method Malloc(size: nat) returns (p: Block?)
      requires Valid()
      modifies this, blocks`next
      ensures Valid()
      ensures size == 0 ==> p == null && unchanged(this)
      ensures size > 0 ==> fresh(p) && blocks == old(blocks) + [p] && p.size == size && p.ordinal == old(allocCount)
      ensures size > 0 ==> mallocCount == old(mallocCount) + 1 && allocCount == old(allocCount) + 1
      ensures freeCount == old(freeCount) && totalAllocated == old(totalAllocated) + size
      ensures peakSize == (if size == 0 then old(peakSize) else Max(old(peakSize), allocatedSize))
    {
      hide Linked, Sum, Sizes;
      p := null;
      if size > 0 {
        var b := new Block(size, allocCount);
        Attach(b);
        mallocCount := mallocCount + 1;
        p := b;
      }
    }

    /** `Free` of a live block, the `k`-th on the list, or of none */
    method Free(p: Block?, ghost k: nat)
      requires Valid() && (p != null ==> k < |blocks| && blocks[k] == p)
      modifies this, blocks`next, blocks`prev
      ensures Valid()
      ensures p == null ==> unchanged(this)
      ensures p != null ==> blocks == Without(old(blocks), k) && freeCount == old(freeCount) + 1
      ensures mallocCount == old(mallocCount) && peakSize == old(peakSize)
      ensures allocCount == old(allocCount) && totalAllocated == old(totalAllocated)
    {
      hide Linked, Sum, Sizes;
      if p != null {
        Detach(p, k);
        freeCount := freeCount + 1;
      }
    }

    /** `Realloc` of a live block, which the system may have to move, or of none */
    method Realloc(p: Block?, ghost k: nat, size: nat, moved: bool) returns (r: Block?)
      requires Valid() && (p != null ==> k < |blocks| && blocks[k] == p)
      modifies this, blocks
      ensures Valid()
      ensures r == null <==> size == 0
      ensures p == null && size == 0 ==> unchanged(this)
      ensures p == null && size > 0 ==> fresh(r) && blocks == old(blocks) + [r]
      ensures p != null && size == 0 ==> blocks == Without(old(blocks), k)
      ensures p != null && size > 0 ==> (if moved then fresh(r) else r == p)
      ensures p != null && size > 0 ==> blocks == Without(old(blocks), k) + [r] && r.ordinal == old(p.ordinal)
      ensures size > 0 ==> r.size == size
      ensures forall b :: b in old(blocks) && b != p ==> b.size == old(b.size) && b.ordinal == old(b.ordinal)
      ensures mallocCount == old(mallocCount) + (if p == null && size > 0 then 1 else 0)
      ensures freeCount == old(freeCount) + (if p != null && size == 0 then 1 else 0)
      ensures totalAllocated == old(totalAllocated) + size
      ensures allocCount == old(allocCount) + (if size > 0 then 1 else 0)
      ensures peakSize == (if size == 0 then old(peakSize) else Max(old(peakSize), allocatedSize))
    {
      hide Linked, Sum, Sizes;
      if p == null {
        r := Malloc(size);
      } else if size == 0 {
        Free(p, k);
        r := null;
      } else {
        r := Resize(p, k, size, moved);
      }
    }

    method Resize(p: Block, ghost k: nat, size: nat, moved: bool) returns (r: Block)
      requires Valid() && k < |blocks| && blocks[k] == p && size > 0
      modifies this, p, blocks`next, blocks`prev
      ensures Valid()
      ensures if moved then fresh(r) else r == p
      ensures blocks == Without(old(blocks), k) + [r] && r.size == size && r.ordinal == old(p.ordinal)
      ensures mallocCount == old(mallocCount) && freeCount == old(freeCount)
      ensures totalAllocated == old(totalAllocated) + size && allocCount == old(allocCount) + 1
      ensures peakSize == Max(old(peakSize), allocatedSize)
    {
      hide Linked, Sum, Sizes;
      Detach(p, k);
      r := p;
      if moved {
        r := new Block(p.size, p.ordinal);
      }
      r.size := size;
      Attach(r);
    }
  }

  lemma SizesSnoc(s: seq<Block>, b: Block)
    ensures Sizes(s + [b]) == Sizes(s) + [b.size]
  {
    assert (s + [b])[..|s|] == s;
  }

  lemma SizesWithout(s: seq<Block>, k: nat)
    requires k < |s|
    ensures Sizes(Without(s, k)) == Without(Sizes(s), k)
  {
    hide Sizes;
    var t := Without(s, k);
    forall i | 0 <= i < |t| ensures Sizes(t)[i] == Without(Sizes(s), k)[i] {
      assert t[i] == s[if i < k then i else i + 1];
    }
  }

  // ---------------------------------------------------------------- runs

  /** A pointer of a caller: none, or the one to the `k`-th block on the list. */
  datatype Pointer = Null | Live(k: nat)

  datatype Op = Malloc(size: nat) | Realloc(p: Pointer, size: nat, moved: bool) | Free(p: Pointer)

  /** The sizes of the live blocks after an operation. */
  function After(live: seq<nat>, op: Op): seq<nat>
    requires Usable(live, op)
  {
    match op
    case Malloc(n) => if n == 0 then live else live + [n]
    case Free(p) => Dropped(live, p)
    case Realloc(p, n, _) => if n == 0 then Dropped(live, p) else Dropped(live, p) + [n]
  }

  /** Only live blocks are freed or reallocated. */
  predicate Usable(live: seq<nat>, op: Op) {
    !op.Malloc? && op.p.Live? ==> op.p.k < |live|
  }

  function Dropped(live: seq<nat>, p: Pointer): seq<nat>
    requires p.Live? ==> p.k < |live|
  {
    if p.Null? then live else Without(live, p.k)
  }

  function AfterAll(ops: seq<Op>): seq<nat>
    requires AllUsable(ops)
    decreases |ops|, 1
  {
    if ops == [] then [] else After(AfterAll(ops[..|ops| - 1]), ops[|ops| - 1])
  }

  predicate AllUsable(ops: seq<Op>)
    decreases |ops|, 0
  {
    ops == [] || (AllUsable(ops[..|ops| - 1]) && Usable(AfterAll(ops[..|ops| - 1]), ops[|ops| - 1]))
  }

  /** The largest amount that was live after any of the operations. */
  function Peak(ops: seq<Op>): nat
    requires AllUsable(ops)
  {
    if ops == [] then 0 else Max(Peak(ops[..|ops| - 1]), Sum(AfterAll(ops)))
  }

  /** One operation, with the pointers that the caller holds before and after it. */
  method Step(a: Allocator, held: seq<Block>, op: Op) returns (r: seq<Block>)
    requires a.Valid() && held == a.blocks && Usable(Sizes(a.blocks), op)
    modifies a, a.blocks
    ensures a.Valid() && r == a.blocks && Sizes(a.blocks) == After(old(Sizes(a.blocks)), op)
    ensures fresh(set b | b in r && b !in held)
    ensures a.peakSize == Max(old(a.peakSize), a.allocatedSize)
  {
    hide Sum, Linked, Sizes;
    r := held;
    match op {
      case Malloc(n) =>
        var p := a.Malloc(n);
        if p != null {
          r := held + [p];
          SizesSnoc(held, p);
        }
      case Free(p) =>
        if p.Live? {
          SizesWithout(held, p.k);
          a.Free(held[p.k], p.k);
          r := Without(held, p.k);
        } else {
          a.Free(null, 0);
        }
      case Realloc(p, n, moved) =>
        r := StepRealloc(a, held, p, n, moved);
    }
  }

  method StepRealloc(a: Allocator, held: seq<Block>, p: Pointer, n: nat, moved: bool) returns (r: seq<Block>)
    requires a.Valid() && held == a.blocks && (p.Live? ==> p.k < |held|)
    modifies a, a.blocks
    ensures a.Valid() && r == a.blocks && Sizes(a.blocks) == After(old(Sizes(a.blocks)), Op.Realloc(p, n, moved))
    ensures fresh(set b | b in r && b !in held)
    ensures a.peakSize == Max(old(a.peakSize), a.allocatedSize)
  {
    hide Sum, Linked, Sizes;
    var block, k := null, 0;
    var rest := held;
    if p.Live? {
      block, k := held[p.k], p.k;
      rest := Without(held, p.k);
      SizesWithout(held, p.k);
      RestDiffers(held, p.k, a.head, a.tail);
    }
    ghost var sizes := Sizes(rest);
    var q := a.Realloc(block, k, n, moved);
    r := if q == null then rest else rest + [q];
    assert Sizes(rest) == sizes;
    if q != null {
      SizesSnoc(rest, q);
    }
  }

  lemma RestDiffers(s: seq<Block>, k: nat, head: Block?, tail: Block?)
    requires k < |s| && Linked(s, head, tail)
    ensures s[k] !in Without(s, k)
  {
    DistinctWithout(s, k);
  }

  /**
   After any run of operations on live pointers: the list holds exactly the live blocks, and the
   counters are the sum of their sizes, their number and the largest sum there ever was.
   */
  method Run(ops: seq<Op>) returns (a: Allocator, held: seq<Block>)
    requires AllUsable(ops)
    ensures fresh(a) && a.Valid() && held == a.blocks && Sizes(held) == AfterAll(ops)
    ensures a.allocatedSize == Sum(AfterAll(ops)) && a.peakSize == Peak(ops)
    ensures a.mallocCount - a.freeCount == |AfterAll(ops)|
  {
    hide Sum, Linked, Sizes, After;
    a := new Allocator();
    held := [];
    UsablePrefixes(ops);
    assert ops[..0] == [];
    for i := 0 to |ops|
      invariant fresh(a) && fresh(set b | b in held) && a.Valid() && held == a.blocks
      invariant Sizes(held) == AfterAll(ops[..i]) && a.peakSize == Peak(ops[..i])
    {
      assert ops[..i + 1][..i] == ops[..i] && AllUsable(ops[..i + 1]);
      held := Step(a, held, ops[i]);
    }
    assert ops[..|ops|] == ops;
  }

  lemma {:induction false} UsablePrefixes(ops: seq<Op>)
    requires AllUsable(ops)
    ensures forall i :: 0 <= i <= |ops| ==> AllUsable(ops[..i])
  {
    assert ops[..|ops|] == ops;
    if ops != [] {
      var init := ops[..|ops| - 1];
      UsablePrefixes(init);
      assert forall i :: 0 <= i <= |init| ==> ops[..i] == init[..i];
    }
  }
}
