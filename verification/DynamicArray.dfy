/**
 The growable array (include/thesauros/containers/array/dynamic.hpp) with doubling growth
 (include/thesauros/containers/array/growth-policy.hpp), over raw storage.
 */
module DynamicArray {
  import opened Arith
  import opened Bits
  import opened RawStorage
  import opened Sequences

  const SIZE_BITS: nat := 64
  const SIZE_MAX: nat := 0xFFFF_FFFF_FFFF_FFFF
  const TOP_BIT: nat := 0x8000_0000_0000_0000

  // ----- growth

  /// `DoublingGrowth::new_allocation_size`
  function Grown(newSize: nat): nat {
    if BitWidth(newSize) >= SIZE_BITS then SIZE_MAX else Pow2(BitWidth(newSize))
  }

  /// There is always room for the requested size. What is allocated is the power of two that is larger than it and at
  /// most twice as large, or everything once that cannot be represented.
  lemma GrownIsEnough(newSize: nat)
    requires 0 < newSize <= SIZE_MAX
    ensures newSize <= Grown(newSize) <= SIZE_MAX
    ensures newSize < TOP_BIT ==> newSize < Grown(newSize) <= 2 * newSize && IsPowerOfTwo(Grown(newSize))
    ensures newSize >= TOP_BIT ==> Grown(newSize) == SIZE_MAX
  {
    BitWidthBounds(newSize);
    var w := BitWidth(newSize);
    assert Pow2(w) == 2 * Pow2(w - 1);
    assert Pow2(63) == TOP_BIT && Pow2(64) == SIZE_MAX + 1 by { WordSizes(); }
    if w < SIZE_BITS { Pow2Monotone(w, 63); }
    if newSize < TOP_BIT { BitWidthFits(63, newSize); }
  }

  ghost predicate IsPowerOfTwo(x: nat) { exists k: nat :: x == Pow2(k) }

  lemma NextPower(x: nat, y: nat)
    requires IsPowerOfTwo(x) && IsPowerOfTwo(y) && x < y
    ensures 2 * x <= y
  {
    var j: nat :| x == Pow2(j);
    var k: nat :| y == Pow2(k);
    if k <= j { Pow2Monotone(k, j); } else { Pow2Monotone(j + 1, k); }
  }

  /// A full array whose capacity is a power of two at least doubles it when it reallocates for one more element.
  lemma CapacityDoubles(c: nat)
    requires IsPowerOfTwo(c) && c < TOP_BIT
    ensures c < SIZE_MAX && Grown(c + 1) >= 2 * c
  {
    GrownIsEnough(c + 1);
    if c + 1 < TOP_BIT { NextPower(c, Grown(c + 1)); }
  }

  /// The capacity after `n` elements have been appended to an array without memory, and how many moves of elements from
  /// one memory to another that took.
  function Appended(n: nat): (nat, nat) {
    if n == 0 then (0, 0)
    else
      var (capacity, moves) := Appended(n - 1);
      if n <= capacity then (capacity, moves) else (Grown(n), moves + n - 1)
  }

  lemma {:induction false} CapacityAfter(n: nat)
    requires 0 < n < TOP_BIT
    ensures IsPowerOfTwo(Appended(n).0) && n <= Appended(n).0 <= TOP_BIT && Appended(n).1 + 2 <= Appended(n).0 <= 2 * n
  {
    if n == 1 {
      assert Appended(0) == (0, 0) && BitWidth(1) == 1 && Grown(1) == Pow2(1) == 2;
    } else {
      var c := Appended(n - 1).0;
      CapacityAfter(n - 1);
      if n > c {
        GrownIsEnough(n);
        CapacityDoubles(c);
        AtMostTopBit(Grown(n));
      }
    }
  }

  lemma AtMostTopBit(x: nat)
    requires IsPowerOfTwo(x) && x < 2 * TOP_BIT
    ensures x <= TOP_BIT
  {
    assert Pow2(63) == TOP_BIT by { WordSizes(); }
    if x > TOP_BIT { NextPower(TOP_BIT, x); }
  }

  /// Appending takes constant time on average: fewer than two moves of elements per append.
  lemma AppendsAreLinear(n: nat)
    requires 0 < n < TOP_BIT
    ensures Appended(n).0 >= n && Appended(n).1 < 2 * n
  {
    CapacityAfter(n);
  }

  // ----- what the operations do to the sequence of elements

  function Spliced<T>(s: seq<T>, at: nat, add: seq<T>): seq<T>
    requires at <= |s|
  {
    s[..at] + add + s[at..]
  }

  /// A new element is constructed from a given value, or by copying or moving from an element of the array itself.
  datatype Argument<V> = Given(value: V) | Own(index: nat) | Taken(index: nat)

  /// What is constructed behind the elements when they are moved to new memory.
  datatype Initializer<V> = Nothing | Blanks | Single(arg: Argument<V>)

  ghost predicate InRange<V>(arg: Argument<V>, size: nat) { !arg.Given? ==> arg.index < size }

  /// The element that the argument stands for, and what constructing from it leaves of the others.
  function Denoted<V>(s: seq<Slot<V>>, arg: Argument<V>): Slot<V>
    requires InRange(arg, |s|)
  {
    if arg.Given? then Live(arg.value) else s[arg.index]
  }

  function Remaining<V>(s: seq<Slot<V>>, arg: Argument<V>): seq<Slot<V>>
    requires InRange(arg, |s|)
  {
    if arg.Taken? then s[arg.index := Moved] else s
  }

  /// `emplace_back` and `push_back`. On reallocation, the argument is read after all elements have been moved away.
  function Pushed<V>(s: seq<Slot<V>>, capacity: nat, arg: Argument<V>): seq<Slot<V>>
    requires InRange(arg, |s|)
  {
    if |s| + 1 <= capacity then Remaining(s, arg) + [Denoted(s, arg)]
    else s + [if arg.Given? then Live(arg.value) else Moved]
  }

  /// `erase(first, last)`. With an empty range, all elements that follow are moved onto themselves.
  function Erased<V>(s: seq<Slot<V>>, first: nat, last: nat): seq<Slot<V>>
    requires first <= last <= |s|
  {
    s[..first] + if first < last then s[last..] else Repeat(Moved, |s| - first)
  }

  /// `insert_any(pos, insSize, padEnd)`. An empty insertion in place moves all elements that follow onto themselves.
  function InsertedAny<V>(s: seq<Slot<V>>, capacity: nat, blank: V, pos: nat, insSize: nat, padEnd: nat): seq<Slot<V>>
    requires pos <= |s|
  {
    var tail := if insSize == 0 && |s| + padEnd <= capacity then Repeat(Moved, |s| - pos) else s[pos..];
    s[..pos] + Repeat(Live(blank), insSize) + tail + Repeat(Live(blank), padEnd)
  }

  lemma InsertedAnyIs<V>(s: seq<Slot<V>>, capacity: nat, blank: V, pos: nat, insSize: nat, padEnd: nat, r: seq<Slot<V>>)
    requires pos <= |s| && |r| == |s| + insSize + padEnd
    requires forall k :: 0 <= k < pos ==> r[k] == s[k]
    requires forall k :: pos <= k < pos + insSize ==> r[k] == Live(blank)
    requires forall k :: pos + insSize <= k < |s| + insSize ==>
      r[k] == if insSize == 0 && |s| + padEnd <= capacity then Moved else s[k - insSize]
    requires forall k :: |s| + insSize <= k < |r| ==> r[k] == Live(blank)
    ensures r == InsertedAny(s, capacity, blank, pos, insSize, padEnd)
  {
  }

  lemma ErasedIs<V>(s: seq<Slot<V>>, first: nat, last: nat, r: seq<Slot<V>>)
    requires first <= last <= |s| && |r| == |s| - (last - first)
    requires forall k :: 0 <= k < first ==> r[k] == s[k]
    requires forall k :: first <= k < |r| ==> r[k] == if first < last then s[k + (last - first)] else Moved
    ensures r == Erased(s, first, last)
  {
  }

  ghost predicate AllLive<V>(s: seq<Slot<V>>) { forall i :: 0 <= i < |s| ==> s[i].Live? }

  // ----- the class

  class DynamicArray<V> {
    var slots: array<Slot<V>>
    var dataEnd: nat
    const blank: V

    ghost predicate Valid()
      reads this, slots
    {
      && dataEnd <= slots.Length <= SIZE_MAX
      && (forall k :: 0 <= k < dataEnd ==> !slots[k].Raw?)
      && (forall k :: dataEnd <= k < slots.Length ==> slots[k].Raw?)
    }

    ghost function Items(): seq<Slot<V>>
      requires dataEnd <= slots.Length
      reads this, slots
    {
      slots[..dataEnd]
    }

    /// An array of `size` elements that the initialization policy creates as `blank`.
    constructor (size: nat, blank: V)
      requires size <= SIZE_MAX
      ensures Valid() && fresh(slots) && slots.Length == size && this.blank == blank
      ensures Items() == Repeat(Live(blank), size)
    {
      var a := Allocate(size);
      Initialize(a, 0, size, blank);
      this.blank := blank;
      slots, dataEnd := a, size;
    }

    /// `allocation_expand`: the elements are moved to new memory, where `init` then constructs, and destroyed.
    method AllocationExpand(newSize: nat, init: Initializer<V>)
      requires Valid() && slots.Length < newSize <= SIZE_MAX
      requires init.Single? ==> newSize == dataEnd + 1 && InRange(init.arg, dataEnd)
      modifies this`slots, slots
      ensures fresh(slots) && slots.Length == Grown(newSize) && newSize <= slots.Length <= SIZE_MAX
      ensures forall k :: 0 <= k < slots.Length ==>
        slots[k] == if k < dataEnd then old(slots[k]) else if k < newSize then Initial(init) else Raw
    {
      GrownIsEnough(newSize);
      var next := Allocate(Grown(newSize));
      MoveInto(next);
      Initializes(next, newSize, init);
      Destroy(slots, 0, dataEnd);
      Deallocate(slots);
      slots := next;
    }

    method MoveInto(next: array<Slot<V>>)
      requires Valid() && next != slots && dataEnd <= next.Length
      requires forall k :: 0 <= k < next.Length ==> next[k].Raw?
      modifies slots, next
      ensures forall k :: 0 <= k < slots.Length ==> slots[k] == if k < dataEnd then Moved else Raw
      ensures forall k :: 0 <= k < next.Length ==> next[k] == if k < dataEnd then old(slots[k]) else Raw
    {
      UninitializedMove(slots, 0, dataEnd, next, 0);
    }

    method Initializes(next: array<Slot<V>>, newSize: nat, init: Initializer<V>)
      requires next != slots && dataEnd <= newSize <= next.Length && dataEnd <= slots.Length
      requires forall k :: dataEnd <= k < newSize ==> next[k].Raw?
      requires init.Single? ==> newSize == dataEnd + 1 && InRange(init.arg, dataEnd)
      requires forall k :: 0 <= k < dataEnd ==> slots[k].Moved?
      modifies next, slots
      ensures forall k :: 0 <= k < slots.Length ==> slots[k] == old(slots[k])
      ensures forall k :: 0 <= k < next.Length ==>
        next[k] == if dataEnd <= k < newSize then Initial(init) else old(next[k])
    {
      match init {
        case Nothing =>
        case Blanks => Initialize(next, dataEnd, newSize, blank);
        case Single(Given(v)) => ConstructAt(next, dataEnd, Live(v));
        case Single(Own(i)) => ConstructAt(next, dataEnd, slots[i]);
        case Single(Taken(i)) =>
          var x := MoveFrom(slots, i);
          ConstructAt(next, dataEnd, x);
      }
    }

    ghost function Initial(init: Initializer<V>): Slot<V> {
      match init
      case Nothing => Raw
      case Blanks => Live(blank)
      case Single(Given(v)) => Live(v)
      case Single(_) => Moved
    }

    method Expand(newSize: nat)
      requires Valid() && dataEnd < newSize <= SIZE_MAX
      modifies this, slots
      ensures Valid() && (slots == old(slots) || fresh(slots))
      ensures slots.Length == if newSize <= old(slots.Length) then old(slots.Length) else Grown(newSize)
      ensures Items() == old(Items()) + Repeat(Live(blank), newSize - old(dataEnd))
    {
      if newSize <= slots.Length {
        Initialize(slots, dataEnd, newSize, blank);
      } else {
        AllocationExpand(newSize, Blanks);
      }
      dataEnd := newSize;
    }

    method Shrink(newSize: nat)
      requires Valid() && newSize < dataEnd
      modifies this, slots
      ensures Valid() && slots == old(slots) && Items() == old(Items()[..newSize])
    {
      Destroy(slots, newSize, dataEnd);
      dataEnd := newSize;
    }

    method Resize(newSize: nat)
      requires Valid() && newSize <= SIZE_MAX
      modifies this, slots
      ensures Valid() && (slots == old(slots) || fresh(slots))
      ensures Items() == if newSize <= old(dataEnd) then old(Items())[..newSize]
                         else old(Items()) + Repeat(Live(blank), newSize - old(dataEnd))
    {
      if newSize < dataEnd { Shrink(newSize); }
      if newSize > dataEnd { Expand(newSize); }
    }

    method Reserve(newAlloc: nat)
      requires Valid() && newAlloc <= SIZE_MAX
      modifies this, slots
      ensures Valid() && (slots == old(slots) || fresh(slots))
      ensures Items() == old(Items())
      ensures slots.Length == if newAlloc <= old(slots.Length) then old(slots.Length) else Grown(newAlloc)
    {
      if newAlloc > slots.Length { AllocationExpand(newAlloc, Nothing); }
    }

    /// `emplace_back` and both forms of `push_back`
    method EmplaceBack(arg: Argument<V>)
      requires Valid() && dataEnd < SIZE_MAX && InRange(arg, dataEnd)
      modifies this, slots
      ensures Valid() && (slots == old(slots) || fresh(slots))
      ensures slots.Length == if old(dataEnd) < old(slots.Length) then old(slots.Length) else Grown(old(dataEnd) + 1)
      ensures Items() == old(Pushed(Items(), slots.Length, arg))
    {
      if dataEnd + 1 <= slots.Length {
        ConstructLast(arg);
      } else {
        AllocationExpand(dataEnd + 1, Single(arg));
      }
      dataEnd := dataEnd + 1;
    }

    /// The new element in the spare memory.
    method ConstructLast(arg: Argument<V>)
      requires Valid() && dataEnd < slots.Length && InRange(arg, dataEnd)
      modifies slots
      ensures slots[..dataEnd] == old(Remaining(Items(), arg)) && slots[dataEnd] == old(Denoted(Items(), arg))
      ensures forall k :: dataEnd < k < slots.Length ==> slots[k] == old(slots[k])
    {
      match arg {
        case Given(v) => ConstructAt(slots, dataEnd, Live(v));
        case Own(i) => ConstructAt(slots, dataEnd, slots[i]);
        case Taken(i) =>
          var x := MoveFrom(slots, i);
          ConstructAt(slots, dataEnd, x);
      }
    }

    method PopBack()
      requires Valid() && dataEnd > 0
      modifies this, slots
      ensures Valid() && slots == old(slots) && Items() == old(Items()[..dataEnd - 1])
    {
      dataEnd := dataEnd - 1;
      DestroyAt(slots, dataEnd);
    }

    /// `erase(pos)`
    method EraseAt(pos: nat) returns (next: nat)
      requires Valid() && pos < dataEnd
      modifies this, slots
      ensures Valid() && slots == old(slots) && next == pos
      ensures Items() == old(Items()[..pos] + Items()[pos + 1..])
    {
      ghost var s := Items();
      MoveForward(slots, pos + 1, dataEnd, pos);
      dataEnd := dataEnd - 1;
      DestroyAt(slots, dataEnd);
      ErasedIs(s, pos, pos + 1, Items());
      next := pos;
    }

    /// `erase(first, last)`
    method Erase(first: nat, last: nat) returns (next: nat)
      requires Valid() && first <= last <= dataEnd
      modifies this, slots
      ensures Valid() && slots == old(slots) && next == first
      ensures Items() == old(Erased(Items(), first, last))
    {
      ghost var s := Items();
      MoveForward(slots, last, dataEnd, first);
      var newEnd := first + (dataEnd - last);
      Destroy(slots, newEnd, dataEnd);
      dataEnd := newEnd;
      ErasedIs(s, first, last, Items());
      next := first;
    }

    method InsertAny(pos: nat, insSize: nat, padEnd: nat) returns (at: nat)
      requires Valid() && pos <= dataEnd && dataEnd + insSize + padEnd <= SIZE_MAX
      modifies this, slots
      ensures Valid() && (slots == old(slots) || fresh(slots)) && at == pos
      ensures slots.Length == if old(dataEnd) + insSize + padEnd <= old(slots.Length) then old(slots.Length)
                              else Grown(old(dataEnd) + insSize + padEnd)
      ensures Items() == old(InsertedAny(Items(), slots.Length, blank, pos, insSize, padEnd))
    {
      if dataEnd + insSize + padEnd <= slots.Length {
        InsertAnySpare(pos, insSize, padEnd);
      } else {
        InsertAnyMoving(pos, insSize, padEnd);
      }
      at := pos;
    }

    method InsertAnySpare(pos: nat, insSize: nat, padEnd: nat)
      requires Valid() && pos <= dataEnd && dataEnd + insSize + padEnd <= slots.Length
      modifies this, slots
      ensures Valid() && slots == old(slots)
      ensures Items() == old(InsertedAny(Items(), slots.Length, blank, pos, insSize, padEnd))
    {
      ghost var s := Items();
      InsertAnyInPlace(pos, insSize, padEnd);
      InsertedAnyIs(s, slots.Length, blank, pos, insSize, padEnd, Items());
    }

    method InsertAnyMoving(pos: nat, insSize: nat, padEnd: nat)
      requires Valid() && pos <= dataEnd && slots.Length < dataEnd + insSize + padEnd <= SIZE_MAX
      modifies this, slots
      ensures Valid() && fresh(slots) && slots.Length == Grown(old(dataEnd) + insSize + padEnd)
      ensures Items() == old(InsertedAny(Items(), slots.Length, blank, pos, insSize, padEnd))
    {
      ghost var s, capacity := Items(), slots.Length;
      InsertAnyReallocating(pos, insSize, padEnd);
      InsertedAnyIs(s, capacity, blank, pos, insSize, padEnd, Items());
    }

    method InsertAnyInPlace(pos: nat, insSize: nat, padEnd: nat)
      requires Valid() && pos <= dataEnd && dataEnd + insSize + padEnd <= slots.Length
      modifies this, slots
      ensures slots == old(slots) && dataEnd == old(dataEnd) + insSize + padEnd
      ensures forall k :: 0 <= k < slots.Length ==>
        slots[k] == if k < pos then old(slots[k])
                    else if k < pos + insSize then Live(blank)
                    else if k < old(dataEnd) + insSize then if insSize == 0 then Moved else old(slots[k - insSize])
                    else if k < dataEnd then Live(blank)
                    else Raw
    {
      OpenGap(pos, insSize);
      dataEnd := dataEnd + insSize + padEnd;
      Initialize(slots, pos, pos + insSize, blank);
      Initialize(slots, dataEnd - padEnd, dataEnd, blank);
    }

    /// Elements that end up beyond the old end are constructed there, the others are assigned, and what is left
    /// behind in the gap is destroyed.
    method OpenGap(pos: nat, insSize: nat)
      requires Valid() && pos <= dataEnd && dataEnd + insSize <= slots.Length
      modifies slots
      ensures forall k :: 0 <= k < slots.Length ==>
        slots[k] == if k < pos then old(slots[k])
                    else if k < pos + insSize then Raw
                    else if k < dataEnd + insSize then if insSize == 0 then Moved else old(slots[k - insSize])
                    else Raw
    {
      var movedSize := if dataEnd - pos < insSize then dataEnd - pos else insSize;
      var movedBegin := dataEnd - movedSize;
      ghost var s := slots[..];
      UninitializedMoveWithin(slots, movedBegin, dataEnd, movedBegin + insSize);
      assert forall k :: 0 <= k < slots.Length ==>
        slots[k] == if movedBegin + insSize <= k < dataEnd + insSize then s[k - insSize]
                    else if movedBegin <= k < dataEnd then Moved
                    else s[k];
      MoveBackward(slots, pos, movedBegin, movedBegin + insSize);
      assert forall k :: 0 <= k < slots.Length ==>
        slots[k] == if insSize > 0 && pos + insSize <= k < dataEnd + insSize then s[k - insSize]
                    else if pos <= k < dataEnd then Moved
                    else s[k];
      Destroy(slots, pos, pos + movedSize);
    }

    method InsertAnyReallocating(pos: nat, insSize: nat, padEnd: nat)
      requires Valid() && pos <= dataEnd && slots.Length < dataEnd + insSize + padEnd <= SIZE_MAX
      modifies this, slots
      ensures fresh(slots) && dataEnd == old(dataEnd) + insSize + padEnd <= slots.Length <= SIZE_MAX
      ensures slots.Length == Grown(dataEnd)
      ensures forall k :: 0 <= k < slots.Length ==>
        slots[k] == if k < pos then old(slots[k])
                    else if k < pos + insSize then Live(blank)
                    else if k < old(dataEnd) + insSize then old(slots[k - insSize])
                    else if k < dataEnd then Live(blank)
                    else Raw
    {
      var oldSize := dataEnd;
      var newSize := oldSize + insSize + padEnd;
      GrownIsEnough(newSize);
      var next := Allocate(Grown(newSize));
      MoveApart(next, pos, insSize);
      Initialize(next, oldSize + insSize, newSize, blank);
      Destroy(slots, 0, dataEnd);
      Deallocate(slots);
      slots := next;
      dataEnd := newSize;
    }

    /// The elements are moved to new memory, with initialized ones between them.
    method MoveApart(next: array<Slot<V>>, pos: nat, insSize: nat)
      requires Valid() && next != slots && pos <= dataEnd && dataEnd + insSize <= next.Length
      requires forall k :: 0 <= k < next.Length ==> next[k].Raw?
      modifies slots, next
      ensures forall k :: 0 <= k < slots.Length ==> slots[k] == if k < dataEnd then Moved else Raw
      ensures forall k :: 0 <= k < next.Length ==>
        next[k] == if k < pos then old(slots[k])
                   else if k < pos + insSize then Live(blank)
                   else if k < dataEnd + insSize then old(slots[k - insSize])
                   else Raw
    {
      UninitializedMove(slots, 0, pos, next, 0);
      Initialize(next, pos, pos + insSize, blank);
      UninitializedMove(slots, pos, dataEnd, next, pos + insSize);
    }

    /// `insert(pos, value)`
    method Insert(pos: nat, value: V) returns (at: nat)
      requires Valid() && pos <= dataEnd < SIZE_MAX
      modifies this, slots
      ensures Valid() && (slots == old(slots) || fresh(slots)) && at == pos
      ensures slots.Length == if old(dataEnd) < old(slots.Length) then old(slots.Length) else Grown(old(dataEnd) + 1)
      ensures Items() == old(Spliced(Items(), pos, [Live(value)]))
    {
      ghost var s := Items();
      if dataEnd + 1 <= slots.Length {
        InsertInPlace(pos, value);
      } else {
        InsertReallocating(pos, value);
      }
      at := pos;
      assert Items() == Spliced(s, pos, [Live(value)]);
    }

    method InsertInPlace(pos: nat, value: V)
      requires Valid() && pos <= dataEnd < slots.Length
      modifies this, slots
      ensures slots == old(slots) && dataEnd == old(dataEnd) + 1
      ensures forall k :: 0 <= k < slots.Length ==>
        slots[k] == if pos < k < dataEnd then old(slots[k - 1]) else if k == pos then Live(value) else old(slots[k])
    {
      if pos == dataEnd {
        ConstructAt(slots, dataEnd, Live(value));
        dataEnd := dataEnd + 1;
        return;
      }
      var last := MoveFrom(slots, dataEnd - 1);
      ConstructAt(slots, dataEnd, last);
      MoveBackward(slots, pos, dataEnd - 1, dataEnd);
      dataEnd := dataEnd + 1;
      Assign(slots, pos, Live(value));
    }

    method InsertReallocating(pos: nat, value: V)
      requires Valid() && pos <= dataEnd == slots.Length < SIZE_MAX
      modifies this, slots
      ensures fresh(slots) && dataEnd == old(dataEnd) + 1 <= slots.Length <= SIZE_MAX
      ensures slots.Length == Grown(dataEnd)
      ensures forall k :: 0 <= k < slots.Length ==>
        slots[k] == if k < pos then old(slots[k])
                    else if k == pos then Live(value)
                    else if k < dataEnd then old(slots[k - 1])
                    else Raw
    {
      var newSize := dataEnd + 1;
      GrownIsEnough(newSize);
      var next := Allocate(Grown(newSize));
      MoveAround(next, pos);
      ConstructAt(next, pos, Live(value));
      Destroy(slots, 0, dataEnd);
      Deallocate(slots);
      slots := next;
      dataEnd := newSize;
    }

    /// The elements are moved to new memory, with a gap of one between them.
    method MoveAround(next: array<Slot<V>>, pos: nat)
      requires Valid() && next != slots && pos <= dataEnd < next.Length
      requires forall k :: 0 <= k < next.Length ==> next[k].Raw?
      modifies slots, next
      ensures forall k :: 0 <= k < slots.Length ==> slots[k] == if k < dataEnd then Moved else Raw
      ensures forall k :: 0 <= k < next.Length ==>
        next[k] == if k < pos then old(slots[k]) else if pos < k <= dataEnd then old(slots[k - 1]) else Raw
    {
      UninitializedMove(slots, 0, pos, next, 0);
      UninitializedMove(slots, pos, dataEnd, next, pos + 1);
    }

    /// `clear`
    method Clear()
      requires Valid()
      modifies this, slots
      ensures Valid() && slots == old(slots) && Items() == []
    {
      Destroy(slots, 0, dataEnd);
      dataEnd := 0;
    }

    /// `clear_memory`, which is also what the destructor does
    method ClearMemory()
      requires Valid()
      modifies this, slots
      ensures Valid() && fresh(slots) && slots.Length == 0 && Items() == []
      ensures forall k :: 0 <= k < old(slots).Length ==> old(slots)[k].Raw?
    {
      Destroy(slots, 0, dataEnd);
      Deallocate(slots);
      slots := Allocate(0);
      dataEnd := 0;
    }
  }

  // ----- when the operations are the sequence operations they stand for

  /// Appending an element of the array itself, copied or moved from, is right only while there is spare capacity.
  lemma PushIsAppendIff<V>(s: seq<Slot<V>>, capacity: nat, arg: Argument<V>)
    requires AllLive(s) && InRange(arg, |s|)
    ensures Pushed(s, capacity, arg) == Remaining(s, arg) + [Denoted(s, arg)] <==> arg.Given? || |s| < capacity
  {
    var p, q := Pushed(s, capacity, arg), Remaining(s, arg) + [Denoted(s, arg)];
    assert |s| >= capacity && !arg.Given? ==> p[|s|] == Moved && q[|s|].Live?;
  }

  /// Appending the first element of a full array of one appends something else.
  lemma PushFails()
    ensures Pushed([Live(7)], 1, Own(0)) == [Live(7), Moved] != [Live(7), Live(7)]
    ensures Pushed([Live(7)], 1, Taken(0)) == [Live(7), Moved] != [Moved, Live(7)]
  {
    assert [Live(7), Moved][1] == Moved;
  }

  /// An empty range is a no-op only at the end, although the comment on `erase` promises it everywhere.
  lemma EraseIsRemovalIff<V>(s: seq<Slot<V>>, first: nat, last: nat)
    requires AllLive(s) && first <= last <= |s|
    ensures Erased(s, first, last) == s[..first] + s[last..] <==> first < last || first == |s|
  {
    if first == last < |s| {
      assert Erased(s, first, last)[first] == Moved && (s[..first] + s[last..])[first].Live?;
    }
  }

  /// Erasing nothing before the only element loses its value.
  lemma EraseFails()
    ensures Erased([Live(7)], 0, 0) == [Moved] != [Live(7)]
  {
    assert [Live(7)][..0] == [];
    assert Erased([Live(7)], 0, 0)[0] == Moved;
  }

  lemma InsertAnyIsInsertionIff<V>(s: seq<Slot<V>>, capacity: nat, blank: V, pos: nat, insSize: nat, padEnd: nat)
    requires AllLive(s) && pos <= |s|
    ensures InsertedAny(s, capacity, blank, pos, insSize, padEnd) ==
            Spliced(s, pos, Repeat(Live(blank), insSize)) + Repeat(Live(blank), padEnd)
            <==> insSize > 0 || pos == |s| || |s| + padEnd > capacity
  {
    var got := InsertedAny(s, capacity, blank, pos, insSize, padEnd);
    var want := Spliced(s, pos, Repeat(Live(blank), insSize)) + Repeat(Live(blank), padEnd);
    if insSize == 0 && pos < |s| && |s| + padEnd <= capacity {
      assert got[pos] == Moved && want[pos].Live?;
    }
  }

  /// So does inserting nothing before it.
  lemma InsertAnyFails()
    ensures InsertedAny([Live(7)], 1, 0, 0, 0, 0) == [Moved] != [Live(7)]
  {
    assert InsertedAny([Live(7)], 1, 0, 0, 0, 0)[0] == Moved;
  }
}
