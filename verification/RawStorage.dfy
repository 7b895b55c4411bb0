/**
 Raw storage and the standard algorithms over it, as the dynamic array uses them
 (include/thesauros/containers/array/dynamic.hpp, include/thesauros/containers/array/typed-chunk.hpp).

 A slot of allocated memory is raw, holds a live value, or holds an element that has been moved from, whose value is
 unspecified. The preconditions of the primitives are the lifetime rules of C++: only raw memory is constructed in,
 raw memory is never assigned to, moved from or destroyed, and memory is deallocated only when all of it is raw.
 */
module RawStorage {
  datatype Slot<V> = Raw | Live(value: V) | Moved

  method Allocate<V>(n: nat) returns (a: array<Slot<V>>)
    ensures fresh(a) && a.Length == n && forall k :: 0 <= k < n ==> a[k].Raw?
  {
    a := new Slot<V>[n];
    for i := 0 to n
      invariant forall k :: 0 <= k < i ==> a[k].Raw?
    {
      a[i] := Raw;
    }
  }

  method Deallocate<V>(a: array<Slot<V>>)
    requires forall k :: 0 <= k < a.Length ==> a[k].Raw?
  {
  }

  /// `std::construct_at`, placement `new`
  method ConstructAt<V>(a: array<Slot<V>>, i: nat, x: Slot<V>)
    requires i < a.Length && a[i].Raw? && !x.Raw?
    modifies a
    ensures a[..] == old(a[..])[i := x]
  {
    a[i] := x;
  }

  /// `std::destroy_at`
  method DestroyAt<V>(a: array<Slot<V>>, i: nat)
    requires i < a.Length && !a[i].Raw?
    modifies a
    ensures forall k :: 0 <= k < a.Length ==> a[k] == if k == i then Raw else old(a[k])
  {
    a[i] := Raw;
  }

  /// Assignment of a new value
  method Assign<V>(a: array<Slot<V>>, i: nat, x: Slot<V>)
    requires i < a.Length && !a[i].Raw? && !x.Raw?
    modifies a
    ensures a[..] == old(a[..])[i := x]
  {
    a[i] := x;
  }

  /// The element that moving from slot `i` yields.
  method MoveFrom<V>(a: array<Slot<V>>, i: nat) returns (x: Slot<V>)
    requires i < a.Length && !a[i].Raw?
    modifies a
    ensures x == old(a[i]) && a[..] == old(a[..])[i := Moved]
  {
    x := a[i];
    a[i] := Moved;
  }

  /// Move assignment between elements. An element moved onto itself is left with an unspecified value.
  method MoveAssign<V>(a: array<Slot<V>>, d: nat, s: nat)
    requires d < a.Length && s < a.Length && !a[d].Raw? && !a[s].Raw?
    modifies a
    ensures a[..] == if d == s then old(a[..])[d := Moved] else old(a[..])[d := old(a[s])][s := Moved]
  {
    if d == s {
      a[d] := Moved;
    } else {
      a[d] := a[s];
      a[s] := Moved;
    }
  }

  /// `InitPolicy::initialize`
  method Initialize<V>(a: array<Slot<V>>, first: nat, last: nat, blank: V)
    requires first <= last <= a.Length && forall k :: first <= k < last ==> a[k].Raw?
    modifies a
    ensures forall k :: 0 <= k < a.Length ==> a[k] == if first <= k < last then Live(blank) else old(a[k])
  {
    var i := first;
    while i < last
      invariant first <= i <= last
      invariant forall k :: 0 <= k < a.Length ==> a[k] == if first <= k < i then Live(blank) else old(a[k])
    {
      ConstructAt(a, i, Live(blank));
      i := i + 1;
    }
  }

  /// `std::destroy`
  method Destroy<V>(a: array<Slot<V>>, first: nat, last: nat)
    requires first <= last <= a.Length && forall k :: first <= k < last ==> !a[k].Raw?
    modifies a
    ensures forall k :: 0 <= k < a.Length ==> a[k] == if first <= k < last then Raw else old(a[k])
  {
    var i := first;
    while i < last
      invariant first <= i <= last
      invariant forall k :: 0 <= k < a.Length ==> a[k] == if first <= k < i then Raw else old(a[k])
    {
      DestroyAt(a, i);
      i := i + 1;
    }
  }

  /// `std::move(first, last, dest)` towards the front
  method MoveForward<V>(a: array<Slot<V>>, first: nat, last: nat, dest: nat)
    requires dest <= first <= last <= a.Length && forall k :: dest <= k < last ==> !a[k].Raw?
    modifies a
    ensures forall k :: 0 <= k < a.Length ==>
      a[k] == if dest < first && dest <= k < dest + (last - first) then old(a[k + (first - dest)])
              else if first <= k < last then Moved
              else old(a[k])
  {
    var i, d := first, dest;
    while i < last
      invariant first <= i <= last && i - first == d - dest
      invariant forall k :: 0 <= k < a.Length ==>
        a[k] == if dest < first && dest <= k < d then old(a[k + (first - dest)])
                else if first <= k < i then Moved
                else old(a[k])
    {
      MoveAssign(a, d, i);
      i, d := i + 1, d + 1;
    }
  }

  /// `std::move_backward(first, last, destEnd)` towards the end
  method MoveBackward<V>(a: array<Slot<V>>, first: nat, last: nat, destEnd: nat)
    requires first <= last <= destEnd <= a.Length
    requires forall k :: first <= k < last || first + (destEnd - last) <= k < destEnd ==> !a[k].Raw?
    modifies a
    ensures forall k :: 0 <= k < a.Length ==>
      a[k] == if last < destEnd && first + (destEnd - last) <= k < destEnd then old(a[k - (destEnd - last)])
              else if first <= k < last then Moved
              else old(a[k])
  {
    var i, d := last, destEnd;
    while i > first
      invariant first <= i <= last && d - i == destEnd - last
      invariant forall k :: 0 <= k < a.Length ==>
        a[k] == if last < destEnd && d <= k < destEnd then old(a[k - (destEnd - last)])
                else if i <= k < last then Moved
                else old(a[k])
    {
      i, d := i - 1, d - 1;
      MoveAssign(a, d, i);
    }
  }

  /// `std::uninitialized_move` to other slots of the same memory
  method UninitializedMoveWithin<V>(a: array<Slot<V>>, first: nat, last: nat, dest: nat)
    requires first <= last <= dest && dest + (last - first) <= a.Length
    requires forall k :: first <= k < last ==> !a[k].Raw?
    requires forall k :: dest <= k < dest + (last - first) ==> a[k].Raw?
    modifies a
    ensures forall k :: 0 <= k < a.Length ==>
      a[k] == if dest <= k < dest + (last - first) then old(a[k - (dest - first)])
              else if first <= k < last then Moved
              else old(a[k])
  {
    var i, d := first, dest;
    while i < last
      invariant first <= i <= last && i - first == d - dest
      invariant forall k :: 0 <= k < a.Length ==>
        a[k] == if dest <= k < d then old(a[k - (dest - first)])
                else if first <= k < i then Moved
                else old(a[k])
    {
      var x := MoveFrom(a, i);
      ConstructAt(a, d, x);
      i, d := i + 1, d + 1;
    }
  }

  /// `std::uninitialized_move` to newly allocated memory
  method UninitializedMove<V>(a: array<Slot<V>>, first: nat, last: nat, b: array<Slot<V>>, dest: nat)
    requires a != b && first <= last <= a.Length && dest + (last - first) <= b.Length
    requires forall k :: first <= k < last ==> !a[k].Raw?
    requires forall k :: dest <= k < dest + (last - first) ==> b[k].Raw?
    modifies a, b
    ensures forall k :: 0 <= k < a.Length ==> a[k] == if first <= k < last then Moved else old(a[k])
    ensures forall k :: 0 <= k < b.Length ==>
      b[k] == if dest <= k < dest + (last - first) then old(a[k - dest + first]) else old(b[k])
  {
    var i, d := first, dest;
    while i < last
      invariant first <= i <= last && i - first == d - dest
      invariant forall k :: 0 <= k < a.Length ==> a[k] == if first <= k < i then Moved else old(a[k])
      invariant forall k :: 0 <= k < b.Length ==>
        b[k] == if dest <= k < d then old(a[k - dest + first]) else old(b[k])
    {
      var x := MoveFrom(a, i);
      ConstructAt(b, d, x);
      i, d := i + 1, d + 1;
    }
  }
}
