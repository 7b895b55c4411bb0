/**
 The array of packed `k`-byte integers (include/thesauros/containers/multi-byte-integers.hpp, without optional
 elements). Elements are read, and mostly written, through whole words, which overlap the following elements and the
 padding at the end.
 */
module MultiByteIntegers {
  import opened Arith
  import opened Bits
  import opened PackedBytes
  import opened Sequences

  /// `byte_size`
  function ByteSize(n: nat, k: nat): nat { if n == 0 then 0 else ByteSize(n - 1, k) + k }

  lemma {:induction false} ByteSizeIs(n: nat, k: nat)
    ensures ByteSize(n, k) == n * k
  {
    if n > 0 { ByteSizeIs(n - 1, k); }
  }

  lemma ElementsIn(n: nat, k: nat)
    requires k > 0
    ensures ByteSize(n, k) / k == n
  {
    ByteSizeIs(n, k);
    DivModUnique(ByteSize(n, k), k, n, 0);
  }

  lemma ErasedSizes(n: nat, first: nat, last: nat, k: nat)
    requires k > 0 && first <= last <= n
    ensures (ByteSize(last, k) - ByteSize(first, k)) / k == last - first
    ensures ByteSize(n - (last - first), k) == ByteSize(n, k) - (ByteSize(last, k) - ByteSize(first, k))
  {
    ByteSizeSum(first, last - first, k);
    ByteSizeSum(n - (last - first), last - first, k);
    ElementsIn(last - first, k);
  }

  lemma {:induction false} ByteSizeSum(a: nat, b: nat, k: nat)
    ensures ByteSize(a + b, k) == ByteSize(a, k) + ByteSize(b, k)
  {
    if b > 0 { ByteSizeSum(a, b - 1, k); }
  }

  lemma InsertedSizes(n: nat, ins: nat, pad: nat, k: nat)
    ensures ByteSize(n + ins + pad, k) == ByteSize(n, k) + ByteSize(ins, k) + ByteSize(pad, k)
  {
    ByteSizeSum(n, ins, k);
    ByteSizeSum(n + ins, pad, k);
  }

  /// A word stored at an element ends before the padding does.
  lemma RoomForWord(i: nat, n: nat, k: nat, m: nat, p: nat)
    requires i < n && m <= p
    ensures ByteSize(i + 1, k) == ByteSize(i, k) + k <= ByteSize(n, k)
    ensures p + ByteSize(i, k) + m <= ByteSize(n, k) + 2 * p
  {
    ByteSizeMonotone(i + 1, n, k);
  }

  lemma ByteSizeMonotone(a: nat, b: nat, k: nat)
    requires a <= b
    ensures ByteSize(a, k) <= ByteSize(b, k)
  {
    ByteSizeSum(a, b - a, k);
  }

  /// The integers packed in `s`.
  function Unpack(e: Endian, k: nat, s: seq<Byte>): seq<nat>
    requires k > 0
  {
    if |s| < k then [] else [ValueOf(e, s[..k])] + Unpack(e, k, s[k..])
  }

  lemma {:induction false} UnpackConcat(e: Endian, k: nat, n: nat, a: seq<Byte>, b: seq<Byte>)
    requires k > 0 && |a| == ByteSize(n, k)
    ensures Unpack(e, k, a + b) == Unpack(e, k, a) + Unpack(e, k, b)
  {
    if n == 0 {
      assert a + b == b;
    } else {
      UnpackConcat(e, k, n - 1, a[k..], b);
      assert (a + b)[..k] == a[..k] && (a + b)[k..] == a[k..] + b;
      Associative([ValueOf(e, a[..k])], Unpack(e, k, a[k..]), Unpack(e, k, b));
    }
  }

  lemma {:induction false} UnpackLength(e: Endian, k: nat, n: nat, s: seq<Byte>)
    requires k > 0 && |s| == ByteSize(n, k)
    ensures |Unpack(e, k, s)| == n
  {
    if n > 0 { UnpackLength(e, k, n - 1, s[k..]); }
  }

  /// The elements from position `i` on are packed in the bytes from `ByteSize(i, k)` on.
  lemma UnpackSplit(e: Endian, k: nat, n: nat, i: nat, s: seq<Byte>)
    requires k > 0 && |s| == ByteSize(n, k) && i <= n
    ensures ByteSize(i, k) <= |s| && |Unpack(e, k, s)| == n
    ensures Unpack(e, k, s)[..i] == Unpack(e, k, s[..ByteSize(i, k)])
    ensures Unpack(e, k, s)[i..] == Unpack(e, k, s[ByteSize(i, k)..])
  {
    var at := ByteSize(i, k);
    ByteSizeMonotone(i, n, k);
    UnpackLength(e, k, n, s);
    UnpackLength(e, k, i, s[..at]);
    UnpackConcat(e, k, i, s[..at], s[at..]);
    assert s == s[..at] + s[at..];
  }

  lemma UnpackOne(e: Endian, k: nat, s: seq<Byte>)
    requires k > 0 && |s| == k
    ensures Unpack(e, k, s) == [ValueOf(e, s)]
  {
    assert s[..k] == s && s[k..] == [];
  }

  lemma UnpackAt(e: Endian, k: nat, n: nat, i: nat, s: seq<Byte>)
    requires k > 0 && |s| == ByteSize(n, k) && i < n
    ensures ByteSize(i, k) + k <= |s| && |Unpack(e, k, s)| == n
    ensures Unpack(e, k, s)[i] == ValueOf(e, s[ByteSize(i, k)..ByteSize(i, k) + k])
  {
    var at := ByteSize(i, k);
    ByteSizeMonotone(i + 1, n, k);
    UnpackLength(e, k, n, s);
    var a, o, z := s[..at], s[at..at + k], s[at + k..];
    assert s == a + o + z;
    UnpackMiddle(e, k, i, a, o, z);
  }

  lemma UnpackMiddle(e: Endian, k: nat, i: nat, a: seq<Byte>, o: seq<Byte>, z: seq<Byte>)
    requires k > 0 && |a| == ByteSize(i, k) && |o| == k
    ensures i < |Unpack(e, k, a + o + z)| && Unpack(e, k, a + o + z)[i] == ValueOf(e, o)
  {
    UnpackThree(e, k, i, 1, a, o, z);
    UnpackOne(e, k, o);
    UnpackLength(e, k, i, a);
  }

  lemma {:induction false} UnpackSmall(e: Endian, k: nat, s: seq<Byte>)
    requires k > 0
    ensures forall i :: 0 <= i < |Unpack(e, k, s)| ==> Unpack(e, k, s)[i] < Pow256(k)
    decreases |s|
  {
    if |s| >= k {
      ValueIsSmall(e, s[..k]);
      UnpackSmall(e, k, s[k..]);
    }
  }

  lemma RepeatOnce(xs: seq<nat>, x: nat, n: nat)
    ensures xs + Repeat(x, n) + [x] == xs + Repeat(x, n + 1)
  {
  }

  /// Each element as the array keeps it, that is, cut off to its width.
  function Kept(k: nat, xs: seq<nat>): (r: seq<nat>)
    ensures |r| == |xs| && forall i :: 0 <= i < |xs| ==> r[i] == xs[i] % Pow256(k)
  {
    if |xs| == 0 then [] else Kept(k, xs[..|xs| - 1]) + [xs[|xs| - 1] % Pow256(k)]
  }

  // ----- memory

  /// `memcpy(data + at, w, |w|)`
  function Write(data: seq<Byte>, at: nat, w: seq<Byte>): (r: seq<Byte>)
    requires at + |w| <= |data|
    ensures |r| == |data|
  {
    data[..at] + w + data[at + |w|..]
  }

  /// Whatever newly allocated memory happens to hold.
  method Uninitialized(n: nat) returns (s: seq<Byte>)
    ensures |s| == n
  {
    s := [];
    while |s| < n
      invariant |s| <= n
    {
      s := s + [0];
    }
  }

  /// A whole word written behind the first `b` bytes appends its first `k` bytes to them, wherever the rest falls.
  lemma WriteAppends(data: seq<Byte>, p: nat, b: nat, w: seq<Byte>, k: nat)
    requires p + b + |w| <= |data| && k <= |w|
    ensures Write(data, p + b, w)[p..p + b + k] == data[p..p + b] + w[..k]
  {
    var r := Write(data, p + b, w);
    Cut(r, p, p + b, p + b + k);
    assert r[p + b..p + b + k] == w[..k];
    assert r[p..p + b] == data[p..p + b];
  }

  lemma WriteInside(data: seq<Byte>, p: nat, b: nat, at: nat, w: seq<Byte>)
    requires p + b <= |data| && at + |w| <= b
    ensures Write(data, p + at, w)[p..p + b] == data[p..p + b][..at] + w + data[p..p + b][at + |w|..]
  {
    var r := Write(data, p + at, w);
    Cut(r, p, p + at, p + at + |w|);
    Cut(r, p, p + at + |w|, p + b);
    assert r[p + at..p + at + |w|] == w;
    assert r[p..p + at] == data[p..p + at];
    assert r[p + at + |w|..p + b] == data[p + at + |w|..p + b];
    SliceOfSlice(data, p, p + b, 0, at);
    SliceOfSlice(data, p, p + b, at + |w|, b);
  }

  /// The `b` bytes behind `p` bytes of padding.
  function PayloadOf(data: seq<Byte>, p: nat, b: nat): (r: seq<Byte>)
    requires p + b <= |data|
    ensures |r| == b
  {
    data[p..p + b]
  }

  /// `u` inserted at position `at`
  function Opened(data: seq<Byte>, at: nat, u: seq<Byte>): (r: seq<Byte>)
    requires at <= |data|
    ensures |r| == |data| + |u|
  {
    data[..at] + u + data[at..]
  }

  /// New bytes inserted at position `b` of the `n` bytes behind the padding, and then behind all of them
  lemma GapsOpened(data: seq<Byte>, p: nat, n: nat, b: nat, u: seq<Byte>, v: seq<Byte>)
    requires p + n <= |data| && b <= n
    ensures var s := PayloadOf(data, p, n);
            PayloadOf(Opened(Opened(data, p + b, u), p + n + |u|, v), p, n + |u| + |v|) == s[..b] + u + s[b..] + v
  {
    GapOpened(data, p, n, b, u);
    var d := Opened(data, p + b, u);
    GapOpened(d, p, n + |u|, n + |u|, v);
    assert d[p..p + n + |u|][..n + |u|] == d[p..p + n + |u|] && d[p..p + n + |u|][n + |u|..] == [];
  }

  lemma GapOpened(data: seq<Byte>, p: nat, n: nat, b: nat, u: seq<Byte>)
    requires p + n <= |data| && b <= n
    ensures var s := data[p..p + n]; Opened(data, p + b, u)[p..p + n + |u|] == s[..b] + u + s[b..]
  {
    var r := Opened(data, p + b, u);
    Cut(r, p, p + b, p + b + |u|);
    Cut(r, p, p + b + |u|, p + n + |u|);
    OpenedParts(data, p, n, b, u);
    SliceOfSlice(data, p, p + n, 0, b);
    SliceOfSlice(data, p, p + n, b, n);
  }

  lemma OpenedParts(data: seq<Byte>, p: nat, n: nat, b: nat, u: seq<Byte>)
    requires p + n <= |data| && b <= n
    ensures var r := Opened(data, p + b, u);
            && r[p..p + b] == data[p..p + b] && r[p + b..p + b + |u|] == u
            && r[p + b + |u|..p + n + |u|] == data[p + b..p + n]
  {
    var r := Opened(data, p + b, u);
    ConcatSlices(data[..p + b], u, data[p + b..], n - b);
    SliceOfSlice(r, 0, p + b, p, p + b);
    SliceOfSlice(data, 0, p + b, p, p + b);
    SliceOfSlice(data, p + b, |data|, 0, n - b);
  }

  /// The `tail` bytes behind the `n` bytes at `at` moved down onto them, and as many bytes dropped at the end
  function Closed(data: seq<Byte>, at: nat, n: nat, tail: nat): (r: seq<Byte>)
    requires at + n + tail <= |data|
    ensures |r| == |data| - n
  {
    Write(data, at, data[at + n..at + n + tail])[..|data| - n]
  }

  /// The bytes from `l` on moved down to `f`, and as many bytes dropped at the end of the padding
  lemma GapClosed(data: seq<Byte>, p: nat, n: nat, f: nat, bytes: nat)
    requires p + n <= |data| && f + bytes <= n
    ensures var s := PayloadOf(data, p, n);
            PayloadOf(Closed(data, p + f, bytes, n - (f + bytes)), p, n - bytes) == s[..f] + s[f + bytes..]
  {
    var w := data[p + f + bytes..p + f + bytes + (n - (f + bytes))];
    var r := Write(data, p + f, w);
    SliceOfSlice(r, 0, |r| - bytes, p, p + n - bytes);
    WriteAppends(data, p, f, w, n - (f + bytes));
    assert w[..n - (f + bytes)] == w;
    SliceOfSlice(data, p, p + n, 0, f);
    SliceOfSlice(data, p, p + n, f + bytes, n);
  }

  /// The payload, which is what lies between `p` bytes of padding at either end, after the bytes behind its first `b`
  /// have become padding.
  lemma PayloadTruncated(data: seq<Byte>, p: nat, n: nat, b: nat)
    requires |data| == n + 2 * p && b <= n
    ensures PayloadOf(data[..b + 2 * p], p, b) == PayloadOf(data, p, n)[..b]
  {
    SliceOfSlice(data, 0, b + 2 * p, p, p + b);
    SliceOfSlice(data, p, p + n, 0, b);
  }

  lemma OnlyEmpty(n: nat, k: nat)
    requires k > 0 && ByteSize(n, k) == 0
    ensures n == 0
  {
  }

  // ----- the class

  class MultiByteIntegers {
    const e: Endian
    /// The bytes of an element, of a word, and of the padding at either end
    const k: nat
    const m: nat
    const p: nat
    var data: seq<Byte>
    var size: nat

    ghost predicate Valid()
      reads this
    {
      0 < k <= m <= p && |data| == ByteSize(size, k) + 2 * p
    }

    /// The bytes without the padding
    ghost function Payload(): (r: seq<Byte>)
      requires Valid()
      reads this
      ensures |r| == ByteSize(size, k)
    {
      PayloadOf(data, p, ByteSize(size, k))
    }

    ghost function Elems(): seq<nat>
      requires Valid()
      reads this
    {
      Unpack(e, k, Payload())
    }

    lemma ElemsAreInRange()
      requires Valid()
      ensures |Elems()| == size && forall i :: 0 <= i < size ==> Elems()[i] < Pow256(k)
    {
      UnpackLength(e, k, size, Payload());
      UnpackSmall(e, k, Payload());
    }

    constructor (e: Endian, k: nat, m: nat, p: nat, size: nat)
      requires 0 < k <= m <= p
      ensures Valid() && this.size == size
      ensures this.e == e && this.k == k && this.m == m && this.p == p
    {
      var s := Uninitialized(ByteSize(size, k) + 2 * p);
      this.e, this.k, this.m, this.p, this.size, this.data := e, k, m, p, size, s;
    }

    /// Element access for reading
    method Get(i: nat) returns (v: nat)
      requires Valid() && i < size
      ensures |Elems()| == size && v == Elems()[i]
    {
      var at := p + ByteSize(i, k);
      ByteSizeMonotone(i + 1, size, k);
      LoadIsElement(e, k, m, size, data, p, i);
      v := Load(e, k, m, data[at..at + m]);
    }

    /// Assignment to an element
    method Set(i: nat, v: nat)
      requires Valid() && i < size
      modifies this`data
      ensures Valid() && |old(Elems())| == size && Elems() == old(Elems())[i := v % Pow256(k)]
    {
      ghost var s := Payload();
      var at := ByteSize(i, k);
      ByteSizeMonotone(i + 1, size, k);
      var w := StoredBytes(e, k, m, v);
      StoredValue(e, k, m, v);
      WriteInside(data, p, ByteSize(size, k), at, w);
      data := Write(data, p + at, w);
      Overwritten(e, k, size, i, s, w);
    }

    method PushBack(v: nat)
      requires Valid()
      modifies this
      ensures Valid() && size == old(size) + 1 && Elems() == old(Elems()) + [v % Pow256(k)]
    {
      ghost var s := Payload();
      var b := ByteSize(size, k);
      var u := Uninitialized(k);
      data := data + u;
      size := size + 1;
      assert data[p..p + b] == s;
      WriteAppendsElement(e, k, m, size - 1, data, p, v);
      data := Write(data, p + b, FullBytes(e, k, m, v));
    }

    method PopBack()
      requires Valid() && size > 0
      modifies this
      ensures Valid() && size == old(size) - 1
      ensures |old(Elems())| == old(size) && Elems() == old(Elems())[..size]
    {
      Truncate(size - 1);
    }

    /// The byte array is shrunk to what `newSize` elements need; the bytes behind them become padding.
    method Truncate(newSize: nat)
      requires Valid() && newSize <= size
      modifies this
      ensures Valid() && size == newSize
      ensures |old(Elems())| == old(size) && Elems() == old(Elems())[..newSize]
    {
      ByteSizeMonotone(newSize, size, k);
      UnpackSplit(e, k, size, newSize, Payload());
      PayloadTruncated(data, p, ByteSize(size, k), ByteSize(newSize, k));
      data := data[..ByteSize(newSize, k) + 2 * p];
      size := newSize;
    }

    method Resize(newSize: nat, v: nat)
      requires Valid()
      modifies this
      ensures Valid() && size == newSize && |old(Elems())| == old(size)
      ensures Elems() == if newSize <= old(size) then old(Elems())[..newSize]
                         else old(Elems()) + Repeat(v % Pow256(k), newSize - old(size))
    {
      UnpackLength(e, k, size, Payload());
      if newSize < size { Truncate(newSize); } else if newSize > size { Grow(newSize, v); }
    }

    /// The new elements are stored in ascending order, so that each store repairs what the one before it wrote beyond
    /// its own element.
    method Grow(newSize: nat, v: nat)
      requires Valid() && size < newSize
      modifies this
      ensures Valid() && size == newSize
      ensures Elems() == old(Elems()) + Repeat(v % Pow256(k), newSize - old(size))
    {
      ghost var xs := Elems();
      ByteSizeMonotone(size, newSize, k);
      var u := Uninitialized(ByteSize(newSize, k) - ByteSize(size, k));
      var oldSize := size;
      Grows(e, k, p, size, data, u, v);
      data := data + u;
      size := newSize;
      StoreFrom(oldSize, v, xs);
    }

    method StoreFrom(oldSize: nat, v: nat, ghost xs: seq<nat>)
      requires Valid() && oldSize <= size && GrownBy(e, k, p, oldSize, data, xs, v, 0)
      modifies this`data
      ensures Valid() && GrownBy(e, k, p, size, data, xs, v, size - oldSize)
    {
      var i, dst := oldSize, p + ByteSize(oldSize, k);
      while i < size
        invariant oldSize <= i <= size && |data| == ByteSize(size, k) + 2 * p
        invariant dst == p + ByteSize(i, k) && GrownBy(e, k, p, i, data, xs, v, i - oldSize)
      {
        RoomForWord(i, size, k, m, p);
        StoresOneMore(e, k, m, p, i, data, xs, v, i - oldSize);
        data := Write(data, dst, FullBytes(e, k, m, v));
        i, dst := i + 1, dst + k;
      }
    }

    method Clear()
      requires Valid()
      modifies this
      ensures Valid() && size == 0 && Elems() == []
    {
      if size != 0 { Truncate(0); }
    }

    method Assign(count: nat, v: nat)
      requires Valid()
      modifies this
      ensures Valid() && size == count && Elems() == Repeat(v % Pow256(k), count)
    {
      Clear();
      Resize(count, v);
      assert [] + Repeat(v % Pow256(k), count) == Repeat(v % Pow256(k), count);
    }

    /// `insert_any` of the byte array
    method InsertBytes(at: nat, n: nat) returns (u: seq<Byte>)
      requires at <= |data|
      modifies this`data
      ensures |u| == n && data == Opened(old(data), at, u)
    {
      u := Uninitialized(n);
      data := Opened(data, at, u);
    }

    /// Makes room for `insSize` elements before position `pos` and for `padEnd` elements at the end. The byte array
    /// opens two gaps; the elements in them have arbitrary values `gap` and `pad`.
    method InsertAny(pos: nat, insSize: nat, padEnd: nat) returns (at: nat, ghost gap: seq<nat>, ghost pad: seq<nat>)
      requires Valid() && pos <= size
      modifies this
      ensures Valid() && size == old(size) + insSize + padEnd && at == p + ByteSize(pos, k)
      ensures |gap| == insSize && |pad| == padEnd && |old(Elems())| == old(size)
      ensures Elems() == old(Elems())[..pos] + gap + old(Elems())[pos..] + pad
    {
      ghost var s, n := Payload(), size;
      at := p + ByteSize(pos, k);
      ByteSizeMonotone(pos, size, k);
      if insSize + padEnd == 0 {
        gap, pad := [], [];
        UnpackLength(e, k, n, s);
        return;
      }
      var u, v := OpenElements(pos, insSize, padEnd);
      gap, pad := Unpack(e, k, u), Unpack(e, k, v);
      UnpackInserted(e, k, n, pos, insSize, padEnd, s, u, v);
    }

    method OpenElements(pos: nat, insSize: nat, padEnd: nat) returns (u: seq<Byte>, v: seq<Byte>)
      requires Valid() && ByteSize(pos, k) <= ByteSize(size, k)
      modifies this
      ensures Valid() && size == old(size) + insSize + padEnd
      ensures |u| == ByteSize(insSize, k) && |v| == ByteSize(padEnd, k)
      ensures Payload() == old(Payload())[..ByteSize(pos, k)] + u + old(Payload())[ByteSize(pos, k)..] + v
    {
      InsertedSizes(size, insSize, padEnd, k);
      u, v := OpenBytes(ByteSize(size, k), ByteSize(pos, k), ByteSize(insSize, k), ByteSize(padEnd, k));
      size := size + insSize + padEnd;
    }

    /// The part of `insert_any` that is about bytes: `at` and the numbers of bytes are without the padding.
    method OpenBytes(n: nat, at: nat, insBytes: nat, padBytes: nat) returns (u: seq<Byte>, v: seq<Byte>)
      requires |data| == n + 2 * p && at <= n
      modifies this`data
      ensures |data| == n + insBytes + padBytes + 2 * p && |u| == insBytes && |v| == padBytes
      ensures var s := PayloadOf(old(data), p, n);
              PayloadOf(data, p, n + insBytes + padBytes) == s[..at] + u + s[at..] + v
    {
      ghost var was := data;
      u := InsertBytes(p + at, insBytes);
      v := PadBytes(p + n + insBytes, padBytes);
      GapsOpened(was, p, n, at, u, v);
    }

    method PadBytes(at: nat, n: nat) returns (v: seq<Byte>)
      requires at <= |data|
      modifies this`data
      ensures |v| == n && data == Opened(old(data), at, v)
    {
      v := [];
      if n > 0 { v := InsertBytes(at, n); } else { assert data[..at] + [] + data[at..] == data; }
    }

    /// `insert(pos, value)`
    method Insert(pos: nat, v: nat) returns (at: nat)
      requires Valid() && pos <= size
      modifies this
      ensures Valid() && size == old(size) + 1 && at == p + ByteSize(pos, k)
      ensures |old(Elems())| == old(size)
      ensures Elems() == old(Elems())[..pos] + [v % Pow256(k)] + old(Elems())[pos..]
    {
      ghost var gap, pad;
      at, gap, pad := InsertAny(pos, 1, 0);
      Set(pos, v);
    }

    /// `insert(pos, first, last)` and, with a repeated value, `insert(pos, count, value)`
    method InsertAll(pos: nat, xs: seq<nat>) returns (at: nat)
      requires Valid() && pos <= size
      modifies this
      ensures Valid() && size == old(size) + |xs| && at == p + ByteSize(pos, k)
      ensures |old(Elems())| == old(size)
      ensures Elems() == old(Elems())[..pos] + Kept(k, xs) + old(Elems())[pos..]
    {
      ghost var was := Elems();
      ghost var gap, pad;
      at, gap, pad := InsertAny(pos, |xs|, 0);
      var i := 0;
      while i < |xs|
        invariant i <= |xs| && Valid() && size == old(size) + |xs|
        invariant Elems() == was[..pos] + Kept(k, xs[..i]) + gap[i..] + was[pos..]
      {
        ElemsAreInRange();
        Set(pos + i, xs[i]);
        assert xs[..i + 1][..i] == xs[..i];
        i := i + 1;
      }
      assert xs[..|xs|] == xs;
    }

    /// `erase(first, last)`
    method Erase(first: nat, last: nat) returns (at: nat)
      requires Valid() && first <= last <= size
      modifies this
      ensures Valid() && size == old(size) - (last - first) && at == p + ByteSize(first, k)
      ensures |old(Elems())| == old(size)
      ensures Elems() == old(Elems())[..first] + old(Elems())[last..]
    {
      ghost var s, n := Payload(), size;
      ByteSizeMonotone(last, size, k);
      ByteSizeMonotone(first, last, k);
      UnpackErased(e, k, n, first, last, s);
      at := p + ByteSize(first, k);
      if ByteSize(last, k) - ByteSize(first, k) == 0 {
        ByteSizeSum(first, last - first, k);
        OnlyEmpty(last - first, k);
        return;
      }
      CloseElements(first, last);
    }

    method CloseElements(first: nat, last: nat)
      requires Valid() && first <= last <= size && ByteSize(first, k) <= ByteSize(last, k) <= ByteSize(size, k)
      modifies this
      ensures Valid() && size == old(size) - (last - first)
      ensures Payload() == old(Payload())[..ByteSize(first, k)] + old(Payload())[ByteSize(last, k)..]
    {
      var eraseBytes := ByteSize(last, k) - ByteSize(first, k);
      ErasedSizes(size, first, last, k);
      CloseBytes(ByteSize(size, k), ByteSize(first, k), eraseBytes);
      size := size - eraseBytes / k;
    }

    /// The part of `erase` that is about bytes.
    method CloseBytes(n: nat, at: nat, eraseBytes: nat)
      requires |data| == n + 2 * p && at + eraseBytes <= n
      modifies this`data
      ensures |data| == n - eraseBytes + 2 * p
      ensures var s := PayloadOf(old(data), p, n);
              PayloadOf(data, p, n - eraseBytes) == s[..at] + s[at + eraseBytes..]
    {
      GapClosed(data, p, n, at, eraseBytes);
      var dst, tailBytes := p + at, n - (at + eraseBytes);
      data := Write(data, dst, data[dst + eraseBytes..dst + eraseBytes + tailBytes]);
      data := data[..|data| - eraseBytes];
    }
  }

  lemma Overwritten(e: Endian, k: nat, n: nat, i: nat, s: seq<Byte>, w: seq<Byte>)
    requires k > 0 && |s| == ByteSize(n, k) && i < n && |w| == k && ByteSize(i, k) + k <= |s|
    ensures |Unpack(e, k, s)| == n
    ensures Unpack(e, k, s[..ByteSize(i, k)] + w + s[ByteSize(i, k) + k..]) == Unpack(e, k, s)[i := ValueOf(e, w)]
  {
    var at := ByteSize(i, k);
    var a, o, z := s[..at], s[at..at + k], s[at + k..];
    assert s == a + o + z;
    OneReplaced(e, k, i, a, o, z, w);
    UnpackLength(e, k, n, s);
  }

  lemma OneReplaced(e: Endian, k: nat, i: nat, a: seq<Byte>, o: seq<Byte>, z: seq<Byte>, w: seq<Byte>)
    requires k > 0 && |a| == ByteSize(i, k) && |o| == |w| == k
    ensures i < |Unpack(e, k, a + o + z)|
    ensures Unpack(e, k, a + w + z) == Unpack(e, k, a + o + z)[i := ValueOf(e, w)]
  {
    UnpackThree(e, k, i, 1, a, o, z);
    UnpackThree(e, k, i, 1, a, w, z);
    UnpackOne(e, k, o);
    UnpackOne(e, k, w);
    UnpackLength(e, k, i, a);
    UpdateIs(Unpack(e, k, a), ValueOf(e, o), Unpack(e, k, z), ValueOf(e, w));
  }

  lemma UpdateIs(a: seq<nat>, o: nat, z: seq<nat>, w: nat)
    ensures a + [w] + z == (a + [o] + z)[|a| := w]
  {
  }

  lemma Appended(e: Endian, k: nat, m: nat, n: nat, s: seq<Byte>, v: nat)
    requires 0 < k <= m && |s| == ByteSize(n, k)
    ensures Unpack(e, k, s + FullBytes(e, k, m, v)[..k]) == Unpack(e, k, s) + [v % Pow256(k)]
  {
    StoredValue(e, k, m, v);
    UnpackConcat(e, k, n, s, StoredBytes(e, k, m, v));
    UnpackOne(e, k, StoredBytes(e, k, m, v));
  }

  /// A whole word stored behind `n` elements appends its value to them, wherever the rest of it falls.
  lemma WriteAppendsElement(e: Endian, k: nat, m: nat, n: nat, data: seq<Byte>, p: nat, v: nat)
    requires 0 < k <= m && p + ByteSize(n, k) + m <= |data|
    ensures var at := p + ByteSize(n, k);
            Unpack(e, k, Write(data, at, FullBytes(e, k, m, v))[p..at + k]) ==
            Unpack(e, k, data[p..at]) + [v % Pow256(k)]
  {
    WriteAppends(data, p, ByteSize(n, k), FullBytes(e, k, m, v), k);
    Appended(e, k, m, n, data[p..p + ByteSize(n, k)], v);
  }

  /// The first `n` elements are `xs` followed by `times` copies of `v`.
  ghost predicate GrownBy(e: Endian, k: nat, p: nat, n: nat, data: seq<Byte>, xs: seq<nat>, v: nat, times: int) {
    0 < k && 0 <= times && p + ByteSize(n, k) <= |data| &&
    Unpack(e, k, data[p..p + ByteSize(n, k)]) == xs + Repeat(v % Pow256(k), times)
  }

  lemma Grows(e: Endian, k: nat, p: nat, n: nat, data: seq<Byte>, u: seq<Byte>, v: nat)
    requires 0 < k && p + ByteSize(n, k) <= |data|
    ensures GrownBy(e, k, p, n, data + u, Unpack(e, k, data[p..p + ByteSize(n, k)]), v, 0)
  {
    assert (data + u)[p..p + ByteSize(n, k)] == data[p..p + ByteSize(n, k)];
  }

  lemma StoresOneMore(e: Endian, k: nat, m: nat, p: nat, n: nat, data: seq<Byte>, xs: seq<nat>, v: nat, times: int)
    requires k <= m && p + ByteSize(n, k) + m <= |data| && GrownBy(e, k, p, n, data, xs, v, times)
    ensures GrownBy(e, k, p, n + 1, Write(data, p + ByteSize(n, k), FullBytes(e, k, m, v)), xs, v, times + 1)
  {
    assert p + ByteSize(n + 1, k) == p + ByteSize(n, k) + k;
    WriteAppendsElement(e, k, m, n, data, p, v);
    RepeatOnce(xs, v % Pow256(k), times);
  }

  /// A load at an element reads beyond it, but yields the element.
  lemma LoadIsElement(e: Endian, k: nat, m: nat, n: nat, data: seq<Byte>, p: nat, i: nat)
    requires 0 < k <= m <= p && |data| == ByteSize(n, k) + 2 * p && i < n && ByteSize(i, k) + k <= ByteSize(n, k)
    ensures |Unpack(e, k, data[p..p + ByteSize(n, k)])| == n
    ensures Load(e, k, m, data[p + ByteSize(i, k)..p + ByteSize(i, k) + m]) ==
            Unpack(e, k, data[p..p + ByteSize(n, k)])[i]
  {
    var at := p + ByteSize(i, k);
    LoadIsValue(e, k, m, data[at..at + m]);
    UnpackAt(e, k, n, i, data[p..p + ByteSize(n, k)]);
    SliceOfSlice(data, p, p + ByteSize(n, k), ByteSize(i, k), ByteSize(i, k) + k);
    SliceOfSlice(data, at, at + m, 0, k);
  }

  lemma LengthSum(na: nat, nb: nat, k: nat, a: seq<Byte>, b: seq<Byte>)
    requires |a| == ByteSize(na, k) && |b| == ByteSize(nb, k)
    ensures |a + b| == ByteSize(na + nb, k)
  {
    ByteSizeSum(na, nb, k);
  }

  lemma UnpackThree(e: Endian, k: nat, na: nat, nb: nat, a: seq<Byte>, b: seq<Byte>, c: seq<Byte>)
    requires k > 0 && |a| == ByteSize(na, k) && |b| == ByteSize(nb, k)
    ensures Unpack(e, k, a + b + c) == Unpack(e, k, a) + Unpack(e, k, b) + Unpack(e, k, c)
  {
    LengthSum(na, nb, k, a, b);
    UnpackConcat(e, k, na, a, b);
    UnpackConcat(e, k, na + nb, a + b, c);
  }

  lemma UnpackFour(e: Endian, k: nat, na: nat, nb: nat, nc: nat,
                   a: seq<Byte>, b: seq<Byte>, c: seq<Byte>, d: seq<Byte>)
    requires k > 0 && |a| == ByteSize(na, k) && |b| == ByteSize(nb, k)
    requires |c| == ByteSize(nc, k)
    ensures Unpack(e, k, a + b + c + d) == Unpack(e, k, a) + Unpack(e, k, b) + Unpack(e, k, c) + Unpack(e, k, d)
  {
    LengthSum(na, nb, k, a, b);
    UnpackThree(e, k, na + nb, nc, a + b, c, d);
    UnpackConcat(e, k, na, a, b);
  }

  lemma UnpackInserted(e: Endian, k: nat, n: nat, pos: nat, ins: nat, pad: nat, s: seq<Byte>, u: seq<Byte>,
                       v: seq<Byte>)
    requires k > 0 && pos <= n && ByteSize(pos, k) <= |s| == ByteSize(n, k)
    requires |u| == ByteSize(ins, k) && |v| == ByteSize(pad, k)
    ensures |Unpack(e, k, u)| == ins && |Unpack(e, k, v)| == pad && |Unpack(e, k, s)| == n
    ensures Unpack(e, k, s[..ByteSize(pos, k)] + u + s[ByteSize(pos, k)..] + v) ==
            Unpack(e, k, s)[..pos] + Unpack(e, k, u) + Unpack(e, k, s)[pos..] + Unpack(e, k, v)
  {
    ByteSizeSum(pos, n - pos, k);
    UnpackFour(e, k, pos, ins, n - pos, s[..ByteSize(pos, k)], u, s[ByteSize(pos, k)..], v);
    UnpackSplit(e, k, n, pos, s);
    UnpackLength(e, k, ins, u);
    UnpackLength(e, k, pad, v);
  }

  lemma UnpackErased(e: Endian, k: nat, n: nat, first: nat, last: nat, s: seq<Byte>)
    requires k > 0 && first <= last <= n && ByteSize(first, k) <= ByteSize(last, k) <= |s| == ByteSize(n, k)
    ensures |Unpack(e, k, s)| == n
    ensures Unpack(e, k, s[..ByteSize(first, k)] + s[ByteSize(last, k)..]) ==
            Unpack(e, k, s)[..first] + Unpack(e, k, s)[last..]
  {
    UnpackSplit(e, k, n, first, s);
    UnpackSplit(e, k, n, last, s);
    UnpackConcat(e, k, first, s[..ByteSize(first, k)], s[ByteSize(last, k)..]);
  }
}
