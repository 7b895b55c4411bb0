/**
 Words in memory: how an integer of `k` significant bytes is loaded from and stored to memory through machine words of
 `m >= k` bytes, in both byte orders (include/thesauros/containers/multi-byte-integers.hpp).
 */
module PackedBytes {
  import opened Arith
  import opened Bits

  datatype Endian = Little | Big

  function Pow256(n: nat): (p: nat)
    ensures p > 0
  {
    if n == 0 then 1 else 256 * Pow256(n - 1)
  }

  lemma {:induction false} Pow256IsPow2(n: nat)
    ensures Pow256(n) == Pow2(8 * n)
  {
    if n > 0 {
      Pow256IsPow2(n - 1);
      Pow2Add(8, 8 * (n - 1));
      assert Pow2(8) == 256;
    }
  }

  // ----- the bytes of a word

  /// The value that the bytes hold.
  function ValueOf(e: Endian, s: seq<Byte>): nat {
    if |s| == 0 then 0
    else
      match e
      case Little => s[0] + 256 * ValueOf(e, s[1..])
      case Big => 256 * ValueOf(e, s[..|s| - 1]) + s[|s| - 1]
  }

  /// The `n` bytes of a value, which is truncated to them.
  function BytesOf(e: Endian, v: nat, n: nat): (s: seq<Byte>)
    ensures |s| == n
  {
    if n == 0 then []
    else
      match e
      case Little => [v % 256] + BytesOf(e, v / 256, n - 1)
      case Big => BytesOf(e, v / 256, n - 1) + [v % 256]
  }

  lemma ModStep(v: nat, p: nat)
    requires p > 0
    ensures v % (256 * p) == v % 256 + 256 * (v / 256 % p)
  {
    var a, r := v / 256, v % 256;
    DivModOf(a, p);
    var q := a / p;
    assert v == 256 * a + r;
    assert 256 * (q * p) == q * (256 * p);
    DivModUnique(v, 256 * p, q, r + 256 * (a % p));
  }

  lemma {:induction false} ValueOfBytes(e: Endian, v: nat, n: nat)
    ensures ValueOf(e, BytesOf(e, v, n)) == v % Pow256(n)
  {
    if n > 0 {
      var s := BytesOf(e, v, n);
      ValueOfBytes(e, v / 256, n - 1);
      ModStep(v, Pow256(n - 1));
      match e {
        case Little => assert s[1..] == BytesOf(e, v / 256, n - 1);
        case Big => assert s[..n - 1] == BytesOf(e, v / 256, n - 1);
      }
    }
  }

  lemma {:induction false} ValueIsSmall(e: Endian, s: seq<Byte>)
    ensures ValueOf(e, s) < Pow256(|s|)
  {
    if |s| > 0 {
      match e {
        case Little => ValueIsSmall(e, s[1..]);
        case Big => ValueIsSmall(e, s[..|s| - 1]);
      }
    }
  }

  // ----- loads and stores

  /// `load`: the word at the start of `s`, masked or shifted.
  function Load(e: Endian, k: nat, m: nat, s: seq<Byte>): nat
    requires k <= m == |s|
  {
    match e
    case Little => And(ValueOf(e, s), Pow2(8 * k) - 1)
    case Big => High(ValueOf(e, s), 8 * (m - k))
  }

  /// `store_transform`
  function Transformed(e: Endian, k: nat, m: nat, v: nat): nat
    requires k <= m
  {
    match e
    case Little => v
    case Big => Low(v * Pow2(8 * (m - k)), 8 * m)
  }

  /// What `store_full` writes.
  function FullBytes(e: Endian, k: nat, m: nat, v: nat): (s: seq<Byte>)
    requires k <= m
  {
    BytesOf(e, Transformed(e, k, m, v), m)
  }

  /// What `store` writes.
  function StoredBytes(e: Endian, k: nat, m: nat, v: nat): (s: seq<Byte>)
    requires k <= m
  {
    FullBytes(e, k, m, v)[..k]
  }

  lemma {:induction false} LittlePrefix(s: seq<Byte>, k: nat)
    requires k <= |s|
    ensures ValueOf(Little, s) % Pow256(k) == ValueOf(Little, s[..k])
  {
    if k > 0 {
      LittlePrefix(s[1..], k - 1);
      assert s[..k][1..] == s[1..][..k - 1];
      var v := ValueOf(Little, s);
      ModStep(v, Pow256(k - 1));
      DivModUnique(v, 256, ValueOf(Little, s[1..]), s[0]);
    }
  }

  lemma {:induction false} BigPrefix(s: seq<Byte>, k: nat)
    requires k <= |s|
    ensures ValueOf(Big, s) / Pow256(|s| - k) == ValueOf(Big, s[..k])
    decreases |s|
  {
    var n := |s|;
    if k == n {
      assert s[..k] == s;
    } else {
      BigPrefix(s[..n - 1], k);
      assert s[..n - 1][..k] == s[..k];
      DivModUnique(ValueOf(Big, s), 256, ValueOf(Big, s[..n - 1]), s[n - 1]);
      DivDiv(ValueOf(Big, s), 256, Pow256(n - 1 - k));
    }
  }

  /// A load reads a whole word, but its result depends only on the element's own bytes, and is their value.
  lemma LoadIsValue(e: Endian, k: nat, m: nat, s: seq<Byte>)
    requires k <= m == |s|
    ensures Load(e, k, m, s) == ValueOf(e, s[..k])
  {
    match e {
      case Little =>
        AndLowMask(ValueOf(e, s), 8 * k);
        LowHigh(ValueOf(e, s), 8 * k);
        Pow256IsPow2(k);
        LittlePrefix(s, k);
      case Big =>
        LowHigh(ValueOf(e, s), 8 * (m - k));
        Pow256IsPow2(m - k);
        BigPrefix(s, k);
    }
  }

  lemma {:induction false} LittleTake(v: nat, m: nat, k: nat)
    requires k <= m
    ensures BytesOf(Little, v, m)[..k] == BytesOf(Little, v, k)
  {
    if k > 0 {
      LittleTake(v / 256, m - 1, k - 1);
      assert BytesOf(Little, v, m)[..k] == [v % 256] + BytesOf(Little, v / 256, m - 1)[..k - 1];
    }
  }

  /// A value shifted up in a word and down again has lost the bits that left the word.
  lemma {:induction false} ShiftedValue(v: nat, t: nat, n: nat)
    ensures High(Low(v * Pow2(t), t + n), t) == Low(v, n)
  {
    if t == 0 {
      assert v * Pow2(0) == v;
    } else {
      var y := v * Pow2(t - 1);
      assert v * Pow2(t) == 2 * y;
      ShiftedValue(v, t - 1, n);
      assert Low(2 * y, t + n) == 2 * Low(y, t - 1 + n);
    }
  }

  /// The element's own bytes hold the value, cut off to the element's width, however many bytes are written.
  lemma StoredValue(e: Endian, k: nat, m: nat, v: nat)
    requires k <= m
    ensures |StoredBytes(e, k, m, v)| == k && ValueOf(e, StoredBytes(e, k, m, v)) == v % Pow256(k)
  {
    match e {
      case Little =>
        LittleTake(v, m, k);
        ValueOfBytes(e, v, k);
      case Big =>
        BigStored(k, m, v);
    }
  }

  lemma BigStored(k: nat, m: nat, v: nat)
    requires k <= m
    ensures ValueOf(Big, StoredBytes(Big, k, m, v)) == v % Pow256(k)
  {
    var t := Transformed(Big, k, m, v);
    var w := FullBytes(Big, k, m, v);
    ValueOfBytes(Big, t, m);
    LowHigh(v * Pow2(8 * (m - k)), 8 * m);
    Pow256IsPow2(m);
    SmallMod(t, Pow256(m));
    BigPrefix(w, k);
    LowHigh(t, 8 * (m - k));
    Pow256IsPow2(m - k);
    ShiftedValue(v, 8 * (m - k), 8 * k);
    LowHigh(v, 8 * k);
    Pow256IsPow2(k);
  }

  /// Storing and loading is the identity on the values the element can hold, whatever surrounds it.
  lemma LoadOfStore(e: Endian, k: nat, m: nat, v: nat, rest: seq<Byte>)
    requires k <= m && v < Pow256(k) && |rest| == m - k
    ensures Load(e, k, m, StoredBytes(e, k, m, v) + rest) == v
  {
    var s := StoredBytes(e, k, m, v) + rest;
    LoadIsValue(e, k, m, s);
    StoredValue(e, k, m, v);
    assert s[..k] == StoredBytes(e, k, m, v);
    SmallMod(v, Pow256(k));
  }
}
