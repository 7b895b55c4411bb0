/**
 Escaping of control characters, quotes and backslashes (include/thesauros/charconv/string-escape.hpp), and its
 inverse, the unescaping of JSON strings as section 7 of RFC 8259 defines it.
 */
module StringEscape {
  import opened Bits
  import opened Sequences
  import opened Utf8
  import opened Wrappers

  const BACKSLASH: nat := 0x5C
  const QUOTE: nat := 0x22
  const LETTER_U: nat := 0x75

  /// `escape_char`; 0 if there is no one-character escape.
  function EscapeChar(cp: nat): Byte {
    match cp
    case 0x08 => 0x62
    case 0x09 => 0x74
    case 0x0A => 0x6E
    case 0x0C => 0x66
    case 0x0D => 0x72
    case 0x22 => 0x22
    case 0x5C => 0x5C
    case _ => 0
  }

  /// An upper-case hexadecimal digit.
  function HexDigit(x: nat): Byte
    requires x < 16
  {
    if x < 10 then 0x30 + x else 0x41 + (x - 10)
  }

  /// What one code point becomes.
  function EscapedCps(cp: nat): seq<nat> {
    if EscapeChar(cp) != 0 then [BACKSLASH, EscapeChar(cp)]
    else if cp <= 0x1F then [BACKSLASH, LETTER_U, 0x30, 0x30, 0x30 + cp / 16, HexDigit(cp % 16)]
    else [cp]
  }

  function EscapedAll(cps: seq<nat>): seq<nat> {
    if |cps| == 0 then [] else EscapedCps(cps[0]) + EscapedAll(cps[1..])
  }

  lemma {:induction false} EscapedScalars(cps: seq<nat>)
    requires Scalars(cps)
    ensures Scalars(EscapedAll(cps))
  {
    if |cps| > 0 { EscapedScalars(cps[1..]); }
  }

  lemma {:induction false} EscapedConcat(a: seq<nat>, b: seq<nat>)
    ensures EscapedAll(a + b) == EscapedAll(a) + EscapedAll(b)
  {
    if |a| == 0 {
      assert a + b == b;
    } else {
      EscapedConcat(a[1..], b);
      DropConcat(a, b);
      Associative(EscapedCps(a[0]), EscapedAll(a[1..]), EscapedAll(b));
    }
  }

  lemma {:induction false} EncodeAscii(s: seq<nat>)
    requires forall i :: 0 <= i < |s| ==> s[i] < 0x80
    ensures Scalars(s) && |EncodeAll(s)| == |s| && forall i :: 0 <= i < |s| ==> EncodeAll(s)[i] == s[i]
  {
    if |s| > 0 { EncodeAscii(s[1..]); }
  }

  // ----- the algorithm

  lemma RejectedForGood(input: seq<Byte>, i: nat)
    requires i <= |input| && Run(START, input[..i]).0.state == REJECTED
    ensures !Accepts(input)
  {
    assert input == input[..i] + input[i..];
    RunConcat(START, input[..i], input[i..]);
    RejectionAbsorbs(Run(START, input[..i]).0, input[i..]);
  }

  /// What the loop writes for the last byte `c` of a code point.
  function Written(cp: nat, c: Byte): seq<Byte>
    requires EscapeChar(cp) == 0 && cp <= 0x1F ==> c < 0x20
  {
    if EscapeChar(cp) != 0 then [BACKSLASH, EscapeChar(cp)]
    else if cp <= 0x1F then [BACKSLASH, LETTER_U, 0x30, 0x30, 0x30 + c / 16, HexDigit(c % 16)]
    else [c]
  }

  /// `out` encodes the escaped code points of the input.
  ghost predicate EscapedFrom(input: seq<Byte>, out: seq<Byte>) {
    var cps := Run(START, input).1;
    Scalars(cps) && Scalars(EscapedAll(cps)) && out == EncodeAll(EscapedAll(cps))
  }

  /// Throws, which `None` stands for, iff the input is not well-formed UTF-8.
  method EscapeString(input: seq<Byte>) returns (out: Option<seq<Byte>>)
    ensures out.Some? <==> Accepts(input)
    ensures out.Some? ==> EscapedFrom(input, out.value) && out.value == Replaced(input)
  {
    var decoder := new UnicodeDecoder();
    var written: seq<Byte> := [];
    var i := 0;
    EscapingStarts(input);
    while i < |input|
      invariant i <= |input| && Escaping(input, i, decoder.Abstract(), written)
    {
      var next := EscapeByte(decoder, input, i, written);
      if next == None { return None; }
      written := next.value;
      i := i + 1;
    }
    EscapingEnds(input, decoder.Abstract(), written);
    if decoder.state != ACCEPTED { return None; }
    EscapedBytewise(input, written);
    out := Some(written);
  }

  /// The body of the loop.
  method EscapeByte(decoder: UnicodeDecoder, input: seq<Byte>, i: nat, written: seq<Byte>)
    returns (r: Option<seq<Byte>>)
    requires i < |input| && Escaping(input, i, decoder.Abstract(), written)
    modifies decoder
    ensures r == None ==> !Accepts(input)
    ensures r.Some? ==> Escaping(input, i + 1, decoder.Abstract(), r.value)
  {
    var c := input[i];
    ghost var d := decoder.Abstract();
    var cp, state := decoder.Decode(c);
    if state == ACCEPTED {
      StepAccepts(input, i, d, written);
      r := Some(written + Written(cp, c));
    } else if state == REJECTED {
      StepRejects(input, i, d, written);
      r := None;
    } else {
      StepContinues(input, i, d, written);
      r := Some(written + [c]);
    }
  }

  /// What the loop keeps, with `d` the state of the decoder: the last code point was completed at some `begin`.
  ghost predicate Escaping(input: seq<Byte>, i: nat, d: State, written: seq<Byte>) {
    exists begin: nat, cps: seq<nat> :: EscapingSince(input, begin, i, cps, d, written)
  }

  ghost predicate EscapingSince(input: seq<Byte>, begin: nat, i: nat, cps: seq<nat>, d: State, written: seq<Byte>) {
    && Pending(input, begin, i, cps)
    && d == Run(START, input[..i]).0 && d.state != REJECTED
    && (d.state == ACCEPTED <==> begin == i)
    && WrittenSoFar(input, begin, i, cps, written)
  }

  lemma EscapingStarts(input: seq<Byte>)
    ensures Escaping(input, 0, START, [])
  {
    assert EscapingSince(input, 0, 0, [], START, []);
  }

  lemma EscapingEnds(input: seq<Byte>, d: State, written: seq<Byte>)
    requires Escaping(input, |input|, d, written)
    ensures Accepts(input) <==> d.state == ACCEPTED
    ensures d.state == ACCEPTED ==> EscapedFrom(input, written)
  {
    var begin: nat, cps: seq<nat> :| EscapingSince(input, begin, |input|, cps, d, written);
    assert input[..|input|] == input && input[|input|..|input|] == [];
  }

  /// A byte that completes a code point.
  lemma StepAccepts(input: seq<Byte>, i: nat, d: State, written: seq<Byte>)
    requires i < |input| && Escaping(input, i, d, written)
    requires Step(d, input[i]).state == ACCEPTED
    ensures var c, e := input[i], Step(d, input[i]);
            && (EscapeChar(e.codep) == 0 && e.codep <= 0x1F ==> c < 0x20)
            && Escaping(input, i + 1, e, written + Written(e.codep, c))
  {
    var e := Step(d, input[i]);
    var begin: nat, cps: seq<nat> :| EscapingSince(input, begin, i, cps, d, written);
    AppendByte(START, input, i);
    WritesCodePoint(input, begin, i + 1, cps, e.codep, written);
    assert EscapingSince(input, i + 1, i + 1, cps + [e.codep], e, written + Written(e.codep, input[i]));
  }

  /// A byte that rejects does so for good.
  lemma StepRejects(input: seq<Byte>, i: nat, d: State, written: seq<Byte>)
    requires i < |input| && Escaping(input, i, d, written)
    requires Step(d, input[i]).state == REJECTED
    ensures !Accepts(input)
  {
    AppendByte(START, input, i);
    RejectedForGood(input, i + 1);
  }

  /// A byte that others are to follow.
  lemma StepContinues(input: seq<Byte>, i: nat, d: State, written: seq<Byte>)
    requires i < |input| && Escaping(input, i, d, written)
    requires Step(d, input[i]).state != ACCEPTED && Step(d, input[i]).state != REJECTED
    ensures Escaping(input, i + 1, Step(d, input[i]), written + [input[i]])
  {
    AppendByte(START, input, i);
    var begin: nat, cps: seq<nat> :| EscapingSince(input, begin, i, cps, d, written);
    assert cps + [] == cps;
    Continues(input, begin, i, cps, Step(d, input[i]), written);
  }

  lemma Continues(input: seq<Byte>, begin: nat, i: nat, cps: seq<nat>, e: State, written: seq<Byte>)
    requires i < |input| && Pending(input, begin, i, cps) && WrittenSoFar(input, begin, i, cps, written)
    requires Run(START, input[..i + 1]) == (e, cps) && e.state != ACCEPTED && e.state != REJECTED
    ensures Escaping(input, i + 1, e, written + [input[i]])
  {
    WritesByte(input, begin, i + 1, cps, written);
    assert EscapingSince(input, begin, i + 1, cps, e, written + [input[i]]);
  }

  /// Up to `begin` the input has been decoded to `cps`, and since then no code point has been completed.
  ghost predicate Pending(input: seq<Byte>, begin: nat, i: nat, cps: seq<nat>) {
    && begin <= i <= |input|
    && Scalars(cps)
    && Run(START, input[..begin]).0.state == ACCEPTED && Run(START, input[..begin]).1 == cps
    && Run(START, input[..i]).1 == cps
  }

  /// The output is the escaped `cps`, followed by the bytes of the code point that is not completed yet.
  ghost predicate WrittenSoFar(input: seq<Byte>, begin: nat, i: nat, cps: seq<nat>, written: seq<Byte>) {
    begin <= i <= |input| && Scalars(EscapedAll(cps)) && written == EncodeAll(EscapedAll(cps)) + input[begin..i]
  }

  lemma WritesByte(input: seq<Byte>, begin: nat, i: nat, cps: seq<nat>, written: seq<Byte>)
    requires 0 < i <= |input| && WrittenSoFar(input, begin, i - 1, cps, written)
    ensures WrittenSoFar(input, begin, i, cps, written + [input[i - 1]])
  {
    assert input[begin..i] == input[begin..i - 1] + [input[i - 1]];
  }

  lemma LastOfSlice(input: seq<Byte>, begin: nat, i: nat)
    requires begin < i <= |input|
    ensures var s := input[begin..i]; s[..|s| - 1] == input[begin..i - 1] && s[|s| - 1] == input[i - 1]
    ensures forall a: seq<Byte> {:trigger a + input[i..i]} :: a + input[i..i] == a
  {
    assert input[begin..i][..i - begin - 1] == input[begin..i - 1];
  }

  lemma WritesCodePoint(input: seq<Byte>, begin: nat, i: nat, cps: seq<nat>, cp: nat, written: seq<Byte>)
    requires 0 < i <= |input| && Pending(input, begin, i - 1, cps) && WrittenSoFar(input, begin, i - 1, cps, written)
    requires Run(START, input[..i]).0.state == ACCEPTED && Run(START, input[..i]).1 == cps + [cp]
    ensures cp <= 0x1F ==> input[i - 1] < 0x20
    ensures Pending(input, i, i, cps + [cp])
    ensures WrittenSoFar(input, i, i, cps + [cp], written + Written(cp, input[i - 1]))
  {
    CompletesCodePoint(input, begin, i, cps, cp);
    var s := input[begin..i];
    WrittenIs(s, cps, cp);
    LastOfSlice(input, begin, i);
    Associative(EncodeAll(EscapedAll(cps)), input[begin..i - 1], Written(cp, input[i - 1]));
  }

  /// The bytes since `begin` are the encoding of the code point just completed.
  lemma CompletesCodePoint(input: seq<Byte>, begin: nat, i: nat, cps: seq<nat>, cp: nat)
    requires begin < i <= |input| && Scalars(cps)
    requires Run(START, input[..begin]).0.state == ACCEPTED && Run(START, input[..begin]).1 == cps
    requires Run(START, input[..i]).0.state == ACCEPTED && Run(START, input[..i]).1 == cps + [cp]
    ensures Scalar(cp) && Encode(cp) == input[begin..i]
    ensures Pending(input, i, i, cps + [cp])
  {
    var d := Run(START, input[..begin]).0;
    assert input[..i] == input[..begin] + input[begin..i];
    RunConcat(START, input[..begin], input[begin..i]);
    assert (cps + Run(d, input[begin..i]).1)[|cps|..] == (cps + [cp])[|cps|..];
    assert Run(d, input[begin..i]).1 == [cp];
    FirstIs(d, input[begin..i], cp);
  }

  /// What is replaced is never part of a longer sequence.
  lemma OneWritten(cp: nat, s: seq<Byte>)
    requires Scalar(cp) && Encode(cp) == s
    ensures |s| > 0 && (cp <= 0x1F ==> s[|s| - 1] < 0x20)
    ensures Scalars(EscapedCps(cp)) && EncodeAll(EscapedCps(cp)) == s[..|s| - 1] + Written(cp, s[|s| - 1])
  {
    if cp < 0x80 {
      EncodeAscii(EscapedCps(cp));
      assert EncodeAll(EscapedCps(cp)) == Written(cp, cp);
      assert s[..|s| - 1] + Written(cp, cp) == Written(cp, cp);
    } else {
      EncodeOne(cp);
      assert s == s[..|s| - 1] + [s[|s| - 1]];
    }
  }

  lemma EscapedSnoc(cps: seq<nat>, cp: nat)
    requires Scalars(cps) && Scalar(cp)
    ensures Scalars(EscapedAll(cps)) && Scalars(EscapedCps(cp)) && Scalars(EscapedAll(cps + [cp]))
    ensures EncodeAll(EscapedAll(cps + [cp])) == EncodeAll(EscapedAll(cps)) + EncodeAll(EscapedCps(cp))
  {
    EscapedScalars(cps);
    EscapedConcat(cps, [cp]);
    assert [cp][1..] == [];
    assert EscapedAll([cp]) == EscapedCps(cp);
    EncodeConcat(EscapedAll(cps), EscapedCps(cp));
  }

  /// The bytes written since `begin` become the escaped code point.
  lemma WrittenIs(s: seq<Byte>, cps: seq<nat>, cp: nat)
    requires Scalars(cps) && Scalar(cp) && Encode(cp) == s
    ensures |s| > 0 && (cp <= 0x1F ==> s[|s| - 1] < 0x20)
    ensures Scalars(EscapedAll(cps)) && Scalars(EscapedAll(cps + [cp]))
    ensures EncodeAll(EscapedAll(cps + [cp])) ==
            EncodeAll(EscapedAll(cps)) + (s[..|s| - 1] + Written(cp, s[|s| - 1]))
  {
    OneWritten(cp, s);
    EscapedSnoc(cps, cp);
  }

  // ----- the output

  /// At most six bytes per byte of input.
  lemma {:induction false} AtMostSixfold(cps: seq<nat>)
    requires Scalars(cps)
    ensures Scalars(EscapedAll(cps)) && |EncodeAll(EscapedAll(cps))| <= 6 * |EncodeAll(cps)|
  {
    EscapedScalars(cps);
    if |cps| > 0 {
      AtMostSixfold(cps[1..]);
      EncodeConcat(EscapedCps(cps[0]), EscapedAll(cps[1..]));
      OneAtMostSixfold(cps[0]);
    }
  }

  lemma OneAtMostSixfold(cp: nat)
    requires Scalar(cp)
    ensures Scalars(EscapedCps(cp)) && |EncodeAll(EscapedCps(cp))| <= 6 * |Encode(cp)|
  {
    if cp < 0x80 { EncodeAscii(EscapedCps(cp)); } else { EncodeOne(cp); }
  }

  /// No control character is left, and every quote is preceded by a backslash; `before` precedes the first character.
  ghost predicate NothingRaw(s: seq<nat>, before: nat) {
    forall i {:trigger s[i]} :: 0 <= i < |s| ==>
      s[i] >= 0x20 && (s[i] == QUOTE ==> (if i > 0 then s[i - 1] else before) == BACKSLASH)
  }

  lemma CleanConcat(a: seq<nat>, b: seq<nat>, before: nat)
    requires |a| > 0 && NothingRaw(a, before) && NothingRaw(b, a[|a| - 1])
    ensures NothingRaw(a + b, before)
  {
    forall i | 0 <= i < |a + b|
      ensures (a + b)[i] >= 0x20
      ensures (a + b)[i] == QUOTE ==> (if i > 0 then (a + b)[i - 1] else before) == BACKSLASH
    {
      if i > |a| {
        assert (a + b)[i] == b[i - |a|] && (a + b)[i - 1] == b[i - |a| - 1];
      } else if i == |a| {
        assert (a + b)[i] == b[0] && (a + b)[i - 1] == a[|a| - 1];
      } else {
        assert (a + b)[i] == a[i] && (i > 0 ==> (a + b)[i - 1] == a[i - 1]);
      }
    }
  }

  lemma {:induction false} EscapedIsClean(cps: seq<nat>, before: nat)
    ensures NothingRaw(EscapedAll(cps), before)
  {
    if |cps| > 0 {
      var head := EscapedCps(cps[0]);
      EscapedIsClean(cps[1..], head[|head| - 1]);
      CleanConcat(head, EscapedAll(cps[1..]), before);
    }
  }

  /// The same of the bytes, as every byte of a longer sequence is at least 0x80.
  lemma {:induction false} EncodedIsClean(s: seq<nat>, before: nat, beforeByte: nat)
    requires Scalars(s) && NothingRaw(s, before) && (before == BACKSLASH ==> beforeByte == BACKSLASH)
    ensures NothingRaw(EncodeAll(s), beforeByte)
  {
    if |s| > 0 {
      var head := Encode(s[0]);
      BytesOfOne(s[0]);
      assert NothingRaw(head, beforeByte) by { assert s[0] == QUOTE ==> before == BACKSLASH; }
      forall i | 0 <= i < |s[1..]|
        ensures s[1..][i] >= 0x20
        ensures s[1..][i] == QUOTE ==> (if i > 0 then s[1..][i - 1] else s[0]) == BACKSLASH
      {
        assert s[1..][i] == s[i + 1];
      }
      EncodedIsClean(s[1..], s[0], head[|head| - 1]);
      CleanConcat(head, EncodeAll(s[1..]), beforeByte);
    }
  }

  lemma BytesOfOne(cp: nat)
    requires Scalar(cp)
    ensures |Encode(cp)| > 0 && (cp < 0x80 ==> Encode(cp) == [cp])
    ensures cp >= 0x80 ==> forall i :: 0 <= i < |Encode(cp)| ==> Encode(cp)[i] >= 0x80
  {
  }

  // ----- which bytes are escaped

  const DIGITS: seq<Byte> :=
    [0x30, 0x31, 0x32, 0x33, 0x34, 0x35, 0x36, 0x37, 0x38, 0x39, 0x41, 0x42, 0x43, 0x44, 0x45, 0x46]

  /// The bytes that stand for one byte of the input: a letter after a backslash for seven characters, a number of four
  /// digits for all other control characters, and itself for everything else.
  function Replacement(c: Byte): seq<Byte> {
    match c
    case 0x08 => [0x5C, 0x62]
    case 0x09 => [0x5C, 0x74]
    case 0x0A => [0x5C, 0x6E]
    case 0x0C => [0x5C, 0x66]
    case 0x0D => [0x5C, 0x72]
    case 0x22 => [0x5C, 0x22]
    case 0x5C => [0x5C, 0x5C]
    case _ => if c < 0x20 then [0x5C, 0x75, 0x30, 0x30, DIGITS[c / 16], DIGITS[c % 16]] else [c]
  }

  function Replaced(s: seq<Byte>): seq<Byte> { if |s| == 0 then [] else Replacement(s[0]) + Replaced(s[1..]) }

  lemma {:induction false} ReplacedConcat(a: seq<Byte>, b: seq<Byte>)
    ensures Replaced(a + b) == Replaced(a) + Replaced(b)
  {
    if |a| == 0 {
      assert a + b == b;
    } else {
      ReplacedConcat(a[1..], b);
      DropConcat(a, b);
      Associative(Replacement(a[0]), Replaced(a[1..]), Replaced(b));
    }
  }

  predicate Plain(c: Byte) { c >= 0x20 && c != 0x22 && c != 0x5C }

  lemma {:induction false} PlainStays(s: seq<Byte>)
    requires forall i :: 0 <= i < |s| ==> Plain(s[i])
    ensures Replaced(s) == s
  {
    if |s| > 0 {
      PlainStays(s[1..]);
      assert [s[0]] + s[1..] == s;
    }
  }

  /// One code point: what is escaped is a single byte, and longer sequences consist of plain bytes.
  lemma OneReplaced(cp: nat)
    requires Scalar(cp)
    ensures Scalars(EscapedCps(cp)) && EncodeAll(EscapedCps(cp)) == Replaced(Encode(cp))
  {
    BytesOfOne(cp);
    if cp < 0x80 {
      AsciiReplaced(cp);
      ReplacedOne(cp);
    } else {
      EncodeOne(cp);
      LongReplaced(cp, Encode(cp));
    }
  }

  lemma LongKept(cp: nat)
    requires cp >= 0x80
    ensures EscapedCps(cp) == [cp]
  {
    assert EscapeChar(cp) == 0;
  }

  lemma LongReplaced(cp: nat, s: seq<Byte>)
    requires Scalar(cp) && cp >= 0x80 && EncodeAll([cp]) == s && forall i :: 0 <= i < |s| ==> s[i] >= 0x80
    ensures Scalars(EscapedCps(cp)) && EncodeAll(EscapedCps(cp)) == Replaced(s)
  {
    LongKept(cp);
    PlainStays(s);
  }

  lemma AsciiReplaced(c: Byte)
    requires c < 0x80
    ensures Scalars(EscapedCps(c)) && EncodeAll(EscapedCps(c)) == Replacement(c)
  {
    EncodeAscii(EscapedCps(c));
    assert EscapedCps(c) == Replacement(c);
  }

  lemma ReplacedOne(c: Byte)
    ensures Replaced([c]) == Replacement(c)
  {
    assert [c][1..] == [];
    assert Replacement(c) + [] == Replacement(c);
  }

  lemma {:induction false} AllReplaced(cps: seq<nat>)
    requires Scalars(cps)
    ensures Scalars(EscapedAll(cps)) && EncodeAll(EscapedAll(cps)) == Replaced(EncodeAll(cps))
  {
    EscapedScalars(cps);
    if |cps| > 0 {
      AllReplaced(cps[1..]);
      EncodeConcat(EscapedCps(cps[0]), EscapedAll(cps[1..]));
      OneReplaced(cps[0]);
      ReplacedConcat(Encode(cps[0]), EncodeAll(cps[1..]));
    }
  }

  /// What is written is the input with every byte replaced on its own.
  lemma EscapedBytewise(input: seq<Byte>, out: seq<Byte>)
    requires Accepts(input) && EscapedFrom(input, out)
    ensures out == Replaced(input)
  {
    AcceptedIsEncoded(input);
    AllReplaced(Run(START, input).1);
  }

  /// A text without control characters, quotes and backslashes is written as it is.
  lemma PlainIsUnchanged(input: seq<Byte>, out: seq<Byte>)
    requires Accepts(input) && EscapedFrom(input, out)
    requires forall i :: 0 <= i < |input| ==> input[i] >= 0x20 && input[i] != 0x22 && input[i] != 0x5C
    ensures out == input
  {
    EscapedBytewise(input, out);
    PlainStays(input);
  }

  /// The bytes `w` that are written for the byte `c`, wherever it stands.
  ghost predicate WrittenFor(c: Byte, w: seq<Byte>) {
    forall a: seq<Byte>, b: seq<Byte>, out: seq<Byte> ::
      Accepts(a + [c] + b) && EscapedFrom(a + [c] + b, out) ==> out == Replaced(a) + w + Replaced(b)
  }

  lemma ReplacementIsWritten(c: Byte)
    ensures WrittenFor(c, Replacement(c))
  {
    forall a: seq<Byte>, b: seq<Byte>, out: seq<Byte> | Accepts(a + [c] + b) && EscapedFrom(a + [c] + b, out)
      ensures out == Replaced(a) + Replacement(c) + Replaced(b)
    {
      EscapedBytewise(a + [c] + b, out);
      ReplacedAround(a, c, b);
    }
  }

  lemma ReplacedAround(a: seq<Byte>, c: Byte, b: seq<Byte>)
    ensures Replaced(a + [c] + b) == Replaced(a) + Replacement(c) + Replaced(b)
  {
    ReplacedConcat(a + [c], b);
    ReplacedConcat(a, [c]);
    ReplacedOne(c);
  }

  /// Seven characters are written as a backslash and a letter, or themselves.
  lemma ShortEscapes()
    ensures WrittenFor(0x08, [0x5C, 0x62]) && WrittenFor(0x09, [0x5C, 0x74]) && WrittenFor(0x0A, [0x5C, 0x6E])
    ensures WrittenFor(0x0C, [0x5C, 0x66]) && WrittenFor(0x0D, [0x5C, 0x72])
    ensures WrittenFor(0x22, [0x5C, 0x22]) && WrittenFor(0x5C, [0x5C, 0x5C])
  {
    ReplacementIsWritten(0x08);
    ReplacementIsWritten(0x09);
    ReplacementIsWritten(0x0A);
    ReplacementIsWritten(0x0C);
    ReplacementIsWritten(0x0D);
    ReplacementIsWritten(0x22);
    ReplacementIsWritten(0x5C);
  }

  /// Any other control character is written as a backslash, `u` and its number in four upper-case hexadecimal digits.
  lemma NumericEscapes(c: Byte, hi: Byte, lo: Byte)
    requires c < 0x20 && c !in {0x08, 0x09, 0x0A, 0x0C, 0x0D}
    requires hi == if c < 0x10 then 0x30 else 0x31
    requires lo == var x := if c < 0x10 then c else c - 0x10; if x < 10 then 0x30 + x else 0x41 + (x - 10)
    ensures WrittenFor(c, [0x5C, 0x75, 0x30, 0x30, hi, lo])
  {
    ReplacementIsWritten(c);
    assert Replacement(c) == [0x5C, 0x75, 0x30, 0x30, hi, lo];
  }

  /// Everything else is written as it is.
  lemma OthersAreKept(c: Byte)
    requires c >= 0x20 && c != 0x22 && c != 0x5C
    ensures WrittenFor(c, [c])
  {
    ReplacementIsWritten(c);
  }

  // ----- section 7 of RFC 8259

  function SimpleEscape(c: nat): Option<nat> {
    match c
    case 0x22 => Some(0x22)
    case 0x5C => Some(0x5C)
    case 0x2F => Some(0x2F)
    case 0x62 => Some(0x08)
    case 0x66 => Some(0x0C)
    case 0x6E => Some(0x0A)
    case 0x72 => Some(0x0D)
    case 0x74 => Some(0x09)
    case _ => None
  }

  function HexValue(c: nat): Option<nat> {
    if 0x30 <= c <= 0x39 then Some(c - 0x30)
    else if 0x41 <= c <= 0x46 then Some(c - 0x41 + 10)
    else if 0x61 <= c <= 0x66 then Some(c - 0x61 + 10)
    else None
  }

  /// The code unit of a `\uXXXX` at the start.
  function CodeUnit(s: seq<nat>): Option<nat> {
    if |s| < 6 || s[0] != BACKSLASH || s[1] != LETTER_U then None
    else
      match (HexValue(s[2]), HexValue(s[3]), HexValue(s[4]), HexValue(s[5]))
      case (Some(a), Some(b), Some(c), Some(d)) => Some(((a * 16 + b) * 16 + c) * 16 + d)
      case _ => None
  }

  function Prepend(cp: nat, rest: Option<seq<nat>>): Option<seq<nat>> {
    match rest
    case Some(cps) => Some([cp] + cps)
    case None => None
  }

  /// The characters a JSON string stands for, or `None` if it is not one.
  function Unescape(s: seq<nat>): Option<seq<nat>> {
    if |s| == 0 then Some([])
    else if s[0] < 0x20 || s[0] == QUOTE then None
    else if s[0] != BACKSLASH then Prepend(s[0], Unescape(s[1..]))
    else if |s| >= 2 && SimpleEscape(s[1]).Some? then Prepend(SimpleEscape(s[1]).value, Unescape(s[2..]))
    else
      match CodeUnit(s)
      case None => None
      case Some(u) =>
        if !(0xD800 <= u <= 0xDFFF) then Prepend(u, Unescape(s[6..]))
        else
          match CodeUnit(s[6..])
          case Some(l) =>
            if u <= 0xDBFF && 0xDC00 <= l <= 0xDFFF && |s| >= 12
            then Prepend(0x10000 + (u - 0xD800) * 0x400 + (l - 0xDC00), Unescape(s[12..]))
            else None
          case None => None
  }

  lemma UnescapeOne(cp: nat, rest: seq<nat>)
    requires Scalar(cp)
    ensures Unescape(EscapedCps(cp) + rest) == Prepend(cp, Unescape(rest))
  {
    var s := EscapedCps(cp) + rest;
    if EscapeChar(cp) != 0 {
      assert s[2..] == rest;
    } else if cp <= 0x1F {
      assert s[6..] == rest;
      HexRoundTrip(cp / 16);
      HexRoundTrip(cp % 16);
      assert CodeUnit(s) == Some(cp);
    } else {
      assert s[1..] == rest;
    }
  }

  lemma HexRoundTrip(x: nat)
    requires x < 16
    ensures HexValue(HexDigit(x)) == Some(x) && (x < 10 ==> HexDigit(x) == 0x30 + x)
  {
  }

  /// Unescaping undoes escaping.
  lemma {:induction false} UnescapeUndoes(cps: seq<nat>)
    requires Scalars(cps)
    ensures Unescape(EscapedAll(cps)) == Some(cps)
  {
    if |cps| > 0 {
      UnescapeUndoes(cps[1..]);
      UnescapeOne(cps[0], EscapedAll(cps[1..]));
      assert [cps[0]] + cps[1..] == cps;
    }
  }

  /// What `escape_string` yields for well-formed input is well-formed, at most six times as long, contains no control
  /// byte and no bare quote, and is a JSON string for exactly the characters whose encoding the input is.
  lemma EscapedIsFaithful(input: seq<Byte>, out: seq<Byte>)
    requires Accepts(input) && EscapedFrom(input, out)
    ensures Accepts(out) && |out| <= 6 * |input|
    ensures NothingRaw(out, 0)
    ensures var text := Unescape(Run(START, out).1); text.Some? && Scalars(text.value) && EncodeAll(text.value) == input
  {
    var cps := Run(START, input).1;
    AcceptedIsEncoded(input);
    EncodedIsAccepted(EscapedAll(cps));
    AtMostSixfold(cps);
    EscapedIsClean(cps, 0);
    EncodedIsClean(EscapedAll(cps), 0, 0);
    UnescapeUndoes(cps);
  }
}
