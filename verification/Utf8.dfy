/**
 The UTF-8 decoding automaton (include/thesauros/charconv/unicode.hpp) against RFC 3629: section 3 defines the
 encoding of a scalar value, section 4 the byte sequences that are well formed.
 */
module Utf8 {
  import opened Arith
  import opened Bits
  import opened Sequences
  import opened Wrappers

  // ----- RFC 3629

  /// A code point that is not a surrogate.
  predicate Scalar(cp: nat) { cp <= 0x10FFFF && !(0xD800 <= cp <= 0xDFFF) }

  /// Section 3.
  function Encode(cp: nat): seq<Byte>
    requires Scalar(cp)
  {
    if cp < 0x80 then [cp]
    else if cp < 0x800 then [0xC0 + cp / 64, 0x80 + cp % 64]
    else if cp < 0x10000 then [0xE0 + cp / 4096, 0x80 + cp / 64 % 64, 0x80 + cp % 64]
    else [0xF0 + cp / 262144, 0x80 + cp / 4096 % 64, 0x80 + cp / 64 % 64, 0x80 + cp % 64]
  }

  predicate Tail(b: Byte) { 0x80 <= b <= 0xBF }

  /// Section 4: UTF8-1 to UTF8-4.
  predicate WellFormed(s: seq<Byte>) {
    if |s| == 1 then s[0] <= 0x7F
    else if |s| == 2 then 0xC2 <= s[0] <= 0xDF && Tail(s[1])
    else if |s| == 3 then
      Tail(s[1]) && Tail(s[2]) && 0xE0 <= s[0] <= 0xEF &&
      (s[0] == 0xE0 ==> 0xA0 <= s[1]) && (s[0] == 0xED ==> s[1] <= 0x9F)
    else if |s| == 4 then
      Tail(s[1]) && Tail(s[2]) && Tail(s[3]) && 0xF0 <= s[0] <= 0xF4 &&
      (s[0] == 0xF0 ==> 0x90 <= s[1]) && (s[0] == 0xF4 ==> s[1] <= 0x8F)
    else false
  }

  ghost predicate Scalars(cps: seq<nat>) { forall i :: 0 <= i < |cps| ==> Scalar(cps[i]) }

  function EncodeAll(cps: seq<nat>): seq<Byte>
    requires Scalars(cps)
  {
    if |cps| == 0 then [] else Encode(cps[0]) + EncodeAll(cps[1..])
  }

  // ----- the automaton

  const ACCEPTED: nat := 0
  const REJECTED: nat := 12

  /// `char_kind`, whose rows are constant on these ranges.
  function CharKind(b: Byte): (k: nat)
    ensures k < 12
  {
    if b < 0x80 then 0
    else if b < 0x90 then 1
    else if b < 0xA0 then 9
    else if b < 0xC0 then 7
    else if b < 0xC2 then 8
    else if b < 0xE0 then 2
    else if b == 0xE0 then 10
    else if b == 0xED then 4
    else if b < 0xF0 then 3
    else if b == 0xF0 then 11
    else if b < 0xF4 then 6
    else if b == 0xF4 then 5
    else 8
  }

  /// The row of `trans` for the accepting state: 0 12 24 36 60 96 84 12 12 12 48 72.
  function TransAccepted(kind: nat): nat {
    match kind
    case 0 => 0
    case 2 => 24
    case 3 => 36
    case 4 => 60
    case 5 => 96
    case 6 => 84
    case 10 => 48
    case 11 => 72
    case _ => 12
  }

  /// `trans`. Kinds 1, 9 and 7 are the continuation bytes 80-8F, 90-9F and A0-BF.
  function Trans(state: nat, kind: nat): nat {
    match state
    case 0 => TransAccepted(kind)
    case 24 => if kind == 1 || kind == 7 || kind == 9 then 0 else 12
    case 36 => if kind == 1 || kind == 7 || kind == 9 then 24 else 12
    case 48 => if kind == 7 then 24 else 12
    case 60 => if kind == 1 || kind == 9 then 24 else 12
    case 72 => if kind == 7 || kind == 9 then 36 else 12
    case 84 => if kind == 1 || kind == 7 || kind == 9 then 36 else 12
    case 96 => if kind == 1 then 36 else 12
    case _ => 12
  }

  datatype State = State(codep: nat, state: nat)

  const START: State := State(0, ACCEPTED)

  /// One byte. The code point is a 32-bit number.
  function Step(d: State, b: Byte): State {
    State(if d.state != 0 then Continue(d.codep, b) else Lead(CharKind(b), b), Trans(d.state, CharKind(b)))
  }

  function Continue(codep: nat, b: Byte): nat { Or(And(b, 0x3F), codep * 64 % 0x1_0000_0000) }

  function Lead(kind: nat, b: Byte): nat { And(0xFF / Pow2(kind), b) }

  /// The state after the bytes, and the code points completed on the way.
  function Run(d: State, bytes: seq<Byte>): (State, seq<nat>) { (Final(d, bytes), Output(d, bytes)) }

  function Final(d: State, bytes: seq<Byte>): State
    decreases |bytes|
  {
    if |bytes| == 0 then d else Final(Step(d, bytes[0]), bytes[1..])
  }

  function Output(d: State, bytes: seq<Byte>): seq<nat>
    decreases |bytes|
  {
    if |bytes| == 0 then []
    else
      var next := Step(d, bytes[0]);
      (if next.state == ACCEPTED then [next.codep] else []) + Output(next, bytes[1..])
  }

  predicate Accepts(bytes: seq<Byte>) { Run(START, bytes).0.state == ACCEPTED }

  // ----- one step in numbers

  lemma MaskIs(b: nat, k: nat, m: nat)
    requires m + 1 == Pow2(k)
    ensures And(b, m) == And(m, b) == b % (m + 1)
  {
    AndLowMask(b, k);
    LowHigh(b, k);
  }

  lemma OrShifted(low: nat, c: nat)
    requires low < 64
    ensures Or(low, c * 64) == c * 64 + low
  {
    Six();
    LowHigh(c * 64, 6);
    MultipleMod(c, 64);
    OrDisjoint(c * 64, low, 6);
    OrComm(low, c * 64);
  }

  lemma Six()
    ensures Pow2(6) == 64
  {
  }

  lemma {:induction false} OrComm(x: nat, y: nat)
    ensures Or(x, y) == Or(y, x)
  {
    if x > 0 || y > 0 { OrComm(x / 2, y / 2); }
  }

  /// A continuation byte appends six bits.
  lemma ContinueIs(codep: nat, b: Byte)
    requires Tail(b) && codep < 0x400_0000
    ensures Continue(codep, b) == codep * 64 + (b - 0x80)
  {
    Six();
    MaskIs(b, 6, 0x3F);
    TailBits(b);
    OrShifted(b - 0x80, codep);
    SmallMod(codep * 64, 0x1_0000_0000);
  }

  lemma TailBits(b: Byte)
    requires Tail(b)
    ensures b % 64 == b - 0x80
  {
  }

  /// `(0xFF >> kind) + 1`
  function Payloads(kind: nat): nat {
    match kind
    case 0 => 256
    case 1 => 128
    case 2 => 64
    case 3 => 32
    case 4 => 16
    case 5 => 8
    case 6 => 4
    case 7 => 2
    case _ => 1
  }

  lemma ShiftIs(kind: nat)
    requires kind < 12
    ensures 0xFF / Pow2(kind) + 1 == Payloads(kind)
    ensures kind <= 8 ==> Payloads(kind) == Pow2(8 - kind)
  {
    assert Pow2(2) == 4 && Pow2(4) == 16;
    assert Pow2(6) == 64 && Pow2(8) == 256;
    assert Pow2(10) == 1024;
  }

  /// A leading byte carries the bits below its prefix.
  lemma LeadMask(kind: nat, b: Byte)
    requires kind < 12
    ensures Lead(kind, b) == b % Payloads(kind)
  {
    ShiftIs(kind);
    if kind <= 8 { MaskIs(b, 8 - kind, 0xFF / Pow2(kind)); } else { assert And(0, b) == 0; }
  }

  lemma LeadIs(b: Byte)
    ensures b < 0x80 ==> Lead(CharKind(b), b) == b
    ensures 0xC2 <= b < 0xE0 ==> Lead(CharKind(b), b) == b - 0xC0
    ensures 0xE0 <= b < 0xF0 ==> Lead(CharKind(b), b) == b - 0xE0
    ensures 0xF0 <= b < 0xF5 ==> Lead(CharKind(b), b) == b - 0xF0
  {
    LeadMask(CharKind(b), b);
    PayloadIs(b);
  }

  lemma PayloadIs(b: Byte)
    ensures b < 0x80 ==> b % Payloads(CharKind(b)) == b
    ensures 0xC2 <= b < 0xE0 ==> b % Payloads(CharKind(b)) == b - 0xC0
    ensures 0xE0 <= b < 0xF0 ==> b % Payloads(CharKind(b)) == b - 0xE0
    ensures 0xF0 <= b < 0xF5 ==> b % Payloads(CharKind(b)) == b - 0xF0
  {
  }

  /// The code point stays a 32-bit number, whatever the bytes are.
  lemma CodePointFits(d: State, b: Byte)
    requires d.codep < 0x1_0000_0000
    ensures Step(d, b).codep < 0x1_0000_0000
  {
    if d.state == 0 {
      AndAtMost(0xFF / Pow2(CharKind(b)), b);
      DivAtMost(0xFF, Pow2(CharKind(b)));
    } else {
      Six();
      MaskIs(b, 6, 0x3F);
      ShiftedFits(d.codep);
      OrShifted(b % 64, d.codep % 0x400_0000);
    }
  }

  lemma ShiftedFits(codep: nat)
    ensures codep * 64 % 0x1_0000_0000 == codep % 0x400_0000 * 64
  {
    var q := codep / 0x400_0000;
    assert codep * 64 == q * 0x1_0000_0000 + codep % 0x400_0000 * 64;
    DivModUnique(codep * 64, 0x1_0000_0000, q, codep % 0x400_0000 * 64);
  }

  lemma DivAtMost(a: nat, d: nat)
    requires d > 0
    ensures a / d <= a
  {
    DivModOf(a, d);
    MulAtMost(1, d, a / d);
  }

  // ----- rejection

  /// Once rejected, always rejected.
  lemma {:induction false} RejectionAbsorbs(d: State, bytes: seq<Byte>)
    requires d.state == REJECTED
    ensures Run(d, bytes).0.state == REJECTED && Run(d, bytes).1 == []
    decreases |bytes|
  {
    if |bytes| > 0 { RejectionAbsorbs(Step(d, bytes[0]), bytes[1..]); }
  }

  // ----- one sequence

  /// Runs compose.
  lemma {:induction false} FinalConcat(d: State, a: seq<Byte>, b: seq<Byte>)
    ensures Final(d, a + b) == Final(Final(d, a), b)
    decreases |a|
  {
    if |a| == 0 {
      assert a + b == b;
    } else {
      FinalConcat(Step(d, a[0]), a[1..], b);
      assert (a + b)[0] == a[0] && (a + b)[1..] == a[1..] + b;
    }
  }

  lemma {:induction false} RunConcat(d: State, a: seq<Byte>, b: seq<Byte>)
    ensures Run(d, a + b).0 == Run(Run(d, a).0, b).0
    ensures Run(d, a + b).1 == Run(d, a).1 + Run(Run(d, a).0, b).1
    decreases |a|
  {
    FinalConcat(d, a, b);
    if |a| == 0 {
      assert a + b == b;
    } else {
      var e := Step(d, a[0]);
      RunConcat(e, a[1..], b);
      DropConcat(a, b);
      RunStep(d, a);
      RunStep(d, a + b);
      Associative(if e.state == ACCEPTED then [e.codep] else [], Run(e, a[1..]).1, Run(Run(e, a[1..]).0, b).1);
    }
  }

  lemma RunStep(d: State, bytes: seq<Byte>)
    requires |bytes| > 0
    ensures var next := Step(d, bytes[0]);
            && Run(d, bytes).0 == Run(next, bytes[1..]).0
            && Run(d, bytes).1 == (if next.state == ACCEPTED then [next.codep] else []) + Run(next, bytes[1..]).1
  {
  }

  /// In the accepting state the code point left over has no influence.
  lemma RunFromAccepted(d: State, bytes: seq<Byte>)
    requires d.state == ACCEPTED
    ensures Run(d, bytes).1 == Run(START, bytes).1 && Run(d, bytes).0.state == Run(START, bytes).0.state
  {
    if |bytes| > 0 { assert Step(d, bytes[0]) == Step(START, bytes[0]); }
  }

  /// The value that a well-formed sequence encodes.
  function Decoded(s: seq<Byte>): int
    requires WellFormed(s)
  {
    var a: int := s[0];
    if |s| == 1 then a
    else
      var b: int := s[1];
      if |s| == 2 then Join(a - 0xC0, b)
      else
        var c: int := s[2];
        if |s| == 3 then Join(Join(a - 0xE0, b), c)
        else Join(Join(Join(a - 0xF0, b), c), s[3])
  }

  function Join(x: int, tail: int): int { x * 64 + (tail - 0x80) }

  lemma Unjoin(x: int, tail: int)
    requires 0x80 <= tail <= 0xBF
    ensures Join(x, tail) / 64 == x && Join(x, tail) % 64 == tail - 0x80
  {
  }

  /// The parts of a value in the positions of three and of four bytes.
  lemma Parts(cp: nat)
    ensures cp / 4096 == cp / 64 / 64 && cp / 4096 % 64 == cp / 64 / 64 % 64
    ensures cp / 262144 == cp / 64 / 64 / 64
  {
    DivDiv(cp, 64, 64);
    DivDiv(cp, 4096, 64);
  }

  lemma DecodedIsScalar(s: seq<Byte>)
    requires WellFormed(s)
    ensures 0 <= Decoded(s) && Scalar(Decoded(s)) && Encode(Decoded(s)) == s
  {
    if |s| == 1 {
    } else if |s| == 2 {
      Unjoin(s[0] as int - 0xC0, s[1]);
    } else if |s| == 3 {
      Decoded3(s);
    } else {
      Decoded4(s);
    }
  }

  lemma Decoded3(s: seq<Byte>)
    requires WellFormed(s) && |s| == 3
    ensures 0x800 <= Decoded(s) < 0x10000 && Scalar(Decoded(s)) && Encode(Decoded(s)) == s
  {
    var a: int := s[0];
    Unjoin(a - 0xE0, s[1]);
    Unjoin(Join(a - 0xE0, s[1]), s[2]);
    Parts(Decoded(s));
  }

  lemma Decoded4(s: seq<Byte>)
    requires WellFormed(s) && |s| == 4
    ensures 0x10000 <= Decoded(s) <= 0x10FFFF && Encode(Decoded(s)) == s
  {
    var a: int := s[0];
    var x := Join(a - 0xF0, s[1]);
    var y := Join(x, s[2]);
    Unjoin(a - 0xF0, s[1]);
    Unjoin(x, s[2]);
    Unjoin(y, s[3]);
    Encoded4(s, Decoded(s), x, y);
  }

  lemma Encoded4(s: seq<Byte>, cp: nat, x: int, y: int)
    requires |s| == 4 && 0x10000 <= cp <= 0x10FFFF
    requires cp / 64 == y && y / 64 == x && x / 64 + 0xF0 == s[0]
    requires cp % 64 + 0x80 == s[3] && y % 64 + 0x80 == s[2] && x % 64 + 0x80 == s[1]
    ensures Encode(cp) == s
  {
    Parts(cp);
  }

  lemma EncodeIsWellFormed(cp: nat)
    requires Scalar(cp)
    ensures WellFormed(Encode(cp)) && Decoded(Encode(cp)) == cp
  {
    Parts(cp);
    DivModOf(cp, 64);
    DivModOf(cp / 64, 64);
    DivModOf(cp / 64 / 64, 64);
  }

  // ----- the automaton accepts exactly the well-formed sequences

  function Next(state: nat, b: Byte): nat { Trans(state, CharKind(b)) }

  lemma Leads(b: Byte)
    ensures Next(0, b) == if b < 0x80 then 0
                          else if 0xC2 <= b <= 0xDF then 24
                          else if b == 0xE0 then 48
                          else if b == 0xED then 60
                          else if 0xE1 <= b <= 0xEF then 36
                          else if b == 0xF0 then 72
                          else if 0xF1 <= b <= 0xF3 then 84
                          else if b == 0xF4 then 96 else REJECTED
  {
  }

  lemma Tails(b: Byte)
    ensures Next(24, b) == (if Tail(b) then 0 else REJECTED) && Next(36, b) == (if Tail(b) then 24 else REJECTED)
    ensures Next(48, b) == (if 0xA0 <= b <= 0xBF then 24 else REJECTED)
    ensures Next(60, b) == (if 0x80 <= b <= 0x9F then 24 else REJECTED)
    ensures Next(72, b) == (if 0x90 <= b <= 0xBF then 36 else REJECTED)
    ensures Next(84, b) == (if Tail(b) then 36 else REJECTED)
    ensures Next(96, b) == (if 0x80 <= b <= 0x8F then 36 else REJECTED)
  {
  }

  lemma StepIs(d: State, b: Byte)
    ensures Step(d, b).state == Next(d.state, b)
    ensures d.state != 0 && Tail(b) && d.codep < 0x400_0000 ==> Step(d, b).codep == Join(d.codep, b)
  {
    if d.state != 0 && Tail(b) && d.codep < 0x400_0000 { ContinueIs(d.codep, b); }
  }

  lemma LastTail(d: State, t: seq<Byte>)
    requires |t| == 1 && Tail(t[0]) && d.state == 24 && d.codep < 0x400_0000
    ensures 0 <= Join(d.codep, t[0])
    ensures Run(d, t).0 == State(Join(d.codep, t[0]), ACCEPTED) && Run(d, t).1 == [Join(d.codep, t[0])]
  {
    Tails(t[0]);
    StepIs(d, t[0]);
    RunStep(d, t);
    var v := Join(d.codep, t[0]);
    assert t[1..] == [] && [v] + [] == [v];
    assert Run(Step(d, t[0]), []) == (Step(d, t[0]), []);
    assert Run(d, t).1 == [v] && Run(d, t).0 == State(v, ACCEPTED);
  }

  lemma TwoTails(d: State, t: seq<Byte>)
    requires |t| == 2 && Tail(t[0]) && Tail(t[1]) && Leaves(d.state, t) && d.codep < 0x1_0000
    ensures var v := Join(Join(d.codep, t[0]), t[1]); 0 <= v && Run(d, t).0 == State(v, ACCEPTED) && Run(d, t).1 == [v]
  {
    Tails(t[0]);
    StepIs(d, t[0]);
    RunStep(d, t);
    LastTail(Step(d, t[0]), t[1..]);
  }

  lemma ThreeTails(d: State, t: seq<Byte>)
    requires |t| == 3 && Tail(t[0]) && Tail(t[1]) && Tail(t[2]) && Leaves(d.state, t) && d.codep < 0x20
    ensures var v := Join(Join(Join(d.codep, t[0]), t[1]), t[2]);
            0 <= v && Run(d, t).0 == State(v, ACCEPTED) && Run(d, t).1 == [v]
  {
    Tails(t[0]);
    StepIs(d, t[0]);
    RunStep(d, t);
    TwoTails(Step(d, t[0]), t[1..]);
  }

  /// A well-formed sequence leads from accepting to accepting and completes the value it encodes at its end.
  lemma RunWellFormed(d: State, s: seq<Byte>)
    requires WellFormed(s) && d.state == ACCEPTED
    ensures 0 <= Decoded(s) && Run(d, s).0 == State(Decoded(s), ACCEPTED) && Run(d, s).1 == [Decoded(s)]
  {
    var d1, t := Step(d, s[0]), s[1..];
    StepIs(d, s[0]);
    Leads(s[0]);
    LeadIs(s[0]);
    RunStep(d, s);
    if |s| == 1 {
      assert t == [];
    } else if |s| == 2 {
      LastTail(d1, t);
    } else if |s| == 3 {
      TwoTails(d1, t);
    } else {
      ThreeTails(d1, t);
    }
  }

  /// The states in which exactly these continuation bytes complete a sequence.
  predicate Leaves(state: nat, t: seq<Byte>) {
    if |t| == 1 then state == 24
    else if |t| == 2 then state == 36 || (state == 48 && t[0] >= 0xA0) || (state == 60 && t[0] <= 0x9F)
    else if |t| == 3 then state == 84 || (state == 72 && t[0] >= 0x90) || (state == 96 && t[0] <= 0x8F)
    else false
  }

  /// What follows a leading byte when the whole is accepted.
  lemma NotRejected(d: State, bytes: seq<Byte>)
    requires Run(d, bytes).0.state == ACCEPTED && d.state != ACCEPTED
    ensures |bytes| > 0 && d.state != REJECTED
    ensures Run(Step(d, bytes[0]), bytes[1..]).0.state == ACCEPTED && Next(d.state, bytes[0]) != REJECTED
  {
    if d.state == REJECTED { RejectionAbsorbs(d, bytes); }
    if |bytes| > 0 {
      RunStep(d, bytes);
      StepIs(d, bytes[0]);
      if Next(d.state, bytes[0]) == REJECTED { RejectionAbsorbs(Step(d, bytes[0]), bytes[1..]); }
    }
  }

  lemma {:induction false} TailsOf(d: State, bytes: seq<Byte>) returns (k: nat)
    requires Run(d, bytes).0.state == ACCEPTED && d.state in {24, 36, 48, 60, 72, 84, 96}
    ensures k == (if d.state == 24 then 1 else if d.state in {36, 48, 60} then 2 else 3) && k <= |bytes|
    ensures (forall i :: 0 <= i < k ==> Tail(bytes[i])) && Leaves(d.state, bytes[..k])
    decreases |bytes|
  {
    NotRejected(d, bytes);
    Tails(bytes[0]);
    StepIs(d, bytes[0]);
    if d.state == 24 {
      k := 1;
    } else {
      var rest := TailsOf(Step(d, bytes[0]), bytes[1..]);
      k := rest + 1;
      forall i | 1 <= i < k ensures Tail(bytes[i]) { assert bytes[1..][i - 1] == bytes[i]; }
    }
  }

  /// An accepted text begins with a well-formed sequence.
  lemma FirstSequence(bytes: seq<Byte>) returns (k: nat)
    requires |bytes| > 0 && Accepts(bytes)
    ensures 1 <= k <= 4 && k <= |bytes| && WellFormed(bytes[..k])
  {
    var d := Step(START, bytes[0]);
    StepIs(START, bytes[0]);
    Leads(bytes[0]);
    RunStep(START, bytes);
    if d.state == REJECTED { RejectionAbsorbs(d, bytes[1..]); }
    if d.state == ACCEPTED {
      k := 1;
    } else {
      k := TailsOf(d, bytes[1..]);
      assert bytes[1..][..k] == bytes[..k + 1][1..];
      forall i | 1 <= i < k + 1 ensures Tail(bytes[i]) { assert bytes[i] == bytes[1..][i - 1]; }
      k := k + 1;
    }
  }

  /// The bytes of an accepted text are the encodings of the code points it yields.
  lemma {:induction false} AcceptedIsEncoded(bytes: seq<Byte>)
    requires Accepts(bytes)
    ensures var cps := Run(START, bytes).1; Scalars(cps) && EncodeAll(cps) == bytes
    decreases |bytes|
  {
    if |bytes| > 0 {
      var k := FirstSequence(bytes);
      var s, rest := bytes[..k], bytes[k..];
      assert bytes == s + rest;
      RunWellFormed(START, s);
      RunConcat(START, s, rest);
      RunFromAccepted(Run(START, s).0, rest);
      AcceptedIsEncoded(rest);
      DecodedIsScalar(s);
      assert Run(START, bytes).1[1..] == Run(START, rest).1;
    }
  }

  /// The encodings of scalar values are accepted and yield them back.
  lemma {:induction false} EncodedIsAccepted(cps: seq<nat>)
    requires Scalars(cps)
    ensures Accepts(EncodeAll(cps)) && Run(START, EncodeAll(cps)).1 == cps
  {
    if |cps| > 0 {
      var s, rest := Encode(cps[0]), EncodeAll(cps[1..]);
      EncodeIsWellFormed(cps[0]);
      RunWellFormed(START, s);
      RunConcat(START, s, rest);
      RunFromAccepted(Run(START, s).0, rest);
      EncodedIsAccepted(cps[1..]);
      assert [cps[0]] + cps[1..] == cps;
    }
  }

  /// So a byte string is accepted iff it is the encoding of a sequence of scalar values, of only one.
  lemma AcceptsIffEncoded(bytes: seq<Byte>)
    ensures Accepts(bytes) <==> exists cps: seq<nat> :: Scalars(cps) && EncodeAll(cps) == bytes
  {
    if Accepts(bytes) { AcceptedIsEncoded(bytes); }
    if cps: seq<nat> :| Scalars(cps) && EncodeAll(cps) == bytes { EncodedIsAccepted(cps); }
  }

  lemma {:induction false} EncodeConcat(a: seq<nat>, b: seq<nat>)
    requires Scalars(a) && Scalars(b)
    ensures Scalars(a + b) && EncodeAll(a + b) == EncodeAll(a) + EncodeAll(b)
  {
    if |a| == 0 {
      assert a + b == b;
    } else {
      EncodeConcat(a[1..], b);
      DropConcat(a, b);
      Associative(Encode(a[0]), EncodeAll(a[1..]), EncodeAll(b));
    }
  }

  lemma EncodeOne(cp: nat)
    requires Scalar(cp)
    ensures EncodeAll([cp]) == Encode(cp)
  {
    assert [cp][1..] == [];
  }

  // ----- the decoder

  class UnicodeDecoder {
    var codep: nat
    var state: nat

    function Abstract(): State
      reads this
    {
      State(codep, state)
    }

    constructor ()
      ensures Abstract() == START
    {
      codep, state := 0, ACCEPTED;
    }

    /// `decode(byte)`
    method Decode(b: Byte) returns (cp: nat, st: nat)
      modifies this
      ensures Abstract() == Step(old(Abstract()), b) && cp == codep && st == state
    {
      var kind := CharKind(b);
      codep := if state != 0 then Continue(codep, b) else Lead(kind, b);
      state := Trans(state, kind);
      cp, st := codep, state;
    }

    /// `decode(str)` yields the first code point that the bytes complete and the rest, and throws if they complete
    /// none. In the accepting state that is the code point the text begins with. After an earlier throw the decoder may
    /// be in another state: it then completes what it has begun, or, once it has rejected, always throws.
    method DecodeFirst(str: seq<Byte>) returns (r: Option<(nat, seq<Byte>)>)
      modifies this
      ensures r.Some? ==> state == ACCEPTED && CompletesFirst(old(Abstract()), str, r.value.0, r.value.1)
      ensures r == None ==> CompletesNone(old(Abstract()), str)
      ensures old(state) == ACCEPTED ==>
        if r.Some? then Scalar(r.value.0) && str == Encode(r.value.0) + r.value.1
        else forall cp: nat, rest: seq<Byte> :: Scalar(cp) ==> str != Encode(cp) + rest
      ensures old(state) == REJECTED ==> r == None
    {
      ghost var start := Abstract();
      var i := 0;
      while i < |str|
        invariant i <= |str|
        invariant Abstract() == Run(start, str[..i]).0 && Run(start, str[..i]).1 == []
        invariant i > 0 ==> state != ACCEPTED && state != REJECTED
      {
        AppendByte(start, str, i);
        var cp, st := Decode(str[i]);
        i := i + 1;
        if st == ACCEPTED {
          FoundFirst(start, str, i, cp);
          return Some((cp, str[i..]));
        } else if st == REJECTED {
          NoneFits(start, str, i);
          return None;
        }
      }
      assert str[..|str|] == str;
      NoneFits(start, str, |str|);
      r := None;
    }
  }

  /// From state `d`, some bytes complete `cp` and nothing before it, and `rest` is left.
  ghost predicate CompletesFirst(d: State, str: seq<Byte>, cp: nat, rest: seq<Byte>) {
    |rest| < |str| && var k := |str| - |rest|;
    str[k..] == rest && Run(d, str[..k]).0 == State(cp, ACCEPTED) && Run(d, str[..k]).1 == [cp]
  }

  ghost predicate CompletesNone(d: State, str: seq<Byte>) { Run(d, str).1 == [] }

  lemma AppendByte(d: State, str: seq<Byte>, i: nat)
    requires i < |str|
    ensures var e := Step(Run(d, str[..i]).0, str[i]);
            && Run(d, str[..i + 1]).0 == e
            && Run(d, str[..i + 1]).1 == Run(d, str[..i]).1 + if e.state == ACCEPTED then [e.codep] else []
  {
    var e := Run(d, str[..i]).0;
    assert str[..i + 1] == str[..i] + [str[i]];
    RunConcat(d, str[..i], [str[i]]);
    RunStep(e, [str[i]]);
    assert [str[i]][1..] == [];
    assert Run(Step(e, str[i]), []) == (Step(e, str[i]), []);
  }

  lemma FoundFirst(d: State, str: seq<Byte>, i: nat, cp: nat)
    requires 0 < i <= |str| && Run(d, str[..i]).0 == State(cp, ACCEPTED) && Run(d, str[..i]).1 == [cp]
    ensures CompletesFirst(d, str, cp, str[i..])
    ensures d.state == ACCEPTED ==> Scalar(cp) && str == Encode(cp) + str[i..]
    ensures d.state != REJECTED
  {
    TakeDrop(str, i);
    if d.state == ACCEPTED { FirstIs(d, str[..i], cp); }
    if d.state == REJECTED { RejectionAbsorbs(d, str[..i]); }
  }

  /// Going through `UnicodeStringView`: decodes the first code point of what is left until nothing is. Throws iff the
  /// text is not well-formed.
  method DecodeAll(str: seq<Byte>) returns (r: Option<seq<nat>>)
    ensures r.Some? <==> Accepts(str)
    ensures r.Some? ==> Scalars(r.value) && EncodeAll(r.value) == str
  {
    var decoder := new UnicodeDecoder();
    var cps: seq<nat> := [];
    var view := str;
    while |view| > 0
      invariant decoder.state == ACCEPTED
      invariant Scalars(cps) && str == EncodeAll(cps) + view
    {
      var first := decoder.DecodeFirst(view);
      if first == None {
        RestNotAccepted(cps, view);
        return None;
      }
      var (cp, rest) := first.value;
      EncodeMore(cps, cp, rest);
      cps, view := cps + [cp], rest;
    }
    assert EncodeAll(cps) + [] == EncodeAll(cps);
    EncodedIsAccepted(cps);
    r := Some(cps);
  }

  lemma EncodeMore(cps: seq<nat>, cp: nat, rest: seq<Byte>)
    requires Scalars(cps) && Scalar(cp)
    ensures Scalars(cps + [cp]) && EncodeAll(cps) + (Encode(cp) + rest) == EncodeAll(cps + [cp]) + rest
  {
    EncodeConcat(cps, [cp]);
    EncodeOne(cp);
  }

  /// A text is not well-formed if what follows some of its code points begins with none.
  lemma RestNotAccepted(cps: seq<nat>, view: seq<Byte>)
    requires Scalars(cps) && |view| > 0
    requires forall cp: nat, rest: seq<Byte> :: Scalar(cp) ==> view != Encode(cp) + rest
    ensures !Accepts(EncodeAll(cps) + view)
  {
    EncodedIsAccepted(cps);
    RunConcat(START, EncodeAll(cps), view);
    RunFromAccepted(Run(START, EncodeAll(cps)).0, view);
    if Accepts(view) { AcceptedIsEncoded(view); }
  }

  lemma FirstIs(d: State, s: seq<Byte>, cp: nat)
    requires |s| > 0 && d.state == ACCEPTED && Run(d, s).0.state == ACCEPTED && Run(d, s).1 == [cp]
    ensures Scalar(cp) && Encode(cp) == s
  {
    RunFromAccepted(d, s);
    AcceptedIsEncoded(s);
    var cps := Run(START, s).1;
    assert cps == [cp] && cps[1..] == [];
  }

  /// No code point begins a text whose first `i` bytes complete none and are either all of it or rejected.
  lemma NoneFits(d: State, str: seq<Byte>, i: nat)
    requires i <= |str| && Run(d, str[..i]).1 == []
    requires i == |str| || Run(d, str[..i]).0.state == REJECTED
    ensures CompletesNone(d, str)
    ensures d.state == ACCEPTED ==> forall cp: nat, rest: seq<Byte> :: Scalar(cp) ==> str != Encode(cp) + rest
  {
    TakeDrop(str, i);
    RunConcat(d, str[..i], str[i..]);
    if i == |str| { assert str[i..] == []; } else { RejectionAbsorbs(Run(d, str[..i]).0, str[i..]); }
    if d.state == ACCEPTED {
      forall cp: nat, rest: seq<Byte> | Scalar(cp) ensures str != Encode(cp) + rest {
        if str == Encode(cp) + rest { CompletesOwn(d, cp, rest); }
      }
    }
  }

  lemma CompletesOwn(d: State, cp: nat, rest: seq<Byte>)
    requires d.state == ACCEPTED && Scalar(cp)
    ensures Run(d, Encode(cp) + rest).1 != []
  {
    EncodeIsWellFormed(cp);
    RunWellFormed(d, Encode(cp));
    RunConcat(d, Encode(cp), rest);
  }
}
