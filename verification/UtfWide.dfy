/** 16-bit wide characters: Utf<32>::EncodeWide and DecodeWide(it, end), against RFC 2781 sections 2.1
    and 2.2. */
module UtfWide {
  import opened Utf

  type Unit = bv16

  const Replacement: Code := 0xFFFD

  function Low16(x: Code): Unit {
    (x & 0xFFFF) as Unit
  }

  function Wide(u: Unit): Code {
    u as Code
  }

  predicate IsHigh(u: Unit) {
    0xD800 <= u && u <= 0xDBFF
  }

  predicate IsLow(u: Unit) {
    0xDC00 <= u && u <= 0xDFFF
  }

  /** The code of a surrogate pair. */
  function Joined(high: Unit, low: Unit): Code {
    0x1_0000 + ((Wide(high) - 0xD800) << 10) + (Wide(low) - 0xDC00)
  }

  function HighOf(c: Code): Unit {
    Low16(0xD800 + ((c - 0x1_0000) >> 10))
  }

  function LowOf(c: Code): Unit {
    Low16(0xDC00 + ((c - 0x1_0000) & 0x3FF))
  }

  /** EncodeWide: a replacement of 0 leaves out what is no scalar value. */
  function EncodeUnit(c: Code, replacement: Unit): seq<Unit> {
    if c <= 0xFFFF then
      if c < 0xD800 || c > 0xDFFF then [Low16(c)] else if replacement != 0 then [replacement] else []
    else if c <= 0x10_FFFF then [HighOf(c), LowOf(c)]
    else if replacement != 0 then [replacement] else []
  }

  /** DecodeWide(it, end): where decoding goes on, and the code. */
  function DecodeUnit(s: seq<Unit>, it: nat): (nat, Code)
    requires it < |s|
  {
    var w1 := s[it];
    if IsHigh(w1) then
      if it + 1 < |s| && IsLow(s[it + 1]) then (it + 2, Joined(w1, s[it + 1])) else (it + 1, Replacement)
    else if IsLow(w1) then (it + 1, Replacement)
    else (it + 1, Wide(w1))
  }

  // ---------- RFC 2781 ----------

  /** Section 2.1: a value below 0x10000 is its own unit; above it, U' = U - 0x10000 is distributed over
      the ten low-order bits of 0xD800 and 0xDC00. */
  function UnitsOf(c: Code): seq<Unit>
    requires Scalar(c)
  {
    if c < 0x1_0000 then [Low16(c)]
    else
      var u := c - 0x1_0000;
      [Low16(0xD800 | (u >> 10)), Low16(0xDC00 | (u & 0x3FF))]
  }

  lemma EncodesByRfc(c: Code, replacement: Unit)
    requires Scalar(c)
    ensures EncodeUnit(c, replacement) == UnitsOf(c)
  {
  }

  /** Nothing but scalar values is encoded. */
  lemma EncodesScalarsOnly(c: Code)
    ensures EncodeUnit(c, 0) != [] <==> Scalar(c)
    ensures !Scalar(c) ==> forall r | r != 0 :: EncodeUnit(c, r) == [r]
  {
    hide HighOf, LowOf, Low16;
  }

  /** Section 2.2: a pair gives the ten bits of each half, plus 0x10000. */
  lemma JoinedByRfc(high: Unit, low: Unit)
    requires IsHigh(high) && IsLow(low)
    ensures Joined(high, low) == (((Wide(high) & 0x3FF) << 10) | (Wide(low) & 0x3FF)) + 0x1_0000
    ensures 0x1_0000 <= Joined(high, low) <= 0x10_FFFF
    ensures HighOf(Joined(high, low)) == high && LowOf(Joined(high, low)) == low
  {
  }

  lemma Kept(x: Code)
    requires x <= 0xFFFF
    ensures Wide(Low16(x)) == x
  {
  }

  lemma SurrogateByCode(u: Unit)
    ensures IsHigh(u) <==> 0xD800 <= Wide(u) <= 0xDBFF
    ensures IsLow(u) <==> 0xDC00 <= Wide(u) <= 0xDFFF
  {
  }

  function HighCode(c: Code): Code {
    0xD800 + ((c - 0x1_0000) >> 10)
  }

  function LowCode(c: Code): Code {
    0xDC00 + ((c - 0x1_0000) & 0x3FF)
  }

  /** The halves before they are cut to 16 bits. */
  lemma HighInRange(c: Code)
    requires 0x1_0000 <= c <= 0x10_FFFF
    ensures 0xD800 <= HighCode(c) <= 0xDBFF
    ensures HighCode(c) - 0xD800 == (c - 0x1_0000) >> 10
  {
  }

  lemma LowInRange(c: Code)
    requires 0x1_0000 <= c <= 0x10_FFFF
    ensures 0xDC00 <= LowCode(c) <= 0xDFFF
    ensures LowCode(c) - 0xDC00 == (c - 0x1_0000) & 0x3FF
  {
  }

  lemma TenBits(c: Code)
    requires 0x1_0000 <= c <= 0x10_FFFF
    ensures 0x1_0000 + (((c - 0x1_0000) >> 10) << 10) + ((c - 0x1_0000) & 0x3FF) == c
  {
  }

  lemma HalfCodes(c: Code)
    requires 0x1_0000 <= c <= 0x10_FFFF
    ensures 0x1_0000 + ((HighCode(c) - 0xD800) << 10) + (LowCode(c) - 0xDC00) == c
  {
    hide HighCode, LowCode;
    HighInRange(c);
    LowInRange(c);
    TenBits(c);
  }

  lemma HalvesOf(c: Code)
    requires 0x1_0000 <= c <= 0x10_FFFF
    ensures IsHigh(HighOf(c)) && IsLow(LowOf(c)) && Joined(HighOf(c), LowOf(c)) == c
  {
    hide Low16, Wide, IsHigh, IsLow;
    HighInRange(c);
    LowInRange(c);
    HalfCodes(c);
    Kept(HighCode(c));
    Kept(LowCode(c));
    SurrogateByCode(HighOf(c));
    SurrogateByCode(LowOf(c));
  }

  lemma PlainUnit(c: Code)
    requires Scalar(c) && c <= 0xFFFF
    ensures !IsHigh(Low16(c)) && !IsLow(Low16(c)) && Wide(Low16(c)) == c
  {
    hide Low16, Wide, IsHigh, IsLow;
    Kept(c);
    SurrogateByCode(Low16(c));
  }

  lemma PlainWide(u: Unit)
    requires !IsHigh(u) && !IsLow(u)
    ensures Scalar(Wide(u)) && Wide(u) <= 0xFFFF && Low16(Wide(u)) == u
  {
  }

  /** Decoding always gets on and always gives a scalar value, whatever the units are. */
  lemma DecodesScalars(s: seq<Unit>, it: nat)
    requires it < |s|
    ensures it < DecodeUnit(s, it).0 <= |s| && Scalar(DecodeUnit(s, it).1)
  {
    hide Joined, IsHigh, IsLow, Wide;
    var w1 := s[it];
    assert Scalar(Replacement);
    if IsHigh(w1) {
      if it + 1 < |s| && IsLow(s[it + 1]) {
        JoinedByRfc(w1, s[it + 1]);
        AboveIsScalar(Joined(w1, s[it + 1]));
      }
    } else if !IsLow(w1) {
      PlainWide(w1);
    }
  }

  lemma AboveIsScalar(c: Code)
    requires 0x1_0000 <= c <= 0x10_FFFF
    ensures Scalar(c)
  {
  }

  // ---------- strings ----------

  /** Utf<32>::ToWide */
  function EncodeAllWide(codes: seq<Code>): seq<Unit> {
    if codes == [] then [] else EncodeUnit(codes[0], 0) + EncodeAllWide(codes[1..])
  }

  /** Utf<32>::FromWide from a position on. */
  function DecodeWideFrom(s: seq<Unit>, it: nat): seq<Code>
    requires it <= |s|
    decreases |s| - it
  {
    if it == |s| then []
    else
      DecodesScalars(s, it);
      var (next, code) := DecodeUnit(s, it);
      [code] + DecodeWideFrom(s, next)
  }

  function ScalarsOnly(codes: seq<Code>): seq<Code> {
    if codes == [] then [] else (if Scalar(codes[0]) then [codes[0]] else []) + ScalarsOnly(codes[1..])
  }

  /** The units of one scalar value are decoded wherever they stand. */
  lemma OneRoundTripWide(c: Code, s: seq<Unit>, it: nat)
    requires Scalar(c) && it + |EncodeUnit(c, 0)| <= |s| && s[it..it + |EncodeUnit(c, 0)|] == EncodeUnit(c, 0)
    ensures EncodeUnit(c, 0) != [] && DecodeUnit(s, it) == (it + |EncodeUnit(c, 0)|, c)
  {
    hide HighOf, LowOf, Low16, Joined, IsHigh, IsLow, Wide;
    var units := EncodeUnit(c, 0);
    var w := s[it..it + |units|];
    if c <= 0xFFFF {
      PlainUnit(c);
      assert w[0] == s[it];
    } else {
      HalvesOf(c);
      SurrogatesDiffer(HighOf(c));
      assert w[0] == s[it] && w[1] == s[it + 1];
    }
  }

  lemma SurrogatesDiffer(u: Unit)
    ensures !(IsHigh(u) && IsLow(u))
  {
  }

  lemma PlacedWide(front: seq<Unit>, units: seq<Unit>, rest: seq<Unit>)
    ensures var s := front + (units + rest);
            s == front + units + rest && s[|front|..|front| + |units|] == units
  {
  }

  lemma {:induction false} DecodeEncodedWide(front: seq<Unit>, codes: seq<Code>)
    ensures DecodeWideFrom(front + EncodeAllWide(codes), |front|) == ScalarsOnly(codes)
    decreases |codes|
  {
    hide DecodeUnit, EncodeUnit, Scalar;
    if codes == [] {
      assert front + EncodeAllWide(codes) == front;
    } else {
      hide EncodeAllWide, ScalarsOnly;
      var units, rest := EncodeUnit(codes[0], 0), EncodeAllWide(codes[1..]);
      FirstEncodedWide(codes);
      PlacedWide(front, units, rest);
      EncodesScalarsOnly(codes[0]);
      DecodeEncodedWide(front + units, codes[1..]);
      if Scalar(codes[0]) {
        OneRoundTripWide(codes[0], front + (units + rest), |front|);
      } else {
        assert front + units == front;
      }
    }
  }

  lemma FirstEncodedWide(codes: seq<Code>)
    requires codes != []
    ensures EncodeAllWide(codes) == EncodeUnit(codes[0], 0) + EncodeAllWide(codes[1..])
    ensures ScalarsOnly(codes) == (if Scalar(codes[0]) then [codes[0]] else []) + ScalarsOnly(codes[1..])
  {
    hide EncodeUnit, Scalar;
  }

  lemma {:induction false} AllScalar(codes: seq<Code>)
    ensures |ScalarsOnly(codes)| <= |codes|
    ensures ScalarsOnly(codes) == codes <==> forall c | c in codes :: Scalar(c)
    decreases |codes|
  {
    hide Scalar;
    if codes != [] {
      AllScalar(codes[1..]);
      assert codes == [codes[0]] + codes[1..];
      if ScalarsOnly(codes) == codes {
        assert |ScalarsOnly(codes)| == |codes|;
        assert Scalar(codes[0]);
        assert ScalarsOnly(codes)[1..] == ScalarsOnly(codes[1..]);
      }
    }
  }

  /** Decoding what was encoded gives the string without what is no scalar value: the string itself
      exactly when it is a string of scalar values. */
  lemma WideRoundTrip(codes: seq<Code>)
    ensures DecodeWideFrom(EncodeAllWide(codes), 0) == ScalarsOnly(codes)
    ensures DecodeWideFrom(EncodeAllWide(codes), 0) == codes <==> forall c | c in codes :: Scalar(c)
  {
    hide DecodeWideFrom, EncodeAllWide, ScalarsOnly, Scalar;
    DecodeEncodedWide([], codes);
    assert [] + EncodeAllWide(codes) == EncodeAllWide(codes);
    AllScalar(codes);
  }

  // ---------- the other way round ----------

  /** Every surrogate from a position on stands in a pair. */
  predicate Paired(s: seq<Unit>, it: nat)
    requires it <= |s|
    decreases |s| - it
  {
    if it == |s| then true
    else if IsHigh(s[it]) then it + 1 < |s| && IsLow(s[it + 1]) && Paired(s, it + 2)
    else !IsLow(s[it]) && Paired(s, it + 1)
  }

  /** What one decoding step consumes is what its code encodes to, unless a surrogate was unpaired. */
  lemma StepBack(s: seq<Unit>, it: nat)
    requires it < |s|
    ensures var (next, code) := DecodeUnit(s, it);
            && |EncodeUnit(code, 0)| == next - it
            && (EncodeUnit(code, 0) == s[it..next] <==>
                  if IsHigh(s[it]) then it + 1 < |s| && IsLow(s[it + 1]) else !IsLow(s[it]))
  {
    hide EncodeUnit, Joined, IsHigh, IsLow, Wide, Low16;
    var w1 := s[it];
    ReplacementUnit();
    SurrogatesDiffer(w1);
    assert s[it..it + 1] == [w1];
    if IsHigh(w1) && it + 1 < |s| && IsLow(s[it + 1]) {
      PairBack(w1, s[it + 1]);
      assert s[it..it + 2] == [w1, s[it + 1]];
    } else if !IsHigh(w1) && !IsLow(w1) {
      PlainBack(w1);
    }
  }

  lemma PairBack(high: Unit, low: Unit)
    requires IsHigh(high) && IsLow(low)
    ensures EncodeUnit(Joined(high, low), 0) == [high, low]
  {
    hide HighOf, LowOf, Low16, Joined, IsHigh, IsLow, Wide;
    JoinedByRfc(high, low);
  }

  lemma PlainBack(unit: Unit)
    requires !IsHigh(unit) && !IsLow(unit)
    ensures EncodeUnit(Wide(unit), 0) == [unit]
  {
    hide HighOf, LowOf, Low16, IsHigh, IsLow, Wide;
    PlainWide(unit);
  }

  lemma ReplacementUnit()
    ensures EncodeUnit(Replacement, 0) == [Low16(Replacement)]
    ensures !IsHigh(Low16(Replacement)) && !IsLow(Low16(Replacement))
  {
  }

  lemma {:induction false} EncodeDecoded(s: seq<Unit>, it: nat)
    requires it <= |s|
    ensures |EncodeAllWide(DecodeWideFrom(s, it))| == |s| - it
    ensures EncodeAllWide(DecodeWideFrom(s, it)) == s[it..] <==> Paired(s, it)
    decreases |s| - it
  {
    hide DecodeUnit, EncodeUnit, IsHigh, IsLow;
    if it < |s| {
      DecodesScalars(s, it);
      NextIs(s, it);
      StepBack(s, it);
      var (next, code) := DecodeUnit(s, it);
      EncodeDecoded(s, next);
      assert DecodeWideFrom(s, it)[1..] == DecodeWideFrom(s, next);
      HeadAndTail(EncodeUnit(code, 0), EncodeAllWide(DecodeWideFrom(s, next)), s[it..next], s[next..]);
      assert s[it..] == s[it..next] + s[next..];
    }
  }

  lemma NextIs(s: seq<Unit>, it: nat)
    requires it < |s|
    ensures IsHigh(s[it]) && it + 1 < |s| && IsLow(s[it + 1]) ==> DecodeUnit(s, it).0 == it + 2
    ensures !(IsHigh(s[it]) && it + 1 < |s| && IsLow(s[it + 1])) ==> DecodeUnit(s, it).0 == it + 1
  {
    hide IsHigh, IsLow;
  }

  lemma HeadAndTail(a: seq<Unit>, b: seq<Unit>, x: seq<Unit>, y: seq<Unit>)
    requires |a| == |x|
    ensures a + b == x + y <==> a == x && b == y
  {
    if a + b == x + y {
      assert a == (a + b)[..|a|] && x == (x + y)[..|a|];
      assert b == (a + b)[|a|..] && y == (x + y)[|a|..];
    }
  }

  /** Encoding what was decoded gives the units back exactly when every surrogate stands in a pair. */
  lemma UnitsRoundTrip(s: seq<Unit>)
    ensures EncodeAllWide(DecodeWideFrom(s, 0)) == s <==> Paired(s, 0)
  {
    EncodeDecoded(s, 0);
    assert s[0..] == s;
  }

  /** A surrogate without its other half beside it. */
  predicate Unpaired(s: seq<Unit>, i: nat)
    requires i < |s|
  {
    if 0xD800 <= s[i] && s[i] <= 0xDBFF then !(i + 1 < |s| && 0xDC00 <= s[i + 1] && s[i + 1] <= 0xDFFF)
    else 0xDC00 <= s[i] && s[i] <= 0xDFFF && !(i > 0 && 0xD800 <= s[i - 1] && s[i - 1] <= 0xDBFF)
  }

  /** U+FFFD in the place of every such surrogate. */
  function Repaired(s: seq<Unit>): (r: seq<Unit>)
    ensures |r| == |s|
  {
    seq(|s|, i requires 0 <= i < |s| => if Unpaired(s, i) then 0xFFFD else s[i])
  }

  /** Decoding does not go on in the middle of a pair. */
  predicate Between(s: seq<Unit>, it: nat)
    requires it <= |s|
  {
    !(0 < it < |s| && IsHigh(s[it - 1]) && IsLow(s[it]))
  }

  lemma StepRepairs(s: seq<Unit>, it: nat)
    requires it < |s| && Between(s, it)
    ensures var (next, code) := DecodeUnit(s, it);
            && it < next <= |s| && Between(s, next)
            && EncodeUnit(code, 0) == Repaired(s)[it..next]
  {
    hide EncodeUnit, Joined, Wide, Low16;
    var w1 := s[it];
    ReplacementUnit();
    SurrogatesDiffer(w1);
    if IsHigh(w1) && it + 1 < |s| && IsLow(s[it + 1]) {
      PairBack(w1, s[it + 1]);
      SurrogatesDiffer(s[it + 1]);
      assert Repaired(s)[it..it + 2] == [w1, s[it + 1]];
    } else if !IsHigh(w1) && !IsLow(w1) {
      PlainBack(w1);
      assert !Unpaired(s, it);
      assert Repaired(s)[it] == w1;
    } else {
      assert Low16(Replacement) == 0xFFFD by {
        ReplacementIs();
      }
      assert Unpaired(s, it);
      assert Repaired(s)[it] == 0xFFFD;
    }
  }

  lemma ReplacementIs()
    ensures Low16(Replacement) == 0xFFFD
  {
  }

  lemma {:induction false} RepairsFrom(s: seq<Unit>, it: nat)
    requires it <= |s| && Between(s, it)
    ensures EncodeAllWide(DecodeWideFrom(s, it)) == Repaired(s)[it..]
    decreases |s| - it
  {
    hide DecodeUnit, EncodeUnit, Repaired, Between;
    if it < |s| {
      StepRepairs(s, it);
      var (next, code) := DecodeUnit(s, it);
      RepairsFrom(s, next);
      assert DecodeWideFrom(s, it)[1..] == DecodeWideFrom(s, next);
      assert Repaired(s)[it..] == Repaired(s)[it..next] + Repaired(s)[next..];
    }
  }

  /** Decoding any units gives the string of scalar values that the units encode when U+FFFD has been put in
      the place of every unpaired surrogate. */
  lemma RepairsUnits(s: seq<Unit>)
    ensures EncodeAllWide(DecodeWideFrom(s, 0)) == Repaired(s)
    ensures forall c | c in DecodeWideFrom(s, 0) :: Scalar(c)
  {
    hide Repaired;
    RepairsFrom(s, 0);
    DecodedScalars(s, 0);
    assert Repaired(s)[0..] == Repaired(s);
  }

  lemma {:induction false} DecodedScalars(s: seq<Unit>, it: nat)
    requires it <= |s|
    ensures forall c | c in DecodeWideFrom(s, it) :: Scalar(c)
    decreases |s| - it
  {
    hide DecodeUnit, Scalar;
    if it < |s| {
      DecodesScalars(s, it);
      DecodedScalars(s, DecodeUnit(s, it).0);
    }
  }

  // ---------- the loops ----------

  method DecodeWide(s: seq<Unit>, it: nat) returns (next: nat, code: Code)
    requires it < |s|
    ensures (next, code) == DecodeUnit(s, it)
  {
    hide Joined, Wide, IsHigh, IsLow;
    var w1 := s[it];
    next := it + 1;
    if IsHigh(w1) {
      if next != |s| {
        var w2 := s[next];
        if IsLow(w2) {
          return next + 1, Joined(w1, w2);
        }
      }
      return next, Replacement;
    } else if IsLow(w1) {
      return next, Replacement;
    }
    code := Wide(w1);
  }

  method EncodeWide(codepoint: Code, replacement: Unit) returns (output: seq<Unit>)
    ensures output == EncodeUnit(codepoint, replacement)
  {
    hide HighOf, LowOf, Low16;
    output := [];
    if codepoint <= 0xFFFF {
      if codepoint < 0xD800 || codepoint > 0xDFFF {
        output := output + [Low16(codepoint)];
      } else if replacement != 0 {
        output := output + [replacement];
      }
    } else if codepoint <= 0x10_FFFF {
      var high, low := HighOf(codepoint), LowOf(codepoint);
      output := output + [high];
      output := output + [low];
    } else if replacement != 0 {
      output := output + [replacement];
    }
  }

  method FromWide(s: seq<Unit>) returns (output: seq<Code>)
    ensures output == DecodeWideFrom(s, 0)
  {
    hide DecodeUnit, DecodeWideFrom;
    output := [];
    var begin := 0;
    while begin < |s|
      invariant begin <= |s| && DecodeWideFrom(s, 0) == output + DecodeWideFrom(s, begin)
    {
      DecodesScalars(s, begin);
      DecodesNext(s, begin, output);
      var next, code := DecodeWide(s, begin);
      output := output + [code];
      begin := next;
    }
    DecodesNone(s);
  }

  lemma DecodesNext(s: seq<Unit>, begin: nat, output: seq<Code>)
    requires begin < |s| && begin < DecodeUnit(s, begin).0 <= |s|
    ensures var (next, code) := DecodeUnit(s, begin);
            output + DecodeWideFrom(s, begin) == output + [code] + DecodeWideFrom(s, next)
  {
    hide DecodeUnit;
  }

  lemma DecodesNone(s: seq<Unit>)
    ensures DecodeWideFrom(s, |s|) == []
  {
  }

  method ToWide(codes: seq<Code>) returns (output: seq<Unit>)
    ensures output == EncodeAllWide(codes)
  {
    hide EncodeUnit;
    output := [];
    assert codes[0..] == codes;
    for i := 0 to |codes|
      invariant EncodeAllWide(codes) == output + EncodeAllWide(codes[i..])
    {
      var units := EncodeWide(codes[i], 0);
      assert codes[i..][1..] == codes[i + 1..];
      output := output + units;
    }
  }
}
