/** UTF-8 and 16-bit wide transcoding on machine words, against RFC 3629 section 3 and RFC 2781
    sections 2.1 and 2.2. */
module Utf {

  type Code = bv32

  // ---------- UTF-8 ----------

  /** The table of trailing bytes by first byte. */
  function Trailing(first: bv8): (n: nat)
    ensures n <= 5
  {
    if first < 0xC0 then 0
    else if first < 0xE0 then 1
    else if first < 0xF0 then 2
    else if first < 0xF8 then 3
    else if first < 0xFC then 4
    else 5
  }

  function Offset(trailing: nat): Code
    requires trailing <= 5
  {
    if trailing == 0 then 0
    else if trailing == 1 then 0x0000_3080
    else if trailing == 2 then 0x000E_2080
    else if trailing == 3 then 0x03C8_2080
    else if trailing == 4 then 0xFA08_2080
    else 0x8208_2080
  }

  /** Shift and add over n + 1 bytes. */
  function Accumulate(s: seq<bv8>, begin: nat, n: nat): Code
    requires begin + n < |s|
  {
    if n == 0 then Widened(s[begin]) else Shifted(Accumulate(s, begin, n - 1), s[begin + n])
  }

  function Widened(b: bv8): Code {
    b as Code
  }

  /** output += the next byte. */
  function Plus(output: Code, b: bv8): Code {
    output + b as Code
  }

  /** output <<= 6 */
  function Shift6(output: Code): Code {
    output << 6
  }

  function Shifted(output: Code, b: bv8): Code {
    Plus(Shift6(output), b)
  }

  /** output -= offsets[n], modulo 2^32. */
  function WithoutOffset(output: Code, n: nat): Code
    requires n <= 5
  {
    output - Offset(n)
  }

  /** Utf<8>::Decode: where decoding goes on, and the decoded code. */
  function DecodeAt(s: seq<bv8>, begin: nat, replacement: Code): (nat, Code)
    requires begin < |s|
  {
    var n := Trailing(s[begin]);
    if begin + n < |s| then (begin + n + 1, WithoutOffset(Accumulate(s, begin, n), n)) else (|s|, replacement)
  }

  function Low8(x: Code): bv8 {
    (x & 0xFF) as bv8
  }

  /** What Encode takes for a character: up to 0x10FFFF, without 0xD800 to 0xDBFF. */
  predicate Encodable(c: Code) {
    !(c > 0x0010_FFFF || (c >= 0xD800 && c <= 0xDBFF))
  }

  function BytesToWrite(c: Code): nat {
    if c < 0x80 then 1 else if c < 0x800 then 2 else if c < 0x1_0000 then 3 else 4
  }

  function FirstByte(n: nat): Code
    requires n <= 4
  {
    if n <= 1 then 0x00 else if n == 2 then 0xC0 else if n == 3 then 0xE0 else 0xF0
  }

  function LeadByte(c: Code, n: nat): bv8
    requires n <= 4
  {
    Low8(c | FirstByte(n))
  }

  /** input >>= 6 */
  function Right6(c: Code): Code {
    c >> 6
  }

  function ContinuationByte(c: Code): bv8 {
    Low8((c | 0x80) & 0xBF)
  }

  /** Utf<8>::Encode: a replacement of 0 leaves invalid characters out. */
  function EncodeOne(c: Code, replacement: bv8): seq<bv8> {
    if !Encodable(c) then (if replacement != 0 then [replacement] else [])
    else
      var n := BytesToWrite(c);
      if n == 1 then [LeadByte(c, 1)]
      else if n == 2 then [LeadByte(Right6(c), 2), ContinuationByte(c)]
      else if n == 3 then [LeadByte(Right6(Right6(c)), 3), ContinuationByte(Right6(c)), ContinuationByte(c)]
      else [LeadByte(Right6(Right6(Right6(c))), 4), ContinuationByte(Right6(Right6(c))), ContinuationByte(Right6(c)),
            ContinuationByte(c)]
  }

  // ---------- RFC 3629 section 3 ----------

  predicate Scalar(c: Code) {
    c <= 0x0010_FFFF && !(0xD800 <= c && c <= 0xDFFF)
  }

  function Bits(c: Code, shift: nat, mask: Code): Code
    requires shift <= 18
  {
    (c >> shift) & mask
  }

  /** The table of section 3: fixed high-order bits in every octet, the bits of the character number in
      the rest, most significant first. */
  function Octets(c: Code): seq<bv8>
    requires Scalar(c)
  {
    if c <= 0x7F then [Low8(Bits(c, 0, 0x7F))]
    else if c <= 0x7FF then [Low8(0xC0 | Bits(c, 6, 0x1F)), Low8(0x80 | Bits(c, 0, 0x3F))]
    else if c <= 0xFFFF then
      [Low8(0xE0 | Bits(c, 12, 0x0F)), Low8(0x80 | Bits(c, 6, 0x3F)), Low8(0x80 | Bits(c, 0, 0x3F))]
    else
      [Low8(0xF0 | Bits(c, 18, 0x07)), Low8(0x80 | Bits(c, 12, 0x3F)), Low8(0x80 | Bits(c, 6, 0x3F)),
       Low8(0x80 | Bits(c, 0, 0x3F))]
  }

  /** For every scalar value the encoder writes the octets of the RFC. */
  lemma EncodesByRfc(c: Code, replacement: bv8)
    requires Scalar(c)
    ensures Encodable(c) && EncodeOne(c, replacement) == Octets(c)
  {
    hide Low8, ContinuationByte, LeadByte, Bits, Right6;
    ContinuationBits(c);
    LeadBits(c);
  }

  lemma ContinuationBits(c: Code)
    ensures ContinuationByte(c) == Low8(0x80 | Bits(c, 0, 0x3F))
    ensures ContinuationByte(Right6(c)) == Low8(0x80 | Bits(c, 6, 0x3F))
    ensures ContinuationByte(Right6(Right6(c))) == Low8(0x80 | Bits(c, 12, 0x3F))
  {
  }

  lemma LeadBits(c: Code)
    requires c <= 0x0010_FFFF
    ensures c <= 0x7F ==> LeadByte(c, 1) == Low8(Bits(c, 0, 0x7F))
    ensures 0x7F < c <= 0x7FF ==> LeadByte(Right6(c), 2) == Low8(0xC0 | Bits(c, 6, 0x1F))
    ensures 0x7FF < c <= 0xFFFF ==> LeadByte(Right6(Right6(c)), 3) == Low8(0xE0 | Bits(c, 12, 0x0F))
    ensures 0xFFFF < c ==> LeadByte(Right6(Right6(Right6(c))), 4) == Low8(0xF0 | Bits(c, 18, 0x07))
  {
  }

  /** The encoder takes exactly the scalar values and, against the RFC, the low surrogates. */
  lemma EncodableIs(c: Code)
    ensures Encodable(c) <==> Scalar(c) || (0xDC00 <= c && c <= 0xDFFF)
    ensures EncodeOne(c, 0) != [] <==> Encodable(c)
    ensures !Encodable(c) ==> forall r | r != 0 :: EncodeOne(c, r) == [r]
  {
  }

  // ---------- one character there and back ----------

  // The four lengths, each as arithmetic on its bytes alone.

  lemma Bits1(c: Code)
    requires c < 0x80
    ensures var a := LeadByte(c, 1); Trailing(a) == 0 && WithoutOffset(Widened(a), 0) == c
  {
  }

  lemma Bits2(c: Code)
    requires 0x80 <= c < 0x800
    ensures var a, b := LeadByte(Right6(c), 2), ContinuationByte(c);
            Trailing(a) == 1 && WithoutOffset(Shifted(Widened(a), b), 1) == c
  {
  }

  lemma Bits3(c: Code)
    requires 0x800 <= c < 0x1_0000
    ensures var a, b, d := LeadByte(Right6(Right6(c)), 3), ContinuationByte(Right6(c)), ContinuationByte(c);
            Trailing(a) == 2 && WithoutOffset(Shifted(Shifted(Widened(a), b), d), 2) == c
  {
  }

  lemma Bits4(c: Code)
    requires 0x1_0000 <= c <= 0x10_FFFF
    ensures var a, b := LeadByte(Right6(Right6(Right6(c))), 4), ContinuationByte(Right6(Right6(c)));
            var d, e := ContinuationByte(Right6(c)), ContinuationByte(c);
            Trailing(a) == 3 && WithoutOffset(Shifted(Shifted(Shifted(Widened(a), b), d), e), 3) == c
  {
  }

  /** The bytes of one character, and what the decoder makes of them. */
  lemma BytesDecode(bytes: seq<bv8>, c: Code)
    requires 1 <= |bytes| <= 4 && Trailing(bytes[0]) == |bytes| - 1
    requires WithoutOffset(Accumulate(bytes, 0, |bytes| - 1), |bytes| - 1) == c
    ensures forall s: seq<bv8>, b: nat, replacement: Code | b + |bytes| <= |s| && s[b..b + |bytes|] == bytes ::
              DecodeAt(s, b, replacement) == (b + |bytes|, c)
  {
    hide Trailing, WithoutOffset, Shifted, Widened;
    forall s: seq<bv8>, b: nat, replacement: Code | b + |bytes| <= |s| && s[b..b + |bytes|] == bytes
      ensures DecodeAt(s, b, replacement) == (b + |bytes|, c)
    {
      SameAccumulate(s, b, bytes, |bytes| - 1);
      assert s[b] == bytes[0];
    }
  }

  lemma {:induction false} SameAccumulate(s: seq<bv8>, b: nat, bytes: seq<bv8>, n: nat)
    requires n < |bytes| && b + |bytes| <= |s| && s[b..b + |bytes|] == bytes
    ensures Accumulate(s, b, n) == Accumulate(bytes, 0, n)
    decreases n
  {
    hide Shifted, Widened;
    assert s[b + n] == bytes[n];
    if n > 0 {
      SameAccumulate(s, b, bytes, n - 1);
    }
  }

  /** Every encodable character is decoded from its bytes, wherever they stand. */
  lemma OneRoundTrip(c: Code)
    requires Encodable(c)
    ensures var bytes := EncodeOne(c, 0);
            && 1 <= |bytes| <= 4
            && forall s: seq<bv8>, b: nat, replacement: Code | b + |bytes| <= |s| && s[b..b + |bytes|] == bytes ::
                 DecodeAt(s, b, replacement) == (b + |bytes|, c)
  {
    hide Trailing, WithoutOffset, Shifted, Widened, DecodeAt, LeadByte, ContinuationByte, Right6;
    var bytes := EncodeOne(c, 0);
    if c < 0x80 {
      Bits1(c);
      Accumulated(bytes);
    } else if c < 0x800 {
      Bits2(c);
      Accumulated(bytes);
    } else if c < 0x1_0000 {
      Bits3(c);
      Accumulated(bytes);
    } else {
      Bits4(c);
      Accumulated(bytes);
    }
    BytesDecode(bytes, c);
  }

  lemma Accumulated(bytes: seq<bv8>)
    requires 1 <= |bytes| <= 4
    ensures |bytes| == 1 ==> Accumulate(bytes, 0, 0) == Widened(bytes[0])
    ensures |bytes| == 2 ==> Accumulate(bytes, 0, 1) == Shifted(Widened(bytes[0]), bytes[1])
    ensures |bytes| == 3 ==> Accumulate(bytes, 0, 2) == Shifted(Shifted(Widened(bytes[0]), bytes[1]), bytes[2])
    ensures |bytes| == 4 ==>
              Accumulate(bytes, 0, 3) == Shifted(Shifted(Shifted(Widened(bytes[0]), bytes[1]), bytes[2]), bytes[3])
  {
    hide Shifted, Widened;
    if |bytes| == 4 {
      assert Accumulate(bytes, 0, 3) == Shifted(Accumulate(bytes, 0, 2), bytes[3]);
    }
    if |bytes| >= 3 {
      assert Accumulate(bytes, 0, 2) == Shifted(Accumulate(bytes, 0, 1), bytes[2]);
    }
    if |bytes| >= 2 {
      assert Accumulate(bytes, 0, 1) == Shifted(Accumulate(bytes, 0, 0), bytes[1]);
    }
  }

  // ---------- what any bytes are decoded to ----------

  /** How many bytes follow, by the ones that the first byte starts with; an older form of UTF-8 went up to
      six bytes. */
  function Following(first: bv8): nat {
    if first & 0xFC == 0xFC then 5
    else if first & 0xFC == 0xF8 then 4
    else if first & 0xF8 == 0xF0 then 3
    else if first & 0xF0 == 0xE0 then 2
    else if first & 0xE0 == 0xC0 then 1
    else 0
  }

  lemma FollowingIs(first: bv8)
    ensures Trailing(first) == Following(first)
  {
  }

  predicate IsContinuation(b: bv8) {
    b & 0xC0 == 0x80
  }

  /** The last six bits of a byte. */
  function Six(b: bv8): Code {
    (b & 0x3F) as Code
  }

  /** The bits that a character of up to four bytes holds, most significant first; a byte alone is its own code. */
  function Payload(b: seq<bv8>): Code
    requires 1 <= |b| <= 4
  {
    if |b| == 1 then b[0] as Code
    else if |b| == 2 then Payload2(b[0], b[1])
    else if |b| == 3 then Payload3(b[0], b[1], b[2])
    else Payload4(b[0], b[1], b[2], b[3])
  }

  function Payload2(a: bv8, b: bv8): Code {
    ((a & 0x1F) as Code << 6) | Six(b)
  }

  function Payload3(a: bv8, b: bv8, c: bv8): Code {
    ((a & 0x0F) as Code << 12) | (Six(b) << 6) | Six(c)
  }

  function Payload4(a: bv8, b: bv8, c: bv8, d: bv8): Code {
    ((a & 0x07) as Code << 18) | (Six(b) << 12) | (Six(c) << 6) | Six(d)
  }

  lemma Join1(a: bv8)
    requires Following(a) == 0
    ensures WithoutOffset(Widened(a), 0) == a as Code
  {
  }

  lemma Join2(a: bv8, b: bv8)
    requires Following(a) == 1 && IsContinuation(b)
    ensures WithoutOffset(Shifted(Widened(a), b), 1) == Payload2(a, b)
  {
  }

  lemma Join3(a: bv8, b: bv8, c: bv8)
    requires Following(a) == 2 && IsContinuation(b) && IsContinuation(c)
    ensures WithoutOffset(Shifted(Shifted(Widened(a), b), c), 2) == Payload3(a, b, c)
  {
  }

  lemma Join4(a: bv8, b: bv8, c: bv8, d: bv8)
    requires Following(a) == 3 && IsContinuation(b) && IsContinuation(c) && IsContinuation(d)
    ensures WithoutOffset(Shifted(Shifted(Shifted(Widened(a), b), c), d), 3) == Payload4(a, b, c, d)
  {
  }

  /** Whatever the bytes are, the decoder takes the number of bytes that the first one announces, and gives up
      at the end when there are not enough of them. Proper continuation bytes give the bits they hold, also
      where a shorter form exists or the value is a surrogate. */
  lemma DecodesBytes(s: seq<bv8>, begin: nat, replacement: Code)
    requires begin < |s|
    ensures var (n, next, code) := (Following(s[begin]), DecodeAt(s, begin, replacement).0,
                                    DecodeAt(s, begin, replacement).1);
            && (begin + n >= |s| ==> next == |s| && code == replacement)
            && (begin + n < |s| ==> next == begin + n + 1)
            && (begin + n < |s| && n <= 3 && (forall k | begin < k <= begin + n :: IsContinuation(s[k])) ==>
                  code == Payload(s[begin..begin + n + 1]))
  {
    hide Trailing, Following, WithoutOffset, Accumulate, IsContinuation, Payload;
    FollowingIs(s[begin]);
    var n := Following(s[begin]);
    if begin + n < |s| && n <= 3 && forall k | begin < k <= begin + n :: IsContinuation(s[k]) {
      var bytes := s[begin..begin + n + 1];
      SameAccumulate(s, begin, bytes, n);
      JoinBytes(bytes);
    }
  }

  lemma JoinBytes(b: seq<bv8>)
    requires 1 <= |b| <= 4 && Following(b[0]) == |b| - 1 && forall k | 0 < k < |b| :: IsContinuation(b[k])
    ensures WithoutOffset(Accumulate(b, 0, |b| - 1), |b| - 1) == Payload(b)
  {
    hide Following, WithoutOffset, Shifted, Widened, IsContinuation, Payload2, Payload3, Payload4, Accumulate;
    Accumulated(b);
    if |b| == 1 {
      Join1(b[0]);
    } else if |b| == 2 {
      Join2(b[0], b[1]);
    } else if |b| == 3 {
      Join3(b[0], b[1], b[2]);
    } else {
      Join4(b[0], b[1], b[2], b[3]);
    }
  }

  // ---------- strings ----------

  /** Utf<32>::toUtf8: what cannot be encoded is left out. */
  function EncodeAll(codes: seq<Code>): seq<bv8> {
    if codes == [] then [] else EncodeOne(codes[0], 0) + EncodeAll(codes[1..])
  }

  /** Utf<8>::ToUtf32 from a position on. */
  function DecodeFrom(s: seq<bv8>, begin: nat): seq<Code>
    requires begin <= |s|
    decreases |s| - begin
  {
    if begin == |s| then []
    else
      var (next, code) := DecodeAt(s, begin, 0);
      [code] + DecodeFrom(s, next)
  }

  function EncodableOnly(codes: seq<Code>): seq<Code> {
    if codes == [] then []
    else (if Encodable(codes[0]) then [codes[0]] else []) + EncodableOnly(codes[1..])
  }

  /** Decoding always gets on, and stays within the bytes, whatever they are. */
  lemma DecodingAdvances(s: seq<bv8>, begin: nat, replacement: Code)
    requires begin < |s|
    ensures begin < DecodeAt(s, begin, replacement).0 <= |s|
    ensures DecodeAt(s, begin, replacement).0 <= begin + 6
    ensures |DecodeFrom(s, begin)| <= |s| - begin
    decreases |s| - begin
  {
    hide Trailing, Accumulate, WithoutOffset;
    var next := DecodeAt(s, begin, replacement).0;
    var next0 := DecodeAt(s, begin, 0).0;
    if next0 < |s| {
      DecodingAdvances(s, next0, replacement);
    }
  }

  lemma Placed(front: seq<bv8>, bytes: seq<bv8>, rest: seq<bv8>)
    ensures var s := front + (bytes + rest);
            s == front + bytes + rest && s[|front|..|front| + |bytes|] == bytes
  {
  }

  lemma {:induction false} DecodeEncoded(front: seq<bv8>, codes: seq<Code>)
    ensures DecodeFrom(front + EncodeAll(codes), |front|) == EncodableOnly(codes)
    decreases |codes|
  {
    hide DecodeAt, EncodeOne, Encodable;
    if codes == [] {
      assert front + EncodeAll(codes) == front;
    } else {
      hide EncodeAll, EncodableOnly;
      var bytes, rest := EncodeOne(codes[0], 0), EncodeAll(codes[1..]);
      FirstEncoded(codes);
      EncodableIs(codes[0]);
      Placed(front, bytes, rest);
      DecodeEncoded(front + bytes, codes[1..]);
      if Encodable(codes[0]) {
        OneRoundTrip(codes[0]);
        assert DecodeAt(front + (bytes + rest), |front|, 0) == (|front| + |bytes|, codes[0]);
      } else {
        assert front + bytes == front;
      }
    }
  }

  lemma FirstEncoded(codes: seq<Code>)
    requires codes != []
    ensures EncodeAll(codes) == EncodeOne(codes[0], 0) + EncodeAll(codes[1..])
    ensures EncodableOnly(codes) == (if Encodable(codes[0]) then [codes[0]] else []) + EncodableOnly(codes[1..])
  {
    hide EncodeOne, Encodable;
  }

  lemma {:induction false} AllEncodable(codes: seq<Code>)
    ensures |EncodableOnly(codes)| <= |codes|
    ensures EncodableOnly(codes) == codes <==> forall c | c in codes :: Encodable(c)
    decreases |codes|
  {
    hide Encodable;
    if codes != [] {
      AllEncodable(codes[1..]);
      assert codes == [codes[0]] + codes[1..];
      if EncodableOnly(codes) == codes {
        assert |EncodableOnly(codes)| == |codes|;
        assert Encodable(codes[0]);
        assert EncodableOnly(codes)[1..] == EncodableOnly(codes[1..]);
      }
    }
  }

  /** Encoding a string and decoding the bytes gives the string without what cannot be encoded: the
      string itself exactly when everything in it is up to 0x10FFFF and outside 0xD800 to 0xDBFF. */
  lemma Utf8RoundTrip(codes: seq<Code>)
    ensures DecodeFrom(EncodeAll(codes), 0) == EncodableOnly(codes)
    ensures DecodeFrom(EncodeAll(codes), 0) == codes <==> forall c | c in codes :: Encodable(c)
  {
    hide DecodeFrom, EncodeAll, EncodableOnly, Encodable;
    DecodeEncoded([], codes);
    assert [] + EncodeAll(codes) == EncodeAll(codes);
    AllEncodable(codes);
  }

  // ---------- the loops ----------

  /** What has been accumulated before byte k is added. */
  function Partial(s: seq<bv8>, begin: nat, k: nat): Code
    requires begin + k <= |s|
  {
    if k == 0 then 0 else Shift6(Accumulate(s, begin, k - 1))
  }

  lemma NextByte(s: seq<bv8>, begin: nat, k: nat)
    requires begin + k < |s|
    ensures Plus(Partial(s, begin, k), s[begin + k]) == Accumulate(s, begin, k)
    ensures Shift6(Plus(Partial(s, begin, k), s[begin + k])) == Partial(s, begin, k + 1)
  {
    hide Shift6;
  }

  /** Utf<8>::Decode; the cases of the switch fall through. */
  method Decode(s: seq<bv8>, begin: nat, replacement: Code) returns (next: nat, output: Code)
    requires begin < |s|
    ensures (next, output) == DecodeAt(s, begin, replacement)
  {
    hide WithoutOffset, Shift6, Plus, Trailing, Accumulate;
    var trailingBytes := Trailing(s[begin]);
    if begin + trailingBytes >= |s| {
      return |s|, replacement;
    }
    next, output := begin, 0;
    if trailingBytes == 5 {
      next, output := Take(s, begin, next, output);
    }
    if trailingBytes >= 4 {
      next, output := Take(s, begin, next, output);
    }
    if trailingBytes >= 3 {
      next, output := Take(s, begin, next, output);
    }
    if trailingBytes >= 2 {
      next, output := Take(s, begin, next, output);
    }
    if trailingBytes >= 1 {
      next, output := Take(s, begin, next, output);
    }
    NextByte(s, begin, next - begin);
    output := Plus(output, s[next]);
    next := next + 1;
    output := WithoutOffset(output, trailingBytes);
  }

  /** One case before the last: a byte is added and the sum shifted. */
  method Take(s: seq<bv8>, ghost begin: nat, at: nat, before: Code) returns (next: nat, output: Code)
    requires begin <= at < |s| && before == Partial(s, begin, at - begin)
    ensures next == at + 1 && output == Partial(s, begin, next - begin)
  {
    NextByte(s, begin, at - begin);
    output := Shift6(Plus(before, s[at]));
    next := at + 1;
  }

  /** Utf<8>::Encode; the bytes are made last first. */
  method Encode(input: Code, replacement: bv8) returns (output: seq<bv8>)
    ensures output == EncodeOne(input, replacement)
  {
    output := [];
    if !Encodable(input) {
      if replacement != 0 {
        output := [replacement];
      }
      return;
    }
    hide ContinuationByte, LeadByte, Right6;
    var bytesToWrite, rest := BytesToWrite(input), input;
    var bytes := new bv8[4];
    if bytesToWrite == 4 {
      bytes[3] := ContinuationByte(rest);
      rest := Right6(rest);
    }
    if bytesToWrite >= 3 {
      bytes[2] := ContinuationByte(rest);
      rest := Right6(rest);
    }
    if bytesToWrite >= 2 {
      bytes[1] := ContinuationByte(rest);
      rest := Right6(rest);
    }
    bytes[0] := LeadByte(rest, bytesToWrite);
    output := bytes[..bytesToWrite];
  }

  method ToUtf8(codes: seq<Code>) returns (output: seq<bv8>)
    ensures output == EncodeAll(codes)
  {
    hide EncodeOne;
    output := [];
    var begin := 0;
    assert codes[0..] == codes;
    while begin < |codes|
      invariant begin <= |codes| && EncodeAll(codes) == output + EncodeAll(codes[begin..])
    {
      var bytes := Encode(codes[begin], 0);
      assert codes[begin..][1..] == codes[begin + 1..];
      output := output + bytes;
      begin := begin + 1;
    }
  }

  method ToUtf32(s: seq<bv8>) returns (output: seq<Code>)
    ensures output == DecodeFrom(s, 0)
  {
    hide DecodeAt, DecodeFrom;
    output := [];
    var begin := 0;
    while begin < |s|
      invariant begin <= |s| && DecodeFrom(s, 0) == output + DecodeFrom(s, begin)
    {
      DecodingAdvances(s, begin, 0);
      DecodesNext(s, begin, output);
      var next, codepoint := Decode(s, begin, 0);
      output := output + [codepoint];
      begin := next;
    }
    DecodesNone(s);
  }

  lemma DecodesNext(s: seq<bv8>, begin: nat, output: seq<Code>)
    requires begin < |s| && DecodeAt(s, begin, 0).0 <= |s|
    ensures var (next, code) := DecodeAt(s, begin, 0);
            output + DecodeFrom(s, begin) == output + [code] + DecodeFrom(s, next)
  {
    hide DecodeAt;
  }

  lemma DecodesNone(s: seq<bv8>)
    ensures DecodeFrom(s, |s|) == []
  {
  }
}
