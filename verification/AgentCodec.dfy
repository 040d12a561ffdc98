/** The agent's wire format: integers in network byte order, length-prefixed strings, and frames. */
module AgentCodec {

  newtype Byte = x: int | 0 <= x < 256

  const TwoTo32: nat := 0x1_0000_0000
  const ProtocolVersion: nat := 1
  const MaxPayloadSize: nat := 16 * 1024 * 1024
  const HeaderSize: nat := 8

  type U16Value = x: nat | x < 0x1_0000
  type U32Value = x: nat | x < 0x1_0000_0000
  type I32Value = x: int | -0x8000_0000 <= x < 0x8000_0000

  /** Network byte order. */
  function BytesU16(v: U16Value): (b: seq<Byte>)
    ensures |b| == 2
  {
    [(v / 0x100) as Byte, (v % 0x100) as Byte]
  }

  function BytesU32(v: U32Value): (b: seq<Byte>)
    ensures |b| == 4
  {
    [(v / 0x100_0000) as Byte, (v / 0x1_0000 % 0x100) as Byte, (v / 0x100 % 0x100) as Byte, (v % 0x100) as Byte]
  }

  function ValueU16(a: Byte, b: Byte): U16Value {
    a as nat * 0x100 + b as nat
  }

  function ValueU32(a: Byte, b: Byte, c: Byte, d: Byte): U32Value {
    a as nat * 0x100_0000 + b as nat * 0x1_0000 + c as nat * 0x100 + d as nat
  }

  lemma U16RoundTrip(v: U16Value)
    ensures var b := BytesU16(v); ValueU16(b[0], b[1]) == v == b[0] as nat * 0x100 + b[1] as nat
  {
    assert v == v / 0x100 * 0x100 + v % 0x100;
  }

  lemma U32RoundTrip(v: U32Value)
    ensures var b := BytesU32(v);
            && ValueU32(b[0], b[1], b[2], b[3]) == v
            && v == b[0] as nat * 0x100_0000 + b[1] as nat * 0x1_0000 + b[2] as nat * 0x100 + b[3] as nat
  {
    var h, m, l := v / 0x100_0000, v / 0x1_0000, v / 0x100;
    assert l == v / 0x100 && v == l * 0x100 + v % 0x100;
    assert m == l / 0x100 && l == m * 0x100 + l % 0x100;
    assert h == m / 0x100 && m == h * 0x100 + m % 0x100;
  }

  lemma BytesOfValueU16(a: Byte, b: Byte)
    ensures BytesU16(ValueU16(a, b)) == [a, b]
  {
    var v := ValueU16(a, b);
    assert v / 0x100 == a as nat && v % 0x100 == b as nat;
  }

  lemma BytesOfValueU32(a: Byte, b: Byte, c: Byte, d: Byte)
    ensures BytesU32(ValueU32(a, b, c, d)) == [a, b, c, d]
  {
    var l := a as nat * 0x1_0000 + b as nat * 0x100 + c as nat;
    var v := ValueU32(a, b, c, d);
    assert v == l * 0x100 + d as nat;
    assert v / 0x100 == l && v % 0x100 == d as nat;
    var m := a as nat * 0x100 + b as nat;
    assert l == m * 0x100 + c as nat;
    assert l / 0x100 == m && l % 0x100 == c as nat;
    assert v / 0x1_0000 == m;
    assert m / 0x100 == a as nat && m % 0x100 == b as nat;
    assert v / 0x100_0000 == a as nat;
  }

  /** The two's complement of a signed value. */
  function Unsigned(v: I32Value): U32Value {
    v % 0x1_0000_0000
  }

  function Signed(v: U32Value): I32Value {
    if v < 0x8000_0000 then v else v - 0x1_0000_0000
  }

  lemma I32RoundTrip(v: I32Value)
    ensures Signed(Unsigned(v)) == v
  {
    assert v < 0 ==> v % 0x1_0000_0000 == v + 0x1_0000_0000;
  }

  /** The length is cut to 32 bits. */
  function BytesStr(s: seq<Byte>): (b: seq<Byte>)
    ensures |b| == 4 + |s|
  {
    BytesU32(|s| % 0x1_0000_0000) + s
  }

  // ---------- Writer ----------

  class Writer {
    var data: seq<Byte>

    constructor ()
      ensures data == []
    {
      data := [];
    }

    method U8(value: Byte)
      modifies this
      ensures data == old(data) + [value]
    {
      data := data + [value];
    }

    method U16(value: U16Value)
      modifies this
      ensures data == old(data) + BytesU16(value)
    {
      data := data + [(value / 0x100) as Byte];
      data := data + [(value % 0x100) as Byte];
    }

    method U32(value: U32Value)
      modifies this
      ensures data == old(data) + BytesU32(value)
    {
      data := data + [(value / 0x100_0000) as Byte];
      data := data + [(value / 0x1_0000 % 0x100) as Byte];
      data := data + [(value / 0x100 % 0x100) as Byte];
      data := data + [(value % 0x100) as Byte];
    }

    method I32(value: I32Value)
      modifies this
      ensures data == old(data) + BytesU32(Unsigned(value))
    {
      U32(Unsigned(value));
    }

    method Str(value: seq<Byte>)
      modifies this
      ensures data == old(data) + BytesStr(value)
    {
      U32(|value| % 0x1_0000_0000);
      data := data + value;
    }

    /** The complete frame, header and payload; the size in the header is cut to 32 bits. */
    method ToFrame(kind: U16Value) returns (out: seq<Byte>)
      ensures out == BytesU32(|data| % 0x1_0000_0000) + BytesU16(ProtocolVersion) + BytesU16(kind) + data
      ensures |data| < TwoTo32 ==> out == FrameBytes(Frame(ProtocolVersion, kind, data))
    {
      hide BytesU32, BytesU16;
      assert |data| < TwoTo32 ==> |data| % 0x1_0000_0000 == |data|;
      out := BytesU32(|data| % 0x1_0000_0000);
      out := out + BytesU16(ProtocolVersion);
      out := out + BytesU16(kind);
      out := out + data;
    }
  }

  // ---------- Reader ----------

  /** A reader's state: any overrun makes it fail for good. */
  datatype Cursor = Cursor(data: seq<Byte>, pos: nat, ok: bool)
  {
    predicate Valid() {
      pos <= |data|
    }

    predicate AtEnd() {
      pos == |data|
    }

    /** Whether that many bytes are left; asking for more fails. */
    predicate Has(count: nat)
      requires Valid()
    {
      ok && count <= |data| - pos
    }

    function Failed(): Cursor {
      this.(ok := false)
    }

    function Skip(count: nat): Cursor {
      this.(pos := pos + count)
    }
  }

  function GetU8(c: Cursor): (Byte, Cursor)
    requires c.Valid()
  {
    if c.Has(1) then (c.data[c.pos], c.Skip(1)) else (0, c.Failed())
  }

  function GetU16(c: Cursor): (U16Value, Cursor)
    requires c.Valid()
  {
    if c.Has(2) then (ValueU16(c.data[c.pos], c.data[c.pos + 1]), c.Skip(2)) else (0, c.Failed())
  }

  function GetU32(c: Cursor): (r: (U32Value, Cursor))
    requires c.Valid()
    ensures r.1.Valid() && r.1.data == c.data
  {
    if c.Has(4) then
      (ValueU32(c.data[c.pos], c.data[c.pos + 1], c.data[c.pos + 2], c.data[c.pos + 3]), c.Skip(4))
    else (0, c.Failed())
  }

  function GetStr(c: Cursor): (r: (seq<Byte>, Cursor))
    requires c.Valid()
    ensures r.1.Valid() && r.1.data == c.data
  {
    var (length, c1) := GetU32(c);
    if c1.Has(length) then (c1.data[c1.pos..c1.pos + length], c1.Skip(length)) else ([], c1.Failed())
  }

  class Reader {
    const data: seq<Byte>
    var pos: nat
    var ok: bool

    ghost function View(): Cursor
      reads this
    {
      Cursor(data, pos, ok)
    }

    constructor (data: seq<Byte>)
      ensures View() == Cursor(data, 0, true)
    {
      this.data, pos, ok := data, 0, true;
    }

    method Need(count: nat) returns (r: bool)
      requires View().Valid()
      modifies `ok
      ensures r == old(View().Has(count)) && View() == if r then old(View()) else old(View()).Failed()
    {
      if !ok || |data| - pos < count {
        ok := false;
        return false;
      }
      return true;
    }

    method U8() returns (r: Byte)
      requires View().Valid()
      modifies this
      ensures (r, View()) == GetU8(old(View()))
      ensures if old(ok) && old(pos) + 1 <= |data| then ok && pos == old(pos) + 1 && r == data[old(pos)]
              else !ok && pos == old(pos) && r == 0
    {
      var enough := Need(1);
      if !enough {
        return 0;
      }
      r := data[pos];
      pos := pos + 1;
    }

    method U16() returns (r: U16Value)
      requires View().Valid()
      modifies this
      ensures (r, View()) == GetU16(old(View()))
      ensures if old(ok) && old(pos) + 2 <= |data| then
                ok && pos == old(pos) + 2 && r == data[old(pos)] as nat * 0x100 + data[old(pos) + 1] as nat
              else !ok && pos == old(pos) && r == 0
    {
      var enough := Need(2);
      if !enough {
        return 0;
      }
      r := ValueU16(data[pos], data[pos + 1]);
      pos := pos + 2;
    }

    method U32() returns (r: U32Value)
      requires View().Valid()
      modifies this
      ensures (r, View()) == GetU32(old(View()))
      ensures if old(ok) && old(pos) + 4 <= |data| then
                var b := data[old(pos)..old(pos) + 4];
                && ok && pos == old(pos) + 4
                && r == b[0] as nat * 0x100_0000 + b[1] as nat * 0x1_0000 + b[2] as nat * 0x100 + b[3] as nat
              else !ok && pos == old(pos) && r == 0
    {
      var enough := Need(4);
      if !enough {
        return 0;
      }
      r := ValueU32(data[pos], data[pos + 1], data[pos + 2], data[pos + 3]);
      pos := pos + 4;
    }

    method I32() returns (r: I32Value)
      requires View().Valid()
      modifies this
      ensures r == Signed(GetU32(old(View())).0) && View() == GetU32(old(View())).1
    {
      var v := U32();
      r := Signed(v);
    }

    method Str() returns (r: seq<Byte>)
      requires View().Valid()
      modifies this
      ensures (r, View()) == GetStr(old(View()))
      ensures ok ==> old(ok) && pos == old(pos) + 4 + |r| <= |data| && r == data[old(pos) + 4..pos]
      ensures !ok ==> r == []
      ensures !old(ok) ==> !ok && pos == old(pos)
    {
      var length := U32();
      if !ok {
        return [];
      }
      var enough := Need(length);
      if !enough {
        return [];
      }
      r := data[pos..pos + length];
      pos := pos + length;
    }
  }

  // ---------- reading back ----------

  /** The reader stands before these bytes. */
  ghost predicate Before(c: Cursor, bytes: seq<Byte>) {
    c.ok && c.pos + |bytes| <= |c.data| && c.data[c.pos..c.pos + |bytes|] == bytes
  }

  lemma BeforeSplit(c: Cursor, a: seq<Byte>, b: seq<Byte>)
    requires Before(c, a + b)
    ensures Before(c, a) && Before(c.Skip(|a|), b)
  {
    var w := c.data[c.pos..c.pos + |a + b|];
    assert a == w[..|a|] && b == w[|a|..];
    assert w[..|a|] == c.data[c.pos..c.pos + |a|];
    assert w[|a|..] == c.data[c.pos + |a|..c.pos + |a| + |b|];
  }

  lemma ReadU8(c: Cursor, v: Byte)
    requires Before(c, [v])
    ensures GetU8(c) == (v, c.Skip(1))
  {
    assert c.data[c.pos..c.pos + 1][0] == v;
  }

  lemma ReadU32(c: Cursor, v: U32Value)
    requires Before(c, BytesU32(v))
    ensures GetU32(c) == (v, c.Skip(4))
  {
    hide ValueU32;
    var w, b := c.data[c.pos..c.pos + 4], BytesU32(v);
    assert w[0] == b[0] && w[1] == b[1] && w[2] == b[2] && w[3] == b[3];
    U32RoundTrip(v);
  }

  lemma ReadStr(c: Cursor, s: seq<Byte>)
    requires Before(c, BytesStr(s)) && |s| < TwoTo32
    ensures GetStr(c) == (s, c.Skip(4 + |s|))
  {
    hide BytesU32, ValueU32;
    assert |s| % 0x1_0000_0000 == |s|;
    BeforeSplit(c, BytesU32(|s|), s);
    ReadU32(c, |s|);
  }

  // ---------- frames ----------

  datatype Frame = Frame(version: U16Value, kind: U16Value, payload: seq<Byte>)

  function FrameBytes(f: Frame): (b: seq<Byte>)
    requires |f.payload| < TwoTo32
    ensures |b| == HeaderSize + |f.payload|
  {
    BytesU32(|f.payload|) + BytesU16(f.version) + BytesU16(f.kind) + f.payload
  }
}
