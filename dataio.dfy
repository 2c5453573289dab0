/**
 * The two java.io primitives the binary formats are built from:
 * DataOutputStream.writeUTF / DataInputStream.readUTF (a 2-byte big-endian
 * length, then the string's UTF-16 code units in "modified UTF-8"), and
 * writeInt / readInt (4 bytes, big-endian two's complement).
 *
 * Decoders take the bytes still unread in the stream and return what they
 * decoded together with the bytes left after it, the way a DataInputStream
 * advances.
 */
module DataIO {
  import opened Wrappers

  type byte = x: int | 0 <= x < 0x100
  /** A UTF-16 code unit: a Java `char`. */
  type unit16 = x: int | 0 <= x < 0x1_0000
  /** A Java `int`. */
  type int32 = x: int | -0x8000_0000 <= x < 0x8000_0000

  // ---- UTF-16 view of a string ----

  /** The code units of one character: one unit, or a surrogate pair above U+FFFF. */
  function UnitsOfChar(c: char): (r: seq<unit16>)
    ensures 1 <= |r| <= 2
  {
    var v := c as int;
    if v < 0x1_0000 then [v]
    else [0xD800 + (v - 0x1_0000) / 0x400, 0xDC00 + (v - 0x1_0000) % 0x400]
  }

  /** The UTF-16 code units of a string, as Java stores it. */
  function Units(s: string): seq<unit16> {
    if s == [] then [] else UnitsOfChar(s[0]) + Units(s[1..])
  }

  /**
   * The first character of the UTF-16 units `us` and how many units it takes.
   * A surrogate that is not part of a high/low pair has no Dafny character, so
   * it yields None.
   */
  function CharAt(us: seq<unit16>): (r: Option<(char, nat)>)
    requires us != []
    ensures r.Some? ==> 1 <= r.value.1 <= |us|
  {
    if 0xD800 <= us[0] < 0xDC00 && |us| > 1 && 0xDC00 <= us[1] < 0xE000 then
      Some(((0x1_0000 + (us[0] as int - 0xD800) * 0x400 + (us[1] as int - 0xDC00)) as char, 2))
    else if 0xD800 <= us[0] < 0xE000 then None
    else Some((us[0] as char, 1))
  }

  /** The string whose UTF-16 form is `us`, if it has one. */
  function CharsOf(us: seq<unit16>): Option<string>
    decreases |us|
  {
    if us == [] then Some([])
    else
      match CharAt(us)
      case None => None
      case Some((c, n)) =>
        match CharsOf(us[n..])
        case None => None
        case Some(rest) => Some([c] + rest)
  }

  lemma {:induction false} CharsOfUnits(s: string)
    ensures CharsOf(Units(s)) == Some(s)
  {
    if s != [] {
      CharsOfUnits(s[1..]);
      var us := Units(s);
      var v := s[0] as int;
      assert us == UnitsOfChar(s[0]) + Units(s[1..]);
      if v < 0x1_0000 {
        assert us[1..] == Units(s[1..]);
      } else {
        assert us[2..] == Units(s[1..]);
        assert (0x1_0000 + (us[0] as int - 0xD800) * 0x400 + (us[1] as int - 0xDC00)) == v;
      }
      assert s == [s[0]] + s[1..];
    }
  }

  // ---- Modified UTF-8 ----

  /** The bytes writeUTF emits for one code unit (U+0000 takes two bytes). */
  function EncodeUnit(u: unit16): (r: seq<byte>)
    ensures 1 <= |r| <= 3
  {
    if 1 <= u <= 0x7F then [u]
    else if u > 0x7FF then [0xE0 + u / 0x1000, 0x80 + (u / 0x40) % 0x40, 0x80 + u % 0x40]
    else [0xC0 + u / 0x40, 0x80 + u % 0x40]
  }

  function EncodeUnits(us: seq<unit16>): seq<byte> {
    if us == [] then [] else EncodeUnit(us[0]) + EncodeUnits(us[1..])
  }

  /**
   * The code units readUTF decodes from exactly the bytes `b`; None where it
   * throws UTFDataFormatException (a bad lead or continuation byte, or a
   * character cut off by the end of the data). Like Java, it also accepts
   * encodings that writeUTF never emits (overlong forms).
   */
  function DecodeUnits(b: seq<byte>): Option<seq<unit16>>
    decreases |b|
  {
    if b == [] then Some([])
    else
      match UnitAt(b)
      case None => None
      case Some((u, n)) =>
        match DecodeUnits(b[n..])
        case None => None
        case Some(rest) => Some([u] + rest)
  }

  /**
   * One code unit read by readUTF from the front of `b`, and the number of
   * bytes it took; None for a bad lead byte, a bad continuation byte or a
   * character cut off by the end of the data.
   */
  function UnitAt(b: seq<byte>): (r: Option<(unit16, nat)>)
    requires b != []
    ensures r.Some? ==> 1 <= r.value.1 <= |b|
  {
    var c: int := b[0];
    if c / 0x10 <= 7 then Some((c, 1))
    else if c / 0x10 == 12 || c / 0x10 == 13 then
      if |b| < 2 || b[1] / 0x40 != 2 then None
      else Some(((c % 0x20) * 0x40 + b[1] as int % 0x40, 2))
    else if c / 0x10 == 14 then
      if |b| < 3 || b[1] / 0x40 != 2 || b[2] / 0x40 != 2 then None
      else Some(((c % 0x10) * 0x1000 + (b[1] as int % 0x40) * 0x40 + b[2] as int % 0x40, 3))
    else None
  }

  lemma ThreeByteDigits(u: int)
    requires 0x800 <= u < 0x1_0000
    ensures (0xE0 + u / 0x1000) / 0x10 == 14 && (0xE0 + u / 0x1000) % 0x10 == u / 0x1000
    ensures (0x80 + (u / 0x40) % 0x40) / 0x40 == 2 && (0x80 + (u / 0x40) % 0x40) % 0x40 == (u / 0x40) % 0x40
    ensures (0x80 + u % 0x40) / 0x40 == 2 && (0x80 + u % 0x40) % 0x40 == u % 0x40
    ensures (u / 0x1000) * 0x1000 + ((u / 0x40) % 0x40) * 0x40 + u % 0x40 == u
  {
    var q := u / 0x40;
    assert u == q * 0x40 + u % 0x40;
    assert q == (q / 0x40) * 0x40 + q % 0x40;
    assert u / 0x1000 == q / 0x40;
  }

  lemma TwoByteDigits(u: int)
    requires 0 <= u < 0x800
    ensures (0xC0 + u / 0x40) / 0x10 == 12 || (0xC0 + u / 0x40) / 0x10 == 13
    ensures (0xC0 + u / 0x40) % 0x20 == u / 0x40
    ensures (0x80 + u % 0x40) / 0x40 == 2 && (0x80 + u % 0x40) % 0x40 == u % 0x40
    ensures (u / 0x40) * 0x40 + u % 0x40 == u
  {
  }

  /** readUTF decodes the bytes writeUTF emits for one code unit back to it. */
  lemma UnitAtEncode(u: unit16, rest: seq<byte>)
    ensures UnitAt(EncodeUnit(u) + rest) == Some((u, |EncodeUnit(u)|))
  {
    var e := EncodeUnit(u);
    var b := e + rest;
    assert b[0] == e[0];
    if 1 <= u <= 0x7F {
    } else if u > 0x7FF {
      ThreeByteDigits(u);
      assert b[1] == e[1] && b[2] == e[2];
    } else {
      TwoByteDigits(u);
      assert b[1] == e[1];
    }
  }

  lemma DecodeEncodeUnit(u: unit16, rest: seq<byte>)
    ensures DecodeUnits(EncodeUnit(u) + rest) ==
      match DecodeUnits(rest)
      case None => None
      case Some(us) => Some([u] + us)
  {
    var e := EncodeUnit(u);
    UnitAtEncode(u, rest);
    assert (e + rest)[|e|..] == rest;
  }

  lemma {:induction false} DecodeEncodeUnits(us: seq<unit16>)
    ensures DecodeUnits(EncodeUnits(us)) == Some(us)
  {
    if us != [] {
      DecodeEncodeUnits(us[1..]);
      DecodeEncodeUnit(us[0], EncodeUnits(us[1..]));
      assert us == [us[0]] + us[1..];
    }
  }

  // ---- writeUTF / readUTF ----

  /** The modified UTF-8 body of `s`, without its length prefix. */
  function UtfBody(s: string): seq<byte> {
    EncodeUnits(Units(s))
  }

  /** Every character is in 1..0x7F, which writeUTF writes as a single byte. */
  predicate Ascii(s: string) {
    forall i | 0 <= i < |s| :: 1 <= s[i] as int <= 0x7F
  }

  /** The body of an ASCII string is its characters' codes, one byte each. */
  lemma {:induction false} AsciiBody(s: string)
    requires Ascii(s)
    ensures |UtfBody(s)| == |s|
    ensures forall i | 0 <= i < |s| :: UtfBody(s)[i] == s[i] as int
  {
    if s != [] {
      AsciiBody(s[1..]);
      assert Units(s) == [s[0] as int] + Units(s[1..]);
      assert Units(s)[1..] == Units(s[1..]);
      assert UtfBody(s) == [s[0] as int] + UtfBody(s[1..]);
    }
  }

  /** writeUTF fails when the body does not fit the 16-bit length. */
  predicate Encodable(s: string) {
    |UtfBody(s)| <= 0xFFFF
  }

  /** writeUTF: a 2-byte big-endian length, then the body. */
  function WriteUTF(s: string): (r: Result<seq<byte>>)
    ensures r.Ok? <==> Encodable(s)
    ensures r.Err? ==> r.error == UtfTooLong
    ensures r.Ok? ==> |r.value| == 2 + |UtfBody(s)|
  {
    var body := UtfBody(s);
    if |body| > 0xFFFF then Err(UtfTooLong)
    else Ok([|body| / 0x100, |body| % 0x100] + body)
  }

  /** The character codes of an ASCII string, one byte each. */
  function Codes(s: string): (r: seq<byte>)
    requires Ascii(s)
    ensures |r| == |s|
  {
    seq(|s|, i requires 0 <= i < |s| => s[i] as int)
  }

  /** writeUTF of an ASCII string shorter than 256: a zero byte, the length, then the codes. */
  lemma WriteAscii(s: string)
    requires Ascii(s) && |s| < 0x100
    ensures WriteUTF(s) == Ok([0, |s|] + Codes(s))
  {
    AsciiBody(s);
    assert UtfBody(s) == Codes(s);
  }

  /** readUTF: the string, and the bytes left after it. */
  function ReadUTF(b: seq<byte>): (r: Result<(string, seq<byte>)>)
    ensures r.Ok? ==> |r.value.1| + 2 <= |b|
  {
    if |b| < 2 then Err(Eof)
    else
      var len := b[0] as int * 0x100 + b[1];
      if 2 + len > |b| then Err(Eof)
      else
        match DecodeUnits(b[2..2 + len])
        case None => Err(MalformedUtf)
        case Some(us) =>
          match CharsOf(us)
          case None => Err(Unrepresentable)
          case Some(s) => Ok((s, b[2 + len..]))
  }

  /** readUTF recovers what writeUTF wrote and consumes exactly its bytes. */
  lemma ReadWriteUTF(s: string, rest: seq<byte>)
    requires WriteUTF(s).Ok?
    ensures ReadUTF(WriteUTF(s).value + rest) == Ok((s, rest))
  {
    var body := UtfBody(s);
    var b := WriteUTF(s).value + rest;
    assert b[0] as int * 0x100 + b[1] == |body|;
    assert b[2..2 + |body|] == body;
    assert b[2 + |body|..] == rest;
    DecodeEncodeUnits(Units(s));
    CharsOfUnits(s);
  }

  // ---- writeInt / readInt ----

  /** A Java int conversion: keep the low 32 bits, read as two's complement. */
  function WrapInt32(x: int): (r: int32)
    ensures -0x8000_0000 <= x < 0x8000_0000 ==> r == x
    ensures (r - x) % 0x1_0000_0000 == 0
  {
    var m := x % 0x1_0000_0000;
    if m >= 0x8000_0000 then m - 0x1_0000_0000 else m
  }

  /** writeInt: four bytes, high byte first. */
  function WriteInt(x: int32): (r: seq<byte>)
    ensures |r| == 4
  {
    var u := if x < 0 then x + 0x1_0000_0000 else x;
    [u / 0x100_0000, (u / 0x1_0000) % 0x100, (u / 0x100) % 0x100, u % 0x100]
  }

  /** readInt: the value, and the bytes left after it. */
  function ReadInt(b: seq<byte>): (r: Result<(int32, seq<byte>)>)
    ensures r.Err? <==> |b| < 4
    ensures r.Ok? ==> |b| >= 4 && r.value.1 == b[4..]
  {
    if |b| < 4 then Err(Eof)
    else
      var u := b[0] as int * 0x100_0000 + b[1] as int * 0x1_0000 + b[2] as int * 0x100 + b[3];
      Ok((if u >= 0x8000_0000 then u - 0x1_0000_0000 else u, b[4..]))
  }

  /** The four big-endian bytes of a 32-bit unsigned value put it back together. */
  lemma ByteDigits(u: int)
    requires 0 <= u < 0x1_0000_0000
    ensures (u / 0x100_0000) * 0x100_0000 + ((u / 0x1_0000) % 0x100) * 0x1_0000
            + ((u / 0x100) % 0x100) * 0x100 + u % 0x100 == u
  {
    var a := u / 0x100;
    var c := a / 0x100;
    var d := c / 0x100;
    assert u == a * 0x100 + u % 0x100;
    assert a == c * 0x100 + a % 0x100;
    assert c == d * 0x100 + c % 0x100;
    assert u / 0x1_0000 == c;
    assert u / 0x100_0000 == d;
  }

  /** readInt recovers what writeInt wrote, negative values included. */
  lemma ReadWriteInt(x: int32, rest: seq<byte>)
    ensures ReadInt(WriteInt(x) + rest) == Ok((x, rest))
  {
    var e := WriteInt(x);
    var b := e + rest;
    ByteDigits(if x < 0 then x + 0x1_0000_0000 else x);
    assert b[0] == e[0] && b[1] == e[1] && b[2] == e[2] && b[3] == e[3];
    assert b[4..] == rest;
  }
}
