/**
 * Canonical base64 (RFC 4648, section 4) over byte sequences: the encoding
 * that `Buffer.toString('base64')` produces and that `Buffer.from(_, 'base64')`
 * reads back. Only canonical, padded input is decoded; anything else is `None`.
 */
module Base64 {
  import opened Wrappers

  /** One octet of a Node.js Buffer. */
  type byte = b: int | 0 <= b < 256

  /** The 6-bit value one base64 character stands for. */
  type sextet = v: int | 0 <= v < 64

  const Pad: char := '='

  /** Table 1 of RFC 4648: the character for each 6-bit value. */
  function CharOf(v: sextet): (c: char)
    ensures ValueOf(c) == Some(v)
    ensures c != Pad
  {
    if v < 26 then ('A' as int + v) as char
    else if v < 52 then ('a' as int + (v - 26)) as char
    else if v < 62 then ('0' as int + (v - 52)) as char
    else if v == 62 then '+'
    else '/'
  }

  /** The inverse of Table 1: `None` for a character outside the alphabet. */
  function ValueOf(c: char): (r: Option<sextet>)
    ensures c == Pad ==> r.None?
  {
    if 'A' <= c <= 'Z' then Some(c as int - 'A' as int)
    else if 'a' <= c <= 'z' then Some(c as int - 'a' as int + 26)
    else if '0' <= c <= '9' then Some(c as int - '0' as int + 52)
    else if c == '+' then Some(62)
    else if c == '/' then Some(63)
    else None
  }

  /** A full 24-bit group: three octets become four characters. */
  function EncodeQuantum(b0: byte, b1: byte, b2: byte): string
  {
    [CharOf(b0 / 4), CharOf((b0 % 4) * 16 + b1 / 16), CharOf((b1 % 16) * 4 + b2 / 64), CharOf(b2 % 64)]
  }

  /**
   * Encodes the whole sequence, three octets at a time; a final group of one
   * or two octets is zero-extended and padded with one or two `=`.
   */
  function Encode(bytes: seq<byte>): (s: string)
    ensures |s| == 4 * ((|bytes| + 2) / 3)
    decreases |bytes|
  {
    if |bytes| == 0 then ""
    else if |bytes| == 1 then
      [CharOf(bytes[0] / 4), CharOf((bytes[0] % 4) * 16), Pad, Pad]
    else if |bytes| == 2 then
      [CharOf(bytes[0] / 4), CharOf((bytes[0] % 4) * 16 + bytes[1] / 16), CharOf((bytes[1] % 16) * 4), Pad]
    else
      EncodeQuantum(bytes[0], bytes[1], bytes[2]) + Encode(bytes[3..])
  }

  /** Four alphabet characters (no padding) decode to three octets. */
  function DecodeFull(q: string): Option<seq<byte>>
    requires |q| == 4
  {
    var v0, v1, v2, v3 := ValueOf(q[0]), ValueOf(q[1]), ValueOf(q[2]), ValueOf(q[3]);
    if v0.None? || v1.None? || v2.None? || v3.None? then None
    else
      var c0, c1, c2, c3 := v0.value, v1.value, v2.value, v3.value;
      Some([c0 * 4 + c1 / 16, (c1 % 16) * 16 + c2 / 4, (c2 % 4) * 64 + c3])
  }

  /**
   * The last group may carry padding. Canonical decoding (RFC 4648,
   * section 3.5) also demands that the bits the padding discards be zero.
   */
  function DecodeLast(q: string): Option<seq<byte>>
    requires |q| == 4
  {
    if q[3] != Pad then DecodeFull(q)
    else
      var v0, v1 := ValueOf(q[0]), ValueOf(q[1]);
      if v0.None? || v1.None? then None
      else if q[2] == Pad then
        if v1.value % 16 == 0 then Some([v0.value * 4 + v1.value / 16]) else None
      else
        var v2 := ValueOf(q[2]);
        if v2.None? || v2.value % 4 != 0 then None
        else Some([v0.value * 4 + v1.value / 16, (v1.value % 16) * 16 + v2.value / 4])
  }

  /** Decodes a canonical padded base64 string; `None` for any other string. */
  function Decode(s: string): (r: Option<seq<byte>>)
    ensures r.Some? ==> |s| == 4 * ((|r.value| + 2) / 3)
    decreases |s|
  {
    if |s| == 0 then Some([])
    else if |s| < 4 then None
    else if |s| == 4 then DecodeLast(s)
    else
      match DecodeFull(s[..4])
      case None => None
      case Some(head) =>
        match Decode(s[4..])
        case None => None
        case Some(tail) => Some(head + tail)
  }

  /** A string the decoder accepts: the canonical encoding of some bytes. */
  predicate IsCanonical(s: string)
  {
    Decode(s).Some?
  }

  /** Each alphabet character is the character of the value it stands for. */
  lemma CharOfValueOf(c: char)
    requires ValueOf(c).Some?
    ensures CharOf(ValueOf(c).value) == c
  {
  }

  // The bit shuffles of a quantum, one direction and the other.

  lemma SplitJoin(b0: byte, b1: byte, b2: byte)
    ensures (b0 / 4) * 4 + ((b0 % 4) * 16 + b1 / 16) / 16 == b0
    ensures (((b0 % 4) * 16 + b1 / 16) % 16) * 16 + ((b1 % 16) * 4 + b2 / 64) / 4 == b1
    ensures (((b1 % 16) * 4 + b2 / 64) % 4) * 64 + b2 % 64 == b2
  {
  }

  lemma JoinSplit(c0: sextet, c1: sextet, c2: sextet, c3: sextet)
    ensures (c0 * 4 + c1 / 16) / 4 == c0
    ensures ((c0 * 4 + c1 / 16) % 4) * 16 + ((c1 % 16) * 16 + c2 / 4) / 16 == c1
    ensures (((c1 % 16) * 16 + c2 / 4) % 16) * 4 + ((c2 % 4) * 64 + c3) / 64 == c2
    ensures ((c2 % 4) * 64 + c3) % 64 == c3
  {
  }

  lemma QuantumRoundTrip(b0: byte, b1: byte, b2: byte)
    ensures DecodeFull(EncodeQuantum(b0, b1, b2)) == Some([b0, b1, b2])
  {
    var c0: int, c1: int, c2: int, c3: int := b0 / 4, (b0 % 4) * 16 + b1 / 16, (b1 % 16) * 4 + b2 / 64, b2 % 64;
    var q := EncodeQuantum(b0, b1, b2);
    assert q == [CharOf(c0), CharOf(c1), CharOf(c2), CharOf(c3)];
    assert ValueOf(q[0]) == Some(c0) && ValueOf(q[1]) == Some(c1);
    assert ValueOf(q[2]) == Some(c2) && ValueOf(q[3]) == Some(c3);
    SplitJoin(b0, b1, b2);
    assert DecodeFull(q) == Some([c0 * 4 + c1 / 16, (c1 % 16) * 16 + c2 / 4, (c2 % 4) * 64 + c3]);
  }

  lemma OneOctetRoundTrip(b0: byte)
    ensures DecodeLast([CharOf(b0 / 4), CharOf((b0 % 4) * 16), Pad, Pad]) == Some([b0])
  {
    SplitJoin(b0, 0, 0);
  }

  lemma TwoOctetsRoundTrip(b0: byte, b1: byte)
    ensures DecodeLast([CharOf(b0 / 4), CharOf((b0 % 4) * 16 + b1 / 16), CharOf((b1 % 16) * 4), Pad])
         == Some([b0, b1])
  {
    SplitJoin(b0, b1, 0);
  }

  /** Unfolds `Decode` at the first of several quanta. */
  lemma DecodeCons(q: string, t: string)
    requires |q| == 4 && DecodeFull(q).Some? && t != [] && Decode(t).Some?
    ensures Decode(q + t) == Some(DecodeFull(q).value + Decode(t).value)
  {
    assert (q + t)[..4] == q;
    assert (q + t)[4..] == t;
  }

  /** Decoding undoes encoding: every byte sequence survives the round trip. */
  lemma {:induction false} DecodeEncode(bytes: seq<byte>)
    ensures Decode(Encode(bytes)) == Some(bytes)
    decreases |bytes|
  {
    if |bytes| == 1 {
      OneOctetRoundTrip(bytes[0]);
      assert bytes == [bytes[0]];
    } else if |bytes| == 2 {
      TwoOctetsRoundTrip(bytes[0], bytes[1]);
      assert bytes == [bytes[0], bytes[1]];
    } else if |bytes| >= 3 {
      var q := EncodeQuantum(bytes[0], bytes[1], bytes[2]);
      var rest := bytes[3..];
      QuantumRoundTrip(bytes[0], bytes[1], bytes[2]);
      assert bytes == [bytes[0], bytes[1], bytes[2]] + rest;
      if rest == [] {
        assert Encode(bytes) == q + Encode([]) == q;
        assert q[3] == CharOf(bytes[2] % 64) != Pad;
        assert Decode(q) == DecodeLast(q) == DecodeFull(q);
        assert bytes == [bytes[0], bytes[1], bytes[2]];
      } else {
        DecodeEncode(rest);
        DecodeCons(q, Encode(rest));
      }
    }
  }

  lemma FullQuantumInverse(q: string)
    requires |q| == 4 && DecodeFull(q).Some?
    ensures var d := DecodeFull(q).value; EncodeQuantum(d[0], d[1], d[2]) == q
  {
    var c0: int, c1: int, c2: int, c3: int := ValueOf(q[0]).value, ValueOf(q[1]).value, ValueOf(q[2]).value, ValueOf(q[3]).value;
    var d := DecodeFull(q).value;
    assert d[0] == c0 * 4 + c1 / 16 && d[1] == (c1 % 16) * 16 + c2 / 4 && d[2] == (c2 % 4) * 64 + c3;
    JoinSplit(c0, c1, c2, c3);
    assert CharOf(d[0] / 4) == q[0] by { CharOfValueOf(q[0]); }
    assert CharOf((d[0] % 4) * 16 + d[1] / 16) == q[1] by { CharOfValueOf(q[1]); }
    assert CharOf((d[1] % 16) * 4 + d[2] / 64) == q[2] by { CharOfValueOf(q[2]); }
    assert CharOf(d[2] % 64) == q[3] by { CharOfValueOf(q[3]); }
  }

  lemma LastQuantumInverse(q: string)
    requires |q| == 4 && DecodeLast(q).Some?
    ensures Encode(DecodeLast(q).value) == q
  {
    if q[3] != Pad {
      FullQuantumInverse(q);
      var d := DecodeFull(q).value;
      assert Encode(d) == EncodeQuantum(d[0], d[1], d[2]) + Encode([]);
    } else {
      var c0: int, c1: int := ValueOf(q[0]).value, ValueOf(q[1]).value;
      CharOfValueOf(q[0]);
      CharOfValueOf(q[1]);
      if q[2] == Pad {
        JoinSplit(c0, c1, 0, 0);
        assert DecodeLast(q).value == [c0 * 4 + c1 / 16];
      } else {
        var c2: int := ValueOf(q[2]).value;
        CharOfValueOf(q[2]);
        JoinSplit(c0, c1, c2, 0);
        assert DecodeLast(q).value == [c0 * 4 + c1 / 16, (c1 % 16) * 16 + c2 / 4];
      }
    }
  }

  /** Encoding undoes decoding: an accepted string is the encoding of what it decodes to. */
  lemma {:induction false} EncodeDecode(s: string)
    requires IsCanonical(s)
    ensures Encode(Decode(s).value) == s
    decreases |s|
  {
    if |s| == 4 {
      LastQuantumInverse(s);
    } else if |s| > 4 {
      var head := DecodeFull(s[..4]).value;
      var tail := Decode(s[4..]).value;
      FullQuantumInverse(s[..4]);
      EncodeDecode(s[4..]);
      var d := head + tail;
      assert Decode(s).value == d;
      assert d[..3] == head && d[3..] == tail;
      assert Encode(d) == EncodeQuantum(d[0], d[1], d[2]) + Encode(d[3..]);
      assert s == s[..4] + s[4..];
    }
  }

  /** Different byte sequences have different encodings. */
  lemma EncodeInjective(a: seq<byte>, b: seq<byte>)
    requires Encode(a) == Encode(b)
    ensures a == b
  {
    DecodeEncode(a);
    DecodeEncode(b);
  }

  /** A final group of one byte is followed by two pad characters. */
  lemma OneBytePads(b: byte)
    ensures Encode([b])[2..] == [Pad, Pad]
  {
  }

  /** A final group of two bytes is followed by one pad character. */
  lemma TwoBytesPad(b0: byte, b1: byte)
    ensures Encode([b0, b1])[3..] == [Pad]
  {
  }

  // Test vectors of RFC 4648, section 10 ("foobar" and its prefixes).

  lemma VectorF()
    ensures Encode([0x66]) == "Zg=="
  {
    assert CharOf(25) == 'Z' && CharOf(32) == 'g';
    assert Encode([0x66]) == [CharOf(25), CharOf(32), Pad, Pad];
  }

  lemma VectorFo()
    ensures Encode([0x66, 0x6f]) == "Zm8="
  {
    assert CharOf(25) == 'Z' && CharOf(38) == 'm' && CharOf(60) == '8';
    assert Encode([0x66, 0x6f]) == [CharOf(25), CharOf(38), CharOf(60), Pad];
  }

  lemma VectorFoo()
    ensures Encode([0x66, 0x6f, 0x6f]) == "Zm9v"
  {
    var foo: seq<byte> := [0x66, 0x6f, 0x6f];
    assert foo[3..] == [];
    assert Encode(foo) == EncodeQuantum(0x66, 0x6f, 0x6f) + Encode([]);
    assert CharOf(25) == 'Z' && CharOf(38) == 'm' && CharOf(61) == '9' && CharOf(47) == 'v';
    assert EncodeQuantum(0x66, 0x6f, 0x6f) == [CharOf(25), CharOf(38), CharOf(61), CharOf(47)];
  }

  lemma VectorFoobar()
    ensures Encode([0x66, 0x6f, 0x6f, 0x62, 0x61, 0x72]) == "Zm9vYmFy"
  {
    var foobar: seq<byte> := [0x66, 0x6f, 0x6f, 0x62, 0x61, 0x72];
    VectorFoo();
    assert CharOf(24) == 'Y' && CharOf(38) == 'm' && CharOf(5) == 'F' && CharOf(50) == 'y';
    assert EncodeQuantum(0x62, 0x61, 0x72) == [CharOf(24), CharOf(38), CharOf(5), CharOf(50)];
    assert foobar[3..] == [0x62, 0x61, 0x72];
    assert Encode([0x62, 0x61, 0x72]) == EncodeQuantum(0x62, 0x61, 0x72) + Encode([]);
    assert Encode(foobar) == EncodeQuantum(0x66, 0x6f, 0x6f) + Encode([0x62, 0x61, 0x72]);
  }
}
