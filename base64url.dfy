/**
 * URL-safe base64 without padding: the "base64url" alphabet of section 5 of
 * RFC 4648, with the trailing '=' characters omitted as section 3.2 of
 * RFC 4648 permits.
 *
 * `Encode` and `Decode` are the specification; `EncodeConfigBuf` is the
 * imperative encoder that appends to a caller's string buffer, proved to
 * append exactly `Encode` of its input.
 */
module Base64Url {
  import opened Errors

  type byte = x: int | 0 <= x < 0x100
  type sextet = x: int | 0 <= x < 64

  /** The 64 symbols: A-Z, a-z, 0-9, '-' and '_'. */
  function Symbol(v: sextet): char
  {
    if v < 26 then ('A' as int + v) as char
    else if v < 52 then ('a' as int + (v - 26)) as char
    else if v < 62 then ('0' as int + (v - 52)) as char
    else if v == 62 then '-'
    else '_'
  }

  /** The value of a symbol, or None for a character outside the alphabet. */
  function SymbolValue(c: char): Option<sextet>
  {
    if 'A' <= c <= 'Z' then Some(c as int - 'A' as int)
    else if 'a' <= c <= 'z' then Some(c as int - 'a' as int + 26)
    else if '0' <= c <= '9' then Some(c as int - '0' as int + 52)
    else if c == '-' then Some(62)
    else if c == '_' then Some(63)
    else None
  }

  predicate IsUrlSafe(c: char)
  {
    'A' <= c <= 'Z' || 'a' <= c <= 'z' || '0' <= c <= '9' || c == '-' || c == '_'
  }

  lemma SymbolRoundTrip(v: sextet)
    ensures SymbolValue(Symbol(v)) == Some(v)
    ensures IsUrlSafe(Symbol(v)) && Symbol(v) != '='
  {
  }

  lemma SymbolValueInverse(c: char)
    ensures SymbolValue(c).Some? ==> Symbol(SymbolValue(c).value) == c
    ensures SymbolValue(c).Some? <==> IsUrlSafe(c)
  {
  }

  /* Three bytes become four symbols; one or two trailing bytes become two or three. */

  function EncodeBlock(b0: byte, b1: byte, b2: byte): seq<char>
  {
    [Symbol(b0 / 4), Symbol(b0 % 4 * 16 + b1 / 16), Symbol(b1 % 16 * 4 + b2 / 64), Symbol(b2 % 64)]
  }

  function EncodeTail2(b0: byte, b1: byte): seq<char>
  {
    [Symbol(b0 / 4), Symbol(b0 % 4 * 16 + b1 / 16), Symbol(b1 % 16 * 4)]
  }

  function EncodeTail1(b0: byte): seq<char>
  {
    [Symbol(b0 / 4), Symbol(b0 % 4 * 16)]
  }

  /** The unpadded base64url encoding of `s`. */
  function Encode(s: seq<byte>): (t: seq<char>)
    ensures |t| == 4 * (|s| / 3) + (if |s| % 3 == 0 then 0 else |s| % 3 + 1)
    decreases |s|
  {
    if |s| >= 3 then EncodeBlock(s[0], s[1], s[2]) + Encode(s[3..])
    else if |s| == 2 then EncodeTail2(s[0], s[1])
    else if |s| == 1 then EncodeTail1(s[0])
    else []
  }

  /** Four symbols back to three bytes. */
  function DecodeBlock(q: seq<char>): Option<seq<byte>>
    requires |q| == 4
  {
    var v0, v1, v2, v3 := SymbolValue(q[0]), SymbolValue(q[1]), SymbolValue(q[2]), SymbolValue(q[3]);
    if v0.None? || v1.None? || v2.None? || v3.None? then None
    else Some([v0.value * 4 + v1.value / 16,
               v1.value % 16 * 16 + v2.value / 4,
               v2.value % 4 * 64 + v3.value])
  }

  /**
   * The last zero to three symbols. A single symbol cannot occur, and the bits
   * that do not reach a whole byte must be zero, so every accepted text is the
   * encoding of exactly one byte string.
   */
  function DecodeTail(t: seq<char>): Option<seq<byte>>
    requires |t| < 4
  {
    if |t| == 0 then Some([])
    else if |t| == 1 then None
    else if |t| == 2 then
      var v0, v1 := SymbolValue(t[0]), SymbolValue(t[1]);
      if v0.None? || v1.None? || v1.value % 16 != 0 then None
      else Some([v0.value * 4 + v1.value / 16])
    else
      var v0, v1, v2 := SymbolValue(t[0]), SymbolValue(t[1]), SymbolValue(t[2]);
      if v0.None? || v1.None? || v2.None? || v2.value % 4 != 0 then None
      else Some([v0.value * 4 + v1.value / 16, v1.value % 16 * 16 + v2.value / 4])
  }

  /** Strict unpadded base64url decoding: None for anything `Encode` cannot produce. */
  function Decode(t: seq<char>): Option<seq<byte>>
    decreases |t|
  {
    if |t| < 4 then DecodeTail(t)
    else
      match DecodeBlock(t[..4])
      case None => None
      case Some(head) =>
        match Decode(t[4..])
        case None => None
        case Some(rest) => Some(head + rest)
  }

  /* Splitting: the symbol values a byte's bits go to join back into that byte. */

  lemma SplitFirst(b0: int, b1: int)
    requires 0 <= b0 < 256 && 0 <= b1 < 256
    ensures (b0 % 4 * 16 + b1 / 16) / 16 == b0 % 4 && (b0 % 4 * 16 + b1 / 16) % 16 == b1 / 16
  {
  }

  lemma SplitSecond(b1: int, b2: int)
    requires 0 <= b1 < 256 && 0 <= b2 < 256
    ensures (b1 % 16 * 4 + b2 / 64) / 4 == b1 % 16 && (b1 % 16 * 4 + b2 / 64) % 4 == b2 / 64
  {
  }

  lemma BlockRoundTrip(b0: byte, b1: byte, b2: byte)
    ensures DecodeBlock(EncodeBlock(b0, b1, b2)) == Some([b0, b1, b2])
  {
    var v0: int, v1: int, v2: int, v3: int := b0 / 4, b0 % 4 * 16 + b1 / 16, b1 % 16 * 4 + b2 / 64, b2 % 64;
    SymbolRoundTrip(v0);
    SymbolRoundTrip(v1);
    SymbolRoundTrip(v2);
    SymbolRoundTrip(v3);
    SplitFirst(b0, b1);
    SplitSecond(b1, b2);
    assert v0 * 4 + v1 / 16 == b0;
    assert v1 % 16 * 16 + v2 / 4 == b1;
    assert v2 % 4 * 64 + v3 == b2;
    var q := EncodeBlock(b0, b1, b2);
    assert q == [Symbol(v0), Symbol(v1), Symbol(v2), Symbol(v3)];
  }

  lemma Tail2RoundTrip(b0: byte, b1: byte)
    ensures DecodeTail(EncodeTail2(b0, b1)) == Some([b0, b1])
  {
    var v0: int, v1: int, v2: int := b0 / 4, b0 % 4 * 16 + b1 / 16, b1 % 16 * 4;
    SymbolRoundTrip(v0);
    SymbolRoundTrip(v1);
    SymbolRoundTrip(v2);
    SplitFirst(b0, b1);
    assert v0 * 4 + v1 / 16 == b0;
    assert v1 % 16 * 16 + v2 / 4 == b1;
  }

  lemma Tail1RoundTrip(b0: byte)
    ensures DecodeTail(EncodeTail1(b0)) == Some([b0])
  {
    var v0: int, v1: int := b0 / 4, b0 % 4 * 16;
    SymbolRoundTrip(v0);
    SymbolRoundTrip(v1);
    assert v0 * 4 + v1 / 16 == b0;
  }

  /* Regrouping: the bytes that four symbol values decode to split back into the same values. */

  lemma RegroupFirst(v0: int, v1: int)
    requires 0 <= v0 < 64 && 0 <= v1 < 64
    ensures (v0 * 4 + v1 / 16) / 4 == v0 && (v0 * 4 + v1 / 16) % 4 == v1 / 16
  {
  }

  lemma RegroupSecond(v1: int, v2: int)
    requires 0 <= v1 < 64 && 0 <= v2 < 64
    ensures (v1 % 16 * 16 + v2 / 4) / 16 == v1 % 16 && (v1 % 16 * 16 + v2 / 4) % 16 == v2 / 4
  {
  }

  lemma RegroupThird(v2: int, v3: int)
    requires 0 <= v2 < 64 && 0 <= v3 < 64
    ensures (v2 % 4 * 64 + v3) / 64 == v2 % 4 && (v2 % 4 * 64 + v3) % 64 == v3
  {
  }

  /** Four symbol values joined into three bytes split back into the same four values. */
  lemma Regroup(v0: int, v1: int, v2: int, v3: int)
    requires 0 <= v0 < 64 && 0 <= v1 < 64 && 0 <= v2 < 64 && 0 <= v3 < 64
    ensures var b0, b1, b2 := v0 * 4 + v1 / 16, v1 % 16 * 16 + v2 / 4, v2 % 4 * 64 + v3;
      && 0 <= b0 < 256 && 0 <= b1 < 256 && 0 <= b2 < 256
      && b0 / 4 == v0 && b0 % 4 * 16 + b1 / 16 == v1 && b1 % 16 * 4 + b2 / 64 == v2 && b2 % 64 == v3
  {
    RegroupFirst(v0, v1);
    RegroupSecond(v1, v2);
    RegroupThird(v2, v3);
  }

  lemma BlockCanonical(q: seq<char>)
    requires |q| == 4 && DecodeBlock(q).Some?
    ensures var bs := DecodeBlock(q).value; |bs| == 3 && EncodeBlock(bs[0], bs[1], bs[2]) == q
  {
    var v0: int, v1: int, v2: int, v3: int := SymbolValue(q[0]).value, SymbolValue(q[1]).value, SymbolValue(q[2]).value, SymbolValue(q[3]).value;
    SymbolValueInverse(q[0]);
    SymbolValueInverse(q[1]);
    SymbolValueInverse(q[2]);
    SymbolValueInverse(q[3]);
    Regroup(v0, v1, v2, v3);
    var b0: byte, b1: byte, b2: byte := v0 * 4 + v1 / 16, v1 % 16 * 16 + v2 / 4, v2 % 4 * 64 + v3;
    assert DecodeBlock(q).value == [b0, b1, b2];
    assert EncodeBlock(b0, b1, b2) == [Symbol(v0), Symbol(v1), Symbol(v2), Symbol(v3)];
    assert q == [q[0], q[1], q[2], q[3]];
  }

  lemma Tail1Canonical(t: seq<char>)
    requires |t| == 2 && DecodeTail(t).Some?
    ensures var bs := DecodeTail(t).value; |bs| == 1 && EncodeTail1(bs[0]) == t
  {
    var v0: int, v1: int := SymbolValue(t[0]).value, SymbolValue(t[1]).value;
    SymbolValueInverse(t[0]);
    SymbolValueInverse(t[1]);
    RegroupFirst(v0, v1);
    var b0: byte := v0 * 4 + v1 / 16;
    assert b0 % 4 * 16 == v1;
    assert EncodeTail1(b0) == [Symbol(v0), Symbol(v1)];
  }

  lemma Tail2Canonical(t: seq<char>)
    requires |t| == 3 && DecodeTail(t).Some?
    ensures var bs := DecodeTail(t).value; |bs| == 2 && EncodeTail2(bs[0], bs[1]) == t
  {
    var v0: int, v1: int, v2: int := SymbolValue(t[0]).value, SymbolValue(t[1]).value, SymbolValue(t[2]).value;
    SymbolValueInverse(t[0]);
    SymbolValueInverse(t[1]);
    SymbolValueInverse(t[2]);
    RegroupFirst(v0, v1);
    RegroupSecond(v1, v2);
    var b0: byte, b1: byte := v0 * 4 + v1 / 16, v1 % 16 * 16 + v2 / 4;
    assert b0 % 4 * 16 + b1 / 16 == v1;
    assert b1 % 16 * 4 == v2;
    assert EncodeTail2(b0, b1) == [Symbol(v0), Symbol(v1), Symbol(v2)];
  }

  lemma TailCanonical(t: seq<char>)
    requires |t| < 4 && DecodeTail(t).Some?
    ensures var bs := DecodeTail(t).value;
      && |bs| == (if |t| == 0 then 0 else |t| - 1)
      && (|bs| == 2 ==> EncodeTail2(bs[0], bs[1]) == t)
      && (|bs| == 1 ==> EncodeTail1(bs[0]) == t)
  {
    if |t| == 2 {
      Tail1Canonical(t);
    } else if |t| == 3 {
      Tail2Canonical(t);
    }
  }

  /** Decoding an encoding gives the bytes back. */
  lemma {:induction false} DecodeEncode(s: seq<byte>)
    ensures Decode(Encode(s)) == Some(s)
    decreases |s|
  {
    if |s| >= 3 {
      var e := Encode(s);
      assert e[..4] == EncodeBlock(s[0], s[1], s[2]);
      assert e[4..] == Encode(s[3..]);
      BlockRoundTrip(s[0], s[1], s[2]);
      DecodeEncode(s[3..]);
      assert s == [s[0], s[1], s[2]] + s[3..];
    } else if |s| == 2 {
      Tail2RoundTrip(s[0], s[1]);
      assert s == [s[0], s[1]];
    } else if |s| == 1 {
      Tail1RoundTrip(s[0]);
      assert s == [s[0]];
    }
  }

  /** Every text the decoder accepts is the encoding of what it decodes to. */
  lemma {:induction false} EncodeDecode(t: seq<char>)
    requires Decode(t).Some?
    ensures Encode(Decode(t).value) == t
    decreases |t|
  {
    if |t| < 4 {
      TailCanonical(t);
    } else {
      var head := DecodeBlock(t[..4]).value;
      var rest := Decode(t[4..]).value;
      BlockCanonical(t[..4]);
      EncodeDecode(t[4..]);
      var s := head + rest;
      assert s[3..] == rest;
      assert t == t[..4] + t[4..];
    }
  }

  /** Decoding is exactly the inverse of encoding. */
  lemma DecodeIffEncode(t: seq<char>, s: seq<byte>)
    ensures Decode(t) == Some(s) <==> Encode(s) == t
  {
    if Decode(t) == Some(s) {
      EncodeDecode(t);
    }
    if Encode(s) == t {
      DecodeEncode(s);
    }
  }

  predicate AllUrlSafe(t: seq<char>)
  {
    forall i :: 0 <= i < |t| ==> IsUrlSafe(t[i])
  }

  lemma BlockAlphabet(b0: byte, b1: byte, b2: byte)
    ensures AllUrlSafe(EncodeBlock(b0, b1, b2))
  {
    var v0: sextet, v1: sextet, v2: sextet, v3: sextet := b0 / 4, b0 % 4 * 16 + b1 / 16, b1 % 16 * 4 + b2 / 64, b2 % 64;
    SymbolRoundTrip(v0);
    SymbolRoundTrip(v1);
    SymbolRoundTrip(v2);
    SymbolRoundTrip(v3);
  }

  lemma TailAlphabet(b0: byte, b1: byte)
    ensures AllUrlSafe(EncodeTail2(b0, b1)) && AllUrlSafe(EncodeTail1(b0))
  {
    var v0: sextet, v1: sextet, v2: sextet := b0 / 4, b0 % 4 * 16 + b1 / 16, b1 % 16 * 4;
    var w1: sextet := b0 % 4 * 16;
    SymbolRoundTrip(v0);
    SymbolRoundTrip(v1);
    SymbolRoundTrip(v2);
    SymbolRoundTrip(w1);
  }

  /** The encoding uses only the URL-safe alphabet, and in particular contains no '='. */
  lemma {:induction false} EncodeAlphabet(s: seq<byte>)
    ensures forall i :: 0 <= i < |Encode(s)| ==> IsUrlSafe(Encode(s)[i])
    ensures '=' !in Encode(s)
    decreases |s|
  {
    if |s| >= 3 {
      EncodeAlphabet(s[3..]);
      BlockAlphabet(s[0], s[1], s[2]);
      assert Encode(s) == EncodeBlock(s[0], s[1], s[2]) + Encode(s[3..]);
    } else if |s| == 2 {
      TailAlphabet(s[0], s[1]);
    } else if |s| == 1 {
      TailAlphabet(s[0], 0);
    }
    assert !IsUrlSafe('=');
  }

  /**
   * `encode_config_buf` with the URL_SAFE_NO_PAD configuration: append the
   * encoding of `input` to the string `buf`, one group of three bytes at a time,
   * then the final partial group.
   */
  method EncodeConfigBuf(input: seq<byte>, buf: string) returns (out: string)
    ensures out == buf + Encode(input)
  {
    out := buf;
    var i := 0;
    while i + 3 <= |input|
      invariant 0 <= i <= |input|
      invariant out + Encode(input[i..]) == buf + Encode(input)
    {
      var group := EncodeBlock(input[i], input[i + 1], input[i + 2]);
      assert Encode(input[i..]) == group + Encode(input[i + 3..]) by {
        assert input[i..][3..] == input[i + 3..];
      }
      out := out + group;
      i := i + 3;
    }
    var rest := input[i..];
    if |rest| == 2 {
      out := out + EncodeTail2(rest[0], rest[1]);
    } else if |rest| == 1 {
      out := out + EncodeTail1(rest[0]);
    }
  }
}
