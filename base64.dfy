/**
 * Base64 as Node's `Buffer` writes it: the standard alphabet of section 4 of
 * RFC 4648 ("A"-"Z", "a"-"z", "0"-"9", "+", "/") with "=" padding. Decoding
 * also takes the URL-safe letters "-" and "_" of section 5 and skips any other
 * character.
 */
module Base64 {

  type byte = b: int | 0 <= b < 256
  type sextet = v: int | 0 <= v < 64

  predicate IsStandardChar(c: char)
  {
    'A' <= c <= 'Z' || 'a' <= c <= 'z' || '0' <= c <= '9' || c == '+' || c == '/'
  }

  predicate IsDecodableChar(c: char)
  {
    IsStandardChar(c) || c == '-' || c == '_'
  }

  /** The character of a 6-bit value in the standard alphabet. */
  function EncodeChar(v: sextet): (c: char)
    ensures IsStandardChar(c) && DecodeChar(c) == v
  {
    if v < 26 then ('A' as int + v) as char
    else if v < 52 then ('a' as int + (v - 26)) as char
    else if v < 62 then ('0' as int + (v - 52)) as char
    else if v == 62 then '+'
    else '/'
  }

  function DecodeChar(c: char): sextet
    requires IsDecodableChar(c)
  {
    if 'A' <= c <= 'Z' then c as int - 'A' as int
    else if 'a' <= c <= 'z' then c as int - 'a' as int + 26
    else if '0' <= c <= '9' then c as int - '0' as int + 52
    else if c == '+' || c == '-' then 62
    else 63
  }

  /** Every three bytes become four 6-bit values; a last group of one or two bytes becomes two or three. */
  function ToSextets(x: seq<byte>): (q: seq<sextet>)
    ensures |q| == (4 * |x| + 2) / 3
    decreases |x|
  {
    if |x| == 0 then []
    else if |x| == 1 then [x[0] / 4, (x[0] % 4) * 16]
    else if |x| == 2 then [x[0] / 4, (x[0] % 4) * 16 + x[1] / 16, (x[1] % 16) * 4]
    else [x[0] / 4, (x[0] % 4) * 16 + x[1] / 16, (x[1] % 16) * 4 + x[2] / 64, x[2] % 64] + ToSextets(x[3..])
  }

  /** The inverse grouping: four 6-bit values give three bytes; two or three left over give one or two; one left over gives none. */
  function FromSextets(q: seq<sextet>): (x: seq<byte>)
    ensures |x| == 3 * |q| / 4
    decreases |q|
  {
    if |q| <= 1 then []
    else if |q| == 2 then [Byte0(q[0], q[1])]
    else if |q| == 3 then [Byte0(q[0], q[1]), Byte1(q[1], q[2])]
    else [Byte0(q[0], q[1]), Byte1(q[1], q[2]), Byte2(q[2], q[3])] + FromSextets(q[4..])
  }

  function Byte0(v0: sextet, v1: sextet): byte { v0 * 4 as int + v1 / 16 }
  function Byte1(v1: sextet, v2: sextet): byte { (v1 % 16) as int * 16 + v2 / 4 }
  function Byte2(v2: sextet, v3: sextet): byte { (v2 % 4) as int * 64 + v3 }

  function Chars(q: seq<sextet>): (s: string)
    ensures |s| == |q| && forall i :: 0 <= i < |q| ==> s[i] == EncodeChar(q[i])
  {
    seq(|q|, i requires 0 <= i < |q| => EncodeChar(q[i]))
  }

  function Padding(n: nat): string
  {
    if n % 3 == 1 then "==" else if n % 3 == 2 then "=" else ""
  }

  /** The digits of `n` bytes and their padding fill whole groups of four. */
  lemma PaddedLength(n: nat)
    ensures (4 * n + 2) / 3 + |Padding(n)| == 4 * ((n + 2) / 3)
  {
    var k := n / 3;
    assert n == 3 * k + n % 3;
  }

  /** `buffer.toString('base64')`. */
  function Encode(x: seq<byte>): (s: string)
    ensures |s| == 4 * ((|x| + 2) / 3)
    ensures forall i :: 0 <= i < |s| ==> IsStandardChar(s[i]) || s[i] == '='
  {
    PaddedLength(|x|);
    Chars(ToSextets(x)) + Padding(|x|)
  }

  /** The 6-bit values of the alphabet characters of `s`, in order. */
  function Sextets(s: string): (q: seq<sextet>)
    ensures |q| <= |s|
  {
    if s == [] then []
    else (if IsDecodableChar(s[0]) then [DecodeChar(s[0])] else []) + Sextets(s[1..])
  }

  /** `Buffer.from(s, 'base64')`. */
  function Decode(s: string): (x: seq<byte>)
    ensures |x| == 3 * |Sextets(s)| / 4 && |x| <= 3 * |s| / 4
  {
    FromSextets(Sextets(s))
  }

  lemma {:induction false} SextetsAppend(a: string, b: string)
    ensures Sextets(a + b) == Sextets(a) + Sextets(b)
    decreases |a|
  {
    if a != [] {
      assert (a + b)[0] == a[0];
      assert (a + b)[1..] == a[1..] + b;
      SextetsAppend(a[1..], b);
      var head := if IsDecodableChar(a[0]) then [DecodeChar(a[0])] else [];
      assert Sextets(a + b) == head + (Sextets(a[1..]) + Sextets(b));
      assert Sextets(a) == head + Sextets(a[1..]);
    } else {
      assert a + b == b;
    }
  }

  lemma {:induction false} SextetsOfChars(q: seq<sextet>)
    ensures Sextets(Chars(q)) == q
    decreases |q|
  {
    if q != [] {
      assert Chars(q)[1..] == Chars(q[1..]);
      SextetsOfChars(q[1..]);
    }
  }

  lemma GroupRoundTrip(b0: byte, b1: byte, b2: byte)
    ensures (b0 / 4) * 4 + ((b0 % 4) * 16 + b1 / 16) / 16 == b0
    ensures (((b0 % 4) * 16 + b1 / 16) % 16) * 16 + ((b1 % 16) * 4 + b2 / 64) / 4 == b1
    ensures (((b1 % 16) * 4 + b2 / 64) % 4) * 64 + b2 % 64 == b2
  {
  }

  lemma {:induction false} FromToSextets(x: seq<byte>)
    ensures FromSextets(ToSextets(x)) == x
    decreases |x|
  {
    if |x| >= 3 {
      GroupRoundTrip(x[0], x[1], x[2]);
      var q := ToSextets(x);
      assert q[4..] == ToSextets(x[3..]);
      FromToSextets(x[3..]);
      assert x == x[..3] + x[3..];
    } else if |x| == 2 {
      GroupRoundTrip(x[0], x[1], 0);
    } else if |x| == 1 {
      GroupRoundTrip(x[0], 0, 0);
    }
  }

  /** Decoding what was encoded gives back the same bytes. */
  lemma DecodeEncode(x: seq<byte>)
    ensures Decode(Encode(x)) == x
  {
    var q := ToSextets(x);
    SextetsAppend(Chars(q), Padding(|x|));
    SextetsOfChars(q);
    assert Sextets(Padding(|x|)) == [];
    assert Sextets(Encode(x)) == q;
    FromToSextets(x);
  }

  /** Distinct byte strings have distinct encodings. */
  lemma EncodeInjective(x: seq<byte>, y: seq<byte>)
    requires Encode(x) == Encode(y)
    ensures x == y
  {
    DecodeEncode(x);
    DecodeEncode(y);
  }

  /** No encoding contains the character `c` when it is neither an alphabet letter nor "=". */
  lemma EncodeAvoids(x: seq<byte>, c: char)
    requires !IsStandardChar(c) && c != '='
    ensures c !in Encode(x)
  {
  }

  lemma {:induction false} ToSextetsPrefix(x: seq<byte>, k: nat)
    requires 3 * k <= |x|
    ensures ToSextets(x)[..4 * k] == ToSextets(x[..3 * k])
    decreases k
  {
    if k > 0 {
      assert x[3..][..3 * (k - 1)] == x[..3 * k][3..];
      ToSextetsPrefix(x[3..], k - 1);
    }
  }

  /** The first 4k characters of an encoding are the encoding of the first 3k bytes. */
  lemma EncodePrefix(x: seq<byte>, k: nat)
    requires 3 * k <= |x|
    ensures Encode(x)[..4 * k] == Encode(x[..3 * k])
  {
    ToSextetsPrefix(x, k);
    var q := ToSextets(x);
    assert Encode(x)[..4 * k] == Chars(q)[..4 * k];
    assert Chars(q)[..4 * k] == Chars(q[..4 * k]);
  }
}
