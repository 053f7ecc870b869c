/** UTF-8, the byte form of a Rust `str`: the encoding of characters
    (Unicode scalar values), a decoder as its partner, and the
    char-boundary test that guards slicing a `str` by byte index. */
module Utf8 {
  import opened Wrappers

  type Byte = x: nat | x < 256

  /** Bytes in the encoding of `c` */
  function Width(c: char): (n: nat)
    ensures 1 <= n <= 4
  {
    if c as int < 0x80 then 1 else if c as int < 0x800 then 2 else if c as int < 0x1_0000 then 3 else 4
  }

  /** A byte of the form `0b10xx_xxxx`, which never starts a character */
  predicate IsContinuation(b: Byte) {
    0x80 <= b < 0xC0
  }

  /** The encoding of one character: an ASCII character as its own byte,
      any other as a lead byte of at least `0xC0` and continuation bytes */
  function EncodeChar(c: char): (b: seq<Byte>)
    ensures |b| == Width(c)
    ensures c as int < 0x80 ==> b == [c as int]
    ensures c as int >= 0x80 ==> b[0] >= 0xC0
    ensures forall i | 1 <= i < |b| :: IsContinuation(b[i])
  {
    var n := c as int;
    if n < 0x80 then [n]
    else if n < 0x800 then [0xC0 + n / 64, 0x80 + n % 64]
    else if n < 0x1_0000 then [0xE0 + n / 4096, 0x80 + n / 64 % 64, 0x80 + n % 64]
    else [0xF0 + n / 0x4_0000, 0x80 + n / 4096 % 64, 0x80 + n / 64 % 64, 0x80 + n % 64]
  }

  /** The character width a lead byte announces */
  function LeadWidth(b: Byte): (n: nat)
    ensures 1 <= n <= 4
  {
    if b < 0x80 then 1 else if b < 0xE0 then 2 else if b < 0xF0 then 3 else 4
  }

  /** The code point that one lead byte and its continuation bytes spell */
  function CodePoint(b: seq<Byte>): int
    requires 1 <= |b| <= 4
  {
    var d := seq(|b|, i requires 0 <= i < |b| => b[i] as int);
    if |d| == 1 then d[0]
    else if |d| == 2 then (d[0] - 0xC0) * 64 + (d[1] - 0x80)
    else if |d| == 3 then (d[0] - 0xE0) * 4096 + (d[1] - 0x80) * 64 + (d[2] - 0x80)
    else (d[0] - 0xF0) * 0x4_0000 + (d[1] - 0x80) * 4096 + (d[2] - 0x80) * 64 + (d[3] - 0x80)
  }

  /** A code point that is a `char`: below `0x11_0000` and not a surrogate */
  predicate IsScalar(n: int) {
    0 <= n < 0xD800 || 0xE000 <= n < 0x11_0000
  }

  /** Each character's bytes announce its width and spell it back */
  lemma DecodeEncodeChar(c: char)
    ensures LeadWidth(EncodeChar(c)[0]) == Width(c)
    ensures CodePoint(EncodeChar(c)) == c as int
  {
    var n := c as int;
    if 0x1_0000 <= n {
      assert n == n / 0x4_0000 * 0x4_0000 + n / 4096 % 64 * 4096 + n / 64 % 64 * 64 + n % 64;
    } else if 0x800 <= n {
      assert n == n / 4096 * 4096 + n / 64 % 64 * 64 + n % 64;
    }
  }

  /** The encoding of a string: its characters' encodings, in order */
  function Encode(s: string): (b: seq<Byte>)
    ensures |b| >= |s|
  {
    if |s| == 0 then [] else EncodeChar(s[0]) + Encode(s[1..])
  }

  /** Encoding turns concatenation into concatenation */
  lemma {:induction false} EncodeAppend(a: string, b: string)
    ensures Encode(a + b) == Encode(a) + Encode(b)
    decreases |a|
  {
    if |a| == 0 {
      assert a + b == b;
    } else {
      assert (a + b)[0] == a[0] && (a + b)[1..] == a[1..] + b;
      EncodeAppend(a[1..], b);
    }
  }

  /** A decoder for the encoder's output: a lead byte, as many bytes as it
      announces, the code point they spell, and so on. It is the partner
      that shows `Encode` loses nothing; it is not a validator, and gives
      `None` only when bytes run out or a code point is not a `char`, so
      some malformed input is read rather than refused (the overlong form
      `C0 80`, say, or a lead byte followed by a non-continuation byte) */
  function Decode(b: seq<Byte>): (r: Option<string>)
    decreases |b|
  {
    if |b| == 0 then Some([])
    else
      var w := LeadWidth(b[0]);
      if |b| < w || !IsScalar(CodePoint(b[..w])) then None
      else
        match Decode(b[w..])
        case None => None
        case Some(rest) => Some([CodePoint(b[..w]) as char] + rest)
  }

  /** Decoding the encoding of any string gives the string back */
  lemma {:induction false} DecodeEncode(s: string)
    ensures Decode(Encode(s)) == Some(s)
    decreases |s|
  {
    if |s| > 0 {
      var b := Encode(s);
      var head := EncodeChar(s[0]);
      DecodeEncodeChar(s[0]);
      assert b[0] == head[0];
      var w := LeadWidth(b[0]);
      assert b[..w] == head && b[w..] == Encode(s[1..]);
      DecodeEncode(s[1..]);
      assert [s[0]] + s[1..] == s;
    }
  }

  /** The string whose characters are the ASCII bytes `b` */
  function AsciiText(b: seq<Byte>): (s: string)
    requires forall i | 0 <= i < |b| :: b[i] < 0x80
    ensures |s| == |b|
  {
    seq(|b|, i requires 0 <= i < |b| => b[i] as char)
  }

  /** An ASCII string encodes to its own bytes */
  lemma {:induction false} EncodeAsciiText(b: seq<Byte>)
    requires forall i | 0 <= i < |b| :: b[i] < 0x80
    ensures Encode(AsciiText(b)) == b
    decreases |b|
  {
    if |b| > 0 {
      assert AsciiText(b)[1..] == AsciiText(b[1..]);
      EncodeAsciiText(b[1..]);
    }
  }

  /** `str::is_char_boundary(i)`: the start, the end, or a byte that starts a character */
  predicate IsCharBoundary(s: string, i: nat) {
    var b := Encode(s);
    i == 0 || i == |b| || (i < |b| && !IsContinuation(b[i]))
  }

  /** The bytes of `s` from byte `i` on, as `&s[i..]` gives them; `None`
      where Rust panics, because `i` is past the end or inside a character */
  function SliceFrom(s: string, i: nat): (r: Option<seq<Byte>>)
    ensures r.Some? <==> IsCharBoundary(s, i)
    ensures r.Some? ==> i <= |Encode(s)| && r.value == Encode(s)[i..]
  {
    if IsCharBoundary(s, i) then Some(Encode(s)[i..]) else None
  }

  /** A byte index is a char boundary exactly when some prefix of the
      characters encodes to that many bytes */
  lemma {:induction false} CharBoundaryIsPrefix(s: string, i: nat)
    ensures IsCharBoundary(s, i) <==> exists k | 0 <= k <= |s| :: |Encode(s[..k])| == i
    decreases |s|
  {
    if i == 0 {
      assert |Encode(s[..0])| == 0;
    } else if |s| == 0 {
      assert s[..0] == s;
    } else {
      var w := Width(s[0]);
      var rest := s[1..];
      assert Encode(s) == EncodeChar(s[0]) + Encode(rest);
      forall k | 1 <= k <= |s|
        ensures |Encode(s[..k])| == w + |Encode(rest[..k - 1])|
      {
        assert s[..k][1..] == rest[..k - 1];
      }
      if i < w {
        assert !IsCharBoundary(s, i);
        forall k | 0 <= k <= |s| ensures |Encode(s[..k])| != i {
          if k == 0 { assert s[..0] == []; }
        }
      } else {
        CharBoundaryIsPrefix(rest, i - w);
        assert IsCharBoundary(s, i) <==> IsCharBoundary(rest, i - w);
        if exists k' | 0 <= k' <= |rest| :: |Encode(rest[..k'])| == i - w {
          var k' :| 0 <= k' <= |rest| && |Encode(rest[..k'])| == i - w;
          assert |Encode(s[..k' + 1])| == i;
        }
        if exists k | 0 <= k <= |s| :: |Encode(s[..k])| == i {
          var k :| 0 <= k <= |s| && |Encode(s[..k])| == i;
          assert |Encode(rest[..k - 1])| == i - w;
        }
      }
    }
  }

  /** Slicing after a prefix at its byte length gives the encoding of the rest */
  lemma SliceAfterPrefix(p: string, q: string)
    ensures SliceFrom(p + q, |Encode(p)|) == Some(Encode(q))
  {
    EncodeAppend(p, q);
    var b := Encode(p + q);
    if |q| > 0 {
      assert Encode(q) == EncodeChar(q[0]) + Encode(q[1..]);
      assert b[|Encode(p)|] == EncodeChar(q[0])[0];
    }
    assert b[|Encode(p)|..] == Encode(q);
  }
}
