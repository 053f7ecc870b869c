/** Hexadecimal decoding into a fixed-size buffer, as the `hex` crate's
    `decode_to_slice` does it (version 0.4): the input is bytes, the length
    is checked first, then the bytes two by two, from the left. `Encode` is
    the inverse used to state the round trip. */
module Hex {
  import opened Wrappers
  import Utf8

  type Byte = Utf8.Byte

  /** A bad byte is reported as the character `c as char` gives it, with its index */
  datatype HexError =
    | OddLength
    | InvalidStringLength
    | InvalidHexCharacter(c: char, index: nat)

  /** Value of one hex digit; both letter cases are accepted */
  function DigitValue(b: Byte): (r: Option<nat>)
    ensures r.Some? ==> r.value < 16
    ensures r.Some? <==> ('0' as int <= b <= '9' as int || 'a' as int <= b <= 'f' as int || 'A' as int <= b <= 'F' as int)
  {
    if '0' as int <= b <= '9' as int then Some(b - '0' as int)
    else if 'a' as int <= b <= 'f' as int then Some(b - 'a' as int + 10)
    else if 'A' as int <= b <= 'F' as int then Some(b - 'A' as int + 10)
    else None
  }

  predicate IsHexDigit(b: Byte) {
    DigitValue(b).Some?
  }

  /** The byte written by the two digits at positions `2 * k` and `2 * k + 1` */
  function PairValue(s: seq<Byte>, k: nat): Byte
    requires 2 * k + 1 < |s| && IsHexDigit(s[2 * k]) && IsHexDigit(s[2 * k + 1])
  {
    16 * DigitValue(s[2 * k]).value + DigitValue(s[2 * k + 1]).value
  }

  /** True when `j` is the leftmost position at or after `from` whose byte is not a hex digit */
  predicate FirstBadAt(s: seq<Byte>, from: nat, j: nat) {
    from <= j < |s| && !IsHexDigit(s[j]) && forall i | from <= i < j :: IsHexDigit(s[i])
  }

  /** The error `val` reports for the bad byte at `index` of `s` */
  function BadDigit(s: seq<Byte>, index: nat): HexError
    requires index < |s|
  {
    InvalidHexCharacter(s[index] as char, index)
  }

  /** Decodes the bytes `s` into exactly `len` bytes */
  function DecodeToSlice(s: seq<Byte>, len: nat): (r: Result<seq<Byte>, HexError>)
    ensures |s| % 2 != 0 ==> r == Err(OddLength)
    ensures |s| % 2 == 0 && |s| / 2 != len ==> r == Err(InvalidStringLength)
    ensures r.Ok? <==> |s| == 2 * len && forall i | 0 <= i < |s| :: IsHexDigit(s[i])
    ensures r.Ok? ==> |r.value| == len && forall k | 0 <= k < len :: r.value[k] == PairValue(s, k)
    ensures |s| == 2 * len && r.Err? ==> r.error.InvalidHexCharacter?
    ensures r.Err? && r.error.InvalidHexCharacter? ==>
              FirstBadAt(s, 0, r.error.index) && r.error == BadDigit(s, r.error.index)
  {
    if |s| % 2 != 0 then Err(OddLength)
    else if |s| / 2 != len then Err(InvalidStringLength)
    else DecodePairs(s, 0)
  }

  function DecodePairs(s: seq<Byte>, k: nat): (r: Result<seq<Byte>, HexError>)
    requires |s| % 2 == 0 && k <= |s| / 2
    ensures r.Ok? <==> forall i | 2 * k <= i < |s| :: IsHexDigit(s[i])
    ensures r.Ok? ==> |r.value| == |s| / 2 - k
    ensures r.Ok? ==> forall n | 0 <= n < |r.value| :: r.value[n] == PairValue(s, k + n)
    ensures r.Err? ==> r.error.InvalidHexCharacter?
    ensures r.Err? ==> FirstBadAt(s, 2 * k, r.error.index) && r.error == BadDigit(s, r.error.index)
    decreases |s| / 2 - k
  {
    if k == |s| / 2 then Ok([])
    else if !IsHexDigit(s[2 * k]) then Err(BadDigit(s, 2 * k))
    else if !IsHexDigit(s[2 * k + 1]) then Err(BadDigit(s, 2 * k + 1))
    else
      match DecodePairs(s, k + 1)
      case Err(e) => Err(e)
      case Ok(rest) => Ok([PairValue(s, k)] + rest)
  }

  /** Lower-case hex digit, as an ASCII byte, for a value below 16 */
  function DigitChar(d: nat): (c: Byte)
    requires d < 16
    ensures DigitValue(c) == Some(d)
  {
    if d < 10 then d + '0' as int else d - 10 + 'a' as int
  }

  /** Lower-case hex form of `bytes`, two ASCII bytes per byte */
  function Encode(bytes: seq<Byte>): (s: seq<Byte>)
    ensures |s| == 2 * |bytes|
    ensures forall i | 0 <= i < |s| :: IsHexDigit(s[i])
  {
    if |bytes| == 0 then []
    else [DigitChar(bytes[0] / 16), DigitChar(bytes[0] % 16)] + Encode(bytes[1..])
  }

  lemma {:induction false} EncodePairs(bytes: seq<Byte>)
    ensures forall k | 0 <= k < |bytes| :: PairValue(Encode(bytes), k) == bytes[k]
  {
    if |bytes| > 0 {
      EncodePairs(bytes[1..]);
      var s := Encode(bytes);
      var tail := Encode(bytes[1..]);
      assert s == [DigitChar(bytes[0] / 16), DigitChar(bytes[0] % 16)] + tail;
      forall k | 0 <= k < |bytes|
        ensures PairValue(s, k) == bytes[k]
      {
        if k > 0 {
          assert s[2 * k] == tail[2 * (k - 1)];
          assert s[2 * k + 1] == tail[2 * (k - 1) + 1];
          assert PairValue(s, k) == PairValue(tail, k - 1);
        }
      }
    }
  }

  /** Byte sequences that agree everywhere are equal */
  lemma SameBytes(a: seq<Byte>, b: seq<Byte>)
    requires |a| == |b| && forall k | 0 <= k < |a| :: a[k] == b[k]
    ensures a == b
  {
  }

  /** Decoding the encoding of `bytes` into a buffer of the same size gives `bytes` back */
  lemma DecodeEncode(bytes: seq<Byte>)
    ensures DecodeToSlice(Encode(bytes), |bytes|) == Ok(bytes)
  {
    var s := Encode(bytes);
    EncodePairs(bytes);
    assert |s| == 2 * |bytes|;
    assert forall i | 0 <= i < |s| :: IsHexDigit(s[i]);
    var r := DecodeToSlice(s, |bytes|);
    assert r.Ok?;
    assert |r.value| == |bytes|;
    assert forall k | 0 <= k < |bytes| :: r.value[k] == PairValue(s, k) == bytes[k];
    SameBytes(r.value, bytes);
  }
}
