/**
 * The compact data codec: arrays of small numbers (0 to 91) are written as
 * strings of printable ASCII characters, one character per number, skipping
 * the quote character 39 and the backslash 92 so that the strings can be
 * pasted into source code unescaped.
 */
module DataEncode {
  import opened Wrappers

  /** An element of a `Uint8Array`. */
  type Byte = x: int | 0 <= x < 256

  /** Largest value the data stream may carry. */
  const DataMax: int := 91

  /** The error `encode` throws, carrying the offending maximum. */
  datatype EncodeError = OutOfRange(max: int)

  /** A character that `encode` can produce: printable, not a quote or a backslash. */
  predicate IsDataChar(c: char) {
    33 <= c as int <= 126 && c as int != 39 && c as int != 92
  }

  /**
   * `Math.max` over the array. For an empty array JavaScript yields
   * -Infinity; -1 stands in for it, being likewise below every byte.
   */
  function MaxOf(a: seq<Byte>): (m: int)
    ensures a == [] ==> m < 0
    ensures a != [] ==> (forall i :: 0 <= i < |a| ==> a[i] <= m) && (exists i :: 0 <= i < |a| && a[i] == m)
  {
    if a == [] then -1
    else
      var rest := MaxOf(a[1..]);
      if a[0] >= rest then a[0] else rest
  }

  /** The character one number is encoded as. */
  function EncodeByte(x: Byte): (c: char)
    requires x <= DataMax
    ensures IsDataChar(c)
  {
    (x + 33 + (if x > 5 then 1 else 0) + (if x > 57 then 1 else 0)) as char
  }

  /**
   * The number one character decodes to. The subtraction is stored into a
   * `Uint8Array`, so it is taken modulo 256.
   */
  function DecodeChar(c: char): Byte {
    (c as int - 33 - (if c as int > 39 then 1 else 0) - (if c as int > 92 then 1 else 0)) % 256
  }

  /** `encode`: fails when the maximum exceeds DataMax, else maps each number to its character. */
  function Encode(a: seq<Byte>): (r: Result<string, EncodeError>)
    ensures r.Failure? <==> exists i :: 0 <= i < |a| && a[i] > DataMax
    ensures r.Failure? ==> r.error.max > DataMax && r.error.max in a && forall i :: 0 <= i < |a| ==> a[i] <= r.error.max
    ensures r.Success? ==> |r.value| == |a| && forall i :: 0 <= i < |r.value| ==> IsDataChar(r.value[i])
  {
    var max := MaxOf(a);
    if max > DataMax then Failure(OutOfRange(max))
    else Success(seq(|a|, i requires 0 <= i < |a| => EncodeByte(a[i])))
  }

  /** `decode`: maps each character back to its number. */
  function Decode(s: string): (r: seq<Byte>)
    ensures |r| == |s|
  {
    seq(|s|, i requires 0 <= i < |s| => DecodeChar(s[i]))
  }

  /** Decoding a character undoes encoding a number. */
  lemma DecodeEncodeByte(x: Byte)
    requires x <= DataMax
    ensures DecodeChar(EncodeByte(x)) == x
  {
  }

  /** Encoding a number undoes decoding a data character. */
  lemma EncodeDecodeChar(c: char)
    requires IsDataChar(c)
    ensures DecodeChar(c) <= DataMax && EncodeByte(DecodeChar(c)) == c
  {
  }

  /** Every array of values in 0..DataMax survives an encode/decode round trip. */
  lemma DecodeEncode(a: seq<Byte>)
    requires forall i :: 0 <= i < |a| ==> a[i] <= DataMax
    ensures Encode(a).Success? && Decode(Encode(a).value) == a
  {
    var s := Encode(a).value;
    forall i | 0 <= i < |a|
      ensures Decode(s)[i] == a[i]
    {
      DecodeEncodeByte(a[i]);
    }
  }

  /** Every string of data characters survives a decode/encode round trip. */
  lemma EncodeDecode(s: string)
    requires forall i :: 0 <= i < |s| ==> IsDataChar(s[i])
    ensures Encode(Decode(s)) == Success(s)
  {
    var a := Decode(s);
    forall i | 0 <= i < |a|
      ensures a[i] <= DataMax && EncodeByte(a[i]) == s[i]
    {
      EncodeDecodeChar(s[i]);
    }
    assert !exists i :: 0 <= i < |a| && a[i] > DataMax;
    assert Encode(a).value == s;
  }

  /** The empty array encodes, without an error, as the empty string. */
  lemma EncodeEmpty()
    ensures Encode([]) == Success("")
  {
  }
}
