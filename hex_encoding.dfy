/**
 * The hex rendering of a digest buffer used by StorageUtils._hex: the buffer is
 * read through a DataView as big-endian unsigned 32-bit words, each word is
 * printed in base 16, left-padded with zeros to eight digits, and the pieces are
 * joined.
 */
module HexEncoding {
  import opened Wrappers

  /** One byte of an ArrayBuffer. */
  type Byte = x: int | 0 <= x < 256

  /** DataView.getUint32 throws a RangeError when fewer than four bytes remain. */
  datatype HexError = RangeError

  /** The padding string of _hex. */
  const Padding: string := "00000000"

  /** A lowercase hexadecimal digit, as Number.prototype.toString(16) prints it. */
  predicate IsHexChar(c: char) {
    '0' <= c <= '9' || 'a' <= c <= 'f'
  }

  /** The digit for d in base 16. */
  function HexDigit(d: nat): (c: char)
    requires d < 16
    ensures IsHexChar(c)
  {
    if d < 10 then ('0' as int + d) as char else ('a' as int + (d - 10)) as char
  }

  /** Number.prototype.toString(16) of a non-negative integer: no leading zeros. */
  function ToBase16(v: nat): (s: string)
    ensures 1 <= |s|
    ensures forall i :: 0 <= i < |s| ==> IsHexChar(s[i])
    ensures 16 <= v ==> s[0] != '0'
    decreases v
  {
    if v < 16 then [HexDigit(v)] else ToBase16(v / 16) + [HexDigit(v % 16)]
  }

  /** (padding + s).slice(-padding.length): the last eight characters. */
  function PadSlice(s: string): string {
    var t := Padding + s;
    t[|t| - |Padding|..]
  }

  /** DataView.getUint32(i) with the default big-endian byte order. */
  function GetUint32(b: seq<Byte>, i: nat): (v: nat)
    requires i + 4 <= |b|
    ensures v < 0x1_0000_0000
  {
    (b[i] as int) * 0x100_0000 + (b[i + 1] as int) * 0x1_0000 + (b[i + 2] as int) * 0x100 + b[i + 3]
  }

  /** One entry of hexCodes in _hex. */
  function PaddedWord(value: nat): string {
    PadSlice(ToBase16(value))
  }

  /** The concatenation of the padded words of a buffer made of whole words. */
  function WordsHex(b: seq<Byte>): string
    requires |b| % 4 == 0
    decreases |b|
  {
    if |b| == 0 then [] else WordsHex(b[..|b| - 4]) + PaddedWord(GetUint32(b, |b| - 4))
  }

  /** What _hex returns for a buffer, or the error its getUint32 raises. */
  function HexOf(b: seq<Byte>): Result<string, HexError> {
    if |b| % 4 == 0 then Success(WordsHex(b)) else Failure(RangeError)
  }

  /** hexCodes.join(""). */
  function Join(parts: seq<string>): string
    decreases |parts|
  {
    if parts == [] then [] else Join(parts[..|parts| - 1]) + parts[|parts| - 1]
  }

  lemma {:induction false} WordsHexStep(b: seq<Byte>, i: nat)
    requires i % 4 == 0 && i + 4 <= |b|
    ensures WordsHex(b[..i + 4]) == WordsHex(b[..i]) + PaddedWord(GetUint32(b, i))
  {
    assert b[..i + 4][..i] == b[..i];
    assert GetUint32(b[..i + 4], i) == GetUint32(b, i);
  }

  lemma {:induction false} JoinSnoc(parts: seq<string>, p: string)
    ensures Join(parts + [p]) == Join(parts) + p
  {
    assert (parts + [p])[..|parts|] == parts;
  }

  lemma {:induction false} PartialWord(b: seq<Byte>, i: nat)
    requires i % 4 == 0 && i < |b| < i + 4
    ensures |b| % 4 != 0
  {
  }

  /** StorageUtils._hex. */
  method Hex(buffer: seq<Byte>) returns (r: Result<string, HexError>)
    ensures r == HexOf(buffer)
  {
    var hexCodes: seq<string> := [];
    var i := 0;
    while i < |buffer|
      invariant i % 4 == 0 && i <= |buffer|
      invariant Join(hexCodes) == WordsHex(buffer[..i])
    {
      if i + 4 > |buffer| {
        PartialWord(buffer, i);
        return Failure(RangeError);
      }
      var value := GetUint32(buffer, i);
      var stringValue := ToBase16(value);
      var paddedValue := PadSlice(stringValue);
      WordsHexStep(buffer, i);
      JoinSnoc(hexCodes, paddedValue);
      hexCodes := hexCodes + [paddedValue];
      i := i + 4;
    }
    assert buffer[..i] == buffer;
    return Success(Join(hexCodes));
  }

  // ---------------------------------------------------------------------------
  // Reference rendering: two lowercase hex digits per byte, in buffer order.

  /** Both hex digits of one byte, high nibble first. */
  function ByteHex(x: Byte): string {
    [HexDigit(x / 16), HexDigit(x % 16)]
  }

  /** The bytes of a buffer, each as two hex digits. */
  function BytesHex(b: seq<Byte>): (s: string)
    ensures |s| == 2 * |b|
    ensures forall i :: 0 <= i < |s| ==> IsHexChar(s[i])
  {
    if b == [] then [] else ByteHex(b[0]) + BytesHex(b[1..])
  }

  /** n zeros. */
  function Zeros(n: nat): string {
    seq(n, _ => '0')
  }

  /** The n lowest base-16 digits of v, most significant first. */
  function FixedHex(v: nat, n: nat): (s: string)
    ensures |s| == n
  {
    if n == 0 then [] else FixedHex(v / 16, n - 1) + [HexDigit(v % 16)]
  }

  function Pow16(n: nat): nat {
    if n == 0 then 1 else 16 * Pow16(n - 1)
  }

  lemma {:induction false} FixedHexOfZero(n: nat)
    ensures FixedHex(0, n) == Zeros(n)
  {
    if n > 0 {
      FixedHexOfZero(n - 1);
      assert Zeros(n - 1) + ['0'] == Zeros(n);
    }
  }

  /** toString(16) of a value below 16^n, zero-padded to n digits, is its n-digit rendering. */
  lemma {:induction false} ToBase16Fixed(v: nat, n: nat)
    requires 1 <= n && v < Pow16(n)
    ensures |ToBase16(v)| <= n
    ensures FixedHex(v, n) == Zeros(n - |ToBase16(v)|) + ToBase16(v)
  {
    if v < 16 {
      FixedHexOfZero(n - 1);
    } else {
      assert v / 16 < Pow16(n - 1);
      ToBase16Fixed(v / 16, n - 1);
      assert ToBase16(v) == ToBase16(v / 16) + [HexDigit(v % 16)];
    }
  }

  /** The padded entry for a 32-bit word is its eight-digit rendering. */
  lemma {:induction false} PaddedWordFixed(v: nat)
    requires v < 0x1_0000_0000
    ensures PaddedWord(v) == FixedHex(v, 8)
  {
    assert Pow16(8) == 0x1_0000_0000;
    ToBase16Fixed(v, 8);
    var t := ToBase16(v);
    assert Padding == Zeros(8);
    assert (Padding + t)[|t|..] == Zeros(8 - |t|) + t;
  }

  /** Appending a byte to a value appends its two digits to the rendering. */
  lemma {:induction false} FixedHexSplit(x: nat, y: Byte, n: nat)
    ensures FixedHex(x * 256 + y, n + 2) == FixedHex(x, n) + ByteHex(y)
  {
    var v := x * 256 + y;
    assert v == (x * 16 + y / 16) * 16 + y % 16;
    assert v / 16 == x * 16 + y / 16 && v % 16 == y % 16;
    assert (x * 16 + y / 16) / 16 == x && (x * 16 + y / 16) % 16 == y / 16;
    assert FixedHex(v, n + 2) == FixedHex(v / 16, n + 1) + [HexDigit(v % 16)];
    assert FixedHex(v / 16, n + 1) == FixedHex(x, n) + [HexDigit(y / 16)];
  }

  /** A word built from four bytes renders as those bytes' digits in order. */
  lemma {:induction false} PaddedWordOfBytes(x0: Byte, x1: Byte, x2: Byte, x3: Byte)
    ensures PaddedWord((((x0 as int) * 256 + x1) * 256 + x2) * 256 + x3)
         == ByteHex(x0) + ByteHex(x1) + ByteHex(x2) + ByteHex(x3)
  {
    var w1: nat := (x0 as int) * 256 + x1;
    var w2: nat := w1 * 256 + x2;
    var v: nat := w2 * 256 + x3;
    assert FixedHex(x0, 2) == ByteHex(x0) by {
      FixedHexSplit(0, x0, 0);
    }
    assert FixedHex(w1, 4) == FixedHex(x0, 2) + ByteHex(x1) by {
      FixedHexSplit(x0, x1, 2);
    }
    assert FixedHex(w2, 6) == FixedHex(w1, 4) + ByteHex(x2) by {
      FixedHexSplit(w1, x2, 4);
    }
    assert FixedHex(v, 8) == FixedHex(w2, 6) + ByteHex(x3) by {
      FixedHexSplit(w2, x3, 6);
    }
    PaddedWordFixed(v);
  }

  /** One padded word renders its four bytes in order. */
  lemma {:induction false} PaddedWordBytes(b: seq<Byte>, i: nat)
    requires i + 4 <= |b|
    ensures PaddedWord(GetUint32(b, i))
         == ByteHex(b[i]) + ByteHex(b[i + 1]) + ByteHex(b[i + 2]) + ByteHex(b[i + 3])
  {
    var x0, x1, x2, x3 := b[i], b[i + 1], b[i + 2], b[i + 3];
    assert GetUint32(b, i) == (((x0 as int) * 256 + x1) * 256 + x2) * 256 + x3;
    PaddedWordOfBytes(x0, x1, x2, x3);
  }

  lemma {:induction false} BytesHexAppend(a: seq<Byte>, c: seq<Byte>)
    ensures BytesHex(a + c) == BytesHex(a) + BytesHex(c)
  {
    if a == [] {
      assert a + c == c;
    } else {
      assert (a + c)[1..] == a[1..] + c;
      BytesHexAppend(a[1..], c);
    }
  }

  /** Word by word and byte by byte, the rendering is the same. */
  lemma {:induction false} WordsHexIsBytesHex(b: seq<Byte>)
    requires |b| % 4 == 0
    ensures WordsHex(b) == BytesHex(b)
    decreases |b|
  {
    if |b| > 0 {
      var n := |b|;
      var p := b[..n - 4];
      var q := b[n - 4..];
      assert b == p + q;
      WordsHexIsBytesHex(p);
      BytesHexAppend(p, q);
      assert BytesHex(q[3..]) == ByteHex(q[3]) + BytesHex(q[4..]);
      assert BytesHex(q[2..]) == ByteHex(q[2]) + BytesHex(q[3..]);
      assert BytesHex(q[1..]) == ByteHex(q[1]) + BytesHex(q[2..]);
      assert BytesHex(q) == ByteHex(q[0]) + ByteHex(q[1]) + ByteHex(q[2]) + ByteHex(q[3]);
      PaddedWordBytes(b, n - 4);
    }
  }

  lemma {:induction false} HexDigitInjective(d: nat, e: nat)
    requires d < 16 && e < 16
    ensures HexDigit(d) == HexDigit(e) <==> d == e
  {
  }

  /** Distinct buffers have distinct renderings. */
  lemma {:induction false} BytesHexInjective(a: seq<Byte>, b: seq<Byte>)
    requires BytesHex(a) == BytesHex(b)
    ensures a == b
  {
    if a != [] {
      var s := BytesHex(a);
      assert s[0] == HexDigit(a[0] / 16) == HexDigit(b[0] / 16);
      assert s[1] == HexDigit(a[0] % 16) == HexDigit(b[0] % 16);
      HexDigitInjective(a[0] / 16, b[0] / 16);
      HexDigitInjective(a[0] % 16, b[0] % 16);
      assert BytesHex(a[1..]) == s[2..] == BytesHex(b[1..]);
      BytesHexInjective(a[1..], b[1..]);
    }
  }

  /**
   * _hex succeeds exactly on buffers made of whole 32-bit words, and then gives
   * two lowercase hex digits per byte, in buffer order.
   */
  lemma {:induction false} HexOfSpec(b: seq<Byte>)
    ensures HexOf(b).Success? <==> |b| % 4 == 0
    ensures HexOf(b).Success? ==> HexOf(b).value == BytesHex(b)
    ensures HexOf(b).Success? ==> |HexOf(b).value| == 2 * |b|
    ensures HexOf(b).Success? ==> forall i :: 0 <= i < |HexOf(b).value| ==> IsHexChar(HexOf(b).value[i])
  {
    if |b| % 4 == 0 {
      WordsHexIsBytesHex(b);
    }
  }

  /** Two buffers of whole words with the same rendering are the same buffer. */
  lemma {:induction false} HexOfInjective(a: seq<Byte>, b: seq<Byte>)
    requires HexOf(a).Success? && HexOf(a) == HexOf(b)
    ensures a == b
  {
    HexOfSpec(a);
    HexOfSpec(b);
    BytesHexInjective(a, b);
  }
}
