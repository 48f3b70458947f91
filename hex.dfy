/** Lowercase, zero-padded hexadecimal rendering of digest bytes, and its inverse. */
module HexEncoding {
  import opened FsModel

  predicate IsHexDigit(c: char) {
    ('0' <= c <= '9') || ('a' <= c <= 'f')
  }

  /** The lowercase digit for a value below 16. */
  function Digit(n: nat): (c: char)
    requires n < 16
    ensures IsHexDigit(c)
  {
    if n < 10 then ('0' as int + n) as char else ('a' as int + n - 10) as char
  }

  function DigitValue(c: char): (n: nat)
    requires IsHexDigit(c)
    ensures n < 16 && Digit(n) == c
  {
    if c <= '9' then c as int - '0' as int else c as int - 'a' as int + 10
  }

  /** Two characters per byte, high nibble first (setw(2), setfill('0'), std::hex). */
  function Hex(bs: Bytes): (s: string)
    ensures |s| == 2 * |bs|
    ensures forall i :: 0 <= i < |s| ==> IsHexDigit(s[i])
  {
    if bs == [] then ""
    else Hex(bs[..|bs| - 1]) + [Digit(bs[|bs| - 1] / 16), Digit(bs[|bs| - 1] % 16)]
  }

  predicate IsHexText(s: string) {
    |s| % 2 == 0 && forall i :: 0 <= i < |s| ==> IsHexDigit(s[i])
  }

  /** Reads a hex text back into bytes, two digits per byte. */
  function Unhex(s: string): (bs: Bytes)
    requires IsHexText(s)
    ensures |bs| == |s| / 2
  {
    if s == [] then []
    else Unhex(s[..|s| - 2]) + [16 * DigitValue(s[|s| - 2]) + DigitValue(s[|s| - 1])]
  }

  /** `s` is a hex text that reads back as exactly the bytes `d`. */
  predicate ReadsBackAs(s: string, d: Bytes) {
    IsHexText(s) && Unhex(s) == d
  }

  /** Byte i is rendered at positions 2i and 2i+1, leading zero included. */
  lemma {:induction false} HexAt(bs: Bytes, i: nat)
    requires i < |bs|
    ensures Hex(bs)[2 * i] == Digit(bs[i] / 16)
    ensures Hex(bs)[2 * i + 1] == Digit(bs[i] % 16)
  {
    if i < |bs| - 1 {
      HexAt(bs[..|bs| - 1], i);
      assert bs[..|bs| - 1][i] == bs[i];
    }
  }

  lemma DigitValueOfDigit(n: nat)
    requires n < 16
    ensures DigitValue(Digit(n)) == n
  {
  }

  /** A byte's two digits read back as that byte. */
  lemma DigitsOfByte(b: Byte)
    ensures 16 * DigitValue(Digit(b / 16)) + DigitValue(Digit(b % 16)) == b
  {
    DigitValueOfDigit(b / 16);
    DigitValueOfDigit(b % 16);
  }

  /** Appending a byte's two digits to a hex text appends that byte to its reading. */
  lemma UnhexSnoc(t: string, x: Bytes, b: Byte)
    requires ReadsBackAs(t, x)
    ensures ReadsBackAs(t + [Digit(b / 16), Digit(b % 16)], x + [b])
  {
    var s := t + [Digit(b / 16), Digit(b % 16)];
    assert s[..|s| - 2] == t;
    DigitsOfByte(b);
  }

  /** Appending two digits to a hex text appends the byte they spell. */
  lemma UnhexDigits(t: string, hi: char, lo: char)
    requires IsHexText(t) && IsHexDigit(hi) && IsHexDigit(lo)
    ensures IsHexText(t + [hi, lo])
    ensures Unhex(t + [hi, lo]) == Unhex(t) + [16 * DigitValue(hi) + DigitValue(lo)]
  {
    var s := t + [hi, lo];
    assert s[..|s| - 2] == t;
  }

  lemma SplitLast(bs: Bytes)
    requires bs != []
    ensures bs == bs[..|bs| - 1] + [bs[|bs| - 1]]
  {
  }

  /** One step of UnhexHex: a round trip of all but the last byte extends to the whole. */
  lemma UnhexHexStep(bs: Bytes)
    requires bs != []
    requires ReadsBackAs(Hex(bs[..|bs| - 1]), bs[..|bs| - 1])
    ensures ReadsBackAs(Hex(bs), bs)
  {
    var x, b := bs[..|bs| - 1], bs[|bs| - 1];
    SplitLast(bs);
    HexSnoc(x, b);
    UnhexSnoc(Hex(x), x, b);
  }

  lemma {:induction false} UnhexHex(bs: Bytes)
    ensures ReadsBackAs(Hex(bs), bs)
  {
    if bs != [] {
      UnhexHex(bs[..|bs| - 1]);
      UnhexHexStep(bs);
    }
  }

  /** Two digits read as one byte render back as the same two digits. */
  lemma ByteOfDigits(hi: char, lo: char)
    requires IsHexDigit(hi) && IsHexDigit(lo)
    ensures var b := 16 * DigitValue(hi) + DigitValue(lo);
      0 <= b < 256 && Digit(b / 16) == hi && Digit(b % 16) == lo
  {
    var h, l := DigitValue(hi), DigitValue(lo);
    assert (16 * h + l) / 16 == h && (16 * h + l) % 16 == l;
  }

  lemma SplitLastTwo(s: string)
    requires |s| >= 2
    ensures s == s[..|s| - 2] + [s[|s| - 2], s[|s| - 1]]
  {
  }

  lemma HexTextInit(s: string)
    requires IsHexText(s) && s != []
    ensures IsHexText(s[..|s| - 2])
  {
    assert forall i :: 0 <= i < |s| - 2 ==> s[..|s| - 2][i] == s[i];
  }

  /** Appending a byte appends its two digits. */
  lemma HexSnoc(bs: Bytes, b: Byte)
    ensures Hex(bs + [b]) == Hex(bs) + [Digit(b / 16), Digit(b % 16)]
  {
    assert (bs + [b])[..|bs|] == bs;
  }

  /** One step of HexUnhex, free of arithmetic: a byte whose digits are
      `hi` and `lo` extends a rendering by exactly those two characters. */
  lemma HexUnhexStep(x: Bytes, b: Byte, init: string, hi: char, lo: char)
    requires Hex(x) == init && Digit(b / 16) == hi && Digit(b % 16) == lo
    ensures Hex(x + [b]) == init + [hi, lo]
  {
    HexSnoc(x, b);
  }

  lemma {:induction false} HexUnhex(s: string)
    requires IsHexText(s)
    ensures Hex(Unhex(s)) == s
  {
    if s != [] {
      var init, hi, lo := s[..|s| - 2], s[|s| - 2], s[|s| - 1];
      HexTextInit(s);
      HexUnhex(init);
      SplitLastTwo(s);
      UnhexDigits(init, hi, lo);
      ByteOfDigits(hi, lo);
      var b: Byte := 16 * DigitValue(hi) + DigitValue(lo);
      HexUnhexStep(Unhex(init), b, init, hi, lo);
    }
  }

  /** Distinct digests give distinct hex texts. */
  lemma HexInjective(a: Bytes, b: Bytes)
    requires Hex(a) == Hex(b)
    ensures a == b
  {
    UnhexHex(a);
    UnhexHex(b);
  }

  /** The rendering loop of calcular_hash: appends two digits per digest byte. */
  method RenderHex(bs: Bytes) returns (s: string)
    ensures s == Hex(bs)
  {
    s := "";
    for i := 0 to |bs|
      invariant s == Hex(bs[..i])
    {
      assert bs[..i + 1][..i] == bs[..i];
      s := s + [Digit(bs[i] / 16), Digit(bs[i] % 16)];
    }
    assert bs[..|bs|] == bs;
  }
}
