/** The encoding of module Utf8 against the ranges and the order of the Unicode standard. */
module Utf8Table {
  import opened Bytes
  import opened Utf8

  lemma Digits(a: nat, b: nat)
    requires b < 64
    ensures (64 * a + b) / 64 == a && (64 * a + b) % 64 == b
  {
  }

  /** What is decoded with more than one byte is written with the same bytes. */
  lemma TwoBack(a: Byte, b: Byte)
    requires 0xC0 <= a < 0xE0 && Cont(b) && Two(a, b).1 == 2
    ensures var r := Two(a, b).0;
            ValidRune(r) && EncodeRune(r) == [a, b]
  {
  }

  lemma ThreeBack(a: Byte, b: Byte, c: Byte)
    requires 0xE0 <= a < 0xF0 && Cont(b) && Cont(c) && Three(a, b, c).1 == 3
    ensures var r := Three(a, b, c).0;
            ValidRune(r) && EncodeRune(r) == [a, b, c]
  {
    var r := Three(a, b, c).0;
    var x, y, z := a - 0xE0, b - 0x80, c - 0x80;
    Digits(64 * x + y, z);
    Digits(x, y);
    HigherDigits(r);
  }

  lemma FourBack(a: Byte, b: Byte, c: Byte, d: Byte)
    requires 0xF0 <= a < 0xF8 && Cont(b) && Cont(c) && Cont(d) && Four(a, b, c, d).1 == 4
    ensures var r := Four(a, b, c, d).0;
            ValidRune(r) && EncodeRune(r) == [a, b, c, d]
  {
    var r := Four(a, b, c, d).0;
    var w, x, y, z := a - 0xF0, b - 0x80, c - 0x80, d - 0x80;
    Digits(64 * (64 * w + x) + y, z);
    Digits(64 * w + x, y);
    Digits(w, x);
    HigherDigits(r);
  }

  /** The bytes of some code point stand at the start of s. */
  ghost predicate Starts(s: Blob, r: int) { ValidRune(r) && EncodeRune(r) <= s }

  /** Decoding takes the code point whose bytes come next, and if there is none, one byte as
      U+FFFD. */
  lemma DecodeIff(s: Blob)
    requires s != []
    ensures forall r :: Starts(s, r) ==> DecodeRune(s) == (r, |EncodeRune(r)|)
    ensures (forall r :: !Starts(s, r)) ==> DecodeRune(s) == (0xFFFD, 1)
  {
    forall r | Starts(s, r) ensures DecodeRune(s) == (r, |EncodeRune(r)|) {
      DecodeEncode(r, s[|EncodeRune(r)|..]);
      assert EncodeRune(r) + s[|EncodeRune(r)|..] == s;
    }
    var (r, w) := DecodeRune(s);
    if s[0] < 0x80 {
      assert Starts(s, r);
    } else if w == 2 {
      TwoBack(s[0], s[1]);
      assert Starts(s, r);
    } else if w == 3 {
      ThreeBack(s[0], s[1], s[2]);
      assert Starts(s, r);
    } else if w == 4 {
      FourBack(s[0], s[1], s[2], s[3]);
      assert Starts(s, r);
    }
  }

  /** Sizes and bytes are those of table 3-7. */
  lemma EncodedBytes(r: int)
    requires ValidRune(r)
    ensures var s := EncodeRune(r);
            && |s| == (if r < 0x80 then 1 else if r < 0x800 then 2 else if r < 0x1_0000 then 3 else 4)
            && (|s| == 1 ==> s[0] < 0x80) && (|s| == 2 ==> 0xC2 <= s[0] <= 0xDF)
            && (|s| == 3 ==> 0xE0 <= s[0] <= 0xEF) && (|s| == 4 ==> 0xF0 <= s[0] <= 0xF4)
            && forall i :: 1 <= i < |s| ==> 0x80 <= s[i] <= 0xBF
  {
  }

  /** The first base-64 digit in which a smaller number differs is the smaller one. */
  lemma DigitsDiffer(r: nat, q: nat)
    requires r < q
    ensures r / 64 <= q / 64 && (r / 64 == q / 64 ==> r % 64 < q % 64)
  {
  }

  lemma HigherDigits(r: nat)
    ensures r / 64 / 64 == r / 4096 && r / 4096 / 64 == r / 262144
  {
  }

  /** The bytes of a smaller code point come first in byte order. */
  lemma EncodingKeepsOrder(r: int, q: int) returns (i: nat)
    requires ValidRune(r) && ValidRune(q) && r < q
    ensures var s, t := EncodeRune(r), EncodeRune(q);
            i < |s| && i < |t| && s[..i] == t[..i] && s[i] < t[i]
  {
    i := 0;
    EncodedBytes(r);
    EncodedBytes(q);
    if |EncodeRune(r)| == |EncodeRune(q)| > 1 {
      i := SameSize(r, q);
    }
  }

  lemma SameSize(r: nat, q: nat) returns (i: nat)
    requires ValidRune(r) && ValidRune(q) && r < q && |EncodeRune(r)| == |EncodeRune(q)| > 1
    ensures var s, t := EncodeRune(r), EncodeRune(q);
            i < |s| && s[..i] == t[..i] && s[i] < t[i]
  {
    EncodedBytes(r);
    EncodedBytes(q);
    if q < 0x800 {
      DigitsDiffer(r, q);
      i := if r / 64 < q / 64 then 0 else 1;
    } else if q < 0x1_0000 {
      i := BothThree(r, q);
    } else {
      i := BothFour(r, q);
    }
  }

  lemma BothThree(r: nat, q: nat) returns (i: nat)
    requires ValidRune(r) && ValidRune(q) && 0x800 <= r < q < 0x1_0000
    ensures i < 3 && EncodeRune(r)[..i] == EncodeRune(q)[..i] && EncodeRune(r)[i] < EncodeRune(q)[i]
  {
    HigherDigits(r);
    HigherDigits(q);
    DigitsDiffer(r, q);
    if r / 64 < q / 64 { DigitsDiffer(r / 64, q / 64); }
    i := if r / 4096 < q / 4096 then 0 else if r / 64 < q / 64 then 1 else 2;
  }

  lemma BothFour(r: nat, q: nat) returns (i: nat)
    requires 0x1_0000 <= r < q <= 0x10_FFFF
    ensures i < 4 && EncodeRune(r)[..i] == EncodeRune(q)[..i] && EncodeRune(r)[i] < EncodeRune(q)[i]
  {
    HigherDigits(r);
    HigherDigits(q);
    DigitsDiffer(r, q);
    if r / 64 < q / 64 { DigitsDiffer(r / 64, q / 64); }
    if r / 4096 < q / 4096 { DigitsDiffer(r / 4096, q / 4096); }
    i := if r / 262144 < q / 262144 then 0
         else if r / 4096 < q / 4096 then 1
         else if r / 64 < q / 64 then 2 else 3;
  }
}
