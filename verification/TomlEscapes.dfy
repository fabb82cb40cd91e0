/**
  What the escapes of a TOML basic string mean, said by numbers and tables of their own, and which
  bytes a string may hold.
 */
module TomlEscapes {
  import opened Bytes
  import opened Options
  import opened Utf8
  import opened TomlString

  /** The digits 0 to 15 as characters. */
  const LOWER: Blob := [48, 49, 50, 51, 52, 53, 54, 55, 56, 57, 97, 98, 99, 100, 101, 102]
  const UPPER: Blob := [48, 49, 50, 51, 52, 53, 54, 55, 56, 57, 65, 66, 67, 68, 69, 70]

  /** s is the number v in hexadecimal, each digit in either case, with leading zeros. */
  ghost predicate Writes(s: Blob, v: nat) {
    if s == [] then v == 0
    else (s[|s| - 1] == LOWER[v % 16] || s[|s| - 1] == UPPER[v % 16]) && Writes(s[..|s| - 1], v / 16)
  }

  /** One way of writing it. */
  function Hexadecimal(v: nat, n: nat): (s: Blob)
    ensures |s| == n
  {
    if n == 0 then [] else Hexadecimal(v / 16, n - 1) + [UPPER[v % 16]]
  }

  lemma {:induction false} HexadecimalWrites(v: nat, n: nat)
    requires v < Sixteens(n)
    ensures Writes(Hexadecimal(v, n), v)
  {
    if n == 0 {
    } else {
      var s := Hexadecimal(v, n);
      HexadecimalWrites(v / 16, n - 1);
      assert s[..|s| - 1] == Hexadecimal(v / 16, n - 1);
    }
  }

  lemma DigitIs(c: Byte, d: nat)
    requires d < 16 && (c == LOWER[d] || c == UPPER[d])
    ensures IsHex(c) && HexValue(c) == d
  {
  }

  lemma DigitOf(c: Byte) returns (d: nat)
    requires IsHex(c)
    ensures d < 16 && (c == LOWER[d] || c == UPPER[d])
  {
    d := if c <= 57 then c - 48 else if c <= 70 then c - 55 else c - 87;
  }

  /** A number is parsed to itself. */
  lemma {:induction false} ParseWritten(s: Blob, v: nat)
    requires Writes(s, v)
    ensures HexDigits(s, |s|) && ParseHex(s) == v
  {
    if s == [] {
    } else {
      DigitIs(s[|s| - 1], v % 16);
      ParseWritten(s[..|s| - 1], v / 16);
    }
  }

  /** And what is parsed is a number: nothing else is taken for digits. */
  lemma {:induction false} DigitsWrite(s: Blob) returns (v: nat)
    requires HexDigits(s, |s|)
    ensures Writes(s, v)
  {
    if s == [] {
      v := 0;
    } else {
      var w := DigitsWrite(s[..|s| - 1]);
      var d := DigitOf(s[|s| - 1]);
      v := 16 * w + d;
      assert v / 16 == w && v % 16 == d;
    }
  }

  ghost predicate Numeral(s: Blob, v: nat) { Writes(s, v) }

  ghost predicate IsNumber(s: Blob) { exists v: nat :: Numeral(s, v) }

  lemma HexDigitsIff(s: Blob)
    ensures HexDigits(s, |s|) <==> IsNumber(s)
  {
    if HexDigits(s, |s|) {
      var v := DigitsWrite(s);
      assert Numeral(s, v);
    } else if v: nat :| Numeral(s, v) {
      ParseWritten(s, v);
    }
  }

  /** What a string says that begins with one escape. */
  ghost function Then(r: int, rest: Option<seq<int>>): Option<seq<int>> {
    if rest.None? then None else Some([r] + rest.value)
  }

  /** The escapes of a single character, by number. */
  lemma SimpleEscapes(c: Byte, r: int, rest: Blob)
    requires (c, r) in {(98, 8), (116, 9), (110, 10), (102, 12), (114, 13), (34, 34), (92, 92)}
    ensures Replace([92, c] + rest) == Then(r, Replace(rest))
  {
    var b := [92, c] + rest;
    assert b[2..] == rest;
  }

  lemma HexPrefix(s: Blob, rest: Blob)
    ensures HexDigits(s + rest, |s|) <==> HexDigits(s, |s|)
  {
    assert forall i :: 0 <= i < |s| ==> (s + rest)[i] == s[i];
  }

  /** A backslash, u and the four digits of r stand for the code point r. */
  lemma ShortEscape(s: Blob, r: nat, rest: Blob)
    requires |s| == 4 && Writes(s, r)
    ensures r < 0x1_0000 && Replace([92, 117] + s + rest) == Then(r, Replace(rest))
  {
    var b := [92, 117] + s + rest;
    assert b[2..] == s + rest && b[2..6] == s && b[6..] == rest;
    ParseWritten(s, r);
    HexPrefix(s, rest);
    HexBound(s);
    SixteensFour();
  }

  /** A backslash, U and the eight digits of r too, in the 32 bits of a rune. */
  lemma LongEscape(s: Blob, r: nat, rest: Blob)
    requires |s| == 8 && Writes(s, r)
    ensures Replace([92, 85] + s + rest) == Then(if r < 0x8000_0000 then r else r - 0x1_0000_0000, Replace(rest))
  {
    var b := [92, 85] + s + rest;
    assert b[2..] == s + rest && b[2..10] == s && b[10..] == rest;
    ParseWritten(s, r);
    HexPrefix(s, rest);
  }

  lemma Written(r: nat, n: nat) returns (s: Blob)
    requires r < Sixteens(n)
    ensures |s| == n && Writes(s, r)
  {
    s := Hexadecimal(r, n);
    HexadecimalWrites(r, n);
  }

  /** So every code point can be written, in either form where it fits. */
  lemma EveryCodePoint(r: nat, long: bool) returns (s: Blob)
    requires if long then r <= 0x10_FFFF else r < 0x1_0000
    ensures |s| == (if long then 8 else 4) && Writes(s, r)
    ensures Replace([92, if long then 85 else 117] + s) == Some([r])
  {
    SixteensFour();
    s := Written(r, if long then 8 else 4);
    if long { LongEscape(s, r, []); } else { ShortEscape(s, r, []); }
    assert [92, if long then 85 else 117] + s + [] == [92, if long then 85 else 117] + s && [r] + [] == [r];
  }

  /** The encoder writes five characters as escapes and everything else as it is. */
  lemma QuotedIs(b: Byte, rest: Blob)
    ensures Replacer([]) == [] && Replacer([b] + rest) ==
              (match b case 9 => [92, 116] case 10 => [92, 110] case 13 => [92, 114] case 34 => [92, 34]
                       case 92 => [92, 92] case _ => [b]) + Replacer(rest)
  {
    assert ([b] + rest)[1..] == rest;
  }

  /** Nothing else after a backslash is replaced. */
  lemma EscapeIff(b: Blob)
    requires |b| > 0 && b[0] == 92
    ensures (|b| >= 2 && (|| b[1] in {98, 116, 110, 102, 114, 34, 92}
                          || (b[1] == 117 && |b| >= 6 && IsNumber(b[2..6]))
                          || (b[1] == 85 && |b| >= 10 && IsNumber(b[2..10]))))
            <==> Replace1(b).Some?
  {
    if |b| >= 6 {
      HexDigitsIff(b[2..6]);
      HexPrefix(b[2..6], b[6..]);
      assert b[2..6] + b[6..] == b[2..];
    }
    if |b| >= 10 {
      HexDigitsIff(b[2..10]);
      HexPrefix(b[2..10], b[10..]);
      assert b[2..10] + b[10..] == b[2..];
    }
  }

  /** Inside a string a line break and a bare quote are refused, and so is a backslash without an
      escape that can be replaced; every other rune is taken. */
  lemma CharIff(b: Blob)
    requires b != []
    ensures CharLen(b).Some? <==> b[0] !in {10, 13, 34, 92} || (b[0] == 92 && Replace1(b).Some?)
  {
    DecodeAscii(b);
    if b[0] == 92 && |b| > 1 { assert b[1..][1..] == b[2..]; }
  }
}
