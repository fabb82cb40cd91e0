/**
  UTF-8 as Go's unicode/utf8 package reads and writes it (table 3-7 of the Unicode standard):
  an invalid byte decodes to U+FFFD with width 1, and an invalid code point is written as U+FFFD.
 */
module Utf8 {
  import opened Bytes

  const RUNE_ERROR: int := 0xFFFD
  const MAX_RUNE: int := 0x10FFFF

  predicate ValidRune(r: int) { 0 <= r < 0xD800 || 0xDFFF < r <= MAX_RUNE }

  predicate Cont(b: Byte) { 0x80 <= b < 0xC0 }

  /** The code point at the start of s and its width in bytes. */
  function DecodeRune(s: Blob): (r: (int, nat))
    ensures s != [] ==> 1 <= r.1 <= 4 && r.1 <= |s|
    ensures s == [] ==> r.1 == 0
  {
    if s == [] then (RUNE_ERROR, 0)
    else if s[0] < 0x80 then (s[0], 1)
    else if s[0] < 0xC0 || s[0] >= 0xF8 || |s| < 2 || !Cont(s[1]) then (RUNE_ERROR, 1)
    else if s[0] < 0xE0 then Two(s[0], s[1])
    else if |s| < 3 || !Cont(s[2]) then (RUNE_ERROR, 1)
    else if s[0] < 0xF0 then Three(s[0], s[1], s[2])
    else if |s| < 4 || !Cont(s[3]) then (RUNE_ERROR, 1)
    else Four(s[0], s[1], s[2], s[3])
  }

  function Two(a: int, b: int): (r: (int, nat))
    ensures r.1 == 1 || r.1 == 2
  {
    var x := (a - 0xC0) * 64 + (b - 0x80);
    if x <= 0x7F then (RUNE_ERROR, 1) else (x, 2)
  }

  function Three(a: int, b: int, c: int): (r: (int, nat))
    ensures r.1 == 1 || r.1 == 3
  {
    var x := (a - 0xE0) * 4096 + (b - 0x80) * 64 + (c - 0x80);
    if x <= 0x7FF || 0xD800 <= x <= 0xDFFF then (RUNE_ERROR, 1) else (x, 3)
  }

  function Four(a: int, b: int, c: int, d: int): (r: (int, nat))
    ensures r.1 == 1 || r.1 == 4
  {
    var x := (a - 0xF0) * 262144 + (b - 0x80) * 4096 + (c - 0x80) * 64 + (d - 0x80);
    if x <= 0xFFFF || x > MAX_RUNE then (RUNE_ERROR, 1) else (x, 4)
  }

  function EncodeRune(r: int): (s: Blob)
    ensures 1 <= |s| <= 4
  {
    if 0 <= r < 0x80 then [r]
    else if 0 <= r < 0x800 then [0xC0 + r / 64, 0x80 + r % 64]
    else if !ValidRune(r) then [0xEF, 0xBF, 0xBD]
    else if r < 0x10000 then [0xE0 + r / 4096, 0x80 + r / 64 % 64, 0x80 + r % 64]
    else [0xF0 + r / 262144, 0x80 + r / 4096 % 64, 0x80 + r / 64 % 64, 0x80 + r % 64]
  }

  function EncodeAll(rs: seq<int>): Blob {
    if rs == [] then [] else EncodeRune(rs[0]) + EncodeAll(rs[1..])
  }

  predicate ValidRunes(rs: seq<int>) { forall i :: 0 <= i < |rs| ==> ValidRune(rs[i]) }

  /** A string is valid when it spells valid code points. */
  ghost predicate Valid(s: Blob) { exists rs :: ValidRunes(rs) && s == EncodeAll(rs) }

  /** Decoding undoes encoding, whatever follows. */
  lemma DecodeEncode(r: int, rest: Blob)
    requires ValidRune(r)
    ensures DecodeRune(EncodeRune(r) + rest) == (r, |EncodeRune(r)|)
  {
    var s := EncodeRune(r) + rest;
    if r < 0x80 {
    } else if r < 0x800 {
      assert s[0] == 0xC0 + r / 64 && s[1] == 0x80 + r % 64;
    } else if r < 0x10000 {
      assert s[0] == 0xE0 + r / 4096 && s[1] == 0x80 + r / 64 % 64 && s[2] == 0x80 + r % 64;
      ThreeDigits(r);
    } else {
      assert s[0] == 0xF0 + r / 262144 && s[1] == 0x80 + r / 4096 % 64 && s[2] == 0x80 + r / 64 % 64
             && s[3] == 0x80 + r % 64;
      FourDigits(r);
    }
  }

  lemma ThreeDigits(r: int)
    requires 0x800 <= r < 0x10000 && ValidRune(r)
    ensures 0 <= r / 4096 < 16 && Three(0xE0 + r / 4096, 0x80 + r / 64 % 64, 0x80 + r % 64) == (r, 3)
  {
    var x := r / 64;
    assert r == 64 * x + r % 64 && x == 64 * (x / 64) + x % 64 && x / 64 == r / 4096;
  }

  lemma FourDigits(r: int)
    requires 0x10000 <= r <= MAX_RUNE
    ensures 0 <= r / 262144 < 8
    ensures Four(0xF0 + r / 262144, 0x80 + r / 4096 % 64, 0x80 + r / 64 % 64, 0x80 + r % 64) == (r, 4)
  {
    var x := r / 64;
    var y := x / 64;
    assert r == 64 * x + r % 64 && x == 64 * y + x % 64 && y == 64 * (y / 64) + y % 64;
    assert y == r / 4096 && y / 64 == r / 262144;
  }

  /** Only ASCII code points are written with ASCII bytes. */
  lemma EncodeAscii(r: int)
    requires !(0 <= r < 0x80)
    ensures forall i :: 0 <= i < |EncodeRune(r)| ==> EncodeRune(r)[i] >= 0x80
  {
  }

  /** A decoded ASCII code point is its own byte; other bytes below 0x80 are never swallowed. */
  lemma DecodeAscii(s: Blob)
    requires s != []
    ensures DecodeRune(s).0 < 0x80 || s[0] < 0x80 ==> DecodeRune(s) == (s[0], 1)
    ensures forall i :: 1 <= i < DecodeRune(s).1 ==> s[i] >= 0x80
  {
  }

  /** An ASCII byte ends the rune before it: what follows does not matter. */
  lemma DecodeBefore(b: Blob, q: Byte, rest: Blob)
    requires b != [] && q < 0x80
    ensures DecodeRune(b + [q] + rest) == DecodeRune(b)
  {
    var s := b + [q] + rest;
    assert forall i :: 0 <= i < |b| ==> s[i] == b[i];
    assert s[|b|] == q;
  }

  /** What is written is always valid. */
  lemma {:induction false} EncodeValid(rs: seq<int>)
    ensures Valid(EncodeAll(rs))
  {
    var vs := Sanitized(rs);
    SanitizedSame(rs);
    assert ValidRunes(vs) && EncodeAll(rs) == EncodeAll(vs);
  }

  ghost function Sanitized(rs: seq<int>): seq<int> {
    if rs == [] then [] else [if ValidRune(rs[0]) then rs[0] else RUNE_ERROR] + Sanitized(rs[1..])
  }

  lemma {:induction false} SanitizedSame(rs: seq<int>)
    ensures ValidRunes(Sanitized(rs)) && EncodeAll(Sanitized(rs)) == EncodeAll(rs)
  {
    if rs == [] {
    } else {
      SanitizedSame(rs[1..]);
      assert Sanitized(rs)[1..] == Sanitized(rs[1..]);
    }
  }
}
