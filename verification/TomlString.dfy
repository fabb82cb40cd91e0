/**
  TOML basic strings on values: how the encoder quotes a string, which bytes the lexer takes as
  the inside of a string, and how the parser replaces the escapes.
 */
module TomlString {
  import opened Bytes
  import opened Options
  import opened Utf8

  const QUOTE: Byte := 34
  const BACKSLASH: Byte := 92

  // ---------- quoting ----------

  function Escaped(b: Byte): Blob {
    if b == 9 then [BACKSLASH, 116]
    else if b == 10 then [BACKSLASH, 110]
    else if b == 13 then [BACKSLASH, 114]
    else if b == QUOTE then [BACKSLASH, QUOTE]
    else if b == BACKSLASH then [BACKSLASH, BACKSLASH]
    else [b]
  }

  function Replacer(s: Blob): Blob { if s == [] then [] else Escaped(s[0]) + Replacer(s[1..]) }

  // ---------- scanning ----------

  predicate IsNL(r: int) { r == 10 || r == 13 }

  predicate IsHex(r: int) { 48 <= r <= 57 || 97 <= r <= 102 || 65 <= r <= 70 }

  predicate HexDigits(s: Blob, n: nat) { n <= |s| && forall i :: 0 <= i < n ==> IsHex(s[i]) }

  /** The length of the escape whose backslash has been read, if it is one. */
  function EscapeLen(s: Blob): (r: Option<nat>)
    ensures r.Some? ==> 1 <= r.value <= |s|
  {
    if s == [] then None
    else if s[0] in {98, 116, 110, 102, 114, QUOTE, BACKSLASH} then Some(1)
    else if s[0] == 117 && HexDigits(s[1..], 4) then Some(5)
    else if s[0] == 85 && HexDigits(s[1..], 8) then Some(9)
    else None
  }

  /** The bytes of one character inside a string: a rune that is neither a line break nor a
      quote, or an escape. */
  function CharLen(s: Blob): (r: Option<nat>)
    ensures r.Some? ==> 1 <= r.value <= |s|
  {
    if s == [] then None
    else
      var d := DecodeRune(s);
      if IsNL(d.0) || d.0 == QUOTE then None
      else if d.0 != BACKSLASH then Some(d.1)
      else
        var e := EscapeLen(s[1..]);
        if e.None? then None else Some(1 + e.value)
  }

  predicate WellEscaped(b: Blob) {
    b != [] ==> CharLen(b).Some? && WellEscaped(b[CharLen(b).value..])
  }

  /** The position of the closing quote of a string whose text begins at p, if the text is well
      formed up to it. */
  function Scan(s: Blob, p: nat): (r: Option<nat>)
    requires p <= |s|
    ensures r.Some? ==> p <= r.value < |s|
    decreases |s| - p
  {
    if p < |s| && s[p] == QUOTE then Some(p)
    else
      var k := CharLen(s[p..]);
      if k.None? then None else Scan(s, p + k.value)
  }

  // ---------- replacing escapes ----------

  function HexValue(c: Byte): (v: nat)
    ensures v < 16 || !IsHex(c)
  {
    if 48 <= c <= 57 then c - 48 else if 97 <= c <= 102 then c - 87 else if 65 <= c <= 70 then c - 55 else 0
  }

  function ParseHex(s: Blob): nat { if s == [] then 0 else 16 * ParseHex(s[..|s| - 1]) + HexValue(s[|s| - 1]) }

  /** Conversion of a 32-bit number to a rune, a signed 32-bit one. */
  function ToRune(v: nat): int { if v < 0x8000_0000 then v else v - 0x1_0000_0000 }

  function SimpleEscape(c: Byte): Option<int> {
    if c == 98 then Some(8)
    else if c == 116 then Some(9)
    else if c == 110 then Some(10)
    else if c == 102 then Some(12)
    else if c == 114 then Some(13)
    else if c == QUOTE then Some(0x22)
    else if c == BACKSLASH then Some(0x5C)
    else None
  }

  /** The rune at the start of b and the bytes it takes; None stands for reaching one of the
      parser's bug reports or slicing out of range. */
  function Replace1(b: Blob): (r: Option<(int, nat)>)
    requires b != []
    ensures r.Some? ==> 1 <= r.value.1 <= |b|
  {
    if b[0] != BACKSLASH then Some(DecodeRune(b))
    else if |b| < 2 then None
    else if SimpleEscape(b[1]).Some? then Some((SimpleEscape(b[1]).value, 2))
    else if b[1] == 117 && HexDigits(b[2..], 4) then Some((ToRune(ParseHex(b[2..6])), 6))
    else if b[1] == 85 && HexDigits(b[2..], 8) then Some((ToRune(ParseHex(b[2..10])), 10))
    else None
  }

  function Replace(b: Blob): Option<seq<int>> {
    if b == [] then Some([])
    else if Replace1(b).None? then None
    else
      var t := Replace(b[Replace1(b).value.1..]);
      if t.None? then None else Some([Replace1(b).value.0] + t.value)
  }

  // ---------- the lexer emits only what the parser can replace ----------

  lemma CharIsReplaceable(b: Blob)
    requires CharLen(b).Some?
    ensures Replace1(b).Some? && Replace1(b).value.1 == CharLen(b).value
  {
    DecodeAscii(b);
    if b[0] == BACKSLASH { assert b[1..][1..] == b[2..]; }
  }

  lemma {:induction false} WellEscapedReplaces(b: Blob)
    requires WellEscaped(b)
    ensures Replace(b).Some?
  {
    if b == [] {
    } else {
      CharIsReplaceable(b);
      WellEscapedReplaces(b[CharLen(b).value..]);
    }
  }

  /** A character that ends at or before an ASCII byte is read the same without what follows. */
  lemma CharBefore(s: Blob, n: nat)
    requires n < |s| && s[n] < 0x80 && CharLen(s).Some? && CharLen(s).value <= n
    ensures CharLen(s[..n]) == CharLen(s)
  {
    var b := s[..n];
    assert s == b + [s[n]] + s[n + 1..];
    DecodeBefore(b, s[n], s[n + 1..]);
    DecodeAscii(s);
    if s[0] == BACKSLASH {
      var e := EscapeLen(s[1..]).value;
      assert b[1..] == s[1..][..n - 1];
      assert s[1..][1..] == s[2..] && b[1..][1..] == s[1..][1..][..n - 2];
    }
  }

  lemma Slices(s: Blob, p: nat, e: nat, k: nat)
    requires p + k <= e <= |s|
    ensures s[p..][..e - p] == s[p..e] && s[p..e][k..] == s[p + k..e]
  {
  }

  lemma OneMoreChar(s: Blob, p: nat, e: nat, k: nat)
    requires p + k <= e < |s| && s[e] == QUOTE && CharLen(s[p..]) == Some(k) && WellEscaped(s[p + k..e])
    ensures WellEscaped(s[p..e])
  {
    CharBefore(s[p..], e - p);
    Slices(s, p, e, k);
  }

  /** A scan that succeeds is at the quote, or has one character less to go. */
  lemma ScanFrom(s: Blob, p: nat, e: nat) returns (k: nat)
    requires p <= |s| && Scan(s, p) == Some(e)
    ensures p < |s|
    ensures if k == 0 then e == p && s[p] == QUOTE
            else p + k <= |s| && CharLen(s[p..]) == Some(k) && Scan(s, p + k) == Some(e)
  {
    k := if s[p] == QUOTE then 0 else CharLen(s[p..]).value;
  }

  lemma NothingScanned(s: Blob, p: nat)
    requires p <= |s|
    ensures WellEscaped(s[p..p])
  {
    assert s[p..p] == [];
  }

  /** What the lexer takes as the inside of a string is well escaped and ends at a quote. */
  lemma {:induction false} ScannedIsWellEscaped(s: Blob, p: nat, e: nat)
    requires p <= |s| && Scan(s, p) == Some(e)
    ensures s[e] == QUOTE && WellEscaped(s[p..e])
    decreases |s| - p
  {
    hide CharLen;
    var k := ScanFrom(s, p, e);
    if k == 0 {
      NothingScanned(s, p);
    } else {
      ScannedIsWellEscaped(s, p + k, e);
      OneMoreChar(s, p, e, k);
    }
  }

  /** And every well escaped text is taken as a whole, up to the quote after it. */
  lemma {:induction false} WellEscapedScans(s: Blob, p: nat, e: nat)
    requires p <= e < |s| && s[e] == QUOTE && WellEscaped(s[p..e])
    ensures Scan(s, p) == Some(e)
    decreases e - p
  {
    hide CharLen;
    if p == e {
      ScanQuote(s, p);
    } else {
      var k := ScanOne(s, p, e);
      WellEscapedScans(s, p + k, e);
    }
  }

  lemma ScanQuote(s: Blob, p: nat)
    requires p < |s| && s[p] == QUOTE
    ensures Scan(s, p) == Some(p)
  {
  }

  lemma ScanOne(s: Blob, p: nat, e: nat) returns (k: nat)
    requires p < e < |s| && s[e] == QUOTE && WellEscaped(s[p..e])
    ensures 0 < k <= e - p && WellEscaped(s[p + k..e]) && Scan(s, p) == Scan(s, p + k)
  {
    k := CharBeforeQuote(s, p, e);
    ScanChar(s, p, k);
  }

  lemma ScanChar(s: Blob, p: nat, k: nat)
    requires p < |s| && s[p] != QUOTE && CharLen(s[p..]) == Some(k)
    ensures Scan(s, p) == Scan(s, p + k)
  {
  }

  /** The first character of a well escaped text is the same with the closing quote behind it. */
  lemma CharBeforeQuote(s: Blob, p: nat, e: nat) returns (k: nat)
    requires p < e < |s| && s[e] == QUOTE && WellEscaped(s[p..e])
    ensures 0 < k <= e - p && WellEscaped(s[p + k..e]) && s[p] != QUOTE && CharLen(s[p..]) == Some(k)
  {
    var b := s[p..e];
    k := CharLen(b).value;
    assert s[p..] == b + [QUOTE] + s[e + 1..];
    CharAfter(b, s[e + 1..]);
    Slices(s, p, e, k);
  }

  lemma CharAfter(b: Blob, rest: Blob)
    requires CharLen(b).Some?
    ensures var s := b + [QUOTE] + rest;
            s[0] != QUOTE && CharLen(s) == CharLen(b)
  {
    var s := b + [QUOTE] + rest;
    DecodeBefore(b, QUOTE, rest);
    DecodeAscii(b);
    if b[0] == BACKSLASH {
      assert s[1..] == b[1..] + [QUOTE] + rest;
      assert s[1..][1..] == b[1..][1..] + [QUOTE] + rest;
      assert s[1] == b[1];
    }
  }

  // ---------- quoting and back ----------

  lemma {:induction false} ReplacerConcat(s: Blob, t: Blob)
    ensures Replacer(s + t) == Replacer(s) + Replacer(t)
  {
    if s == [] {
      assert s + t == t;
    } else {
      assert (s + t)[1..] == s[1..] + t;
      ReplacerConcat(s[1..], t);
    }
  }

  lemma {:induction false} ReplacerHigh(s: Blob)
    requires forall i :: 0 <= i < |s| ==> s[i] >= 0x80
    ensures Replacer(s) == s
  {
    if s == [] {
    } else {
      ReplacerHigh(s[1..]);
    }
  }

  /** A run of high bytes at the front of the quoted text is one of the string itself. */
  lemma {:induction false} HighPrefix(s: Blob, w: nat)
    requires w <= |Replacer(s)| && forall i :: 0 <= i < w ==> Replacer(s)[i] >= 0x80
    ensures w <= |s| && Replacer(s)[w..] == Replacer(s[w..])
    decreases w
  {
    if w == 0 {
    } else {
      assert Replacer(s)[0] == Escaped(s[0])[0];
      var t := Replacer(s[1..]);
      assert Replacer(s) == [s[0]] + t && Replacer(s)[w..] == t[w - 1..];
      assert forall i :: 0 <= i < w - 1 ==> t[i] == Replacer(s)[i + 1];
      HighPrefix(s[1..], w - 1);
      assert s[1..][w - 1..] == s[w..];
    }
  }

  /** The quoted form of any string at all is well escaped. */
  lemma {:induction false} QuotedIsWellEscaped(s: Blob)
    ensures WellEscaped(Replacer(s))
    decreases |s|
  {
    if s == [] {
    } else if s[0] < 0x80 {
      EscapedIsChar(s[0], Replacer(s[1..]));
      QuotedIsWellEscaped(s[1..]);
    } else {
      var b := Replacer(s);
      DecodeAscii(b);
      var w := DecodeRune(b).1;
      HighPrefix(s, w);
      QuotedIsWellEscaped(s[w..]);
    }
  }

  /** An escaped ASCII character is one character, whatever follows it. */
  lemma EscapedIsChar(c: Byte, rest: Blob)
    requires c < 0x80
    ensures CharLen(Escaped(c) + rest) == Some(|Escaped(c)|) && (Escaped(c) + rest)[|Escaped(c)|..] == rest
  {
    var b := Escaped(c) + rest;
    DecodeAscii(b);
    if |Escaped(c)| == 2 { assert b[1] == Escaped(c)[1] && b[1..][0] == b[1]; }
  }

  lemma RuneReplaced(r: int, rest: Blob)
    requires ValidRune(r)
    ensures var b := Replacer(EncodeRune(r)) + rest;
            b != [] && Replace1(b) == Some((r, |Replacer(EncodeRune(r))|))
  {
    var b := Replacer(EncodeRune(r)) + rest;
    if r < 0x80 {
      assert Replacer([r]) == Escaped(r);
    } else {
      EncodeAscii(r);
      ReplacerHigh(EncodeRune(r));
      DecodeEncode(r, rest);
    }
  }

  lemma {:induction false} RunesReplaced(rs: seq<int>)
    requires ValidRunes(rs)
    ensures Replace(Replacer(EncodeAll(rs))) == Some(rs)
  {
    if rs == [] {
    } else {
      var e, t := EncodeRune(rs[0]), Replacer(EncodeAll(rs[1..]));
      RunesReplaced(rs[1..]);
      ReplacerConcat(e, EncodeAll(rs[1..]));
      RuneReplaced(rs[0], t);
      assert (Replacer(e) + t)[|Replacer(e)|..] == t;
      assert Replacer(EncodeAll(rs)) == Replacer(e) + t && rs == [rs[0]] + rs[1..];
    }
  }

  /** The string that the parser makes of an item. */
  function Unquoted(b: Blob): Option<Blob> { if Replace(b).None? then None else Some(EncodeAll(Replace(b).value)) }

  /** Quoting always yields something the parser accepts, and it is the original string exactly
      when that is valid UTF-8. */
  lemma UnquoteQuoteIff(s: Blob)
    ensures Unquoted(Replacer(s)).Some?
    ensures Unquoted(Replacer(s)) == Some(s) <==> Valid(s)
  {
    QuotedIsWellEscaped(s);
    WellEscapedReplaces(Replacer(s));
    EncodeValid(Replace(Replacer(s)).value);
    if Valid(s) {
      var rs :| ValidRunes(rs) && s == EncodeAll(rs);
      RunesReplaced(rs);
    }
  }

  /** The parser's own validity check of an escaped code point cannot fail. */
  lemma EscapedRuneIsValid(v: nat)
    ensures Valid(EncodeRune(ToRune(v)))
  {
    EncodeValid([ToRune(v)]);
    assert EncodeAll([ToRune(v)]) == EncodeRune(ToRune(v));
  }

  /** Hexadecimal digits fit the 32 bits that they are parsed into. */
  lemma {:induction false} HexFits(s: Blob)
    requires HexDigits(s, |s|) && |s| <= 8
    ensures ParseHex(s) < 0x1_0000_0000
  {
    HexBound(s);
    SixteensFour();
    SixteensGrow(|s|, 8);
  }

  lemma SixteensFour()
    ensures Sixteens(4) == 0x1_0000 && Sixteens(8) == 0x1_0000_0000
  {
    assert Sixteens(2) == 256;
    assert Sixteens(6) == 256 * Sixteens(4);
  }

  ghost function Sixteens(n: nat): nat { if n == 0 then 1 else 16 * Sixteens(n - 1) }

  lemma {:induction false} SixteensGrow(n: nat, m: nat)
    requires n <= m
    ensures Sixteens(n) <= Sixteens(m)
    decreases m
  {
    if n == m {
    } else {
      SixteensGrow(n, m - 1);
    }
  }

  lemma {:induction false} HexBound(s: Blob)
    requires HexDigits(s, |s|)
    ensures ParseHex(s) < Sixteens(|s|)
  {
    if s == [] {
    } else {
      HexBound(s[..|s| - 1]);
    }
  }

  ghost function After(out: seq<int>, o: Option<seq<int>>): Option<seq<int>> {
    if o.None? then None else Some(out + o.value)
  }

  lemma ReplaceStep(s: Blob, r: nat, out: seq<int>)
    requires r < |s|
    ensures var one := Replace1(s[r..]);
            After(out, Replace(s[r..])) ==
              if one.None? then None else After(out + [one.value.0], Replace(s[r + one.value.1..]))
  {
    var one := Replace1(s[r..]);
    if one.Some? {
      assert s[r..][one.value.1..] == s[r + one.value.1..];
      var t := Replace(s[r + one.value.1..]);
      if t.Some? { assert out + ([one.value.0] + t.value) == out + [one.value.0] + t.value; }
    }
  }

  /** replaceEscapes; None where it would report a bug or slice out of range. */
  method ReplaceEscapes(s: Blob) returns (replaced: Option<seq<int>>)
    ensures replaced == Replace(s)
  {
    hide Replace1;
    var out: seq<int> := [];
    var r := 0;
    assert s[0..] == s;
    assert Replace(s) == After([], Replace(s)) by {
      if Replace(s).Some? { assert [] + Replace(s).value == Replace(s).value; }
    }
    while r < |s|
      invariant 0 <= r <= |s|
      invariant Replace(s) == After(out, Replace(s[r..]))
    {
      var step := ReplaceNext(s, r, out);
      if step.None? { return None; }
      out := out + [step.value.0];
      r := r + step.value.1;
    }
    assert s[r..] == [] && out + [] == out;
    replaced := Some(out);
  }

  /** One round of the loop, with what is left to do. */
  method ReplaceNext(s: Blob, r: nat, ghost out: seq<int>) returns (step: Option<(int, nat)>)
    requires r < |s|
    ensures step.Some? ==> 1 <= step.value.1 <= |s| - r
    ensures After(out, Replace(s[r..])) ==
              if step.None? then None else After(out + [step.value.0], Replace(s[r + step.value.1..]))
  {
    hide Replace1;
    ReplaceStep(s, r, out);
    step := ReplaceOne(s, r);
  }

  /** One round of the loop: the rune at place p and how far to go on. */
  method ReplaceOne(s: Blob, p: nat) returns (step: Option<(int, nat)>)
    requires p < |s|
    ensures step == Replace1(s[p..])
  {
    var r := p;
    if s[r] != BACKSLASH { return Some(DecodeRune(s[r..])); }
    r := r + 1;
    if r >= |s| { return None; }
    assert s[p..][1] == s[r] && s[p..][2..] == s[r + 1..];
    match s[r]
    case 98 => return Some((0x08, 2));
    case 116 => return Some((0x09, 2));
    case 110 => return Some((0x0A, 2));
    case 102 => return Some((0x0C, 2));
    case 114 => return Some((0x0D, 2));
    case 34 => return Some((0x22, 2));
    case 92 => return Some((0x5C, 2));
    case 117 =>
      if r + 5 > |s| { return None; }
      assert s[p..][2..6] == s[r + 1..r + 5];
      var c := AsciiEscapeToUnicode(s[r + 1..r + 5]);
      return if c.None? then None else Some((c.value, 6));
    case 85 =>
      if r + 9 > |s| { return None; }
      assert s[p..][2..10] == s[r + 1..r + 9];
      var c := AsciiEscapeToUnicode(s[r + 1..r + 9]);
      return if c.None? then None else Some((c.value, 10));
    case _ => return None;
  }

  method AsciiEscapeToUnicode(bs: Blob) returns (r: Option<int>)
    requires |bs| <= 8
    ensures r == if HexDigits(bs, |bs|) then Some(ToRune(ParseHex(bs))) else None
    ensures r.Some? ==> Valid(EncodeRune(r.value))
  {
    var v := 0;
    for i := 0 to |bs|
      invariant v == ParseHex(bs[..i]) && HexDigits(bs, i)
    {
      if !IsHex(bs[i]) { return None; }
      assert bs[..i + 1][..i] == bs[..i];
      v := 16 * v + HexValue(bs[i]);
    }
    assert bs[..|bs|] == bs;
    HexFits(bs);
    EscapedRuneIsValid(v);
    r := Some(ToRune(v));
  }
}
