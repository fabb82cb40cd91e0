/**
  The lexer's state functions for basic strings, on the fields that they update.  The trampoline
  that calls state functions one after the other is Run.
 */
module TomlLexer {
  import opened Bytes
  import opened Options
  import opened Utf8
  import opened TomlString

  /** The states that matter here; Other is any state waiting on the stack, Stop ends lexing. */
  datatype StateFn = InString | InEscape | ShortUnicode | LongUnicode | Multiline | Other(k: nat) | Stop

  datatype Item = StringItem(val: Blob) | ErrorItem

  class Lexer {
    const input: Blob
    var start: int
    var pos: int
    var width: nat
    var stack: seq<StateFn>
    var items: seq<Item>

    /** Input always ends in a line break, which the lexer appends. */
    ghost predicate Valid()
      reads this
    {
      |input| > 0 && input[|input| - 1] == 10 && 0 <= start <= pos <= |input|
    }

    constructor (text: Blob)
      ensures Valid() && input == text + [10] && start == 0 && pos == 0 && stack == [] && items == []
    {
      input, start, pos, width, stack, items := text + [10], 0, 0, 0, [], [];
    }

    method Next() returns (r: int)
      requires 0 <= pos
      modifies this`pos, this`width
      ensures old(pos) >= |input| ==> r == 0 && width == 0 && pos == old(pos)
      ensures old(pos) < |input| ==> (r, width) == DecodeRune(input[old(pos)..]) && pos == old(pos) + width
    {
      if pos >= |input| {
        width := 0;
        return 0;
      }
      var d := DecodeRune(input[pos..]);
      r, width := d.0, d.1;
      pos := pos + width;
    }

    method Backup()
      modifies this`pos
      ensures pos == old(pos) - width
    {
      pos := pos - width;
    }

    /** Consumes the next rune if it is the given one. */
    method Accept(valid: Byte) returns (b: bool)
      requires 0 <= pos < |input| && valid < 0x80
      modifies this`pos, this`width
      ensures b <==> input[old(pos)] == valid
      ensures width == DecodeRune(input[old(pos)..]).1
      ensures pos == if b then old(pos) + 1 else old(pos)
    {
      DecodeAscii(input[pos..]);
      var r := Next();
      if r == valid { return true; }
      Backup();
      b := false;
    }

    method Ignore()
      modifies this`start
      ensures start == pos
    {
      start := pos;
    }

    method Emit()
      requires 0 <= start <= pos <= |input|
      modifies this`items, this`start
      ensures items == old(items) + [StringItem(input[old(start)..pos])] && start == pos
    {
      items := items + [StringItem(input[start..pos])];
      start := pos;
    }

    method Errorf() returns (next: StateFn)
      modifies this`items
      ensures next == Stop && items == old(items) + [ErrorItem]
    {
      items := items + [ErrorItem];
      next := Stop;
    }

    method Push(state: StateFn)
      modifies this`stack
      ensures stack == old(stack) + [state]
    {
      stack := stack + [state];
    }

    method Pop() returns (next: StateFn)
      modifies this`stack, this`items
      ensures old(stack) == [] ==> next == Stop && stack == [] && items == old(items) + [ErrorItem]
      ensures old(stack) != [] ==>
                next == old(stack)[|old(stack)| - 1] && stack == old(stack)[..|old(stack)| - 1] && items == old(items)
    {
      if |stack| == 0 {
        next := Errorf();
        return;
      }
      next := stack[|stack| - 1];
      stack := stack[..|stack| - 1];
    }

    /** The string case of lexValue, after an opening quote.  When a second quote follows but no
        third one, the position is moved back twice by the width of the rune after them. */
    method OpenString() returns (next: StateFn)
      requires Valid() && pos < |input|
      modifies this`pos, this`width, this`start
      ensures start == pos
      ensures input[old(pos)] != QUOTE ==> next == InString && pos == old(pos)
      ensures input[old(pos)] == QUOTE && input[old(pos) + 1] == QUOTE ==> next == Multiline && pos == old(pos) + 2
      ensures input[old(pos)] == QUOTE && input[old(pos) + 1] != QUOTE ==>
                next == InString && pos == old(pos) + 1 - DecodeRune(input[old(pos) + 1..]).1
    {
      var two := Accept(QUOTE);
      if two {
        var three := Accept(QUOTE);
        if three {
          Ignore();
          return Multiline;
        }
        Backup();
      }
      Ignore();
      next := InString;
    }

    method LexString() returns (next: StateFn)
      requires Valid() && pos < |input|
      modifies this
      ensures var d := DecodeRune(input[old(pos)..]);
        && (IsNL(d.0) ==> next == Stop && items == old(items) + [ErrorItem])
        && (d.0 == BACKSLASH ==> next == InEscape && pos == old(pos) + 1 && stack == old(stack) + [InString]
                                 && start == old(start) && items == old(items))
        && (d.0 == QUOTE && old(stack) != [] ==>
             && next == old(stack)[|old(stack)| - 1] && stack == old(stack)[..|old(stack)| - 1]
             && pos == start == old(pos) + 1 && items == old(items) + [StringItem(input[old(start)..old(pos)])])
        && (!IsNL(d.0) && d.0 != BACKSLASH && d.0 != QUOTE ==>
             next == InString && pos == old(pos) + d.1 && start == old(start) && stack == old(stack)
                && items == old(items))
    {
      DecodeAscii(input[pos..]);
      var r := Next();
      if IsNL(r) {
        next := Errorf();
      } else if r == BACKSLASH {
        Push(InString);
        next := InEscape;
      } else if r == QUOTE {
        Backup();
        Emit();
        var _ := Next();
        Ignore();
        next := Pop();
      } else {
        next := InString;
      }
    }

    method LexStringEscape() returns (next: StateFn)
      requires Valid() && pos < |input| && stack != []
      modifies this
      ensures var c := input[old(pos)];
        && (SimpleEscape(c).Some? ==> pos == old(pos) + 1 && next == old(stack)[|old(stack)| - 1]
                                      && stack == old(stack)[..|old(stack)| - 1] && items == old(items)
                                         && start == old(start))
        && (c == 117 || c == 85 ==> next == (if c == 117 then ShortUnicode else LongUnicode) && pos == old(pos) + 1
                                    && stack == old(stack) && items == old(items) && start == old(start))
        && (SimpleEscape(c).None? && c != 117 && c != 85 ==> next == Stop && items == old(items) + [ErrorItem])
    {
      DecodeAscii(input[pos..]);
      var r := Next();
      if r in {98, 116, 110, 102, 114, 34, 92} {
        next := Pop();
      } else if r == 117 {
        next := ShortUnicode;
      } else if r == 85 {
        next := LongUnicode;
      } else {
        next := Errorf();
      }
    }

    /** lexShortUnicodeEscape for n = 4 and lexLongUnicodeEscape for n = 8. */
    method LexUnicodeEscape(n: nat) returns (next: StateFn)
      requires Valid() && pos < |input| && stack != []
      modifies this
      ensures if HexDigits(input[old(pos)..], n)
              then pos == old(pos) + n && next == old(stack)[|old(stack)| - 1]
                 && stack == old(stack)[..|old(stack)| - 1]
                   && items == old(items) && start == old(start)
              else next == Stop && items == old(items) + [ErrorItem]
    {
      ghost var s := input[pos..];
      for i := 0 to n
        invariant pos == old(pos) + i <= |input| && HexDigits(s, i)
        invariant stack == old(stack) && items == old(items) && start == old(start)
      {
        if pos < |input| {
          assert input[pos..][0] == s[i];
          DecodeAscii(input[pos..]);
        }
        var r := Next();
        if !IsHex(r) {
          next := Errorf();
          return;
        }
      }
      next := Pop();
    }

    /** The states from one character of a string to the next. */
    method LexChar() returns (next: StateFn, ghost k: Option<nat>)
      requires Valid() && pos < |input| && stack != [] && stack[|stack| - 1].Other?
      modifies this
      ensures ScansBy(input, old(pos), k)
      ensures input[old(pos)] == QUOTE ==>
        && next == old(stack)[|old(stack)| - 1] && stack == old(stack)[..|old(stack)| - 1]
        && pos == start == old(pos) + 1 && items == old(items) + [StringItem(input[old(start)..old(pos)])]
      ensures k.Some? ==>
        && next == InString && pos == old(pos) + k.value < |input|
        && start == old(start) && stack == old(stack) && items == old(items)
      ensures input[old(pos)] != QUOTE && k.None? ==> next == Stop && items == old(items) + [ErrorItem]
    {
      ghost var s := input[pos..];
      k := CharLen(s);
      ScanStep(input, pos);
      assert s[0] == input[pos] && s[|s| - 1] == 10;
      DecodeAscii(s);
      CharNotLast(s);
      next := LexString();
      if next == InEscape {
        assert input[pos..] == s[1..];
        next := LexEscape();
      }
    }

    /** The states of an escape, whose backslash has been read. */
    method LexEscape() returns (next: StateFn)
      requires Valid() && pos < |input| && stack != [] && stack[|stack| - 1] == InString
      modifies this
      ensures var e := EscapeLen(input[old(pos)..]);
        && (e.Some? ==> next == InString && pos == old(pos) + e.value && stack == old(stack)[..|old(stack)| - 1]
                        && start == old(start) && items == old(items))
        && (e.None? ==> next == Stop && items == old(items) + [ErrorItem])
    {
      ghost var s := input[pos..];
      assert s[|s| - 1] == 10 && s[0] == input[pos];
      next := LexStringEscape();
      if next == ShortUnicode {
        assert input[pos..] == s[1..];
        next := LexUnicodeEscape(4);
      } else if next == LongUnicode {
        assert input[pos..] == s[1..];
        next := LexUnicodeEscape(8);
      }
    }

    /** From the start of a string to the state after it: the item is the text up to the closing
        quote, and lexing goes on right behind that quote.  The parser can replace every escape
        in the item. */
    method Run() returns (next: StateFn)
      requires Valid() && start == pos < |input| && stack != [] && stack[|stack| - 1].Other?
      modifies this
      ensures Ran(old(pos), Scan(input, old(pos)), next, old(stack), old(items))
      ensures Replaceable(old(items))
    {
      ghost var p := pos;
      next := RunStates();
      RanReplaceable(p, next, old(stack), old(items));
    }

    /** Every string item since items0 has only escapes that can be replaced. */
    ghost predicate Replaceable(items0: seq<Item>)
      reads this
    {
      forall i :: |items0| <= i < |items| && items[i].StringItem? ==> Replace(items[i].val).Some?
    }

    lemma RanReplaceable(p: nat, next: StateFn, stack0: seq<StateFn>, items0: seq<Item>)
      requires p <= |input| && stack0 != [] && Ran(p, Scan(input, p), next, stack0, items0)
      ensures Replaceable(items0)
    {
      var e := Scan(input, p);
      if e.Some? {
        ScannedIsWellEscaped(input, p, e.value);
        WellEscapedReplaces(input[p..e.value]);
      }
    }

    method RunStates() returns (next: StateFn)
      requires Valid() && start == pos < |input| && stack != [] && stack[|stack| - 1].Other?
      modifies this
      ensures Ran(old(pos), Scan(input, old(pos)), next, old(stack), old(items))
    {
      ghost var p, e := pos, Scan(input, pos);
      while true
        invariant Valid() && Within(p, e) && stack == old(stack) && items == old(items)
        decreases |input| - pos
      {
        next := LexNext(p, e);
        if next != InString { return; }
      }
    }

    /** Inside a string that began at p and will end at e. */
    ghost predicate Within(p: int, e: Option<nat>)
      reads this
    {
      0 <= p == start <= pos < |input| && e == Scan(input, pos)
    }

    method LexNext(ghost p: int, ghost e: Option<nat>) returns (next: StateFn)
      requires Valid() && Within(p, e) && stack != [] && stack[|stack| - 1].Other?
      modifies this
      ensures next == InString ==>
                Valid() && Within(p, e) && pos > old(pos) && stack == old(stack) && items == old(items)
      ensures next != InString ==> Ran(p, e, next, old(stack), old(items))
    {
      ghost var k;
      next, k := LexChar();
    }

    /** The outcome of the string states from p on, for a string that ends at e. */
    ghost predicate Ran(p: int, e: Option<nat>, next: StateFn, stack0: seq<StateFn>, items0: seq<Item>)
      requires 0 <= p <= |input| && stack0 != [] && (e.Some? ==> p <= e.value <= |input|)
      reads this
    {
      if e.None? then next == Stop && items == items0 + [ErrorItem]
      else Took(p, input[p..e.value], next, stack0, items0)
    }

    /** The closing quote of body was the last byte read, and body is the one new item. */
    ghost predicate Took(p: int, body: Blob, next: StateFn, stack0: seq<StateFn>, items0: seq<Item>)
      requires stack0 != []
      reads this
    {
      && next == stack0[|stack0| - 1] && stack == stack0[..|stack0| - 1]
      && pos == start == p + |body| + 1 && items == items0 + [StringItem(body)]
    }

    lemma TookElsewhere(p: int, q: int, body: Blob, next: StateFn, stack0: seq<StateFn>, items0: seq<Item>, other: Blob)
      requires stack0 != [] && Took(q, other, next, stack0, items0)
      ensures Took(p, body, next, stack0, items0) <==> p == q && body == other
    {
      assert items[|items0|] == StringItem(other);
    }

    /** Lexing the encoder's literal, after its opening quote, for any string s and any text
        after it: it stops right behind the closing quote with the quoted text as its item,
        except that an empty literal needs a one-byte rune other than a quote after it. */
    method LexLiteral(ghost s: Blob, ghost rest: Blob) returns (next: StateFn)
      requires Valid() && LiteralAt(input, pos, s, rest) && stack != [] && stack[|stack| - 1].Other?
      modifies this
      ensures Took(old(pos), Replacer(s), next, old(stack), old(items)) <==> s != [] || Narrow(rest)
    {
      LiteralBytes(input, pos, s, rest);
      next := LexBody(Replacer(s));
    }

    /** Reading back what the encoder wrote: the lexer's item with its escapes replaced is the
        original string exactly when that is valid UTF-8. */
    method ReadLiteral(ghost s: Blob, ghost rest: Blob) returns (r: Option<Blob>)
      requires Valid() && LiteralAt(input, pos, s, rest) && stack != [] && stack[|stack| - 1].Other?
      requires s != [] || Narrow(rest)
      modifies this
      ensures pos == old(pos) + |Replacer(s)| + 1
      ensures r.Some? && (r.value == s <==> Utf8.Valid(s))
    {
      UnquoteQuoteIff(s);
      var _ := LexLiteral(s, rest);
      var item := items[|items| - 1];
      assert item == StringItem(Replacer(s));
      var runes := ReplaceEscapes(item.val);
      r := if runes.None? then None else Some(EncodeAll(runes.value));
    }

    method LexBody(ghost body: Blob) returns (next: StateFn)
      requires Valid() && BodyAt(input, pos, body) && stack != [] && stack[|stack| - 1].Other?
      modifies this
      ensures Took(old(pos), body, next, old(stack), old(items)) <==> body != [] || NarrowAt(input, old(pos) + 1)
    {
      ghost var p: nat := pos;
      next := OpenString();
      if next == InString {
        ghost var q := pos;
        ghost var e := if q >= 0 then Scan(input, q) else None;
        next := LexFrom();
        if e.Some? { TookElsewhere(p, q, body, next, old(stack), old(items), input[q..e.value]); }
      }
    }

    /** The string states from a position that may be before the input, where the program stops. */
    method LexFrom() returns (next: StateFn)
      requires |input| > 0 && input[|input| - 1] == 10 && start == pos < |input| && stack != []
               && stack[|stack| - 1].Other?
      modifies this
      ensures old(pos) < 0 ==> next == Stop
      ensures old(pos) >= 0 ==> Ran(old(pos), Scan(input, old(pos)), next, old(stack), old(items))
    {
      if pos < 0 { return Stop; }
      next := Run();
    }
  }

  /** The empty literal at the start of a text, after its opening quote has been read.  Followed
      by a character of two bytes it is not taken: its closing quote is read again. */
  method LexEmptyLiteral(rest: Blob) returns (lexer: Lexer, next: StateFn)
    ensures lexer.Took(1, [], next, [Other(0)], []) <==> Narrow(rest + [10])
    ensures rest == [0xC3, 0xA9] ==> !lexer.Took(1, [], next, [Other(0)], [])
  {
    lexer := new Lexer([QUOTE, QUOTE] + rest);
    lexer.Push(Other(0));
    assert lexer.input[1..] == Replacer([]) + [QUOTE] + (rest + [10]);
    DecodeAscii(lexer.input[0..]);
    var quote := lexer.Next();
    next := lexer.LexLiteral([], rest + [10]);
    if rest == [0xC3, 0xA9] { assert rest + [10] == [0xC3, 0xA9, 10]; }
  }

  /** One character at p takes k bytes; without one the string ends there. */
  ghost predicate ScansBy(input: Blob, p: int, k: Option<nat>) {
    && 0 <= p < |input| && (k.Some? ==> 0 < k.value && p + k.value <= |input|)
    && (input[p] == QUOTE ==> Scan(input, p) == Some(p) && k.None?)
    && (input[p] != QUOTE ==> Scan(input, p) == if k.None? then None else Scan(input, p + k.value))
  }

  lemma ScanStep(input: Blob, p: nat)
    requires p < |input|
    ensures ScansBy(input, p, CharLen(input[p..]))
  {
    DecodeAscii(input[p..]);
  }

  /** No character of a string is or ends in a line break. */
  lemma CharNotLast(s: Blob)
    requires s != [] && s[|s| - 1] == 10
    ensures CharLen(s).Some? ==> CharLen(s).value < |s|
    ensures s[0] == BACKSLASH ==> |s| > 1
  {
    DecodeAscii(s);
    if s[0] == BACKSLASH { assert s[1..][|s| - 2] == 10; }
  }

  ghost predicate Narrow(rest: Blob) { rest != [] && rest[0] != QUOTE && DecodeRune(rest).1 == 1 }

  ghost predicate NarrowAt(input: Blob, p: int) { 0 <= p <= |input| && Narrow(input[p..]) }

  /** The encoder's literal for s, without its opening quote, is at p, followed by rest. */
  ghost predicate LiteralAt(input: Blob, p: int, s: Blob, rest: Blob) {
    0 <= p < |input| && input[p..] == Replacer(s) + [QUOTE] + rest
  }

  ghost predicate BodyAt(input: Blob, p: int, body: Blob) {
    && 0 <= p < |input| && Scan(input, p) == Some(p + |body|) && input[p..p + |body|] == body
    && (input[p] == QUOTE <==> body == [])
  }

  lemma LiteralBytes(input: Blob, p: int, s: Blob, rest: Blob)
    requires LiteralAt(input, p, s, rest)
    ensures BodyAt(input, p, Replacer(s)) && (s == [] <==> Replacer(s) == [])
    ensures s == [] ==> (Narrow(rest) <==> NarrowAt(input, p + 1))
  {
    QuotedIsWellEscaped(s);
    FirstQuoted(s);
    BodyBytes(input, p, Replacer(s), rest);
  }

  lemma BodyBytes(input: Blob, p: int, b: Blob, rest: Blob)
    requires 0 <= p < |input| && input[p..] == b + [QUOTE] + rest && WellEscaped(b) && (b != [] ==> b[0] != QUOTE)
    ensures BodyAt(input, p, b) && (b == [] ==> (Narrow(rest) <==> NarrowAt(input, p + 1)))
  {
    QuotedAt(input, p, b, rest);
    WellEscapedScans(input, p, p + |b|);
  }

  lemma FirstQuoted(s: Blob)
    ensures s != [] ==> Replacer(s) != [] && Replacer(s)[0] != QUOTE
  {
    if s != [] { assert Replacer(s)[0] == Escaped(s[0])[0]; }
  }

  lemma QuotedAt(input: Blob, p: int, b: Blob, rest: Blob)
    requires 0 <= p < |input| && input[p..] == b + [QUOTE] + rest
    ensures p + |b| < |input| && input[p..p + |b|] == b && input[p + |b|] == QUOTE
    ensures input[p] == (if b == [] then QUOTE else b[0])
    ensures b == [] ==> input[p + 1..] == rest
  {
    var t := input[p..];
    assert t[0] == input[p] && t[|b|] == input[p + |b|] && input[p..p + |b|] == t[..|b|];
    if b == [] { assert t == [QUOTE] + rest && input[p + 1..] == t[1..]; }
  }
}
