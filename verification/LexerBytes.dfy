/**
 * The bytes of the lexical grammar (language/lexer.rs), each written out where it is used: escapes, digits, words,
 * white space, comments and line ends. Nothing here is said in terms of the tables the lexer reads.
 */
module LexerBytes {
  import opened Wrappers
  import opened WireBasics
  import opened LexerSpec
  import opened LexerLiterals
  import opened LexerGrammar
  import Spelling = LexerSpelling

  // ---------------------------------------------------------------------------- escapes

  /** A backslash and a letter or mark stand for one character, and the literal goes on behind them. */
  lemma LetterEscape(src: bytes, pos: nat, quote: byte, start: Position, letter: byte, c: nat)
    requires quote == 34 || quote == 39
    requires pos + 2 <= |src| && src[pos] == 92 && src[pos + 1] == letter
    requires (letter, c) in [(110, 10), (116, 9), (114, 13), (48, 0), (97, 7), (98, 8), (102, 12), (118, 11),
                             (34, 34), (39, 39), (92, 92)]
    ensures var rest := StringAt(src, pos + 2, quote, start);
            StringAt(src, pos, quote, start) ==
            if rest.Failure? then rest else Success(([c] + rest.value.0, rest.value.1))
  {
    hide LineCol, HexAt;
    assert EscapeAt(src, pos + 1, start) == Success((c, pos + 2));
  }

  const LOWER: bytes := [48, 49, 50, 51, 52, 53, 54, 55, 56, 57, 97, 98, 99, 100, 101, 102]
  const UPPER: bytes := [48, 49, 50, 51, 52, 53, 54, 55, 56, 57, 65, 66, 67, 68, 69, 70]

  /** The byte is the hexadecimal digit `d`, in either case. */
  predicate IsHex(b: byte, d: nat) {
    d < 16 && (b == LOWER[d] || b == UPPER[d])
  }

  predicate NoHex(b: byte) {
    b !in LOWER && b !in UPPER
  }

  lemma HexDigit(b: byte, d: nat)
    ensures IsHex(b, d) <==> HexValue(b) == Some(d)
    ensures NoHex(b) <==> HexValue(b) == None
  {
    hide HexValue;
    if d < 16 { DigitBytes(d); }
    if HexValue(b).Some? {
      DigitBytes(HexValue(b).value);
      ValueByte(b);
    } else {
      forall i | 0 <= i < 16
        ensures LOWER[i] != b && UPPER[i] != b
      {
        DigitBytes(i);
      }
    }
  }

  lemma DigitBytes(d: nat)
    requires d < 16
    ensures HexValue(LOWER[d]) == Some(d) && HexValue(UPPER[d]) == Some(d)
  {
  }

  lemma ValueByte(b: byte)
    requires HexValue(b).Some?
    ensures var v := HexValue(b).value; b == LOWER[v] || b == UPPER[v]
  {
  }

  predicate Spells(s: bytes, ds: seq<nat>) {
    |s| == |ds| && forall i :: 0 <= i < |s| ==> IsHex(s[i], ds[i])
  }

  /** The number with these digits. */
  function Number(ds: seq<nat>, radix: nat): nat {
    if |ds| == 0 then 0 else radix * Number(ds[..|ds| - 1], radix) + ds[|ds| - 1]
  }

  lemma {:induction false} SpelledNumber(s: bytes, ds: seq<nat>)
    requires Spells(s, ds)
    ensures AllHex(s) && HexNumber(0, s) == Number(ds, 16)
  {
    hide HexValue, IsHex;
    if |s| > 0 {
      var (front, last) := (s[..|s| - 1], s[|s| - 1]);
      SpelledNumber(front, ds[..|ds| - 1]);
      HexDigit(last, ds[|ds| - 1]);
      Spelling.HexNumberSnoc(0, front, last);
      assert s == front + [last];
      assert forall i :: 0 <= i < |front| ==> s[i] == front[i];
    }
  }

  /** `\x`, `\u` and `\U` take two, four and eight digits; surrogates and numbers past Unicode are refused. */
  lemma NumericEscape(src: bytes, pos: nat, quote: byte, start: Position, mark: byte, ds: seq<nat>)
    requires quote == 34 || quote == 39
    requires (mark, |ds|) in [(120, 2), (117, 4), (85, 8)]
    requires pos + 2 + |ds| <= |src| && src[pos] == 92 && src[pos + 1] == mark
    requires Spells(src[pos + 2..pos + 2 + |ds|], ds)
    ensures var c := Number(ds, 16);
            var rest := StringAt(src, pos + 2 + |ds|, quote, start);
            StringAt(src, pos, quote, start) ==
            if 0xD800 <= c < 0xE000 || c > 0x10_FFFF then Failure(LexError(UnexpectedToken, start))
            else if rest.Failure? then rest
            else Success(([c] + rest.value.0, rest.value.1))
  {
    hide LineCol, HexAt, Spells, Number, HexNumber;
    var n := |ds|;
    HexReads(src, pos + 2, n, 0, PosOf(src, pos + 2));
    SpelledNumber(src[pos + 2..pos + 2 + n], ds);
    assert Escape(mark) == None && HexWidth(mark) == Some(n);
  }

  /** A backslash before anything else is refused, and so is one at the end of the text. */
  lemma OtherEscape(src: bytes, pos: nat, quote: byte, start: Position)
    requires quote == 34 || quote == 39
    requires pos < |src| && src[pos] == 92
    ensures pos + 1 == |src| ==> StringAt(src, pos, quote, start) == Failure(LexError(EndOfText, start))
    ensures pos + 1 < |src| && src[pos + 1] !in [110, 116, 114, 48, 97, 98, 102, 118, 34, 39, 92, 120, 117, 85] ==>
              StringAt(src, pos, quote, start) == Failure(LexError(UnexpectedToken, start))
  {
    hide LineCol, HexAt;
  }

  /** A numeric escape with too few digits is refused where its digits begin. */
  lemma DigitMissing(src: bytes, pos: nat, quote: byte, start: Position, mark: byte, width: nat, ds: seq<nat>)
    requires quote == 34 || quote == 39
    requires (mark, width) in [(120, 2), (117, 4), (85, 8)] && |ds| < width
    requires pos + 2 + |ds| <= |src| && src[pos] == 92 && src[pos + 1] == mark
    requires Spells(src[pos + 2..pos + 2 + |ds|], ds)
    requires pos + 2 + |ds| < |src| ==> NoHex(src[pos + 2 + |ds|])
    ensures var cause := if pos + 2 + |ds| == |src| then EndOfText else UnexpectedToken;
            StringAt(src, pos, quote, start) == Failure(LexError(cause, PosOf(src, pos + 2)))
  {
    hide LineCol, HexAt, Spells;
    MissingAt(src, pos + 2, width, 0, PosOf(src, pos + 2), ds);
    assert Escape(mark) == None && HexWidth(mark) == Some(width);
  }

  lemma {:induction false} MissingAt(src: bytes, pos: nat, width: nat, v: nat, start: Position, ds: seq<nat>)
    requires |ds| < width && pos + |ds| <= |src| && Spells(src[pos..pos + |ds|], ds)
    requires pos + |ds| < |src| ==> NoHex(src[pos + |ds|])
    ensures HexAt(src, pos, width, v, start)
            == Failure(LexError(if pos + |ds| == |src| then EndOfText else UnexpectedToken, start))
    decreases |ds|
  {
    hide HexValue, IsHex, NoHex;
    if |ds| == 0 {
      if pos < |src| { HexDigit(src[pos], 0); }
    } else {
      assert src[pos..pos + |ds|][0] == src[pos];
      HexDigit(src[pos], ds[0]);
      assert src[pos + 1..pos + |ds|] == src[pos..pos + |ds|][1..];
      MissingAt(src, pos + 1, width - 1, v * 16 + ds[0], start, ds[1..]);
    }
  }

  // ---------------------------------------------------------------------------- numbers

  /** The digits `ds` in the given radix, with underscores anywhere between them. */
  predicate Written(s: bytes, ds: seq<nat>, radix: nat) {
    if |s| == 0 then |ds| == 0
    else if s[|s| - 1] == 95 then Written(s[..|s| - 1], ds, radix)
    else
      && |ds| > 0 && ds[|ds| - 1] < radix && IsHex(s[|s| - 1], ds[|ds| - 1])
      && Written(s[..|s| - 1], ds[..|ds| - 1], radix)
  }

  lemma BareSnoc(s: bytes)
    requires |s| > 0
    ensures var front := WithoutUnderscores(s[..|s| - 1]);
            WithoutUnderscores(s) == if s[|s| - 1] == 95 then front else front + [s[|s| - 1]]
  {
  }

  lemma NumeralSnoc(t: bytes, b: byte, d: nat, radix: nat)
    requires IsHex(b, d) && d < radix
    ensures var front := if |t| == 0 then Some(0) else Numeral(t, radix);
            Numeral(t + [b], radix) == if front.None? then None else Some(radix * front.value + d)
  {
    hide HexValue, IsHex;
    HexDigit(b, d);
    assert (t + [b])[..|t + [b]| - 1] == t;
  }

  lemma {:induction false} WrittenNumeral(s: bytes, ds: seq<nat>, radix: nat)
    requires Written(s, ds, radix)
    ensures var t := WithoutUnderscores(s);
            && (|t| == 0 <==> |ds| == 0)
            && Numeral(t, radix) == if |ds| == 0 then None else Some(Number(ds, radix))
  {
    hide IsHex, WithoutUnderscores, Numeral;
    if |s| > 0 {
      var (front, last) := (s[..|s| - 1], s[|s| - 1]);
      BareSnoc(s);
      if last == 95 {
        WrittenNumeral(front, ds, radix);
      } else {
        var (d, more) := (ds[|ds| - 1], ds[..|ds| - 1]);
        WrittenNumeral(front, more, radix);
        NumeralSnoc(WithoutUnderscores(front), last, d, radix);
      }
    } else {
      NothingWritten(radix);
      assert s == [];
    }
  }

  lemma NothingWritten(radix: nat)
    ensures WithoutUnderscores([]) == [] && Numeral([], radix) == None
  {
  }

  lemma {:induction false} WrittenHex(s: bytes, ds: seq<nat>, radix: nat)
    requires Written(s, ds, radix)
    ensures HexRun(s) && (radix == 10 ==> Run(s))
  {
    if |s| > 0 {
      var (front, last) := (s[..|s| - 1], s[|s| - 1]);
      if last == 95 {
        WrittenHex(front, ds, radix);
      } else {
        WrittenHex(front, ds[..|ds| - 1], radix);
        HexDigit(last, ds[|ds| - 1]);
      }
      assert forall i :: 0 <= i < |front| ==> s[i] == front[i];
    }
  }

  predicate DecimalByte(b: byte) { 48 <= b <= 57 || b == 95 }

  /** `0x` or `0X` and digits in either case: their number, if there are any and it is below 2^63. */
  lemma HexLiteral(src: bytes, pos: nat, mark: byte, s: bytes, ds: seq<nat>)
    requires mark == 120 || mark == 88
    requires Has(src, pos, [48, mark] + s) && Written(s, ds, 16)
    requires pos + 2 + |s| < |src| ==> NoHex(src[pos + 2 + |s|]) && src[pos + 2 + |s|] != 95
    ensures pos < |src| && KindAt(src, pos) ==
            if |ds| == 0 || Number(ds, 16) >= 0x8000_0000_0000_0000 then Failure(LexError(UnexpectedToken, PosOf(src, pos)))
            else Success((Int(Number(ds, 16)), pos + 2 + |s|))
  {
    hide LineCol, Written, Number, WithoutUnderscores, Numeral, HexEnd, HexRun, NumberAt, KindAt, HexValue, Has, NoHex;
    hide IsHex, HexByte, IsHexStart;
    HexPlaces(src, pos, mark, s, ds);
    WrittenNumeral(s, ds, 16);
    HexRunIs(src, pos + 2, s);
    HexNumberAt(src, pos);
    KindOfNumber(src, pos);
  }

  lemma HexPlaces(src: bytes, pos: nat, mark: byte, s: bytes, ds: seq<nat>)
    requires mark == 120 || mark == 88
    requires Has(src, pos, [48, mark] + s) && Written(s, ds, 16)
    requires pos + 2 + |s| < |src| ==> NoHex(src[pos + 2 + |s|]) && src[pos + 2 + |s|] != 95
    ensures IsHexStart(src, pos) && HexRun(s) && Has(src, pos + 2, s)
    ensures pos + 2 + |s| <= |src| && src[pos + 2..pos + 2 + |s|] == s && IsDigit(src[pos])
    ensures pos + 2 + |s| < |src| ==> !HexByte(src[pos + 2 + |s|])
  {
    hide Written, HexValue, Has, NoHex, IsHex, HexRun;
    var text := [48, mark] + s;
    HasEnd(src, pos, text);
    HasByte(src, pos, text, 0);
    HasByte(src, pos, text, 1);
    HasSplit(src, pos, [48, mark], s);
    HasIs(src, pos + 2, s);
    WrittenHex(s, ds, 16);
    if pos + 2 + |s| < |src| { HexDigit(src[pos + 2 + |s|], 0); }
  }

  lemma HasIs(src: bytes, pos: nat, s: bytes)
    requires Has(src, pos, s)
    ensures pos + |s| <= |src| && src[pos..pos + |s|] == s
  {
  }

  /** Decimal digits that nothing goes on with: their number, if it is below 2^63. */
  lemma DecimalLiteral(src: bytes, pos: nat, s: bytes, ds: seq<nat>)
    requires |s| > 0 && 48 <= s[0] <= 57
    requires Has(src, pos, s) && Written(s, ds, 10)
    requires pos + |s| < |src| ==> !DecimalByte(src[pos + |s|]) && src[pos + |s|] !in [46, 101, 69]
    requires pos + |s| < |src| && s == [48] ==> src[pos + |s|] !in [120, 88]
    ensures pos < |src| && KindAt(src, pos) ==
            if Number(ds, 10) >= 0x8000_0000_0000_0000 then Failure(LexError(UnexpectedToken, PosOf(src, pos)))
            else Success((Int(Number(ds, 10)), pos + |s|))
  {
    hide LineCol, Written, Number, WithoutUnderscores, Numeral, NumberEnd, NumberAt, KindAt, HexValue, Has, Run, HexRun;
    HasEnd(src, pos, s);
    HasByte(src, pos, s, 0);
    if |s| > 1 { HasByte(src, pos, s, 1); }
    WrittenHex(s, ds, 10);
    WrittenNumeral(s, ds, 10);
    SomeDigit(s, ds);
    var n := Decimal(s, None, None);
    assert DecimalText(n) == s;
    DecimalEnds(src, pos, n);
    assert src[pos..pos + |s|] == s by { HasIs(src, pos, s); }
    NotHex(src, pos, s);
    WholeNumberAt(src, pos);
    KindOfNumber(src, pos);
  }

  lemma {:induction false} SomeDigit(s: bytes, ds: seq<nat>)
    requires |s| > 0 && s[0] != 95 && Written(s, ds, 10)
    ensures |ds| > 0
  {
    if |s| > 1 && s[|s| - 1] == 95 { SomeDigit(s[..|s| - 1], ds); }
  }

  lemma NotHex(src: bytes, pos: nat, s: bytes)
    requires |s| > 0 && Has(src, pos, s) && Run(s)
    requires pos + |s| < |src| && s == [48] ==> src[pos + |s|] !in [120, 88]
    ensures !IsHexStart(src, pos)
  {
    if |s| > 1 {
      HasByte(src, pos, s, 1);
      assert RunByte(s[1]);
    } else {
      HasByte(src, pos, s, 0);
      assert s == [s[0]];
    }
  }

  lemma WholeNumberAt(src: bytes, pos: nat)
    requires pos < |src| && IsDigit(src[pos]) && !IsHexStart(src, pos)
    ensures var (end, dot, exp) := NumberEnd(src, pos, false, false);
            !dot && !exp ==>
              var kind := IntToken(WithoutUnderscores(src[pos..end]), 10, PosOf(src, pos));
              NumberAt(src, pos) == if kind.Failure? then Failure(kind.error) else Success((kind.value, end))
  {
    hide LineCol, NumberEnd, WithoutUnderscores, Numeral;
  }

  /** The text without its underscores. */
  function Bare(s: bytes): bytes {
    if |s| == 0 then [] else (if s[0] == 95 then [] else [s[0]]) + Bare(s[1..])
  }

  lemma {:induction false} BareMeans(s: bytes)
    ensures WithoutUnderscores(s) == Bare(s)
  {
    if |s| > 0 {
      assert [s[0]] + s[1..] == s;
      BareAppend([s[0]], s[1..]);
      BareMeans(s[1..]);
      assert [s[0]][..0] == [];
    }
  }

  predicate AllDecimal(s: bytes) {
    forall i :: 0 <= i < |s| ==> DecimalByte(s[i])
  }

  /**
   * A number with a point or an exponent is a float with its text, underscores aside; an exponent without a digit is
   * refused.
   */
  lemma FloatLiteral(src: bytes, pos: nat, whole: bytes, point: Option<bytes>, exponent: Option<(byte, bytes, bytes)>)
    requires |whole| > 0 && 48 <= whole[0] <= 57 && AllDecimal(whole)
    requires point.Some? ==> AllDecimal(point.value)
    requires exponent.Some? ==>
               var (mark, sign, digits) := exponent.value;
               (mark == 101 || mark == 69) && (sign == [] || sign == [43] || sign == [45]) && AllDecimal(digits)
    requires point.Some? || exponent.Some?
    requires var text := whole + (if point.Some? then [46] + point.value else [])
                         + (if exponent.Some? then [exponent.value.0] + exponent.value.1 + exponent.value.2 else []);
             && Has(src, pos, text)
             && (pos + |text| < |src| ==>
                   var next := src[pos + |text|];
                   && !DecimalByte(next) && (exponent.None? ==> next != 101 && next != 69)
                   && (exponent.Some? && |exponent.value.1| == 0 && |exponent.value.2| == 0 ==> next != 43 && next != 45))
    ensures var text := whole + (if point.Some? then [46] + point.value else [])
                        + (if exponent.Some? then [exponent.value.0] + exponent.value.1 + exponent.value.2 else []);
            pos < |src| && KindAt(src, pos) ==
            if exponent.Some? && (forall i :: 0 <= i < |exponent.value.2| ==> exponent.value.2[i] == 95)
            then Failure(LexError(UnexpectedToken, PosOf(src, pos)))
            else Success((Float(Bare(text)), pos + |text|))
  {
    hide LineCol, WithoutUnderscores, NumberEnd, NumberAt, KindAt, Has, Bare;
    var e := if exponent.Some? then Some(Exponent(exponent.value.0, exponent.value.1, exponent.value.2)) else None;
    var n := Decimal(whole, point, e);
    var text := DecimalText(n);
    HasEnd(src, pos, text);
    HasByte(src, pos, text, 0);
    DecimalEnds(src, pos, n);
    FloatShape(n);
    BareMeans(text);
    HasIs(src, pos, text);
    FloatNotHex(src, pos, n);
    FloatNumberAt(src, pos);
    KindOfNumber(src, pos);
  }

  lemma FloatNotHex(src: bytes, pos: nat, n: Decimal)
    requires DecimalOk(n) && !Integral(n) && Has(src, pos, DecimalText(n))
    ensures !IsHexStart(src, pos)
  {
    hide DecimalOk, DecimalText, Has;
    FloatLength(n);
    SecondByte(n);
    HasByte(src, pos, DecimalText(n), 1);
  }

  lemma FloatLength(n: Decimal)
    requires DecimalOk(n) && !Integral(n)
    ensures |DecimalText(n)| > 1
  {
  }

  lemma FloatNumberAt(src: bytes, pos: nat)
    requires pos < |src| && IsDigit(src[pos]) && !IsHexStart(src, pos)
    ensures var (end, dot, exp) := NumberEnd(src, pos, false, false);
            dot || exp ==>
              var text := WithoutUnderscores(src[pos..end]);
              NumberAt(src, pos) ==
              if IsFloat(text) then Success((Float(text), end)) else Failure(LexError(UnexpectedToken, PosOf(src, pos)))
  {
    hide LineCol, NumberEnd, WithoutUnderscores, Numeral;
  }

  // ---------------------------------------------------------------- words, marks, quotes

  predicate WordStart(b: byte) { 65 <= b <= 90 || 97 <= b <= 122 || b == 95 }
  predicate WordByte(b: byte) { WordStart(b) || 48 <= b <= 57 }

  /** A letter or an underscore, and letters, digits and underscores behind it, as many as there are. */
  lemma WordLiteral(src: bytes, pos: nat, name: bytes)
    requires |name| > 0 && WordStart(name[0]) && forall i :: 0 <= i < |name| ==> WordByte(name[i])
    requires Has(src, pos, name) && (pos + |name| < |src| ==> !WordByte(src[pos + |name|]))
    ensures pos < |src| && KindAt(src, pos) == Success((Ident(name), pos + |name|))
  {
    hide KindAt, Has;
    forall i | 0 <= i < |name|
      ensures IsIdent(name[i])
    {
      assert WordByte(name[i]);
    }
    WordReads(src, pos, name);
  }

  /** The thirteen marks. */
  lemma MarkLiteral(src: bytes, pos: nat, b: byte, kind: TokenKind)
    requires pos < |src| && src[pos] == b
    requires (b, kind) in [(123, LBrace), (125, RBrace), (40, LParen), (41, RParen), (91, LBracket), (93, RBracket),
                           (60, Lt), (62, Gt), (44, Comma), (59, Semicolon), (46, Dot), (61, Equals), (58, Colon)]
    ensures KindAt(src, pos) == Success((kind, pos + 1))
  {
    hide NumberAt, StringAt, LineCol;
    assert Punctuation(b) == Some(kind);
  }

  /** Either quote opens a string, whose errors are placed at that quote; the same quote closes it. */
  lemma QuoteLiteral(src: bytes, pos: nat)
    requires pos < |src| && (src[pos] == 34 || src[pos] == 39)
    ensures var s := StringAt(src, pos + 1, src[pos], PosOf(src, pos));
            KindAt(src, pos) == if s.Failure? then Failure(s.error) else Success((Str(s.value.0), s.value.1))
  {
    hide NumberAt, StringAt, LineCol;
  }

  /** No token starts with any other byte. */
  lemma NoToken(src: bytes, pos: nat)
    requires pos < |src| && !WordByte(src[pos])
    requires src[pos] !in [123, 125, 40, 41, 91, 93, 60, 62, 44, 59, 46, 61, 58, 34, 39]
    ensures KindAt(src, pos) == Failure(LexError(UnexpectedToken, PosOf(src, pos)))
  {
    hide NumberAt, StringAt, LineCol;
  }

  // ------------------------------------------------------------ white space and comments

  /** Space, tab, carriage return and line feed are passed over; before anything but a comment nothing else is. */
  lemma WhiteSpace(src: bytes, pos: nat)
    requires pos < |src|
    ensures src[pos] in [32, 9, 13, 10] ==> Trivia(src, pos) == Trivia(src, pos + 1)
    ensures src[pos] !in [32, 9, 13, 10] && !(src[pos] == 47 && pos + 1 < |src| && src[pos + 1] in [47, 42]) ==>
              Trivia(src, pos) == ([], pos)
  {
    hide LineCol, LineEnd, BlockEnd, TrimEnd;
  }

  /** Two slashes: a comment up to the line feed or the end of the text. */
  lemma LineComment(src: bytes, pos: nat, end: nat)
    requires pos + 2 <= end <= |src| && src[pos] == 47 && src[pos + 1] == 47
    requires forall i :: pos <= i < end ==> src[i] != 10
    requires end < |src| ==> src[end] == 10
    ensures var (more, next) := Trivia(src, end);
            Trivia(src, pos) == ([Comment(SpanOf(src, pos, end), TrimEnd(src[pos..end]))] + more, next)
  {
    hide LineCol, BlockEnd, TrimEnd;
    LineEndIs(src, pos, end);
  }

  lemma {:induction false} LineEndIs(src: bytes, pos: nat, end: nat)
    requires pos <= end <= |src| && (end < |src| ==> src[end] == 10)
    requires forall i :: pos <= i < end ==> src[i] != 10
    ensures LineEnd(src, pos) == end
    decreases end - pos
  {
    if pos < end { LineEndIs(src, pos + 1, end); }
  }

  /** A slash and a star: a comment that ends where as many are closed as were opened, or with the text. */
  lemma BlockComment(src: bytes, pos: nat)
    requires pos + 2 <= |src| && src[pos] == 47 && src[pos + 1] == 42
    ensures var end := BlockEnd(src, pos + 2, 1);
            var (more, next) := Trivia(src, end);
            Trivia(src, pos) == ([Comment(SpanOf(src, pos, end), TrimEnd(src[pos..end]))] + more, next)
  {
    hide LineCol, LineEnd, BlockEnd, TrimEnd;
  }

  lemma BlockBytes(src: bytes, pos: nat, depth: nat)
    requires pos <= |src| && depth > 0
    ensures pos == |src| ==> BlockEnd(src, pos, depth) == pos
    ensures pos + 2 <= |src| && src[pos] == 42 && src[pos + 1] == 47 && depth == 1 ==>
              BlockEnd(src, pos, depth) == pos + 2
    ensures pos + 2 <= |src| && src[pos] == 42 && src[pos + 1] == 47 && depth > 1 ==>
              BlockEnd(src, pos, depth) == BlockEnd(src, pos + 2, depth - 1)
    ensures pos + 2 <= |src| && src[pos] == 47 && src[pos + 1] == 42 ==>
              BlockEnd(src, pos, depth) == BlockEnd(src, pos + 2, depth + 1)
    ensures pos < |src| && (pos + 1 < |src| ==> (src[pos], src[pos + 1]) !in [(42, 47), (47, 42)]) ==>
              BlockEnd(src, pos, depth) == BlockEnd(src, pos + 1, depth)
  {
  }

  /** The text of a comment loses the line ends behind it, and nothing else. */
  lemma {:induction false} TrimMeaning(s: bytes)
    ensures var t := TrimEnd(s);
            && t <= s && (forall i :: |t| <= i < |s| ==> s[i] == 10 || s[i] == 13)
            && (|t| > 0 ==> t[|t| - 1] != 10 && t[|t| - 1] != 13)
  {
    if |s| > 0 && (s[|s| - 1] == 10 || s[|s| - 1] == 13) { TrimMeaning(s[..|s| - 1]); }
  }

  // -------------------------------------------------------------------------- positions

  /** Lines are one more than the line feeds before, columns the bytes since the last of them. */
  lemma {:induction false} LineColMeaning(src: bytes, n: nat)
    requires n <= |src|
    ensures var (line, column) := LineCol(src, n);
            && line == 1 + multiset(src[..n])[10]
            && 1 <= column <= n + 1
            && (forall i :: n - column + 1 <= i < n ==> src[i] != 10)
            && (column <= n ==> src[n - column] == 10)
    decreases n
  {
    if n > 0 {
      LineColMeaning(src, n - 1);
      assert src[..n] == src[..n - 1] + [src[n - 1]];
    }
  }
}
