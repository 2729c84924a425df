/** What a token looks like, and that the lexer finds a token exactly where one is written (language/lexer.rs). */
module LexerGrammar {
  import opened Wrappers
  import opened WireBasics
  import opened LexerSpec
  import opened LexerLiterals

  /** A token as it is written. */
  datatype Lexeme =
    | Word(name: bytes) | Number(n: Decimal) | Hexadecimal(mark: byte, digits: bytes)
    | Quoted(quote: byte, pieces: seq<Piece>) | Mark(kind: TokenKind)

  /** One byte for each mark of the grammar. */
  function MarkByte(k: TokenKind): Option<byte> {
    match k
    case LBrace => Some(123)
    case RBrace => Some(125)
    case LParen => Some(40)
    case RParen => Some(41)
    case LBracket => Some(91)
    case RBracket => Some(93)
    case Lt => Some(60)
    case Gt => Some(62)
    case Comma => Some(44)
    case Semicolon => Some(59)
    case Dot => Some(46)
    case Equals => Some(61)
    case Colon => Some(58)
    case _ => None
  }

  function LexemeText(l: Lexeme): bytes {
    match l
    case Word(name) => name
    case Number(n) => DecimalText(n)
    case Hexadecimal(mark, digits) => [48, mark] + digits
    case Quoted(quote, pieces) => [quote] + (PiecesText(pieces) + [quote])
    case Mark(k) => if MarkByte(k).Some? then [MarkByte(k).value] else []
  }

  predicate IsHexMark(b: byte) { b == 120 || b == 88 }

  predicate LexemeOk(l: Lexeme) {
    match l
    case Word(name) =>
      |name| > 0 && !IsDigit(name[0]) && forall i :: 0 <= i < |name| ==> IsIdent(name[i])
    case Number(n) =>
      DecimalOk(n) && if Integral(n) then Value(n.whole, 10) <= I64MAX
                      else (n.exponent.Some? ==> HasDigit(n.exponent.value.digits))
    case Hexadecimal(mark, digits) =>
      IsHexMark(mark) && HexRun(digits) && HasDigit(digits) && Value(digits, 16) <= I64MAX
    case Quoted(quote, pieces) => IsQuote(quote) && PiecesOk(pieces, quote)
    case Mark(k) => MarkByte(k).Some?
  }

  /** The byte behind the token does not go on with it. */
  predicate LexemeStops(l: Lexeme, next: Option<byte>) {
    match l
    case Word(_) => next.Some? ==> !IsIdent(next.value)
    case Number(n) =>
      DecimalStops(n, next) && (next.Some? && DecimalText(n) == [48] ==> !IsHexMark(next.value))
    case Hexadecimal(_, _) => next.Some? ==> !HexByte(next.value)
    case Quoted(_, _) => true
    case Mark(_) => true
  }

  function LexemeKind(l: Lexeme): TokenKind {
    match l
    case Word(name) => Ident(name)
    case Number(n) =>
      if Integral(n) then Int(Value(n.whole, 10)) else Float(WithoutUnderscores(DecimalText(n)))
    case Hexadecimal(_, digits) => Int(Value(digits, 16))
    case Quoted(_, pieces) => Str(Chars(pieces))
    case Mark(k) => k
  }

  /** The token at `pos` is written as `l`. */
  ghost predicate Stands(src: bytes, pos: nat, l: Lexeme) {
    LexemeOk(l) && Has(src, pos, LexemeText(l)) && LexemeStops(l, ByteAt(src, pos + |LexemeText(l)|))
  }

  lemma {:induction false} WordEnds(src: bytes, pos: nat, name: bytes)
    requires Has(src, pos, name) && forall i :: 0 <= i < |name| ==> IsIdent(name[i])
    requires pos + |name| < |src| ==> !IsIdent(src[pos + |name|])
    ensures IdentEnd(src, pos) == pos + |name|
    decreases |name|
  {
    if |name| > 0 {
      HasByte(src, pos, name, 0);
      assert name == [name[0]] + name[1..];
      HasSplit(src, pos, [name[0]], name[1..]);
      WordEnds(src, pos + 1, name[1..]);
    }
  }

  lemma WordReads(src: bytes, pos: nat, name: bytes)
    requires Stands(src, pos, Word(name))
    ensures pos < |src| && KindAt(src, pos) == Success((Ident(name), pos + |name|))
  {
    hide NumberAt, StringAt, LineCol;
    HasByte(src, pos, name, 0);
    WordEnds(src, pos, name);
  }

  lemma KindOfQuoted(src: bytes, pos: nat)
    requires pos < |src| && IsQuote(src[pos])
    ensures var s := StringAt(src, pos + 1, src[pos], PosOf(src, pos));
            KindAt(src, pos) == if s.Failure? then Failure(s.error) else Success((Str(s.value.0), s.value.1))
  {
    hide NumberAt, StringAt, LineCol;
  }

  lemma QuotedReads(src: bytes, pos: nat, quote: byte, pieces: seq<Piece>)
    requires Stands(src, pos, Quoted(quote, pieces))
    ensures pos < |src| && KindAt(src, pos) == Success((Str(Chars(pieces)), pos + |PiecesText(pieces)| + 2))
  {
    hide KindAt, StringAt, LineCol, PiecesOk, PiecesText, Chars;
    HasByte(src, pos, LexemeText(Quoted(quote, pieces)), 0);
    HasSplit(src, pos, [quote], PiecesText(pieces) + [quote]);
    StringReads(src, pos + 1, quote, pieces, PosOf(src, pos));
    KindOfQuoted(src, pos);
  }

  lemma MarkReads(src: bytes, pos: nat, k: TokenKind)
    requires Stands(src, pos, Mark(k))
    ensures pos < |src| && KindAt(src, pos) == Success((k, pos + 1))
  {
    hide NumberAt, StringAt, LineCol;
    HasByte(src, pos, LexemeText(Mark(k)), 0);
  }

  lemma HexadecimalParts(src: bytes, pos: nat, mark: byte, digits: bytes)
    requires Stands(src, pos, Hexadecimal(mark, digits))
    ensures IsHexStart(src, pos) && Has(src, pos + 2, digits)
    ensures pos + 2 + |digits| < |src| ==> !HexByte(src[pos + 2 + |digits|])
  {
    hide HexRun, HasDigit, Value, Has, HexByte;
    var text := [48, mark] + digits;
    HasEnd(src, pos, text);
    HasByte(src, pos, text, 0);
    HasByte(src, pos, text, 1);
    HasSplit(src, pos, [48, mark], digits);
  }

  lemma HexadecimalOk(mark: byte, digits: bytes)
    requires LexemeOk(Hexadecimal(mark, digits))
    ensures HexRun(digits) && HasDigit(digits) && Value(digits, 16) <= I64MAX
  {
    hide HexRun, HasDigit, Value;
  }

  lemma IsOk(src: bytes, pos: nat, l: Lexeme)
    requires Stands(src, pos, l)
    ensures LexemeOk(l)
  {
    hide LexemeOk;
  }

  lemma HexadecimalReads(src: bytes, pos: nat, mark: byte, digits: bytes)
    requires Stands(src, pos, Hexadecimal(mark, digits))
    ensures pos < |src| && IsDigit(src[pos])
    ensures NumberAt(src, pos) == Success((Int(Value(digits, 16)), pos + 2 + |digits|))
  {
    hide WithoutUnderscores, Numeral, LineCol, HexEnd, HexRun, HasDigit, Value, NumberAt;
    hide Stands, LexemeOk, LexemeText, LexemeStops, DigitsBelow;
    HexadecimalParts(src, pos, mark, digits);
    IsOk(src, pos, Hexadecimal(mark, digits));
    HexadecimalOk(mark, digits);
    HexRunIs(src, pos + 2, digits);
    HexBelow(digits);
    BareValue(digits, 16);
    HexNumberAt(src, pos);
  }

  lemma HexNumberAt(src: bytes, pos: nat)
    requires IsHexStart(src, pos)
    ensures var end := HexEnd(src, pos + 2);
            var kind := IntToken(WithoutUnderscores(src[pos + 2..end]), 16, PosOf(src, pos));
            NumberAt(src, pos) == if kind.Failure? then Failure(kind.error) else Success((kind.value, end))
  {
    hide WithoutUnderscores, Numeral, LineCol, HexEnd, NumberEnd;
  }

  lemma FirstByte(n: Decimal)
    requires DecimalOk(n)
    ensures |DecimalText(n)| > 0 && IsDigit(DecimalText(n)[0])
  {
    hide Run;
  }

  lemma NotHexStart(src: bytes, pos: nat, n: Decimal)
    requires Stands(src, pos, Number(n))
    ensures pos < |src| && IsDigit(src[pos]) && !IsHexStart(src, pos)
  {
    hide DecimalOk, DecimalText, DecimalStops, HasDigit, Value;
    var text := DecimalText(n);
    FirstByte(n);
    HasByte(src, pos, text, 0);
    if |text| > 1 {
      HasByte(src, pos, text, 1);
      SecondByte(n);
    } else {
      assert text == [text[0]];
    }
  }

  lemma SecondByte(n: Decimal)
    requires DecimalOk(n) && |DecimalText(n)| > 1
    ensures !IsHexMark(DecimalText(n)[1])
  {
    if |n.whole| > 1 { assert RunByte(n.whole[1]); }
  }

  lemma NumberReads(src: bytes, pos: nat, n: Decimal)
    requires Stands(src, pos, Number(n))
    ensures pos < |src| && IsDigit(src[pos])
    ensures NumberAt(src, pos) == Success((LexemeKind(Number(n)), pos + |DecimalText(n)|))
  {
    hide WithoutUnderscores, Numeral, NumberEnd, LineCol, DecimalText, Run, HasDigit, Value;
    NotHexStart(src, pos, n);
    DecimalEnds(src, pos, n);
    if Integral(n) {
      WholeText(n);
      RunBelowTen(n.whole);
      BareValue(n.whole, 10);
      FirstIsDigit(n.whole);
    } else {
      FloatShape(n);
    }
  }

  lemma WholeText(n: Decimal)
    requires Integral(n)
    ensures DecimalText(n) == n.whole
  {
  }

  lemma FirstIsDigit(s: bytes)
    requires |s| > 0 && IsDigit(s[0])
    ensures HasDigit(s)
  {
  }

  lemma MarkLength(k: TokenKind)
    requires LexemeOk(Mark(k))
    ensures |LexemeText(Mark(k))| == 1
  {
  }

  lemma KindOfNumber(src: bytes, pos: nat)
    requires pos < |src| && IsDigit(src[pos])
    ensures KindAt(src, pos) == NumberAt(src, pos)
  {
    hide NumberAt, StringAt, LineCol;
  }

  /** A token written out is read as itself. */
  lemma LexemeReads(src: bytes, pos: nat, l: Lexeme)
    requires Stands(src, pos, l)
    ensures pos < |src| && KindAt(src, pos) == Success((LexemeKind(l), pos + |LexemeText(l)|))
  {
    hide KindAt, NumberAt, DecimalText, Value, HasDigit, DecimalOk, PiecesOk, PiecesText, Stands, LexemeOk;
    match l
    case Word(name) => WordReads(src, pos, name);
    case Number(n) =>
      NumberReads(src, pos, n);
      KindOfNumber(src, pos);
    case Hexadecimal(mark, digits) =>
      HexadecimalReads(src, pos, mark, digits);
      KindOfNumber(src, pos);
    case Quoted(quote, pieces) => QuotedReads(src, pos, quote, pieces);
    case Mark(k) =>
      IsOk(src, pos, l);
      MarkReads(src, pos, k);
      MarkLength(k);
  }

  lemma WordText(src: bytes, pos: nat)
    requires pos < |src| && (IsLetter(src[pos]) || src[pos] == UNDERSCORE)
    ensures LexemeOk(Word(src[pos..IdentEnd(src, pos)]))
  {
    var end := IdentEnd(src, pos);
    var name := src[pos..end];
    assert end > pos && name[0] == src[pos];
    hide IdentEnd;
    forall i | 0 <= i < |name|
      ensures IsIdent(name[i])
    {
      assert name[i] == src[pos + i];
    }
  }

  lemma WordParses(src: bytes, pos: nat)
    requires pos < |src| && (IsLetter(src[pos]) || src[pos] == UNDERSCORE)
    ensures Stands(src, pos, Word(src[pos..IdentEnd(src, pos)]))
  {
    hide IdentEnd, LexemeOk, IsIdent;
    WordText(src, pos);
  }

  lemma QuotedParses(src: bytes, pos: nat) returns (l: Lexeme)
    requires pos < |src| && IsQuote(src[pos]) && StringAt(src, pos + 1, src[pos], PosOf(src, pos)).Success?
    ensures Stands(src, pos, l)
  {
    hide StringAt, LineCol, PieceOk;
    var ps := StringParses(src, pos + 1, src[pos], PosOf(src, pos));
    l := Quoted(src[pos], ps);
    assert src[pos..pos + 1] == [src[pos]];
    HasJoin(src, pos, [src[pos]], PiecesText(ps) + [src[pos]]);
  }

  lemma HexadecimalParses(src: bytes, pos: nat) returns (l: Lexeme)
    requires IsHexStart(src, pos) && NumberAt(src, pos).Success?
    ensures Stands(src, pos, l)
  {
    hide WithoutUnderscores, Numeral, LineCol, HexEnd, HexRun, HasDigit, Value, NumberAt, DigitsBelow;
    var end := HexEnd(src, pos + 2);
    var digits := src[pos + 2..end];
    HexRunAt(src, pos + 2);
    HexNumberAt(src, pos);
    HexBelow(digits);
    BareValue(digits, 16);
    l := Hexadecimal(src[pos + 1], digits);
    HexadecimalHas(src, pos, end);
  }

  lemma HexadecimalHas(src: bytes, pos: nat, end: nat)
    requires IsHexStart(src, pos) && pos + 2 <= end <= |src|
    ensures Has(src, pos, [48, src[pos + 1]] + src[pos + 2..end])
  {
    assert src[pos..pos + 2] == [48, src[pos + 1]];
    HasJoin(src, pos, [48, src[pos + 1]], src[pos + 2..end]);
  }

  lemma NumberParses(src: bytes, pos: nat) returns (l: Lexeme)
    requires pos < |src| && IsDigit(src[pos]) && !IsHexStart(src, pos) && NumberAt(src, pos).Success?
    ensures Stands(src, pos, l)
  {
    hide WithoutUnderscores, Numeral, LineCol, NumberEnd, DecimalText, Run, HasDigit, Value, DecimalOk, ExponentStops;
    var n := DecimalParses(src, pos);
    DecimalEnds(src, pos, n);
    l := Number(n);
    if Integral(n) {
      WholeText(n);
      WholeRun(n);
      BareValue(n.whole, 10);
    } else {
      FloatShape(n);
    }
  }

  lemma WholeRun(n: Decimal)
    requires DecimalOk(n)
    ensures DigitsBelow(n.whole, 10)
  {
    RunBelowTen(n.whole);
  }

  /** Every token the lexer finds is written as the grammar says. */
  lemma LexemeParses(src: bytes, pos: nat) returns (l: Lexeme)
    requires pos < |src| && KindAt(src, pos).Success?
    ensures Stands(src, pos, l)
  {
    hide NumberAt, StringAt, LineCol, Stands;
    if Punctuation(src[pos]).Some? {
      l := Mark(Punctuation(src[pos]).value);
      MarkParses(src, pos);
    } else if IsQuote(src[pos]) {
      l := QuotedParses(src, pos);
    } else if IsHexStart(src, pos) {
      l := HexadecimalParses(src, pos);
    } else if IsDigit(src[pos]) {
      l := NumberParses(src, pos);
    } else {
      l := Word(src[pos..IdentEnd(src, pos)]);
      WordParses(src, pos);
    }
  }

  lemma MarkParses(src: bytes, pos: nat)
    requires pos < |src| && Punctuation(src[pos]).Some?
    ensures Stands(src, pos, Mark(Punctuation(src[pos]).value))
  {
    assert src[pos..pos + 1] == [src[pos]];
  }

  /** The lexer finds a token of some kind exactly where one is written, as the grammar writes it. */
  lemma TokenLanguage(src: bytes, pos: nat, k: TokenKind, end: nat)
    requires pos < |src|
    ensures KindAt(src, pos) == Success((k, end)) <==>
            exists l :: Stands(src, pos, l) && LexemeKind(l) == k && pos + |LexemeText(l)| == end
  {
    hide KindAt, Stands, LexemeKind, LexemeText, LexemeOk;
    if KindAt(src, pos) == Success((k, end)) {
      var l := LexemeParses(src, pos);
      LexemeReads(src, pos, l);
      IsOk(src, pos, l);
    }
    forall l | Stands(src, pos, l)
      ensures LexemeOk(l) && KindAt(src, pos) == Success((LexemeKind(l), pos + |LexemeText(l)|))
    {
      LexemeReads(src, pos, l);
      IsOk(src, pos, l);
    }
  }
}
