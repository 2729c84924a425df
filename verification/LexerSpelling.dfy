/** Spelling tokens out and lexing them again: every list of tokens has a text (language/lexer.rs). */
module LexerSpelling {
  import opened Wrappers
  import opened WireBasics
  import opened LexerSpec
  import opened LexerLiterals
  import opened LexerGrammar
  import opened LexerTrivia
  import opened LexerLanguage

  const SPACE: byte := 32
  const QUOTE: byte := 34

  function Digits(v: nat): (s: bytes)
    ensures |s| >= 1 && forall i :: 0 <= i < |s| ==> IsDigit(s[i])
  {
    if v < 10 then [48 + v] else Digits(v / 10) + [48 + v % 10]
  }

  lemma {:induction false} DigitsValue(v: nat)
    ensures Value(Digits(v), 10) == v
  {
    var s := Digits(v);
    if v >= 10 {
      DigitsValue(v / 10);
      assert s[..|s| - 1] == Digits(v / 10);
    } else {
      assert s[..0] == [];
    }
  }

  function HexDigit(d: nat): (b: byte)
    requires d < 16
    ensures HexValue(b) == Some(d)
  {
    if d < 10 then 48 + d else 87 + d
  }

  /** The last `n` hexadecimal digits of a number. */
  function HexDigits(v: nat, n: nat): (s: bytes)
    ensures |s| == n && AllHex(s)
    decreases n
  {
    if n == 0 then [] else HexDigits(v / 16, n - 1) + [HexDigit(v % 16)]
  }

  function Pow16(n: nat): nat {
    if n == 0 then 1 else 16 * Pow16(n - 1)
  }

  lemma {:induction false} HexNumberSnoc(v: nat, s: bytes, b: byte)
    ensures HexNumber(v, s + [b]) == HexNumber(v, s) * 16 + Digit(b)
    decreases |s|
  {
    if |s| == 0 {
      assert s + [b] == [b] && [b][1..] == [];
    } else {
      HexNumberSnoc(v * 16 + Digit(s[0]), s[1..], b);
      assert (s + [b])[1..] == s[1..] + [b];
    }
  }

  lemma {:induction false} HexDigitsValue(v: nat, n: nat)
    requires v < Pow16(n)
    ensures HexNumber(0, HexDigits(v, n)) == v
    decreases n
  {
    if n > 0 {
      HexDigitsValue(v / 16, n - 1);
      HexNumberSnoc(0, HexDigits(v / 16, n - 1), HexDigit(v % 16));
    }
  }

  /** A character of a literal: as it is, behind a backslash, or by its number. */
  function Escaped(c: nat): Piece {
    if c == QUOTE || c == BACKSLASH then Letter(c)
    else if c < 256 then Plain(c)
    else Hexed(85, HexDigits(c, 8))
  }

  lemma EscapedMeans(c: nat)
    requires IsScalar(c)
    ensures PieceOk(Escaped(c), QUOTE) && PieceChar(Escaped(c)) == c
  {
    hide HexNumber, HexDigits;
    if c >= 256 {
      assert Pow16(8) == 0x1_0000_0000 by { PowersOf16(); }
      HexDigitsValue(c, 8);
    }
  }

  lemma PowersOf16()
    ensures Pow16(8) == 0x1_0000_0000
  {
    assert Pow16(2) == 256;
    assert Pow16(4) == 16 * (16 * Pow16(2));
    assert Pow16(6) == 16 * (16 * Pow16(4));
    assert Pow16(8) == 16 * (16 * Pow16(6));
  }

  function EscapedAll(chars: seq<nat>): seq<Piece> {
    if |chars| == 0 then [] else [Escaped(chars[0])] + EscapedAll(chars[1..])
  }

  predicate Scalars(chars: seq<nat>) {
    forall i :: 0 <= i < |chars| ==> IsScalar(chars[i])
  }

  lemma {:induction false} EscapedAllMean(chars: seq<nat>)
    requires Scalars(chars)
    ensures PiecesOk(EscapedAll(chars), QUOTE) && Chars(EscapedAll(chars)) == chars
    decreases |chars|
  {
    hide PieceOk, PieceChar, Escaped, IsScalar, PiecesOk, Chars;
    if |chars| == 0 {
      assert chars == [];
      NothingMeans();
    } else {
      var (c, rest) := (chars[0], chars[1..]);
      EscapedMeans(c);
      EscapedAllMean(rest);
      PiecesFirst(Escaped(c), EscapedAll(rest));
      assert [c] + rest == chars;
    }
  }

  lemma NothingMeans()
    ensures PiecesOk([], QUOTE) && Chars([]) == []
  {
  }

  lemma PiecesFirst(p: Piece, ps: seq<Piece>)
    requires PieceOk(p, QUOTE) && PiecesOk(ps, QUOTE)
    ensures PiecesOk([p] + ps, QUOTE) && Chars([p] + ps) == [PieceChar(p)] + Chars(ps)
  {
    hide PieceOk, PieceChar;
    assert ([p] + ps)[1..] == ps;
  }

  // ----------------------------------------------------------------------------- floats

  /** `n` is a floating literal without underscores, and `text` is how it is written. */
  ghost predicate RealText(n: Decimal, text: bytes) {
    && DecimalOk(n) && !Integral(n) && (n.exponent.Some? ==> HasDigit(n.exponent.value.digits))
    && DecimalText(n) == text && WithoutUnderscores(text) == text
  }

  ghost predicate IsReal(text: bytes) {
    exists n :: RealText(n, text)
  }

  ghost function Real(text: bytes): (n: Decimal)
    requires IsReal(text)
    ensures RealText(n, text)
  {
    var n :| RealText(n, text);
    n
  }

  lemma {:induction false} BareBytes(s: bytes)
    ensures forall i :: 0 <= i < |WithoutUnderscores(s)| ==>
              WithoutUnderscores(s)[i] != UNDERSCORE && WithoutUnderscores(s)[i] in s
  {
    if |s| > 0 {
      BareBytes(s[..|s| - 1]);
      assert forall b :: b in s[..|s| - 1] ==> b in s;
    }
  }

  lemma {:induction false} AlreadyBare(s: bytes)
    requires forall i :: 0 <= i < |s| ==> s[i] != UNDERSCORE
    ensures WithoutUnderscores(s) == s
  {
    if |s| > 0 {
      AlreadyBare(s[..|s| - 1]);
      assert s[..|s| - 1] + [s[|s| - 1]] == s;
    }
  }

  lemma {:induction false} BareFirst(s: bytes)
    requires |s| > 0 && IsDigit(s[0])
    ensures |WithoutUnderscores(s)| > 0 && WithoutUnderscores(s)[0] == s[0]
  {
    if |s| > 1 {
      BareFirst(s[..|s| - 1]);
    } else {
      assert WithoutUnderscores(s) == WithoutUnderscores(s[..0]) + [s[0]];
      assert s[..0] == [];
    }
  }

  lemma BareIsRun(s: bytes)
    requires Run(s)
    ensures Run(WithoutUnderscores(s)) && (HasDigit(s) ==> HasDigit(WithoutUnderscores(s)))
  {
    var t := WithoutUnderscores(s);
    BareBytes(s);
    BareRun(s);
    forall i | 0 <= i < |t|
      ensures RunByte(t[i])
    {
      assert t[i] in s;
    }
    if HasDigit(s) { assert t[0] != UNDERSCORE; }
  }

  function BareExponent(e: Exponent): Exponent {
    e.(digits := WithoutUnderscores(e.digits))
  }

  function BareDecimal(n: Decimal): Decimal {
    Decimal(WithoutUnderscores(n.whole),
            if n.point.Some? then Some(WithoutUnderscores(n.point.value)) else None,
            if n.exponent.Some? then Some(BareExponent(n.exponent.value)) else None)
  }

  lemma BarePoint(point: Option<bytes>)
    requires PointOk(point)
    ensures var p := if point.Some? then Some(WithoutUnderscores(point.value)) else None;
            PointOk(p) && WithoutUnderscores(PointText(point)) == PointText(p)
  {
    hide Run, WithoutUnderscores;
    if point.Some? {
      BareIsRun(point.value);
      BareAppend([POINT], point.value);
      AlreadyBare([POINT]);
    } else {
      AlreadyBare([]);
    }
  }

  lemma BareExponentText(e: Option<Exponent>)
    requires ExponentOk(e)
    ensures var f := if e.Some? then Some(BareExponent(e.value)) else None;
            ExponentOk(f) && WithoutUnderscores(ExponentText(e)) == ExponentText(f)
    ensures e.Some? && HasDigit(e.value.digits) ==> HasDigit(WithoutUnderscores(e.value.digits))
  {
    hide Run, WithoutUnderscores, HasDigit;
    if e.Some? {
      BareIsRun(e.value.digits);
      BareAppend([e.value.mark] + e.value.sign, e.value.digits);
      AlreadyBare([e.value.mark] + e.value.sign);
    } else {
      AlreadyBare([]);
    }
  }

  /** Leaving the underscores out of a floating literal leaves a floating literal. */
  lemma BareIsReal(n: Decimal)
    requires DecimalOk(n) && !Integral(n) && (n.exponent.Some? ==> HasDigit(n.exponent.value.digits))
    ensures IsReal(WithoutUnderscores(DecimalText(n)))
  {
    hide Run, WithoutUnderscores, HasDigit, PointText, ExponentText, PointOk, ExponentOk;
    var (text, m) := (WithoutUnderscores(DecimalText(n)), BareDecimal(n));
    BareIsRun(n.whole);
    BareFirst(n.whole);
    BarePoint(n.point);
    BareExponentText(n.exponent);
    BareAppend(n.whole + PointText(n.point), ExponentText(n.exponent));
    BareAppend(n.whole, PointText(n.point));
    BareBytes(DecimalText(n));
    AlreadyBare(text);
    assert RealText(m, text);
  }

  // --------------------------------------------------------------------------- spelling

  /** The tokens that can be spelled: names, 63-bit integers, floating literals, strings of any characters, marks. */
  ghost predicate Spellable(k: TokenKind) {
    match k
    case Ident(name) => |name| > 0 && !IsDigit(name[0]) && forall i :: 0 <= i < |name| ==> IsIdent(name[i])
    case Int(v) => v <= I64MAX
    case Float(text) => IsReal(text)
    case Str(chars) => Scalars(chars)
    case _ => true
  }

  ghost function Spelling(k: TokenKind): Lexeme
    requires Spellable(k)
  {
    match k
    case Ident(name) => Word(name)
    case Int(v) => Number(Decimal(Digits(v), None, None))
    case Float(text) => Number(Real(text))
    case Str(chars) => Quoted(QUOTE, EscapedAll(chars))
    case _ => Mark(k)
  }

  lemma SpellingMeans(k: TokenKind)
    requires Spellable(k)
    ensures LexemeOk(Spelling(k)) && LexemeKind(Spelling(k)) == k && LexemeStops(Spelling(k), Some(SPACE))
  {
    hide Digits, Value, EscapedAll, PiecesOk, Chars, IsReal, Real, HasDigit, DecimalOk, DecimalText, WithoutUnderscores;
    if k.Int? { IntMeans(k.value); }
    if k.Float? { assert RealText(Real(k.text), k.text); }
    if k.Str? { EscapedAllMean(k.chars); }
  }

  lemma IntMeans(v: nat)
    requires v <= I64MAX
    ensures var n := Decimal(Digits(v), None, None);
            DecimalOk(n) && Value(n.whole, 10) == v && DecimalStops(n, Some(SPACE))
  {
    hide Digits, Value;
    DigitsValue(v);
  }

  ghost predicate AllSpellable(ks: seq<TokenKind>) {
    forall i :: 0 <= i < |ks| ==> Spellable(ks[i])
  }

  /** The tokens one behind the other, each followed by a space. */
  ghost function Spellings(ks: seq<TokenKind>): seq<Item>
    requires AllSpellable(ks)
  {
    if |ks| == 0 then [] else [Lexed(Spelling(ks[0])), Filler(Blank(SPACE))] + Spellings(ks[1..])
  }

  ghost function SpelledAll(ks: seq<TokenKind>): bytes
    requires AllSpellable(ks)
  {
    if |ks| == 0 then [] else LexemeText(Spelling(ks[0])) + [SPACE] + SpelledAll(ks[1..])
  }

  lemma SpellingStands(src: bytes, pos: nat, k: TokenKind, rest: bytes)
    requires Spellable(k) && pos <= |src| && src[pos..] == LexemeText(Spelling(k)) + [SPACE] + rest
    ensures var end := pos + |LexemeText(Spelling(k))|;
            && end < |src| && Stands(src, pos, Spelling(k)) && GapStands(src, end, Blank(SPACE))
            && src[end + 1..] == rest
  {
    hide Spelling, LexemeText, LexemeOk, LexemeKind, LexemeStops, Spellable;
    var text := LexemeText(Spelling(k));
    var (end, whole) := (pos + |text|, src[pos..]);
    SpellingMeans(k);
    assert whole[..|text|] == text && whole[|text|] == SPACE && whole[|text| + 1..] == rest;
    assert src[pos..end] == whole[..|text|];
    assert src[end..end + 1] == [SPACE];
    assert src[end + 1..] == whole[|text| + 1..];
  }

  lemma {:induction false} SpelledIsLaid(src: bytes, pos: nat, ks: seq<TokenKind>)
    requires AllSpellable(ks) && pos <= |src| && src[pos..] == SpelledAll(ks)
    ensures Laid(src, pos, Spellings(ks)) && KindsOf(Spellings(ks)) == ks && |CommentsOf(Spellings(ks))| == 0
    decreases |ks|
  {
    hide Spelling, LexemeText, LexemeKind, Spellable, Stands, GapStands;
    if |ks| > 0 {
      var (l, rest) := (Spelling(ks[0]), ks[1..]);
      var end := pos + |LexemeText(l)|;
      SpellingStands(src, pos, ks[0], SpelledAll(rest));
      SpellingMeans(ks[0]);
      SpelledIsLaid(src, end + 1, rest);
      LaidFirst(src, pos, l, Spellings(rest));
      assert [ks[0]] + rest == ks;
    }
  }

  lemma LaidFirst(src: bytes, pos: nat, l: Lexeme, rest: seq<Item>)
    requires var end := pos + |LexemeText(l)|;
             Stands(src, pos, l) && GapStands(src, end, Blank(SPACE)) && Laid(src, end + 1, rest)
    ensures var items := [Lexed(l), Filler(Blank(SPACE))] + rest;
            && Laid(src, pos, items) && KindsOf(items) == [LexemeKind(l)] + KindsOf(rest)
            && CommentsOf(items) == CommentsOf(rest)
  {
    hide Stands, GapStands, LexemeText, LexemeKind;
    var (items, tail) := ([Lexed(l), Filler(Blank(SPACE))] + rest, [Filler(Blank(SPACE))] + rest);
    assert items[1..] == tail && tail[1..] == rest;
    assert Laid(src, pos + |LexemeText(l)|, tail);
    assert KindsOf(tail) == [] + KindsOf(rest) == KindsOf(rest);
    assert CommentsOf(tail) == [] + CommentsOf(rest) == CommentsOf(rest);
    assert [] + CommentsOf(tail) == CommentsOf(tail);
  }

  /** A token spelled out before a space is read as that token. */
  lemma KindSpelled(src: bytes, pos: nat, k: TokenKind)
    requires Spellable(k) && Has(src, pos, LexemeText(Spelling(k)) + [SPACE])
    ensures pos < |src| && KindAt(src, pos) == Success((k, pos + |LexemeText(Spelling(k))|))
    ensures Trivia(src, pos) == ([], pos)
  {
    hide Spelling, LexemeText, LexemeOk, LexemeKind, LexemeStops, Spellable, KindAt, Trivia;
    var text := LexemeText(Spelling(k));
    HasSplit(src, pos, text, [SPACE]);
    HasByte(src, pos + |text|, [SPACE], 0);
    SpellingMeans(k);
    LexemeReads(src, pos, Spelling(k));
    NoGap(src, pos);
    NoTrivia(src, pos);
  }

  /** Lexing the spelling of any list of tokens gives exactly that list, and no comments. */
  lemma LexSpelled(ks: seq<TokenKind>)
    requires AllSpellable(ks)
    ensures LexesTo(SpelledAll(ks), 0, ks, [])
  {
    hide AllSpellable, LexesTo, Laid, KindsOf, CommentsOf;
    var src := SpelledAll(ks);
    assert src[0..] == src;
    SpelledIsLaid(src, 0, ks);
    LayoutReads(src, 0, Spellings(ks));
    assert CommentsOf(Spellings(ks)) == [];
  }

  // ------------------------------------------------------------------ every token of a text

  lemma {:induction false} PiecesAreScalars(ps: seq<Piece>, quote: byte)
    requires PiecesOk(ps, quote)
    ensures Scalars(Chars(ps))
    decreases |ps|
  {
    if |ps| > 0 {
      hide PieceOk, PieceChar, IsScalar;
      PiecesAreScalars(ps[1..], quote);
      PieceIsScalar(ps[0], quote);
    }
  }

  lemma PieceIsScalar(p: Piece, quote: byte)
    requires PieceOk(p, quote)
    ensures IsScalar(PieceChar(p))
  {
    hide HexNumber;
  }

  /** Whatever a token is written as, its meaning can be spelled. */
  lemma MeaningSpellable(l: Lexeme)
    requires LexemeOk(l)
    ensures Spellable(LexemeKind(l))
  {
    hide Value, HasDigit, DecimalOk, DecimalText, WithoutUnderscores, IsReal, PiecesOk, Chars, Scalars, HexRun;
    match l
    case Word(_) =>
    case Number(n) => if !Integral(n) { BareIsReal(n); }
    case Hexadecimal(_, _) =>
    case Quoted(quote, pieces) => PiecesAreScalars(pieces, quote);
    case Mark(_) =>
  }

  lemma {:induction false} LaidSpellable(src: bytes, pos: nat, items: seq<Item>)
    requires Laid(src, pos, items)
    ensures AllSpellable(KindsOf(items))
    decreases |items|
  {
    hide Stands, GapStands, LexemeKind, Spellable, LexemeText, GapText;
    if |items| > 0 {
      LaidSpellable(src, pos + |ItemText(items[0])|, items[1..]);
      if items[0].Lexed? {
        IsOk(src, pos, items[0].l);
        MeaningSpellable(items[0].l);
      }
    }
  }

  /**
   * Normal form: the tokens of any text that is accepted, spelled out with single spaces, are accepted again and are
   * the same tokens.
   */
  lemma SpelledAgain(src: bytes)
    requires Lex(src, 0).Success?
    ensures var ks := Kinds(Lex(src, 0).value.0);
            AllSpellable(ks) && LexesTo(SpelledAll(ks), 0, ks, [])
  {
    hide Lex, Kinds, Laid, KindsOf, CommentsOf, AllSpellable, Texts;
    var items := LayoutParses(src, 0);
    LayoutReads(src, 0, items);
    LaidSpellable(src, 0, items);
    LexSpelled(Kinds(Lex(src, 0).value.0));
  }
}
