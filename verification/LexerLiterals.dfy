/**
 * String and number literals of proto files (language/lexer.rs) as they are written, without a scanner, and that the
 * lexer reads exactly these.
 */
module LexerLiterals {
  import opened Wrappers
  import opened WireBasics
  import opened LexerSpec

  // ---------------------------------------------------------------------------- strings

  /** A character of a string literal as it is written. */
  datatype Piece = Plain(b: byte) | Letter(b: byte) | Hexed(mark: byte, digits: bytes)

  function Digit(b: byte): nat {
    if HexValue(b).Some? then HexValue(b).value else 0
  }

  predicate AllHex(s: bytes) {
    forall i :: 0 <= i < |s| ==> HexValue(s[i]).Some?
  }

  /** The number that the digits `s` behind a numeral for `v` stand for. */
  function HexNumber(v: nat, s: bytes): nat
    decreases |s|
  {
    if |s| == 0 then v else HexNumber(v * 16 + Digit(s[0]), s[1..])
  }

  predicate PieceOk(p: Piece, quote: byte) {
    match p
    case Plain(b) => b != quote && b != BACKSLASH
    case Letter(b) => Escape(b).Some?
    case Hexed(mark, digits) => HexWidth(mark) == Some(|digits|) && AllHex(digits) && IsScalar(HexNumber(0, digits))
  }

  function PieceText(p: Piece): (s: bytes)
    ensures |s| > 0
  {
    match p
    case Plain(b) => [b]
    case Letter(b) => [BACKSLASH, b]
    case Hexed(mark, digits) => [BACKSLASH, mark] + digits
  }

  function PieceChar(p: Piece): nat {
    match p
    case Plain(b) => b
    case Letter(b) => if Escape(b).Some? then Escape(b).value else 0
    case Hexed(_, digits) => HexNumber(0, digits)
  }

  predicate PiecesOk(ps: seq<Piece>, quote: byte) {
    forall i :: 0 <= i < |ps| ==> PieceOk(ps[i], quote)
  }

  function PiecesText(ps: seq<Piece>): bytes {
    if |ps| == 0 then [] else PieceText(ps[0]) + PiecesText(ps[1..])
  }

  function Chars(ps: seq<Piece>): seq<nat> {
    if |ps| == 0 then [] else [PieceChar(ps[0])] + Chars(ps[1..])
  }

  lemma {:induction false} HexReads(src: bytes, pos: nat, n: nat, v: nat, start: Position)
    requires pos <= |src|
    ensures HexAt(src, pos, n, v, start).Success? <==> pos + n <= |src| && AllHex(src[pos..pos + n])
    ensures HexAt(src, pos, n, v, start).Success? ==> HexAt(src, pos, n, v, start).value == HexNumber(v, src[pos..pos + n])
    decreases n
  {
    if n > 0 && pos < |src| && HexValue(src[pos]).Some? {
      var v' := v * 16 + HexValue(src[pos]).value;
      HexReads(src, pos + 1, n - 1, v', start);
      if pos + n <= |src| {
        var s := src[pos..pos + n];
        assert s[0] == src[pos] && s[1..] == src[pos + 1..pos + n];
        assert AllHex(s) <==> AllHex(s[1..]) by { assert forall i :: 1 <= i < n ==> s[i] == s[1..][i - 1]; }
      }
    } else if n > 0 && pos + n <= |src| {
      assert src[pos..pos + n][0] == src[pos];
    }
  }

  /** An escape reads as one piece. */
  lemma PieceReads(src: bytes, pos: nat, p: Piece, quote: byte, start: Position)
    requires !p.Plain? && PieceOk(p, quote) && Has(src, pos, PieceText(p))
    ensures src[pos] == BACKSLASH
    ensures EscapeAt(src, pos + 1, start) == Success((PieceChar(p), pos + |PieceText(p)|))
  {
    hide HexNumber, LineCol, HexAt;
    HasByte(src, pos, PieceText(p), 0);
    HasByte(src, pos, PieceText(p), 1);
    if p.Hexed? {
      HasSplit(src, pos, [BACKSLASH, p.mark], p.digits);
      HexReads(src, pos + 2, |p.digits|, 0, PosOf(src, pos + 2));
    }
  }

  /** And an escape that is accepted is one. */
  lemma PieceParses(src: bytes, pos: nat, quote: byte, start: Position) returns (p: Piece)
    requires pos < |src| && src[pos] == BACKSLASH && EscapeAt(src, pos + 1, start).Success?
    ensures !p.Plain? && PieceOk(p, quote) && Has(src, pos, PieceText(p))
    ensures EscapeAt(src, pos + 1, start) == Success((PieceChar(p), pos + |PieceText(p)|))
  {
    hide HexNumber, LineCol, HexAt;
    var b := src[pos + 1];
    assert src[pos..pos + 2] == [BACKSLASH, b];
    if Escape(b).Some? {
      p := Letter(b);
    } else {
      var n := HexWidth(b).value;
      HexReads(src, pos + 2, n, 0, PosOf(src, pos + 2));
      p := Hexed(b, src[pos + 2..pos + 2 + n]);
      HasJoin(src, pos, [BACKSLASH, b], p.digits);
    }
  }

  type Read = Result<(seq<nat>, nat), LexError>

  function Cons(c: nat, r: Read): Read {
    if r.Failure? then r else Success(([c] + r.value.0, r.value.1))
  }

  /** The literal from here is the piece and then the literal behind it. */
  lemma PieceFirst(src: bytes, pos: nat, quote: byte, p: Piece, start: Position)
    requires PieceOk(p, quote) && IsQuote(quote) && Has(src, pos, PieceText(p))
    ensures StringAt(src, pos, quote, start)
            == Cons(PieceChar(p), StringAt(src, pos + |PieceText(p)|, quote, start))
  {
    hide LineCol, EscapeAt, HexNumber;
    if p.Plain? {
      HasByte(src, pos, PieceText(p), 0);
    } else {
      PieceReads(src, pos, p, quote, start);
    }
  }

  lemma StringClosed(src: bytes, pos: nat, quote: byte, start: Position)
    requires Has(src, pos, [quote])
    ensures StringAt(src, pos, quote, start) == Success(([], pos + 1))
  {
    HasByte(src, pos, [quote], 0);
  }

  lemma {:induction false} StringReads(src: bytes, pos: nat, quote: byte, ps: seq<Piece>, start: Position)
    requires PiecesOk(ps, quote) && IsQuote(quote) && Has(src, pos, PiecesText(ps) + [quote])
    ensures StringAt(src, pos, quote, start) == Success((Chars(ps), pos + |PiecesText(ps)| + 1))
    decreases |ps|
  {
    hide PieceOk, PieceText, PieceChar, StringAt, LineCol, Has;
    if |ps| == 0 {
      assert PiecesText(ps) + [quote] == [quote];
      StringClosed(src, pos, quote, start);
    } else {
      var (p, rest) := (ps[0], ps[1..]);
      Assoc(PieceText(p), PiecesText(rest), [quote]);
      HasSplit(src, pos, PieceText(p), PiecesText(rest) + [quote]);
      StringReads(src, pos + |PieceText(p)|, quote, rest, start);
      PieceFirst(src, pos, quote, p, start);
    }
  }

  /** The first piece of a literal that is accepted. */
  lemma PieceAt(src: bytes, pos: nat, quote: byte, start: Position) returns (p: Piece)
    requires pos < |src| && src[pos] != quote && StringAt(src, pos, quote, start).Success?
    ensures PieceOk(p, quote) && Has(src, pos, PieceText(p))
  {
    hide LineCol, EscapeAt;
    if src[pos] == BACKSLASH {
      p := PieceParses(src, pos, quote, start);
    } else {
      p := Plain(src[pos]);
      assert src[pos..pos + 1] == [src[pos]];
    }
  }

  lemma StringGoesOn(src: bytes, pos: nat, quote: byte, start: Position)
    requires pos <= |src| && StringAt(src, pos, quote, start).Success?
    ensures pos < |src| && (Has(src, pos, [quote]) <==> src[pos] == quote)
  {
    hide EscapeAt;
    assert src[pos..pos + 1] == [src[pos]];
  }

  lemma {:induction false} StringParses(src: bytes, pos: nat, quote: byte, start: Position) returns (ps: seq<Piece>)
    requires pos <= |src| && IsQuote(quote) && StringAt(src, pos, quote, start).Success?
    ensures PiecesOk(ps, quote) && Has(src, pos, PiecesText(ps) + [quote])
    ensures StringAt(src, pos, quote, start) == Success((Chars(ps), pos + |PiecesText(ps)| + 1))
    decreases |src| - pos
  {
    hide PieceOk, PieceText, PieceChar, LineCol, StringAt, Has;
    StringGoesOn(src, pos, quote, start);
    if Has(src, pos, [quote]) {
      ps := [];
      StringClosed(src, pos, quote, start);
      assert [] + [quote] == [quote];
    } else {
      var p := PieceAt(src, pos, quote, start);
      PieceFirst(src, pos, quote, p, start);
      HasEnd(src, pos, PieceText(p));
      var rest := StringParses(src, pos + |PieceText(p)|, quote, start);
      ps := [p] + rest;
      assert ps[1..] == rest;
      HasJoin(src, pos, PieceText(p), PiecesText(rest) + [quote]);
      Assoc(PieceText(p), PiecesText(rest), [quote]);
    }
  }

  /** Bytes that are neither quotes nor backslashes are characters one by one, also those of one UTF-8 sequence. */
  lemma {:induction false} RawString(src: bytes, pos: nat, quote: byte, body: bytes, start: Position)
    requires IsQuote(quote) && Has(src, pos, body + [quote])
    requires forall i :: 0 <= i < |body| ==> body[i] != quote && body[i] != BACKSLASH
    ensures var r := StringAt(src, pos, quote, start);
            && r.Success? && r.value.1 == pos + |body| + 1 && |r.value.0| == |body|
            && forall i :: 0 <= i < |body| ==> r.value.0[i] == body[i]
    decreases |body|
  {
    hide LineCol, StringAt, Has;
    if |body| == 0 {
      assert body + [quote] == [quote];
      StringClosed(src, pos, quote, start);
    } else {
      assert body + [quote] == [body[0]] + (body[1..] + [quote]);
      HasSplit(src, pos, [body[0]], body[1..] + [quote]);
      RawString(src, pos + 1, quote, body[1..], start);
      PieceFirst(src, pos, quote, Plain(body[0]), start);
    }
  }

  // ---------------------------------------------------------------------------- numbers

  const POINT: byte := 46

  predicate RunByte(b: byte) { IsDigit(b) || b == UNDERSCORE }

  predicate Run(s: bytes) {
    forall i :: 0 <= i < |s| ==> RunByte(s[i])
  }

  predicate HexByte(b: byte) { HexValue(b).Some? || b == UNDERSCORE }

  predicate HexRun(s: bytes) {
    forall i :: 0 <= i < |s| ==> HexByte(s[i])
  }

  predicate HasDigit(s: bytes) {
    exists i :: 0 <= i < |s| && s[i] != UNDERSCORE
  }

  /** The number written, underscores aside. */
  function Value(s: bytes, radix: nat): nat {
    if |s| == 0 then 0
    else
      var (front, last) := (Value(s[..|s| - 1], radix), s[|s| - 1]);
      if last == UNDERSCORE then front else radix * front + Digit(last)
  }

  predicate DigitsBelow(s: bytes, radix: nat) {
    forall i :: 0 <= i < |s| && s[i] != UNDERSCORE ==> HexValue(s[i]).Some? && HexValue(s[i]).value < radix
  }

  lemma DigitSnoc(s: bytes, radix: nat)
    requires |s| > 0
    ensures var (front, last) := (s[..|s| - 1], s[|s| - 1]);
            && (HasDigit(s) <==> HasDigit(front) || last != UNDERSCORE)
            && (DigitsBelow(s, radix) ==>
                  DigitsBelow(front, radix)
                  && (last != UNDERSCORE ==> HexValue(last).Some? && HexValue(last).value < radix))
  {
    hide HexValue;
    assert forall i :: 0 <= i < |s| - 1 ==> s[..|s| - 1][i] == s[i];
  }

  lemma {:induction false} BareValue(s: bytes, radix: nat)
    requires DigitsBelow(s, radix)
    ensures var t := WithoutUnderscores(s);
            && (|t| > 0 <==> HasDigit(s)) && (|t| == 0 ==> Value(s, radix) == 0)
            && Numeral(t, radix) == if |t| == 0 then None else Some(Value(s, radix))
  {
    if |s| != 0 {
      hide DigitsBelow, HasDigit, HexValue;
      var (front, last) := (s[..|s| - 1], s[|s| - 1]);
      DigitSnoc(s, radix);
      BareValue(front, radix);
      var t := WithoutUnderscores(s);
      if last == UNDERSCORE {
        assert t == WithoutUnderscores(front);
      } else {
        assert t == WithoutUnderscores(front) + [last];
        assert t[..|t| - 1] == WithoutUnderscores(front);
      }
    }
  }

  lemma {:induction false} BareAppend(a: bytes, b: bytes)
    ensures WithoutUnderscores(a + b) == WithoutUnderscores(a) + WithoutUnderscores(b)
  {
    if |b| == 0 {
      assert a + b == a;
    } else {
      BareAppend(a, b[..|b| - 1]);
      assert (a + b)[..|a + b| - 1] == a + b[..|b| - 1];
    }
  }

  lemma {:induction false} BareRun(s: bytes)
    requires Run(s)
    ensures var t := WithoutUnderscores(s);
            (|t| > 0 <==> HasDigit(s)) && (|t| > 0 ==> IsDigit(t[|t| - 1]))
  {
    if |s| != 0 {
      var (front, last) := (s[..|s| - 1], s[|s| - 1]);
      BareRun(front);
      if last == UNDERSCORE {
        assert WithoutUnderscores(s) == WithoutUnderscores(front);
        assert forall i :: 0 <= i < |front| ==> front[i] == s[i];
      }
    }
  }

  function RunEnd(src: bytes, pos: nat): (r: nat)
    requires pos <= |src|
    ensures pos <= r <= |src| && Run(src[pos..r]) && (r < |src| ==> !RunByte(src[r]))
    decreases |src| - pos
  {
    if pos < |src| && RunByte(src[pos]) then
      var r := RunEnd(src, pos + 1);
      assert src[pos..r] == [src[pos]] + src[pos + 1..r];
      r
    else pos
  }

  lemma {:induction false} RunIs(src: bytes, pos: nat, s: bytes)
    requires Run(s) && Has(src, pos, s) && (pos + |s| < |src| ==> !RunByte(src[pos + |s|]))
    ensures RunEnd(src, pos) == pos + |s|
    decreases |s|
  {
    if |s| > 0 {
      HasByte(src, pos, s, 0);
      assert s == [s[0]] + s[1..];
      HasSplit(src, pos, [s[0]], s[1..]);
      RunIs(src, pos + 1, s[1..]);
    }
  }

  lemma {:induction false} SkipRun(src: bytes, pos: nat, dot: bool, exp: bool)
    requires pos <= |src|
    ensures NumberEnd(src, pos, dot, exp) == NumberEnd(src, RunEnd(src, pos), dot, exp)
    decreases |src| - pos
  {
    if pos < |src| && RunByte(src[pos]) { SkipRun(src, pos + 1, dot, exp); }
  }

  datatype Exponent = Exponent(mark: byte, sign: bytes, digits: bytes)

  /** A decimal literal: digits, a point with digits, an exponent. */
  datatype Decimal = Decimal(whole: bytes, point: Option<bytes>, exponent: Option<Exponent>)

  function PointText(point: Option<bytes>): bytes {
    if point.Some? then [POINT] + point.value else []
  }

  function ExponentText(e: Option<Exponent>): bytes {
    if e.Some? then [e.value.mark] + e.value.sign + e.value.digits else []
  }

  function DecimalText(n: Decimal): bytes {
    n.whole + PointText(n.point) + ExponentText(n.exponent)
  }

  predicate PointOk(point: Option<bytes>) {
    point.Some? ==> Run(point.value)
  }

  predicate SignOk(sign: bytes) {
    |sign| == 0 || (|sign| == 1 && IsSign(sign[0]))
  }

  predicate ExponentOk(e: Option<Exponent>) {
    e.Some? ==> IsExponent(e.value.mark) && SignOk(e.value.sign) && Run(e.value.digits)
  }

  predicate DecimalOk(n: Decimal) {
    |n.whole| > 0 && IsDigit(n.whole[0]) && Run(n.whole) && PointOk(n.point) && ExponentOk(n.exponent)
  }

  predicate Integral(n: Decimal) {
    n.point.None? && n.exponent.None?
  }

  /** The byte behind the literal is not part of it. */
  predicate ExponentStops(dot: bool, e: Option<Exponent>, next: Option<byte>) {
    next.Some? ==>
      && !RunByte(next.value)
      && (e.None? ==> !IsExponent(next.value) && (!dot ==> next.value != POINT))
      && (e.Some? && |e.value.sign| == 0 && |e.value.digits| == 0 ==> !IsSign(next.value))
  }

  predicate DecimalStops(n: Decimal, next: Option<byte>) {
    ExponentStops(n.point.Some?, n.exponent, next)
  }

  /** From the mark of an exponent. */
  lemma MarkEnds(src: bytes, pos: nat, dot: bool, e: Exponent)
    requires ExponentOk(Some(e)) && Has(src, pos, [e.mark] + e.sign + e.digits)
    requires ExponentStops(dot, Some(e), ByteAt(src, pos + 1 + |e.sign| + |e.digits|))
    ensures pos < |src| && IsExponent(src[pos])
    ensures pos + 1 + |e.sign| <= |src|
    ensures pos + 1 < |src| && IsSign(src[pos + 1]) <==> |e.sign| == 1
    ensures Has(src, pos + 1 + |e.sign|, e.digits)
  {
    var text := [e.mark] + e.sign + e.digits;
    HasByte(src, pos, text, 0);
    if |text| > 1 { HasByte(src, pos, text, 1); }
    HasSplit(src, pos, [e.mark] + e.sign, e.digits);
  }

  /** From the place behind the whole part, or behind the fraction. */
  lemma ExponentEnds(src: bytes, pos: nat, dot: bool, e: Option<Exponent>)
    requires ExponentOk(e) && Has(src, pos, ExponentText(e))
    requires ExponentStops(dot, e, ByteAt(src, pos + |ExponentText(e)|))
    ensures NumberEnd(src, pos, dot, false) == (pos + |ExponentText(e)|, dot, e.Some?)
  {
    hide NumberEnd, Run, Has, IsSign, RunByte, IsExponent;
    HasEnd(src, pos, ExponentText(e));
    if e.None? {
      AtEnd(src, pos, dot, false);
    } else {
      var (sign, digits) := (e.value.sign, e.value.digits);
      var from := pos + 1 + |sign|;
      MarkEnds(src, pos, dot, e.value);
      AtExponent(src, pos, dot);
      SkipRun(src, from, dot, true);
      RunIs(src, from, digits);
      AtEnd(src, from + |digits|, dot, true);
    }
  }

  lemma AtEnd(src: bytes, pos: nat, dot: bool, exp: bool)
    requires pos <= |src|
    requires pos < |src| ==> !RunByte(src[pos]) && (!exp ==> !IsExponent(src[pos]) && (!dot ==> src[pos] != POINT))
    ensures NumberEnd(src, pos, dot, exp) == (pos, dot, exp)
  {
  }

  lemma AtExponent(src: bytes, pos: nat, dot: bool)
    requires pos < |src| && IsExponent(src[pos])
    ensures NumberEnd(src, pos, dot, false)
            == NumberEnd(src, if pos + 1 < |src| && IsSign(src[pos + 1]) then pos + 2 else pos + 1, dot, true)
  {
  }

  /** The byte behind a part that is followed by the rest of the literal is no digit. */
  lemma RestStops(src: bytes, pos: nat, dot: bool, e: Option<Exponent>)
    requires ExponentOk(e) && Has(src, pos, ExponentText(e))
    requires ExponentStops(dot, e, ByteAt(src, pos + |ExponentText(e)|))
    ensures pos < |src| ==> !RunByte(src[pos])
  {
    hide Run;
    if e.Some? { HasByte(src, pos, ExponentText(e), 0); }
  }

  /** From the point of a fraction. */
  lemma PointEnds(src: bytes, pos: nat, point: bytes, e: Option<Exponent>)
    requires Run(point) && ExponentOk(e) && Has(src, pos, [POINT] + point) && Has(src, pos + 1 + |point|, ExponentText(e))
    requires ExponentStops(true, e, ByteAt(src, pos + 1 + |point| + |ExponentText(e)|))
    ensures NumberEnd(src, pos, false, false) == (pos + 1 + |point| + |ExponentText(e)|, true, e.Some?)
    ensures At(src, pos, POINT)
  {
    hide NumberEnd, Run, Has, ExponentOk, ExponentText, ExponentStops, RunByte;
    HasEnd(src, pos, [POINT] + point);
    HasByte(src, pos, [POINT] + point, 0);
    AtPoint(src, pos);
    HasSplit(src, pos, [POINT], point);
    RestStops(src, pos + 1 + |point|, true, e);
    RunIs(src, pos + 1, point);
    SkipRun(src, pos + 1, true, false);
    ExponentEnds(src, pos + 1 + |point|, true, e);
  }

  /** From the place behind the whole part. */
  lemma FractionEnds(src: bytes, pos: nat, point: Option<bytes>, e: Option<Exponent>)
    requires PointOk(point) && ExponentOk(e) && Has(src, pos, PointText(point)) && Has(src, pos + |PointText(point)|, ExponentText(e))
    requires ExponentStops(point.Some?, e, ByteAt(src, pos + |PointText(point)| + |ExponentText(e)|))
    ensures NumberEnd(src, pos, false, false)
            == (pos + |PointText(point)| + |ExponentText(e)|, point.Some?, e.Some?)
    ensures pos < |src| ==> !RunByte(src[pos])
  {
    hide NumberEnd, Run, Has, ExponentOk, ExponentText, ExponentStops;
    if point.Some? {
      PointEnds(src, pos, point.value, e);
    } else {
      RestStops(src, pos, false, e);
      ExponentEnds(src, pos, false, e);
    }
  }

  lemma DecimalEnds(src: bytes, pos: nat, n: Decimal)
    requires DecimalOk(n) && Has(src, pos, DecimalText(n))
    requires DecimalStops(n, ByteAt(src, pos + |DecimalText(n)|))
    ensures NumberEnd(src, pos, false, false) == (pos + |DecimalText(n)|, n.point.Some?, n.exponent.Some?)
  {
    hide NumberEnd, Run, Has, PointOk, PointText, ExponentOk, ExponentText, ExponentStops;
    var (w, p, e) := (n.whole, PointText(n.point), ExponentText(n.exponent));
    HasSplit(src, pos, w + p, e);
    HasSplit(src, pos, w, p);
    HasEnd(src, pos, w);
    FractionEnds(src, pos + |w|, n.point, n.exponent);
    RunIs(src, pos, w);
    SkipRun(src, pos, false, false);
  }

  lemma AtPoint(src: bytes, pos: nat)
    requires At(src, pos, POINT)
    ensures NumberEnd(src, pos, false, false) == NumberEnd(src, pos + 1, true, false)
  {
  }

  lemma MarkHas(src: bytes, pos: nat) returns (sign: bytes)
    requires pos < |src| && IsExponent(src[pos])
    ensures SignOk(sign) && Has(src, pos, [src[pos]] + sign)
    ensures pos + 1 + |sign| < |src| && |sign| == 0 ==> !IsSign(src[pos + 1])
  {
    if pos + 1 < |src| && IsSign(src[pos + 1]) {
      sign := [src[pos + 1]];
      assert src[pos..pos + 2] == [src[pos]] + sign;
    } else {
      sign := [];
      assert src[pos..pos + 1] == [src[pos]] + sign;
    }
  }

  lemma ExponentFound(src: bytes, pos: nat, dot: bool) returns (e: Exponent)
    requires pos < |src| && IsExponent(src[pos])
    ensures ExponentOk(Some(e)) && Has(src, pos, [e.mark] + e.sign + e.digits)
    ensures ExponentStops(dot, Some(e), ByteAt(src, pos + 1 + |e.sign| + |e.digits|))
  {
    hide Run, Has, IsExponent, SignOk, RunByte;
    var mark := src[pos];
    var sign := MarkHas(src, pos);
    HasEnd(src, pos, [mark] + sign);
    var from := pos + 1 + |sign|;
    var end := RunEnd(src, from);
    var digits := src[from..end];
    e := Exponent(mark, sign, digits);
    HasItself(src, from, end);
    HasJoin(src, pos, [mark] + sign, digits);
  }

  lemma ExponentAt(src: bytes, pos: nat, dot: bool) returns (e: Option<Exponent>)
    requires pos <= |src| && (pos < |src| ==> !RunByte(src[pos]) && (!dot ==> src[pos] != POINT))
    ensures ExponentOk(e) && Has(src, pos, ExponentText(e))
    ensures ExponentStops(dot, e, ByteAt(src, pos + |ExponentText(e)|))
  {
    hide Run, Has;
    if pos < |src| && IsExponent(src[pos]) {
      var found := ExponentFound(src, pos, dot);
      e := Some(found);
    } else {
      e := None;
      HasItself(src, pos, pos);
    }
  }

  lemma HasItself(src: bytes, pos: nat, end: nat)
    requires pos <= end <= |src|
    ensures Has(src, pos, src[pos..end]) && Has(src, pos, [])
  {
  }

  lemma FractionAt(src: bytes, pos: nat) returns (point: Option<bytes>, e: Option<Exponent>)
    requires pos <= |src| && (pos < |src| ==> !RunByte(src[pos]))
    ensures PointOk(point) && Has(src, pos, PointText(point))
    ensures ExponentOk(e) && Has(src, pos + |PointText(point)|, ExponentText(e))
    ensures ExponentStops(point.Some?, e, ByteAt(src, pos + |PointText(point)| + |ExponentText(e)|))
  {
    hide Run, ExponentOk, ExponentText, ExponentStops;
    if pos < |src| && src[pos] == POINT {
      var end := RunEnd(src, pos + 1);
      point := Some(src[pos + 1..end]);
      assert src[pos..pos + 1] == [POINT];
      HasJoin(src, pos, [POINT], src[pos + 1..end]);
      e := ExponentAt(src, end, true);
    } else {
      point := None;
      e := ExponentAt(src, pos, false);
    }
  }

  /** Every decimal literal found has that shape. */
  lemma DecimalParses(src: bytes, pos: nat) returns (n: Decimal)
    requires pos < |src| && IsDigit(src[pos])
    ensures DecimalOk(n) && Has(src, pos, DecimalText(n)) && DecimalStops(n, ByteAt(src, pos + |DecimalText(n)|))
  {
    hide Run, Has, PointOk, PointText, ExponentOk, ExponentText, ExponentStops;
    var a := RunEnd(src, pos);
    var whole := src[pos..a];
    WholeStarts(src, pos);
    var point, e := FractionAt(src, a);
    n := Decimal(whole, point, e);
    HasJoin(src, pos, whole, PointText(point));
    HasJoin(src, pos, whole + PointText(point), ExponentText(e));
  }

  lemma WholeStarts(src: bytes, pos: nat)
    requires pos < |src| && IsDigit(src[pos])
    ensures var a := RunEnd(src, pos); a > pos && src[pos..a][0] == src[pos] && Has(src, pos, src[pos..a])
  {
  }

  /** A point or an exponent with a digit makes a float. */
  lemma FloatShape(n: Decimal)
    requires DecimalOk(n) && !Integral(n)
    ensures IsFloat(WithoutUnderscores(DecimalText(n)))
            <==> (n.exponent.Some? ==> HasDigit(n.exponent.value.digits))
  {
    hide WithoutUnderscores, Run, HasDigit;
    if n.exponent.Some? {
      var (front, e) := (n.whole + PointText(n.point), n.exponent.value);
      Assoc(front, [e.mark] + e.sign, e.digits);
      assert DecimalText(n) == front + ([e.mark] + e.sign) + e.digits;
      BareAppend(front + ([e.mark] + e.sign), e.digits);
      BareAppend(front, [e.mark] + e.sign);
      BareRun(e.digits);
      MarkIsBare(e);
    } else {
      var point := n.point.value;
      Assoc(n.whole, [POINT], point);
      assert DecimalText(n) == n.whole + [POINT] + point;
      BareAppend(n.whole + [POINT], point);
      BareAppend(n.whole, [POINT]);
      BareRun(point);
      PointIsBare();
    }
  }

  lemma MarkIsBare(e: Exponent)
    requires IsExponent(e.mark) && SignOk(e.sign)
    ensures var t := WithoutUnderscores([e.mark] + e.sign);
            |t| > 0 && !IsDigit(t[|t| - 1]) && t[|t| - 1] != POINT
  {
    var s := [e.mark] + e.sign;
    assert s[..|s| - 1] == if |e.sign| == 0 then [] else [e.mark];
  }

  lemma PointIsBare()
    ensures WithoutUnderscores([POINT]) == [POINT]
  {
    assert [POINT][..0] == [];
  }

  lemma RunBelowTen(s: bytes)
    requires Run(s)
    ensures DigitsBelow(s, 10)
  {
  }

  // -------------------------------------------------------------------- hexadecimal

  lemma {:induction false} HexRunIs(src: bytes, pos: nat, s: bytes)
    requires HexRun(s) && Has(src, pos, s) && (pos + |s| < |src| ==> !HexByte(src[pos + |s|]))
    ensures HexEnd(src, pos) == pos + |s|
    decreases |s|
  {
    if |s| > 0 {
      HasByte(src, pos, s, 0);
      assert s == [s[0]] + s[1..];
      HasSplit(src, pos, [s[0]], s[1..]);
      HexRunIs(src, pos + 1, s[1..]);
    }
  }

  lemma {:induction false} HexRunAt(src: bytes, pos: nat)
    requires pos <= |src|
    ensures var r := HexEnd(src, pos); HexRun(src[pos..r]) && (r < |src| ==> !HexByte(src[r]))
    decreases |src| - pos
  {
    var r := HexEnd(src, pos);
    if pos < |src| && HexByte(src[pos]) {
      HexRunAt(src, pos + 1);
      assert src[pos..r] == [src[pos]] + src[pos + 1..r];
    }
  }

  lemma HexBelow(s: bytes)
    requires HexRun(s)
    ensures DigitsBelow(s, 16)
  {
  }
}
