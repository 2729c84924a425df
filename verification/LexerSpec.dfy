/** What the proto lexer (language/lexer.rs) makes of a source text, byte by byte. */
module LexerSpec {
  import opened Wrappers
  import opened WireBasics

  datatype Position = Position(line: nat, column: nat, offset: nat)

  datatype Span = Span(start: Position, end: Position)

  /** Characters of a string literal are given by their code points, a float literal by its text. */
  datatype TokenKind =
    | Ident(name: bytes) | Int(value: nat) | Float(text: bytes) | Str(chars: seq<nat>)
    | LBrace | RBrace | LParen | RParen | LBracket | RBracket | Lt | Gt | Comma | Semicolon | Dot | Equals | Colon

  datatype Token = Token(kind: TokenKind, span: Span)

  datatype Comment = Comment(span: Span, text: bytes)

  datatype ErrorCode = UnexpectedToken | EndOfText

  datatype LexError = LexError(code: ErrorCode, pos: Position)

  // ------------------------------------------------------------------------- characters

  const NL: byte := 10
  const SLASH: byte := 47
  const STAR: byte := 42
  const UNDERSCORE: byte := 95
  const BACKSLASH: byte := 92
  const I64MAX: nat := 0x7FFF_FFFF_FFFF_FFFF

  predicate Whitespace(b: byte) { b == 32 || b == 9 || b == 13 || b == 10 }
  predicate IsDigit(b: byte) { 48 <= b <= 57 }
  predicate IsLetter(b: byte) { 65 <= b <= 90 || 97 <= b <= 122 }
  predicate IsIdent(b: byte) { IsLetter(b) || IsDigit(b) || b == UNDERSCORE }

  function HexValue(b: byte): (d: Option<nat>)
    ensures d.Some? ==> d.value < 16
  {
    if IsDigit(b) then Some(b - 48)
    else if 97 <= b <= 102 then Some(b - 87)
    else if 65 <= b <= 70 then Some(b - 55)
    else None
  }

  predicate At(src: bytes, pos: nat, b: byte) {
    pos < |src| && src[pos] == b
  }

  predicate Opens(src: bytes, pos: nat, second: byte) {
    At(src, pos, SLASH) && At(src, pos + 1, second)
  }

  /** `part` stands in the text at `pos`. */
  ghost predicate Has(src: bytes, pos: nat, part: bytes) {
    pos + |part| <= |src| && src[pos..pos + |part|] == part
  }

  lemma HasByte(src: bytes, pos: nat, part: bytes, i: nat)
    requires Has(src, pos, part) && i < |part|
    ensures src[pos + i] == part[i]
  {
    assert src[pos..pos + |part|][i] == part[i];
  }

  lemma HasSplit(src: bytes, pos: nat, a: bytes, b: bytes)
    requires Has(src, pos, a + b)
    ensures Has(src, pos, a) && Has(src, pos + |a|, b)
  {
    var s := src[pos..pos + |a + b|];
    assert s[..|a|] == a && s[|a|..] == b;
    assert src[pos..pos + |a|] == s[..|a|];
    assert src[pos + |a|..pos + |a| + |b|] == s[|a|..];
  }

  lemma HasJoin(src: bytes, pos: nat, a: bytes, b: bytes)
    requires Has(src, pos, a) && Has(src, pos + |a|, b)
    ensures Has(src, pos, a + b)
  {
    assert src[pos..pos + |a| + |b|] == src[pos..pos + |a|] + src[pos + |a|..pos + |a| + |b|];
  }

  lemma HasEnd(src: bytes, pos: nat, part: bytes)
    requires Has(src, pos, part)
    ensures pos + |part| <= |src|
  {
  }

  function ByteAt(src: bytes, pos: nat): Option<byte> {
    if pos < |src| then Some(src[pos]) else None
  }

  // ------------------------------------------------------------------------- positions

  /** Line and column of an offset, both from 1. */
  function LineCol(src: bytes, n: nat): (r: (nat, nat))
    requires n <= |src|
  {
    if n == 0 then (1, 1)
    else
      var (line, col) := LineCol(src, n - 1);
      if src[n - 1] == NL then (line + 1, 1) else (line, col + 1)
  }

  function PosOf(src: bytes, n: nat): Position
    requires n <= |src|
  {
    Position(LineCol(src, n).0, LineCol(src, n).1, n)
  }

  function SpanOf(src: bytes, a: nat, b: nat): Span
    requires a <= |src| && b <= |src|
  {
    Span(PosOf(src, a), PosOf(src, b))
  }

  // ---------------------------------------------------------------------------- trivia

  function LineEnd(src: bytes, pos: nat): (r: nat)
    requires pos <= |src|
    ensures pos <= r <= |src|
    decreases |src| - pos
  {
    if pos == |src| || src[pos] == NL then pos else LineEnd(src, pos + 1)
  }

  /** The end of a block comment of which `depth` levels are open; the end of the text closes them all. */
  function BlockEnd(src: bytes, pos: nat, depth: nat): (r: nat)
    requires pos <= |src|
    ensures pos <= r <= |src|
    decreases |src| - pos
  {
    if depth == 0 || pos == |src| then pos
    else if At(src, pos, STAR) && At(src, pos + 1, SLASH) then BlockEnd(src, pos + 2, depth - 1)
    else if Opens(src, pos, STAR) then BlockEnd(src, pos + 2, depth + 1)
    else BlockEnd(src, pos + 1, depth)
  }

  /** The text without the line ends at its end. */
  function TrimEnd(s: bytes): bytes {
    if |s| > 0 && (s[|s| - 1] == 10 || s[|s| - 1] == 13) then TrimEnd(s[..|s| - 1]) else s
  }

  function CommentOf(src: bytes, a: nat, b: nat): Comment
    requires a <= b <= |src|
  {
    Comment(SpanOf(src, a, b), TrimEnd(src[a..b]))
  }

  /** The end of the comment that starts here, if one does. */
  function CommentEnd(src: bytes, pos: nat): (r: Option<nat>)
    requires pos <= |src|
    ensures r.Some? ==> pos + 2 <= r.value <= |src|
  {
    if Opens(src, pos, SLASH) then
      assert LineEnd(src, pos) == LineEnd(src, pos + 1) == LineEnd(src, pos + 2);
      Some(LineEnd(src, pos))
    else if Opens(src, pos, STAR) then Some(BlockEnd(src, pos + 2, 1))
    else None
  }

  /** The comments before the next token, and where that token starts. */
  function Trivia(src: bytes, pos: nat): (r: (seq<Comment>, nat))
    requires pos <= |src|
    ensures pos <= r.1 <= |src|
    decreases |src| - pos
  {
    if pos == |src| then ([], pos)
    else if Whitespace(src[pos]) then Trivia(src, pos + 1)
    else
      var end := CommentEnd(src, pos);
      if end.None? then ([], pos)
      else
        var (comments, next) := Trivia(src, end.value);
        ([CommentOf(src, pos, end.value)] + comments, next)
  }

  // ---------------------------------------------------------------------------- numbers

  function IdentEnd(src: bytes, pos: nat): (r: nat)
    requires pos <= |src|
    ensures pos <= r <= |src| && (r < |src| ==> !IsIdent(src[r]))
    ensures forall i :: pos <= i < r ==> IsIdent(src[i])
    decreases |src| - pos
  {
    if pos < |src| && IsIdent(src[pos]) then IdentEnd(src, pos + 1) else pos
  }

  function HexEnd(src: bytes, pos: nat): (r: nat)
    requires pos <= |src|
    ensures pos <= r <= |src|
    decreases |src| - pos
  {
    if pos < |src| && (HexValue(src[pos]).Some? || src[pos] == UNDERSCORE) then HexEnd(src, pos + 1) else pos
  }

  predicate IsExponent(b: byte) { b == 101 || b == 69 }
  predicate IsSign(b: byte) { b == 43 || b == 45 }

  /** The end of a decimal literal and whether it had a point and an exponent. */
  function NumberEnd(src: bytes, pos: nat, dot: bool, exp: bool): (r: (nat, bool, bool))
    requires pos <= |src|
    ensures pos <= r.0 <= |src|
    decreases |src| - pos
  {
    if pos == |src| then (pos, dot, exp)
    else if IsDigit(src[pos]) || src[pos] == UNDERSCORE then NumberEnd(src, pos + 1, dot, exp)
    else if src[pos] == 46 && !dot && !exp then NumberEnd(src, pos + 1, true, exp)
    else if IsExponent(src[pos]) && !exp then
      NumberEnd(src, if pos + 1 < |src| && IsSign(src[pos + 1]) then pos + 2 else pos + 1, dot, true)
    else (pos, dot, exp)
  }

  function WithoutUnderscores(s: bytes): bytes {
    if |s| == 0 then []
    else WithoutUnderscores(s[..|s| - 1]) + if s[|s| - 1] == UNDERSCORE then [] else [s[|s| - 1]]
  }

  /** The value of a numeral, none for an empty one or a digit out of place. */
  function Numeral(s: bytes, radix: nat): Option<nat> {
    if |s| == 0 then None
    else
      var d := HexValue(s[|s| - 1]);
      var front := if |s| == 1 then Some(0) else Numeral(s[..|s| - 1], radix);
      if d.None? || d.value >= radix || front.None? then None else Some(radix * front.value + d.value)
  }

  /** A literal with an exponent mark needs a digit after it; every other one parses as a float. */
  predicate IsFloat(text: bytes) {
    |text| > 0 && (IsDigit(text[|text| - 1]) || text[|text| - 1] == 46)
  }

  function IntToken(text: bytes, radix: nat, start: Position): Result<TokenKind, LexError> {
    var v := Numeral(text, radix);
    if v.None? || v.value > I64MAX then Failure(LexError(UnexpectedToken, start)) else Success(Int(v.value))
  }

  predicate IsHexStart(src: bytes, pos: nat) {
    At(src, pos, 48) && (At(src, pos + 1, 120) || At(src, pos + 1, 88))
  }

  /** `lex_number` */
  function NumberAt(src: bytes, pos: nat): (r: Result<(TokenKind, nat), LexError>)
    requires pos < |src| && IsDigit(src[pos])
    ensures r.Success? ==> pos < r.value.1 <= |src|
  {
    var start := PosOf(src, pos);
    if IsHexStart(src, pos) then
      var end := HexEnd(src, pos + 2);
      var kind := IntToken(WithoutUnderscores(src[pos + 2..end]), 16, start);
      if kind.Failure? then Failure(kind.error) else Success((kind.value, end))
    else
      NumberStarts(src, pos);
      var (end, dot, exp) := NumberEnd(src, pos, false, false);
      var text := WithoutUnderscores(src[pos..end]);
      if dot || exp then
        (if IsFloat(text) then Success((Float(text), end)) else Failure(LexError(UnexpectedToken, start)))
      else
        var kind := IntToken(text, 10, start);
        if kind.Failure? then Failure(kind.error) else Success((kind.value, end))
  }

  lemma NumberStarts(src: bytes, pos: nat)
    requires pos < |src| && IsDigit(src[pos])
    ensures NumberEnd(src, pos, false, false).0 > pos
  {
  }

  // ---------------------------------------------------------------------------- strings

  /** `read_hex`: `n` hexadecimal digits, the errors at `start`. */
  function HexAt(src: bytes, pos: nat, n: nat, v: nat, start: Position): (r: Result<nat, LexError>)
    requires pos <= |src|
    ensures r.Success? ==> pos + n <= |src|
    decreases n
  {
    if n == 0 then Success(v)
    else if pos == |src| then Failure(LexError(EndOfText, start))
    else
      var d := HexValue(src[pos]);
      if d.None? then Failure(LexError(UnexpectedToken, start)) else HexAt(src, pos + 1, n - 1, v * 16 + d.value, start)
  }

  /** The single-letter escapes. */
  function Escape(b: byte): Option<nat> {
    match b
    case 110 => Some(10)
    case 116 => Some(9)
    case 114 => Some(13)
    case 92 => Some(92)
    case 39 => Some(39)
    case 34 => Some(34)
    case 48 => Some(0)
    case 97 => Some(7)
    case 98 => Some(8)
    case 102 => Some(12)
    case 118 => Some(11)
    case _ => None
  }

  function HexWidth(b: byte): Option<nat> {
    match b
    case 120 => Some(2)
    case 117 => Some(4)
    case 85 => Some(8)
    case _ => None
  }

  /** `char::from_u32` */
  predicate IsScalar(v: nat) {
    v < 0xD800 || 0xE000 <= v <= 0x10_FFFF
  }

  /** The character an escape stands for, the byte after its backslash being at `pos`, and its end. */
  function EscapeAt(src: bytes, pos: nat, start: Position): (r: Result<(nat, nat), LexError>)
    requires pos <= |src|
    ensures r.Success? ==> pos < r.value.1 <= |src|
  {
    if pos == |src| then Failure(LexError(EndOfText, start))
    else if Escape(src[pos]).Some? then Success((Escape(src[pos]).value, pos + 1))
    else if HexWidth(src[pos]).Some? then
      var n := HexWidth(src[pos]).value;
      var v := HexAt(src, pos + 1, n, 0, PosOf(src, pos + 1));
      if v.Failure? then Failure(v.error)
      else if IsScalar(v.value) then Success((v.value, pos + 1 + n))
      else Failure(LexError(UnexpectedToken, start))
    else Failure(LexError(UnexpectedToken, start))
  }

  /** The characters up to the closing quote, and the end of the literal. */
  function StringAt(src: bytes, pos: nat, quote: byte, start: Position): (r: Result<(seq<nat>, nat), LexError>)
    requires pos <= |src|
    ensures r.Success? ==> pos < r.value.1 <= |src| && src[r.value.1 - 1] == quote
    decreases |src| - pos
  {
    if pos == |src| then Failure(LexError(EndOfText, start))
    else if src[pos] == quote then Success(([], pos + 1))
    else if src[pos] == BACKSLASH then
      var esc := EscapeAt(src, pos + 1, start);
      if esc.Failure? then Failure(esc.error)
      else
        var rest := StringAt(src, esc.value.1, quote, start);
        if rest.Failure? then rest else Success(([esc.value.0] + rest.value.0, rest.value.1))
    else
      var rest := StringAt(src, pos + 1, quote, start);
      if rest.Failure? then rest else Success(([src[pos]] + rest.value.0, rest.value.1))
  }

  // ----------------------------------------------------------------------------- tokens

  function Punctuation(b: byte): Option<TokenKind> {
    match b
    case 123 => Some(LBrace)
    case 125 => Some(RBrace)
    case 40 => Some(LParen)
    case 41 => Some(RParen)
    case 91 => Some(LBracket)
    case 93 => Some(RBracket)
    case 60 => Some(Lt)
    case 62 => Some(Gt)
    case 44 => Some(Comma)
    case 59 => Some(Semicolon)
    case 46 => Some(Dot)
    case 61 => Some(Equals)
    case 58 => Some(Colon)
    case _ => None
  }

  predicate IsQuote(b: byte) { b == 34 || b == 39 }

  /** The kind and the end of the token that starts here. */
  function KindAt(src: bytes, pos: nat): (r: Result<(TokenKind, nat), LexError>)
    requires pos < |src|
    ensures r.Success? ==> pos < r.value.1 <= |src|
  {
    var b := src[pos];
    if Punctuation(b).Some? then Success((Punctuation(b).value, pos + 1))
    else if IsQuote(b) then
      var s := StringAt(src, pos + 1, b, PosOf(src, pos));
      if s.Failure? then Failure(s.error) else Success((Str(s.value.0), s.value.1))
    else if IsLetter(b) || b == UNDERSCORE then
      assert IdentEnd(src, pos) == IdentEnd(src, pos + 1);
      Success((Ident(src[pos..IdentEnd(src, pos)]), IdentEnd(src, pos)))
    else if IsDigit(b) then NumberAt(src, pos)
    else Failure(LexError(UnexpectedToken, PosOf(src, pos)))
  }

  type Lexed = Result<(seq<Token>, seq<Comment>), LexError>

  /** All tokens and comments from here to the end. */
  function Lex(src: bytes, pos: nat): Lexed
    requires pos <= |src|
    decreases |src| - pos
  {
    var (comments, start) := Trivia(src, pos);
    if start == |src| then Success(([], comments))
    else
      var kind := KindAt(src, start);
      if kind.Failure? then Failure(kind.error)
      else
        var end := kind.value.1;
        var rest := Lex(src, end);
        if rest.Failure? then rest
        else Success(([Token(kind.value.0, SpanOf(src, start, end))] + rest.value.0, comments + rest.value.1))
  }
}
